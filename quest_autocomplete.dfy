/** The quest picker: a text input whose (debounced) content selects the
    search request, and a panel of results driven by the mouse and by the
    arrow, Enter and Escape keys. The results of the latest request are
    passed to the handlers that read them. */
module QuestAutocomplete {
  import opened Base
  import opened Text

  /** A quest as the picker and its parent see it. */
  datatype QuestRef = QuestRef(id: int, name: string)

  /** What a handler reports to the parent through `onChange`. */
  datatype Change = Unchanged | Picked(quest: QuestRef) | Cleared

  /** The search request for the debounced input: None for the request
      without a `q` parameter (the first page), otherwise the trimmed input,
      which is then never empty. The URL encoding is not modelled. */
  function SearchQuery(debounced: string): (r: Option<string>)
    ensures r.None? <==> forall i | 0 <= i < |debounced| :: IsWhitespace(debounced[i])
    ensures r.Some? ==> r.value == Trim(debounced) && r.value != [] && IsTrimmed(r.value)
  {
    var t := Trim(debounced);
    if Utf16Length(t) > 0 then Some(t) else None
  }

  /** Inputs that differ only by surrounding whitespace make the same
      request. */
  lemma SearchQueryIgnoresPadding(a: string, b: string)
    requires Trim(a) == Trim(b)
    ensures SearchQuery(a) == SearchQuery(b)
  {
  }

  /** The row Enter picks: the highlighted one, or the first when none is
      highlighted; nothing when the highlight lies past the end of the
      results (they changed after the highlight was set) or there are no
      results. */
  function Pick(items: seq<QuestRef>, activeIdx: int): (r: Option<QuestRef>)
    ensures r.Some? ==> r.value in items
    ensures r.None? <==> |items| == 0 || activeIdx >= |items|
    ensures 0 <= activeIdx < |items| ==> r == Some(items[activeIdx])
    ensures activeIdx < 0 && |items| > 0 ==> r == Some(items[0])
  {
    if activeIdx >= 0 then (if activeIdx < |items| then Some(items[activeIdx]) else None)
    else if |items| > 0 then Some(items[0]) else None
  }

  /** The results as `onKeyDown` reads them: none while nothing has
      arrived. */
  function Items(results: Option<seq<QuestRef>>): seq<QuestRef> {
    if results.Some? then results.value else []
  }

  /** The picker's state: the text of the input, whether the panel is open,
      and the highlighted row (-1 for none). */
  class Autocomplete {
    var input: string
    var open: bool
    var activeIdx: int

    ghost predicate Valid()
      reads this
    {
      activeIdx >= -1
    }

    /** The input starts with the name of the current value, closed and
        with nothing highlighted. */
    constructor (value: Option<QuestRef>)
      ensures Valid()
      ensures input == (if value.Some? then value.value.name else "")
      ensures !open && activeIdx == -1
    {
      input := if value.Some? then value.value.name else "";
      open := false;
      activeIdx := -1;
    }

    /** `onKeyDown`. An arrow key on a closed panel only opens it. With no
        results every other key is ignored, Escape included. Otherwise
        ArrowDown moves the highlight down, stopping at the last row, and
        ArrowUp moves it up, stopping at the first; Enter picks a row
        (see `Pick`), reports it, shows its name and closes the panel,
        leaving the highlight where it was; Escape closes the panel with
        nothing highlighted. */
    method KeyDown(key: Key, results: Option<seq<QuestRef>>) returns (change: Change)
      requires Valid()
      modifies this
      ensures Valid()
      ensures change.Picked? || change == Unchanged
      ensures !old(open) && (key == ArrowDown || key == ArrowUp) ==>
        open && activeIdx == old(activeIdx) && input == old(input) && change == Unchanged
      ensures (old(open) || !(key == ArrowDown || key == ArrowUp)) && Items(results) == [] ==>
        open == old(open) && activeIdx == old(activeIdx) && input == old(input) && change == Unchanged
      ensures old(open) && key == ArrowDown && Items(results) != [] ==>
        && open && input == old(input) && change == Unchanged
        && activeIdx == Min(|Items(results)| - 1, old(activeIdx) + 1)
        && 0 <= activeIdx < |Items(results)|
        && (old(activeIdx) == -1 ==> activeIdx == 0)
      ensures old(open) && key == ArrowUp && Items(results) != [] ==>
        && open && input == old(input) && change == Unchanged
        && activeIdx == Max(0, old(activeIdx) - 1)
        && (old(activeIdx) <= |Items(results)| ==> 0 <= activeIdx < |Items(results)|)
      ensures key == Enter && Items(results) != [] ==>
        var pick := Pick(Items(results), old(activeIdx));
        && activeIdx == old(activeIdx)
        && (pick.Some? ==> change == Picked(pick.value) && input == pick.value.name && !open)
        && (pick.None? ==> change == Unchanged && input == old(input) && open == old(open))
      ensures key == Escape && Items(results) != [] ==>
        !open && activeIdx == -1 && input == old(input) && change == Unchanged
      ensures key == OtherKey ==>
        open == old(open) && activeIdx == old(activeIdx) && input == old(input) && change == Unchanged
    {
      change := Unchanged;
      if !open && (key == ArrowDown || key == ArrowUp) {
        open := true;
        return;
      }
      var items := Items(results);
      if |items| == 0 { return; }
      match key
      case ArrowDown =>
        activeIdx := Min(|items| - 1, activeIdx + 1);
      case ArrowUp =>
        activeIdx := Max(0, activeIdx - 1);
      case Enter =>
        var pick := Pick(items, activeIdx);
        if pick.Some? {
          change := Picked(pick.value);
          input := pick.value.name;
          open := false;
        }
      case Escape =>
        open := false;
        activeIdx := -1;
      case OtherKey =>
    }

    /** `selectQuest` (a click on a row): reports `q`, shows its name,
        closes the panel with nothing highlighted. */
    method SelectQuest(q: QuestRef) returns (change: Change)
      requires Valid()
      modifies this
      ensures Valid()
      ensures change == Picked(q) && input == q.name && !open && activeIdx == -1
    {
      change := Picked(q);
      input := q.name;
      open := false;
      activeIdx := -1;
    }

    /** `clearSelection`: reports that there is no quest, empties the input
        and opens the panel with nothing highlighted. */
    method ClearSelection() returns (change: Change)
      requires Valid()
      modifies this
      ensures Valid()
      ensures change == Cleared && input == "" && open && activeIdx == -1
    {
      change := Cleared;
      input := "";
      open := true;
      activeIdx := -1;
    }

    /** Typing replaces the text, opens the panel and drops the
        highlight. */
    method Type(text: string)
      requires Valid()
      modifies this
      ensures Valid()
      ensures input == text && open && activeIdx == -1
    {
      input := text;
      open := true;
      activeIdx := -1;
    }

    /** Focusing the input opens the panel. */
    method Focus()
      requires Valid()
      modifies this
      ensures Valid()
      ensures open && input == old(input) && activeIdx == old(activeIdx)
    {
      open := true;
    }

    /** The pointer entering a row of the open panel highlights it. */
    method Hover(idx: int, items: seq<QuestRef>)
      requires Valid() && open && 0 <= idx < |items|
      modifies this
      ensures Valid()
      ensures open && activeIdx == idx && input == old(input)
    {
      activeIdx := idx;
    }

    /** A mouse press outside the picker closes it with nothing
        highlighted. */
    method ClickOutside()
      requires Valid()
      modifies this
      ensures Valid()
      ensures !open && activeIdx == -1 && input == old(input)
    {
      open := false;
      activeIdx := -1;
    }

    /** A new value from the parent shows its name when it has a non-empty
        one; a null value or an empty name leaves the text alone. */
    method SyncValue(value: Option<QuestRef>)
      requires Valid()
      modifies this
      ensures Valid()
      ensures input == (if value.Some? && value.value.name != "" then value.value.name else old(input))
      ensures open == old(open) && activeIdx == old(activeIdx)
    {
      if value.Some? && value.value.name != "" && value.value.name != input {
        input := value.value.name;
      }
    }
  }
}
