/** The server picker: a button showing the selected server and a list that
    opens under it, driven by the mouse and by the arrow, Enter and Escape
    keys. `value` (the selected server id, or null) belongs to the parent
    and is passed to each handler. */
module ServerSelect {
  import opened Base
  import opened Db

  /** `selectedIndex`: the position of the first server with id `value`,
      or 0 when none has it. */
  function SelectedIndex(list: seq<Server>, value: Option<int>): (k: nat)
    requires |list| > 0
    ensures k < |list|
    ensures forall i | 0 <= i < k :: Some(list[i].id) != value
    ensures value.Some? && (exists i | 0 <= i < |list| :: list[i].id == value.value) ==> list[k].id == value.value
    ensures (forall i | 0 <= i < |list| :: Some(list[i].id) != value) ==> k == 0
  {
    var k := FirstIndex(list, (s: Server) => Some(s.id) == value);
    if k < |list| then k else 0
  }

  /** The index the ArrowDown updater computes: one below `base` (the
      highlighted row, or the selected one when none is), stopping at the
      last row. */
  function Below(len: nat, activeIdx: int, selected: nat): (r: int)
    requires selected < len
    requires activeIdx < len
    ensures 0 <= r < len
    ensures var base := if activeIdx < 0 then selected else activeIdx;
      (base < len - 1 ==> r == base + 1) && (base == len - 1 ==> r == base)
  {
    Min(len - 1, (if activeIdx < 0 then selected else activeIdx) + 1)
  }

  /** The index the ArrowUp updater computes: one above `base`, stopping at
      the first row. */
  function Above(len: nat, activeIdx: int, selected: nat): (r: int)
    requires selected < len
    requires activeIdx < len
    ensures 0 <= r < len
    ensures var base := if activeIdx < 0 then selected else activeIdx;
      (base > 0 ==> r == base - 1) && (base == 0 ==> r == 0)
  {
    Max(0, (if activeIdx < 0 then selected else activeIdx) - 1)
  }

  /** Moving down and back up from a highlighted row that is not the last
      returns to it; moving up and back down from one that is not the first
      does too. */
  lemma BelowAboveReturn(len: nat, i: nat, selected: nat)
    requires selected < len
    ensures i + 1 < len ==> Above(len, Below(len, i, selected), selected) == i
    ensures 0 < i < len ==> Below(len, Above(len, i, selected), selected) == i
  {
  }

  /** The picker as the component holds it: the (non-empty) list, whether
      the panel is open, and the highlighted row (-1 for none). */
  class ServerMenu {
    const list: seq<Server>
    var open: bool
    var activeIdx: int

    ghost predicate Valid()
      reads this
    {
      |list| > 0 && -1 <= activeIdx < |list|
    }

    /** The component renders nothing for a missing or empty list; it starts
        closed with no highlighted row. */
    constructor (servers: seq<Server>)
      requires |servers| > 0
      ensures Valid()
      ensures list == servers && !open && activeIdx == -1
    {
      list := servers;
      open := false;
      activeIdx := -1;
    }

    /** `choose`: an index outside the list changes nothing and emits
        nothing; otherwise the id of that server is emitted and the panel
        closes with nothing highlighted. */
    method Choose(idx: int) returns (chosen: Option<int>)
      requires Valid()
      modifies this
      ensures Valid()
      ensures 0 <= idx < |list| ==> chosen == Some(list[idx].id) && !open && activeIdx == -1
      ensures !(0 <= idx < |list|) ==> chosen == None && open == old(open) && activeIdx == old(activeIdx)
    {
      if !(0 <= idx < |list|) { return None; }
      chosen := Some(list[idx].id);
      open := false;
      activeIdx := -1;
    }

    /** `onKeyDown`. A closed panel opens on an arrow key with the selected
        row highlighted. Otherwise the arrows move the highlight within the
        list, Enter chooses the highlighted row (or the selected one when
        none is), even while the panel is closed, Escape closes it, and any
        other key does nothing. Only Enter emits. */
    method KeyDown(key: Key, value: Option<int>) returns (chosen: Option<int>)
      requires Valid()
      modifies this
      ensures Valid()
      ensures chosen.Some? ==> key == Enter && old(open || !key.ArrowDown?) && chosen.value in ServerIds(list)
      ensures !old(open) && (key == ArrowDown || key == ArrowUp) ==>
        open && activeIdx == SelectedIndex(list, value) && chosen == None
      ensures old(open) && key == ArrowDown ==>
        open && activeIdx == Below(|list|, old(activeIdx), SelectedIndex(list, value)) && chosen == None
      ensures old(open) && key == ArrowUp ==>
        open && activeIdx == Above(|list|, old(activeIdx), SelectedIndex(list, value)) && chosen == None
      ensures key == Enter ==>
        var idx := if old(activeIdx) >= 0 then old(activeIdx) else SelectedIndex(list, value);
        chosen == Some(list[idx].id) && !open && activeIdx == -1
      ensures key == Escape ==> !open && activeIdx == -1 && chosen == None
      ensures key == OtherKey ==> open == old(open) && activeIdx == old(activeIdx) && chosen == None
    {
      var selected := SelectedIndex(list, value);
      chosen := None;
      if !open && (key == ArrowDown || key == ArrowUp) {
        open := true;
        activeIdx := selected;
        return;
      }
      match key
      case ArrowDown =>
        activeIdx := Below(|list|, activeIdx, selected);
      case ArrowUp =>
        activeIdx := Above(|list|, activeIdx, selected);
      case Enter =>
        chosen := Choose(if activeIdx >= 0 then activeIdx else selected);
      case Escape =>
        open := false;
        activeIdx := -1;
      case OtherKey =>
    }

    /** A click on the button flips the panel and highlights the selected
        row, whether it opens or closes. */
    method Toggle(value: Option<int>)
      requires Valid()
      modifies this
      ensures Valid()
      ensures open == !old(open) && activeIdx == SelectedIndex(list, value)
    {
      open := !open;
      activeIdx := SelectedIndex(list, value);
    }

    /** The pointer entering a row of the open panel highlights it. */
    method Hover(idx: int)
      requires Valid() && open && 0 <= idx < |list|
      modifies this
      ensures Valid()
      ensures open && activeIdx == idx
    {
      activeIdx := idx;
    }

    /** A mouse press outside the picker closes it with nothing
        highlighted. */
    method ClickOutside()
      requires Valid()
      modifies this
      ensures Valid()
      ensures !open && activeIdx == -1
    {
      open := false;
      activeIdx := -1;
    }
  }

  /** Opening the panel and pressing Enter chooses the current value again
      when it names a listed server, and the first server otherwise. */
  lemma OpenThenEnterKeepsValue(list: seq<Server>, value: Option<int>)
    requires |list| > 0
    ensures value.Some? && value.value in ServerIds(list) ==> list[SelectedIndex(list, value)].id == value.value
    ensures (value.None? || value.value !in ServerIds(list)) ==> SelectedIndex(list, value) == 0
  {
    if value.Some? && value.value in ServerIds(list) {
      var i :| 0 <= i < |list| && list[i].id == value.value;
    }
  }
}
