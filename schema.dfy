/** The zod schemas of the route handlers, over already-decoded JSON.
    A numeric field is seen after `z.coerce.number()` has applied `Number(...)`
    to it; a string-typed field is seen by its JSON shape. */
module Schema {
  import opened Base
  import opened Text
  import opened Sanitize

  /** What `Number(v)` gives: a finite number, or NaN / an infinity. */
  datatype Coerced = NotFinite | Finite(value: real)

  /** A field checked by `z.string()`, as it appears in the JSON object. */
  datatype Field = Absent | Null | Str(s: string) | NonString

  /** The outcome of `await req.json()`. */
  datatype Payload<T> = InvalidJson | NotAnObject | Object(fields: T)

  /** The 20 names of the character `class` enum. */
  const ClassNames: seq<string> := [
    "Feca", "Osamodas", "Enutrof", "Sram", "Xelor", "Ecaflip", "Eniripsa",
    "Iop", "Cr\U{00E2}", "Cra", "Sadida", "Sacrieur", "Pandawa", "Roublard",
    "Zobal", "Steamer", "Eliotrope", "Huppermage", "Ouginak", "Forgelance"
  ]

  const MinLevel := 1
  const MaxLevel := 200

  /** `z.coerce.number().int().min(lo)`: accepts exactly the integers
      `>= lo`, and yields that integer. */
  function IntAtLeast(x: Coerced, lo: int): (r: Option<int>)
    ensures r.Some? ==> r.value >= lo && x == Finite(r.value as real)
    ensures forall n: int :: n >= lo && x == Finite(n as real) ==> r == Some(n)
  {
    if x.Finite? && x.value.Floor as real == x.value && x.value.Floor >= lo
    then Some(x.value.Floor) else None
  }

  // ---- app/api/characters/route.ts: Body

  datatype CharacterFields = CharacterFields(serverId: Coerced, name: Field, level: Coerced, cls: Field)

  /** A body accepted by the characters route's schema. */
  datatype NewCharacter = NewCharacter(serverId: int, name: string, level: int, cls: string)

  /** `z.string().min(1).max(40).trim().regex(...)`: the length bounds apply
      to the raw string, the regex to the trimmed one, and the trimmed
      string is the parsed value. */
  function ParseName(f: Field): (r: Option<string>)
    ensures r.Some? ==> f.Str? && r.value == Trim(f.s)
    ensures r.Some? ==> 1 <= Utf16Length(f.s) <= MaxNameLength
    ensures r.Some? ==> 1 <= |r.value| <= MaxNameLength
    ensures r.Some? ==> forall i | 0 <= i < |r.value| :: IsNameChar(r.value[i])
    ensures (f.Str? && 1 <= Utf16Length(f.s) <= MaxNameLength && Trim(f.s) != []
             && forall i | 0 <= i < |Trim(f.s)| :: IsNameChar(Trim(f.s)[i])) ==> r.Some?
  {
    if f.Str? && 1 <= Utf16Length(f.s) <= MaxNameLength then
      var t := Trim(f.s);
      if t != [] && forall i | 0 <= i < |t| :: IsNameChar(t[i]) then Some(t) else None
    else None
  }

  /** The characters route's `Body.safeParse`. */
  function ParseCharacter(f: CharacterFields): (r: Option<NewCharacter>)
    ensures r.Some? ==> r.value.serverId >= 1 && f.serverId == Finite(r.value.serverId as real)
    ensures r.Some? ==> MinLevel <= r.value.level <= MaxLevel && f.level == Finite(r.value.level as real)
    ensures r.Some? ==> f.cls == Str(r.value.cls) && r.value.cls in ClassNames
    ensures r.Some? ==> ParseName(f.name) == Some(r.value.name)
    ensures r.None? <==>
      IntAtLeast(f.serverId, 1).None? || ParseName(f.name).None? || IntAtLeast(f.level, MinLevel).None?
      || IntAtLeast(f.level, MinLevel).value > MaxLevel || !(f.cls.Str? && f.cls.s in ClassNames)
  {
    var serverId := IntAtLeast(f.serverId, 1);
    var name := ParseName(f.name);
    var level := IntAtLeast(f.level, MinLevel);
    if serverId.Some? && name.Some? && level.Some? && level.value <= MaxLevel
       && f.cls.Str? && f.cls.s in ClassNames
    then Some(NewCharacter(serverId.value, name.value, level.value, f.cls.s))
    else None
  }

  /** The schema accepts every body whose server id is a positive integer,
      whose name parses, whose level is an integer in range and whose class
      is one of the enum names. */
  lemma ParseCharacterAccepts(serverId: int, name: string, level: int, cls: string)
    requires serverId >= 1 && ParseName(Str(name)).Some?
    requires MinLevel <= level <= MaxLevel
    requires cls in ClassNames
    ensures ParseCharacter(CharacterFields(Finite(serverId as real), Str(name), Finite(level as real), Str(cls))).Some?
  {
    assert IntAtLeast(Finite(level as real), MinLevel) == Some(level);
  }

  // ---- app/api/selection/route.ts: Body

  datatype SelectionFields = SelectionFields(serverId: Coerced, questId: Coerced, note: Field)

  /** A body accepted by the selection route's schema; `note` is None when
      the field was absent. */
  datatype TrackRequest = TrackRequest(serverId: int, questId: int, note: Option<string>)

  /** `z.string().max(500).optional()`: absent, or a string of JavaScript
      length at most 500. A JSON null is rejected. */
  function ParseNote(f: Field): (r: Option<Option<string>>)
    ensures r == Some(None) <==> f.Absent?
    ensures r.Some? && r.value.Some? ==> f == Str(r.value.value) && Utf16Length(r.value.value) <= MaxNoteLength
    ensures f.Str? && Utf16Length(f.s) <= MaxNoteLength ==> r == Some(Some(f.s))
    ensures f.Null? || f.NonString? ==> r.None?
  {
    match f
    case Absent => Some(None)
    case Str(s) => if Utf16Length(s) <= MaxNoteLength then Some(Some(s)) else None
    case _ => None
  }

  function ParseSelection(f: SelectionFields): (r: Option<TrackRequest>)
    ensures r.Some? ==> r.value.serverId >= 1 && f.serverId == Finite(r.value.serverId as real)
    ensures r.Some? ==> r.value.questId >= 1 && f.questId == Finite(r.value.questId as real)
    ensures r.Some? ==> ParseNote(f.note) == Some(r.value.note)
    ensures r.None? <==>
      IntAtLeast(f.serverId, 1).None? || IntAtLeast(f.questId, 1).None? || ParseNote(f.note).None?
  {
    var serverId := IntAtLeast(f.serverId, 1);
    var questId := IntAtLeast(f.questId, 1);
    var note := ParseNote(f.note);
    if serverId.Some? && questId.Some? && note.Some?
    then Some(TrackRequest(serverId.value, questId.value, note.value))
    else None
  }

  // ---- app/api/characters/active/route.ts: Body

  /** `z.object({ characterId: z.string().nullable() })`: a string or null,
      never absent. The outer Option is the parse outcome. */
  function ParseActive(characterId: Field): (r: Option<Option<string>>)
    ensures r == Some(None) <==> characterId.Null?
    ensures forall s :: r == Some(Some(s)) <==> characterId == Str(s)
    ensures characterId.Absent? || characterId.NonString? <==> r.None?
  {
    match characterId
    case Null => Some(None)
    case Str(s) => Some(Some(s))
    case _ => None
  }

  // ---- app/api/matches/route.ts: Query

  datatype MatchKey = MatchKey(serverId: int, questId: int)

  /** `Query.safeParse` of the search parameters (`Number(null)` is 0, so a
      missing parameter fails `min(1)`). */
  function ParseMatchQuery(serverId: Coerced, questId: Coerced): (r: Option<MatchKey>)
    ensures r.Some? ==> r.value.serverId >= 1 && r.value.questId >= 1
    ensures r.Some? ==> serverId == Finite(r.value.serverId as real) && questId == Finite(r.value.questId as real)
    ensures r.None? <==> IntAtLeast(serverId, 1).None? || IntAtLeast(questId, 1).None?
  {
    var s := IntAtLeast(serverId, 1);
    var q := IntAtLeast(questId, 1);
    if s.Some? && q.Some? then Some(MatchKey(s.value, q.value)) else None
  }

  /** A missing parameter (`Number(null)` is 0) or a non-positive one is
      refused. */
  lemma MatchQueryRejectsNonPositive(serverId: Coerced, questId: Coerced)
    requires (serverId.Finite? && serverId.value < 1.0) || (questId.Finite? && questId.value < 1.0)
    ensures ParseMatchQuery(serverId, questId).None?
  {
  }
}
