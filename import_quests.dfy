/** The quest import script: a JSON array of quests is checked row by row,
    normalised, and inserted 500 rows at a time, rows whose id is already
    present being skipped. Reading the file and the process exit are
    modelled as the script's input and outcome. */
module ImportQuests {
  import opened Base
  import opened Text

  /** A value produced by `JSON.parse`. */
  datatype Json = JNull | JBool(b: bool) | JNum(n: real) | JStr(s: string)
                | JArray(items: seq<Json>) | JObject(fields: map<string, Json>)

  /** `x?.key`: the member of an object, None (undefined) for a missing
      member or for any value that is not an object. */
  function Prop(x: Json, key: string): (r: Option<Json>)
    ensures r.Some? <==> x.JObject? && key in x.fields
  {
    if x.JObject? && key in x.fields then Some(x.fields[key]) else None
  }

  /** `x ?? null`: a missing member becomes null, any other value is kept. */
  function OrNull(v: Option<Json>): (r: Json)
    ensures v.None? ==> r == JNull
    ensures v.Some? ==> r == v.value
  {
    if v.Some? then v.value else JNull
  }

  /** A normalised row. The id is any JSON number, as the script checks
      nothing more; the optional columns are kept as JSON values. */
  datatype QuestRow = QuestRow(id: real, name: string, category: Json, level: Json, area: Json)

  /** Why `assertRow` throws. */
  datatype RowError = IdNotNumber | NameRequired

  /** `assertRow`: the id must be a number, then the name a string that is
      not blank once trimmed. */
  function RowCheck(x: Json): (r: Option<RowError>)
    ensures r == Some(IdNotNumber) <==> !(Prop(x, "id").Some? && Prop(x, "id").value.JNum?)
    ensures r == Some(NameRequired) <==>
      Prop(x, "id").Some? && Prop(x, "id").value.JNum?
      && !(Prop(x, "name").Some? && Prop(x, "name").value.JStr? && Trim(Prop(x, "name").value.s) != [])
  {
    var id := Prop(x, "id");
    var name := Prop(x, "name");
    if !(id.Some? && id.value.JNum?) then Some(IdNotNumber)
    else if !(name.Some? && name.value.JStr? && Trim(name.value.s) != []) then Some(NameRequired)
    else None
  }

  /** The mapped row of a value `assertRow` accepted. */
  function Normalize(x: Json): (r: QuestRow)
    requires RowCheck(x).None?
    ensures JNum(r.id) == Prop(x, "id").value
    ensures r.name == Trim(Prop(x, "name").value.s) && r.name != [] && IsTrimmed(r.name)
    ensures r.category == OrNull(Prop(x, "category"))
    ensures r.level == OrNull(Prop(x, "level"))
    ensures r.area == OrNull(Prop(x, "area"))
  {
    QuestRow(x.fields["id"].n, Trim(x.fields["name"].s),
             OrNull(Prop(x, "category")), OrNull(Prop(x, "level")), OrNull(Prop(x, "area")))
  }

  /** The outcome of mapping an array with a check that may throw: the
      position and error of the first refused element, or the mapped rows. */
  datatype Rows<R, E> = Rejected(index: nat, error: E) | Rows(rows: seq<R>)

  /** `arr.map(x => { check(x); return f(x); })`: the first refused element
      stops the map; otherwise one row per element, in order. */
  function MapRows<A, R, E>(arr: seq<A>, check: A -> Option<E>, f: A --> R): (r: Rows<R, E>)
    requires forall i | 0 <= i < |arr| :: check(arr[i]).None? ==> f.requires(arr[i])
    ensures r.Rows? ==> |r.rows| == |arr|
    decreases |arr|
  {
    if arr == [] then Rows([])
    else if check(arr[0]).Some? then Rejected(0, check(arr[0]).value)
    else
      assert forall i | 1 <= i < |arr| :: arr[1..][i - 1] == arr[i];
      var tail := MapRows(arr[1..], check, f);
      if tail.Rejected? then Rejected(tail.index + 1, tail.error)
      else Rows([f(arr[0])] + tail.rows)
  }

  /** A rejection names the first refused element, with its error, every
      earlier element being accepted; otherwise every element is accepted
      and mapped in place. */
  lemma {:induction false} MapRowsSpec<A, R, E>(arr: seq<A>, check: A -> Option<E>, f: A --> R)
    requires forall i | 0 <= i < |arr| :: check(arr[i]).None? ==> f.requires(arr[i])
    ensures MapRows(arr, check, f).Rejected? ==>
      && MapRows(arr, check, f).index < |arr|
      && check(arr[MapRows(arr, check, f).index]) == Some(MapRows(arr, check, f).error)
      && forall i | 0 <= i < MapRows(arr, check, f).index :: check(arr[i]).None?
    ensures MapRows(arr, check, f).Rows? ==> forall i | 0 <= i < |arr| :: check(arr[i]).None?
    ensures MapRows(arr, check, f).Rows? ==>
      forall i | 0 <= i < |arr| :: MapRows(arr, check, f).rows[i] == f(arr[i])
    decreases |arr|
  {
    if arr != [] && check(arr[0]).None? {
      var tail := arr[1..];
      assert forall i | 1 <= i < |arr| :: tail[i - 1] == arr[i];
      MapRowsSpec(tail, check, f);
      var t := MapRows(tail, check, f);
      if t.Rows? {
        var r := MapRows(arr, check, f).rows;
        assert r == [f(arr[0])] + t.rows;
        assert forall i | 1 <= i < |arr| :: r[i] == t.rows[i - 1];
      }
    }
  }

  /** `arr.map(...)` with `assertRow` and the normalisation of each row. */
  function NormalizeRows(arr: seq<Json>): (r: Rows<QuestRow, RowError>)
    ensures r.Rows? ==> |r.rows| == |arr|
  {
    MapRows(arr, RowCheck, Normalize)
  }

  /** A rejection names the first element `assertRow` refuses, with its
      error; an accepted array has every element accepted and is mapped
      element by element. */
  lemma NormalizeRowsSpec(arr: seq<Json>)
    ensures NormalizeRows(arr).Rejected? ==>
      && NormalizeRows(arr).index < |arr|
      && RowCheck(arr[NormalizeRows(arr).index]) == Some(NormalizeRows(arr).error)
      && forall i | 0 <= i < NormalizeRows(arr).index :: RowCheck(arr[i]).None?
    ensures NormalizeRows(arr).Rows? ==> forall i | 0 <= i < |arr| :: RowCheck(arr[i]).None?
    ensures NormalizeRows(arr).Rows? ==>
      forall i | 0 <= i < |arr| :: NormalizeRows(arr).rows[i] == Normalize(arr[i])
  {
    MapRowsSpec(arr, RowCheck, Normalize);
  }

  const ChunkSize := 500

  /** The table holds a row with this id. */
  predicate HasQuest(table: seq<QuestRow>, id: real) {
    exists i | 0 <= i < |table| :: table[i].id == id
  }

  predicate DistinctIds(table: seq<QuestRow>) {
    forall i, j | 0 <= i < j < |table| :: table[i].id != table[j].id
  }

  /** `createMany({ skipDuplicates: true })`, row by row: a row whose id is
      already in the table is skipped. */
  function InsertAll(table: seq<QuestRow>, rows: seq<QuestRow>): (r: seq<QuestRow>)
    decreases |rows|
  {
    if rows == [] then table
    else InsertAll(if HasQuest(table, rows[0].id) then table else table + [rows[0]], rows[1..])
  }

  /** Inserting keeps every existing row in place, only adds rows taken
      from the input, leaves every input id present, never duplicates an
      id, and adds at most as many rows as it is given. */
  lemma InsertAllSpec(table: seq<QuestRow>, rows: seq<QuestRow>)
    ensures var r := InsertAll(table, rows);
      && |table| <= |r| <= |table| + |rows|
      && r[..|table|] == table
      && (forall i | |table| <= i < |r| :: r[i] in rows)
      && (forall i | 0 <= i < |rows| :: HasQuest(r, rows[i].id))
      && (DistinctIds(table) ==> DistinctIds(r))
  {
    InsertAllKeeps(table, rows);
    InsertAllCovers(table, rows);
    if DistinctIds(table) { InsertAllDistinct(table, rows); }
  }

  /** The existing rows stay in place and only input rows are added, at
      most one per input row. */
  lemma {:induction false} InsertAllKeeps(table: seq<QuestRow>, rows: seq<QuestRow>)
    ensures var r := InsertAll(table, rows);
      && |table| <= |r| <= |table| + |rows|
      && r[..|table|] == table
      && (forall i | |table| <= i < |r| :: r[i] in rows)
    decreases |rows|
  {
    if rows != [] {
      var next := if HasQuest(table, rows[0].id) then table else table + [rows[0]];
      InsertAllKeeps(next, rows[1..]);
      var r := InsertAll(next, rows[1..]);
      assert r[..|next|] == next;
      assert r[..|table|] == next[..|table|];
      forall i | |table| <= i < |r| ensures r[i] in rows {
        if i < |next| { assert r[i] == next[i] == rows[0]; }
        else { assert r[i] in rows[1..]; }
      }
    }
  }

  /** Every input id is present afterwards. */
  lemma {:induction false} InsertAllCovers(table: seq<QuestRow>, rows: seq<QuestRow>)
    ensures forall i | 0 <= i < |rows| :: HasQuest(InsertAll(table, rows), rows[i].id)
    decreases |rows|
  {
    if rows != [] {
      var next := if HasQuest(table, rows[0].id) then table else table + [rows[0]];
      InsertAllCovers(next, rows[1..]);
      InsertAllKeeps(next, rows[1..]);
      var r := InsertAll(next, rows[1..]);
      assert r[..|next|] == next;
      var k :| 0 <= k < |next| && next[k].id == rows[0].id;
      assert r[k] == next[k];
      forall i | 1 <= i < |rows| ensures HasQuest(r, rows[i].id) {
        assert rows[i] == rows[1..][i - 1];
      }
    }
  }

  /** Skipping rows whose id is present never duplicates an id. */
  lemma {:induction false} InsertAllDistinct(table: seq<QuestRow>, rows: seq<QuestRow>)
    requires DistinctIds(table)
    ensures DistinctIds(InsertAll(table, rows))
    decreases |rows|
  {
    if rows != [] {
      var next := if HasQuest(table, rows[0].id) then table else table + [rows[0]];
      assert DistinctIds(next);
      InsertAllDistinct(next, rows[1..]);
    }
  }

  /** Inserting two lists is inserting the first, then the second. */
  lemma {:induction false} InsertAllConcat(table: seq<QuestRow>, a: seq<QuestRow>, b: seq<QuestRow>)
    ensures InsertAll(table, a + b) == InsertAll(InsertAll(table, a), b)
    decreases |a|
  {
    if a == [] {
      assert a + b == b;
    } else {
      var next := if HasQuest(table, a[0].id) then table else table + [a[0]];
      assert (a + b)[1..] == a[1..] + b;
      InsertAllConcat(next, a[1..], b);
    }
  }

  /** The chunks laid end to end. */
  function Flatten<T>(chunks: seq<seq<T>>): (r: seq<T>)
    decreases |chunks|
  {
    if chunks == [] then [] else Flatten(chunks[..|chunks| - 1]) + chunks[|chunks| - 1]
  }

  /** Chunk `j` is `rows[500 j .. 500 j + 500]` (the last one shorter), and
      starts inside the rows. */
  predicate IsChunking(rows: seq<QuestRow>, chunks: seq<seq<QuestRow>>) {
    forall j | 0 <= j < |chunks| ::
      ChunkSize * j < |rows| && chunks[j] == rows[ChunkSize * j..Min(ChunkSize * j + ChunkSize, |rows|)]
  }

  /** One turn of the loop takes the next slice: the chunking grows by
      it. */
  lemma ChunkStep(rows: seq<QuestRow>, chunks: seq<seq<QuestRow>>, i: nat)
    requires i == ChunkSize * |chunks| < |rows|
    requires IsChunking(rows, chunks)
    ensures IsChunking(rows, chunks + [rows[i..Min(i + ChunkSize, |rows|)]])
  {
    var next := chunks + [rows[i..Min(i + ChunkSize, |rows|)]];
    forall j | 0 <= j < |next|
      ensures ChunkSize * j < |rows| && next[j] == rows[ChunkSize * j..Min(ChunkSize * j + ChunkSize, |rows|)]
    {
      if j < |chunks| { assert next[j] == chunks[j]; }
    }
  }

  /** Chunks covering the rows before `i`, followed by the slice from `i`
      to `end`, cover the rows before `end`. */
  lemma FlattenStep(rows: seq<QuestRow>, chunks: seq<seq<QuestRow>>, i: nat, end: nat)
    requires i <= end <= |rows|
    requires Flatten(chunks) == rows[..i]
    ensures Flatten(chunks + [rows[i..end]]) == rows[..end]
  {
    var next := chunks + [rows[i..end]];
    assert next[..|next| - 1] == chunks;
    assert rows[..i] + rows[i..end] == rows[..end];
  }

  /** The insertion loop: the chunks cover the rows exactly once and in
      order, each is non-empty and holds at most 500 rows, the counter ends
      at `rows.length`, and the table ends as if the rows had been inserted
      one by one. */
  method ImportChunks(table: seq<QuestRow>, rows: seq<QuestRow>)
    returns (r: seq<QuestRow>, inserted: nat, chunks: seq<seq<QuestRow>>)
    ensures inserted == |rows|
    ensures Flatten(chunks) == rows
    ensures IsChunking(rows, chunks)
    ensures forall j | 0 <= j < |chunks| :: 1 <= |chunks[j]| <= ChunkSize
    ensures r == InsertAll(table, rows)
  {
    r := table;
    inserted := 0;
    chunks := [];
    var i := 0;
    while i < |rows|
      invariant i == ChunkSize * |chunks|
      invariant inserted == Min(i, |rows|)
      invariant IsChunking(rows, chunks) && Flatten(chunks) == rows[..inserted]
      invariant r == InsertAll(table, rows[..inserted])
      decreases |rows| - i
    {
      var end := Min(i + ChunkSize, |rows|);
      var chunk := rows[i..end];
      ChunkStep(rows, chunks, i);
      FlattenStep(rows, chunks, i, end);
      InsertAllConcat(table, rows[..i], chunk);
      assert rows[..i] + chunk == rows[..end];
      r := InsertAll(r, chunk);
      chunks := chunks + [chunk];
      inserted := end;
      i := i + ChunkSize;
    }
    assert rows[..inserted] == rows;
    ChunkSizes(rows, chunks);
  }

  /** Every chunk of a chunking is non-empty and holds at most 500 rows. */
  lemma ChunkSizes(rows: seq<QuestRow>, chunks: seq<seq<QuestRow>>)
    requires IsChunking(rows, chunks)
    ensures forall j | 0 <= j < |chunks| :: 1 <= |chunks[j]| <= ChunkSize
  {
  }

  /** The counter reports `rows.length`, which is an upper bound on the
      rows the table actually gains: skipped duplicates are counted too. */
  lemma CounterBoundsInserted(table: seq<QuestRow>, rows: seq<QuestRow>)
    ensures |InsertAll(table, rows)| - |table| <= |rows|
  {
    InsertAllSpec(table, rows);
  }

  /** What the script read: nothing (no file), text that is not JSON, or a
      JSON value. */
  datatype Input = NoFile | Unparsable | Parsed(value: Json)

  datatype Outcome =
    | FileMissing
    | InvalidJson
    | NotAnArray
    | RowRejected(index: nat, error: RowError)
    | NothingToImport
    | Imported(table: seq<QuestRow>, inserted: nat)

  /** The exit status: 0 for an empty array or a finished import, 1
      otherwise (the thrown errors reach the final `catch`). */
  function ExitCode(o: Outcome): (code: int)
    ensures code == 0 <==> o.NothingToImport? || o.Imported?
    ensures code == 1 <==> !(o.NothingToImport? || o.Imported?)
  {
    if o.NothingToImport? || o.Imported? then 0 else 1
  }

  /** `run`. Each refusal comes before any write; a non-empty array of
      valid rows ends with the table of `InsertAll` and the counter at the
      number of rows. The script exits with 0 exactly when its input is a
      JSON array whose every row passes the checks. */
  method Run(input: Input, table: seq<QuestRow>) returns (o: Outcome)
    ensures input == NoFile <==> o == FileMissing
    ensures input == Unparsable <==> o == InvalidJson
    ensures o == NotAnArray <==> input.Parsed? && !input.value.JArray?
    ensures o.RowRejected? ==> input.Parsed? && input.value.JArray?
                                && NormalizeRows(input.value.items) == Rejected(o.index, o.error)
    ensures o == NothingToImport <==> input == Parsed(JArray([]))
    ensures o.Imported? ==>
      && input.Parsed? && input.value.JArray?
      && NormalizeRows(input.value.items).Rows?
      && NormalizeRows(input.value.items).rows != []
      && o.inserted == |NormalizeRows(input.value.items).rows|
      && o.table == InsertAll(table, NormalizeRows(input.value.items).rows)
    ensures (input.Parsed? && input.value.JArray? && NormalizeRows(input.value.items).Rows?
             && input.value.items != []) ==> o.Imported?
    ensures ExitCode(o) == 0 <==>
      input.Parsed? && input.value.JArray? && NormalizeRows(input.value.items).Rows?
  {
    if input == NoFile { return FileMissing; }
    if input == Unparsable { return InvalidJson; }
    if !input.value.JArray? { return NotAnArray; }
    var normalized := NormalizeRows(input.value.items);
    if normalized.Rejected? { return RowRejected(normalized.index, normalized.error); }
    var rows := normalized.rows;
    if |rows| == 0 { return NothingToImport; }
    var after, inserted, _ := ImportChunks(table, rows);
    return Imported(after, inserted);
  }
}
