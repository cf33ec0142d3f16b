/** `GET /api/quests/search?q=`: the first 100 quests by name for an empty
    query, otherwise at most 50 quests, by name, whose name contains the
    sanitised query without regard to case. */
module QuestSearchRoute {
  import opened Base
  import opened Text
  import opened Sanitize
  import opened Db

  /** `take: 100` for the empty query. */
  const FirstPageSize := 100
  /** `take: 50` for a search. */
  const SearchLimit := 50

  predicate SortedByName(qs: seq<Quest>) {
    forall i, j | 0 <= i < j < |qs| :: StrLe(qs[i].name, qs[j].name)
  }

  /** `q` inserted into a sorted list after every name smaller than its own. */
  function Insert(q: Quest, qs: seq<Quest>): (r: seq<Quest>)
    requires SortedByName(qs)
    ensures SortedByName(r)
    ensures multiset(r) == multiset(qs) + multiset{q}
    decreases |qs|
  {
    if qs == [] then [q]
    else if StrLe(q.name, qs[0].name) then
      var r := [q] + qs;
      forall j | 0 < j < |r| ensures StrLe(q.name, r[j].name) {
        if j > 1 { StrLeTransitive(q.name, qs[0].name, qs[j - 1].name); }
      }
      r
    else
      var rest := Insert(q, qs[1..]);
      assert qs == [qs[0]] + qs[1..];
      var r := [qs[0]] + rest;
      forall j | 0 < j < |r| ensures StrLe(qs[0].name, r[j].name) {
        assert r[j] in multiset(rest);
        if r[j] == q { StrLeTotal(q.name, qs[0].name); }
        else {
          assert r[j] in multiset(qs[1..]);
          var k :| 0 <= k < |qs[1..]| && qs[1..][k] == r[j];
          assert qs[k + 1] == r[j];
        }
      }
      r
  }

  /** `orderBy: { name: "asc" }`: a permutation of the table, sorted by
      name. */
  function SortByName(qs: seq<Quest>): (r: seq<Quest>)
    ensures SortedByName(r)
    ensures multiset(r) == multiset(qs)
    decreases |qs|
  {
    if qs == [] then []
    else
      assert qs == [qs[0]] + qs[1..];
      Insert(qs[0], SortByName(qs[1..]))
  }

  /** `where: { name: { contains: q, mode: "insensitive" } }`: the quests
      whose name contains `q`, each as often as in the table. */
  function Matching(qs: seq<Quest>, q: string): (r: seq<Quest>)
    ensures forall i | 0 <= i < |r| :: r[i] in qs && ContainsInsensitive(r[i].name, q)
    ensures forall x | x in qs && ContainsInsensitive(x.name, q) :: x in r
    ensures multiset(r) <= multiset(qs)
  {
    var p := (x: Quest) => ContainsInsensitive(x.name, q);
    FilterPartition(qs, p, (x: Quest) => !p(x));
    Filter(qs, p)
  }

  /** The first `n` quests of a sorted list are sorted, come from the list
      (each at most as often as there), and no name left out is smaller than a name kept. */
  lemma TakeSorted(s: seq<Quest>, n: nat)
    requires SortedByName(s)
    ensures SortedByName(Take(s, n))
    ensures forall x | x in Take(s, n) :: x in s
    ensures multiset(Take(s, n)) <= multiset(s)
    ensures forall x | x in s && x !in Take(s, n) ::
      |Take(s, n)| == n && forall i | 0 <= i < n :: StrLe(Take(s, n)[i].name, x.name)
  {
    var r := Take(s, n);
    assert s == r + s[|r|..];
    forall x | x in s && x !in r
      ensures |r| == n && forall i | 0 <= i < n :: StrLe(r[i].name, x.name)
    {
      var k :| 0 <= k < |s| && s[k] == x;
      forall i | 0 <= i < n ensures StrLe(r[i].name, x.name) {
        assert r[i] == s[i];
      }
    }
  }

  /** The handler, after `searchParams.get("q") ?? ""`. The empty query
      (also whatever sanitises to nothing) yields at most 100 quests, sorted
      by name: the smallest names of the table, none repeated more often
      than in the table. Otherwise at most 50 sorted
      quests of the table whose names contain the query case-insensitively,
      and a matching quest is left out only when 50 no larger names were
      taken. */
  function Search(nf: Normalizer, raw: Option<string>, quests: seq<Quest>): (r: seq<Quest>)
    ensures var q := SanitizeQuery(nf, if raw.Some? then raw.value else "");
      && SortedByName(r)
      && (forall x | x in r :: x in quests)
      && multiset(r) <= multiset(quests)
      && (q == [] ==> |r| <= FirstPageSize
                      && forall x | x in quests && x !in r ::
                           |r| == FirstPageSize && forall i | 0 <= i < |r| :: StrLe(r[i].name, x.name))
      && (q != [] ==> |r| <= SearchLimit
                      && (forall x | x in r :: ContainsInsensitive(x.name, q))
                      && forall x | x in quests && ContainsInsensitive(x.name, q) && x !in r ::
                           |r| == SearchLimit && forall i | 0 <= i < |r| :: StrLe(r[i].name, x.name))
  {
    var q := SanitizeQuery(nf, if raw.Some? then raw.value else "");
    if q == [] then
      var sorted := SortByName(quests);
      TakeSorted(sorted, FirstPageSize);
      SortKeepsMembers(quests);
      Take(sorted, FirstPageSize)
    else
      var m := Matching(quests, q);
      var sorted := SortByName(m);
      TakeSorted(sorted, SearchLimit);
      SortKeepsMembers(m);
      Take(sorted, SearchLimit)
  }

  /** Sorting neither adds nor drops a quest. */
  lemma SortKeepsMembers(qs: seq<Quest>)
    ensures forall x | x in qs :: x in SortByName(qs)
    ensures forall x | x in SortByName(qs) :: x in qs
  {
    var s := SortByName(qs);
    forall x | x in qs ensures x in s { assert x in multiset(qs); }
    forall x | x in s ensures x in qs { assert x in multiset(s); }
  }

  /** Blank, control-only and zero-width-only input is served as the empty
      query. */
  lemma InvisibleQueryIsEmpty(nf: Normalizer, raw: string)
    requires forall i | 0 <= i < |nf(raw)| :: Invisible(nf(raw)[i])
    ensures SanitizeQuery(nf, raw) == []
  {
    QueryEmptyIff(nf, raw);
  }
}
