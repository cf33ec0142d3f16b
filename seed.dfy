/** The seed script: the server table is made equal to a fixed list, the
    servers not listed being deleted and each listed one created or
    overwritten, all in one transaction. */
module Seed {
  import opened Base
  import opened Db

  /** `SERVERS`. */
  const Servers: seq<Server> := [
    Server(101, "Brial", "FR", "pionnier multi"),
    Server(102, "Rafal", "FR", "pionnier multi"),
    Server(103, "Salar", "FR", "pionnier multi"),
    Server(201, "Dakal", "FR", "pionnier mono"),
    Server(202, "Kourial", "FR", "pionnier mono"),
    Server(203, "Mikhal", "FR", "pionnier mono"),
    Server(301, "Hel Mina", "FR", "classique"),
    Server(302, "Orukam", "FR", "classique"),
    Server(303, "Imagiro", "FR", "classique"),
    Server(304, "Tal Kasha", "FR", "classique"),
    Server(305, "Tylezia", "FR", "classique"),
    Server(401, "Draconiros", "FR", "classique mono"),
    Server(501, "Ombre", "FR", "Epique")
  ]

  /** The primary key: no two rows share an id. */
  predicate DistinctIds(table: seq<Server>) {
    forall i, j | 0 <= i < j < |table| :: table[i].id != table[j].id
  }

  /** The seed list has 13 servers with pairwise distinct ids, all in the
      FR region. */
  lemma SeedIdsDistinct()
    ensures |Servers| == 13 && DistinctIds(Servers)
    ensures forall i | 0 <= i < |Servers| :: Servers[i].region == "FR"
  {
    assert forall i | 0 <= i < |Servers| - 1 :: Servers[i].id < Servers[i + 1].id;
    AscendingIds(Servers);
  }

  /** Ids that grow from each row to the next grow along the whole table. */
  lemma {:induction false} AscendingIds(table: seq<Server>)
    requires forall i | 0 <= i < |table| - 1 :: table[i].id < table[i + 1].id
    ensures forall i, j | 0 <= i < j < |table| :: table[i].id < table[j].id
    decreases |table|
  {
    if |table| > 1 {
      var rest := table[1..];
      forall i | 0 <= i < |rest| - 1 ensures rest[i].id < rest[i + 1].id {
        assert rest[i] == table[i + 1] && rest[i + 1] == table[i + 2];
      }
      AscendingIds(rest);
      forall i, j | 0 <= i < j < |table| ensures table[i].id < table[j].id {
        if i > 0 {
          assert table[i] == rest[i - 1] && table[j] == rest[j - 1];
        } else if j > 1 {
          assert table[1] == rest[0] && table[j] == rest[j - 1];
        }
      }
    }
  }

  /** `server.upsert` keyed by id: the row with that id is overwritten with
      all of `s`'s columns, or `s` is appended when there is none. The
      other rows stay. */
  function Upsert(table: seq<Server>, s: Server): (r: seq<Server>)
    requires DistinctIds(table)
    ensures DistinctIds(r)
    ensures s in r
    ensures forall i | 0 <= i < |r| :: r[i] == s || (r[i] in table && r[i].id != s.id)
    ensures forall i | 0 <= i < |table| :: table[i].id != s.id ==> table[i] in r
  {
    var k := FirstIndex(table, (x: Server) => x.id == s.id);
    if k < |table| then
      var r := table[k := s];
      assert forall i | 0 <= i < |r| && i != k :: r[i] == table[i] && table[i].id != s.id;
      assert forall i | 0 <= i < |r| :: r[i].id == table[i].id;
      r
    else table + [s]
  }

  /** The rows whose id is listed (the complement of `deleteMany` with
      `notIn: ids`). */
  function Keep(ids: set<int>): Server -> bool {
    (x: Server) => x.id in ids
  }

  /** `main`: afterwards the table holds exactly the seed servers, each with
      its seed name, region and kind whether it was created or updated, and
      the ids are those of the list; every unlisted server is gone. */
  method Sync(table: seq<Server>) returns (r: seq<Server>)
    requires DistinctIds(table)
    ensures DistinctIds(r)
    ensures forall i | 0 <= i < |Servers| :: Servers[i] in r
    ensures forall i | 0 <= i < |r| :: r[i] in Servers
    ensures ServerIds(r) == ServerIds(Servers)
    ensures forall i | 0 <= i < |table| :: table[i].id !in ServerIds(Servers) ==> table[i] !in r
  {
    r := Filter(table, Keep(ServerIds(Servers)));
    SyncedStart(table);
    for k := 0 to |Servers|
      invariant SyncedUpTo(r, k)
    {
      UpsertStep(r, k);
      r := Upsert(r, Servers[k]);
    }
    SyncedAll(r);
  }

  /** After the delete only rows with a seed id are left, with distinct ids. */
  lemma SyncedStart(table: seq<Server>)
    requires DistinctIds(table)
    ensures SyncedUpTo(Filter(table, Keep(ServerIds(Servers))), 0)
  {
    var ids := ServerIds(Servers);
    var r := Filter(table, Keep(ids));
    FilterDistinct(table, ids);
    forall i | 0 <= i < |r| ensures exists j | 0 <= j < |Servers| :: r[i].id == Servers[j].id {
      assert Keep(ids)(r[i]);
    }
  }

  /** Once every seed server is upserted, the table is the seed list up to
      order. */
  lemma SyncedAll(r: seq<Server>)
    requires SyncedUpTo(r, |Servers|)
    ensures forall i | 0 <= i < |r| :: r[i] in Servers
    ensures forall x | x in r :: x.id in ServerIds(Servers)
    ensures ServerIds(r) == ServerIds(Servers)
  {
    assert Servers[..|Servers|] == Servers;
  }

  /** After the first `k` upserts: the ids are distinct, the first `k` seed
      servers are in the table, and every row is one of them or has the id
      of a seed server still to come. */
  predicate SyncedUpTo(r: seq<Server>, k: nat)
    requires k <= |Servers|
  {
    && DistinctIds(r)
    && (forall j | 0 <= j < k :: Servers[j] in r)
    && (forall i | 0 <= i < |r| :: r[i] in Servers[..k] || exists j | k <= j < |Servers| :: r[i].id == Servers[j].id)
  }

  /** One upsert of the loop keeps `SyncedUpTo` one step further. */
  lemma UpsertStep(before: seq<Server>, k: nat)
    requires k < |Servers| && SyncedUpTo(before, k)
    ensures SyncedUpTo(Upsert(before, Servers[k]), k + 1)
  {
    SeedIdsDistinct();
    var r := Upsert(before, Servers[k]);
    forall j | 0 <= j < k ensures Servers[j] in r {
      var i :| 0 <= i < |before| && before[i] == Servers[j];
      assert before[i].id != Servers[k].id;
    }
    forall i | 0 <= i < |r|
      ensures r[i] in Servers[..k + 1] || exists j | k + 1 <= j < |Servers| :: r[i].id == Servers[j].id
    {
      assert Servers[..k + 1] == Servers[..k] + [Servers[k]];
      if r[i] != Servers[k] {
        var i0 :| 0 <= i0 < |before| && before[i0] == r[i];
        if before[i0] !in Servers[..k] {
          var j :| k <= j < |Servers| && before[i0].id == Servers[j].id;
          assert j != k;
        }
      }
    }
  }

  /** The rows kept by the delete still have distinct ids. */
  lemma {:induction false} FilterDistinct(table: seq<Server>, ids: set<int>)
    requires DistinctIds(table)
    ensures DistinctIds(Filter(table, Keep(ids)))
    decreases |table|
  {
    if table != [] {
      FilterDistinct(table[1..], ids);
      var rest := Filter(table[1..], Keep(ids));
      assert forall i | 1 <= i < |table| :: table[i] == table[1..][i - 1];
      if Keep(ids)(table[0]) {
        forall i | 0 <= i < |rest| ensures rest[i].id != table[0].id {
          var k :| 0 <= k < |table[1..]| && table[1..][k] == rest[i];
          assert table[k + 1] == rest[i];
        }
        assert Filter(table, Keep(ids)) == [table[0]] + rest;
      }
    }
  }
}
