/** The relational store behind the route handlers: users, characters,
    selections, servers and quests, with the few ORM operations the routes
    perform. Tables are sequences in creation order; `clock` stamps
    `createdAt`, so creation order is `createdAt` order. */
module Db {
  import opened Base

  type Id = string

  datatype User = User(id: Id, activeCharacterId: Option<Id>)
  datatype Character = Character(id: Id, userId: Id, serverId: int, name: string,
                                 level: int, cls: string, createdAt: nat)
  datatype Selection = Selection(id: Id, characterId: Id, serverId: int, questId: int,
                                 note: Option<string>, createdAt: nat)
  datatype Server = Server(id: int, name: string, region: string, kind: string)
  datatype Quest = Quest(id: int, name: string, category: Option<string>,
                         level: Option<int>, area: Option<string>)

  /** Index of the first element satisfying `p`, or `|s|` when none does. */
  function FirstIndex<T>(s: seq<T>, p: T -> bool): (k: nat)
    ensures k <= |s|
    ensures k < |s| ==> p(s[k])
    ensures forall i | 0 <= i < k :: !p(s[i])
    decreases |s|
  {
    if s == [] then 0
    else if p(s[0]) then 0
    else
      var k := FirstIndex(s[1..], p);
      assert forall i | 1 <= i < |s| :: s[i] == s[1..][i - 1];
      1 + k
  }

  /** `findFirst({ where })` without `orderBy`: the first row in table order. */
  function FindFirst<T>(s: seq<T>, p: T -> bool): (r: Option<T>)
    ensures r.Some? ==> r.value in s && p(r.value)
    ensures r.None? <==> forall i | 0 <= i < |s| :: !p(s[i])
  {
    var k := FirstIndex(s, p);
    if k < |s| then Some(s[k]) else None
  }

  function CharacterById(cs: seq<Character>, id: Id): Option<Character> {
    FindFirst(cs, (c: Character) => c.id == id)
  }

  function ServerById(ss: seq<Server>, id: int): Option<Server> {
    FindFirst(ss, (s: Server) => s.id == id)
  }

  function QuestById(qs: seq<Quest>, id: int): Option<Quest> {
    FindFirst(qs, (q: Quest) => q.id == id)
  }

  predicate HasCharacter(cs: seq<Character>, id: Id) {
    exists i | 0 <= i < |cs| :: cs[i].id == id
  }

  predicate HasServer(ss: seq<Server>, id: int) {
    exists i | 0 <= i < |ss| :: ss[i].id == id
  }

  /** The ids of a server table. */
  function ServerIds(table: seq<Server>): (r: set<int>)
    ensures forall i | 0 <= i < |table| :: table[i].id in r
    ensures forall x | x in r :: exists i | 0 <= i < |table| :: table[i].id == x
  {
    set i | 0 <= i < |table| :: table[i].id
  }

  predicate HasQuest(qs: seq<Quest>, id: int) {
    exists i | 0 <= i < |qs| :: qs[i].id == id
  }

  /** A character of `userId` on `serverId` already carries `name`. */
  predicate HasNamedCharacter(cs: seq<Character>, userId: Id, serverId: int, name: string) {
    exists i | 0 <= i < |cs| :: cs[i].userId == userId && cs[i].serverId == serverId && cs[i].name == name
  }

  /** A character with this id exists and is on `serverId`. */
  predicate CharacterOn(cs: seq<Character>, characterId: Id, serverId: int) {
    exists k | 0 <= k < |cs| :: cs[k].id == characterId && cs[k].serverId == serverId
  }

  /** A selection already exists for the (character, server, quest) triple. */
  predicate HasTriple(ss: seq<Selection>, characterId: Id, serverId: int, questId: int) {
    exists i | 0 <= i < |ss| ::
      ss[i].characterId == characterId && ss[i].serverId == serverId && ss[i].questId == questId
  }

  /** The user row reached through `activeCharacterId` is one of the user's
      own characters. */
  predicate ActiveOwned(u: User, cs: seq<Character>) {
    u.activeCharacterId.Some? ==>
      exists i | 0 <= i < |cs| :: cs[i].id == u.activeCharacterId.value && cs[i].userId == u.id
  }

  /** The session carries a truthy e-mail that belongs to a user. */
  predicate SignedIn(email: Option<string>, users: map<string, User>) {
    Truthy(email) && email.value in users
  }

  /** `userId` owns a character with this id. */
  predicate Owns(cs: seq<Character>, userId: Id, id: Id) {
    exists i | 0 <= i < |cs| :: cs[i].id == id && cs[i].userId == userId
  }

  predicate UsersOk(users: map<string, User>, cs: seq<Character>) {
    && (forall e1, e2 | e1 in users && e2 in users && e1 != e2 :: users[e1].id != users[e2].id)
    && (forall e | e in users :: ActiveOwned(users[e], cs))
  }

  /** Character ids are distinct and non-empty, rows are in `createdAt`
      order, every server exists, and a user has at most one character of a
      given name on a given server. */
  predicate CharactersOk(cs: seq<Character>, servers: seq<Server>) {
    && (forall i, j | 0 <= i < j < |cs| :: cs[i].id != cs[j].id)
    && (forall i, j | 0 <= i < j < |cs| :: cs[i].createdAt < cs[j].createdAt)
    && (forall i, j | 0 <= i < j < |cs| ::
          !(cs[i].userId == cs[j].userId && cs[i].serverId == cs[j].serverId && cs[i].name == cs[j].name))
    && (forall i | 0 <= i < |cs| :: cs[i].id != "" && HasServer(servers, cs[i].serverId))
  }

  /** Selection ids are distinct, rows are in `createdAt` order, each row's
      character exists and is on the row's server, each quest exists, and
      the (character, server, quest) triple is unique. */
  predicate SelectionsOk(ss: seq<Selection>, cs: seq<Character>, quests: seq<Quest>) {
    && (forall i, j | 0 <= i < j < |ss| :: ss[i].id != ss[j].id)
    && (forall i, j | 0 <= i < j < |ss| :: ss[i].createdAt < ss[j].createdAt)
    && (forall i, j | 0 <= i < j < |ss| ::
          !(ss[i].characterId == ss[j].characterId && ss[i].serverId == ss[j].serverId
            && ss[i].questId == ss[j].questId))
    && (forall i | 0 <= i < |ss| ::
          CharacterOn(cs, ss[i].characterId, ss[i].serverId)
          && HasQuest(quests, ss[i].questId))
  }

  class Store {
    var users: map<string, User>   // keyed by e-mail, which is unique
    var characters: seq<Character>
    var selections: seq<Selection>
    var servers: seq<Server>
    var quests: seq<Quest>
    var clock: nat                 // the next `createdAt` value

    ghost predicate Valid()
      reads this
    {
      && UsersOk(users, characters)
      && CharactersOk(characters, servers)
      && SelectionsOk(selections, characters, quests)
      && (forall i | 0 <= i < |characters| :: characters[i].createdAt < clock)
      && (forall i | 0 <= i < |selections| :: selections[i].createdAt < clock)
    }

    /** A store holding reference data and accounts, with no character yet. */
    constructor (users: map<string, User>, servers: seq<Server>, quests: seq<Quest>)
      requires forall e1, e2 | e1 in users && e2 in users && e1 != e2 :: users[e1].id != users[e2].id
      requires forall e | e in users :: users[e].activeCharacterId.None?
      ensures Valid()
      ensures this.users == users && this.servers == servers && this.quests == quests
      ensures characters == [] && selections == [] && clock == 0
    {
      this.users := users;
      this.servers := servers;
      this.quests := quests;
      characters := [];
      selections := [];
      clock := 0;
    }

    /** `character.create`. The database refuses a row whose `serverId`
        names no server (foreign key); otherwise the row is appended with
        the current clock as `createdAt`. */
    method CreateCharacter(id: Id, userId: Id, serverId: int, name: string, level: int, cls: string)
      returns (ok: bool)
      requires Valid()
      requires id != "" && !HasCharacter(characters, id)
      requires !HasNamedCharacter(characters, userId, serverId, name)
      modifies this`characters, this`clock
      ensures Valid()
      ensures ok == HasServer(servers, serverId)
      ensures ok ==> characters == old(characters) + [Character(id, userId, serverId, name, level, cls, old(clock))]
      ensures ok ==> clock == old(clock) + 1
      ensures !ok ==> characters == old(characters) && clock == old(clock)
    {
      ok := exists i | 0 <= i < |servers| :: servers[i].id == serverId;
      if ok {
        var c := Character(id, userId, serverId, name, level, cls, clock);
        AppendCharacter(users, characters, selections, servers, quests, c);
        characters := characters + [c];
        clock := clock + 1;
      }
    }

    /** `user.update({ data: { activeCharacterId } })` for the user with
        this e-mail. The database refuses an id that names no character
        (foreign key). */
    method SetActiveCharacter(email: string, value: Option<Id>) returns (ok: bool)
      requires Valid() && email in users
      requires value.Some? && HasCharacter(characters, value.value) ==>
        exists i | 0 <= i < |characters| :: characters[i].id == value.value && characters[i].userId == users[email].id
      modifies this`users
      ensures Valid()
      ensures ok == (value.None? || HasCharacter(characters, value.value))
      ensures ok ==> users == old(users)[email := old(users)[email].(activeCharacterId := value)]
      ensures !ok ==> users == old(users)
    {
      ok := value.None? || exists i | 0 <= i < |characters| :: characters[i].id == value.value;
      if ok {
        users := users[email := users[email].(activeCharacterId := value)];
      }
    }

    /** `selection.create`. The database refuses a row whose `questId`
        names no quest (foreign key); otherwise the row is appended. */
    method CreateSelection(id: Id, characterId: Id, serverId: int, questId: int, note: Option<string>)
      returns (ok: bool)
      requires Valid()
      requires !(exists i | 0 <= i < |selections| :: selections[i].id == id)
      requires CharacterOn(characters, characterId, serverId)
      requires !HasTriple(selections, characterId, serverId, questId)
      modifies this`selections, this`clock
      ensures Valid()
      ensures ok == HasQuest(quests, questId)
      ensures ok ==> selections == old(selections) + [Selection(id, characterId, serverId, questId, note, old(clock))]
      ensures ok ==> clock == old(clock) + 1
      ensures !ok ==> selections == old(selections) && clock == old(clock)
    {
      ok := exists i | 0 <= i < |quests| :: quests[i].id == questId;
      if ok {
        var sel := Selection(id, characterId, serverId, questId, note, clock);
        AppendSelection(selections, characters, quests, sel);
        selections := selections + [sel];
        clock := clock + 1;
      }
    }

    /** `selection.update({ where: { id }, data: { note } })`. A `note` of
        None stands for `undefined`, which the ORM leaves out of the update. */
    method UpdateSelectionNote(k: nat, note: Option<string>)
      requires Valid() && k < |selections|
      modifies this`selections
      ensures Valid()
      ensures selections == old(selections)[k := old(selections)[k].(note := if note.Some? then note else old(selections)[k].note)]
    {
      if note.Some? {
        selections := selections[k := selections[k].(note := note)];
      }
    }
  }

  /** Appending a new, newest character to a valid table keeps every
      invariant of the store: old links still resolve, and the new row is
      distinct, unique by name and on an existing server. */
  lemma AppendCharacter(users: map<string, User>, cs: seq<Character>, ss: seq<Selection>,
                        servers: seq<Server>, quests: seq<Quest>, c: Character)
    requires UsersOk(users, cs) && CharactersOk(cs, servers) && SelectionsOk(ss, cs, quests)
    requires c.id != "" && !HasCharacter(cs, c.id) && HasServer(servers, c.serverId)
    requires !HasNamedCharacter(cs, c.userId, c.serverId, c.name)
    requires forall i | 0 <= i < |cs| :: cs[i].createdAt < c.createdAt
    ensures UsersOk(users, cs + [c]) && CharactersOk(cs + [c], servers) && SelectionsOk(ss, cs + [c], quests)
  {
    AppendCharacterRow(cs, servers, c);
    AppendKeepsLinks(users, cs, ss, quests, c);
  }

  /** The appended row keeps the character table's own invariant. */
  lemma AppendCharacterRow(cs: seq<Character>, servers: seq<Server>, c: Character)
    requires CharactersOk(cs, servers)
    requires c.id != "" && !HasCharacter(cs, c.id) && HasServer(servers, c.serverId)
    requires !HasNamedCharacter(cs, c.userId, c.serverId, c.name)
    requires forall i | 0 <= i < |cs| :: cs[i].createdAt < c.createdAt
    ensures CharactersOk(cs + [c], servers)
  {
    var cs' := cs + [c];
    assert forall i | 0 <= i < |cs| :: cs'[i] == cs[i];
    assert cs'[|cs|] == c;
    forall i, j | 0 <= i < j < |cs'|
      ensures cs'[i].id != cs'[j].id && cs'[i].createdAt < cs'[j].createdAt
      ensures !(cs'[i].userId == cs'[j].userId && cs'[i].serverId == cs'[j].serverId && cs'[i].name == cs'[j].name)
    {
      if j == |cs| {
        assert cs'[i] == cs[i];
      }
    }
  }

  /** Character ids are a key: two rows with the same id are the same row. */
  lemma SameIdSameRow(cs: seq<Character>, servers: seq<Server>, i: nat, j: nat)
    requires CharactersOk(cs, servers) && i < |cs| && j < |cs|
    requires cs[i].id == cs[j].id
    ensures i == j
  {
  }

  /** Links into the character table still resolve after an append. */
  lemma AppendKeepsLinks(users: map<string, User>, cs: seq<Character>, ss: seq<Selection>,
                         quests: seq<Quest>, c: Character)
    requires UsersOk(users, cs) && SelectionsOk(ss, cs, quests)
    ensures UsersOk(users, cs + [c]) && SelectionsOk(ss, cs + [c], quests)
  {
    var cs' := cs + [c];
    forall e | e in users ensures ActiveOwned(users[e], cs') {
      assert ActiveOwned(users[e], cs);
      if users[e].activeCharacterId.Some? {
        var i :| 0 <= i < |cs| && cs[i].id == users[e].activeCharacterId.value && cs[i].userId == users[e].id;
        assert cs'[i] == cs[i];
      }
    }
    forall i | 0 <= i < |ss|
      ensures CharacterOn(cs', ss[i].characterId, ss[i].serverId)
              && HasQuest(quests, ss[i].questId)
    {
      assert CharacterOn(cs, ss[i].characterId, ss[i].serverId);
      var k :| 0 <= k < |cs| && cs[k].id == ss[i].characterId && cs[k].serverId == ss[i].serverId;
      assert cs'[k] == cs[k];
    }
    assert forall i | 0 <= i < |ss| ::
          CharacterOn(cs', ss[i].characterId, ss[i].serverId)
          && HasQuest(quests, ss[i].questId);
    assert SelectionsOk(ss, cs', quests);
  }

  /** Appending a new, newest selection whose character, server and quest
      exist and whose triple is new keeps the selection table's invariant. */
  lemma AppendSelection(ss: seq<Selection>, cs: seq<Character>, quests: seq<Quest>, sel: Selection)
    requires SelectionsOk(ss, cs, quests)
    requires !(exists i | 0 <= i < |ss| :: ss[i].id == sel.id)
    requires CharacterOn(cs, sel.characterId, sel.serverId)
    requires !HasTriple(ss, sel.characterId, sel.serverId, sel.questId) && HasQuest(quests, sel.questId)
    requires forall i | 0 <= i < |ss| :: ss[i].createdAt < sel.createdAt
    ensures SelectionsOk(ss + [sel], cs, quests)
  {
    var ss' := ss + [sel];
    assert forall i | 0 <= i < |ss| :: ss'[i] == ss[i];
    assert ss'[|ss|] == sel;
    forall i, j | 0 <= i < j < |ss'|
      ensures ss'[i].id != ss'[j].id && ss'[i].createdAt < ss'[j].createdAt
      ensures !(ss'[i].characterId == ss'[j].characterId && ss'[i].serverId == ss'[j].serverId
                && ss'[i].questId == ss'[j].questId)
    {
      if j == |ss| {
        assert ss'[i] == ss[i];
      }
    }
    assert forall i | 0 <= i < |ss'| ::
      CharacterOn(cs, ss'[i].characterId, ss'[i].serverId)
      && HasQuest(quests, ss'[i].questId);
  }

  /** Every row of a table in strictly increasing `at` order is either its
      last row or a row of the prefix, and every prefix row is older than
      the last. */
  lemma SplitLast<T>(s: seq<T>, at: T -> nat)
    requires s != []
    requires forall i, j | 0 <= i < j < |s| :: at(s[i]) < at(s[j])
    ensures forall x | x in s[..|s| - 1] :: at(x) < at(s[|s| - 1])
    ensures forall x | x in s :: x in s[..|s| - 1] || x == s[|s| - 1]
  {
    var prefix := s[..|s| - 1];
    forall x | x in prefix ensures at(x) < at(s[|s| - 1]) {
      var i :| 0 <= i < |prefix| && prefix[i] == x;
      assert s[i] == x;
    }
    forall x | x in s ensures x in prefix || x == s[|s| - 1] {
      var i :| 0 <= i < |s| && s[i] == x;
      if i < |s| - 1 { assert prefix[i] == x; }
    }
  }

  predicate Increasing<T>(s: seq<T>, at: T -> nat) {
    forall i, j | 0 <= i < j < |s| :: at(s[i]) < at(s[j])
  }

  /** Rows of `s` kept by `keep`, newest first (`orderBy: { createdAt:
      "desc" }`), at most `limit` of them (`take`), for a table in creation
      order. NewestSpec states what the result is. */
  function Newest<T>(s: seq<T>, at: T -> nat, keep: T -> bool, limit: nat): (r: seq<T>)
    ensures |r| <= limit
    decreases |s|
  {
    if s == [] || limit == 0 then []
    else if keep(s[|s| - 1]) then [s[|s| - 1]] + Newest(s[..|s| - 1], at, keep, limit - 1)
    else Newest(s[..|s| - 1], at, keep, limit)
  }

  /** What `Newest` promises of `r`: kept rows of the table, strictly
      newest first; a kept row is omitted only when `limit` newer kept rows
      were taken; with a limit no smaller than the table nothing kept is
      omitted. */
  ghost predicate NewestOk<T>(s: seq<T>, at: T -> nat, keep: T -> bool, limit: nat, r: seq<T>) {
    && (forall i | 0 <= i < |r| :: r[i] in s && keep(r[i]))
    && (forall i, j | 0 <= i < j < |r| :: at(r[i]) > at(r[j]))
    && (forall x | x in s && keep(x) && x !in r :: |r| == limit && forall i | 0 <= i < |r| :: at(r[i]) > at(x))
    && (limit >= |s| ==> forall x | x in s && keep(x) :: x in r)
  }

  /** For a table in strictly increasing `at` order, `Newest` meets
      `NewestOk`. */
  lemma {:induction false} NewestSpec<T>(s: seq<T>, at: T -> nat, keep: T -> bool, limit: nat)
    requires Increasing(s, at)
    ensures NewestOk(s, at, keep, limit, Newest(s, at, keep, limit))
    decreases |s|
  {
    if s != [] && limit != 0 {
      var prefix := s[..|s| - 1];
      SplitLast(s, at);
      assert Increasing(prefix, at);
      if keep(s[|s| - 1]) {
        NewestSpec(prefix, at, keep, limit - 1);
        NewestKeepStep(s, at, keep, limit, Newest(prefix, at, keep, limit - 1));
      } else {
        NewestSpec(prefix, at, keep, limit);
        NewestSkipStep(s, at, keep, limit, Newest(prefix, at, keep, limit));
      }
    }
  }

  /** A kept last row goes in front of the prefix's newest rows. */
  lemma NewestKeepStep<T>(s: seq<T>, at: T -> nat, keep: T -> bool, limit: nat, rest: seq<T>)
    requires s != [] && limit != 0 && keep(s[|s| - 1])
    requires forall x | x in s[..|s| - 1] :: at(x) < at(s[|s| - 1])
    requires forall x | x in s :: x in s[..|s| - 1] || x == s[|s| - 1]
    requires NewestOk(s[..|s| - 1], at, keep, limit - 1, rest)
    ensures NewestOk(s, at, keep, limit, [s[|s| - 1]] + rest)
  {
    var last, prefix := s[|s| - 1], s[..|s| - 1];
    var r := [last] + rest;
    assert forall i | 1 <= i < |r| :: r[i] == rest[i - 1];
    assert forall x | x in prefix :: x in s;
    assert r[0] == last && last in s;
  }

  /** A last row that is not kept leaves the prefix's newest rows as they
      are. */
  lemma NewestSkipStep<T>(s: seq<T>, at: T -> nat, keep: T -> bool, limit: nat, rest: seq<T>)
    requires s != [] && !keep(s[|s| - 1])
    requires forall x | x in s :: x in s[..|s| - 1] || x == s[|s| - 1]
    requires NewestOk(s[..|s| - 1], at, keep, limit, rest)
    ensures NewestOk(s, at, keep, limit, rest)
  {
    assert forall x | x in s[..|s| - 1] :: x in s;
  }

  function CharacterAt(c: Character): nat { c.createdAt }

  function SelectionAt(s: Selection): nat { s.createdAt }

  /** Both tables of a valid store are in strictly increasing `createdAt`
      order, and every foreign key of a selection resolves. */
  lemma ValidTables(store: Store)
    requires store.Valid()
    ensures Increasing(store.characters, CharacterAt)
    ensures Increasing(store.selections, SelectionAt)
    ensures forall i | 0 <= i < |store.characters| :: HasServer(store.servers, store.characters[i].serverId)
    ensures forall i | 0 <= i < |store.selections| ::
      HasCharacter(store.characters, store.selections[i].characterId)
      && HasServer(store.servers, store.selections[i].serverId)
      && HasQuest(store.quests, store.selections[i].questId)
  {
    forall i | 0 <= i < |store.selections|
      ensures HasServer(store.servers, store.selections[i].serverId)
    {
      assert CharacterOn(store.characters, store.selections[i].characterId, store.selections[i].serverId);
      var k :| 0 <= k < |store.characters| && store.characters[k].id == store.selections[i].characterId
               && store.characters[k].serverId == store.selections[i].serverId;
      assert HasServer(store.servers, store.characters[k].serverId);
    }
  }
}
