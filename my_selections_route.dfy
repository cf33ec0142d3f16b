/** `GET /api/my-selections`: the selections of the caller's active
    character, newest first, joined with their quest, server and character.
    The handler takes no request, so no query parameter can change its
    reply. */
module MySelectionsRoute {
  import opened Base
  import opened Db

  /** `take: 300`. */
  const SelectionLimit := 300

  datatype MySelectionView = MySelectionView(
    id: Id, when: nat, questId: int, questName: string, serverId: int, serverName: string,
    characterId: Id, characterName: string, characterLevel: int, characterClass: string)

  /** `findMany({ where: { characterId }, orderBy: { createdAt: "desc" },
      take: 300 })`. */
  function CharacterSelections(ss: seq<Selection>, characterId: Id): (r: seq<Selection>)
    requires Increasing(ss, SelectionAt)
    ensures |r| <= SelectionLimit
    ensures forall i | 0 <= i < |r| :: r[i] in ss && r[i].characterId == characterId
    ensures forall i, j | 0 <= i < j < |r| :: r[i].createdAt > r[j].createdAt
    ensures forall x | x in ss && x.characterId == characterId && x !in r ::
      |r| == SelectionLimit && forall i | 0 <= i < |r| :: r[i].createdAt > x.createdAt
  {
    var keep := (s: Selection) => s.characterId == characterId;
    NewestSpec(ss, SelectionAt, keep, SelectionLimit);
    var r := Newest(ss, SelectionAt, keep, SelectionLimit);
    r
  }

  /** Every foreign key of every selection resolves. */
  predicate Joined(ss: seq<Selection>, cs: seq<Character>, servers: seq<Server>, quests: seq<Quest>) {
    forall x | x in ss ::
      HasCharacter(cs, x.characterId) && HasServer(servers, x.serverId) && HasQuest(quests, x.questId)
  }

  /** One reply row: the selection with its quest's name, its server's name
      and its character's fields. */
  function View(s: Selection, cs: seq<Character>, servers: seq<Server>, quests: seq<Quest>): (v: MySelectionView)
    requires HasCharacter(cs, s.characterId) && HasServer(servers, s.serverId) && HasQuest(quests, s.questId)
    ensures CharacterById(cs, s.characterId).Some? && ServerById(servers, s.serverId).Some?
    ensures QuestById(quests, s.questId).Some?
    ensures var c := CharacterById(cs, s.characterId).value;
      && v.id == s.id && v.when == s.createdAt
      && v.questId == s.questId && v.questName == QuestById(quests, s.questId).value.name
      && v.serverId == s.serverId && v.serverName == ServerById(servers, s.serverId).value.name
      && v.characterId == s.characterId && c.id == s.characterId
      && v.characterName == c.name && v.characterLevel == c.level && v.characterClass == c.cls
  {
    var c := CharacterById(cs, s.characterId).value;
    MySelectionView(s.id, s.createdAt, s.questId, QuestById(quests, s.questId).value.name,
                    s.serverId, ServerById(servers, s.serverId).value.name,
                    c.id, c.name, c.level, c.cls)
  }

  /** The handler. 401 and 404 as for every signed-in route; an empty list,
      not an error, without an active character; otherwise one joined row
      per selection of the active character, as `CharacterSelections`
      orders and bounds them. */
  function Get(email: Option<string>, users: map<string, User>, cs: seq<Character>, ss: seq<Selection>,
               servers: seq<Server>, quests: seq<Quest>): (r: Reply<seq<MySelectionView>>)
    requires Increasing(ss, SelectionAt)
    requires Joined(ss, cs, servers, quests)
    ensures r == Status(401) <==> !Truthy(email)
    ensures r == Status(404) <==> Truthy(email) && email.value !in users
    ensures SignedIn(email, users) && !Truthy(users[email.value].activeCharacterId) ==> r == Json(200, [])
    ensures SignedIn(email, users) && Truthy(users[email.value].activeCharacterId) ==>
      var m := CharacterSelections(ss, users[email.value].activeCharacterId.value);
      && r.Json? && r.code == 200
      && |r.body| == |m| <= SelectionLimit
      && (forall i | 0 <= i < |m| :: r.body[i] == View(m[i], cs, servers, quests))
      && (forall i | 0 <= i < |r.body| :: r.body[i].characterId == users[email.value].activeCharacterId.value)
      && (forall i, j | 0 <= i < j < |r.body| :: r.body[i].when > r.body[j].when)
  {
    if !Truthy(email) then Status(401)
    else if email.value !in users then Status(404)
    else
      var user := users[email.value];
      if !Truthy(user.activeCharacterId) then Json(200, [])
      else
        Json(200, Rows(CharacterSelections(ss, user.activeCharacterId.value), cs, servers, quests))
  }

  /** `rows.map(...)`: one joined view per selection, in order. */
  function Rows(m: seq<Selection>, cs: seq<Character>, servers: seq<Server>, quests: seq<Quest>)
    : (r: seq<MySelectionView>)
    requires Joined(m, cs, servers, quests)
    ensures |r| == |m|
    ensures forall i | 0 <= i < |m| :: r[i] == View(m[i], cs, servers, quests)
  {
    seq(|m|, i requires 0 <= i < |m| => assert m[i] in m; View(m[i], cs, servers, quests))
  }
}
