/** `GET /api/matches?serverId&questId`: the newest selections of one quest
    on one server, with the tracking character and an `isMine` flag for the
    caller's active character. Anonymous callers are served too. */
module MatchesRoute {
  import opened Base
  import opened Schema
  import opened Db
  import opened ClassImages

  /** `take: 100`. */
  const MatchLimit := 100

  datatype MatchView = MatchView(id: Id, when: nat, characterName: string, characterLevel: int,
                                 characterClass: string, avatar: ImageValue, isMine: bool)

  /** `findMany({ where: { serverId, questId }, orderBy: { createdAt: "desc" },
      take: 100 })`: matching rows only, strictly newest first, at most 100,
      and a matching row is left out only when 100 newer ones were taken. */
  function Matching(ss: seq<Selection>, key: MatchKey): (r: seq<Selection>)
    requires Increasing(ss, SelectionAt)
    ensures |r| <= MatchLimit
    ensures forall i | 0 <= i < |r| :: r[i] in ss && r[i].serverId == key.serverId && r[i].questId == key.questId
    ensures forall i, j | 0 <= i < j < |r| :: r[i].createdAt > r[j].createdAt
    ensures forall x | x in ss && x.serverId == key.serverId && x.questId == key.questId && x !in r ::
      |r| == MatchLimit && forall i | 0 <= i < |r| :: r[i].createdAt > x.createdAt
  {
    var keep := (s: Selection) => s.serverId == key.serverId && s.questId == key.questId;
    NewestSpec(ss, SelectionAt, keep, MatchLimit);
    var r := Newest(ss, SelectionAt, keep, MatchLimit);
    r
  }

  /** `me?.activeCharacterId`: the caller's active id, None for an anonymous
      caller or an unknown e-mail. */
  function MyActiveId(email: Option<string>, users: map<string, User>): (r: Option<Id>)
    ensures !SignedIn(email, users) ==> r.None?
    ensures SignedIn(email, users) ==> r == users[email.value].activeCharacterId
  {
    if Truthy(email) && email.value in users then users[email.value].activeCharacterId else None
  }

  /** `!!(me?.activeCharacterId && r.character.id === me.activeCharacterId)`. */
  predicate IsMine(me: Option<Id>, characterId: Id) {
    Truthy(me) && characterId == me.value
  }

  /** One reply row: the character joined through the foreign key, and its
      avatar from the class-image table. */
  function View(s: Selection, cs: seq<Character>, me: Option<Id>): (v: MatchView)
    requires HasCharacter(cs, s.characterId)
    ensures CharacterById(cs, s.characterId).Some?
    ensures var c := CharacterById(cs, s.characterId).value;
      && c.id == s.characterId
      && v == MatchView(s.id, s.createdAt, c.name, c.level, c.cls, GetClassImage(c.cls), IsMine(me, c.id))
  {
    var c := CharacterById(cs, s.characterId).value;
    MatchView(s.id, s.createdAt, c.name, c.level, c.cls, GetClassImage(c.cls), IsMine(me, c.id))
  }

  /** The handler. 400 exactly when a parameter is missing or not an integer
      of at least 1; otherwise one row per matching selection, in the order
      and within the bound `Matching` states. Every `when` is strictly
      newer than the next, every avatar is the class image of the row's
      class, and `isMine` holds exactly for the caller's active character. */
  function Get(email: Option<string>, users: map<string, User>, cs: seq<Character>, ss: seq<Selection>,
               serverId: Coerced, questId: Coerced): (r: Reply<seq<MatchView>>)
    requires Increasing(ss, SelectionAt)
    requires forall x | x in ss :: HasCharacter(cs, x.characterId)
    ensures r.Status? <==> ParseMatchQuery(serverId, questId).None?
    ensures r.Status? ==> r.code == 400
    ensures r.Json? ==>
      var m := Matching(ss, ParseMatchQuery(serverId, questId).value);
      && r.code == 200
      && |r.body| == |m| <= MatchLimit
      && (forall i | 0 <= i < |m| :: r.body[i] == View(m[i], cs, MyActiveId(email, users)))
      && (forall i, j | 0 <= i < j < |r.body| :: r.body[i].when > r.body[j].when)
      && (forall i | 0 <= i < |r.body| :: r.body[i].avatar == GetClassImage(r.body[i].characterClass))
      && (forall i | 0 <= i < |r.body| :: r.body[i].isMine <==> IsMine(MyActiveId(email, users), m[i].characterId))
  {
    var key := ParseMatchQuery(serverId, questId);
    if key.None? then Status(400)
    else Json(200, Rows(Matching(ss, key.value), cs, MyActiveId(email, users)))
  }

  /** `rows.map(...)`: one view per selection, in order, each showing when
      its selection was made, the class image of its character and whether
      that character is the caller's. */
  function Rows(m: seq<Selection>, cs: seq<Character>, me: Option<Id>): (r: seq<MatchView>)
    requires forall x | x in m :: HasCharacter(cs, x.characterId)
    ensures |r| == |m|
    ensures forall i | 0 <= i < |m| :: r[i] == View(m[i], cs, me)
    ensures forall i | 0 <= i < |m| ::
      && r[i].when == m[i].createdAt
      && r[i].avatar == GetClassImage(r[i].characterClass)
      && (r[i].isMine <==> IsMine(me, m[i].characterId))
  {
    var r := seq(|m|, i requires 0 <= i < |m| => assert m[i] in m; View(m[i], cs, me));
    assert forall i | 0 <= i < |m| :: r[i] == View(m[i], cs, me);
    r
  }

  /** An anonymous caller, or one without an active character, owns no row. */
  lemma AnonymousOwnsNothing(email: Option<string>, users: map<string, User>, cs: seq<Character>,
                             ss: seq<Selection>, serverId: Coerced, questId: Coerced)
    requires Increasing(ss, SelectionAt)
    requires forall x | x in ss :: HasCharacter(cs, x.characterId)
    requires !SignedIn(email, users) || !Truthy(users[email.value].activeCharacterId)
    ensures var r := Get(email, users, cs, ss, serverId, questId);
      r.Json? ==> forall i | 0 <= i < |r.body| :: !r.body[i].isMine
  {
  }
}
