/** `/api/characters`: GET lists the caller's characters with the active
    id; POST validates a new character, refuses a duplicate name on the same
    server, creates it and makes it active when the caller has none. */
module CharactersRoute {
  import opened Base
  import opened Text
  import opened Sanitize
  import opened Schema
  import opened Db

  /** One entry of the GET reply, with the joined server name. */
  datatype CharacterView = CharacterView(id: Id, name: string, level: int, cls: string,
                                         serverId: int, serverName: string)

  datatype CharacterList = CharacterList(activeCharacterId: Option<Id>, characters: seq<CharacterView>)

  /** The characters of `userId`, newest first (`orderBy: { createdAt: "desc" }`
      without `take`): all of them and nothing else. */
  function OwnCharacters(cs: seq<Character>, userId: Id): (r: seq<Character>)
    requires Increasing(cs, CharacterAt)
    ensures forall i | 0 <= i < |r| :: r[i] in cs && r[i].userId == userId
    ensures forall i, j | 0 <= i < j < |r| :: r[i].createdAt > r[j].createdAt
    ensures forall c | c in cs && c.userId == userId :: c in r
  {
    var keep := (c: Character) => c.userId == userId;
    NewestSpec(cs, CharacterAt, keep, |cs|);
    var r := Newest(cs, CharacterAt, keep, |cs|);
    assert forall i | 0 <= i < |r| :: keep(r[i]) ==> r[i].userId == userId;
    r
  }

  /** GET. 401 without a truthy session e-mail, 404 for an unknown user,
      otherwise the user's active id (null when unset) and each of the user's
      characters, newest first, with its server's name. */
  function Get(email: Option<string>, users: map<string, User>, cs: seq<Character>,
               servers: seq<Server>): (r: Reply<CharacterList>)
    requires Increasing(cs, CharacterAt)
    requires forall i | 0 <= i < |cs| :: HasServer(servers, cs[i].serverId)
    ensures r == Status(401) <==> !Truthy(email)
    ensures r == Status(404) <==> Truthy(email) && email.value !in users
    ensures r.Json? <==> SignedIn(email, users)
    ensures r.Json? ==> r.code == 200 && r.body.activeCharacterId == users[email.value].activeCharacterId
    ensures r.Json? ==>
      var own := OwnCharacters(cs, users[email.value].id);
      && |r.body.characters| == |own|
      && forall i | 0 <= i < |own| ::
           ServerById(servers, own[i].serverId).Some?
           && r.body.characters[i] == CharacterView(own[i].id, own[i].name, own[i].level, own[i].cls,
                                                    own[i].serverId, ServerById(servers, own[i].serverId).value.name)
  {
    if !Truthy(email) then Status(401)
    else if email.value !in users then Status(404)
    else
      var user := users[email.value];
      var own := OwnCharacters(cs, user.id);
      var views := seq(|own|, i requires 0 <= i < |own| => View(own[i], servers, cs));
      assert forall i | 0 <= i < |own| :: views[i] == View(own[i], servers, cs);
      Json(200, CharacterList(user.activeCharacterId, views))
  }

  /** `c` with the name of its server; the foreign key guarantees the server. */
  function View(c: Character, servers: seq<Server>, cs: seq<Character>): (v: CharacterView)
    requires c in cs
    requires forall i | 0 <= i < |cs| :: HasServer(servers, cs[i].serverId)
    ensures ServerById(servers, c.serverId).Some?
    ensures v == CharacterView(c.id, c.name, c.level, c.cls, c.serverId, ServerById(servers, c.serverId).value.name)
  {
    var k :| 0 <= k < |cs| && cs[k] == c;
    assert HasServer(servers, cs[k].serverId);
    var s := ServerById(servers, c.serverId);
    CharacterView(c.id, c.name, c.level, c.cls, c.serverId, s.value.name)
  }

  /** The class column written for an accepted class: `"Cra"` is stored as
      `"Crâ"`, every other name as given. */
  function StoredClass(cls: string): string {
    if cls == "Cra" then "Cr\U{00E2}" else cls
  }

  /** A stored class is always one of the enum names and never the unaccented
      spelling; every name other than "Cra" is kept. */
  lemma StoredClassInEnum(cls: string)
    requires cls in ClassNames
    ensures StoredClass(cls) in ClassNames && StoredClass(cls) != "Cra"
    ensures cls != "Cra" ==> StoredClass(cls) == cls
  {
  }

  /** The body after `req.json()` and `Body.safeParse`. */
  function Request(body: Payload<CharacterFields>): Option<NewCharacter> {
    if body.Object? then ParseCharacter(body.fields) else None
  }

  /** The POST refusals that come before any lookup of existing rows, in
      the handler's order: 401 without a truthy e-mail, 404 for an unknown
      user, 400 for an unreadable or invalid body. None when all pass. */
  function Refusal(email: Option<string>, users: map<string, User>, body: Payload<CharacterFields>)
    : (r: Option<int>)
    ensures !Truthy(email) ==> r == Some(401)
    ensures Truthy(email) && email.value !in users ==> r == Some(404)
    ensures SignedIn(email, users) && Request(body).None? ==> r == Some(400)
    ensures r.None? <==> SignedIn(email, users) && Request(body).Some?
  {
    if !Truthy(email) then Some(401)
    else if email.value !in users then Some(404)
    else if Request(body).None? then Some(400)
    else None
  }

  /** POST. Every early refusal answers its status and writes nothing.
      Then 409 for a name the user already has on that server and 500 when
      the server does not exist, neither of which writes. Otherwise the
      character is appended with the normalised name and the stored class,
      and becomes the user's active character when the user had none;
      nothing else changes. */
  method Post(store: Store, nf: Normalizer, email: Option<string>, body: Payload<CharacterFields>, newId: Id)
    returns (status: int)
    requires store.Valid()
    requires newId != "" && !HasCharacter(store.characters, newId)
    modifies store`characters, store`clock, store`users
    ensures store.Valid()
    ensures Refusal(email, old(store.users), body).Some? ==>
      && status == Refusal(email, old(store.users), body).value
      && store.characters == old(store.characters) && store.users == old(store.users)
      && store.clock == old(store.clock)
    ensures Refusal(email, old(store.users), body).None? ==>
      var u := old(store.users)[email.value];
      var req := Request(body).value;
      var name := NormalizeName(nf, req.name);
      if HasNamedCharacter(old(store.characters), u.id, req.serverId, name) then status == 409
      else if !HasServer(old(store.servers), req.serverId) then status == 500
      else
        && status == 201
        && store.characters == old(store.characters)
                               + [Character(newId, u.id, req.serverId, name, req.level, StoredClass(req.cls), old(store.clock))]
        && store.clock == old(store.clock) + 1
        && store.users == (if Truthy(u.activeCharacterId) then old(store.users)
                           else old(store.users)[email.value := u.(activeCharacterId := Some(newId))])
    ensures status != 201 ==>
      store.characters == old(store.characters) && store.users == old(store.users) && store.clock == old(store.clock)
  {
    var refusal := Refusal(email, store.users, body);
    if refusal.Some? { return refusal.value; }
    var user := store.users[email.value];
    var parsed := Request(body);
    var req := parsed.value;
    var safeName := NormalizeName(nf, req.name);
    var duplicate := FindFirst(store.characters,
      (c: Character) => c.userId == user.id && c.serverId == req.serverId && c.name == safeName);
    if duplicate.Some? { return 409; }
    var created := store.CreateCharacter(newId, user.id, req.serverId, safeName, req.level, StoredClass(req.cls));
    if !created { return 500; }
    if !Truthy(user.activeCharacterId) {
      assert store.characters[|store.characters| - 1].id == newId;
      var activated := store.SetActiveCharacter(email.value, Some(newId));
    }
    return 201;
  }
}
