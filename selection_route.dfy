/** `POST /api/selection`: the active character tracks a quest on its own
    server. The write is an upsert on (character, server, quest): the note of
    an existing row is replaced, otherwise one row is created. */
module SelectionRoute {
  import opened Base
  import opened Text
  import opened Sanitize
  import opened Schema
  import opened Db

  /** `note ? sanitizeNote(note) : undefined`: an absent or empty note is
      undefined; any other note is sanitised, even to the empty string. */
  function SafeNote(nf: Normalizer, note: Option<string>): (r: Option<string>)
    ensures r.None? <==> note.None? || note.value == ""
    ensures r.Some? ==> r.value == SanitizeNote(nf, note.value)
    ensures r.Some? ==> |r.value| <= MaxNoteLength
    ensures r.Some? ==> forall i | 0 <= i < |r.value| :: !IsZeroWidth(r.value[i]) && !IsControl(r.value[i])
  {
    if note.Some? && note.value != "" then Some(SanitizeNote(nf, note.value)) else None
  }

  /** `include: { activeCharacter: true }`: the row `activeCharacterId`
      points at, or null. */
  function ActiveCharacter(u: User, cs: seq<Character>): (r: Option<Character>)
    ensures r.Some? ==> u.activeCharacterId == Some(r.value.id) && r.value in cs
    ensures u.activeCharacterId.None? ==> r.None?
  {
    if u.activeCharacterId.Some? then CharacterById(cs, u.activeCharacterId.value) else None
  }

  /** In a valid store a user with an active id always reaches a character,
      and it is one of the user's own. */
  lemma ActiveCharacterExists(store: Store, email: string)
    requires store.Valid() && email in store.users
    ensures var a := ActiveCharacter(store.users[email], store.characters);
      (a.Some? <==> store.users[email].activeCharacterId.Some?)
      && (a.Some? ==> a.value.userId == store.users[email].id)
  {
    var u := store.users[email];
    assert ActiveOwned(u, store.characters);
    if u.activeCharacterId.Some? {
      var i :| 0 <= i < |store.characters| && store.characters[i].id == u.activeCharacterId.value
               && store.characters[i].userId == u.id;
      var a := ActiveCharacter(u, store.characters);
      assert a.Some?;
      var j :| 0 <= j < |store.characters| && store.characters[j] == a.value;
      SameIdSameRow(store.characters, store.servers, i, j);
    }
  }

  /** The `where` of the `findFirst` looking for an existing row. */
  function SameTriple(characterId: Id, serverId: int, questId: int): Selection -> bool {
    (s: Selection) => s.characterId == characterId && s.serverId == serverId && s.questId == questId
  }

  /** The signed-in caller's active character. */
  function Active(email: Option<string>, users: map<string, User>, cs: seq<Character>): (r: Option<Character>)
    ensures r.Some? ==> SignedIn(email, users)
  {
    if SignedIn(email, users) then ActiveCharacter(users[email.value], cs) else None
  }

  function Request(body: Payload<SelectionFields>): Option<TrackRequest> {
    if body.Object? then ParseSelection(body.fields) else None
  }

  /** The handler's refusals, in its order: 401 without a truthy e-mail,
      404 for an unknown user, 400 without an active character (before the
      body is read), 400 for an unreadable or invalid body, 400 when the
      body's server is not the active character's. None when every check
      passes. */
  function Refusal(email: Option<string>, users: map<string, User>, cs: seq<Character>,
                   body: Payload<SelectionFields>): (r: Option<int>)
    ensures !Truthy(email) ==> r == Some(401)
    ensures Truthy(email) && email.value !in users ==> r == Some(404)
    ensures SignedIn(email, users) && Active(email, users, cs).None? ==> r == Some(400)
    ensures Active(email, users, cs).Some? && Request(body).None? ==> r == Some(400)
    ensures Active(email, users, cs).Some? && Request(body).Some? ==>
      r == (if Active(email, users, cs).value.serverId != Request(body).value.serverId then Some(400) else None)
    ensures r.None? <==> Active(email, users, cs).Some? && Request(body).Some?
                         && Active(email, users, cs).value.serverId == Request(body).value.serverId
  {
    if !Truthy(email) then Some(401)
    else if email.value !in users then Some(404)
    else if Active(email, users, cs).None? then Some(400)
    else if Request(body).None? then Some(400)
    else if Active(email, users, cs).value.serverId != Request(body).value.serverId then Some(400)
    else None
  }

  /** The handler. Every refusal answers its status and writes nothing.
      Otherwise the existing row of the triple gets the sanitised note (an
      undefined note leaves it as it was), or a new row is appended for the
      active character on its server; the database refuses a quest that
      does not exist (500). Nothing else changes, and the triple stays
      unique. */
  method Post(store: Store, nf: Normalizer, email: Option<string>, body: Payload<SelectionFields>, newId: Id)
    returns (status: int)
    requires store.Valid()
    requires !(exists i | 0 <= i < |store.selections| :: store.selections[i].id == newId)
    modifies store`selections, store`clock
    ensures store.Valid()
    ensures Refusal(email, old(store.users), old(store.characters), body).Some? ==>
      && status == Refusal(email, old(store.users), old(store.characters), body).value
      && store.selections == old(store.selections) && store.clock == old(store.clock)
    ensures Refusal(email, old(store.users), old(store.characters), body).None? ==>
      var a := Active(email, old(store.users), old(store.characters)).value;
      var req := Request(body).value;
      var note := SafeNote(nf, req.note);
      var k := FirstIndex(old(store.selections), SameTriple(a.id, req.serverId, req.questId));
      if k < |old(store.selections)| then
        && status == 200
        && store.selections == old(store.selections)[k := old(store.selections)[k].(
             note := if note.Some? then note else old(store.selections)[k].note)]
        && store.clock == old(store.clock)
      else if !HasQuest(old(store.quests), req.questId) then status == 500
      else
        && status == 200
        && store.selections == old(store.selections)
                               + [Selection(newId, a.id, req.serverId, req.questId, note, old(store.clock))]
        && store.clock == old(store.clock) + 1
    ensures status != 200 ==> store.selections == old(store.selections) && store.clock == old(store.clock)
  {
    var refusal := Refusal(email, store.users, store.characters, body);
    if refusal.Some? { return refusal.value; }
    var a := Active(email, store.users, store.characters).value;
    var req := Request(body).value;
    var safeNote := SafeNote(nf, req.note);
    status := Upsert(store, a, req.questId, safeNote, newId);
  }

  /** The upsert on (character, its server, quest) once every check has
      passed. */
  method Upsert(store: Store, a: Character, questId: int, note: Option<string>, newId: Id) returns (status: int)
    requires store.Valid() && a in store.characters
    requires !(exists i | 0 <= i < |store.selections| :: store.selections[i].id == newId)
    modifies store`selections, store`clock
    ensures store.Valid()
    ensures
      var k := FirstIndex(old(store.selections), SameTriple(a.id, a.serverId, questId));
      if k < |old(store.selections)| then
        && status == 200
        && store.selections == old(store.selections)[k := old(store.selections)[k].(
             note := if note.Some? then note else old(store.selections)[k].note)]
        && store.clock == old(store.clock)
      else if !HasQuest(old(store.quests), questId) then status == 500
      else
        && status == 200
        && store.selections == old(store.selections)
                               + [Selection(newId, a.id, a.serverId, questId, note, old(store.clock))]
        && store.clock == old(store.clock) + 1
    ensures status != 200 ==> store.selections == old(store.selections) && store.clock == old(store.clock)
  {
    var k := FirstIndex(store.selections, SameTriple(a.id, a.serverId, questId));
    if k < |store.selections| {
      store.UpdateSelectionNote(k, note);
    } else {
      assert !HasTriple(store.selections, a.id, a.serverId, questId) by {
        forall i | 0 <= i < |store.selections|
          ensures !SameTriple(a.id, a.serverId, questId)(store.selections[i]) {}
      }
      var j :| 0 <= j < |store.characters| && store.characters[j] == a;
      var ok := store.CreateSelection(newId, a.id, a.serverId, questId, note);
      if !ok { return 500; }
    }
    return 200;
  }
}
