/** `PATCH /api/characters/active`: sets or clears the caller's active
    character after checking that a truthy id names one of the caller's own
    characters. */
module ActiveRoute {
  import opened Base
  import opened Schema
  import opened Db

  /** The refusals before any lookup, in the handler's order: 401 without
      a truthy e-mail, 404 for an unknown user, 500 for an unreadable body
      (`req.json()` throws outside any `try`), 400 for a body without a
      string-or-null `characterId`. None when all pass. */
  function Refusal(email: Option<string>, users: map<string, User>, body: Payload<Field>): (r: Option<int>)
    ensures !Truthy(email) ==> r == Some(401)
    ensures Truthy(email) && email.value !in users ==> r == Some(404)
    ensures SignedIn(email, users) && body.InvalidJson? ==> r == Some(500)
    ensures SignedIn(email, users) && body.NotAnObject? ==> r == Some(400)
    ensures SignedIn(email, users) && body.Object? && ParseActive(body.fields).None? ==> r == Some(400)
    ensures r.None? <==> SignedIn(email, users) && body.Object? && ParseActive(body.fields).Some?
  {
    if !Truthy(email) then Some(401)
    else if email.value !in users then Some(404)
    else if body.InvalidJson? then Some(500)
    else if !body.Object? || ParseActive(body.fields).None? then Some(400)
    else None
  }

  /** The handler. Every early refusal answers its status and writes
      nothing. A truthy id the caller does not own is 403. The stored value
      is the id as given, or null, and the database refuses an id naming no
      character (500). Only the caller's `activeCharacterId` can change. */
  method Patch(store: Store, email: Option<string>, body: Payload<Field>) returns (status: int)
    requires store.Valid()
    modifies store`users
    ensures store.Valid()
    ensures Refusal(email, old(store.users), body).Some? ==>
      status == Refusal(email, old(store.users), body).value && store.users == old(store.users)
    ensures Refusal(email, old(store.users), body).None? ==>
      var u := old(store.users)[email.value];
      var id := ParseActive(body.fields).value;
      if Truthy(id) && !Owns(store.characters, u.id, id.value) then status == 403
      else if id.Some? && !HasCharacter(store.characters, id.value) then status == 500
      else status == 200 && store.users == old(store.users)[email.value := u.(activeCharacterId := id)]
    ensures status != 200 ==> store.users == old(store.users)
  {
    var refusal := Refusal(email, store.users, body);
    if refusal.Some? { return refusal.value; }
    var user := store.users[email.value];
    var characterId := ParseActive(body.fields).value;
    if Truthy(characterId) {
      var owned := FindFirst(store.characters,
        (c: Character) => c.id == characterId.value && c.userId == user.id);
      if owned.None? { return 403; }
    }
    assert characterId.Some? && !Truthy(characterId) ==> !HasCharacter(store.characters, characterId.value);
    var ok := store.SetActiveCharacter(email.value, characterId);
    if !ok { return 500; }
    return 200;
  }

  /** The empty string is falsy, so it skips the ownership check, but no
      character has an empty id: the write is refused. */
  lemma EmptyIdIsRefused(store: Store)
    requires store.Valid()
    ensures !HasCharacter(store.characters, "")
  {
  }
}
