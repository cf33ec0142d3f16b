/** The home page block: which character is active, which server the page
    works on and how it is named, the avatar, whether a quest can be
    tracked, and the active-first ordering of match rows. */
module ClientBlock {
  import opened Base
  import opened Text
  import opened Db
  import ClientProfile
  import QuestAutocomplete

  /** The entries of `/api/characters` as the page types them. */
  datatype ClientCharacter = ClientCharacter(id: Id, serverId: int, name: string, level: int, cls: string)
  datatype CharactersData = CharactersData(activeCharacterId: Option<Id>, characters: seq<ClientCharacter>)
  datatype ClientSelection = ClientSelection(id: Id, characterId: Id, questId: int, serverId: int)

  /** `chars?.characters?.find((c) => c.id === chars?.activeCharacterId) || null`:
      the first character whose id is the active id; none while the data is
      not loaded or when no character has that id. */
  function Active(chars: Option<CharactersData>): (r: Option<ClientCharacter>)
    ensures r.Some? ==> chars.Some? && r.value in chars.value.characters
                        && chars.value.activeCharacterId == Some(r.value.id)
    ensures r.None? <==> chars.None? || forall i | 0 <= i < |chars.value.characters| ::
                           chars.value.activeCharacterId != Some(chars.value.characters[i].id)
  {
    if chars.None? then None
    else FindFirst(chars.value.characters, (c: ClientCharacter) => chars.value.activeCharacterId == Some(c.id))
  }

  /** `active?.serverId ?? guestServerId ?? null`. */
  function ServerIdUsed(active: Option<ClientCharacter>, guest: Option<int>): (r: Option<int>)
    ensures active.Some? ==> r == Some(active.value.serverId)
    ensures active.None? ==> r == guest
  {
    if active.Some? then Some(active.value.serverId) else guest
  }

  /** The guest server after the page's effect: without an active
      character, an unset guest server becomes the first listed server once
      the list is there; otherwise it is left as it is. */
  function GuestServer(active: Option<ClientCharacter>, servers: Option<seq<Server>>, guest: Option<int>)
    : (r: Option<int>)
    ensures guest.Some? || active.Some? ==> r == guest
    ensures active.None? && guest.None? && servers.Some? && |servers.value| > 0 ==> r == Some(servers.value[0].id)
    ensures active.None? && guest.None? && (servers.None? || servers.value == []) ==> r == None
  {
    if active.None? && servers.Some? && |servers.value| > 0 && guest.None? then Some(servers.value[0].id)
    else guest
  }

  /** A guest (no active character) works on a server as soon as the
      server list is non-empty, whatever the guest picked before. */
  lemma GuestHasServer(servers: seq<Server>, guest: Option<int>)
    requires |servers| > 0
    ensures ServerIdUsed(None, GuestServer(None, Some(servers), guest)).Some?
  {
  }

  /** A server id is truthy unless absent or 0. */
  predicate TruthyId(x: Option<int>) {
    x.Some? && x.value != 0
  }

  /** `serverNameUsed`: "" without a (truthy) server; the name of the first
      listed server with that id; otherwise "Serveur #" and the id, also
      while the list is not loaded. */
  function ServerNameUsed(serverIdUsed: Option<int>, servers: Option<seq<Server>>): (r: string)
    ensures !TruthyId(serverIdUsed) ==> r == ""
    ensures TruthyId(serverIdUsed) && servers.Some? && HasServer(servers.value, serverIdUsed.value) ==>
      r == ServerById(servers.value, serverIdUsed.value).value.name
    ensures TruthyId(serverIdUsed) && (servers.None? || !HasServer(servers.value, serverIdUsed.value)) ==>
      r == "Serveur #" + IntToString(serverIdUsed.value) && r != ""
  {
    if !TruthyId(serverIdUsed) then ""
    else
      var s := if servers.Some? then ServerById(servers.value, serverIdUsed.value) else None;
      if s.Some? then s.value.name else "Serveur #" + IntToString(serverIdUsed.value)
  }

  /** `avatarSrc`: the class image of the active character, the archer for a
      guest (or a character with an empty class). */
  function AvatarSrc(active: Option<ClientCharacter>): (r: string)
    ensures active.Some? && active.value.cls != "" ==> r == ClientProfile.ClassImage(active.value.cls)
    ensures active.None? ==> r == ClientProfile.ClassImage("Cra")
  {
    ClientProfile.ClassImage(if active.Some? && active.value.cls != "" then active.value.cls else "Cra")
  }

  /** A guest sees the archer image. */
  lemma GuestAvatar()
    ensures AvatarSrc(None) == "/images/classes/cra.png"
  {
    var r := ClientProfile.ClassSlug("Cra");
    assert r[0] == 'c' && r[1] == 'r' && r[2] == 'a';
    assert r == "cra";
    assert ClientProfile.ClassImage("Cra") == "/images/classes/" + "cra" + ".png";
  }

  /** `canInteract`: an active character, a truthy server and a truthy quest
      id. */
  predicate CanInteract(active: Option<ClientCharacter>, serverIdUsed: Option<int>, quest: Option<QuestAutocomplete.QuestRef>) {
    active.Some? && TruthyId(serverIdUsed) && quest.Some? && quest.value.id != 0
  }

  /** The `{ serverId, questId }` POST body `addSelection` sends, or None
      when it returns early. It is sent exactly when `canInteract` holds,
      and, since a character is then active, it always names that
      character's server: the route's server check passes. */
  function AddSelectionRequest(active: Option<ClientCharacter>, guest: Option<int>, quest: Option<QuestAutocomplete.QuestRef>)
    : (r: Option<(int, int)>)
    ensures r.Some? <==> CanInteract(active, ServerIdUsed(active, guest), quest)
    ensures r.Some? ==> r.value.0 == active.value.serverId && r.value.1 == quest.value.id
  {
    var serverId := ServerIdUsed(active, guest);
    if quest.None? || quest.value.id == 0 || !TruthyId(serverId) || active.None? then None
    else Some((serverId.value, quest.value.id))
  }

  function IsOf(id: Id): ClientSelection -> bool {
    (s: ClientSelection) => s.characterId == id
  }

  function IsNotOf(id: Id): ClientSelection -> bool {
    (s: ClientSelection) => s.characterId != id
  }

  /** `sortedSelections`: no rows before the data arrives; the rows as they
      are without an active character; otherwise the active character's
      rows, then the others, each group in its original order. */
  function SortedSelections(selections: Option<seq<ClientSelection>>, active: Option<ClientCharacter>)
    : (r: seq<ClientSelection>)
    ensures selections.None? ==> r == []
    ensures selections.Some? && active.None? ==> r == selections.value
    ensures selections.Some? && active.Some? ==>
      r == Filter(selections.value, IsOf(active.value.id)) + Filter(selections.value, IsNotOf(active.value.id))
  {
    if selections.None? then []
    else if active.None? then selections.value
    else Filter(selections.value, IsOf(active.value.id)) + Filter(selections.value, IsNotOf(active.value.id))
  }

  /** With an active character the ordering is a permutation of the rows
      that puts every row of that character before every other row. */
  lemma SortedSelectionsGroups(selections: seq<ClientSelection>, active: ClientCharacter)
    ensures var r := SortedSelections(Some(selections), Some(active));
      && multiset(r) == multiset(selections)
      && forall i, j | 0 <= i < j < |r| :: r[j].characterId == active.id ==> r[i].characterId == active.id
  {
    var mine := Filter(selections, IsOf(active.id));
    var others := Filter(selections, IsNotOf(active.id));
    FilterPartition(selections, IsOf(active.id), IsNotOf(active.id));
    var r := mine + others;
    assert r == SortedSelections(Some(selections), Some(active));
    forall i, j | 0 <= i < j < |r| && r[j].characterId == active.id
      ensures r[i].characterId == active.id
    {
      if j < |mine| {
        assert r[i] == mine[i] && IsOf(active.id)(mine[i]);
      }
    }
  }

  /** Each group keeps the order of the rows: the ordering of two lists laid
      end to end is the groups of the first followed, group by group, by
      those of the second, and rows that are all the active character's are
      left as they are. */
  lemma {:induction false} SortedSelectionsKeepsOrder(a: seq<ClientSelection>, b: seq<ClientSelection>, active: ClientCharacter)
    ensures Filter(a + b, IsOf(active.id)) == Filter(a, IsOf(active.id)) + Filter(b, IsOf(active.id))
    ensures Filter(a + b, IsNotOf(active.id)) == Filter(a, IsNotOf(active.id)) + Filter(b, IsNotOf(active.id))
    ensures (forall i | 0 <= i < |a| :: a[i].characterId == active.id) ==>
      SortedSelections(Some(a), Some(active)) == a
  {
    FilterConcat(a, b, IsOf(active.id));
    FilterConcat(a, b, IsNotOf(active.id));
    if forall i | 0 <= i < |a| :: a[i].characterId == active.id {
      FilterAll(a, IsOf(active.id));
      FilterNone(a, IsNotOf(active.id));
    }
  }
}
