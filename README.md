# dofus-lfg core, modelled in Dafny

dofus-lfg is a small "looking for group" site for Dofus players. A signed-in
user declares characters on game servers and picks one as active. The
active character *tracks* quests, which is a selection of (character,
server, quest) with an optional note. Anyone can then list who tracks a
given quest on a given server. This project models:

- **The route handlers.** Each one works against an in-memory database of
  users, characters, selections, servers and quests (`Db.Store`):
  - create and list characters;
  - set or clear the active character;
  - track a quest (an upsert on the triple);
  - list matches;
  - list one's own selections;
  - search quests.
- **The input sanitisers and the zod schemas** that guard those handlers.
- **The per-address sliding-window rate limiter** that two of the routes
  define.
- **The page logic:**
  - the class-image lookup;
  - the character form's checks;
  - the derivations of the home block;
  - the keyboard state machines of the server and quest pickers.
- **The quest-import script and the server seed script**, which maintain
  the reference tables.

Modules follow the source files:

| module | file |
|---|---|
| `Base` | shared wrappers and `Filter`, used by most modules |
| `Text` | JavaScript string primitives, used by most modules |
| `Sanitize` | the sanitisers |
| `Schema` | the zod schemas |
| `Db` | the store |
| `CharactersRoute` | `app/api/characters/route.ts` |
| `ActiveRoute` | `app/api/characters/active/route.ts` |
| `SelectionRoute` | `app/api/selection/route.ts` |
| `MatchesRoute` | `app/api/matches/route.ts` |
| `MySelectionsRoute` | `app/api/my-selections/route.ts` |
| `QuestSearchRoute` | `app/api/quests/search/route.ts` |
| `RateLimit` | the limiter, shared by the matches and search routes |
| `ClassImages` | `src/lib/classImages.ts` |
| `ClientProfile` | `src/components/ClientProfile.tsx` |
| `ClientBlock` | `src/components/ClientBlock.tsx` |
| `ServerSelect` | `src/components/ServerSelect.tsx` |
| `QuestAutocomplete` | `src/components/QuestAutocomplete.tsx` |
| `ImportQuests` | `scripts/import-quests.ts` |
| `Seed` | `prisma/seed.ts` |

How each kind of code is modelled:

- **Handlers that write:** methods on the store, which return the HTTP status.
- **Read-only handlers:** functions returning a `Reply`.
- **React state:** each component's state becomes a class whose methods are
  its event handlers.

The session e-mail, the clock and Unicode NFKC are parameters.

## Model

| member | source | states |
|---|---|---|
| Sanitize.NormalizeName | app/api/characters/route.ts:10-15 | The result has no U+200B–U+200D or U+FEFF and is trimmed. Every character comes from the NFKC output. It is empty exactly when that output is only zero-width characters and whitespace. |
| Sanitize.NormalizeNameIdempotent | src/components/ClientProfile.tsx:52-57 | Normalising again gives the same name when NFKC leaves the name alone. |
| Sanitize.SanitizeNameInput | src/components/ClientProfile.tsx:59-62 | The result holds at most 40 characters, all from the name alphabet. |
| Sanitize.ValidNameIff | src/components/ClientProfile.tsx:64-68 | `validName` holds iff the length is 1 to 40 and every character is in the alphabet. The JavaScript UTF-16 length equals the code-point length here. |
| Sanitize.SanitizedNameIsValid | src/components/ClientProfile.tsx:59-68 | A non-empty output of `sanitizeNameInput` always passes `validName`. |
| Sanitize.CleanText | app/api/selection/route.ts:10-14 | The NFKC, zero-width, control and trim pipeline. Its output has no zero-width or control character and is trimmed. |
| Sanitize.CleanTextEmptyIff | app/api/quests/search/route.ts:7-11 | The pipeline output is empty iff the NFKC output holds only whitespace, control and zero-width characters. |
| Sanitize.SanitizeNote | app/api/selection/route.ts:9-16 | At most 500 characters, with no zero-width and no control character. |
| Sanitize.SanitizeQuery | app/api/quests/search/route.ts:6-13 | At most 50 characters, with no zero-width and no control character. |
| Sanitize.QueryEmptyIff | app/api/quests/search/route.ts:6-13 | The sanitised query is empty iff the normalised input is invisible: only whitespace, control and zero-width characters. |
| Schema.IntAtLeast | app/api/characters/route.ts:18 | `z.coerce.number().int().min(lo)` accepts exactly the finite integers ≥ lo and yields that integer. |
| Schema.ParseName | app/api/characters/route.ts:19-24 | On success the value is the trimmed string. The raw JavaScript length is 1 to 40. Every trimmed character is in the alphabet. Conversely, every such string is accepted. |
| Schema.ParseCharacter | app/api/characters/route.ts:17-48 | On success: serverId is an integer ≥ 1, level an integer in 1..200, the name is accepted by `ParseName`, and the class is among the 20 enum names. It fails iff one of these fails. |
| Schema.ParseCharacterAccepts | app/api/characters/route.ts:17-48 | Conversely, a positive integer server id, a name `ParseName` accepts, an integer level in 1..200 and an enum class name always parse. |
| Schema.ParseNote | app/api/selection/route.ts:21 | An absent note is accepted as undefined. A string of JavaScript length ≤ 500 is kept. A null or non-string note is refused. |
| Schema.ParseSelection | app/api/selection/route.ts:18-22 | serverId and questId are integers ≥ 1, and the note is accepted by `ParseNote`. It fails iff one of these fails. |
| Schema.ParseActive | app/api/characters/active/route.ts:7 | `characterId` is a string or null. Absent or non-string values are refused. |
| Schema.ParseMatchQuery | app/api/matches/route.ts:11-14 | Both parameters are integers ≥ 1. It fails iff one of them is not. |
| Schema.MatchQueryRejectsNonPositive | app/api/matches/route.ts:47-51 | A missing parameter (read as 0) or a non-positive one is refused. |
| Db.FirstIndex | app/api/selection/route.ts:58-60 | `findFirst`: the index of the first row satisfying the condition, or the table length when no row does. |
| Db.FindFirst | app/api/characters/route.ts:102-105 | A found row is in the table and satisfies the condition. None iff no row does. |
| Db.Store.constructor | app/api/characters/route.ts:55-63 | A store with accounts, servers and quests and no character yet is valid. |
| Db.Store.CreateCharacter | app/api/characters/route.ts:114-122 | The row is appended with the clock as `createdAt`, iff its server exists (foreign key). Otherwise nothing changes. The store stays valid. |
| Db.AppendCharacter | app/api/characters/route.ts:114-122 | A new, newest character on an existing server, with a name unused by its user on that server, keeps every store invariant. |
| Db.Store.SetActiveCharacter | app/api/characters/active/route.ts:31-34 | Only that user's `activeCharacterId` changes. A value naming no character is refused. |
| Db.Store.CreateSelection | app/api/selection/route.ts:67-76 | The row is appended iff its quest exists. Otherwise nothing changes. Triple uniqueness is kept. |
| Db.AppendSelection | app/api/selection/route.ts:67-76 | A new, newest selection whose character, server and quest resolve and whose triple is unused keeps the selection table's invariant. |
| Db.Store.UpdateSelectionNote | app/api/selection/route.ts:62-66 | Only that row's note changes. An undefined note leaves it as it was. |
| Db.Newest | app/api/matches/route.ts:56-61 | `orderBy createdAt desc` plus `take`: never more rows than the limit. |
| Db.NewestSpec | app/api/matches/route.ts:56-61 | For a table in creation order: (1) kept rows only, strictly newest first; (2) a kept row is omitted only when `limit` newer kept rows were taken; (3) nothing kept is omitted when the limit is at least the table size. |
| Db.ValidTables | app/api/my-selections/route.ts:22-39 | In a valid store both tables are in creation order and every foreign key resolves. |
| CharactersRoute.OwnCharacters | app/api/characters/route.ts:57-61 | Exactly the caller's characters, strictly newest first. |
| CharactersRoute.Get | app/api/characters/route.ts:50-77 | 401 iff there is no truthy e-mail, and 404 iff the user is unknown. Otherwise: the stored active id (null when unset), and one row per own character, newest first, with its server's name. |
| CharactersRoute.View | app/api/characters/route.ts:68-75 | The row carries the character's fields and the name of its server, which the foreign key guarantees. |
| CharactersRoute.StoredClassInEnum | app/api/characters/route.ts:113 | The stored class is an enum name and never plain "Cra". Every other class is stored unchanged. |
| CharactersRoute.Refusal | app/api/characters/route.ts:79-97 | The early refusals in order: 401 without an e-mail, 404 for an unknown user, 400 for an unreadable or invalid body. None exactly when the caller is signed in and the body parses. |
| CharactersRoute.Post | app/api/characters/route.ts:79-132 | Every early refusal answers its status and writes nothing. Then 409 for a duplicate normalised name on that server and 500 for a missing server, neither of which writes. On 201 the character is appended with the normalised name, "Crâ" for "Cra", and the next `createdAt`. It becomes active iff the user had no truthy active id. Nothing else changes. |
| ActiveRoute.Refusal | app/api/characters/active/route.ts:10-19 | The refusals before any lookup, in order: 401 without a truthy session e-mail, 404 for an unknown user, 500 when the body is not JSON, 400 when the body is not an object with a string-or-null `characterId`. None exactly when all of these pass. |
| ActiveRoute.Patch | app/api/characters/active/route.ts:9-37 | Statuses: 401 and 404; 500 for unreadable JSON; 400 for a bad body; 403 for a truthy id the caller does not own; 500 for an id naming no character. Otherwise the id, or null, is stored. Only the caller's `activeCharacterId` can change. |
| ActiveRoute.EmptyIdIsRefused | app/api/characters/active/route.ts:23 | No character has the empty id, so the falsy "" that skips the ownership check is refused by the foreign key. |
| SelectionRoute.SafeNote | app/api/selection/route.ts:48 | undefined iff the note is absent or empty. Otherwise it is `sanitizeNote(note)`, with at most 500 characters and no control or zero-width character. |
| SelectionRoute.ActiveCharacter | app/api/selection/route.ts:29-32 | The row the active id points at, and only when an id is set. |
| SelectionRoute.ActiveCharacterExists | app/api/selection/route.ts:35-37 | In a valid store an active id always reaches one of the user's own characters. |
| SelectionRoute.Active | app/api/selection/route.ts:25-37 | An active character is found only for a signed-in caller. |
| SelectionRoute.Refusal | app/api/selection/route.ts:24-56 | The refusals in order: 401 without an e-mail, 404 for an unknown user, 400 without an active character, 400 for a bad body, 400 when the server differs from the character's. None exactly when every check passes. |
| SelectionRoute.Post | app/api/selection/route.ts:24-79 | Every refusal answers its status and writes nothing. Otherwise the existing row of the triple gets the sanitised note, or one row is appended for the active character on its server. A missing quest is 500. No other table changes. |
| SelectionRoute.Upsert | app/api/selection/route.ts:58-76 | Update when the triple exists, otherwise create. The store stays valid, so the triple stays unique. |
| MatchesRoute.Matching | app/api/matches/route.ts:56-61 | Only rows of that server and quest, strictly newest first, at most 100. A matching row is omitted only when 100 newer ones were taken. |
| MatchesRoute.MyActiveId | app/api/matches/route.ts:38-44 | The caller's active id. None for anonymous or unknown callers. |
| MatchesRoute.View | app/api/matches/route.ts:63-75 | The row shows the selection's own character, `getClassImage` of its class, and `isMine`. |
| MatchesRoute.Get | app/api/matches/route.ts:36-76 | 400 iff the query fails to parse. Otherwise one row per matching selection: `when` strictly decreasing, avatar == `getClassImage(class)`, and `isMine` iff the row's character is the caller's truthy active id. |
| MatchesRoute.AnonymousOwnsNothing | app/api/matches/route.ts:71-73 | Without a caller or an active id, no row is mine. |
| MySelectionsRoute.CharacterSelections | app/api/my-selections/route.ts:22-39 | Only that character's rows, strictly newest first, at most 300. A row is omitted only when 300 newer ones were taken. |
| MySelectionsRoute.View | app/api/my-selections/route.ts:41-54 | The row carries its quest's name, its server's name and its character's fields. |
| MySelectionsRoute.Get | app/api/my-selections/route.ts:6-55 | 401 iff there is no e-mail, and 404 iff the user is unknown. `[]` without a truthy active id. Otherwise joined rows of the active character only, newest first, at most 300. |
| QuestSearchRoute.Insert | app/api/quests/search/route.ts:43 | Insertion into a name-sorted list keeps it sorted and adds exactly one copy of the quest. |
| QuestSearchRoute.SortByName | app/api/quests/search/route.ts:43 | `orderBy name asc` is sorted and a permutation of the table. |
| QuestSearchRoute.Matching | app/api/quests/search/route.ts:49 | Exactly the quests whose name contains the query case-insensitively, each at most as often as in the table. |
| QuestSearchRoute.TakeSorted | app/api/quests/search/route.ts:42-43 | The first n of a sorted list are sorted, form a sub-multiset of the list, and no name left out is smaller than a kept one. |
| QuestSearchRoute.Search | app/api/quests/search/route.ts:35-55 | Results are sorted by name and form a sub-multiset of the table, so no quest is repeated beyond its own copies. An empty sanitised query gives at most 100 quests, the smallest names. Otherwise at most 50 quests, each containing the query; a match is omitted only when 50 no-larger names were taken. |
| QuestSearchRoute.InvisibleQueryIsEmpty | app/api/quests/search/route.ts:38-40 | Whitespace-, control- and zero-width-only input takes the empty-query branch. |
| RateLimit.FirstField | app/api/matches/route.ts:22 | `split(",")[0]` is a comma-free prefix that ends at the first comma. |
| RateLimit.ClientIp | app/api/matches/route.ts:20-24 | Never empty: the trimmed first forwarded address, else a non-empty `cf-connecting-ip`, else "anon". |
| RateLimit.Fresh | app/api/matches/route.ts:29 | Exactly the recorded hits less than 60 s old, in order. |
| RateLimit.RateLimiter.constructor | app/api/matches/route.ts:17 | The limiter starts empty. |
| RateLimit.RateLimiter.Hit | app/api/matches/route.ts:25-34 | Denies iff 20 or more fresh hits remain, and then records nothing. Otherwise it stores the fresh hits plus `now` for that address only. No address ever holds more than 20 hits. |
| RateLimit.PermittedHitIsInWindow | app/api/quests/search/route.ts:28-32 | After a permitted hit the list ends with `now`, holds 1 to 20 entries, and all of them lie inside the window. |
| ClassImages.GetClassImage | src/lib/classImages.ts:2-26 | Each key of the table gets its path. A key the object literal inherits from `Object.prototype` (such as "constructor" or "toString") gets that member, which `??` keeps. Exactly the remaining strings get the placeholder. Every path returned is an image path. |
| ClassImages.EnumClassesGetPaths | src/lib/classImages.ts:2-26 | No name of the character class enum is an inherited key, so a stored class always gets an image path. Only the accented "Crâ" gets the placeholder. |
| ClassImages.CraSpellings | src/lib/classImages.ts:11-12 | "Cra" and the mis-encoded key "Cr√¢" hit `cra.png`. |
| ClassImages.AccentedCraMisses | src/lib/classImages.ts:11-12 | The correctly accented "Crâ" is not a key and gets the placeholder. |
| ClientProfile.ClassSlug | src/components/ClientProfile.tsx:49 | Position by position, the slug is the lowered class, except that the first "â" of the lowered string becomes "a". Its length is the class's. |
| Text.ReplaceFirst | src/components/ClientProfile.tsx:49 | `replace` with a one-character string: exactly the first occurrence becomes the replacement, and every other position is kept. |
| ClientProfile.ClassImage | src/components/ClientProfile.tsx:47-50 | Always an image path under `/images/classes/` ending in `.png`, whose file name is the slug of the class. |
| ClientProfile.SameImageIffSameSlug | src/components/ClientProfile.tsx:47-50 | Two classes get the same path exactly when their slugs agree. |
| ClientProfile.ClassSlugIgnoresCase | src/components/ClientProfile.tsx:49 | Case never changes the path. |
| ClientProfile.ArcherImage | src/components/ClientProfile.tsx:47-50 | The page shows the table's `cra.png` path for "Crâ", where the shared table answers the placeholder. |
| ClientProfile.ClassesAreEnumNames | src/components/ClientProfile.tsx:25-45 | Every class the form offers is accepted by the server's enum. |
| ClientProfile.CanSubmitIff | src/components/ClientProfile.tsx:89-91 | `canAdd` / `canSaveEdit` holds iff the trimmed name is 1–40 alphabet characters, 1 ≤ level ≤ 200 and a server is chosen. |
| ClientProfile.TrimAround | src/components/ClientProfile.tsx:52-57 | Trimming whitespace around a trimmed core gives the core. |
| ClientProfile.NormalizedValidName | src/components/ClientProfile.tsx:52-57 | For an NFKC-stable name with a valid trimmed form, `normalizeName` is exactly `trim`. |
| ClientProfile.NormalizedNameIsParsed | src/components/ClientProfile.tsx:95-100 | The server's name schema parses such a normalised name to itself. |
| ClientProfile.AcceptedFormIsAcceptedByServer | src/components/ClientProfile.tsx:89-100 | A form the page lets through passes the server's schema, given a positive server id, an integral level, an offered class and an NFKC-stable name. |
| ClientBlock.Active | src/components/ClientBlock.tsx:41-42 | A character whose id is the active id. None iff data is missing or no character has that id. |
| ClientBlock.ServerIdUsed | src/components/ClientBlock.tsx:60 | The active character's server, otherwise the guest server. |
| ClientBlock.GuestServer | src/components/ClientBlock.tsx:53-57 | Without an active character, an unset guest server becomes the first listed server. Otherwise it is unchanged. |
| ClientBlock.GuestHasServer | src/components/ClientBlock.tsx:53-60 | A guest always works on some server once the list is non-empty. |
| ClientBlock.ServerNameUsed | src/components/ClientBlock.tsx:62-66 | "" without a truthy server id. The server's name when it is listed. Otherwise the non-empty "Serveur #id". |
| ClientBlock.AvatarSrc | src/components/ClientBlock.tsx:69-70 | The class image of the active character, or the archer image for a guest. |
| ClientBlock.GuestAvatar | src/components/ClientBlock.tsx:69-70 | A guest sees `/images/classes/cra.png`. |
| ClientBlock.AddSelectionRequest | src/components/ClientBlock.tsx:80-99 | A request is sent iff `canInteract` holds. It always names the active character's own server, so the route's server check passes. |
| ClientBlock.SortedSelections | src/components/ClientBlock.tsx:102-109 | `[]` without data, and unchanged without an active character. Otherwise the active character's rows, then the others. |
| ClientBlock.SortedSelectionsGroups | src/components/ClientBlock.tsx:102-109 | The ordering is a permutation that puts every row of the active character before every other row. |
| ClientBlock.SortedSelectionsKeepsOrder | src/components/ClientBlock.tsx:105-106 | Each group maps concatenation to concatenation, so it keeps the rows' order. Rows that are all the active character's are unchanged. |
| ServerSelect.SelectedIndex | src/components/ServerSelect.tsx:24-27 | In range 0..len−1. It points at the first server with the value's id, or is 0 when none has it. |
| ServerSelect.Below | src/components/ServerSelect.tsx:60 | In range. One past the base, stopping at the last row. |
| ServerSelect.Above | src/components/ServerSelect.tsx:63 | In range. One before the base, stopping at the first row. |
| ServerSelect.BelowAboveReturn | src/components/ServerSelect.tsx:58-63 | Down then up, or up then down, returns to an inner row. |
| ServerSelect.ServerMenu.constructor | src/components/ServerSelect.tsx:17-21 | A non-empty list. The menu starts closed with nothing highlighted. |
| ServerSelect.ServerMenu.Choose | src/components/ServerSelect.tsx:42-48 | Emits the id and closes with -1, or does nothing for an index outside the list. |
| ServerSelect.ServerMenu.KeyDown | src/components/ServerSelect.tsx:50-71 | On a closed menu, arrows only open it at `selectedIndex`. Down and Up move within range. Enter chooses the highlighted row or the selected one, even when closed. Escape closes with -1. Other keys do nothing. The highlight always stays in −1..len−1. |
| ServerSelect.ServerMenu.Toggle | src/components/ServerSelect.tsx:82-85 | Flips `open` and highlights the selected row. |
| ServerSelect.ServerMenu.Hover | src/components/ServerSelect.tsx:103 | Highlights the row under the pointer. |
| ServerSelect.ServerMenu.ClickOutside | src/components/ServerSelect.tsx:30-40 | Closes with nothing highlighted. |
| ServerSelect.OpenThenEnterKeepsValue | src/components/ServerSelect.tsx:24-28 | Opening then pressing Enter re-emits the current value when it is listed, and the first server otherwise. |
| QuestAutocomplete.SearchQuery | src/components/QuestAutocomplete.tsx:31-34 | No `q` iff the debounced text is all whitespace. Otherwise `q` is the trimmed text, non-empty. |
| QuestAutocomplete.SearchQueryIgnoresPadding | src/components/QuestAutocomplete.tsx:32-33 | Texts with the same trimmed form make the same request. |
| QuestAutocomplete.Pick | src/components/QuestAutocomplete.tsx:85 | The highlighted row, or the first when none is highlighted. Nothing when the results are empty or the highlight is past the end. |
| QuestAutocomplete.Autocomplete.constructor | src/components/QuestAutocomplete.tsx:20-22 | The input holds the value's name. The panel is closed with nothing highlighted. |
| QuestAutocomplete.Autocomplete.KeyDown | src/components/QuestAutocomplete.tsx:63-96 | On a closed panel, arrows only open it. With no results every other key is ignored, Escape included. Down is clamped into range, and from −1 it lands on 0. Up is clamped at 0. Enter emits the pick, shows its name and closes, keeping the highlight. Escape closes with −1. |
| QuestAutocomplete.Autocomplete.SelectQuest | src/components/QuestAutocomplete.tsx:98-103 | Emits q, shows its name, closes with −1. |
| QuestAutocomplete.Autocomplete.ClearSelection | src/components/QuestAutocomplete.tsx:105-110 | Emits null, empties the input, opens with −1. |
| QuestAutocomplete.Autocomplete.Type | src/components/QuestAutocomplete.tsx:134-138 | Replaces the text, opens, drops the highlight. |
| QuestAutocomplete.Autocomplete.Focus | src/components/QuestAutocomplete.tsx:139 | Opens and changes nothing else. |
| QuestAutocomplete.Autocomplete.Hover | src/components/QuestAutocomplete.tsx:183 | Highlights the row under the pointer. |
| QuestAutocomplete.Autocomplete.ClickOutside | src/components/QuestAutocomplete.tsx:50-60 | Closes with nothing highlighted. |
| QuestAutocomplete.Autocomplete.SyncValue | src/components/QuestAutocomplete.tsx:42-47 | A new value with a non-empty name replaces the text. Otherwise the text is kept. |
| ImportQuests.Prop | scripts/import-quests.ts:20-22 | `x?.key` is defined iff x is an object holding the key. |
| ImportQuests.RowCheck | scripts/import-quests.ts:19-24 | `assertRow`: the error is about the id iff the id is not a number. It is about the name iff the id is a number and the name is not a non-blank string. |
| ImportQuests.Normalize | scripts/import-quests.ts:56-62 | Keeps the id and trims the name, which is non-empty. Missing optional columns become null, and present ones are kept. |
| ImportQuests.NormalizeRowsSpec | scripts/import-quests.ts:54-63 | A rejection names the first element `assertRow` refuses, with its error, and every earlier element is accepted. An accepted array has every element accepted and maps to one row per element, in order. |
| ImportQuests.MapRowsSpec | scripts/import-quests.ts:54-63 | For any check and mapping: the first refused element stops the map with its error, and every earlier element is accepted. Otherwise every element is accepted and mapped in place. |
| ImportQuests.InsertAllSpec | scripts/import-quests.ts:75 | `createMany` with `skipDuplicates` keeps the existing rows in place and adds only input rows. Every input id ends up present. Ids stay distinct. It adds at most the input's length. |
| ImportQuests.InsertAllConcat | scripts/import-quests.ts:73-75 | Inserting a + b is inserting a, then b. |
| ImportQuests.ChunkStep | scripts/import-quests.ts:73-74 | Each turn takes the next 500-row slice. |
| ImportQuests.FlattenStep | scripts/import-quests.ts:73-74 | Chunks so far followed by the next slice cover the rows up to its end. |
| ImportQuests.ImportChunks | scripts/import-quests.ts:71-78 | The chunks are consecutive slices of 1 to 500 rows that cover the rows exactly once, in order. `inserted` ends at `rows.length`. The table ends as the row-by-row insertion of all rows. |
| ImportQuests.CounterBoundsInserted | scripts/import-quests.ts:76-77 | The reported count bounds the rows actually gained, since skipped duplicates are counted too. |
| ImportQuests.ExitCode | scripts/import-quests.ts:65-87 | Exit 0 for an empty array or a finished import, and 1 for every other outcome. |
| ImportQuests.Run | scripts/import-quests.ts:26-82 | The outcomes, in order: missing file, invalid JSON, not an array, first rejected row, empty array. Otherwise the import of all normalised rows with the counter at their number. Every non-empty valid array is imported. The exit status is 0 exactly when the input is a JSON array whose every row passes the checks. |
| Db.ServerIds | prisma/seed.ts:31 | The set of ids of a table. |
| Seed.SeedIdsDistinct | prisma/seed.ts:5-28 | The 13 seed servers have distinct ids, all in region FR. |
| Seed.Upsert | prisma/seed.ts:35-41 | Overwrites the row with that id or appends one. Ids stay distinct, the row is present, and rows with other ids stay. |
| Seed.UpsertStep | prisma/seed.ts:35-41 | Each upsert extends the loop invariant by one seed server. |
| Seed.FilterDistinct | prisma/seed.ts:34 | The rows kept by `deleteMany` still have distinct ids. |
| Seed.Sync | prisma/seed.ts:30-45 | Afterwards the table holds exactly the seed servers, with their seed columns and distinct ids. Its id set is the seed's. Every unlisted server is gone. |

## Left out

- **Unicode NFKC** (`normalize("NFKC")`) is a parameter `nf` with no assumed property. The name lemmas assume an NFKC-stable input where they need one.
- **`toLowerCase`** is modelled for ASCII and Latin-1 letters only. That is enough for the name alphabet, but not for every quest name.
- **Database collation and equal names:** `orderBy name asc` is code-point order, as under a binary collation. The order among duplicate names is the one the sort picks; the database's may differ.
- **`slice(0, n)` on a note or query** counts code points, not UTF-16 units. Only astral characters differ.
- **Prisma's `contains` with `mode: "insensitive"`** is substring search over the Latin-1 fold. `%` and `_` in the query are not treated specially.
- **`z.coerce.number()`** is seen after `Number(...)` has run (`Coerced`). The coercion table itself is not modelled.
- **Session lookup and Next.js request plumbing:** the session lookup (next-auth) is replaced by the e-mail it yields. Response bodies other than the modelled JSON are not modelled. Status codes are kept.
- **Concurrency:**
  - Handlers run one at a time.
  - The race between a `findFirst` and the following write is not modelled.
  - Unique-constraint failures arising from such races are not modelled.
  - Neither is the seed's transaction as a unit of isolation.
- **`RateLimit.RateLimiter.Hit`** is modelled on its own. In the source neither GET handler calls `hitRateLimit`, so no route here answers 429.
- **The `/api/characters/[id]` and `/api/selection/[id]` routes** (edit, delete and their cascades) are not part of this model, nor are `/api/servers`, `/api/db-health` and the auth route.
- **Page plumbing:** SWR fetching and revalidation, scrolling (`scrollItemIntoView`), the debounce timer and `encodeURIComponent` are left out. The quest picker's requests are modelled by the query text they carry.
- **`ClientBlock.SortedSelections`** is computed in the source but never rendered. It is modelled over the block's declared `Selection` type.
- **The Prisma schema** is not part of this model. Its constraints are stated as the store's invariants (`Db.Store.Valid`). The seed's effect on characters of deleted servers is not modelled.
- **`ImportQuests.Run`** keeps the optional columns as JSON values. Any conversion Prisma applies to them, or refusal of a non-integer id, is not modelled. Database errors during `createMany` are not modelled.
- **`MatchesRoute.View`** carries an inherited `Object.prototype` avatar as the member's name. How `Response.json` would serialise such a member (dropped for a function) is not modelled. The characters route stores only enum names (`CharactersRoute.StoredClassInEnum`), and `ClassImages.EnumClassesGetPaths` shows that no enum name reaches that case.
- **`ImportQuests.Run` file handling:** reading the file and the environment variable naming it are not modelled; the file's presence and parse result are the input.
