# Kyoo episode repository in Dafny

This project models `Kyoo.Controllers.EpisodeRepository`, the data-access class that
stores episodes of shows.

- Episodes are looked up by ID, by show slug, season and episode number, and by an
  episode slug of the form `{showSlug}-s{seasonNumber}-e{episodeNumber}`.
- Episodes are created together with their external IDs and tracks. Creation can also
  be idempotent ("create if not exists").
- Episodes are edited by merging new values into the stored one, and are deleted.

The model proves what each of these operations does, including each error path it models.
The error paths it does not model, such as null references, are listed under "Left out".

## Layout

- `wrappers.dfy`, module `Wrappers`: `Option`, `Result` and `Outcome`. A thrown exception
  becomes `Failure`/`Fail` and a null becomes `None`.
- `models.dfy`, module `Models`: the entities and the exceptions.
  - Entities: `Episode`, `MetadataID` (an external ID), `Provider`, `Track`.
  - Exceptions: `ArgumentNull`, `InvalidOperation`, `DuplicatedItem`, `ItemNotFound`,
    `UnknownState` (the `SystemException`) and `DbUpdate` (a save failure, rethrown as is).
- `strings.dfy`, module `Strings`: the parts of .NET that the slug parser uses.
  - Ordinal `IndexOf` (and `LastIndexOf` for the corrected parser).
  - `int.TryParse` with `NumberStyles.Integer` in the invariant culture. It is modelled as
    the character loop .NET runs: leading white space, an optional sign, one or more
    digits, trailing white space, then only NUL characters, within the Int32 range.
  - `int.ToString()`.
- `episode_slug.dfy`, module `EpisodeSlug`:
  - `Parse`, the slug parser of `Get(string slug)` exactly as written.
  - `ParseIntended`, the parser the format calls for.
  - What is proved about each.
- `episode_repository.dfy`, module `Controllers`: class `EpisodeRepository` over an
  in-memory database.
  - `episodes` is the Episodes table in scan order. IDs increase along it and are unique.
  - `externalIDRows` and `trackRows` are the child tables.
  - `nextID` is the identity counter.
  - `shows` maps each show ID to its slug. It is read-only here.
  - `Valid()` is the consistency invariant every mutating method keeps: positive IDs below
    the counter, in increasing order, and no child row without its episode.

The collaborators the repository calls but does not define are parameters:
- the provider resolver (`IProviderRepository.CreateIfNotExists`) is `resolve: Provider -> int`;
- `Utility.Nullify` and `Utility.Merge` are `nullify` and `merge`;
- the outcome of `SaveChangesAsync` is `save: Option<DbUpdateError>`, where `None` means
  the save succeeded;
- whether `Helper.IsDuplicateException` accepts a failure is `DbUpdateError.isDuplicate`.

The slug parser is also a parameter, `parseSlug`, of the operations that look episodes up
by slug (`GetBySlug`, `CreateIfNotExists`, `Edit`).
- The parser the code actually has is `EpisodeSlug.Parse`. For that parser every one of
  these contracts carries a separate clause: the operation fails with the format error and
  changes nothing.
- The clauses for other parsers describe the code after the lookup. The code as written
  never reaches that point (see Findings). These clauses apply to `EpisodeSlug.ParseIntended`.

## Model

| member | source | states |
|---|---|---|
| Strings.IndexOf | Kyoo/Controllers/Repositories/EpisodeRepository.cs:42-43 | `IndexOf(s, m, Ordinal)`: -1 exactly when `m` occurs nowhere; otherwise an occurrence with none before it |
| Strings.LastIndexOf | Kyoo/Controllers/Repositories/EpisodeRepository.cs:42-43 | the last occurrence, or -1 exactly when there is none (used by the corrected parser) |
| Strings.Scan | Kyoo/Controllers/Repositories/EpisodeRepository.cs:47-50 | the `int.TryParse` character loop; any number it yields is an Int32 |
| Strings.TryParse | Kyoo/Controllers/Repositories/EpisodeRepository.cs:47-50 | `int.TryParse` succeeds only with a value in the Int32 range |
| Strings.TryParseAcceptsOnlyNumberChars | Kyoo/Controllers/Repositories/EpisodeRepository.cs:47-50 | every character of an accepted text is white space, a sign, a digit or NUL |
| Strings.TryParseRejects | Kyoo/Controllers/Repositories/EpisodeRepository.cs:47-50 | a text holding any other character (such as `'e'`) is rejected |
| Strings.TryParseIntToText | Kyoo/Controllers/Repositories/EpisodeRepository.cs:47-50 | parsing the invariant-culture text of any Int32 gives that Int32 back |
| Strings.IntToText | Kyoo/Controllers/Repositories/EpisodeRepository.cs:143 | `int.ToString()`: a non-empty run of digits, with a leading `-` exactly when the number is negative |
| EpisodeSlug.Parse | Kyoo/Controllers/Repositories/EpisodeRepository.cs:40-52 | every failure is `InvalidOperationException` with the format message; any parsed numbers are Int32 |
| EpisodeSlug.ReadKey | Kyoo/Controllers/Repositories/EpisodeRepository.cs:46-51 | succeeds exactly when both texts parse as Int32, and then the key is the given show slug with the two parsed numbers; otherwise the format error |
| EpisodeSlug.ParseRejectsMisplacedMarkers | Kyoo/Controllers/Repositories/EpisodeRepository.cs:42-45 | no `-s`, no `-e`, or an `-e` before every `-s` throws the format error |
| EpisodeSlug.MarkersApart | Kyoo/Controllers/Repositories/EpisodeRepository.cs:42-44 | once the marker check passes, the `-e` starts at least two characters after the `-s` |
| EpisodeSlug.ParseNeverSucceeds | Kyoo/Controllers/Repositories/EpisodeRepository.cs:44-51 | for every slug, `Get(string)` throws the format error and never reaches the three-value lookup |
| EpisodeSlug.FirstSeasonMarkerInShowSlug | Kyoo/Controllers/Repositories/EpisodeRepository.cs:42-43 | the first `-s` of `"the-show-s1-e2"` is inside the show slug, at index 3; the last is at 8, and the corrected parser reads the key `("the-show", 1, 2)` |
| EpisodeSlug.ParseRejectsFormattedSlug | Kyoo/Controllers/Repositories/EpisodeRepository.cs:40-52 | even a slug written exactly in the documented format is rejected, unlike with the corrected parser |
| EpisodeSlug.ParseIntended | Kyoo/Controllers/Repositories/EpisodeRepository.cs:40-52 | corrected parser: failures are the format error; the numbers it yields are Int32 |
| EpisodeSlug.ParseIntendedSplits | Kyoo/Controllers/Repositories/EpisodeRepository.cs:40-52 | whatever the corrected parser accepts is show slug + `-s` + season text + `-e` + episode text, each text parsing to its number |
| EpisodeSlug.ParseIntendedRoundTrip | Kyoo/Controllers/Repositories/EpisodeRepository.cs:40-52 | corrected parser: formatting any key with Int32 numbers and parsing it back gives the key, for any show slug |
| Controllers.Filter | Kyoo/Controllers/Repositories/EpisodeRepository.cs:166-178 | `Where(p)`: exactly the rows satisfying `p`, never more rows than the table |
| Controllers.FirstWhere | Kyoo/Controllers/Repositories/EpisodeRepository.cs:37 | `FirstOrDefault(p)`: null exactly when no row satisfies `p`, otherwise a row that does |
| Controllers.FilterRemovesOne | Kyoo/Controllers/Repositories/EpisodeRepository.cs:160 | removing one stored ID from the table removes exactly one row |
| Controllers.FilterKeepsIdsAscending | Kyoo/Controllers/Repositories/EpisodeRepository.cs:160 | removing rows keeps IDs increasing |
| Controllers.SameIdSameRow | Kyoo/Controllers/Repositories/EpisodeRepository.cs:37 | no two rows share an ID, so `Get(id)` names a single episode |
| Controllers.Resolved | Kyoo/Controllers/Repositories/EpisodeRepository.cs:147-154 | same length and order; entry `i` is entry `i` with `ProviderID` set to the resolver's result for its provider |
| Controllers.Validated | Kyoo/Controllers/Repositories/EpisodeRepository.cs:145-154 | only `ExternalIDs` changes; a null list stays null; otherwise every entry gets its resolved `ProviderID`, in order |
| Controllers.EpisodeRepository.constructor | Kyoo/Controllers/Repositories/EpisodeRepository.cs:19-23 | a repository over empty tables is consistent |
| Controllers.EpisodeRepository.Get | Kyoo/Controllers/Repositories/EpisodeRepository.cs:35-38 | `Get(int)`: a stored episode with that ID, or null exactly when none has it |
| Controllers.EpisodeRepository.GetByKey | Kyoo/Controllers/Repositories/EpisodeRepository.cs:54-59 | a stored episode of that show slug, season and episode number, or null exactly when there is none |
| Controllers.EpisodeRepository.GetBySlug | Kyoo/Controllers/Repositories/EpisodeRepository.cs:40-52 | `Get(string)`: fails exactly when the parser fails, with its error; a found episode has the parsed key; null exactly when no stored episode has the parsed key; with `EpisodeSlug.Parse` it always fails |
| Controllers.EpisodeRepository.FormattedSlugLookup | Kyoo/Controllers/Repositories/EpisodeRepository.cs:40-59 | with the corrected parser, looking up a formatted slug is the three-value lookup of its key |
| Controllers.EpisodeRepository.Search | Kyoo/Controllers/Repositories/EpisodeRepository.cs:61-67 | at most 20 stored episodes whose titles contain the query, each once and in table order (IDs stay increasing); when fewer than 20 come back, every match is among them |
| Controllers.EpisodeRepository.GetAll | Kyoo/Controllers/Repositories/EpisodeRepository.cs:69-72 | exactly the stored episodes |
| Controllers.EpisodeRepository.GetEpisodesOfShow | Kyoo/Controllers/Repositories/EpisodeRepository.cs:164-168 | exactly the stored episodes with that `ShowID` and `SeasonNumber`, each once and in table order |
| Controllers.EpisodeRepository.GetEpisodesOfShowSlug | Kyoo/Controllers/Repositories/EpisodeRepository.cs:170-174 | exactly the stored episodes whose show has that slug and with that `SeasonNumber`, each once and in table order |
| Controllers.EpisodeRepository.GetEpisodesOfSeason | Kyoo/Controllers/Repositories/EpisodeRepository.cs:176-179 | exactly the stored episodes with that `SeasonID`, each once and in table order; a null `SeasonID` matches nothing |
| Controllers.EpisodeRepository.Validate | Kyoo/Controllers/Repositories/EpisodeRepository.cs:140-156 | `ShowID <= 0` throws the orphan error; otherwise the episode with its external IDs resolved in order |
| Controllers.EpisodeRepository.InsertKeepsValid | Kyoo/Controllers/Repositories/EpisodeRepository.cs:80-90 | adding the episode row and its child rows under a fresh ID keeps the tables consistent |
| Controllers.EpisodeRepository.Create | Kyoo/Controllers/Repositories/EpisodeRepository.cs:74-99 | null and orphan errors, with nothing stored; a duplicate save failure becomes `DuplicatedItemException`, any other is rethrown, nothing stored; success stores the row and one child row per entry of each non-null collection, returns the new ID and `Get` finds the row |
| Controllers.EpisodeRepository.CreateIfNotExists | Kyoo/Controllers/Repositories/EpisodeRepository.cs:101-120 | null error; a lookup error is propagated; a found episode's ID is returned with nothing changed; otherwise `Create`'s outcome, except that a duplicate ends in `SystemException` after the re-lookup; when the parser reads the episode's own key from its slug, the slug then looks up the returned ID (a second call returns it again); with `EpisodeSlug.Parse` it always fails, unchanged |
| Controllers.EpisodeRepository.FormattedSlugNamesKey | Kyoo/Controllers/Repositories/EpisodeRepository.cs:106 | a slug in the format for the episode's own show, season and episode is read back as that key by the corrected parser |
| Controllers.EpisodeRepository.AppendedIsFound | Kyoo/Controllers/Repositories/EpisodeRepository.cs:106-111 | a row added where no row had its key is what the slug lookup finds next |
| Controllers.EpisodeRepository.Edit | Kyoo/Controllers/Repositories/EpisodeRepository.cs:122-138 | null error; a lookup error is propagated; an absent episode throws `ItemNotFound`; an orphan merge result throws; a save failure is rethrown; all with nothing changed. Success replaces the found row, under its own ID, by the validated merge of (optionally reset) stored and edited values. With `EpisodeSlug.Parse` it always fails, unchanged |
| Controllers.EpisodeRepository.ReplaceKeepsValid | Kyoo/Controllers/Repositories/EpisodeRepository.cs:132-137 | replacing a stored row under its own ID keeps the tables consistent and `Get` finds the new row |
| Controllers.EpisodeRepository.Delete | Kyoo/Controllers/Repositories/EpisodeRepository.cs:158-162 | a missing row makes the save fail with the ORM's concurrency error (a parameter); a save failure is rethrown; both change nothing. Success removes exactly that episode and its child rows, leaves every other row, and `Get` no longer finds it |
| Controllers.EpisodeRepository.RemoveKeepsValid | Kyoo/Controllers/Repositories/EpisodeRepository.cs:158-162 | removing an episode with its child rows keeps the tables consistent and drops exactly its ID |

## Left out

- `Dispose` and `DisposeAsync` (EpisodeRepository.cs:25-33) only release the database
  context. Nothing in the model holds resources.
- The database context and the other ORM machinery are not modelled as such:
  - change-tracking states are not modelled;
  - after a failed save, entries staged by `Create` stay in the tracker; the model
    discards them;
  - in `Edit`, the tracked entity is updated in place; the model replaces its row;
  - if `Edit` throws after `Nullify`/`Merge`, the in-memory entity keeps those changes,
    although nothing is saved;
  - the SQL the queries become is not modelled.
- The store is a sequence of rows in scan order rather than a map keyed by ID.
  - `FirstOrDefault` and `Take(20)` depend on an order.
  - The model fixes that order as increasing ID, and `Valid()` keeps IDs unique.
- Controllers.Like: reads `EF.Functions.Like(title, "%query%")` as case-sensitive
  substring containment, which is PostgreSQL's default collation behaviour. `%`, `_` and
  `\` inside `query` are taken literally here; the database would treat them as wildcards
  and escapes.
- A null `Title` is not modelled; the database would make such a row match no query.
- Controllers.EpisodeRepository.Create: IDs come from the identity counter. An explicit ID
  set on the object before the call is ignored.
- Controllers.EpisodeRepository.Delete: takes a non-null episode. `Remove(null)` throws
  inside the ORM before the repository does anything.
- Delete assumes the database's foreign keys cascade deletes to the external-ID and track
  rows. The database configuration is not part of this model.
- Controllers.EpisodeRepository.Edit: leaves the child tables unchanged. Rows the ORM would
  add for new entries in the merged collections are not modelled.
- `Utility.Merge` and `Utility.Nullify` are parameters. What they do is not part of this
  model. The stored row keeps the found episode's ID whatever `merge` returns.
- The provider resolver is a parameter. It always succeeds, so a failing
  `IProviderRepository.CreateIfNotExists` is not modelled.
- The resolutions `Task.WhenAll` runs concurrently are modelled as one sequential,
  order-preserving pass (a `for` loop in `Validate`).
- Controllers.EpisodeRepository.CreateIfNotExists: the concurrent race it guards against is
  left out, that is, another client inserting the same slug between the lookup and the save.
  - Because the model is sequential, the re-lookup after `DuplicatedItemException` sees
    the same store as the first lookup, which found nothing.
  - That path therefore ends in `SystemException("Unknown database state.")`.
  - The "found on re-lookup" branch is modelled but cannot be reached.
- `Helper.IsDuplicateException` is not modelled; the database's unique constraints are not
  modelled either. A save outcome arrives as a parameter carrying the verdict.
- How `Episode.Slug` is derived from the show, season and episode is not modelled.
  - The slug is carried as given.
  - `Controllers.EpisodeRepository.FormattedSlugNamesKey` states what a slug in the
    format means.
- A null slug is not modelled: `Get(string)` with a null slug throws
  `NullReferenceException` at EpisodeRepository.cs:42, and the model's slug is always a string.
- Null elements inside `ExternalIDs` or `Tracks` are not modelled. The model's collections
  hold no nulls. In the source, a null external ID throws in `Validate`
  (EpisodeRepository.cs:147-152), and a null track throws when `Create` stages it
  (EpisodeRepository.cs:85-86).
- Controllers.EpisodeRepository.Validate: returns a new episode value. The source rewrites
  the caller's own object in place: it replaces the `ExternalIDs` list and writes each
  entry's `ProviderID` (EpisodeRepository.cs:147-152). That change stays visible to the
  caller even when the save then fails. The model does not capture this aliasing.
- .NET culture settings are fixed to the invariant culture. A culture with other signs or
  digits is not modelled.
- `front/packages/ui/src/player/video.tsx` (a player UI component) and
  `Kyoo.Transcoder/src/Stream.h` (a C struct for the transcoder) are not part of this
  model.

## Findings

| source | as written | input that shows it | evidently intended | confidence | as-written member | corrected member |
|---|---|---|---|---|---|---|
| Kyoo/Controllers/Repositories/EpisodeRepository.cs:47 | the season number is read from `slug.Substring(sIndex + 2)`, which runs to the end of the slug and so still holds `-e{episodeNumber}`; `int.TryParse` rejects it, so `Get(string)` throws for every slug. A second defect sits at lines 42-43: the markers are found by their first occurrence, so a `-s` or `-e` inside the show slug is taken as a marker (`EpisodeSlug.FirstSeasonMarkerInShowSlug`) | `"show-s1-e2"`: the season text is `"1-e2"`, and the lookup throws `InvalidOperationException`. In `"the-show-s1-e2"` the first `-s` is at index 3, inside `-show`, so the show slug would be `"the"` and the season text `"how-s1-e2"` | the season number is the text between `-s` and `-e`; the corrected model also takes the last `-s` and the last `-e`, so that show slugs containing `-s` or `-e` still parse | not executed | EpisodeSlug.ParseNeverSucceeds | EpisodeSlug.ParseIntendedRoundTrip |

The repository methods keep the parser as written, because the code does. As a result,
`GetBySlug`, `CreateIfNotExists` and `Edit` always fail on non-null input. That is
proved, and each contract states it.

The corrected parser plugs into the same methods through their `parseSlug` parameter:
- `Controllers.EpisodeRepository.FormattedSlugLookup` proves that a formatted slug then
  looks up its own key.
- `Controllers.EpisodeRepository.FormattedSlugNamesKey` and the last clause of
  `CreateIfNotExists` show that creation becomes idempotent for slugs in the format.
- The code finds its markers by their first occurrence, and the as-written model follows
  the code.
