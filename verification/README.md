# Tylex snippet store, API bridge and hotkey listener in Dafny

Tylex is a text-expansion tool. The user keeps a catalogue of snippets: an
abbreviation (`abbv`), its expansion text (`value`) and a usage count. A global
hotkey opens a search window. Picking a snippet there types its text into the
focused application and counts the use. A second hotkey opens the settings
window.

This project models three parts of the program:

- the SQLite-backed store of `database.py`: its versioned migrations, the
  search query, fetch-and-increment, upsert, delete, translations lookup and
  usage reset;
- the `Api` class of `main.py` that the web frontend calls;
- the shift-suppression state machine of `hotkeys.py`.

The modules are:

- `Wrappers`: `Option`.
- `Collation`: SQLite's BINARY collation, i.e. lexicographic order by code
  point (`LexLess`). It is proved to be a strict total order.
- `Like`: SQLite's `LIKE` operator as the search query uses it. `%` matches
  any run of characters and `_` matches any one character. ASCII letters
  match case-insensitively. There is no escape character. The search
  condition `x LIKE '%f%'` is proved equivalent to "f occurs in x, ignoring
  ASCII case" whenever `f` holds no wildcard.
- `Catalogue`: the `snippets` rows as a sequence in insertion order. The
  UNIQUE constraint on `abbv` is the predicate `UniqueAbbvs`. The module holds
  the effect of every SQL statement the store issues, as functions on the
  rows: the `SELECT ... WHERE abbv = ?` lookup, the counted `UPDATE`, the
  upsert, the `DELETE`, the reset and the ranked search. It also holds the
  `translations` table and its per-language lookup.
- `Schema`: the migration dictionary, and `run_migrations` as a function of
  the persisted version (`PRAGMA user_version`) and of the tables present.
  This includes its failure path: a failing body ends the run and leaves the
  version at the last body that succeeded.
- `Store`: the class `SnippetStore`, the database state updated in place. Its
  methods are the operations of `database.py`. Each is proved against the
  `Catalogue`/`Schema` function that specifies it. `RunMigrations` is
  imperative, like the source: a loop that applies each pending body and then
  writes the version.
- `Bridge`: the class `Api` of `main.py` over a `SnippetStore`.
- `Hotkeys`: the class `HotkeyListener`. Its fields are the `shift_pressed`
  flag and the sequence of callbacks invoked. The two pynput listeners are
  one merged stream of events. `ShiftAfter` and `Fired` specify what a stream
  does, and the lemmas state what `start_listener` promises: Ctrl+Alt+Shift+P
  does not also expand, and the settings combo always fires.

## Model

| member | source | states |
|---|---|---|
| Collation.LexLess | database.py:86 | No string sorts strictly before itself, and a proper prefix sorts strictly before every longer string that extends it. |
| Collation.LexLessIrreflexive | database.py:86 | No abbreviation sorts strictly before itself under `abbv ASC`. |
| Collation.LexLessTransitive | database.py:86 | The `abbv ASC` order is transitive. |
| Collation.LexLessTotal | database.py:86 | Of two different abbreviations, one sorts strictly before the other. |
| Collation.LexLessAsymmetric | database.py:86 | Two abbreviations never both sort before each other. |
| Like.FoldAscii | database.py:85 | The case folding of `LIKE` maps every ASCII upper-case letter to its own lower-case letter (code point + 32) and leaves every other character unchanged. |
| Like.Like | database.py:85 | SQLite's `LIKE` without an ESCAPE clause: `%` matches any run, `_` any one character, anything else itself up to ASCII case. A pattern with no wildcard matches exactly the texts equal to it up to ASCII case. |
| Like.ContainsPattern | database.py:89 | The bound pattern `%filter%` is the filter wrapped in one `%` on each side. |
| Like.PercentMatchesAll | database.py:85 | `%` alone matches every string. |
| Like.EmptyFilterMatchesAll | database.py:77-89 | With the default empty filter, the pattern `%%` matches every abbreviation and value. |
| Like.PrefixLike | database.py:85 | For a wildcard-free `f`, `f%` matches `s` exactly when `s` starts with `f`, ignoring ASCII case. |
| Like.LeadingPercent | database.py:85 | A leading `%` matches exactly when the rest of the pattern matches some suffix. |
| Like.SearchConditionIsSubstring | database.py:85-89 | For a wildcard-free filter, `LIKE '%filter%'` holds exactly when the filter occurs in the text, ignoring ASCII case (both directions). |
| Catalogue.UniqueAbbvs | database.py:12 | No two rows share an abbv: the `UNIQUE` constraint on the `abbv` column. |
| Catalogue.Lookup | database.py:105-109 | The lookup by `abbv` returns a stored row carrying that abbreviation, and returns none exactly when no row carries it. |
| Catalogue.LookupUnique | database.py:12 | Under the UNIQUE constraint, looking up a stored row's abbreviation returns that row. |
| Catalogue.LookupAppend | database.py:130 | Appending a row changes a lookup only when the key was absent and the new row carries it. |
| Catalogue.BumpWhere | database.py:110-113 | The counted UPDATE keeps length, order and every abbreviation. It raises the count of the rows carrying `abbv` by exactly one, optionally replacing their value, and leaves every other row equal. |
| Catalogue.BumpWhereLookup | database.py:110-113 | Seen through lookups, the UPDATE changes only the row of `abbv`: its count goes up by one and its value is replaced when given. Every other key reads the same. |
| Catalogue.UpsertRows | database.py:128-134 | After the upsert, `abbv` reads `(abbv, value, 0)` when it was new, or `(abbv, value, old count + 1)` when it existed. Every other key reads the same. The table grows by one row exactly when `abbv` was new. The UNIQUE constraint is kept. |
| Catalogue.DeleteRows | database.py:150 | After the DELETE, `abbv` is absent. The remaining rows are exactly the old rows with another abbreviation, other keys read the same, and an absent `abbv` changes nothing. |
| Catalogue.DeleteRowsUnique | database.py:150 | Under the UNIQUE constraint the DELETE keeps the constraint, and removes exactly one row when `abbv` is present and none otherwise. |
| Catalogue.ResetRows | database.py:180 | After the reset every count is 0, every abbreviation and value stays in place, nothing is added or removed, and lookups return the old row with count 0. |
| Catalogue.ResetIdempotent | database.py:174-183 | Resetting twice equals resetting once. |
| Catalogue.Before | database.py:86 | `ORDER BY usage_count DESC, abbv ASC`: a higher count always ranks ahead, a lower count never does, and no row ranks ahead of itself. |
| Catalogue.Matches | database.py:85-89 | The WHERE clause `abbv LIKE '%filter%' OR value LIKE '%filter%'`. For a wildcard-free filter it holds exactly when the filter occurs in the abbreviation or the value, ignoring ASCII case. The empty filter keeps every row. |
| Catalogue.Ordered | database.py:86 | No row is listed after a row it ranks ahead of, ranking by `usage_count DESC, abbv ASC`. |
| Catalogue.BeforeAsymmetric | database.py:86 | The ORDER BY relation is asymmetric. |
| Catalogue.NotBeforeTransitive | database.py:86 | "Not listed ahead of" is transitive, so the ranking is a consistent order. |
| Catalogue.BeforeTotal | database.py:86 | Two rows with different abbreviations, which the UNIQUE constraint guarantees, are always ranked one ahead of the other. |
| Catalogue.Insert | database.py:86 | Inserting into a ranked sequence adds exactly that row (multiset) and keeps the sequence ranked. |
| Catalogue.Sort | database.py:86 | The ranking is a permutation of its input, and it is ordered by count descending, then abbreviation ascending. |
| Catalogue.Filter | database.py:85 | The WHERE clause keeps exactly the rows whose abbv or value matches `%filter%`, each at most as often as stored. |
| Catalogue.TopOfOrdered | database.py:86-87 | The first `min(n, 20)` elements of a ranked sequence are drawn from it, and every element left out ranks no higher than every element kept. |
| Catalogue.Search | database.py:77-94 | The search result has at most 20 rows. All of them are stored rows that match the filter, each appearing at most as often as stored. They are ranked by count descending, then abbreviation ascending. A matching row is left out only when 20 rows are returned, all ranked at least as high as it. |
| Catalogue.EmptySearchListsAll | database.py:77-94 | With the empty filter and at most 20 rows, the search lists exactly the stored rows. |
| Catalogue.SearchRanksByUsage | tests/test_database.py:24-28 | Any three rows with distinct counts, in any of the six stored orders, come back from a blank search most-used first. |
| Catalogue.SearchRanksExample | tests/test_database.py:11-28 | The rows eml (10 uses), sig (5) and py (20) are listed as py, eml, sig. |
| Catalogue.TranslationsFor | database.py:165-172 | The result maps exactly the keys stored for `lang`, each to its stored text. |
| Schema.MigrationBodies | database.py:8-38 | The `migrations` dictionary has exactly the versions 1, 2 and 3: 1 creates `snippets`, 2 creates `translations`, 3 inserts the English rows. |
| Schema.SortedVersions | database.py:63 | The iteration order is strictly increasing and holds exactly the migration keys. |
| Schema.LatestVersion | database.py:59 | It is the largest migration key, or 0 when there are no migrations. |
| Schema.SeedTable | database.py:26-37 | The rows the third migration inserts all have lang `en`, and among them `app_title` reads "Tylex Snippets". |
| Schema.Apply | database.py:8-38 | One migration body. `CREATE TABLE snippets` fails exactly when `snippets` exists, and `CREATE TABLE translations` fails exactly when `translations` exists. The seed `INSERT` fails exactly when `translations` is missing or shares a `(key, lang)` pair with the seed. On success each body creates only its own table, and a new `translations` table is empty. |
| Schema.SeedOutcome | database.py:26-37 | The seed `INSERT` fails exactly when `translations` is missing or already holds one of its `(key, lang)` pairs. Otherwise it adds the seed rows and keeps every existing row and its text. |
| Schema.PendingIn | database.py:63-64 | The filtered loop visits exactly the versions above the current one, in the order of the sorted keys. |
| Schema.Pending | database.py:63-64 | The pending migrations are exactly the keys above the current version, strictly increasing. |
| Schema.RunLoop | database.py:63-67 | The loop over the sorted versions applies at most one migration per listed version. When it applies none, the version and tables are unchanged. What it applies and leaves is stated by `Schema.RunLoopTrace` and `Schema.RunLoopEffect`. |
| Schema.RunLoopTrace | database.py:63-67 | The loop applies a prefix of the pending versions. It completes exactly when it applies all of them. The persisted version is the last one applied, or unchanged when none was. |
| Schema.ApplyAllAppend | database.py:63-67 | Running the bodies of two version lists one after the other is running the bodies of their concatenation; a failure in the first list stops everything. |
| Schema.RunLoopEffect | database.py:63-67 | The tables the loop leaves are exactly what its applied bodies produce, run in order from the starting tables. A run that does not complete stopped at the first pending version it did not apply, and that version's body fails on the tables the earlier bodies left. |
| Schema.NothingPending | database.py:59-61 | At or above the latest version, no migration is pending. |
| Schema.LastPendingIsLatest | database.py:59-64 | Below the latest version, the last pending migration is the latest one. |
| Schema.Migrate | database.py:48-71 | `run_migrations` applies a prefix of the pending versions, and succeeds exactly when it applies all of them. The version it leaves is the last one applied. On success that is the maximum of the old version and the latest. At or above the latest version it changes nothing. The tables it leaves are what the applied bodies produce in order. A failed run stopped at the first pending version not applied, whose body fails on those tables. |
| Schema.StepFromConsistent | database.py:8-38 | Applying migration k+1 to the schema of version k succeeds and yields the schema of version k+1. |
| Schema.RunFromConsistent | database.py:63-67 | From the schema of its version, the loop applies every remaining migration and ends at the schema of the latest version. |
| Schema.MigrateFromConsistent | database.py:48-71 | From a database whose tables match its version, `run_migrations` succeeds, applies exactly the pending versions and leaves the latest schema. |
| Schema.MigrateIdempotent | database.py:61 | Running migrations again after a successful run is a no-op. |
| Schema.FreshInstallMigrates | database.py:48-71 | A fresh database file (version 0, no tables) is migrated successfully through 1, 2 and 3, and ends at version 3 with the version-3 schema. |
| Schema.SeededTitle | database.py:26-37 | The version-3 translations are the seed rows, and in `en` the key `app_title` reads "Tylex Snippets". |
| Schema.FreshInstallTranslations | tests/test_database.py:58-61 | A fresh database is migrated through 1, 2 and 3 to version 3, with both tables present and `app_title` reading "Tylex Snippets" in `en`. |
| Store.SnippetStore.Valid | database.py:9-25 | What SQLite enforces on the stored state: no two rows share an abbv, and a table that does not exist holds no rows. |
| Store.SnippetStore.constructor | database.py:41-45 | A new database file is at version 0 with no tables and no rows. |
| Store.SnippetStore.ApplyMigration | database.py:66 | One migration body either takes full effect or, when its statement fails, leaves every table as it was. |
| Store.SnippetStore.RunMigrations | database.py:48-71 | The new version and tables are exactly what `Migrate` says for the old ones. Snippet rows are untouched. |
| Store.SnippetStore.ApplyPending | database.py:63-67 | The loop over the sorted keys ends in the state the `RunLoop` specification gives, stopping at the first failing body. |
| Store.SnippetStore.GetAndIncrementSnippet | database.py:97-118 | It returns the stored value of `abbv`, or none. That row's count goes up by exactly one. Nothing changes when `abbv` is absent. |
| Store.SnippetStore.AddOrUpdateSnippet | database.py:121-140 | The rows become `UpsertRows` of the old rows. The reply is success with the abbreviation. |
| Store.SnippetStore.DeleteSnippet | database.py:143-156 | The rows become `DeleteRows` of the old rows. The UNIQUE constraint is kept. The reply is success. |
| Store.SnippetStore.ResetUsageCounts | database.py:174-183 | The rows become `ResetRows` of the old rows. The reply is success. |
| Bridge.Get | main.py:36-37 | `data.get(key)` is present exactly when the key is, with its value. |
| Bridge.Truthy | main.py:38 | Python truthiness of the optional string `data.get(...)`: present and non-empty. |
| Bridge.Api.constructor | main.py:13-17 | The bridge works on the given store. |
| Bridge.Api.SearchSnippets | main.py:19-20 | The result is the store's search with the given text. |
| Bridge.Api.GetAllSnippets | main.py:22-23 | The result is the search with the empty filter. With at most 20 snippets it lists all of them. |
| Bridge.Api.PasteText | main.py:25-33 | There is exactly one fetch-and-increment. The text typed is the stored value when it exists and is non-empty, and nothing otherwise. |
| Bridge.Api.AddOrUpdateSnippet | main.py:35-40 | When both `abbv` and `value` are truthy, the store is upserted with exactly them and success is returned. Otherwise the reply is the "Missing abbreviation or value." error and the store is unchanged. |
| Bridge.Api.DeleteSnippet | main.py:42-43 | The request is forwarded to the store's delete. |
| Bridge.Api.GetTranslations | main.py:45-46 | The result is the translations of `en`, whatever the caller. |
| Hotkeys.NextShift | hotkeys.py:17-25 | A press of any shift key sets the flag, a release of any shift key clears it, and every other event leaves it. |
| Hotkeys.Invokes | hotkeys.py:27-36 | One event invokes at most one callback. The expand callback runs exactly for an expand combo with the flag clear. The settings callback runs exactly for a settings combo. |
| Hotkeys.ShiftAfter | hotkeys.py:15-25 | The `shift_pressed` flag after a stream of events, folding `on_press` and `on_release` over it from a starting value. |
| Hotkeys.Fired | hotkeys.py:15-36 | The callbacks a stream of events invokes, in order, at most one per event, each event judged with the flag the events before it left. |
| Hotkeys.ShiftFollowsLastShiftEvent | hotkeys.py:17-25 | The shift flag is set exactly when the last shift press or release was a press. |
| Hotkeys.ShiftUnchangedWithoutShiftEvents | hotkeys.py:17-25 | Events other than shift presses and releases never change the flag. |
| Hotkeys.ShiftAfterAppend | hotkeys.py:15-25 | The flag after `a + b` is the flag after `b` started from the flag after `a`. |
| Hotkeys.FiredAppend | hotkeys.py:15-36 | The callbacks of `a + b` are those of `a` followed by those of `b` from `a`'s flag. |
| Hotkeys.ExpandSuppressedWhileShiftHeld | hotkeys.py:27-30 | After a shift press with no shift release since, the expand combo invokes nothing. |
| Hotkeys.ShiftHeldWithoutRelease | hotkeys.py:17-25 | A set flag stays set through any stream that has no shift release. |
| Hotkeys.SettingsAlwaysFires | hotkeys.py:34-36 | The settings callback runs exactly once per settings combo, whatever the shift flag. |
| Hotkeys.ExpandAtMostPerCombo | hotkeys.py:27-32 | Over any stream of events, the expand callback runs at most as many times as there are expand combos in it. Which single event can invoke it is stated by `Hotkeys.Invokes`. |
| Hotkeys.HotkeyListener.constructor | hotkeys.py:15 | The flag starts cleared and nothing has been invoked. |
| Hotkeys.HotkeyListener.OnPress | hotkeys.py:17-20 | A shift key sets the flag, and any other key leaves it. |
| Hotkeys.HotkeyListener.OnRelease | hotkeys.py:22-25 | Any shift key clears the flag, and any other key leaves it. |
| Hotkeys.HotkeyListener.OnActivateExpand | hotkeys.py:27-32 | It appends the expand callback exactly when the flag is clear. |
| Hotkeys.HotkeyListener.OnActivateSettings | hotkeys.py:34-36 | It always appends the settings callback. |
| Hotkeys.HotkeyListener.Dispatch | hotkeys.py:38-48 | One event moves the flag and the invoked callbacks exactly as `NextShift` and `Invokes` say. |
| Hotkeys.HotkeyListener.Listen | hotkeys.py:38-54 | A stream of events leaves the flag at `ShiftAfter` and appends exactly `Fired` to the invoked callbacks. |

## Left out

- Connections, `get_db_connection`, `close()`, the database file name and the `conn=None` plumbing are not modelled. The store is one owned database and every operation is one atomic step, with no concurrent writers.
- The `id` and `created_at` columns are not modelled. No operation reads them and they do not affect the result order.
- Store.SnippetStore.RunMigrations: a failing migration body raises an exception in the source. Here it returns `ok == false` with the state the exception leaves behind: earlier migrations applied, the version at the last successful one.
- The snippet operations require the `snippets` table to exist (and `GetTranslations` the `translations` table). The source raises `sqlite3.OperationalError` otherwise, and that error path is not modelled.
- Failures other than the migration statements themselves, such as disk errors, locking and crashes between a body and its version write, are not modelled.
- Stored values are modelled as strings. SQLite's dynamic typing, such as a non-string `value` or an integer `abbv`, is not modelled.
- Search: the model follows the `LIKE '%filter%'` condition of database.py:85-89 as SQLite evaluates it. `%` and `_` in a filter act as wildcards, and ASCII letters match case-insensitively. `SearchConditionIsSubstring` proves that this is a case-insensitive substring search for filters without wildcards.
- Catalogue.BumpWhere: `usage_count` is a 64-bit SQLite INTEGER. At 2^63-1, `usage_count + 1` (database.py:111 and 131) turns into a floating-point value. The model's unbounded `nat` count does not capture that overflow. The same holds for Catalogue.UpsertRows.
- Store.SnippetStore.RunMigrations: `PRAGMA user_version` is a 32-bit integer, and the model keeps it as an unbounded `int`. Only the versions 0 to 3 that the migrations write matter here.
- Like.FoldAscii: SQLite's default `LIKE` folds only ASCII letters. The ICU extension, which would fold more, is not modelled.
- `print` output, `pywebview` windows, `close_search_window`, `open_settings`, `show_search_window` and the frontend JavaScript are user-interface side effects with no state the model needs.
- Bridge.Api.PasteText: hiding the search window, `time.sleep(0.1)` and `keyboard.write` are I/O. The method returns the text it would type instead of typing it.
- `reset_usage_counts` is modelled on the store. `main.py` exposes no API method for it.
- Hotkeys: pynput's key-combination detection (`GlobalHotKeys`) is not modelled. A combo is one event of the stream. The two listener threads are modelled as one sequential stream, so races between the flag update and the combo callback are out of scope. Thread start-up and the returned listener object are not modelled.
- Hotkeys.ExpandAtMostPerCombo: bounds the count of expand callbacks over a whole stream and does not say at which positions they fire. The per-event statement is the contract of `Hotkeys.Invokes`: the expand callback fires only on an expand combo with the shift flag clear. `Fired` is built event by event from it.
