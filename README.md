# kolibri-tools `csvToJSON` — a verified model

The `csvToJSON` step of Kolibri's i18n tooling turns translated CSV tables
into the per-bundle JSON message catalogues the front end loads. It runs in
three stages:

1. **Requirement collection.** One pass over the bundle descriptors. Each
   bundle gets its messages from one of two extractors: the entry-point
   extractor when the descriptor names an entry, the single-file extractor
   otherwise. `requiredMessages[name]` records the keys of the result, and
   `Object.assign` merges its default texts into `allDefaultMessages`.
2. **Catalogue building.** This runs for every language and every bundle.
   Each required id is resolved as follows:
   - The source locale `en` takes the default text.
   - Any other locale takes the translation of the first CSV row whose
     `Identifier` matches. An empty translation counts as a match.
   - An id that no row carries is logged and left out.
3. **Materialisation.** A non-empty catalogue is written as
   `<locale>/LC_MESSAGES/<bundle>-messages.json` with sorted keys. For an
   empty catalogue, the stale file is unlinked and any error is swallowed.
   A locale with at least one non-empty catalogue also gets a fixed
   `README.md` marker.

The Dafny modules follow those stages:

| module | file | contents |
|---|---|---|
| `Wrappers` | `wrappers.dfy` | `Option` |
| `Requirements` | `requirements.dfy` | descriptors, extractors as function parameters, `Object.assign` as a fold, the collection loop `CollectRequirements` and its specification `Collected` |
| `Catalogs` | `catalogs.dfy` | translation rows, first-match lookup (`FirstIndex`, `Find`), the per-id loop `BuildCatalog` and its specification `CatalogOf` |
| `KeyOrder` | `key_order.dfy` | the string order used by `sort()`, `SortKeys` and its specification `SortedSet` |
| `FileSystems` | `filesystem.dfy` | a file system object whose `files` map the write and unlink methods update, plus `Effect` (files written, files deleted) to describe what a run does |
| `CsvToJson` | `csv_to_json.dfy` | the exported function `Convert` and its nested loops, proved against `RunEffect` |
| `CsvToJsonProperties` | `csv_to_json.dfy` | what a run leaves on disk, file by file, and idempotence |

The loops of the source are methods with loop invariants. Each method's
`ensures` ties the new state to a specification function of the inputs and
the old state. The laws of the source (first match wins, empty catalogues
delete their file, the marker rule, sorted keys, idempotence) are lemmas
about those functions.

## Model

| member | source | states |
|---|---|---|
| Requirements.Extract | packages/kolibri-tools/lib/i18n/csvToJSON.js:20-24 | The definition of the extractor choice: the entry-point extractor when the descriptor has an entry, the module-file extractor otherwise. `Requirements.Extracted` states it for every descriptor. |
| Requirements.Extracted | packages/kolibri-tools/lib/i18n/csvToJSON.js:15-24 | Every descriptor is paired, in order, with the result of the extractor it selects: the entry-point extractor when an entry is given, the module-file extractor otherwise. |
| Requirements.Ids | packages/kolibri-tools/lib/i18n/csvToJSON.js:25 | The definition of `Object.keys` of an extraction result. `Requirements.TableKeys` states that these ids are exactly the keys of the result's table. |
| Requirements.Table | packages/kolibri-tools/lib/i18n/csvToJSON.js:26 | The definition of an extraction result read as an object, from id to default text. `Requirements.TableKeys` and `Requirements.TableValue` state its keys and values. |
| Requirements.TableKeys | packages/kolibri-tools/lib/i18n/csvToJSON.js:25 | The ids listed for an extraction result (`Object.keys`) are exactly the keys of that result read as a table. |
| Requirements.TableValue | packages/kolibri-tools/lib/i18n/csvToJSON.js:26 | Reading an extraction result as a table gives each id the text of its last entry. |
| Requirements.Assign | packages/kolibri-tools/lib/i18n/csvToJSON.js:26 | The definition of `Object.assign` as an in-order overwriting fold. `Requirements.AssignOverrides` states that it is the map override `target + Table(msgs)`. |
| Requirements.AssignOverrides | packages/kolibri-tools/lib/i18n/csvToJSON.js:26 | `Object.assign(target, messages)` equals the map override `target + Table(messages)`: the merged object's values win. |
| Requirements.RequiredOf | packages/kolibri-tools/lib/i18n/csvToJSON.js:25 | The definition of `requiredMessages` after the descriptor loop. `Requirements.RequiredIsExtractionKeys` states that each name maps to the keys of its last descriptor's extraction result. |
| Requirements.NamesOf | packages/kolibri-tools/lib/i18n/csvToJSON.js:25 | The definition of the key order of `requiredMessages` that the `for…in` at line 38 visits: a name takes its place when first assigned. `Requirements.NamesEnumerateRequired` states that it lists each key exactly once. |
| Requirements.NamesEnumerateRequired | packages/kolibri-tools/lib/i18n/csvToJSON.js:25 | The bundle-name order lists each key of `requiredMessages` exactly once. The keys are exactly the names of the descriptors. |
| Requirements.RequiredIsExtractionKeys | packages/kolibri-tools/lib/i18n/csvToJSON.js:25 | A bundle's required ids are the keys of the extraction result of the last descriptor with that name. |
| Requirements.DefaultsOf | packages/kolibri-tools/lib/i18n/csvToJSON.js:26 | The definition of `allDefaultMessages` after the descriptor loop. `Requirements.DefaultsKeys` and `Requirements.DefaultsLastWriteWins` state its keys and values. |
| Requirements.DefaultsKeys | packages/kolibri-tools/lib/i18n/csvToJSON.js:26 | `allDefaultMessages` holds an id if and only if some bundle extracted it. |
| Requirements.DefaultsLastWriteWins | packages/kolibri-tools/lib/i18n/csvToJSON.js:26 | An id's default text comes from the last bundle that extracted it, whatever earlier bundles said. |
| Requirements.RequiredHaveDefaults | packages/kolibri-tools/lib/i18n/csvToJSON.js:25-26 | Every id any bundle requires has a default text, so the `en` branch never reads a missing default. |
| Requirements.Collected | packages/kolibri-tools/lib/i18n/csvToJSON.js:13-28 | The collected names are distinct and enumerate the required map, and every required id has a default. |
| Requirements.CollectRequirements | packages/kolibri-tools/lib/i18n/csvToJSON.js:13-28 | The descriptor loop returns exactly `Collected` of the extracted bundles, and its result is well-formed and complete. |
| Catalogs.FirstIndex | packages/kolibri-tools/lib/i18n/csvToJSON.js:42 | The index found carries the id and no earlier row does. With no index, no row carries the id. |
| Catalogs.Lookup | packages/kolibri-tools/lib/i18n/csvToJSON.js:42 | The definition of `find` as the row at the first matching index. `Catalogs.FirstIndex` states that no earlier row matches and that nothing is found only when no row matches. |
| Catalogs.Find | packages/kolibri-tools/lib/i18n/csvToJSON.js:42 | The linear scan of `find` returns the first row whose identifier matches, or nothing. |
| Catalogs.CatalogOf | packages/kolibri-tools/lib/i18n/csvToJSON.js:40-52 | The definition of the per-id loop's catalogue. `Catalogs.EnglishCatalogComplete` and `Catalogs.TranslatedCatalogFirstMatch` state its keys and values for `en` and for other locales. |
| Catalogs.CatalogWithinRequired | packages/kolibri-tools/lib/i18n/csvToJSON.js:40-52 | A catalogue never holds an id the bundle does not require. |
| Catalogs.EnglishCatalogComplete | packages/kolibri-tools/lib/i18n/csvToJSON.js:43-45 | For `en`, the catalogue holds exactly the required ids, each with its default text; the table is ignored. |
| Catalogs.TranslatedCatalogFirstMatch | packages/kolibri-tools/lib/i18n/csvToJSON.js:47-51 | For any other locale, an id is present if and only if it is required and some row carries it. Its value is the translation of the first such row, even an empty one. |
| Catalogs.TwoMessageScenario | packages/kolibri-tools/lib/i18n/csvToJSON.js:40-52 | A bundle requiring `ns.a` and `ns.b` gets both defaults for `en`. A table holding only `ns.a` gives `{ns.a}` alone. An empty first translation wins over a later non-empty one. |
| Catalogs.BuildCatalog | packages/kolibri-tools/lib/i18n/csvToJSON.js:40-52 | The per-id loop builds exactly `CatalogOf`. It logs an id as missing if and only if the locale is not `en`, the id is required and no row carries it. |
| KeyOrder.Before | packages/kolibri-tools/lib/i18n/csvToJSON.js:59 | The definition of the default `sort()` comparison: lexicographic order, a proper prefix first. `KeyOrder.BeforeIrreflexive`, `KeyOrder.BeforeTransitive` and `KeyOrder.BeforeTotal` state that it is a strict total order. |
| KeyOrder.BeforeIrreflexive | packages/kolibri-tools/lib/i18n/csvToJSON.js:59 | No key comes before itself. |
| KeyOrder.BeforeTransitive | packages/kolibri-tools/lib/i18n/csvToJSON.js:59 | The key comparison is transitive. |
| KeyOrder.BeforeTotal | packages/kolibri-tools/lib/i18n/csvToJSON.js:59 | Any two distinct keys are ordered one way or the other. |
| KeyOrder.Insert | packages/kolibri-tools/lib/i18n/csvToJSON.js:59 | Inserting a new key into a strictly sorted key list keeps it strictly sorted and adds exactly that key. |
| KeyOrder.SortedSet | packages/kolibri-tools/lib/i18n/csvToJSON.js:59 | The definition of the key list `Object.keys(messages).sort()` produces: the least key, then the rest in order. `KeyOrder.SortedSetSorted` and `KeyOrder.SortedUnique` state that it is the one strictly ascending list of exactly those keys. |
| KeyOrder.SortedSetSorted | packages/kolibri-tools/lib/i18n/csvToJSON.js:59 | The sorted arrangement of a key set is strictly ascending and lists exactly the set's keys. |
| KeyOrder.SortedUnique | packages/kolibri-tools/lib/i18n/csvToJSON.js:59 | Two strictly sorted lists with the same keys are equal, so the sorted output does not depend on enumeration order. |
| KeyOrder.SortKeys | packages/kolibri-tools/lib/i18n/csvToJSON.js:59 | `Object.keys(messages).sort()` is strictly ascending, lists exactly the catalogue's keys, and equals `SortedSet` of them. |
| FileSystems.ApplyThen | packages/kolibri-tools/lib/i18n/csvToJSON.js:38-74 | Performing one effect and then another equals performing their composition, so the successive writes and unlinks of a run add up to one effect. |
| FileSystems.ApplyTwice | packages/kolibri-tools/lib/i18n/csvToJSON.js:56-66 | Full overwrites and deletions can be repeated without changing the outcome. |
| FileSystems.ApplyWrite | packages/kolibri-tools/lib/i18n/csvToJSON.js:56-61 | Writing one file is the effect that writes just that path. |
| FileSystems.ApplyDelete | packages/kolibri-tools/lib/i18n/csvToJSON.js:64-66 | Unlinking one file, with the error for a missing file swallowed, is the effect that deletes just that path. |
| FileSystems.FileSystem.WriteFile | packages/kolibri-tools/lib/i18n/csvToJSON.js:56-61 | `writeFileSync` replaces the file's content, or creates the file, and changes no other file. |
| FileSystems.FileSystem.Unlink | packages/kolibri-tools/lib/i18n/csvToJSON.js:64-66 | `unlinkSync` removes the file and reports whether it existed. A missing file changes nothing. |
| CsvToJson.MessagesFile | packages/kolibri-tools/lib/i18n/csvToJSON.js:54 | The definition of the catalogue file name `<name>-messages.json` in the locale folder. `CsvToJson.MessagesFileDistinct` states that it is injective and never the marker. |
| CsvToJson.ReadmeFile | packages/kolibri-tools/lib/i18n/csvToJSON.js:70-73 | The definition of the marker path `README.md` in the locale folder, written with the fixed text `ReadmeText`. `CsvToJson.MessagesFileDistinct` states that no catalogue file is this path, and `CsvToJsonProperties.LocaleReadme` states when it is written. |
| CsvToJson.MessagesFileDistinct | packages/kolibri-tools/lib/i18n/csvToJSON.js:54 | Distinct bundles never share a `<name>-messages.json` file, and no catalogue file is the `README.md` marker. |
| CsvToJson.BundleCatalog | packages/kolibri-tools/lib/i18n/csvToJSON.js:40-52 | The definition of the `messages` object built for `requiredMessages[name]`: `CatalogOf` of the bundle's required ids. `Catalogs.EnglishCatalogComplete` and `Catalogs.TranslatedCatalogFirstMatch` state its keys and values. |
| CsvToJson.BundleEffect | packages/kolibri-tools/lib/i18n/csvToJSON.js:55-66 | The definition of one bundle's file change: write the catalogue with sorted keys when it is non-empty, otherwise delete the file. `CsvToJsonProperties.BundleEffectTouchesOnlyItsFile` and `CsvToJsonProperties.BundleEffectFootprint` characterise it. |
| CsvToJson.SyncAll | packages/kolibri-tools/lib/i18n/csvToJSON.js:38-68 | The definition of the bundle loop's file changes, bundle by bundle in order. `CsvToJsonProperties.SyncAllAt`, `CsvToJsonProperties.SyncAllFootprint` and `CsvToJsonProperties.SyncAllShape` characterise it. |
| CsvToJson.AnyCatalog | packages/kolibri-tools/lib/i18n/csvToJSON.js:36 | The definition of the final value of `messagesExist` (set at line 62): some bundle has a non-empty catalogue. `CsvToJson.ConvertNext` keeps it as a loop invariant and `CsvToJsonProperties.LocaleReadme` ties it to the marker. |
| CsvToJson.LocaleEffect | packages/kolibri-tools/lib/i18n/csvToJSON.js:38-74 | The definition of one language's file changes: the bundle loop, then the marker when some catalogue is non-empty. `CsvToJsonProperties.LocaleCatalogFile`, `CsvToJsonProperties.LocaleReadme`, `CsvToJsonProperties.LocaleFootprint` and `CsvToJsonProperties.LocaleEffectShape` characterise it. |
| CsvToJson.RunEffect | packages/kolibri-tools/lib/i18n/csvToJSON.js:29-75 | The definition of the language loop's file changes, language by language in list order. `CsvToJsonProperties.RunWritesNoEmptyCatalog` and `CsvToJsonProperties.ConvertIsIdempotent` characterise it. |
| CsvToJson.SyncCatalogFile | packages/kolibri-tools/lib/i18n/csvToJSON.js:53-67 | Reports a write exactly when the catalogue is non-empty. The files become those of `BundleEffect`: the sorted catalogue written, or the file deleted. |
| CsvToJson.ConvertBundle | packages/kolibri-tools/lib/i18n/csvToJSON.js:39-67 | One bundle's loop body builds the bundle's catalogue and syncs its file. The flag it returns is set exactly when that catalogue is non-empty. |
| CsvToJson.ConvertNext | packages/kolibri-tools/lib/i18n/csvToJSON.js:38-68 | One more bundle extends the loop invariant: the files equal those after the bundles so far, and `messagesExist` says whether any of them had a catalogue. |
| CsvToJson.ConvertLocale | packages/kolibri-tools/lib/i18n/csvToJSON.js:36-74 | One language's iteration leaves the files as `LocaleEffect` prescribes: every bundle synced in order, then the marker if any catalogue was non-empty. |
| CsvToJson.LocaleDone | packages/kolibri-tools/lib/i18n/csvToJSON.js:69-74 | After the bundle loop, the marker is written exactly when `messagesExist` is set. |
| CsvToJson.Convert | packages/kolibri-tools/lib/i18n/csvToJSON.js:8-76 | The exported function leaves the files as `RunEffect` of the collected requirements prescribes, language by language in list order. |
| CsvToJsonProperties.BundleEffectTouchesOnlyItsFile | packages/kolibri-tools/lib/i18n/csvToJSON.js:53-67 | Syncing one bundle changes only its own file. A non-empty catalogue is written with exactly its entries and strictly sorted keys. An empty one leaves no file, and when there was none before nothing changes. |
| CsvToJsonProperties.BundleEffectFootprint | packages/kolibri-tools/lib/i18n/csvToJSON.js:55-67 | A bundle's sync either writes or deletes its own file, never both, and leaves every other path alone. |
| CsvToJsonProperties.SyncAllShape | packages/kolibri-tools/lib/i18n/csvToJSON.js:38-68 | The bundle loop touches only files in the locale folder, never the marker, and writes no empty catalogue. |
| CsvToJsonProperties.SyncAllAt | packages/kolibri-tools/lib/i18n/csvToJSON.js:38-68 | After the bundle loop, each bundle's file is exactly what that bundle's own sync makes of it, whatever the other bundles did. |
| CsvToJsonProperties.LocaleCatalogFile | packages/kolibri-tools/lib/i18n/csvToJSON.js:38-74 | After a locale, a bundle with a non-empty catalogue has its file holding that catalogue with sorted keys. A bundle with an empty catalogue has no file: the stale file is removed, never replaced by `{}`. |
| CsvToJsonProperties.LocaleReadme | packages/kolibri-tools/lib/i18n/csvToJSON.js:69-74 | The marker holds the fixed text when some bundle of the locale had a catalogue. Otherwise a README that was there stays, and one that was not stays absent. |
| CsvToJsonProperties.SyncAllFootprint | packages/kolibri-tools/lib/i18n/csvToJSON.js:38-68 | The bundle loop leaves every path that is not the catalogue file of one of its bundles. |
| CsvToJsonProperties.LocaleFootprint | packages/kolibri-tools/lib/i18n/csvToJSON.js:38-74 | A locale leaves every file that is neither one of its bundles' catalogue files nor its `README.md` marker exactly as it was. |
| CsvToJsonProperties.LocaleEffectShape | packages/kolibri-tools/lib/i18n/csvToJSON.js:37-74 | A locale changes only files in its own `LC_MESSAGES` folder and writes no empty catalogue. |
| CsvToJsonProperties.RunWritesNoEmptyCatalog | packages/kolibri-tools/lib/i18n/csvToJSON.js:55-66 | No run, over any list of languages, writes a catalogue file with no entries. |
| CsvToJsonProperties.ConvertIsIdempotent | packages/kolibri-tools/lib/i18n/csvToJSON.js:8-76 | Running the conversion a second time on the same inputs leaves the files as the first run left them. |
| CsvToJsonProperties.ConvertTwice | packages/kolibri-tools/lib/i18n/csvToJSON.js:8-76 | Two calls of `Convert` in a row leave the same files as one call. |

## Left out

- Message extraction (`getAllMessagesFromEntryFiles`, `getAllMessagesFromFilePath`) and the `ignore` and `verbose` arguments: the extractors are function parameters of `Convert`. `astUtils` is not part of this model. The extractors are modelled as total, pure functions: in the source an extractor that throws aborts the run before any file is written.
- An extractor result is modelled as the sequence of an object's entries. The model also accepts a repeated id, which an object cannot hold. Ids are then listed twice, and the catalogue is the same.
- An extractor's `{message}` objects are reduced to their text: only `.message` is read (line 44).
- `forEachPathInfo` is modelled as a given sequence of descriptors. How it reads the path-info file is not part of this model.
- The truthiness test on `pathData.entry` is modelled as `Option`. A present but empty-string entry, which JavaScript treats as false, is not distinguished.
- `require(langInfo)`, `parseCSVDefinitions` and `toLocale` are parameters: the language list, a function from intl code to translation rows, and a function from intl code to the locale folder. `parse` is modelled as a total, pure function: in the source a `parseCSVDefinitions` that throws aborts the run and leaves the locales already processed written, and `CsvToJsonProperties.ConvertIsIdempotent` relies on `parse` not reading the `.json` and `README.md` files the run writes.
- The `localeDataFolder/<locale>/LC_MESSAGES` path join is folded into one folder string.
- Bundle names are treated as plain file stems with no `/` or `..`; the normalisation `path.join` does at line 54 is not modelled. In the source, names such as `b` and `a/../b` share one file, and a name such as `../x` writes outside `LC_MESSAGES`. `CsvToJson.MessagesFileDistinct` and `CsvToJsonProperties.LocaleEffectShape` hold for plain stems only.
- The crowdin code is carried in `LanguageInfo` but, as in the source, used only in log lines.
- Logging: the "could not find translation" errors are returned as `BuildCatalog`'s `missing` list. The informational lines are left out.
- `mkdirp.sync` and directories in general are left out; the file system is a flat map from (folder, file) to content.
- The JSON text is left out: 2-space indentation, UTF-8 encoding and escaping. A catalogue file is recorded as its sorted key list and its entries.
- I/O failures are left out. The source swallows every `unlinkSync` error; in the model the only case is a missing file, and it changes nothing.
- `Convert` reaches `en` only through collected requirements, where every required id has a default (`Requirements.Collected`). Other callers of `CsvToJson.ConvertLocale` and `CsvToJson.BundleCatalog` must show that `Resolvable` holds: the source would throw a `TypeError` reading `.message` of a missing default, and that crash is not modelled.
- `KeyOrder.SortKeys` compares `char` sequences. JavaScript's default `sort()` compares UTF-16 code units, so keys with characters outside the Basic Multilingual Plane may order differently.
- `for…in` over `requiredMessages` visits integer-like keys first, in numeric order. The model visits bundles in first-insertion order. Each bundle touches only its own file (`CsvToJsonProperties.SyncAllFootprint`, `CsvToJsonProperties.SyncAllAt`), so the final files are the same in either order. Only the order of the writes differs.
- Special object keys such as `__proto__` behave differently on plain JavaScript objects; keys are modelled as plain map keys.
- CsvToJsonProperties.LocaleReadme: the marker is written when some catalogue of the locale is non-empty and is never deleted, so a marker from an earlier run survives a run with no non-empty catalogue.
- The code calls `find` before testing for `en`, even though the `en` branch ignores the result. `Catalogs.BuildCatalog` keeps that order; it has no visible effect.
