# Wave-Finder: species records and header navigation

This project models two small pieces of Wave-Finder, a map-based site for
divers and surfers, and proves properties of them.

- **The `/api/records` handler** (`apps/api/spots-api.js`). It reads every
  species record (species, diver, weight, date), ordered by species and then by
  descending weight. It groups the records by species in a dictionary, keeping at
  most three entries per species, each with diver, formatted weight and formatted
  date. It answers the dictionary's entries as a list of
  `{species, entries}` groups. On any exception it answers status 500 with
  `{error: 'DB error'}`.
- **The site header** (`apps/web/static/wf-header.js`). It has two link tables,
  the primary links and the links behind "More". `activeKey` picks the key of
  the current page from its path. `pill` gives the class `active` to the pill
  whose key matches it. `buildHeader` renders the primary links as pills twice
  (desktop and mobile navigation), and the "More" links and the drawer's links
  as plain links without a class.

Modules:

- `Records` (`records.dfy`): rows, entries, groups. Holds the reference
  definition `TopThreeBySpecies` and the grouping loop `GroupTopThree`, which is
  proved equal to it. The dictionary in this loop has no inherited members
  (see Findings).
- `RecordsFacts` (`records_facts.dfy`): what the answer promises, proved
  about `TopThreeBySpecies`.
- `RecordsAsWritten` (`records_as_written.dfy`): the same loop over a
  JavaScript object literal, which inherits the members of `Object.prototype`.
- `JsKeys` (`js_keys.dfy`): the order in which `Object.entries` lists an
  object's keys (ECMA-262, section 10.1.11.1, OrdinaryOwnPropertyKeys): array
  indices first, in ascending numeric order, then the other keys in creation
  order.
- `Header` (`header.dfy`): link tables, `activeKey`, pill classes and markup,
  and the links and buttons of the rendered header.
- `Collections` (`collections.dfy`): duplicate-freedom of sequences.

The two formatting calls (`toFixed(2)` with " kg", and `toLocaleDateString('en-GB')`)
are passed in as uninterpreted functions (`Records.Format`). The database is
represented by the row sequence the query returns.

## Model

| member | source | states |
|---|---|---|
| Records.GroupTopThree | apps/api/spots-api.js:108-119 | The grouping loop (create a list on a species' first row, push while shorter than 3, answer the dictionary's entries) returns exactly `TopThreeBySpecies(rows)`: per species its first min(3, k) rows in input order, groups in `Object.entries` key order |
| Records.AppendRow | apps/api/spots-api.js:109-117 | One more row leaves every other species' entries unchanged. It appends its own entry when its species had fewer than 3 rows, and changes nothing when it had 3 or more |
| Records.ObjectEntriesOfGrouped | apps/api/spots-api.js:119 | A dictionary holding each species' top entries, with keys created in first-row order, answers `TopThreeBySpecies` through `Object.entries(...).map(...)` |
| Records.TopEntriesLength | apps/api/spots-api.js:111 | A species' list has min(3, number of its rows) entries |
| Records.SpeciesOrder | apps/api/spots-api.js:110 | The dictionary's keys, in creation order, have no duplicates and are exactly the species that occur in the rows |
| Records.ObjectEntries | apps/api/spots-api.js:119 | `Object.entries(grouped).map(...)` gives one group per created key, no more and no fewer, each holding that key's own list |
| Records.HasSpeciesIff | apps/api/spots-api.js:110 | A species is a key exactly when some row carries it |
| RecordsFacts.GroupSize | apps/api/spots-api.js:110-111 | Every group of the answer has at least 1 and at most 3 entries; no group is empty |
| RecordsFacts.OneGroupPerSpecies | apps/api/spots-api.js:110-119 | No two groups share a species, and a species has a group exactly when some row has that species |
| RecordsFacts.EntryOfRow | apps/api/spots-api.js:109-117 | Row i is listed exactly when fewer than 3 earlier rows share its species. It is then that species' entry number c (c = earlier rows of the species), built from row i's own diver, weight and date |
| RecordsFacts.EntriesComeFromRows | apps/api/spots-api.js:112-116 | Every listed entry is made from one input row of its group's species |
| RecordsFacts.KeepsHeaviest | apps/api/spots-api.js:105-117 | With rows ordered by descending weight within a species (the query's ORDER BY), every kept row weighs at least as much as every dropped row, and kept followed by dropped is all rows of the species |
| RecordsFacts.DroppedRowChangesNothing | apps/api/spots-api.js:111 | A row whose species already has 3 rows leaves the whole answer unchanged |
| RecordsFacts.TotalEntriesOfAnswer | apps/api/spots-api.js:109-119 | The answer lists, over all species, the sum of min(3, rows of the species) entries |
| RecordsFacts.SpeciesOrderIsFirstRowOrder | apps/api/spots-api.js:108-110 | Species keys are created in the order of each species' first row |
| RecordsFacts.GroupOrder | apps/api/spots-api.js:119 | Without array-index species the groups follow first-row order. Otherwise array-index species come first, in ascending numeric order |
| JsKeys.ObjectKeyOrderIndicesFirst | apps/api/spots-api.js:119 | `Object.entries` lists every array-index key before every other key, the array indices ascending |
| JsKeys.ObjectKeyOrderKeepsOthers | apps/api/spots-api.js:119 | Keys that are not array indices keep their creation order |
| JsKeys.NoArrayIndexKeepsCreationOrder | apps/api/spots-api.js:119 | With no array-index key, `Object.entries` lists keys in creation order |
| JsKeys.ObjectKeyOrderSameKeys | apps/api/spots-api.js:119 | `Object.entries` lists every key once: the same keys, as many of them |
| JsKeys.ObjectKeyOrder | apps/api/spots-api.js:119 | The listed keys are a permutation of the created keys |
| RecordsAsWritten.GroupTopThreeAsWritten | apps/api/spots-api.js:100-123 | The loop over `{}`, where `grouped[s]` can find an inherited member, answers `AsWrittenReply`: 500 "DB error" if some species names an inherited method, else the groups of the rows whose species names no `Object.prototype` member |
| RecordsAsWritten.ConstructorSpeciesFailsRequest | apps/api/spots-api.js:108-123 | One record of species "constructor" makes the request fail with 500, though the intended answer has one group for it |
| RecordsAsWritten.ProtoSpeciesIsDropped | apps/api/spots-api.js:110-111 | One record of species "__proto__" yields an empty answer, though the intended answer has one group for it |
| RecordsAsWritten.AgreesWithoutInheritedNames | apps/api/spots-api.js:108-120 | When no species names an `Object.prototype` member, the handler as written answers exactly the intended groups |
| Header.Includes | apps/web/static/wf-header.js:20-26 | `s.includes(sub)` is true exactly when `sub` occurs in `s` at some position |
| Header.ActiveKey | apps/web/static/wf-header.js:17-27 | The key is one of "map", "limits", "blog", "about", "auc", "updates" or "" |
| Header.ActiveKeyDecision | apps/web/static/wf-header.js:17-27 | For each key, exactly which paths get it: "/" and "/index.html" give map; "/limits" wins over every other marker; "/blog" or "/post" give blog; then about, auc ("/records"), updates; "" when no marker occurs |
| Header.LimitsTakesPrecedence | apps/web/static/wf-header.js:20 | A non-home path containing "/limits" gets "limits" whatever else it contains |
| Header.HomeGetsMapKey | apps/web/static/wf-header.js:7-19 | The root link's path and "/index.html" both get the key "map" of the Map link |
| Header.BlogPageGetsBlogKey | apps/web/static/wf-header.js:8-21 | The Blog link's path gets the key "blog" of the Blog link |
| Header.AboutPageGetsAboutKey | apps/web/static/wf-header.js:9-23 | The About link's path gets the key "about" of the About link |
| Header.UpdatesPageGetsUpdatesKey | apps/web/static/wf-header.js:12-25 | The Updates link's path gets the key "updates" of the Updates link |
| Header.LimitsPageGetsLimitsKey | apps/web/static/wf-header.js:13-20 | The Limits link's path gets the key "limits" of the Limits link |
| Header.RecordsPageGetsAucKey | apps/web/static/wf-header.js:14-24 | The records page gets the key "auc" of the AUC link |
| Header.SourcePillNeverActive | apps/web/static/wf-header.js:15-29 | No page gets the key "source" of the Source link |
| Header.Pill | apps/web/static/wf-header.js:28-30 | A pill's markup opens with `<a class="wf-pill active` exactly when its key is the page's key |
| Header.ActivePillsCount | apps/web/static/wf-header.js:28-30 | Among links with distinct keys, one pill is active if some link has the page's key, none otherwise |
| Header.AtMostOneActive | apps/web/static/wf-header.js:28-30 | Among links with distinct keys at most one pill is active |
| Header.HeaderActivePills | apps/web/static/wf-header.js:6-30 | Exactly one primary pill is active on map, blog and about pages, none elsewhere |
| Header.MenuLink | apps/web/static/wf-header.js:37 | A plain link of the "More" menu or the drawer never carries the active class |
| Header.PillsCountActive | apps/web/static/wf-header.js:48 | The rendered pills of a link table carry the active class as often as the table has active pills |
| Header.HeaderCountsPrimaryTwice | apps/web/static/wf-header.js:32-65 | The rendered header carries the active class exactly twice as often as the primary pills do: they are rendered in both navigations, and nothing else is a pill with a key |
| Header.HeaderActiveElements | apps/web/static/wf-header.js:32-65 | Over the whole rendered header (brand, desktop pills, "More" button and menu, mobile pills, burger button, drawer) two elements are active on map, blog and about pages and none on every other page, including those keyed "updates", "limits" and "auc" |
| Header.LimitsPageMarksNothing | apps/web/static/wf-header.js:13-65 | On "/limits.html" no element of the header is active, although the page gets the key "limits" |
| Header.HomePageMarksTwo | apps/web/static/wf-header.js:6-65 | On "/" two elements are active: the Map pill of each navigation |

## Left out

- HTTP plumbing (Express app, CORS, health check, `listen`) and the other endpoints: framework I/O, not logic.
- The database pool, environment configuration and SQL execution: the query result is the `rows` parameter. Its ORDER BY appears only as the precondition of `RecordsFacts.KeepsHeaviest`, because the database's collation and sort are not modelled.
- Connection release in `finally`: resource handling with no effect on the answer.
- Number and date formatting (`parseFloat(...).toFixed(2)`, `toLocaleDateString('en-GB')`): floating point and locale data. They are uninterpreted parameters, and the model proves that each entry field comes from its own row.
- A failing connection or query (`pool.getConnection`, `conn.query`, lines 101-106 of `apps/api/spots-api.js`): the database is not modelled, so `Records.GroupTopThree` has no error path. Inside the grouping lines the only exception is the inherited `push` (see Findings); the formatting calls do not throw, even on a malformed value ("Invalid Date", "NaN").
- Rows whose species is not a string (NULL, numbers): species are modelled as strings.
- `buildHeader`: modelled as its sequence of links and buttons (brand, pills, "More" button and menu, pills, burger button, drawer links). The surrounding `div`/`nav` markup, the logo images and the brand's inner markup are left out, because none of them carries a class that marks a page.
- `mount` (DOM insertion, event wiring, menu toggling): browser I/O.
- Header.Pill: inserts `href` and the label without HTML escaping, as the source does. Only the class attribute is proved about, because the labels are constants. Header.MenuLink likewise.
- Header.ActiveKey: takes the path as a parameter in place of `location.pathname`.

## Findings

| source | as written | input that shows it | evidently intended | confidence | as-written member | corrected member |
|---|---|---|---|---|---|---|
| apps/api/spots-api.js:108-111 | `const grouped = {}` inherits `Object.prototype`. For a species named like an inherited method (`constructor`, `toString`, `valueOf`, `hasOwnProperty`, ...), `grouped[s]` is truthy, so no list is created. Its `length` is below 3, so `.push` is called on a function, throws, and the whole request answers 500 "DB error". For the species `__proto__`, `grouped[s]` is `Object.prototype`, whose `length` is undefined, so its rows are silently dropped | one record with species "constructor" (500 instead of one group); one record with species "__proto__" (`[]` instead of one group) | a dictionary without inherited members (`Object.create(null)` or a `Map`): every species gets its own group | not executed | RecordsAsWritten.ConstructorSpeciesFailsRequest | Records.GroupTopThree |
