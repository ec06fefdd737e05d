# School asset inventory: the record store and its views

This project models the data core of a browser asset inventory (the
`script.js` dashboard) in Dafny.

The store is the `assets` array of records. Each record has an id, a tag, a
name, a category, a location, a status and a creation date. The store offers
these operations:

- a case-insensitive check that a tag is not taken (`isAssetTagUnique`);
- add, edit and delete handlers, which run that check and then change the
  array;
- `loadAssets`, which reads browser storage or falls back to four seed
  records;
- `saveAssets`, which writes the array back to storage.

The page also derives views from the records:

- the filtered list shown in the table (`applyFilters`);
- the four dashboard figures (`updateMetrics`);
- the category drop-down (`updateCategoryFilter`);
- the CSV export with its quoting rule (`exportToCsv` / `safeValue`);
- the status badge class (`getStatusClass`).

Modules:

- `Wrappers`: an `Option` type.
- `Text`: JavaScript `trim`, ASCII case folding and `includes`.
- `Seqs`: order-preserving filtering, subsequences, counting, and first-occurrence de-duplication (`new Set`).
- `Assets`: the record type, the tag check, `findIndex`, the records built by add and edit, removal by id, and the seed set.
- `Views`: the filter, the metrics, the category options and the badge.
- `Csv`: the export as a method with a loop, the quoting rule, and a reader for the exported lines that proves the export can be read back.
- `Store`: a class `Inventory` holding the page's state: `assets`, the stored snapshot, `currentFilter` and `filteredAssets`. Its methods are the handlers. Each one keeps `filteredAssets` equal to the filter of `assets` by the current criteria.

## Model

| member | source | states |
|---|---|---|
| Assets.IsAssetTagUnique | script.js:163-168 | The check succeeds exactly when no record equals the tag ignoring case, except a record whose id is the current one. With no current id, every record counts. |
| Assets.FindIndex | script.js:240 | `findIndex` by id gives -1 exactly when no record has the id. Otherwise it gives the first position that holds it. |
| Assets.NewAsset | script.js:198-206 | The added record has the given id and `dateAdded` equal to the add time. Its tag, name and location are trimmed, and its category and status are taken as selected. |
| Assets.Edited | script.js:255-262 | The edited record keeps the old record's id and creation time from the spread. It takes the trimmed tag, name and location, and the category and status as selected. |
| Assets.Without | script.js:277 | The delete filter is never longer than its input, and keeps only records of the input whose id differs from the deleted one. |
| Assets.WithoutSpec | script.js:277 | Delete removes exactly the records with the id. Every other record keeps its multiplicity and relative order. An absent id leaves the array unchanged, and deleting twice is the same as deleting once. |
| Assets.SubsequenceKeepsUnique | script.js:277 | Taking an order-preserving subsequence keeps tags and ids unique. |
| Assets.WithoutKeepsUnique | script.js:277 | Delete keeps tags and ids unique. |
| Assets.AppendKeepsUnique | script.js:190-208 | Appending a record that passes the tag check keeps tags unique. Appending one with a fresh id keeps ids unique. |
| Assets.ReplaceKeepsUnique | script.js:247-262 | When ids are unique, replacing the record at an index with one of the same id keeps ids unique. If the new tag passes the check for that id, tags stay unique too. |
| Assets.OwnTagAccepted | script.js:247 | When tags are unique, editing a record and keeping its own tag (in any case) passes the check. |
| Assets.SharedIdLetsEditDuplicate | script.js:164-166 | If two records share an id, the edit check ignores both, so an edit can copy the other's tag (see Left out). |
| Assets.Seed | script.js:114-152 | The seed set has four records with distinct ids and case-insensitively distinct tags, all created before the load time. |
| Text.Trim | script.js:186 | `trim` never lengthens its input. Its full characterisation is `Text.TrimSpec`. |
| Text.TrimSpec | script.js:186 | `trim` gives the slice of the input between its leading and trailing whitespace. That whitespace is removed, and the result neither starts nor ends with whitespace. |
| Text.TrimStartSpec | script.js:186 | Removing leading whitespace gives a suffix that starts with non-whitespace. |
| Text.TrimEndSpec | script.js:186 | Removing trailing whitespace gives a prefix that ends with non-whitespace. |
| Text.TrimIdempotent | script.js:186 | Trimming twice is the same as trimming once. |
| Text.Upper | script.js:165 | Upper-casing, restricted to ASCII letters, keeps the length and leaves no lower-case ASCII letter. Every other character stays as it was, and each character keeps its lower-case form, so a lower-case letter becomes its own upper-case letter. |
| Text.Lower | script.js:306-309 | Lower-casing, restricted to ASCII letters, keeps the length and leaves no upper-case ASCII letter. Every other character stays as it was, and each character keeps its upper-case form, so an upper-case letter becomes its own lower-case letter. |
| Text.FoldAgree | script.js:165 | Under the model's ASCII case folding, two strings match under upper-casing exactly when they match under lower-casing. This does not hold for full Unicode case mapping (see Left out). |
| Text.Contains | script.js:308-309 | `includes` is true exactly when the substring occurs at some position. |
| Text.ContainsSelf | script.js:308-309 | Every string includes itself and the empty string. |
| Seqs.Filter | script.js:301 | `Array.prototype.filter` is never longer than its input, and keeps only elements of the input that pass the test. |
| Seqs.FilterIsSubsequence | script.js:301 | `Array.prototype.filter` gives an order-preserving subsequence of its input. |
| Seqs.FilterMembership | script.js:301 | An element is in the filtered list exactly when it is in the input and passes the test. |
| Seqs.FilterMultiplicity | script.js:301 | An element that passes keeps its multiplicity. One that fails disappears. |
| Seqs.FilterFilter | script.js:299-311 | Filtering twice in a row is the same as filtering once by the conjunction of the two tests. |
| Seqs.FilterAppend | script.js:301 | Filtering distributes over concatenation. |
| Seqs.CountDisjoint | script.js:326-334 | The counts of two tests that never both hold add up to the count of their disjunction. |
| Seqs.Distinct | script.js:343 | `[...new Set(s)]` is never longer than `s` and holds only values of `s`. |
| Seqs.DistinctSpec | script.js:343 | `new Set` order has no duplicates and the same members as its input, listed in order of first occurrence. |
| Views.Visible | script.js:296-313 | The list `applyFilters` leaves is never longer than the records, and holds only records that pass the category and search tests. |
| Views.VisibleSpec | script.js:296-313 | The shown list is an order-preserving subsequence of the records. A record is in it exactly when its category matches (or "All" is selected) and the search is empty or found in its lower-cased tag or name. Each shown record keeps its multiplicity. |
| Views.VisibleInStages | script.js:299-311 | Filtering by category and then by search gives the same list as the combined test. |
| Views.InitialShowsAll | script.js:296-313 | With "All" selected and an empty search, every record is shown. |
| Views.SearchFindsTag | script.js:305-310 | Under the model's ASCII case folding, searching for any text that matches a record's tag case-insensitively shows that record when "All" is selected (see Left out). |
| Views.LongerSearchNarrows | script.js:305-310 | Under the model's ASCII case folding, extending a search text at either end never shows a record the shorter text hid. This includes extending an empty search, which shows every record (see Left out). |
| Views.ComputeMetrics | script.js:324-334 | The total is the number of records, and the three status figures add up to at most the total. When every status is one of the five the forms offer, they add up to exactly the total. |
| Views.MetricsAfterAppend | script.js:326-334 | One more record raises the total by one. It raises exactly the figure its status belongs to: "Available"; "In Use" or "Fixed"; "Maintenance" or "Repair". |
| Views.CategoryColumn | script.js:343 | `assets.map(a => a.category)` has one entry per record, and each entry is that record's category. |
| Views.CategoryOptions | script.js:343 | The category choices start with "All", and every later choice is the category of some record. |
| Views.CategoryOptionsSpec | script.js:343 | The category choices start with "All", followed by each category in use exactly once, in order of first use, and nothing else. |
| Views.StatusClass | script.js:498-507 | The badge is "badge-available" exactly for "Available" and for any unknown status. |
| Views.StatusClassDistinguishes | script.js:498-507 | The five known statuses get five different badges. |
| Csv.Escape | script.js:471 | `replace(/"/g, '""')` never shortens the value. `Csv.EscapeQuoteFree`, `Csv.EscapeAppend`, `Csv.TrimEscape` and `Csv.ReadEscaped` characterise it. |
| Csv.SafeValue | script.js:471 | A `safeValue` field starts with a quote, and reads back as the trimmed value with nothing after its closing quote. |
| Csv.EscapeQuoteFree | script.js:471 | A value without double quotes is left unchanged by the quote doubling. |
| Csv.EscapeAppend | script.js:471 | Doubling quotes distributes over concatenation. |
| Csv.TrimEscape | script.js:471 | Trimming after doubling quotes is the same as doubling the quotes of the trimmed value. |
| Csv.ReadEscaped | script.js:471 | A value with its quotes doubled, followed by a closing quote, reads back as the value. |
| Csv.ReadSafeValue | script.js:471 | A `safeValue` field followed by a comma or newline reads back as the trimmed value. |
| Csv.ReadJoined | script.js:471-481 | A line of `safeValue` fields joined by commas reads back as the trimmed fields. |
| Csv.ExportCsv | script.js:458-482 | With no records there is no export. Otherwise the text is the header line followed by one quoted line per record, in order. |
| Csv.ExportReadsBack | script.js:469-482 | The record lines of the export read back, line by line, as each record's trimmed tag, name, category, location, status and date. |
| Store.Inventory.constructor | script.js:1-7 | The page starts with no records, no filter and an empty view. |
| Store.Inventory.Save | script.js:158-160 | Storage holds exactly the current records. |
| Store.Inventory.ApplyFilters | script.js:296-313 | The view becomes the filter of the records by the current criteria. Nothing else changes. |
| Store.Inventory.Load | script.js:108-156 | Saved records are loaded as they are, including an empty list. With nothing saved, the seed set is loaded and saved. The view is recomputed. |
| Store.Inventory.Add | script.js:183-213 | The add is saved exactly when the trimmed tag passes the check. A saved add appends the new record, writes storage and keeps the view valid. A rejected add changes nothing. Tag and id uniqueness are preserved. |
| Store.Inventory.Edit | script.js:236-268 | An unknown id does nothing. Otherwise the edit is saved exactly when the trimmed tag passes the check for that id. A saved edit replaces only the first record with the id, keeping its id and creation time. A rejected edit changes nothing. Id uniqueness is preserved, and so is tag uniqueness when ids are unique. |
| Store.Inventory.Delete | script.js:271-282 | If the confirmation is declined, nothing changes. Otherwise every record with the id is removed, the rest keep their order, storage is written, and uniqueness is preserved. |
| Store.Inventory.Search | script.js:286-289 | The search text is replaced and the view recomputed. Records and storage stay as they were. |
| Store.Inventory.SelectCategory | script.js:291-294 | The selected category is replaced and the view recomputed. Records and storage stay as they were. |

The helpers `Seqs.Count` (the `filter(...).length` of script.js:326-334),
`Csv.JoinQuoted` (the `join(',')` of script.js:473-480) and `Csv.Line` (that
row plus `'\n'`, script.js:481) only compute. Their properties are stated by
the `Views.ComputeMetrics`, `Views.MetricsAfterAppend`, `Seqs.CountDisjoint`,
`Csv.ReadJoined`, `Csv.ExportCsv` and `Csv.ExportReadsBack` rows.

## Left out

- Rendering, event wiring, forms and modals (`showAddForm`, `showEditModal`, `renderAssetTable` and the rest): these are page I/O with no data behaviour.
- The login screen and its session flag: a fixed credential compare, storage and a timer.
- JSON encoding of browser storage. Storage is modelled as the already-parsed list (`Option<seq<Asset>>`). A stored text that fails to parse makes `JSON.parse` throw in `loadAssets`. There is no fall back to the seed set, and that path is not modelled.
- Dates are numbers of milliseconds. The ISO-8601 string stored in `dateAdded`, and `new Date(...)` parsing it back, are not modelled.
- `toLocaleDateString` is locale-dependent. The export takes the date rendering as a parameter `render`.
- The Blob, object-URL and anchor download, the file name with its timestamp, and the toast messages: these are browser I/O.
- `confirm()` becomes the `confirmed` parameter of `Store.Inventory.Delete`.
- `Date.now()` becomes parameters: the new id and the current time of `Store.Inventory.Add`, and the load time of `Store.Inventory.Load`.
- Store.Inventory.Add: requires the new id to differ from every stored id. `Date.now().toString()` does not guarantee this.
- Text.Upper and Text.Lower fold only ASCII letters. Full Unicode case mapping of `toUpperCase`/`toLowerCase` is not modelled.
- Text.FoldAgree holds only under ASCII folding. The program compares tags with `toUpperCase` (script.js:165) but searches with `toLowerCase` (script.js:306-309). Under full Unicode mapping the two can disagree: "ſ" (U+017F) upper-cases to "S" but lower-cases to itself.
- Views.SearchFindsTag holds only under ASCII folding, for the same reason. With a record tagged "ſ", the tag check rejects "s" as a duplicate, yet a search for "s" does not show that record. The model cannot express this disagreement.
- Views.LongerSearchNarrows holds only under ASCII folding, because its proof uses the fact that lower-casing distributes over concatenation (`Text.LowerAppend`). JavaScript's `toLowerCase` (script.js:306) breaks that through the final-sigma rule: "ΑΣ" lower-cases to "ας" but "ΑΣΑ" to "ασα". So a record named "ασα" is hidden by the search "ΑΣ" yet shown by the longer search "ΑΣΑ".
- Views.StatusClass: inherited object keys such as "constructor", for which the JavaScript lookup returns a function rather than the default, are not modelled.
- Store.Inventory.Edit: tag uniqueness is proved only when ids are unique. The check skips every record with the edited id, so two records sharing an id defeat it (`Assets.SharedIdLetsEditDuplicate`).
- The code has no location filter and no non-empty validation of form fields; the model has neither.
- The export covers all records, not only the filtered view.
- A category literally named "All" would appear twice among the category choices, as in the code.
- Form values such as category and status come from drop-downs. The model accepts any string, and the metrics state exact sums only for the five known statuses.
