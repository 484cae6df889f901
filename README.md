# Field book: marked locations, basemaps and the PDF export plan

A model of the logic in `script.js`, a browser application for field work.
The user pans a map and marks locations; each mark records the map's
centre, its zoom and the active basemap. The marked locations form an
ordered list. The user can rename, delete, reorder and clear them, and can
ask for a ruled notes page after each one. Export turns the list into a PDF
with one map capture per location, in list order, each followed by its
notes page when requested. The file is named after the locations and the
date.

The model has six modules:

- `Basemaps`: the three basemaps (LINZ Topo, OpenStreetMap, LINZ Aerial),
  their keys and their display labels.
- `Text`: the string operations the application relies on. These are
  JavaScript's `\s` whitespace class and `trim`, the filename sanitiser
  `replace(/[^a-zA-Z0-9\s]/g, '')`, decimal rendering of the counter, and
  `join`. `split` is included as the inverse of `join`.
- `Locations`: the location record and every list edit, each written as a
  function from the old list to the new one. Lookups go by id and take
  the first match, as `find` and `findIndex` do.
- `ExportPlan`: the page count, the sequence of pages, the progress
  reports, the file name, and the outcome of a whole export as one
  function.
- `NotesPage`: the loops that place the grid and ruled lines on a notes
  page.
- `Store`: the class `LocationStore`. Its fields are the module-level
  state of the script: `markedLocations`, `locationCounter`, `isMarking`
  and `currentBasemap`. It has one method per event handler, and the
  export loop is a method.

The list edits (notes toggle, rename, delete, reorder) state the new list
through the matching `Locations` function. `Mark`, `ClearAll`,
`SwitchBasemap` and `FinishMarking` give their new state directly in their
contracts. Every handler keeps the invariant `Valid()`: ids are unique, and
the counter stays ahead of the list length. Export is proved against
`ExportPlan.ExportResult`, and the lemmas of `ExportPlan` state what that
result means.

`Locations.Reordered` reinserts the dragged entry at the target's original
index (script.js:692-693). A downward drag therefore lands after the
target (`Locations.ReorderDownwardLandsAfterTarget`).

Some values are supplied by the caller: the clock reading used as an id,
the map's current view, the answer to the confirmation dialog, the ISO
timestamp, and which capture (if any) fails.

## Model

| member | source | states |
|---|---|---|
| Store.LocationStore.constructor | script.js:2-6 | The state at load: an empty list, counter 1, no marking cooldown, LINZ Topo active. |
| Store.LocationStore.Mark | script.js:407-433 | During the cooldown, nothing changes. Otherwise exactly one location is appended at the end, named "Location " + counter, with no notes page and the active basemap; the earlier entries are unchanged, the counter goes up by one and the cooldown starts. Ids stay unique. |
| Store.LocationStore.FinishMarking | script.js:446-456 | The timer callback ends the marking cooldown. |
| Store.LocationStore.SetIncludeBlankPage | script.js:504-509 | The list becomes `WithNotesPage` of the old list; ids stay unique. |
| Store.LocationStore.CommitRename | script.js:539-541 | The list becomes `Renamed` of the old list; ids stay unique. |
| Store.LocationStore.Delete | script.js:601-613 | The list becomes `Deleted` of the old list. It is one entry shorter exactly when the id was present, and the counter is untouched. |
| Store.LocationStore.ClearAll | script.js:618-631 | An empty list returns early: the counter is not reset. A declined confirmation changes nothing. A confirmed clear empties the list and resets the counter to 1. |
| Store.LocationStore.Reorder | script.js:682-693 | The list becomes `Reordered` of the old list; ids stay unique. |
| Store.LocationStore.SwitchBasemap | script.js:102-112 | The layers are swapped exactly when the new basemap differs from the current one; afterwards the new one is current. |
| Store.LocationStore.ExportLocation | script.js:207-312 | One loop turn. The page count goes up and is reported, and the location's basemap becomes current. A failing capture stops there. Otherwise the location's pages are appended, `addPage` has been called once per page but the first, and every page number so far has been reported. |
| Store.LocationStore.ExportAll | script.js:207-312 | The loop over the whole list. It aborts exactly at the first failing capture, with reports up to that location's capture page and its basemap active. Otherwise it produces the planned pages, makes `TotalPages - 1` calls to `addPage`, reports `1/total` to `total/total`, and leaves the last location's basemap active. |
| Store.LocationStore.Export | script.js:157-324 | The outcome equals `ExportResult` of the list. The basemap left active is `BasemapAfterExport`: the starting one is not restored. |
| Store.MarkDeleteMark | script.js:407-613 | Mark, mark, delete the first, mark: the remaining names are "Location 2" and "Location 3". Deleting never makes the counter reuse a number. |
| Basemaps.DisplayName | script.js:389-396 | The label is "Unknown" exactly when the key names none of the three basemaps. |
| Basemaps.Key | script.js:6 | The keys under which the basemaps are stored are lower-case words; "linz" is the key of the initial basemap and of no other. |
| Basemaps.DisplayNamesDistinct | script.js:389-396 | Distinct basemaps have distinct keys and distinct labels. |
| Locations.DefaultNameInjective | script.js:422 | Different counter values give different default names. |
| Locations.DefaultName | script.js:422 | A default name is "Location " followed by digits whose value is the counter. |
| Locations.FindIndex | script.js:602 | The result is -1 exactly when the id is absent. Otherwise the entry at the result has the id, and no earlier entry does. |
| Locations.FindIndexOfUnique | script.js:687-688 | With unique ids, the entry at index k is the one found by its id. |
| Locations.WithNotesPage | script.js:504-509 | Only the first entry with the id gets the new flag; its other fields and every other entry are unchanged. An absent id changes nothing. |
| Locations.Renamed | script.js:539-541 | The first entry with the id takes the trimmed input as its name, unless the input is all whitespace. Its other fields and every other entry are unchanged. An absent id or a blank input changes nothing. |
| Locations.RemoveAt | script.js:613 | `splice(i, 1)`: the entries before i stay in place, the later ones shift down by one, and exactly that one entry is removed from the multiset. |
| Locations.InsertAt | script.js:693 | `splice(i, 0, x)`: x lands at i, the entries after it shift up, the multiset gains x, and removing at i gives back the list. |
| Locations.Deleted | script.js:601-613 | An absent id changes nothing. Otherwise exactly the first entry with the id is removed, and the rest keep their order. |
| Locations.Reordered | script.js:682-693 | The result has the same length and is a permutation. Equal ids or an absent id change nothing. Otherwise the dragged entry sits at the target's original index. |
| Locations.ReorderKeepsOthersInOrder | script.js:692-693 | Apart from the dragged entry, every entry keeps its relative order. |
| Locations.ReorderedKeepsUnique | script.js:692-693 | Reordering keeps ids unique. |
| Locations.ReorderDownwardLandsAfterTarget | script.js:687-693 | Dragged downward, the entry lands just after the target. |
| Locations.ReorderUpwardLandsBeforeTarget | script.js:687-693 | Dragged upward, the entry lands just before the target. |
| Locations.ReorderNeighboursSwaps | script.js:687-693 | Dropping an entry on a neighbour swaps the two. |
| Locations.ReorderOntoNextFindsSwapped | script.js:687-693 | After dropping onto the lower neighbour, each id is found at the other's old index. |
| Locations.ReorderOntoNextTwiceRestores | script.js:687-693 | Dropping onto the lower neighbour twice restores the list. |
| ExportPlan.TotalPages | script.js:202-204 | The page count lies between the number of locations and twice that number. |
| ExportPlan.TotalPagesCountsNotes | script.js:202-204 | The page count is the number of locations plus the number of locations that ask for a notes page. |
| ExportPlan.TotalPagesOfPrefix | script.js:202-204 | A prefix of the list never has more pages than the whole list, and a proper prefix has fewer. |
| ExportPlan.PagePlan | script.js:207-312 | The loop makes exactly `totalPages` pages. |
| ExportPlan.PagePlanInStoreOrder | script.js:207-312 | Every page belongs to a listed location, pages follow store order, and a notes page belongs only to a location that asks for one. |
| ExportPlan.PagePlanOfPrefix | script.js:207-312 | The plan of a prefix is a prefix of the plan. |
| ExportPlan.PagePlanPlacesCapture | script.js:207-290 | Location k's capture is page number `TotalPages(s[..k]) + 1`. |
| ExportPlan.PagePlanPlacesNotesAfterCapture | script.js:302-310 | A notes page follows a location's capture immediately exactly when the location asks for one. |
| ExportPlan.PlanOfNextPrefix | script.js:207-312 | One more location adds its own pages at the end of the plan and to the count. |
| ExportPlan.PagesFor | script.js:255-312 | One turn adds one or two pages. The first is the location's capture; the second exists exactly when the location asks for a notes page, and is that notes page. |
| ExportPlan.ExportTurnPlan | script.js:207-209 | Before location i's turn, the page count leaves room for that location's capture page. |
| ExportPlan.ReportsCountUp | script.js:209-307 | The k-th report shown is page k + 1 of the total. |
| ExportPlan.Reports | script.js:209-215 | After `count` reports there are exactly `count` of them; `ReportsCountUp` states that the k-th reads page k + 1 of the total. |
| ExportPlan.IsoDate | script.js:323 | `slice(0, 10)`: the first ten characters, or the whole of a shorter text. |
| ExportPlan.SanitizedNames | script.js:322 | One sanitised name per location. |
| ExportPlan.SanitizedNamesInOrder | script.js:322 | The k-th sanitised name is the k-th location's name, sanitised. |
| ExportPlan.FileName | script.js:323 | The file name starts with "field-maps-" and ends with ".pdf", with something in between. |
| ExportPlan.SanitizedNamesHaveNoDash | script.js:322 | No sanitised name contains '-'. |
| ExportPlan.JoinedNamesDashCount | script.js:322 | The joined name part has exactly n - 1 dashes for n locations. |
| ExportPlan.FileNameRecoversNames | script.js:322-323 | Splitting the name part on '-' gives back exactly the sanitised names, in store order, and the date is the timestamp's first ten characters. |
| ExportPlan.BasemapAfterExport | script.js:218-319 | With an empty list the basemap is unchanged. Otherwise it is one of the listed locations' basemaps. |
| ExportPlan.ExportResult | script.js:167-324 | Refused exactly when the list is empty, and abandoned exactly when a listed location's capture fails; an abandoned export has shown at least one report and no more than the total. A saved export has one page and one report per counted page, one `addPage` call per page but the first, and the derived file name. |
| ExportPlan.ExportReportsStayWithinTotal | script.js:167-307 | An export is refused exactly when the list is empty. Reports count up 1/total, 2/total, ... and never pass the total. A saved export reports every page, ending at total/total, and calls `addPage` exactly `totalPages - 1` times. |
| NotesPage.RulingPositions | script.js:363-370 | `for (y = start; y <= end; y += spacing)`: the positions are start + k·spacing, none passes end, and the next one would. |
| NotesPage.NotesPageRulings | script.js:349-382 | The grid rows and ruled rows run from margin + 25 to height - margin - 10, and the grid columns stay left of the ruled half. On A4 landscape there are 28 grid rows, 26 grid columns and 17 ruled lines. |
| Text.LeadingWhitespace | script.js:540 | The count of leading whitespace characters: every one of them is whitespace, and the next character is not. |
| Text.IsWhitespace | script.js:540 | JavaScript's `\s` class, which `trim` also uses, includes space, tab, line feed and carriage return. |
| Text.TrailingWhitespace | script.js:540 | The count of trailing whitespace characters: every one of them is whitespace, and the character before them is not. |
| Text.TrimStart | script.js:540 | The result does not start with whitespace. |
| Text.TrimEnd | script.js:540 | The result does not end with whitespace. |
| Text.Trim | script.js:540 | The result is empty exactly when the input is all whitespace; otherwise it starts and ends with a non-whitespace character. |
| Text.TrimIsInfix | script.js:540 | The trimmed text is a contiguous slice of the input. |
| Text.TrimRemovesOnlyWhitespace | script.js:540 | Only whitespace is removed, from both ends. |
| Text.TrimIdempotent | script.js:540 | Trimming twice is trimming once. |
| Text.Sanitize | script.js:322 | The result is never longer than the input and keeps only `[a-zA-Z0-9\s]`. |
| Text.IsKept | script.js:322 | The class `[a-zA-Z0-9\s]`: '-', '&', '.', '/' and '_' are dropped; among ASCII characters exactly the letters, the digits and the six ASCII whitespace characters are kept. |
| Text.SanitizeCounts | script.js:322 | Every kept character survives as often as it occurs, and nothing else survives. |
| Text.SanitizeKeepsClean | script.js:322 | A clean name passes through unchanged. |
| Text.SanitizeIdempotent | script.js:322 | Sanitising twice is sanitising once. |
| Text.SanitizeAppend | script.js:322 | Sanitising works character by character: the sanitised concatenation is the concatenation of the sanitised parts. |
| Text.Decimal | script.js:422 | The counter's text is non-empty, all digits, and has no leading zero unless the counter is zero. |
| Text.DecimalRoundTrip | script.js:422 | Reading back the decimal text of n gives n. |
| Text.DecimalInjective | script.js:422 | Different numbers have different decimal texts. |
| Text.Join | script.js:322 | Joining a single part gives that part. |
| Text.JoinSeparatorCount | script.js:322 | If no part contains the separator, the join of n parts holds n - 1 separators. |
| Text.Split | script.js:322 | A split always gives at least one piece. |
| Text.SplitPiecesSeparatorFree | script.js:322 | No piece of a split contains the separator. |
| Text.SplitJoin | script.js:322 | Splitting a join of separator-free parts gives back the parts. |
| Text.JoinSplit | script.js:322 | Joining the pieces of a split gives back the text. |

## Left out

- Leaflet map set-up, tile layers, the basemap control's buttons and their highlighting (script.js:16-99, 119-137) are left out: they are calls into a foreign library and the DOM. The model keeps only the active basemap.
- The html2canvas capture, the one-second settle delay, hiding and restoring the map controls, `setView`, and `await` (script.js:224-252) are left out. Each capture is an opaque step that succeeds or throws. `failAt` names the first location whose capture throws.
- jsPDF drawing is left out: `rect`, `addImage`, `text`, fonts, colours, dash patterns, `save`, and the floating-point image scaling and centring (script.js:259-301). The model records which page is made and how many times `addPage` is called.
- Restoring the map view after an export (script.js:316, 333) is left out, because the model has no map-view state. `updateBasemapControlButtons` after an export is DOM only.
- `toFixed(6)` coordinate text and `toUpperCase()` titles are left out: they are float formatting and Unicode case mapping.
- Clocks and dialogs are parameters: `Date.now()` becomes the `id` argument of `Mark`, `toISOString()` becomes `isoTimestamp`, and `confirm` becomes the `confirmed` argument of `ClearAll`. `toLocaleString` (script.js:199) is unused and left out.
- The `alert` messages, the button-text restoration in `finally`, and the `!mapContainer` guard (script.js:162-165) are left out: they are DOM only. An empty list is modelled as `Rejected`.
- List rendering, the inline-edit DOM swap and its key handling, drag events other than the drop's splice, `goToLocation`, and the resize handler are left out as UI plumbing. The Escape-key cancel changes no state.
- Marker removal is left out: `marker` is always `null` in this code. The `marker` field is not part of `Location`.
- Store.LocationStore.CommitRename: the fallback `currentName` is the `textContent` of the list entry when editing began (script.js:517). The list is rendered through `innerHTML` (script.js:471, 500), so that text is the stored name as parsed as HTML. A stored name such as `A &amp; B` is shown as `A & B`, and a blank input then writes `A & B` back, with no other edit in between. The model takes the fallback to be the stored name unchanged. It therefore covers only names that read the same as HTML text, or an edit that ran in between.
- Basemaps.DisplayName: keys inherited from `Object.prototype` (such as "toString") give a function rather than "Unknown" in the source. The model treats every key other than the three as unknown.
- Text.Decimal: a counter of 10^21 or more renders in exponent form in JavaScript. The model renders every counter in plain decimal.
- NotesPage.NotesPageRulings: positions are whole millimetres, and the A4 size is taken as 297 × 210 mm. `pageCenter - 6 + 7` becomes `(width + 2) / 2` for whole-number positions.
- Store.LocationStore.ExportAll: the source's `location.basemap &&` check is always true here, because every marked location records its basemap.
- A second export cannot start while one runs: the export button is disabled (script.js:177) until `finally` re-enables it (script.js:336). The model runs one export at a time.
- Store.LocationStore.Export: the model assumes that no other handler runs during an export. It exports a snapshot of the list. In the source, the loop re-reads the live `markedLocations` on every turn (script.js:207-208) and yields at each `await` (script.js:228, 240). Only the export button is disabled meanwhile, while `totalPages` is fixed beforehand (script.js:202-204). During an export, mark, delete, clear-all, the notes checkboxes, drag-reorder and the basemap buttons all stay live. The model does not capture what follows from that:
  - Marking a location mid-export adds a turn. Two locations give "3/2", three saved pages and a third name in the file name (script.js:322 reads the live list).
  - Deleting an earlier entry shifts the list, so a location is skipped.
  - Switching the basemap during a wait captures the wrong basemap.
  - ExportPlan.ExportReportsStayWithinTotal therefore holds only for an export that runs without such interleaving.
