# San Francisco movies: a Dafny model of the core

This project models four small parts of a teaching repository about the San
Francisco film-locations dataset and proves properties of each.

- **The SVG element tree** (`src/drawing.mjs`). A `GenericElement` has a name,
  an insertion-ordered attribute map (a JavaScript `Map`) and a list of children.
  It can add an attribute if it is absent, set one, add many, remove many, and
  append a child. `RootElement`, `RectangleElement` and `TextElement` pre-fill
  fixed attribute templates. The file ends with a test drawing.
  - Module `AttrMap` models the `Map` as a sequence of (name, value) entries in
    insertion order. `Put` is `Map.set`: a present name keeps its place. `Delete`
    is `Map.delete`. Lemmas relate the folds of `addAttrs` and `removeAttrs` to
    simple filters.
  - Module `Drawing` models the element as a class. Its fields are `name`,
    `attrs` and `children`, and each method updates them in place. The object
    invariant `Valid()` says no attribute name occurs twice. The three subclasses
    are named constructors. The test drawing is the method `Scenario`.
- **Dataset statistics** (`src/sfmovies.mjs`), module `SfMovies`. A film record
  maps column names to cell text. `longestFunFact` is a reduction with a strict
  `>` on `.length`, which counts UTF-16 code units, so a character outside the
  Basic Multilingual Plane counts twice. `getTitlesByYear` is a filter, a map and a `Set` dedupe. `actorCounts` is
  a frequency table built by `increment`, which skips falsy names.
- **Rows to records** (`src/report.mjs`), module `Report`. `rowsToObjects` zips
  each row's cells with the header names by position. `getData` splits off the
  header row.
- **`getEvenParam`** (`src/hoffy.mjs`), module `Hoffy`. A `while` loop copies
  every other argument into an array that was allocated with `trunc(n/2)` holes.

`Wrappers` holds `Option` (`None` is JavaScript's `undefined`). `Sequences`
holds `Distinct` and `FirstIndex`.

`src/drawing.mjs` calls `root.toString()` and `root.write(...)` (lines 138 and
141) but defines neither, so there is no serializer to model. `TextElement`
stores its text as an ordinary `content` attribute (line 112), and the model
does the same.

## Model

| member | source | states |
|---|---|---|
| AttrMap.Put | src/drawing.mjs:41-43 | `Map.set`: the name maps to the new value and every other name keeps its value; a present name keeps its position in the key order, an absent one is appended at the end |
| AttrMap.Delete | src/drawing.mjs:64-65 | `Map.delete`: an absent name leaves the map unchanged; every other name keeps its value |
| AttrMap.DeleteCut | src/drawing.mjs:64-65 | a present name has its entry cut out at its position; the entries before and after it keep their order |
| AttrMap.PutUnique | src/drawing.mjs:41-43 | setting an attribute keeps the attribute names unique |
| AttrMap.AppendUnique | src/drawing.mjs:29-31 | appending a name that is absent keeps the attribute names unique |
| AttrMap.DeleteUnique | src/drawing.mjs:64-65 | deleting keeps the names unique, leaves the name absent, and shortens the map by one exactly when the name was present |
| AttrMap.DeleteIsFilter | src/drawing.mjs:64-65 | over unique names, deleting a name is the same as filtering out every entry with that name |
| AttrMap.DeleteAllIsKeep | src/drawing.mjs:64-66 | deleting the names one after another leaves exactly the entries whose name is not listed, in their old relative order |
| AttrMap.KeepDrops | src/drawing.mjs:64-66 | no listed name survives the removal |
| AttrMap.KeepLength | src/drawing.mjs:64-66 | the removal shrinks the map by the number of entries whose name is listed |
| AttrMap.HitsArePresentNames | src/drawing.mjs:64-66 | over unique names, that number is the number of distinct listed names that were present; unknown and repeated names add nothing |
| AttrMap.AddAllIsAppendFresh | src/drawing.mjs:52-56 | when the added entries have distinct names (as an object's properties do), the result is the old map followed by the entries whose name was absent, in entry order, and the names stay unique |
| AttrMap.FreshAbsent | src/drawing.mjs:52-56 | when none of the added names is present, every added entry counts as new |
| AttrMap.AddAllExtends | src/drawing.mjs:52-56 | the bulk add only appends: the old entries stay in place with their old values, and every added name is present afterwards |
| Drawing.Element.constructor | src/drawing.mjs:10-14 | a new element has the given name, no attributes and no children |
| Drawing.Element.Root | src/drawing.mjs:79-86 | the root is named `svg`, has exactly the attribute `xmlns` with the SVG namespace, and no children |
| Drawing.Element.Rectangle | src/drawing.mjs:89-100 | a rectangle is named `rect`, has the attributes x, y, width, height and fill in that order with the given values, and no children |
| Drawing.Element.Text | src/drawing.mjs:103-114 | a text is named `text`, has the attributes x, y, fontSize, fill and content in that order with the given values, and no children |
| Drawing.Element.AddAttr | src/drawing.mjs:24-32 | returns true exactly when the name was absent; then the entry is appended at the end; otherwise the attributes are unchanged; children unchanged |
| Drawing.Element.SetAttr | src/drawing.mjs:41-43 | the name maps to the value afterwards; the key order is unchanged if the name was present and gains it at the end otherwise; other values and the children are unchanged |
| Drawing.Element.AddAttrs | src/drawing.mjs:52-56 | adds the entries in order, each only if its name is absent at that point; the count returned is the number of entries added; old entries keep their place and value; for distinct entry names the new entries are the absent ones, in entry order |
| Drawing.Element.RemoveAttrs | src/drawing.mjs:64-66 | afterwards no listed name is present; the survivors keep their order; the count returned is the number of distinct listed names that were present |
| Drawing.Element.AddChild | src/drawing.mjs:73-75 | the child is appended at the end of the children; the attributes are unchanged |
| Drawing.SizedRoot | src/drawing.mjs:118-120 | after adding width, height, abc and def and removing abc, def and an unknown name, the root's attributes are exactly xmlns, width=800, height=170, and the removal returns 2 |
| Drawing.Circle | src/drawing.mjs:123-126 | the circle's attributes are r=75, fill=yellow, cx=200, cy=80, in that order |
| Drawing.Scenario | src/drawing.mjs:118-135 | the whole test drawing: the root's attributes and removal count as above, the circle's attributes, and the children named circle, rect and text in that order |
| SfMovies.LongestSoFar | src/sfmovies.mjs:18-30 | the reduction's accumulator ends with the maximal fun-fact length and the first film that reaches it; it stays `undefined` with length 0 exactly when every fun fact is empty |
| SfMovies.LongestFunFact | src/sfmovies.mjs:16-31 | `undefined` for empty data and exactly when every fun fact is empty; otherwise a film of the data whose fun fact is at least as long as every other, and no earlier film is as long |
| SfMovies.LongestCountsCodeUnits | src/sfmovies.mjs:19-23 | lengths are `.length`, counted in UTF-16 code units: a fun fact of two emoji (four code units) beats one of three letters |
| SfMovies.LabelsReleasedIn | src/sfmovies.mjs:44-46 | the filtered and mapped labels are exactly the labels of the films whose release year equals the year |
| SfMovies.Dedupe | src/sfmovies.mjs:43-46 | `Array.from(new Set(s))` has the same elements as `s`, none twice, in the order of their first occurrence in `s` |
| SfMovies.TitlesByYear | src/sfmovies.mjs:41-47 | every output is `TITLE (year)` for a film released in that year; every such film's label is output; no label twice; labels in order of first occurrence among the filtered films |
| SfMovies.Increment | src/sfmovies.mjs:49-61 | a falsy key (missing or empty) leaves the table unchanged; otherwise the key's count goes up by one, a missing count becoming 1, and no other count changes; the only key that can appear is the truthy key |
| SfMovies.CountActors | src/sfmovies.mjs:72-78 | processing one film adds, for every non-empty name, the number of its actor columns holding that name; the empty name never becomes a key |
| SfMovies.ActorCounts | src/sfmovies.mjs:71-79 | the keys are exactly the non-empty names occurring in some actor column; each maps to its number of (film, actor column) occurrences, so at least 1; empty data gives the empty table |
| Report.RowToObjectKeys | src/report.mjs:9-13 | a key is in a row's record exactly when some cell's position names it; past the end of the headers the position names `"undefined"` |
| Report.RowToObjectValues | src/report.mjs:9-12 | a key holds the cell of the last position that names it, so with repeated header names the later cell wins |
| Report.PositionalRecord | src/report.mjs:9-12 | with distinct header names and a row no longer than the headers, the record maps each reached header to the cell at its position and has no key for the trailing headers of a short row |
| Report.LaterDuplicateWins | src/report.mjs:9-12 | a header name that occurs twice within a row's reach maps to the cell at its later position |
| Report.RowsToObjects | src/report.mjs:7-14 | one record per row, in row order; no rows give no records |
| Report.GetData | src/report.mjs:18-31 | empty input gives the object `{headers: [], rows: []}` and not a list; otherwise the first row gives the header names and each later row one record, so a header-only input gives no records |
| Report.EmptyInputIsNotRecordList | src/report.mjs:19-24 | for an empty parsed file the result is the object `{headers: [], rows: []}`, not a list of records, while a header-only file gives the empty list and the corrected conversion gives the empty list for the empty file too |
| Report.GetRecords | src/report.mjs:18-31 | the corrected conversion: no records for empty or header-only input; otherwise one record per row after the header row; agrees with `GetData` on every non-empty input |
| Report.ReportActorCounts | src/report.mjs:43-45 | the corrected report: the actor table is the frequency table of the records of `GetRecords`, so it agrees with the source on every non-empty file and is empty for a header-only file; for an empty file it is empty where the source throws |
| Hoffy.Store | src/hoffy.mjs:17 | `arr[j] = v` on a JavaScript array: the slot holds `v`, the other slots are unchanged, and writing past the end grows the array with holes in any gap |
| Hoffy.GetEvenParam | src/hoffy.mjs:11-23 | the result has `(n + 1) / 2` slots, no holes, and slot `j` holds argument `2j`, so it is empty without arguments and starts with the first argument otherwise |

## Left out

- The serializer (`toString`, `write`) and the `console.log` calls of `src/drawing.mjs:138-141`: the source calls these methods but does not define them, and writing the file is I/O.
- `readFile`, the CSV parser `parse`, the rethrown errors and `console.log` in `src/report.mjs:3-5` and `src/report.mjs:33-47`: file I/O and a foreign parser. `ReportActorCounts` takes the parsed rows as a parameter and returns the table instead of printing it.
- `filterWith` in `src/hoffy.mjs:25-27`: its body is empty.
- SfMovies.Upper: only ASCII letters are upper-cased, one character for one; the Unicode case mapping of `toUpperCase` (where "ß" becomes "SS") is not modelled.
- Report.ReportActorCounts: follows the corrected `GetRecords`, so on an empty file it returns the empty table where the source's `actorCounts` throws (see Findings).
- SfMovies.ReleasedIn: the release year and the requested year are both strings compared with plain equality; JavaScript's loose `==` between a string cell and a number is not modelled.
- SfMovies.LongestFunFact: requires every film to have a `'Fun Facts'` column; the source throws a TypeError otherwise, which is not modelled.
- SfMovies.TitlesByYear: requires every film released in the year to have a `'Title'`; the source throws a TypeError otherwise, which is not modelled.
- SfMovies.ActorCounts: the accumulator is a map, not a plain object, so inherited property names such as `constructor` are not special.
- Report.RowToObject: the record is a map, not a plain object, so inherited property names are not special.
- Numbers are mathematical integers (`Num(int)`); JavaScript's floating-point numbers and their decimal rendering are not modelled.
- Drawing.Element.AddAttrs: takes the object's entries as a sequence in iteration order. JavaScript's rule that integer-like property names come first is left to the caller. The append-only-the-absent-names form is proved only for entries with distinct names, which is what an object gives.
- Drawing.Element.AddChild: like the source, it does not check for cycles, and nothing about the children's own state is part of the invariant.
- Hoffy.GetEvenParam: the JavaScript array is a local sequence of slots that the loop reassigns, not an `array` updated in place. Writing past the end has to grow it, which a fixed Dafny array cannot do.

## Findings

| source | as written | input that shows it | evidently intended | confidence | as-written member | corrected member |
|---|---|---|---|---|---|---|
| src/report.mjs:19-24 | for empty parsed input `getData` returns the object `{headers: [], rows: []}`, not a list of records, and the caller at line 45 hands it to `actorCounts`, which calls `.reduce` on it | an empty CSV file (`parsedData = []`) | an empty list of records, as for a file with only a header row, giving an empty actor table | medium, not executed | Report.EmptyInputIsNotRecordList | Report.GetRecords |
