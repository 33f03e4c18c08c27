# TiViCC catalog editor: a verified model of its controller logic

TiViCC is a desktop editor for delimited-text catalogs (price lists,
electrical and mechanical component tables). Its controller
`CCEditorController` wires a JavaFX table to a record library (`CSVRow` and
its variants) that is not part of this model. This project models the
controller's logic:

- the two integer cell converters: plain integers, and article numbers, where
  0 shows as empty text and every other number as `%05d`. The Java library
  calls they use (`Integer.parseInt`, `Integer.toString`,
  `String.format("%05d", n)`) are written out over digit strings and the
  32-bit `int` range (`JavaInt`, `Converters`);
- the quick-search rule: the first row, in table order, one of whose property
  values, lower-cased, contains the lower-cased query (`QuickSearch`);
- the column and add-field construction of `initialize`: one column and one
  add-field per String, Double or Integer property, in property order
  (`Columns`, `Editor.CatalogEditor.Initialize`);
- the handlers for add, open, save, close and search. They are a state
  machine over the table's rows, the process-wide "changed" flag, an
  "exited" flag standing for `System.exit`, the columns, the add-fields and
  the table selection (`Editor.CatalogEditor`). The text helpers they share
  (joining, parsing file lines, the saved lines) are in `CatalogText`.

The record library stays abstract. The editor receives it as functions fixed
at construction:
- `newInstance` stands for `getNewInstance`, with `None` for `null`;
- `rowText` stands for `CSVRow.toString`;
- `fieldTexts` stands for the `toString` of each value in `getProperties()`;
- `sampleProps` and `propWidth` stand for `getPropNames`, the runtime kind of
  each sample value, and `getPropWidth`;
- `separator` stands for `SEPARATOR`.

Dialog answers are Boolean inputs. A file is an input sequence of lines. A
save returns the lines it writes and whether the write succeeded.

Behaviour the code has and a reader might not expect, all modelled as written:
- Article-number parser. It calls `Integer.parseInt`, which rejects the
  empty text shown for article number 0, so that value cannot be re-entered
  unchanged (see Findings; the evident intent is that "" reads back as 0).
- Search text. The search reads the raw `toString` of each value, not the
  converter's display text, so article number 2 is found as "2" and not as
  "00002".
- Open. `handleOpen` appends the file's rows and never touches the changed
  flag, neither setting nor clearing it.
- Integer width. The converters are `StringConverter<Integer>`, so the range
  is Java's 32-bit `int`.

## Model

| member | source | states |
|---|---|---|
| JavaInt.ParseInt | src/main/java/de/tichawa/cis/editor/CCEditorController.java:122-125 | `Integer.parseInt` accepts only an optional sign followed by at least one digit; anything else, including empty text and a lone sign, is rejected |
| JavaInt.ParseIntValue | src/main/java/de/tichawa/cis/editor/CCEditorController.java:122-125 | every sign ("", "+", "-") followed by digits, leading zeros allowed, is accepted exactly when its value is inside the `int` range, and then parses to that value |
| JavaInt.ParseIntLeadingZeros | src/main/java/de/tichawa/cis/editor/CCEditorController.java:139-142 | zeros after the sign, and a plus sign, do not change the parsed value |
| JavaInt.ZeroBeforeSignRejected | src/main/java/de/tichawa/cis/editor/CCEditorController.java:139-142 | a zero before the minus sign makes the text no number |
| JavaInt.ParseIntExamples | src/main/java/de/tichawa/cis/editor/CCEditorController.java:139-142 | "+7" and "007" parse to 7 and "-0" to 0 |
| JavaInt.ParseIntRangeExamples | src/main/java/de/tichawa/cis/editor/CCEditorController.java:139-142 | "-2147483648" parses to the smallest int; "+2147483648" and "02147483648" are rejected as out of range |
| JavaInt.IntToString | src/main/java/de/tichawa/cis/editor/CCEditorController.java:144-148 | `Integer.toString` always yields canonical text: no plus sign, no leading zero, no "-0"; it starts with '-' exactly for negative numbers |
| JavaInt.Format05 | src/main/java/de/tichawa/cis/editor/CCEditorController.java:127-131 | `%05d` text is exactly 5 characters when the plain text is shorter and equals the plain `Integer.toString` text otherwise; it starts with '-' exactly for negative numbers |
| JavaInt.ParseIntToString | src/main/java/de/tichawa/cis/editor/CCEditorController.java:139-148 | parsing the plain text of n gives back n exactly when n is a 32-bit int; the text of any wider number is rejected as out of range |
| JavaInt.ParseIntCanonical | src/main/java/de/tichawa/cis/editor/CCEditorController.java:139-148 | on canonical text, `parseInt(s) == n` holds exactly when `toString(n) == s`, so the two conversions are inverse in both directions |
| JavaInt.Format05Parses | src/main/java/de/tichawa/cis/editor/CCEditorController.java:122-131 | the zero-padded `%05d` text of every int parses back to that int |
| Converters.RoundTrip | src/main/java/de/tichawa/cis/editor/CCEditorController.java:119-149 | for both converters, re-entering the displayed text gives back the value, except article number 0, whose empty text is rejected |
| Converters.ArtNoDisplay | src/main/java/de/tichawa/cis/editor/CCEditorController.java:127-131 | an article number displays as empty text exactly when it is 0; otherwise the text is zero-padded to width 5 and equals the plain text when that is already 5 or more characters long; a positive number shows digits only |
| Converters.ArtNoExamples | src/main/java/de/tichawa/cis/editor/CCEditorController.java:127-131 | 0 shows as "", 7 as "00007", -7 as "-0007" and 123456 unchanged; "00007" parses to 7 and "" is rejected |
| Converters.ParseRejects | src/main/java/de/tichawa/cis/editor/CCEditorController.java:139-142 | the parser rejects empty text, a lone sign, text with a non-digit after the first character, and any signed digit text, leading zeros included, whose value is outside the int range |
| Converters.ArtNoZeroRejected | src/main/java/de/tichawa/cis/editor/CCEditorController.java:122-131 | as written, the text displayed for article number 0 cannot be parsed back |
| Converters.IntendedRoundTrip | src/main/java/de/tichawa/cis/editor/CCEditorController.java:119-132 | with empty text read back as 0, every value of either converter survives display and re-entry |
| QuickSearch.Contains | src/main/java/de/tichawa/cis/editor/CCEditorController.java:280 | `String.contains` holds exactly when the query occurs at some position of the text |
| QuickSearch.FirstMatch | src/main/java/de/tichawa/cis/editor/CCEditorController.java:279-282 | the result is the index of a matching row such that no earlier row matches; it is None exactly when no row matches |
| QuickSearch.FirstMatchIsFirst | src/main/java/de/tichawa/cis/editor/CCEditorController.java:279-282 | conversely, any matching row preceded only by non-matching rows is the one found |
| QuickSearch.SearchIgnoresCase | src/main/java/de/tichawa/cis/editor/CCEditorController.java:280 | two queries that agree after lower-casing select the same row |
| QuickSearch.FirstMatchAppend | src/main/java/de/tichawa/cis/editor/CCEditorController.java:279-282 | appending rows never moves an existing hit; without one, the hit is the first match among the appended rows, offset by the old length |
| QuickSearch.EmptyQuerySelectsFirstNonEmptyRow | src/main/java/de/tichawa/cis/editor/CCEditorController.java:280-282 | the empty query selects the first row that has at least one property, and nothing if there is none |
| QuickSearch.SearchIgnoresLetterCase | src/main/java/de/tichawa/cis/editor/CCEditorController.java:280 | on the rows ("1", "Widget") and ("2", "Gadget") the query "GAD" selects the second row |
| QuickSearch.SearchFindsRawNumber | src/main/java/de/tichawa/cis/editor/CCEditorController.java:280 | on the same rows, the article number's raw text "2" selects the second row |
| QuickSearch.SearchMissesDisplayText | src/main/java/de/tichawa/cis/editor/CCEditorController.java:280 | the display text "00002" of article number 2 selects nothing, because the search reads raw values |
| Columns.ColumnsAppend | src/main/java/de/tichawa/cis/editor/CCEditorController.java:80-158 | the columns and add-fields built for a concatenation of property lists are those of each part, in order |
| Columns.ColumnsMatchFields | src/main/java/de/tichawa/cis/editor/CCEditorController.java:80-158 | columns and add-fields come in equal numbers, position by position with the same name (title and prompt) and the same minimum width |
| Columns.ColumnPosition | src/main/java/de/tichawa/cis/editor/CCEditorController.java:80-158 | a String, Double, Integer or article-number property yields the column and add-field at the position given by the number of columns before it; the column has the property's name, width and cell kind |
| Columns.ColumnOrder | src/main/java/de/tichawa/cis/editor/CCEditorController.java:80-158 | shown properties keep their relative order among the columns |
| Columns.ColumnSource | src/main/java/de/tichawa/cis/editor/CCEditorController.java:80-158 | every column comes from a shown property at the matching position, so there is exactly one column per shown property |
| Columns.OtherPropIgnored | src/main/java/de/tichawa/cis/editor/CCEditorController.java:80-158 | a property of any other kind contributes neither a column nor an add-field |
| CatalogText.SplitJoin | src/main/java/de/tichawa/cis/editor/CCEditorController.java:183-185 | texts joined with a one-character separator that none of them contains are recovered by cutting at the separator, in order |
| CatalogText.ParsedAppend | src/main/java/de/tichawa/cis/editor/CCEditorController.java:227-230 | the rows read from two consecutive blocks of lines are the rows of the first block followed by those of the second |
| CatalogText.ParsedRows | src/main/java/de/tichawa/cis/editor/CCEditorController.java:227-230 | at most one row per line, and a row is read exactly when some line parses into it |
| CatalogText.ParsedAllValid | src/main/java/de/tichawa/cis/editor/CCEditorController.java:227-230 | when every line parses, the rows are the lines' rows one for one, in line order |
| CatalogText.ReloadSaved | src/main/java/de/tichawa/cis/editor/CCEditorController.java:227-258 | when the header line does not parse as a row and every row reads back from its own text, opening the saved lines gives back exactly the saved rows |
| Editor.CatalogEditor.constructor | src/main/java/de/tichawa/cis/editor/CCEditorController.java:46-50 | the editor starts with an empty table, no columns, no selection, a clean flag and the given sample interface |
| Editor.CatalogEditor.Initialize | src/main/java/de/tichawa/cis/editor/CCEditorController.java:80-158 | the loop appends exactly the columns and add-fields the property list determines, keeping columns and add-fields aligned; nothing else changes |
| Editor.CatalogEditor.HandleAdd | src/main/java/de/tichawa/cis/editor/CCEditorController.java:181-195 | the add-field texts joined in field order with the separator either parse, in which case the row is appended at the end and the flag set, or nothing changes |
| Editor.CatalogEditor.HandleOpen | src/main/java/de/tichawa/cis/editor/CCEditorController.java:214-236 | the rows of the parseable lines are appended after the existing rows in line order; other lines are dropped; the flag and everything else are unchanged |
| Editor.CatalogEditor.HandleSave | src/main/java/de/tichawa/cis/editor/CCEditorController.java:239-266 | the output is the tab-joined header followed by one line per row in table order (length rows+1); the flag is cleared only when the write succeeds; rows are never modified |
| Editor.CatalogEditor.HandleClose | src/main/java/de/tichawa/cis/editor/CCEditorController.java:198-211 | an empty table exits; otherwise the table is emptied and the flag cleared unless the catalog is changed and the user declines, in which case nothing changes; the dialog is consulted only when the flag is set |
| Editor.CatalogEditor.HandleSearch | src/main/java/de/tichawa/cis/editor/CCEditorController.java:276-292 | the selection becomes the first matching row or none, independent of the previous selection; the red text (`notFound`) shows exactly when nothing is selected; rows and flag are unchanged |

## Left out

- `DoubleConverter` and the 340-digit `DecimalFormat` (CCEditorController.java lines 28, 55, 296-310) are left out: they are floating-point formatting. Double columns appear only as a `DoubleCell` kind.
- The width listener (lines 56-63) is left out: it is layout arithmetic on doubles.
- Menus, accelerators, alert and dialog display, icons, the red text style and `scrollTo` are left out as presentation. Dialog answers are Boolean inputs; the alert of `handleAdd` is the `accepted` output; the red style is the `notFound` output.
- `FileChooser` and `lastFile` are left out. A cancelled chooser is `fileChosen == false` or `file == None`. That `lastFile` becomes `null` after a cancel is not modelled.
- `Files.lines` and `Files.write` are file I/O. The file's contents are an input sequence of lines; the write is the returned lines plus a success bit. Line terminators are not modelled.
- Editor.CatalogEditor.HandleOpen: a read error in the middle of a file (an `UncheckedIOException` escaping the stream after some rows were added) is not modelled; the model appends the rows of all lines it is given or, for `None`, none.
- `getNewInstance`, `CSVRow.toString`, `getProperties`, `getPropNames`, `getPropWidth`, `SEPARATOR` and the `PriceRow`, `ElectRow` and `MechaRow` schemas belong to a library that is not part of this model. They are fixed functions of the editor. Whether that library changes the changed flag by itself, for example when a cell is edited, is not visible here.
- Sorting by a column header and reordering columns by dragging are not modelled. JavaFX's `TableView` does both in place: sorting reorders `items`, which changes what `HandleSave` writes and which row `HandleSearch` finds first; dragging reorders `columns`, so the saved header no longer follows `CSVRow.toString`'s field order. In the model, `items` and `columns` change only through the handlers.
- Cell editing is done by JavaFX's `TextFieldTableCell`, which commits into the row's property. It is not modelled beyond the converters.
- Editor.CatalogEditor.Initialize: `getAddFields` keeps only the `TextField` children of the add box. Any other children the layout file puts there are not modelled, so `addFields` holds the text fields only.
- `getTable` and `getWindow` are plain accessors and are not modelled.
- A `null` property value crashes the search with a `NullPointerException`. The model assumes every value has a text (`fieldTexts` is total).
- Editor.CatalogEditor.HandleSearch: JavaFX selects a row by object, the model by index of the first match. The two agree when no row object is in the table twice.
- JavaInt.ParseInt: only ASCII digits are accepted, whereas Java's `parseInt` also accepts other Unicode decimal digits.
- JavaInt.Format05: assumes a formatting locale whose zero digit is '0'. Java's formatter would use another locale's own digits.
- QuickSearch.FirstMatch: lower-casing is ASCII only. Java's `toLowerCase` also maps non-ASCII letters and depends on the default locale.
- `System.exit` is modelled only by the `exited` flag. No handler may be called afterwards.
- Editor.CatalogEditor.HandleClose: clearing the rows also clears the table's selection. This is JavaFX behaviour, and the model states it.
- TiViCCEditor.java is left out. Its mode switch (lines 22-43) picks the sample row. Its window-close veto (lines 47-58) is dialog wiring and adds no logic beyond `HandleClose`.

## Findings

| source | as written | input that shows it | evidently intended | confidence | as-written member | corrected member |
|---|---|---|---|---|---|---|
| src/main/java/de/tichawa/cis/editor/CCEditorController.java:122-131 | the article-number converter shows 0 as "" but parses with `Integer.parseInt`, which rejects "" | start editing a cell whose article number is 0; the editor holds ""; committing it unchanged throws `NumberFormatException` | "" reads back as 0, so display and re-entry are inverse for every value | not executed; medium | Converters.ArtNoZeroRejected | Converters.IntendedRoundTrip |
