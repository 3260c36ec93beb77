# Mathematica plot window and history store, in Dafny

Mathematica is a desktop graphing tool. A user types an equation in `x` into
a search bar, or uploads an image whose text is read by OCR. The window then
turns the text into a plottable expression: it strips a leading `y =` in any
case and trims the rest. The grapher samples the expression on
`x = -10, -9.9, ..., 10` and keeps only the finite values. The window shows
the chart or a placeholder and reports the outcome in a message dialog. When the
store is connected, every non-empty search and every upload is recorded in a
MySQL `HISTORY` table, and the history view shows that table ordered by
creation time. A button deletes history older than 15 days.

The model has seven modules:

- `JavaStrings` (strings.dfy): the `java.lang.String` operations the gates
  use. These are `trim`, `toLowerCase`, `startsWith`, `endsWith` and
  `equalsIgnoreCase`.
- `Grapher` (grapher.dfy): `JFreeChartGrapher.createChartPanelForEquation`
  and its sampling loop. The expression library is a function the caller
  supplies.
- `Table` (table.dfy): what the two stores share. That is the connection
  probe, the table model, the failures a query can meet, and the meaning of
  `ORDER BY Created` and `DELETE ... WHERE Created < ?` over rows kept in
  insertion order.
- `HistoryDataBase` (database.dfy): the class `DataBase`, which the window
  uses.
- `HistoryCrud` (crud.dfy): the class `CRUD`, the same store with a
  `Graph_Plotted` column.
- `PlotWindow` (window.dfy): the gates in front of the grapher, the image
  file filter, and the class `Window` with its plot, search, upload, load and
  delete flows.
- `Wrappers` (wrappers.dfy): `Option`.

Objects whose fields the source updates are classes: `DataBase`, `CRUD` and
`Window`. The grapher, the gates and the SQL semantics are functions.
Inputs from outside the process are parameters:

- the OCR result;
- the file the chooser returns;
- the server clock that fills `Created`;
- `LocalDateTime.now()`;
- whether a statement fails;
- where a query fails;
- the user's answer to the confirmation dialog.

## Model

| member | source | states |
|---|---|---|
| JavaStrings.TrimStartSpec | Window.java:553 | the leading part `trim` drops is white space (code at most U+0020); what remains is a suffix that does not start with white space |
| JavaStrings.TrimEndSpec | Window.java:553 | the trailing part `trim` drops is white space; what remains is a prefix that does not end with white space |
| JavaStrings.Trim | Window.java:553 | neither end of the result is white space, it is no longer than the input, and a string already without white space at its ends is returned unchanged |
| JavaStrings.TrimStartPad | Window.java:553 | the string is the white space TrimStart dropped followed by its result |
| JavaStrings.TrimEndPad | Window.java:553 | the string is TrimEnd's result followed by the white space it dropped |
| JavaStrings.TrimSlices | Window.java:575 | every string is its trimmed form with white space only in front and behind |
| JavaStrings.TrimEmpty | Window.java:575-576 | the trimmed query is empty exactly when the query is all white space |
| JavaStrings.TrimStartSkips | Window.java:630 | leading white space in front of a non-space character is removed exactly |
| JavaStrings.TrimEndSkips | Window.java:630 | trailing white space after a non-space character is removed exactly |
| JavaStrings.TrimPadded | Window.java:630 | trimming white space wrapped around a trimmed, non-empty string gives that string back |
| JavaStrings.TrimIdempotent | Window.java:553 | a general property of `String.trim`, the operation used here: trimming an already trimmed text changes nothing |
| JavaStrings.Lower | Window.java:609 | `toLowerCase` keeps the length and lower-cases each character |
| JavaStrings.LowerAppend | Window.java:609 | lower-casing a name lower-cases its stem and its extension separately |
| JavaStrings.StartsWith | Window.java:557 | `startsWith` holds exactly when the prefix is no longer than the string and its opening slice equals it |
| JavaStrings.EndsWith | Window.java:609-611 | `endsWith` implies the string is some front followed by the suffix |
| JavaStrings.EqualsIgnoreCase | Window.java:556-558 | `equalsIgnoreCase` holds for equal strings and only between strings of equal length; it compares characters up to ASCII case |
| JavaStrings.EqualsIgnoreCaseLower | Window.java:556-558 | `equalsIgnoreCase` holds exactly when the lower-cased strings are equal |
| PlotWindow.StripYPrefix | Window.java:471-473 | the equation is changed only when its lower-cased form starts with `y =`; the result is then trimmed and never longer |
| PlotWindow.StripYPrefixAnyCase | Window.java:471-473 | `y =` and `Y =` are both removed, and what follows is trimmed |
| PlotWindow.StripYPrefixNeedsSpace | Window.java:471 | `y=` without the space is not recognised and the equation passes unchanged |
| PlotWindow.ExtractedTextPlottable | Window.java:553-558 | the editor gate: the trimmed text is non-empty, not the placeholder in any case, does not start with `Error extracting text:` and is not `File::Error` in any case; in particular the placeholder and the sentinel themselves never pass |
| PlotWindow.UploadTextPlottable | Window.java:630 | the upload gate: the trimmed OCR text is non-empty and not `File::Error` in any case; so neither the empty text nor the sentinel passes |
| PlotWindow.FileErrorNeverPlotted | Window.java:553-558 | the OCR sentinel `File::Error`, in any case and with any surrounding white space, passes neither the editor gate nor the upload gate |
| PlotWindow.EditorGateStricterThanUpload | Window.java:555-558 | whatever the editor gate admits the upload gate admits; the placeholder text passes the upload gate but not the editor gate |
| PlotWindow.ErrorPrefixIsCaseSensitive | Window.java:557 | the check refusing text that starts with `Error extracting text:` is case-sensitive: the same text in lower case passes it, the original does not. No code in this program generates that prefix; it reaches the check only as text the OCR read from an image or text typed into the editable area |
| PlotWindow.AcceptsImage | Window.java:607-612 | `FileFilter.accept`: directories are accepted; a file is accepted when its lower-cased name ends with one of the six image extensions, so its name has at least four characters |
| PlotWindow.AcceptsListedExtension | Window.java:607-612 | a file name ending with any of the six image extensions, in any case, is accepted |
| PlotWindow.AcceptedHasExtension | Window.java:607-612 | an accepted file name ends, once lower-cased, with one of the six extensions |
| PlotWindow.AcceptsImageExtensions | Window.java:607-612 | a file is accepted exactly when its lower-cased name ends with one of `.jpg .jpeg .png .gif .bmp .webp` |
| PlotWindow.AcceptsAnyCase | Window.java:607-612 | a stem followed by an image extension in any case is accepted, and directories always are |
| PlotWindow.EmptySeriesStillPlots | Window.java:476-481 | an expression that compiles but is nowhere finite still yields a chart, titled after the query, with an empty series |
| PlotWindow.WidthGuardAsWrittenOverruns | Window.java:659-664 | the width guard as written admits the three-column history model, which has no column 3 |
| PlotWindow.WidthsFor | Window.java:659-664 | corrected: preferred widths are set for existing columns only, as a prefix of 80, 180, 400, 150, and all four when there are four columns |
| PlotWindow.Window.constructor | Window.java:77-110 | a failed connection is reported with a `Connection Error` dialog; the history view then holds the store's ordered listing with the widths of its existing columns, or the empty model and the default widths when not connected (width guard corrected; see ## Findings) |
| PlotWindow.Window.LoadHistoryData | Window.java:653-681 | a connected store's model is shown with the widths of its existing columns; otherwise an empty model is shown (width guard corrected; see ## Findings) |
| PlotWindow.Window.AttemptPlotEquation | Window.java:465-501 | the chart of the prefix-stripped equation, titled `Plot of` and the query, is shown with a `Plot Success` dialog; when there is none, the placeholder is shown with a `Plotting Error` warning; the result says which |
| PlotWindow.Window.PlotExtractedText | Window.java:552-568 | the trimmed text area is plotted when it passes the four checks; otherwise a `Plotting Error` warning and the placeholder |
| PlotWindow.Window.PerformSearch | Window.java:574-594 | an empty query only warns. With a connected store the query is plotted, recorded as a text query, listed in the reloaded history with the widths of its existing columns, and the text area and search bar are reset. Without one, an `Error` dialog, the placeholder and a cleared search bar, with nothing recorded and the history view and its widths unchanged (width guard corrected; see ## Findings) |
| PlotWindow.Window.DeleteOldHistory | Window.java:423-442 | with a connected store and confirmation, rows created more than 15 days ago are deleted and the reloaded view, with the widths of its existing columns, reflects it; without confirmation nothing changes, widths included; without a store only an `Error` dialog (width guard corrected; see ## Findings) |
| PlotWindow.Window.OpenFileChooser | Window.java:601-647 | a cancelled dialog changes nothing, widths included. Otherwise the OCR text fills the text area and is plotted trimmed when it passes the upload gate. The path and the untrimmed text are then recorded and the view reloaded with the widths of its existing columns, or a warning says they were not saved and the view and widths are unchanged (width guard corrected; see ## Findings) |
| Grapher.Kept | Window.java:707-714 | the series: the points of the first n grid positions at which the expression is finite, in grid order, never more than n of them |
| Grapher.ChartFor | Window.java:697-760 | the panel: none when the equation does not compile or some grid position escapes the handler; otherwise a chart titled `title`, keyed `y = ` and the equation, with at most 201 points |
| Grapher.KeptSound | Window.java:707-714 | every plotted point lies on a sampled grid position and carries the finite value the expression has there |
| Grapher.KeptComplete | Window.java:707-714 | a grid position is plotted exactly when the expression is finite there, with that value |
| Grapher.KeptIncreasing | Window.java:707-714 | plotted x values strictly increase |
| Grapher.KeptAtMostOnePerPosition | Window.java:707-714 | no two plotted points share an x value, so there is at most one per grid position and no more points than positions |
| Grapher.NowhereFiniteKeepsNothing | Window.java:707-721 | when no grid position is finite the series is empty |
| Grapher.SquareKeepsGridPoints | Window.java:707-714 | on the exact grid `-10 + i/10`, sampling `y = x^2` plots (0, 0) and (2, 4) |
| Grapher.SquareStaysOnParabola | Window.java:707-714 | every point plotted for `y = x^2` lies on the parabola |
| Grapher.SampleSeries | Window.java:707-721 | the loop from -10 in steps of 0.1 while x <= 10 returns the finite points of all 201 grid positions in order, or stops when an evaluation throws anything but IllegalArgumentException |
| Grapher.CreateChartPanelForEquation | Window.java:697-760 | null when the equation does not compile or an evaluation escapes the per-point handler; otherwise a chart with the given title and series key `y = ` followed by the equation |
| Table.Cutoff | DataBase.java:123-124 | the cutoff lies `days` whole days before now, and not after now for a non-negative count |
| Table.InsertByKey | DataBase.java:80 | inserting into a sorted sequence keeps it sorted and adds exactly the new element |
| Table.OrderBy | DataBase.java:80 | `ORDER BY Created` yields a sorted permutation of the table |
| Table.OrderByMembers | DataBase.java:80 | ordering keeps the same rows, as many as there were |
| Table.Older | DataBase.java:126 | the rows `WHERE Created < ?` selects all lie before the cutoff |
| Table.Retained | DataBase.java:126 | the rows a deletion leaves all lie at or after the cutoff |
| Table.RetentionSplits | DataBase.java:126-129 | every row is either deleted or kept, never both and never lost; the deleted count plus the kept count is the table size |
| Table.RetainedMembers | DataBase.java:126-129 | a row survives exactly when it was created at or after the cutoff |
| Table.RetentionIdempotent | DataBase.java:126-129 | a second deletion with the same cutoff removes nothing |
| Table.RetentionKeepsRecent | DataBase.java:126-129 | when every row is recent nothing is deleted |
| Table.RetentionClearsOlder | DataBase.java:126-129 | when every row is older than the cutoff, everything is deleted |
| Table.RetentionMonotone | DataBase.java:123-129 | keeping fewer days deletes at least as many rows |
| HistoryDataBase.Listing | DataBase.java:94-105 | one listed row per result row, in order, each as (FilePath, Question, Created) |
| HistoryDataBase.Select | DataBase.java:80-105 | what a live connection's read shows: the empty model when the query fails, otherwise the three columns and the listing of the rows ordered by Created, cut where fetching fails; never more rows than the table |
| HistoryDataBase.ListingMembers | DataBase.java:94-105 | the listing shows every row and nothing else |
| HistoryDataBase.ListingOrdered | DataBase.java:94-105 | rows sorted by Created are listed with non-decreasing Created cells |
| HistoryDataBase.ListingAppend | DataBase.java:94-105 | reading one more row appends its cells |
| HistoryDataBase.SelectListsTable | DataBase.java:80-105 | a read from a live connection has columns FilePath, Question, Created, one row per table row: each table row is listed exactly as often as the table holds it, nothing else is listed, and the rows are ordered by Created |
| HistoryDataBase.ListingInsert | DataBase.java:80-105 | inserting a row by Created adds its cells to the listing exactly once |
| HistoryDataBase.ListingOrderBy | DataBase.java:80-105 | listing the rows in `ORDER BY Created` order lists each row as often as listing them in table order |
| HistoryDataBase.CreateThenList | DataBase.java:45-105 | a row inserted through a live connection appears in the next read |
| HistoryDataBase.PartialReadIsPrefix | DataBase.java:94-109 | a read whose fetch fails part way shows a prefix of the full read |
| HistoryDataBase.DeletionLeavesRecent | DataBase.java:116-136 | after a deletion the next read shows only rows created at or after the cutoff |
| HistoryDataBase.DataBase.constructor | DataBase.java:20-31 | the store starts with or without a connection, over the stored table |
| HistoryDataBase.DataBase.IsConnected | DataBase.java:34-41 | connected exactly when a connection exists and its probe answers true; a probe that throws counts as not connected |
| HistoryDataBase.DataBase.CreateData | DataBase.java:45-66 | when connected and the insert succeeds, exactly one row (path, question, server time) is appended; otherwise the table is unchanged |
| HistoryDataBase.DataBase.GetHistoryTableModel | DataBase.java:70-111 | the empty model when not connected or the query fails; otherwise the ordered listing, cut short where fetching fails |
| HistoryDataBase.DataBase.Delete | DataBase.java:116-136 | without a connection handle the call fails with a null reference; a storage error returns 0; otherwise exactly the rows older than the cutoff are removed and counted |
| HistoryDataBase.ReadColumnNames | DataBase.java:85-90 | the metadata loop collects the three column names in order |
| HistoryDataBase.ReadRow | DataBase.java:95-103 | the column loop builds the row's cells |
| HistoryDataBase.FetchRows | DataBase.java:94-109 | the result loop lists every row, or the rows read before `next` throws |
| HistoryCrud.Listing | CRUD.java:84-96 | one listed row per result row, in order, each as (FilePath, Question, Graph_Plotted, Created) |
| HistoryCrud.Select | CRUD.java:70-96 | what a live connection's read shows: the empty model when the query fails, otherwise the four columns and the listing of the rows ordered by Created, cut where fetching fails; never more rows than the table |
| HistoryCrud.ListingMembers | CRUD.java:84-96 | the listing shows every row and nothing else |
| HistoryCrud.ListingOrdered | CRUD.java:84-96 | rows sorted by Created are listed with non-decreasing Created cells |
| HistoryCrud.ListingAppend | CRUD.java:84-96 | reading one more row appends its cells |
| HistoryCrud.SelectListsTable | CRUD.java:70-96 | a read from a live connection has the four columns, one row per table row: each table row is listed exactly as often as the table holds it, nothing else is listed, and the rows are ordered by Created |
| HistoryCrud.ListingInsert | CRUD.java:70-96 | inserting a row by Created adds its cells to the listing exactly once |
| HistoryCrud.ListingOrderBy | CRUD.java:70-96 | listing the rows in `ORDER BY Created` order lists each row as often as listing them in table order |
| HistoryCrud.CreateThenList | CRUD.java:37-96 | a row inserted through a live connection appears in the next read |
| HistoryCrud.PartialReadIsPrefix | CRUD.java:84-100 | a read whose fetch fails part way shows a prefix of the full read |
| HistoryCrud.Crud.constructor | CRUD.java:15-26 | the store starts with or without a connection, over the stored table |
| HistoryCrud.Crud.IsConnected | CRUD.java:28-35 | connected exactly when a connection exists and its probe answers true |
| HistoryCrud.Crud.CreateData | CRUD.java:37-58 | when connected and the insert succeeds, exactly one row (path, question, plotted flag, server time) is appended; otherwise the table is unchanged |
| HistoryCrud.Crud.GetHistoryTableModel | CRUD.java:60-102 | the empty model when not connected or the query fails; otherwise the ordered listing, cut short where fetching fails |
| HistoryCrud.Crud.Delete | CRUD.java:104-122 | without a connection handle the call fails with a null reference; a storage error returns 0; otherwise exactly the rows older than the cutoff are removed and counted |
| HistoryCrud.ReadColumnNames | CRUD.java:75-80 | the metadata loop collects the four column names in order |
| HistoryCrud.ReadRow | CRUD.java:85-94 | the column loop builds the row's cells |
| HistoryCrud.FetchRows | CRUD.java:84-100 | the result loop lists every row, or the rows read before `next` throws |

## Where the code differs from what one might expect

The model follows the code in each of these cases:

- **Empty series.** One might expect a "no finite points" failure. The
  code has none: an expression that compiles and runs but is finite nowhere
  still shows a chart with an empty series (`EmptySeriesStillPlots`).
- **Escaping exceptions.** One might expect a failing sample point only to
  be skipped. The per-point handler catches only `IllegalArgumentException`.
  Any other exception, such as the `ArithmeticException` exp4j raises for a
  division by zero, ends the whole plot with a null panel. `Evaluation.Aborts`
  models it.
- **Delete without a connection.** One might expect an unavailable store to
  make `Delete` a no-op returning 0. The code only logs the failed check. With no
  connection handle, `prepareStatement` is then called on null and the
  `NullPointerException` escapes. That is `DeleteOutcome.NullConnection`.
  With a handle whose probe fails, the delete is still attempted.
- **Trimming.** `attemptPlotEquation` does not trim its input before the
  `y =` check. Its callers trim.
- **`pubic`.** `DataBase.java:34` declares `isConnected` with the misspelled
  modifier `pubic`. The model reads it as `public`.

## Left out

- Floating point: the grid is exact decimals `-10 + i/10`. The source
  accumulates `x += 0.1` in doubles, so its x values are inexact.
- The expression library (exp4j): compiling is a caller-supplied function
  from text to an optional evaluator. Its grammar and arithmetic are not
  modelled.
- JFreeChart rendering, colours, axis labels, legend and the chart panel:
  a chart is its title, series key and points.
- Message texts: a dialog is its message type and title.
- Swing layout, icons, hover effects, table renderers, and the file filter's
  description string.
- The OCR (`TextExtract.java`) is not part of this model. Its result is the
  `ocrText` parameter.
- `MathematicaWindow.java` is not part of this model.
- JDBC plumbing: SQL text, prepared statements and the `rowsCreated` log.
  Timestamp formatting is also out: a `Stamp` cell holds the time value.
  The server clock and `LocalDateTime.now()` are parameters.
- `DataBase.Delete` and `CRUD.Delete` send `DELETE * FROM HISTORY ...`,
  which MySQL's grammar does not accept. The model gives the statement its
  evident meaning. The `fails` parameter covers a server that rejects it,
  returning 0.
- `isValid(2)` and its two-second timeout are the `probe` field.
- Connection loss during a flow: the probe's answer is fixed for the store's
  lifetime, so every `isConnected()` call in one flow gives the same answer.
  The source probes again at each call: `performSearch` checks at
  Window.java:577, again in `createData`, in `loadHistoryData` and in
  `getHistoryTableModel`. A connection that fails between two of those
  checks is not modelled. In the source it shows the "saved" message while
  saving nothing, then an empty history.
- Order among rows with equal `Created`: SQL leaves it unspecified. The model
  makes a choice: `Table.InsertByKey` puts a row after those with an equal
  key, so `OrderBy` lists such rows in reverse table order. The prefix a
  failing fetch keeps (`FetchFailsAfter`) depends on that choice.
- JavaStrings.Lower: case mapping covers the ASCII letters only. Java's
  locale- and Unicode-aware `toLowerCase` and `equalsIgnoreCase` are not
  modelled.
- `attemptPlotEquation`'s `catch (Exception)` branch is not modelled: the
  grapher already catches every `Exception`. JVM `Error`s are not modelled.
- Concurrency: Swing runs everything on its event thread.
- `CRUD` is not used by the window. It is modelled as a standalone store.

## Findings

| source | as written | input that shows it | evidently intended | confidence | as-written member | corrected member |
|---|---|---|---|---|---|---|
| Window.java:659-664 | `if (model.getColumnCount() >= 3)` then sets the preferred widths of columns 0, 1, 2 and 3 | the model `DataBase.getHistoryTableModel` returns on a live connection, which has the three columns FilePath, Question and Created: `getColumn(3)` throws `ArrayIndexOutOfBoundsException`. In `performSearch` this skips resetting the text area and clearing the search bar; in the constructor it aborts the window's construction | set a width only for a column the model has | not executed | PlotWindow.WidthGuardAsWrittenOverruns | PlotWindow.WidthsFor |
