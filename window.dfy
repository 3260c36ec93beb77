/**
  The plot request pipeline of the main window: the text gates in front of
  the grapher, the `y =` prefix handling, the search and image-upload flows
  that plot a query and record it in the history store, and the image file
  filter. Dialogs are recorded by their message type and title; the graph
  area either shows a chart or the placeholder.
 */
module PlotWindow {
  import opened Wrappers
  import opened JavaStrings
  import opened Grapher
  import opened Table
  import HistoryDataBase

  /** The text area's initial and reset contents. */
  const PlaceholderText := "Extracted text from images will appear here. You can edit it before plotting."

  /** A prefix the editor gate refuses; no code in this program generates it. */
  const ExtractErrorPrefix := "Error extracting text:"

  /** What the OCR returns for a file that does not exist. */
  const FileError := "File::Error"

  /** The FilePath recorded for a typed query. */
  const TextQuerySource := "N/A (text query)"

  /** How many days of history the delete button keeps. */
  const HistoryDays := 15

  const ImageExtensions: seq<string> := [".jpg", ".jpeg", ".png", ".gif", ".bmp", ".webp"]

  // ---------------------------------------------------------------- gates

  /**
    attemptPlotEquation's normalisation: when the lower-cased equation starts
    with "y =", everything after those three characters, trimmed; otherwise
    the equation itself.
   */
  function StripYPrefix(equation: string): (r: string)
    ensures |r| <= |equation|
    ensures r != equation ==> StartsWith(Lower(equation), "y =") && IsTrimmed(r)
  {
    if StartsWith(Lower(equation), "y =") then Trim(equation[3..]) else equation
  }

  /** The prefix is recognised in either case, and what follows it is trimmed. */
  lemma StripYPrefixAnyCase(y: char, rest: string)
    requires y == 'y' || y == 'Y'
    ensures StripYPrefix([y, ' ', '='] + rest) == Trim(rest)
  {
    var equation := [y, ' ', '='] + rest;
    var lower := Lower(equation);
    assert lower[0] == 'y' && lower[1] == ' ' && lower[2] == '=';
    assert "y =" <= lower;
    assert equation[3..] == rest;
  }

  /** Without the space, "y=" is not a prefix the handler knows, and the equation goes to the grapher unchanged. */
  lemma StripYPrefixNeedsSpace(rest: string)
    ensures StripYPrefix("y=" + rest) == "y=" + rest
  {
    assert Lower("y=" + rest)[1] == '=';
  }

  /** plotExtractedText's check of the trimmed text area. */
  predicate ExtractedTextPlottable(text: string): (plottable: bool)
    ensures plottable ==> text != PlaceholderText && text != FileError
  {
    && text != []
    && !EqualsIgnoreCase(text, PlaceholderText)
    && !StartsWith(text, ExtractErrorPrefix)
    && !EqualsIgnoreCase(text, FileError)
  }

  /** openFileChooser's check of the trimmed OCR result. */
  predicate UploadTextPlottable(text: string): (plottable: bool)
    ensures plottable ==> text != [] && text != FileError
  {
    text != [] && !EqualsIgnoreCase(text, FileError)
  }

  /** The sentinel of a missing file is never plotted, in any case and with any surrounding white space. */
  lemma FileErrorNeverPlotted(front: string, sentinel: string, back: string)
    requires AllSpace(front) && AllSpace(back) && EqualsIgnoreCase(sentinel, FileError)
    ensures !UploadTextPlottable(Trim(front + sentinel + back))
    ensures !ExtractedTextPlottable(Trim(front + sentinel + back))
  {
    assert sentinel != [] && IsTrimmed(sentinel) by {
      assert LowerChar(sentinel[0]) == LowerChar(FileError[0]);
      assert LowerChar(sentinel[10]) == LowerChar(FileError[10]);
    }
    TrimPadded(front, sentinel, back);
  }

  /**
    The editor's gate is strictly stronger than the upload's: the placeholder
    passes the upload check but is refused by the editor's.
   */
  lemma EditorGateStricterThanUpload(text: string)
    ensures ExtractedTextPlottable(text) ==> UploadTextPlottable(text)
    ensures UploadTextPlottable(PlaceholderText) && !ExtractedTextPlottable(PlaceholderText)
  {
    assert |Lower(PlaceholderText)| != |Lower(FileError)|;
  }

  /** The error-message check is case-sensitive, unlike the other two. */
  lemma ErrorPrefixIsCaseSensitive()
    ensures ExtractedTextPlottable("error extracting text: x")
    ensures !ExtractedTextPlottable("Error extracting text: x")
  {
    assert |Lower("error extracting text: x")| != |Lower(PlaceholderText)|;
    assert |Lower("error extracting text: x")| != |Lower(FileError)|;
    assert "error extracting text: x"[0] != ExtractErrorPrefix[0];
    assert ExtractErrorPrefix <= "Error extracting text: x";
  }

  /** The file chooser's FileFilter.accept. */
  predicate AcceptsImage(isDirectory: bool, name: string): (accepted: bool)
    ensures accepted && !isDirectory ==> 4 <= |name|
  {
    if isDirectory then true
    else
      var lower := Lower(name);
      EndsWith(lower, ".jpg") || EndsWith(lower, ".jpeg") || EndsWith(lower, ".png") ||
      EndsWith(lower, ".gif") || EndsWith(lower, ".bmp") || EndsWith(lower, ".webp")
  }

  /** A name ending with the k-th image extension, in any case, is accepted. */
  lemma AcceptsListedExtension(name: string, k: int)
    requires 0 <= k < |ImageExtensions| && EndsWith(Lower(name), ImageExtensions[k])
    ensures AcceptsImage(false, name)
  {
    assert ImageExtensions[k] in ImageExtensions;
  }

  /** An accepted file name ends, once lower-cased, with one of the image extensions. */
  lemma AcceptedHasExtension(name: string)
    requires AcceptsImage(false, name)
    ensures exists k :: 0 <= k < |ImageExtensions| && EndsWith(Lower(name), ImageExtensions[k])
  {
    var lower := Lower(name);
    assert EndsWith(lower, ImageExtensions[0]) || EndsWith(lower, ImageExtensions[1]) ||
      EndsWith(lower, ImageExtensions[2]) || EndsWith(lower, ImageExtensions[3]) ||
      EndsWith(lower, ImageExtensions[4]) || EndsWith(lower, ImageExtensions[5]);
  }

  /** A file is accepted exactly when its lower-cased name ends with one of the image extensions. */
  lemma AcceptsImageExtensions(name: string)
    ensures AcceptsImage(false, name) <==>
      exists k :: 0 <= k < |ImageExtensions| && EndsWith(Lower(name), ImageExtensions[k])
  {
    forall k | 0 <= k < |ImageExtensions| && EndsWith(Lower(name), ImageExtensions[k])
      ensures AcceptsImage(false, name)
    {
      AcceptsListedExtension(name, k);
    }
    if AcceptsImage(false, name) {
      AcceptedHasExtension(name);
    }
  }

  /** Any name made of a stem and an image extension in any case is accepted; directories always are. */
  lemma AcceptsAnyCase(stem: string, ext: string)
    requires Lower(ext) in ImageExtensions
    ensures AcceptsImage(false, stem + ext)
    ensures AcceptsImage(true, stem + ext)
  {
    LowerAppend(stem, ext);
    AcceptsImageExtensions(stem + ext);
    var lower := Lower(stem + ext);
    assert lower[|lower| - |ext|..] == Lower(ext);
  }

  // ------------------------------------------------- the plot of one request

  /** The panel attemptPlotEquation asks the grapher for. */
  ghost function PlotChart(compile: string -> Option<Compiled>, equationToParse: string, originalQuery: string): Option<Chart> {
    ChartFor(compile, StripYPrefix(equationToParse), "Plot of " + originalQuery)
  }

  /** An expression that compiles and runs but is finite nowhere still counts as plotted, with an empty series. */
  lemma EmptySeriesStillPlots(compile: string -> Option<Compiled>, equationToParse: string, originalQuery: string)
    requires compile(StripYPrefix(equationToParse)).Some?
    requires forall i :: 0 <= i < GridCount ==>
      compile(StripYPrefix(equationToParse)).value(GridX(i)) in {NonFinite, Rejected}
    ensures PlotChart(compile, equationToParse, originalQuery) ==
      Some(Chart("Plot of " + originalQuery, "y = " + StripYPrefix(equationToParse), []))
  {
    NowhereFiniteKeepsNothing(compile(StripYPrefix(equationToParse)).value, GridCount);
  }

  // ------------------------------------------------------- the column widths

  /** The preferred widths loadHistoryData gives columns 0, 1, 2 and 3. */
  const PreferredWidths: seq<int> := [80, 180, 400, 150]

  /** loadHistoryData sets the widths of columns 0 to 3 under this guard, as written. */
  predicate WidthGuardAsWritten(columnCount: int) {
    columnCount >= 3
  }

  /** The guard as written admits the history view of the store the window uses, which has no column 3. */
  lemma WidthGuardAsWrittenOverruns(rows: seq<HistoryDataBase.Row>)
    ensures var columns := HistoryDataBase.Select(rows, NoFault).columns;
      WidthGuardAsWritten(|columns|) && !(|PreferredWidths| - 1 < |columns|)
  {
  }

  /**
    The corrected width setting: column k gets its preferred width when the
    model has a column k, so no width addresses a missing column.
   */
  function WidthsFor(columnCount: nat): (widths: seq<int>)
    ensures widths <= PreferredWidths
    ensures |widths| <= columnCount
    ensures columnCount < |PreferredWidths| ==> |widths| == columnCount
    ensures columnCount >= |PreferredWidths| ==> widths == PreferredWidths
  {
    if columnCount < |PreferredWidths| then PreferredWidths[..columnCount] else PreferredWidths
  }

  // ---------------------------------------------------------------- the window

  datatype GraphDisplay = PlaceholderGraph | Showing(chart: Chart)

  /** The JOptionPane message types the flows use. */
  datatype Severity = Information | Warning | Failure

  datatype Dialog = Dialog(severity: Severity, title: string)

  /** What the graph area shows after a plot attempt. */
  function Shown(chart: Option<Chart>): GraphDisplay {
    if chart.Some? then Showing(chart.value) else PlaceholderGraph
  }

  /** The dialog a plot attempt ends with. */
  function PlotDialog(chart: Option<Chart>): Dialog {
    if chart.Some? then Dialog(Information, "Plot Success") else Dialog(Warning, "Plotting Error")
  }

  class Window {
    var searchBar: string
    var extractedText: string
    var display: GraphDisplay
    var historyView: TableModel
    var columnWidths: seq<int>  // preferred widths set on the history table, [] for the defaults
    var dialogs: seq<Dialog>    // every message dialog shown, in order
    const crudManager: HistoryDataBase.DataBase
    const compile: string -> Option<Compiled>  // ExpressionBuilder(...).variables("x").build()

    /** The constructor: reports a failed connection, then loads the history. */
    constructor (store: HistoryDataBase.DataBase, builder: string -> Option<Compiled>, fault: QueryFault)
      ensures crudManager == store && compile == builder
      ensures searchBar == [] && extractedText == PlaceholderText && display == PlaceholderGraph
      ensures dialogs == if store.IsConnected() then [] else [Dialog(Failure, "Connection Error")]
      ensures store.IsConnected() ==> historyView == HistoryDataBase.Select(store.rows, fault)
      ensures !store.IsConnected() ==> historyView == EmptyModel
      ensures columnWidths == if store.IsConnected() then WidthsFor(|historyView.columns|) else []
    {
      crudManager, compile := store, builder;
      dialogs := if store.IsConnected() then [] else [Dialog(Failure, "Connection Error")];
      searchBar, extractedText, display := [], PlaceholderText, PlaceholderGraph;
      historyView, columnWidths := EmptyModel, [];
      new;
      LoadHistoryData(fault);
    }

    /** loadHistoryData: shows the store's table model, or an empty one when not connected. */
    method LoadHistoryData(fault: QueryFault)
      modifies this`historyView, this`columnWidths
      ensures crudManager.IsConnected() ==> historyView == HistoryDataBase.Select(crudManager.rows, fault)
      ensures !crudManager.IsConnected() ==> historyView == EmptyModel
      ensures columnWidths == if crudManager.IsConnected() then WidthsFor(|historyView.columns|) else []
    {
      if crudManager.IsConnected() {
        var model := crudManager.GetHistoryTableModel(fault);
        historyView, columnWidths := model, WidthsFor(|model.columns|);
      } else {
        historyView, columnWidths := EmptyModel, [];
      }
    }

    /**
      attemptPlotEquation: plots the equation with its "y =" prefix removed,
      titled after the original query, and reports whether a chart is shown.
     */
    method AttemptPlotEquation(equationToParse: string, originalQuery: string) returns (plotted: bool)
      modifies this`display, this`dialogs
      ensures var chart := PlotChart(compile, equationToParse, originalQuery);
        && (plotted <==> chart.Some?)
        && (plotted ==> chart.value.title == "Plot of " + originalQuery)
        && display == Shown(chart)
        && dialogs == old(dialogs) + [PlotDialog(chart)]
    {
      var plotTitle := "Plot of " + originalQuery;
      var processedEquation := StripYPrefix(equationToParse);
      var chartPanel := CreateChartPanelForEquation(compile, processedEquation, plotTitle);
      if chartPanel.Some? {
        display := Showing(chartPanel.value);
        dialogs := dialogs + [Dialog(Information, "Plot Success")];
        plotted := true;
      } else {
        dialogs := dialogs + [Dialog(Warning, "Plotting Error")];
        display := PlaceholderGraph;
        plotted := false;
      }
    }

    /** plotExtractedText: plots the trimmed text area when it passes the gate, else warns and clears the graph. */
    method PlotExtractedText()
      modifies this`display, this`dialogs
      ensures var text := Trim(extractedText);
        ExtractedTextPlottable(text) ==>
          var chart := PlotChart(compile, text, "Edited/Extracted: " + text);
          display == Shown(chart) && dialogs == old(dialogs) + [PlotDialog(chart)]
      ensures !ExtractedTextPlottable(Trim(extractedText)) ==>
        display == PlaceholderGraph && dialogs == old(dialogs) + [Dialog(Warning, "Plotting Error")]
    {
      var textToPlot := Trim(extractedText);
      var plottable := ExtractedTextPlottable(textToPlot);
      if plottable {
        var _ := AttemptPlotEquation(textToPlot, "Edited/Extracted: " + textToPlot);
      } else {
        dialogs := dialogs + [Dialog(Warning, "Plotting Error")];
        display := PlaceholderGraph;
      }
    }

    /**
      performSearch: an empty query only warns. Otherwise, when the store is
      connected the query is plotted, recorded as a text query and the
      history reloaded; when it is not, nothing is plotted or recorded.
      Either way the search bar is cleared.
     */
    method PerformSearch(serverNow: int, storageFails: bool, fault: QueryFault)
      modifies this`searchBar, this`extractedText, this`display, this`dialogs
      modifies this`historyView, this`columnWidths, crudManager`rows
      ensures var query := Trim(old(searchBar));
        query == [] ==>
          && searchBar == old(searchBar) && extractedText == old(extractedText)
          && display == old(display) && historyView == old(historyView)
          && columnWidths == old(columnWidths) && crudManager.rows == old(crudManager.rows)
          && dialogs == old(dialogs) + [Dialog(Warning, "Empty Input")]
      ensures var query := Trim(old(searchBar));
        query != [] && crudManager.IsConnected() ==>
          var chart := PlotChart(compile, query, query);
          && display == Shown(chart)
          && crudManager.rows == (if storageFails then old(crudManager.rows)
               else old(crudManager.rows) + [HistoryDataBase.Row(TextQuerySource, query, serverNow)])
          && historyView == HistoryDataBase.Select(crudManager.rows, fault)
          && columnWidths == WidthsFor(|historyView.columns|)
          && dialogs == old(dialogs) + [PlotDialog(chart)] + [Dialog(Information, "Search Action")]
          && extractedText == PlaceholderText && searchBar == []
      ensures var query := Trim(old(searchBar));
        query != [] && !crudManager.IsConnected() ==>
          && display == PlaceholderGraph && crudManager.rows == old(crudManager.rows)
          && dialogs == old(dialogs) + [Dialog(Failure, "Error")]
          && extractedText == old(extractedText) && historyView == old(historyView)
          && columnWidths == old(columnWidths) && searchBar == []
    {
      var query := Trim(searchBar);
      if query != [] {
        if crudManager.IsConnected() {
          var _ := AttemptPlotEquation(query, query);
          crudManager.CreateData(TextQuerySource, query, serverNow, storageFails);
          dialogs := dialogs + [Dialog(Information, "Search Action")];
          LoadHistoryData(fault);
          extractedText := PlaceholderText;
        } else {
          dialogs := dialogs + [Dialog(Failure, "Error")];
          display := PlaceholderGraph;
        }
        searchBar := [];
      } else {
        dialogs := dialogs + [Dialog(Warning, "Empty Input")];
      }
    }

    /**
      The delete-history button: with a live store and the user's
      confirmation, history older than 15 days is deleted, the count is
      reported and the view reloaded; without a store only an error is shown.
     */
    method DeleteOldHistory(confirmed: bool, now: int, storageFails: bool, fault: QueryFault)
      modifies this`dialogs, this`historyView, this`columnWidths, crudManager`rows
      ensures crudManager.IsConnected() && confirmed ==>
        && crudManager.rows == (if storageFails then old(crudManager.rows)
             else Retained(old(crudManager.rows), HistoryDataBase.Created, Cutoff(now, HistoryDays)))
        && historyView == HistoryDataBase.Select(crudManager.rows, fault)
        && columnWidths == WidthsFor(|historyView.columns|)
        && dialogs == old(dialogs) + [Dialog(Information, "Deletion Complete")]
      ensures crudManager.IsConnected() && !confirmed ==>
        && crudManager.rows == old(crudManager.rows) && historyView == old(historyView)
        && columnWidths == old(columnWidths) && dialogs == old(dialogs)
      ensures !crudManager.IsConnected() ==>
        && crudManager.rows == old(crudManager.rows) && historyView == old(historyView)
        && columnWidths == old(columnWidths)
        && dialogs == old(dialogs) + [Dialog(Failure, "Error")]
    {
      if crudManager.IsConnected() {
        if confirmed {
          var _ := crudManager.Delete(HistoryDays, now, storageFails);
          dialogs := dialogs + [Dialog(Information, "Deletion Complete")];
          LoadHistoryData(fault);
        }
      } else {
        dialogs := dialogs + [Dialog(Failure, "Error")];
      }
    }

    /**
      openFileChooser, after the dialog: the chosen file's OCR text fills the
      text area and is plotted when it passes the upload gate; the path and
      the untrimmed text are recorded when the store is connected.
      `selected` is the chosen file's absolute path, None when the dialog is
      cancelled; `ocrText` is what the OCR returned for it.
     */
    method OpenFileChooser(selected: Option<string>, ocrText: string, serverNow: int, storageFails: bool, fault: QueryFault)
      modifies this`extractedText, this`display, this`dialogs
      modifies this`historyView, this`columnWidths, crudManager`rows
      ensures selected.None? ==>
        && extractedText == old(extractedText) && display == old(display) && dialogs == old(dialogs)
        && historyView == old(historyView) && columnWidths == old(columnWidths)
        && crudManager.rows == old(crudManager.rows)
      ensures selected.Some? ==> extractedText == ocrText
      ensures var text := Trim(ocrText);
        var chart := PlotChart(compile, text, text);
        selected.Some? ==>
          && display == (if UploadTextPlottable(text) then Shown(chart) else PlaceholderGraph)
          && dialogs == old(dialogs)
               + [if UploadTextPlottable(text) then PlotDialog(chart) else Dialog(Information, "Information")]
               + [if crudManager.IsConnected() then Dialog(Information, "Image Upload") else Dialog(Warning, "Warning")]
      ensures selected.Some? && crudManager.IsConnected() ==>
        && crudManager.rows == (if storageFails then old(crudManager.rows)
             else old(crudManager.rows) + [HistoryDataBase.Row(selected.value, ocrText, serverNow)])
        && historyView == HistoryDataBase.Select(crudManager.rows, fault)
        && columnWidths == WidthsFor(|historyView.columns|)
      ensures selected.Some? && !crudManager.IsConnected() ==>
        && crudManager.rows == old(crudManager.rows) && historyView == old(historyView)
        && columnWidths == old(columnWidths)
    {
      if selected.None? {
        return;
      }
      var imagePath := selected.value;
      extractedText := ocrText;
      var text := Trim(ocrText);
      if UploadTextPlottable(text) {
        var _ := AttemptPlotEquation(text, text);
      } else {
        dialogs := dialogs + [Dialog(Information, "Information")];
        display := PlaceholderGraph;
      }
      if crudManager.IsConnected() {
        crudManager.CreateData(imagePath, ocrText, serverNow, storageFails);
        dialogs := dialogs + [Dialog(Information, "Image Upload")];
        LoadHistoryData(fault);
      } else {
        dialogs := dialogs + [Dialog(Warning, "Warning")];
      }
    }
  }
}
