/**
 The two stages run one after the other, as the sample driver does: the analysis table of a
 source tree is handed to the spreadsheet export under a chosen title.
 */
module Report {
  import opened Wrappers
  import opened Sequences
  import opened LinkedMaps
  import opened PathDepths
  import opened ImportClassifier
  import opened ImportAnalysis
  import opened XlsxExport

  /** Why a report could not be produced. */
  datatype ReportError =
    | AnalysisFailed(analysisError: AnalysisError)
    | ExportFailed(exportError: ExportError)

  /**
   The analysis table of a non-empty run has the schema as its spreadsheet columns, and the
   schema is the depth columns of the deepest file followed by the three import columns.
   */
  lemma AnalysisColumns(files: seq<SourceFile>)
    requires Analyze(files).Success? && Analyze(files).value != []
    ensures ColumnNames(Analyze(files).value) == Schema(RowsOf(ParsedFiles(files)))
    ensures exists i :: && 0 <= i < |ParsedFiles(files)|
                        && (forall j :: 0 <= j < |ParsedFiles(files)| ==>
                              |ParsedFiles(files)[j].segments| <= |ParsedFiles(files)[i].segments|)
                        && ColumnNames(Analyze(files).value) == DepthKeys(|ParsedFiles(files)[i].segments|) + ImportKeys
  {
    var parsed := ParsedFiles(files);
    TableKeys(files);
    SchemaShape(parsed);
    ColumnNamesOfUniformRows(Analyze(files).value, Schema(RowsOf(parsed)));
  }

  lemma TableKeys(files: seq<SourceFile>)
    requires Analyze(files).Success?
    ensures |Analyze(files).value| == |ParsedFiles(files)|
    ensures forall t :: 0 <= t < |Analyze(files).value| ==>
              Keys(Analyze(files).value[t]) == Schema(RowsOf(ParsedFiles(files)))
  {
    AnalyzeSpec(files);
    var table := Analyze(files).value;
    forall t | 0 <= t < |table| ensures Keys(table[t]) == Schema(RowsOf(ParsedFiles(files))) {
      assert RowAligned(table[t], ParsedFiles(files)[t], Schema(RowsOf(ParsedFiles(files))));
    }
  }

  /**
   The report of a source tree: fails with the analysis error when a file is rejected by the
   parser, fails with the export error when no file was read or the table does not fit a
   sheet, and otherwise lays out one data row per read file under a header that is the schema.
   */
  method Run(files: seq<SourceFile>, title: string) returns (r: Result<Sheet, ReportError>)
    ensures r.Failure? <==>
              || HasRejected(files)
              || ParsedFiles(files) == []
              || (Analyze(files).Success? && !WithinLimits(Analyze(files).value, title, Schema(RowsOf(ParsedFiles(files)))))
    ensures HasRejected(files) ==> Analyze(files).Failure? && r == Failure(AnalysisFailed(Analyze(files).error))
    ensures !HasRejected(files) && ParsedFiles(files) == [] ==> r == Failure(ExportFailed(EmptyData))
    ensures !HasRejected(files) && ParsedFiles(files) != [] && r.Failure? ==> r == Failure(ExportFailed(LimitExceeded))
    ensures r.Success? ==> Analyze(files).Success? && LaidOut(r.value, Analyze(files).value, title)
    ensures r.Success? ==>
              && |r.value.rows| == |ParsedFiles(files)| + 2
              && r.value.rows[0].cells == [Cell(0, title, TitleBand)]
              && r.value.rows[1].cells == HeaderCells(Schema(RowsOf(ParsedFiles(files))))
  {
    AnalyzeSpec(files);
    var analysis := Analyze(files);
    if analysis.Failure? {
      return Failure(AnalysisFailed(analysis.error));
    }
    var table := analysis.value;
    if table != [] {
      AnalysisColumns(files);
    }
    var sheet := Export(table, title);
    if sheet.Failure? {
      return Failure(ExportFailed(sheet.error));
    }
    return Success(sheet.value);
  }
}
