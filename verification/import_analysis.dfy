/**
 The table assembled over all source files (`ImportAnalysis.analyze` and
 `extractFileInfo`). Each parsed file yields one row: its depth columns followed by the
 `used`, `unused` and `all` columns. The column schema is the key set of the first row of
 largest size, and every row is re-keyed over that schema, a missing key becoming `null`.

 File discovery, reading and parsing are not modelled: each file arrives with the segments
 of its path relative to the parent of the analysis root and with what the parser made of it.
 */
module ImportAnalysis {
  import opened Wrappers
  import opened Sequences
  import opened LinkedMaps
  import opened ImportClassifier
  import opened PathDepths
  import opened Text

  /** What reading and parsing one file produced. */
  datatype ParseOutcome =
    | Parsed(imports: seq<Import>, names: NodeNames)
      /** An `IOException`: caught, logged, and the file contributes no row. */
    | ReadFailed
      /** The parser's unchecked exception for malformed source: not caught, so it ends the analysis. */
    | SyntaxRejected

  datatype SourceFile = SourceFile(segments: seq<string>, outcome: ParseOutcome)

  /** The exception that escapes `analyze`, identified by the path of the file whose parse raised it. */
  datatype AnalysisError = ParseProblem(segments: seq<string>)

  /** A row before alignment: every value present. */
  type Row = LinkedMap<string>

  /** A row after alignment: `None` is the `null` stored for a schema key the row lacks. */
  type AlignedRow = LinkedMap<Option<string>>

  predicate IsParsed(f: SourceFile) {
    f.outcome.Parsed?
  }

  /** The row of a parsed file: the depth map put first, then the import map. */
  function BuildRow(f: SourceFile): Row
    requires IsParsed(f)
  {
    PutAll(PutAll([], DepthMap(f.segments)), ImportMap(f.outcome.imports, CollectUsage(f.outcome.names)))
  }

  /** `extractFileInfo`: a row, `None` for the `null` returned after an I/O failure, or the escaping exception. */
  function ExtractFileInfo(f: SourceFile): Result<Option<Row>, AnalysisError> {
    match f.outcome
    case Parsed(_, _) => Success(Some(BuildRow(f)))
    case ReadFailed => Success(None)
    case SyntaxRejected => Failure(ParseProblem(f.segments))
  }

  /** The stream `map(extractFileInfo).filter(nonNull).toList()`, processed in traversal order. */
  function FileInfoList(files: seq<SourceFile>): Result<seq<Row>, AnalysisError>
    decreases |files|
  {
    if files == [] then Success([])
    else
      var info :- ExtractFileInfo(files[0]);
      var rest :- FileInfoList(files[1..]);
      Success((if info.Some? then [info.value] else []) + rest)
  }

  /** The rows of the parsed files, in order. */
  function RowsOf(parsed: seq<SourceFile>): (rows: seq<Row>)
    requires forall f :: f in parsed ==> IsParsed(f)
    ensures |rows| == |parsed|
    ensures forall i :: 0 <= i < |parsed| ==> rows[i] == BuildRow(parsed[i])
  {
    seq(|parsed|, i requires 0 <= i < |parsed| => BuildRow(parsed[i]))
  }

  /** The parsed files, in traversal order. */
  function ParsedFiles(files: seq<SourceFile>): (ps: seq<SourceFile>)
    ensures forall f :: f in ps <==> f in files && IsParsed(f)
    ensures IsSubsequence(ps, files)
  {
    FilterIsSubsequence(files, IsParsed);
    Filter(files, IsParsed)
  }

  /** Every parsed file is kept as often as it occurs, and no other file is kept. */
  lemma ParsedFilesCount(files: seq<SourceFile>)
    ensures forall f :: multiset(ParsedFiles(files))[f] == if IsParsed(f) then multiset(files)[f] else 0
  {
    FilterCount(files, IsParsed);
  }

  predicate HasRejected(files: seq<SourceFile>) {
    exists i :: 0 <= i < |files| && files[i].outcome.SyntaxRejected?
  }

  /** `Stream.max(comparingInt(Map::size))`: a reduction that keeps the earlier row on a tie. */
  function LargestRow(rows: seq<Row>): Option<Row>
    decreases |rows|
  {
    if rows == [] then None
    else
      var last := rows[|rows| - 1];
      match LargestRow(rows[..|rows| - 1])
      case None => Some(last)
      case Some(best) => Some(if |best| >= |last| then best else last)
  }

  /** The key set of the largest row, or no keys when there is no row. */
  function Schema(rows: seq<Row>): seq<string> {
    match LargestRow(rows)
    case None => []
    case Some(r) => Keys(r)
  }

  /** Row `i` has the most entries, and every row before it has strictly fewer. */
  ghost predicate IsFirstLargest(rows: seq<Row>, i: int) {
    && 0 <= i < |rows|
    && (forall j :: 0 <= j < |rows| ==> |rows[j]| <= |rows[i]|)
    && (forall j :: 0 <= j < i ==> |rows[j]| < |rows[i]|)
  }

  /** Re-keys a row over the schema: schema keys in schema order, `null` where the row has none. */
  function Align(row: Row, schema: seq<string>): AlignedRow {
    seq(|schema|, i requires 0 <= i < |schema| => (schema[i], Get(row, schema[i])))
  }

  /** `analyze`: the rows of all parsed files, each re-keyed over the common schema. */
  function Analyze(files: seq<SourceFile>): Result<seq<AlignedRow>, AnalysisError> {
    match FileInfoList(files)
    case Failure(e) => Failure(e)
    case Success(rows) =>
      var schema := Schema(rows);
      Success(seq(|rows|, i requires 0 <= i < |rows| => Align(rows[i], schema)))
  }

  // ---------------------------------------------------------------------------
  // Properties
  // ---------------------------------------------------------------------------

  /** A row's keys are its depth keys followed by the three import keys, none repeated. */
  lemma RowLayout(f: SourceFile)
    requires IsParsed(f)
    ensures BuildRow(f) == DepthMap(f.segments) + ImportMap(f.outcome.imports, CollectUsage(f.outcome.names))
    ensures Keys(BuildRow(f)) == DepthKeys(|f.segments|) + ImportKeys
    ensures LinkedMaps.WellFormed(BuildRow(f))
    ensures |BuildRow(f)| == |f.segments| + 3
  {
    var d, im := DepthMap(f.segments), ImportMap(f.outcome.imports, CollectUsage(f.outcome.names));
    RowIsConcat(f);
    DepthMapEntries(f.segments, |f.segments|);
    KeysAppendAll(d, im);
    RowKeysDistinct(|f.segments|);
  }

  /**
   A file's row holds, under `used`, `unused` and `all`, the three name lists of its
   classification against its own syntax tree, joined by line breaks.
   */
  lemma RowImportValues(f: SourceFile)
    requires IsParsed(f)
    ensures var c := Classify(f.outcome.imports, CollectUsage(f.outcome.names));
            && Get(BuildRow(f), UsedKey) == Some(Join(c.used, '\n'))
            && Get(BuildRow(f), UnusedKey) == Some(Join(c.unused, '\n'))
            && Get(BuildRow(f), AllKey) == Some(Join(c.all, '\n'))
  {
    var c := Classify(f.outcome.imports, CollectUsage(f.outcome.names));
    var n, row := |f.segments|, BuildRow(f);
    RowLayout(f);
    PutsAppend(Join(c.used, '\n'), Join(c.unused, '\n'), Join(c.all, '\n'));
    assert row[n] == (UsedKey, Join(c.used, '\n'));
    assert row[n + 1] == (UnusedKey, Join(c.unused, '\n'));
    assert row[n + 2] == (AllKey, Join(c.all, '\n'));
    GetEntry(row, n);
    GetEntry(row, n + 1);
    GetEntry(row, n + 2);
  }

  /** Both `putAll` calls only append, because no key repeats. */
  lemma RowIsConcat(f: SourceFile)
    requires IsParsed(f)
    ensures BuildRow(f) == DepthMap(f.segments) + ImportMap(f.outcome.imports, CollectUsage(f.outcome.names))
  {
    var n := |f.segments|;
    var d, im := DepthMap(f.segments), ImportMap(f.outcome.imports, CollectUsage(f.outcome.names));
    DepthMapEntries(f.segments, n);
    DepthKeysDistinct(n);
    PutAllFresh([], d);
    assert [] + d == d;
    forall k | k in Keys(im) ensures k !in Keys(d) {
      ImportKeyNotDepthKey(k, n);
    }
    PutAllFresh(d, im);
  }

  lemma ImportKeyNotDepthKey(k: string, n: nat)
    requires k in ImportKeys
    ensures k !in DepthKeys(n)
  {
    forall t | 0 <= t < n ensures DepthKeys(n)[t] != k {
      DepthKeyNotImportKey(t + 1);
    }
  }

  /** Depth columns and import columns never share a name. */
  lemma RowKeysDistinct(n: nat)
    ensures Distinct(DepthKeys(n) + ImportKeys)
  {
    DepthKeysDistinct(n);
    forall k | k in ImportKeys ensures k !in DepthKeys(n) {
      ImportKeyNotDepthKey(k, n);
    }
    DistinctConcat(DepthKeys(n), ImportKeys);
  }

  /** No depth column name is an import column name. */
  lemma DepthKeyNotImportKey(i: nat)
    ensures DepthKey(i) !in ImportKeys
  {
    DepthKeyInitial(i);
  }

  /** The first file the parser rejects decides the failure. */
  lemma {:induction false} FileInfoListFailure(files: seq<SourceFile>)
    ensures FileInfoList(files).Failure? <==> HasRejected(files)
    ensures FileInfoList(files).Failure? ==>
              exists k :: && 0 <= k < |files| && files[k].outcome.SyntaxRejected?
                          && (forall j :: 0 <= j < k ==> !files[j].outcome.SyntaxRejected?)
                          && FileInfoList(files).error == ParseProblem(files[k].segments)
    decreases |files|
  {
    if files != [] {
      var f, rest := files[0], files[1..];
      FileInfoListFailure(rest);
      HasRejectedCons(files);
      if !f.outcome.SyntaxRejected? && FileInfoList(rest).Failure? {
        var k :| && 0 <= k < |rest| && rest[k].outcome.SyntaxRejected?
                 && (forall j :: 0 <= j < k ==> !rest[j].outcome.SyntaxRejected?)
                 && FileInfoList(rest).error == ParseProblem(rest[k].segments);
        assert files[k + 1] == rest[k];
        forall j | 0 <= j < k + 1 ensures !files[j].outcome.SyntaxRejected? {
          if j > 0 {
            assert files[j] == rest[j - 1];
          }
        }
      }
    }
  }

  lemma HasRejectedCons(files: seq<SourceFile>)
    requires files != []
    ensures HasRejected(files) <==> files[0].outcome.SyntaxRejected? || HasRejected(files[1..])
  {
    var rest := files[1..];
    if HasRejected(rest) {
      var i :| 0 <= i < |rest| && rest[i].outcome.SyntaxRejected?;
      assert files[i + 1] == rest[i];
    }
    if HasRejected(files) && !files[0].outcome.SyntaxRejected? {
      var i :| 0 <= i < |files| && files[i].outcome.SyntaxRejected?;
      assert rest[i - 1] == files[i];
    }
  }

  /** Without a rejected file, the rows are those of the parsed files, in order. */
  lemma {:induction false} FileInfoListRows(files: seq<SourceFile>)
    ensures FileInfoList(files).Success? ==> FileInfoList(files).value == RowsOf(ParsedFiles(files))
    decreases |files|
  {
    if files != [] {
      var f, rest := files[0], files[1..];
      FileInfoListRows(rest);
      if FileInfoList(files).Success? {
        var head := if IsParsed(f) then [f] else [];
        assert ParsedFiles(files) == head + ParsedFiles(rest);
        RowsOfConcat(head, ParsedFiles(rest));
        assert RowsOf(head) == (if IsParsed(f) then [BuildRow(f)] else []);
      }
    }
  }

  lemma RowsOfConcat(a: seq<SourceFile>, b: seq<SourceFile>)
    requires forall f :: f in a ==> IsParsed(f)
    requires forall f :: f in b ==> IsParsed(f)
    ensures RowsOf(a + b) == RowsOf(a) + RowsOf(b)
  {
  }

  /** The schema is the key set of the first row of largest size, and empty for no rows. */
  lemma {:induction false} SchemaIsFirstLargest(rows: seq<Row>)
    ensures rows == [] ==> Schema(rows) == []
    ensures rows != [] ==> exists i :: IsFirstLargest(rows, i) && Schema(rows) == Keys(rows[i])
  {
    if rows != [] {
      var i := LargestRowIsFirstLargest(rows);
    }
  }

  lemma {:induction false} LargestRowIsFirstLargest(rows: seq<Row>) returns (i: nat)
    requires rows != []
    ensures IsFirstLargest(rows, i) && LargestRow(rows) == Some(rows[i])
    decreases |rows|
  {
    var n := |rows| - 1;
    var init, last := rows[..n], rows[n];
    if init == [] {
      i := 0;
    } else {
      var b := LargestRowIsFirstLargest(init);
      if |init[b]| >= |last| {
        i := b;
      } else {
        i := n;
      }
    }
  }

  /**
   Every row built from a parsed file has all its keys in the schema: depth keys of a
   shallower path are a prefix of those of the deepest path, and the import keys are common.
   The schema itself is the deepest path's depth keys followed by the import keys.
   */
  lemma BuiltRowsWithinSchema(parsed: seq<SourceFile>)
    requires forall f :: f in parsed ==> IsParsed(f)
    requires parsed != []
    ensures exists i :: && 0 <= i < |parsed|
                        && (forall j :: 0 <= j < |parsed| ==> |parsed[j].segments| <= |parsed[i].segments|)
                        && Schema(RowsOf(parsed)) == DepthKeys(|parsed[i].segments|) + ImportKeys
    ensures forall j, k :: 0 <= j < |parsed| && k in Keys(RowsOf(parsed)[j]) ==> k in Schema(RowsOf(parsed))
  {
    var rows := RowsOf(parsed);
    SchemaIsFirstLargest(rows);
    var i :| IsFirstLargest(rows, i) && Schema(rows) == Keys(rows[i]);
    RowLayout(parsed[i]);
    forall j | 0 <= j < |parsed|
      ensures |parsed[j].segments| <= |parsed[i].segments|
      ensures forall k :: k in Keys(rows[j]) ==> k in Schema(rows)
    {
      RowLayout(parsed[j]);
      assert |rows[j]| <= |rows[i]|;
      ShallowerKeysIncluded(parsed[j], parsed[i]);
    }
  }

  /** The keys of a row for a path no deeper than another's are among that row's keys. */
  lemma ShallowerKeysIncluded(f: SourceFile, g: SourceFile)
    requires IsParsed(f) && IsParsed(g) && |f.segments| <= |g.segments|
    ensures forall k :: k in Keys(BuildRow(f)) ==> k in Keys(BuildRow(g))
  {
    RowLayout(f);
    RowLayout(g);
    var n, m := |f.segments|, |g.segments|;
    forall k | k in DepthKeys(n) + ImportKeys ensures k in DepthKeys(m) + ImportKeys {
      if k in DepthKeys(n) {
        var t :| 0 <= t < n && DepthKeys(n)[t] == k;
        assert DepthKeys(m)[t] == k;
      }
    }
  }

  /**
   Each row of the analysis is what the per-key `put` loop of `analyze` builds from the file's
   row, because the schema it loops over repeats no key.
   */
  lemma AnalyzeByPuts(files: seq<SourceFile>)
    requires Analyze(files).Success?
    ensures forall t :: 0 <= t < |Analyze(files).value| ==>
              var rows := FileInfoList(files).value;
              Analyze(files).value[t] == PutAll([], Align(rows[t], Schema(rows)))
  {
    var rows := FileInfoList(files).value;
    FileInfoListRows(files);
    if rows != [] {
      SchemaShape(ParsedFiles(files));
      forall t | 0 <= t < |rows| ensures PutAll([], Align(rows[t], Schema(rows))) == Align(rows[t], Schema(rows)) {
        AlignByPuts(rows[t], Schema(rows));
      }
    }
  }

  /** The schema of a non-empty run repeats no key and is the deepest file's key layout. */
  lemma SchemaShape(parsed: seq<SourceFile>)
    requires forall f :: f in parsed ==> IsParsed(f)
    requires parsed != []
    ensures Distinct(Schema(RowsOf(parsed)))
    ensures exists i :: && 0 <= i < |parsed|
                        && (forall j :: 0 <= j < |parsed| ==> |parsed[j].segments| <= |parsed[i].segments|)
                        && Schema(RowsOf(parsed)) == DepthKeys(|parsed[i].segments|) + ImportKeys
  {
    BuiltRowsWithinSchema(parsed);
    var i :| && 0 <= i < |parsed|
             && (forall j :: 0 <= j < |parsed| ==> |parsed[j].segments| <= |parsed[i].segments|)
             && Schema(RowsOf(parsed)) == DepthKeys(|parsed[i].segments|) + ImportKeys;
    RowKeysDistinct(|parsed[i].segments|);
  }

  /**
   `analyze` re-keys a row by putting `(key, row.get(key))` into a new map for each schema key
   in turn. When the schema repeats no key, every put appends, so the result is `Align`.
   */
  lemma {:induction false} AlignByPuts(row: Row, schema: seq<string>)
    requires Distinct(schema)
    ensures PutAll([], Align(row, schema)) == Align(row, schema)
  {
    AlignSpec(row, schema);
    PutAllFresh([], Align(row, schema));
  }

  /**
   An aligned row has exactly the schema keys, in schema order; each schema key maps to the
   original row's value for it, or to `null` when the row has none; and when the row's keys
   all lie in the schema, every original entry survives unchanged.
   */
  lemma AlignSpec(row: Row, schema: seq<string>)
    ensures Keys(Align(row, schema)) == schema
    ensures forall k :: k in schema ==> Get(Align(row, schema), k) == Some(Get(row, k))
    ensures LinkedMaps.WellFormed(row) && (forall k :: k in Keys(row) ==> k in schema) ==>
              forall i :: 0 <= i < |row| ==> Get(Align(row, schema), row[i].0) == Some(Some(row[i].1))
  {
    var a := Align(row, schema);
    assert Keys(a) == schema;
    forall k | k in schema ensures Get(a, k) == Some(Get(row, k)) {
      AlignGet(row, schema, k);
    }
    if LinkedMaps.WellFormed(row) {
      forall i | 0 <= i < |row| ensures Get(row, row[i].0) == Some(row[i].1) {
        GetEntry(row, i);
      }
    }
  }

  lemma {:induction false} AlignGet(row: Row, schema: seq<string>, k: string)
    requires k in schema
    ensures Get(Align(row, schema), k) == Some(Get(row, k))
    decreases |schema|
  {
    var a := Align(row, schema);
    if schema[0] != k {
      assert a[1..] == Align(row, schema[1..]);
      AlignGet(row, schema[1..], k);
    }
  }

  /**
   `aligned` is the row of parsed file `f` re-keyed over `schema`: it has exactly the schema
   keys in schema order and each holds the file's own value or `null`; in particular a depth
   column within the file's path holds its segment and a deeper one holds `null`.
   */
  ghost predicate RowAligned(aligned: AlignedRow, f: SourceFile, schema: seq<string>) {
    && IsParsed(f)
    && Keys(aligned) == schema
    && (forall k :: k in schema ==> Get(aligned, k) == Some(Get(BuildRow(f), k)))
    && (forall d :: 1 <= d <= |f.segments| ==> Get(aligned, DepthKey(d)) == Some(Some(f.segments[d - 1])))
    && (forall d :: |f.segments| < d && DepthKey(d) in schema ==> Get(aligned, DepthKey(d)) == Some(None))
  }

  /**
   End to end: the analysis fails exactly when the parser rejects a file; otherwise it has
   one row per parsed file, in traversal order, each re-keyed over the common schema.
   */
  lemma AnalyzeSpec(files: seq<SourceFile>)
    ensures Analyze(files).Failure? <==> HasRejected(files)
    ensures Analyze(files).Success? ==>
              && |Analyze(files).value| == |ParsedFiles(files)|
              && forall t :: 0 <= t < |Analyze(files).value| ==>
                   RowAligned(Analyze(files).value[t], ParsedFiles(files)[t], Schema(RowsOf(ParsedFiles(files))))
  {
    FileInfoListFailure(files);
    FileInfoListRows(files);
    if Analyze(files).Success? {
      var table, parsed := Analyze(files).value, ParsedFiles(files);
      var schema := Schema(RowsOf(parsed));
      if parsed != [] {
        BuiltRowsWithinSchema(parsed);
      }
      forall t | 0 <= t < |table| ensures RowAligned(table[t], parsed[t], schema) {
        assert table[t] == Align(BuildRow(parsed[t]), schema);
        AlignedRowSpec(parsed[t], schema);
      }
    }
  }

  /** One row re-keyed over a schema that covers its keys. */
  lemma AlignedRowSpec(f: SourceFile, schema: seq<string>)
    requires IsParsed(f)
    requires forall k :: k in Keys(BuildRow(f)) ==> k in schema
    ensures RowAligned(Align(BuildRow(f), schema), f, schema)
  {
    var row := BuildRow(f);
    AlignSpec(row, schema);
    forall d | 1 <= d <= |f.segments|
      ensures Get(Align(row, schema), DepthKey(d)) == Some(Some(f.segments[d - 1]))
    {
      RowDepthValue(f, d);
    }
    forall d | |f.segments| < d
      ensures Get(row, DepthKey(d)).None?
    {
      RowLacksDeeperDepth(f, d);
    }
  }

  /** A row holds segment `d` under `"depth d"`. */
  lemma RowDepthValue(f: SourceFile, d: nat)
    requires IsParsed(f) && 1 <= d <= |f.segments|
    ensures Get(BuildRow(f), DepthKey(d)) == Some(f.segments[d - 1])
    ensures DepthKey(d) in Keys(BuildRow(f))
  {
    RowLayout(f);
    DepthMapEntries(f.segments, |f.segments|);
    assert BuildRow(f)[d - 1] == (DepthKey(d), f.segments[d - 1]);
    GetEntry(BuildRow(f), d - 1);
  }

  /** A row has no entry for a depth deeper than its path. */
  lemma RowLacksDeeperDepth(f: SourceFile, d: nat)
    requires IsParsed(f) && |f.segments| < d
    ensures Get(BuildRow(f), DepthKey(d)).None?
  {
    RowLayout(f);
    DepthKeyBeyond(|f.segments|, d);
    DepthKeyNotImportKey(d);
  }
}
