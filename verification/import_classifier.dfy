/**
 Per-file import classification (`ImportAnalysis.getJavaFileImports`).

 The parser is not modelled: a file is given by its import declarations, in declaration
 order, and by the five name lists its syntax-tree queries return (`NodeNames`), which
 `CollectUsage` gathers into the name sets the method builds. An import is "used" when its
 simple name (the last identifier of its qualified name) occurs among those names: static
 imports are matched against method-call and field-access names, all other imports against
 bare names, type names and annotation names. The match is purely lexical; the wildcard flag
 of an import is never consulted.
 */
module ImportClassifier {
  import opened Wrappers
  import opened Sequences
  import opened Text
  import opened LinkedMaps

  /**
   An import declaration: its qualified name as the parser splits it (the qualifier segments
   and the final identifier), whether it is `static`, and whether it ends in `.*`.
   */
  datatype Import = Import(qualifier: seq<string>, identifier: string, isStatic: bool, isAsterisk: bool)
  {
    /** The name used for matching: the last identifier of the qualified name. */
    function SimpleName(): string {
      identifier
    }

    /** The name used in the report: all segments joined by dots. */
    function QualifiedName(): string {
      Join(qualifier + [identifier], '.')
    }

    /** Every segment is a non-empty identifier, so it holds neither a dot nor a line break. */
    predicate WellFormed() {
      forall s :: s in qualifier + [identifier] ==> s != "" && '.' !in s && '\n' !in s
    }
  }

  /** The names referenced in one file's syntax tree. */
  datatype UsageIndex = UsageIndex(
    simpleNames: set<string>,      // every bare name expression
    typeNames: set<string>,        // every class or interface type reference
    annotationNames: set<string>,  // every annotation
    staticNames: set<string>       // every method-call name and every field-access name
  )

  /**
   The names of the nodes the five syntax-tree queries return, in any order and with
   repeats: name expressions, class or interface types, annotations, method calls and
   field accesses.
   */
  datatype NodeNames = NodeNames(
    nameExprs: seq<string>,
    typeRefs: seq<string>,
    annotations: seq<string>,
    methodCalls: seq<string>,
    fieldAccesses: seq<string>
  )

  /**
   Builds the index from the query results; method-call names and field-access names are
   pooled for static imports.
   */
  function CollectUsage(n: NodeNames): (u: UsageIndex)
    ensures forall s :: s in u.simpleNames <==> s in n.nameExprs
    ensures forall s :: s in u.typeNames <==> s in n.typeRefs
    ensures forall s :: s in u.annotationNames <==> s in n.annotations
    ensures forall s :: s in u.staticNames <==> s in n.methodCalls || s in n.fieldAccesses
  {
    UsageIndex(set s | s in n.nameExprs, set s | s in n.typeRefs, set s | s in n.annotations,
               (set s | s in n.methodCalls) + (set s | s in n.fieldAccesses))
  }

  /** The classification rule applied to each import. */
  predicate IsUsed(imp: Import, u: UsageIndex) {
    if imp.isStatic then imp.SimpleName() in u.staticNames
    else imp.SimpleName() in u.simpleNames
         || imp.SimpleName() in u.typeNames
         || imp.SimpleName() in u.annotationNames
  }

  datatype Partitioned = Partitioned(used: seq<Import>, unused: seq<Import>)

  /** Splits the declared imports into used and unused ones in one pass, as a partitioning collector does. */
  function Partition(imports: seq<Import>, u: UsageIndex): Partitioned
    decreases |imports|
  {
    if imports == [] then Partitioned([], [])
    else
      var rest := Partition(imports[1..], u);
      if IsUsed(imports[0], u) then Partitioned([imports[0]] + rest.used, rest.unused)
      else Partitioned(rest.used, [imports[0]] + rest.unused)
  }

  /**
   A static import is used exactly when its simple name is a method-call or field-access
   name; any other import exactly when its simple name is a bare, type or annotation name.
   Every declared import is on one of the two sides.
   */
  lemma {:induction false} PartitionMembers(imports: seq<Import>, u: UsageIndex)
    ensures var p := Partition(imports, u);
            forall imp :: imp in p.used <==>
              imp in imports
              && (if imp.isStatic then imp.identifier in u.staticNames
                  else imp.identifier in u.simpleNames + u.typeNames + u.annotationNames)
    ensures var p := Partition(imports, u);
            forall imp :: imp in p.unused <==>
              imp in imports
              && !(if imp.isStatic then imp.identifier in u.staticNames
                   else imp.identifier in u.simpleNames + u.typeNames + u.annotationNames)
    decreases |imports|
  {
    if imports != [] {
      PartitionMembers(imports[1..], u);
      assert imports == [imports[0]] + imports[1..];
    }
  }

  /**
   From the syntax tree to the two sides: a declared static import is used exactly when its
   simple name is the name of some method call or field access, and any other declared
   import exactly when its simple name is some name expression, type or annotation.
   */
  lemma PartitionFromTree(imports: seq<Import>, n: NodeNames)
    ensures var p := Partition(imports, CollectUsage(n));
            forall imp :: imp in p.used <==>
              imp in imports
              && (if imp.isStatic then imp.identifier in n.methodCalls || imp.identifier in n.fieldAccesses
                  else imp.identifier in n.nameExprs || imp.identifier in n.typeRefs
                       || imp.identifier in n.annotations)
    ensures var p := Partition(imports, CollectUsage(n));
            forall imp :: imp in p.unused <==>
              imp in imports
              && !(if imp.isStatic then imp.identifier in n.methodCalls || imp.identifier in n.fieldAccesses
                   else imp.identifier in n.nameExprs || imp.identifier in n.typeRefs
                        || imp.identifier in n.annotations)
  {
    PartitionMembers(imports, CollectUsage(n));
  }

  /** Each declared import goes to exactly one side, counting repeated declarations. */
  lemma {:induction false} PartitionCounts(imports: seq<Import>, u: UsageIndex)
    ensures var p := Partition(imports, u);
            multiset(p.used) + multiset(p.unused) == multiset(imports)
    decreases |imports|
  {
    if imports != [] {
      PartitionCounts(imports[1..], u);
      assert imports == [imports[0]] + imports[1..];
    }
  }

  /** Each side keeps declaration order. */
  lemma {:induction false} PartitionOrder(imports: seq<Import>, u: UsageIndex)
    ensures var p := Partition(imports, u);
            IsSubsequence(p.used, imports) && IsSubsequence(p.unused, imports)
    decreases |imports|
  {
    if imports != [] {
      var x, rest := imports[0], imports[1..];
      PartitionOrder(rest, u);
      var pr := Partition(rest, u);
      assert imports == [x] + rest;
      if IsUsed(x, u) {
        SubsequenceCons(x, pr.used, rest);
        SubsequenceSkip(x, pr.unused, rest);
      } else {
        SubsequenceSkip(x, pr.used, rest);
        SubsequenceCons(x, pr.unused, rest);
      }
    }
  }

  /** The report names of a list of imports. */
  function Names(imports: seq<Import>): (names: seq<string>)
    ensures |names| == |imports|
    ensures forall i :: 0 <= i < |imports| ==> names[i] == imports[i].QualifiedName()
  {
    if imports == [] then [] else [imports[0].QualifiedName()] + Names(imports[1..])
  }

  /** The three name lists of the report for one file. */
  datatype ImportLists = ImportLists(used: seq<string>, unused: seq<string>, all: seq<string>)

  /** Used and unused names, and all names as the insertion-ordered set of used then unused. */
  function Classify(imports: seq<Import>, u: UsageIndex): (c: ImportLists) {
    var p := Partition(imports, u);
    var used, unused := Names(p.used), Names(p.unused);
    ImportLists(used, unused, Dedup(used + unused))
  }

  /**
   Every declared import contributes its name to exactly one of the used and unused lists,
   and both lists follow declaration order.
   */
  lemma ClassifySplitsDeclared(imports: seq<Import>, u: UsageIndex)
    ensures multiset(Classify(imports, u).used) + multiset(Classify(imports, u).unused)
            == multiset(Names(imports))
    ensures IsSubsequence(Classify(imports, u).used, Names(imports))
    ensures IsSubsequence(Classify(imports, u).unused, Names(imports))
  {
    PartitionNamesCount(imports, u);
    PartitionNamesOrder(imports, u);
  }

  /**
   The all list names each declared import exactly once, ordered by first occurrence in the
   used list followed by the unused list.
   */
  lemma ClassifyAll(imports: seq<Import>, u: UsageIndex)
    ensures Distinct(Classify(imports, u).all)
    ensures forall n :: n in Classify(imports, u).all <==> n in Names(imports)
    ensures var c := Classify(imports, u);
            forall i, j :: 0 <= i < j < |c.all| ==>
              FirstIndex(c.used + c.unused, c.all[i]) < FirstIndex(c.used + c.unused, c.all[j])
  {
    var c := Classify(imports, u);
    PartitionNamesCount(imports, u);
    DedupFirstSeen(c.used + c.unused);
    MultisetSumMembers(c.used, c.unused, Names(imports));
  }

  /** `Partition` carried over to report names: every name lands on exactly one side. */
  lemma {:induction false} PartitionNamesCount(imports: seq<Import>, u: UsageIndex)
    ensures multiset(Names(Partition(imports, u).used)) + multiset(Names(Partition(imports, u).unused))
            == multiset(Names(imports))
    decreases |imports|
  {
    if imports != [] {
      var x, rest := imports[0], imports[1..];
      PartitionNamesCount(rest, u);
      var pr, n := Partition(rest, u), x.QualifiedName();
      NamesCons(x, rest);
      assert imports == [x] + rest;
      if IsUsed(x, u) {
        NamesCons(x, pr.used);
        assert multiset(Names([x] + pr.used)) == multiset{n} + multiset(Names(pr.used));
      } else {
        NamesCons(x, pr.unused);
        assert multiset(Names([x] + pr.unused)) == multiset{n} + multiset(Names(pr.unused));
      }
    }
  }

  lemma NamesCons(x: Import, xs: seq<Import>)
    ensures Names([x] + xs) == [x.QualifiedName()] + Names(xs)
  {
    assert ([x] + xs)[1..] == xs;
  }

  /** `Partition` carried over to report names: both sides keep declaration order. */
  lemma {:induction false} PartitionNamesOrder(imports: seq<Import>, u: UsageIndex)
    ensures IsSubsequence(Names(Partition(imports, u).used), Names(imports))
    ensures IsSubsequence(Names(Partition(imports, u).unused), Names(imports))
    decreases |imports|
  {
    if imports != [] {
      var x, rest := imports[0], imports[1..];
      PartitionNamesOrder(rest, u);
      var pr := Partition(rest, u);
      var n := x.QualifiedName();
      assert Names(imports) == [n] + Names(rest);
      if IsUsed(x, u) {
        assert Names([x] + pr.used) == [n] + Names(pr.used);
        SubsequenceCons(n, Names(pr.used), Names(rest));
        SubsequenceSkip(n, Names(pr.unused), Names(rest));
      } else {
        assert Names([x] + pr.unused) == [n] + Names(pr.unused);
        SubsequenceSkip(n, Names(pr.used), Names(rest));
        SubsequenceCons(n, Names(pr.unused), Names(rest));
      }
    }
  }

  // ---------------------------------------------------------------------------
  // The per-file import map
  // ---------------------------------------------------------------------------

  const UsedKey: string := "used"
  const UnusedKey: string := "unused"
  const AllKey: string := "all"

  /** The keys of the import map, in insertion order. */
  const ImportKeys: seq<string> := [UsedKey, UnusedKey, AllKey]

  /**
   The map `getJavaFileImports` returns: each list rendered as its names joined by line
   breaks, put under the keys `used`, `unused` and `all`, in that order, into an empty map.
   */
  function ImportMap(imports: seq<Import>, u: UsageIndex): (m: LinkedMap<string>)
    ensures Keys(m) == ImportKeys
    ensures LinkedMaps.WellFormed(m)
    ensures imports == [] ==> m == [(UsedKey, ""), (UnusedKey, ""), (AllKey, "")]
  {
    var c := Classify(imports, u);
    var used, unused, all := Join(c.used, '\n'), Join(c.unused, '\n'), Join(c.all, '\n');
    PutsAppend(used, unused, all);
    Put(Put(Put([], UsedKey, used), UnusedKey, unused), AllKey, all)
  }

  /** The three `put`s of distinct keys into an empty map lay out the entries in order. */
  lemma PutsAppend(used: string, unused: string, all: string)
    ensures Put(Put(Put([], UsedKey, used), UnusedKey, unused), AllKey, all)
            == [(UsedKey, used), (UnusedKey, unused), (AllKey, all)]
  {
    PutFresh([], UsedKey, used);
    PutFresh([(UsedKey, used)], UnusedKey, unused);
    PutFresh([(UsedKey, used), (UnusedKey, unused)], AllKey, all);
  }

  /**
   Looking the three keys up in the import map gives the three lists joined by line breaks,
   and every other key is absent.
   */
  lemma ImportMapGet(imports: seq<Import>, u: UsageIndex, k: string)
    ensures var c := Classify(imports, u);
            && Get(ImportMap(imports, u), UsedKey) == Some(Join(c.used, '\n'))
            && Get(ImportMap(imports, u), UnusedKey) == Some(Join(c.unused, '\n'))
            && Get(ImportMap(imports, u), AllKey) == Some(Join(c.all, '\n'))
    ensures k !in ImportKeys ==> Get(ImportMap(imports, u), k) == None
  {
    var c := Classify(imports, u);
    var used, unused, all := Join(c.used, '\n'), Join(c.unused, '\n'), Join(c.all, '\n');
    var m1 := Put([], UsedKey, used);
    var m2 := Put(m1, UnusedKey, unused);
    PutGet([], UsedKey, used);
    PutGet(m1, UnusedKey, unused);
    PutGetOther(m1, UnusedKey, unused, UsedKey);
    PutGet(m2, AllKey, all);
    PutGetOther(m2, AllKey, all, UsedKey);
    PutGetOther(m2, AllKey, all, UnusedKey);
  }

  /**
   Reading the map back: splitting a non-empty value at line breaks yields exactly the list
   it renders, and a value holds a line break exactly when its list has two or more names.
   */
  lemma ImportMapLines(imports: seq<Import>, u: UsageIndex, i: nat)
    requires forall imp :: imp in imports ==> imp.WellFormed()
    requires i < 3
    ensures var c := Classify(imports, u);
            var names := [c.used, c.unused, c.all][i];
            && ImportMap(imports, u)[i] == (ImportKeys[i], Join(names, '\n'))
            && (names != [] ==> Split(ImportMap(imports, u)[i].1, '\n') == names)
            && ('\n' in ImportMap(imports, u)[i].1 <==> |names| >= 2)
  {
    var c := Classify(imports, u);
    PutsAppend(Join(c.used, '\n'), Join(c.unused, '\n'), Join(c.all, '\n'));
    ClassifyFreeOfBreaks(imports, u);
    var names := [c.used, c.unused, c.all][i];
    assert FreeOf(names, '\n');
    JoinRoundTrip(names, '\n');
  }

  /** No name in any of the three lists holds a line break. */
  lemma ClassifyFreeOfBreaks(imports: seq<Import>, u: UsageIndex)
    requires forall imp :: imp in imports ==> imp.WellFormed()
    ensures var c := Classify(imports, u);
            FreeOf(c.used, '\n') && FreeOf(c.unused, '\n') && FreeOf(c.all, '\n')
  {
    var c := Classify(imports, u);
    NamesFreeOfBreaks(imports);
    ClassifySplitsDeclared(imports, u);
    ClassifyAll(imports, u);
    MultisetSumMembers(c.used, c.unused, Names(imports));
    assert forall n :: n in c.used ==> n in c.used + c.unused;
    assert forall n :: n in c.unused ==> n in c.used + c.unused;
  }

  lemma NamesFreeOfBreaks(imports: seq<Import>)
    requires forall imp :: imp in imports ==> imp.WellFormed()
    ensures FreeOf(Names(imports), '\n')
  {
    forall n | n in Names(imports) ensures '\n' !in n {
      var k :| 0 <= k < |Names(imports)| && Names(imports)[k] == n;
      QualifiedNameFreeOfBreaks(imports[k]);
    }
  }

  /** A well-formed import's report name holds no line break. */
  lemma QualifiedNameFreeOfBreaks(imp: Import)
    requires imp.WellFormed()
    ensures '\n' !in imp.QualifiedName()
  {
    JoinFreeOf(imp.qualifier + [imp.identifier], '.', '\n');
  }

  lemma {:induction false} JoinFreeOf(parts: seq<string>, sep: char, c: char)
    requires c != sep && FreeOf(parts, c)
    ensures c !in Join(parts, sep)
    decreases |parts|
  {
    if |parts| >= 2 {
      JoinFreeOf(parts[1..], sep, c);
    }
  }

  /**
   The report name splits back into the parser's segments, so the name an import is
   matched by is the last dot-separated segment of the name it is reported under.
   */
  lemma QualifiedNameSegments(imp: Import)
    requires imp.WellFormed()
    ensures Split(imp.QualifiedName(), '.') == imp.qualifier + [imp.identifier]
    ensures var segs := Split(imp.QualifiedName(), '.'); segs[|segs| - 1] == imp.SimpleName()
  {
    SplitJoin(imp.qualifier + [imp.identifier], '.');
  }

  /** Changing only the wildcard flags of the imports changes nothing in the import map. */
  lemma {:induction false} ImportMapIgnoresAsterisk(imports: seq<Import>, flags: seq<bool>, u: UsageIndex)
    requires |flags| == |imports|
    ensures ImportMap(imports, u) == ImportMap(WithAsterisk(imports, flags), u)
  {
    PartitionIgnoresAsterisk(imports, flags, u);
  }

  /** The imports with their wildcard flags replaced by `flags`. */
  function WithAsterisk(imports: seq<Import>, flags: seq<bool>): (r: seq<Import>)
    requires |flags| == |imports|
    ensures |r| == |imports|
  {
    seq(|imports|, i requires 0 <= i < |imports| => imports[i].(isAsterisk := flags[i]))
  }

  lemma {:induction false} PartitionIgnoresAsterisk(imports: seq<Import>, flags: seq<bool>, u: UsageIndex)
    requires |flags| == |imports|
    ensures Names(Partition(imports, u).used) == Names(Partition(WithAsterisk(imports, flags), u).used)
    ensures Names(Partition(imports, u).unused) == Names(Partition(WithAsterisk(imports, flags), u).unused)
    decreases |imports|
  {
    if imports != [] {
      var other := WithAsterisk(imports, flags);
      assert other[1..] == WithAsterisk(imports[1..], flags[1..]);
      PartitionIgnoresAsterisk(imports[1..], flags[1..], u);
      var p, q := Partition(imports[1..], u), Partition(other[1..], u);
      assert IsUsed(imports[0], u) == IsUsed(other[0], u);
      assert imports[0].QualifiedName() == other[0].QualifiedName();
      if IsUsed(imports[0], u) {
        assert Names([imports[0]] + p.used) == [imports[0].QualifiedName()] + Names(p.used);
        assert Names([other[0]] + q.used) == [other[0].QualifiedName()] + Names(q.used);
      } else {
        assert Names([imports[0]] + p.unused) == [imports[0].QualifiedName()] + Names(p.unused);
        assert Names([other[0]] + q.unused) == [other[0].QualifiedName()] + Names(q.unused);
      }
    }
  }
}
