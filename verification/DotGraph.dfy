/** `generateDot`: the import graph as text, with the imports on reported cycles painted red. */
module DotGraph {
  import opened Text
  import opened CycleKeys
  import opened ImportGraph
  import opened CycleSearch
  import opened CycleDetector

  function EdgeKey(u: string, v: string): string {
    u + ARROW + v
  }

  /** The path without a final ".ts" or ".tsx". */
  function Label(path: string): string {
    if EndsWith(path, ".ts") then path[..|path| - 3]
    else if EndsWith(path, ".tsx") then path[..|path| - 4]
    else path
  }

  function NodeLine(path: string): string {
    "  \"" + path + "\" [label=\"" + Label(path) + "\"];"
  }

  function EdgeLine(u: string, v: string, red: bool): string {
    "  \"" + u + "\" -> \"" + v + "\"" + if red then " [color=red, penwidth=2];" else ";"
  }

  const HEADER := ["digraph imports {", "  rankdir=LR;", "  node [shape=box];"]

  /** The import of `v` in `u` lies on one of the cycles. */
  ghost predicate OnCycle(cycles: seq<Cycle>, u: string, v: string) {
    exists k, i :: 0 <= k < |cycles| && 0 <= i < |cycles[k]| - 1 && cycles[k][i] == u && cycles[k][i + 1] == v
  }

  ghost predicate IsEdgeKey(cycles: seq<Cycle>, key: string) {
    exists k, i :: 0 <= k < |cycles| && 0 <= i < |cycles[k]| - 1 && key == EdgeKey(cycles[k][i], cycles[k][i + 1])
  }

  /** How to tell that an edge is red: by its key, as the script does, or by the edge itself. */
  datatype Test = ByKey | ByEdge

  ghost predicate Red(test: Test, cycles: seq<Cycle>, u: string, v: string) {
    if test.ByKey? then IsEdgeKey(cycles, EdgeKey(u, v)) else OnCycle(cycles, u, v)
  }

  /** The edge lines of one module. */
  ghost function EdgeLines(test: Test, cycles: seq<Cycle>, path: string, imports: seq<string>): (lines: seq<string>)
    ensures |lines| == |imports|
  {
    if imports == [] then [] else
      EdgeLines(test, cycles, path, imports[..|imports| - 1]) +
      [EdgeLine(path, Last(imports), Red(test, cycles, path, Last(imports)))]
  }

  ghost function ModuleLines(test: Test, cycles: seq<Cycle>, ms: seq<Module>): seq<string> {
    if ms == [] then [] else
      ModuleLines(test, cycles, ms[..|ms| - 1]) + [NodeLine(Last(ms).path)] +
      EdgeLines(test, cycles, Last(ms).path, Last(ms).imports)
  }

  ghost function Picture(test: Test, ms: seq<Module>, cycles: seq<Cycle>): seq<string> {
    HEADER + ModuleLines(test, cycles, ms) + ["}"]
  }

  // ---------------------------------------------------------------------------------
  // When edge keys stand for edges

  /** An import has the key of an edge on a cycle only when it lies on a cycle. */
  ghost predicate KeysDecide(ms: seq<Module>, cycles: seq<Cycle>) {
    forall m, v :: m in ms && v in m.imports ==>
      (IsEdgeKey(cycles, EdgeKey(m.path, v)) <==> OnCycle(cycles, m.path, v))
  }

  /** One text with "->" at two places: read as an edge it is `u -> v` or, split further right, `a -> b`. */
  ghost predicate SplitsLater(u: string, v: string, a: string, b: string) {
    exists x :: a == u + ARROW + x && v == x + ARROW + b
  }

  ghost predicate OneTextTwoEdges(u: string, v: string, a: string, b: string) {
    SplitsLater(u, v, a, b) || SplitsLater(a, b, u, v)
  }

  lemma ShorterHead(u: string, v: string, a: string, b: string)
    requires u + ARROW + v == a + ARROW + b && |u| < |a|
    ensures SplitsLater(u, v, a, b)
  {
    var s, n := u + ARROW + v, |u|;
    assert s[..n] == u == a[..n] && s[n..] == ARROW + v;
    assert s[n] == '-' && s[n + 1] == '>';
    assert s[|a|] == '-';
    var x := a[n + 2..];
    assert a[n] == s[n] && a[n + 1] == s[n + 1];
    assert a == u + ARROW + x;
    assert v == s[n + 2..] == x + ARROW + b;
  }

  lemma SplitsSameText(u: string, v: string, a: string, b: string)
    requires SplitsLater(u, v, a, b)
    ensures EdgeKey(u, v) == EdgeKey(a, b)
  {
    var x :| a == u + ARROW + x && v == x + ARROW + b;
    assert u + ARROW + (x + ARROW + b) == (u + ARROW + x) + ARROW + b;
  }

  /** Two edges have one key exactly when they are the same, or one text splits at two places into them. */
  lemma SameEdgeKeyIff(u: string, v: string, a: string, b: string)
    ensures EdgeKey(u, v) == EdgeKey(a, b) <==> (u == a && v == b) || OneTextTwoEdges(u, v, a, b)
  {
    if SplitsLater(u, v, a, b) {
      SplitsSameText(u, v, a, b);
    } else if SplitsLater(a, b, u, v) {
      SplitsSameText(a, b, u, v);
    } else if EdgeKey(u, v) == EdgeKey(a, b) {
      if |u| < |a| {
        ShorterHead(u, v, a, b);
      } else if |a| < |u| {
        ShorterHead(a, b, u, v);
      } else {
        var s := EdgeKey(u, v);
        assert u == s[..|u|] == a && v == s[|u| + 2..] == b;
      }
    }
  }

  /** An import off the cycles and an import on one of them are one text split at two places. */
  ghost predicate NamesConfused(ms: seq<Module>, cycles: seq<Cycle>) {
    exists m, v, a, b :: m in ms && v in m.imports && !OnCycle(cycles, m.path, v) && OnCycle(cycles, a, b) &&
      OneTextTwoEdges(m.path, v, a, b)
  }

  lemma KeysDecideIff(ms: seq<Module>, cycles: seq<Cycle>)
    ensures KeysDecide(ms, cycles) <==> !NamesConfused(ms, cycles)
  {
    hide EdgeKey, OneTextTwoEdges;
    if NamesConfused(ms, cycles) {
      var m, v, a, b :| m in ms && v in m.imports && !OnCycle(cycles, m.path, v) && OnCycle(cycles, a, b) &&
        OneTextTwoEdges(m.path, v, a, b);
      SameEdgeKeyIff(m.path, v, a, b);
      assert IsEdgeKey(cycles, EdgeKey(m.path, v));
    } else {
      forall m, v | m in ms && v in m.imports
        ensures IsEdgeKey(cycles, EdgeKey(m.path, v)) <==> OnCycle(cycles, m.path, v)
      {
        if IsEdgeKey(cycles, EdgeKey(m.path, v)) {
          var k, i :| 0 <= k < |cycles| && 0 <= i < |cycles[k]| - 1 &&
            EdgeKey(m.path, v) == EdgeKey(cycles[k][i], cycles[k][i + 1]);
          SameEdgeKeyIff(m.path, v, cycles[k][i], cycles[k][i + 1]);
          assert OnCycle(cycles, cycles[k][i], cycles[k][i + 1]);
        }
      }
    }
  }

  lemma ArrowFreeSplitsOnce(u: string, v: string, a: string, b: string)
    requires ArrowFree(u) && ArrowFree(a)
    ensures !OneTextTwoEdges(u, v, a, b)
  {
    forall x ensures a != u + ARROW + x && u != a + ARROW + x {
      HasArrow(u, x);
      HasArrow(a, x);
    }
  }

  lemma HasArrow(u: string, x: string)
    ensures !ArrowFree(u + ARROW + x)
  {
    var s := u + ARROW + x;
    assert s[|u|] == '-' && s[|u| + 1] == '>';
  }

  lemma ArrowFreeKeysDecide(ms: seq<Module>, cycles: seq<Cycle>)
    requires NamesArrowFree(ms) && forall c :: c in cycles ==> AllArrowFree(c)
    ensures KeysDecide(ms, cycles)
  {
    hide ArrowFree, OneTextTwoEdges;
    forall m, v, a, b | m in ms && v in m.imports && OnCycle(cycles, a, b)
      ensures !OneTextTwoEdges(m.path, v, a, b)
    {
      var k, i :| 0 <= k < |cycles| && 0 <= i < |cycles[k]| - 1 && cycles[k][i] == a && cycles[k][i + 1] == b;
      assert cycles[k] in cycles;
      ArrowFreeSplitsOnce(m.path, v, a, b);
    }
    KeysDecideIff(ms, cycles);
  }

  // ---------------------------------------------------------------------------------
  // The text

  /** The lines of an import, on and off the cycles, and of a module. */
  lemma LinesAreText(u: string, v: string)
    ensures EdgeLine(u, v, true) == "  \"" + u + "\" -> \"" + v + "\" [color=red, penwidth=2];"
    ensures EdgeLine(u, v, false) == "  \"" + u + "\" -> \"" + v + "\";"
    ensures NodeLine(u) == "  \"" + u + "\" [label=\"" + Label(u) + "\"];"
  {
    var edge := "  \"" + u + "\" -> \"" + v;
    assert edge + "\"" + ";" == edge + "\";";
    assert "\"" + " [color=red, penwidth=2];" == "\" [color=red, penwidth=2];";
    assert edge + "\"" + " [color=red, penwidth=2];" == edge + ("\"" + " [color=red, penwidth=2];");
  }

  lemma EndsIff(path: string, y: string, e: string)
    ensures path == y + e <==> |e| <= |path| && EndsWith(path, e) && y == path[..|path| - |e|]
  {
    if EndsWith(path, e) {
      assert path == path[..|path| - |e|] + path[|path| - |e|..];
    }
  }

  lemma EndingAt(path: string, e: string, k: nat)
    requires EndsWith(path, e) && k < |e|
    ensures path[|path| - |e| + k] == e[k]
  {
    assert e[k] == path[|path| - |e|..][k];
  }

  lemma NotBothEndings(path: string)
    ensures !(EndsWith(path, ".ts") && EndsWith(path, ".tsx"))
  {
    hide EndsWith;
    if EndsWith(path, ".ts") && EndsWith(path, ".tsx") {
      EndingAt(path, ".ts", 2);
      EndingAt(path, ".tsx", 3);
    }
  }

  /** A label is the path without a final ".ts" or ".tsx", if it has one. */
  lemma LabelIff(path: string, x: string)
    ensures Label(path) == x <==>
      path == x + ".ts" || path == x + ".tsx" ||
      (x == path && forall y :: path != y + ".ts" && path != y + ".tsx")
  {
    NotBothEndings(path);
    forall y: string
      ensures (path == y + ".ts" ==> EndsWith(path, ".ts")) && (path == y + ".tsx" ==> EndsWith(path, ".tsx"))
    {
      EndsIff(path, y, ".ts");
      EndsIff(path, y, ".tsx");
    }
    EndsIff(path, x, ".ts");
    EndsIff(path, x, ".tsx");
    if EndsWith(path, ".ts") { EndsIff(path, path[..|path| - 3], ".ts"); }
    if EndsWith(path, ".tsx") { EndsIff(path, path[..|path| - 4], ".tsx"); }
  }

  /** The text begins and ends like this, with the lines of the modules in between. */
  lemma PictureFrame(test: Test, ms: seq<Module>, cycles: seq<Cycle>)
    ensures Picture(test, ms, cycles) ==
      ["digraph imports {", "  rankdir=LR;", "  node [shape=box];"] + ModuleLines(test, cycles, ms) + ["}"]
  {
  }

  lemma EdgeLineShowsRed(u: string, v: string)
    ensures EdgeLine(u, v, true) != EdgeLine(u, v, false)
  {
    assert |EdgeLine(u, v, true)| != |EdgeLine(u, v, false)|;
  }

  ghost predicate TestsAgree(cycles: seq<Cycle>, path: string, imports: seq<string>) {
    forall v :: v in imports ==> (Red(ByKey, cycles, path, v) <==> Red(ByEdge, cycles, path, v))
  }

  /** The edge lines come out the same exactly when the two tests agree on every import. */
  lemma {:induction false} SameEdgeLinesIff(cycles: seq<Cycle>, path: string, imports: seq<string>)
    ensures EdgeLines(ByKey, cycles, path, imports) == EdgeLines(ByEdge, cycles, path, imports) <==>
      TestsAgree(cycles, path, imports)
  {
    hide EdgeLine, Red;
    if imports != [] {
      var init, v := imports[..|imports| - 1], Last(imports);
      assert imports == init + [v];
      SameEdgeLinesIff(cycles, path, init);
      EdgeLineShowsRed(path, v);
      SameConcat(EdgeLines(ByKey, cycles, path, init), EdgeLines(ByEdge, cycles, path, init),
        [EdgeLine(path, v, Red(ByKey, cycles, path, v))], [EdgeLine(path, v, Red(ByEdge, cycles, path, v))]);
      assert [EdgeLine(path, v, Red(ByKey, cycles, path, v))][0] == EdgeLine(path, v, Red(ByKey, cycles, path, v));
      assert [EdgeLine(path, v, Red(ByEdge, cycles, path, v))][0] == EdgeLine(path, v, Red(ByEdge, cycles, path, v));
    }
  }

  lemma SameConcat(a: seq<string>, b: seq<string>, c: seq<string>, d: seq<string>)
    requires |a| == |b|
    ensures a + c == b + d <==> a == b && c == d
  {
    assert (a + c)[..|a|] == a && (b + d)[..|b|] == b && (a + c)[|a|..] == c && (b + d)[|b|..] == d;
  }

  lemma {:induction false} SameModuleLinesIff(cycles: seq<Cycle>, ms: seq<Module>)
    ensures |ModuleLines(ByKey, cycles, ms)| == |ModuleLines(ByEdge, cycles, ms)|
    ensures ModuleLines(ByKey, cycles, ms) == ModuleLines(ByEdge, cycles, ms) <==>
      forall m :: m in ms ==> TestsAgree(cycles, m.path, m.imports)
  {
    hide EdgeLine, NodeLine, TestsAgree, EdgeLines;
    if ms != [] {
      var init, m := ms[..|ms| - 1], Last(ms);
      assert ms == init + [m];
      assert forall x :: x in ms <==> x in init || x == m;
      SameModuleLinesIff(cycles, init);
      SameEdgeLinesIff(cycles, m.path, m.imports);
      var a, b, node := ModuleLines(ByKey, cycles, init), ModuleLines(ByEdge, cycles, init), [NodeLine(m.path)];
      SameConcat(a, b, node, node);
      SameConcat(a + node, b + node,
        EdgeLines(ByKey, cycles, m.path, m.imports), EdgeLines(ByEdge, cycles, m.path, m.imports));
    }
  }

  /**
   The script paints exactly the imports on the cycles exactly when no import off the cycles and import on
   one of them are the same text split at two places.
   */
  lemma PaintsExactlyIff(ms: seq<Module>, cycles: seq<Cycle>)
    ensures Picture(ByKey, ms, cycles) == Picture(ByEdge, ms, cycles) <==> !NamesConfused(ms, cycles)
  {
    hide EdgeKey, OnCycle, IsEdgeKey, ModuleLines, NamesConfused;
    SameModuleLinesIff(cycles, ms);
    var a, b := ModuleLines(ByKey, cycles, ms), ModuleLines(ByEdge, cycles, ms);
    SameConcat(HEADER, HEADER, a, b);
    SameConcat(HEADER + a, HEADER + b, ["}"], ["}"]);
    KeysDecideIff(ms, cycles);
  }

  lemma DetectedArrowFree(ms: seq<Module>, c: Cycle)
    requires NamesArrowFree(ms) && c in Detect(ms)
    ensures AllArrowFree(c)
  {
    ReportedWereMet(ms);
    FoundIsGood(ms, c);
    CycleArrowFree(ms, c);
  }

  // ---------------------------------------------------------------------------------
  // The printer

  method CollectEdgeKeys(cycles: seq<Cycle>) returns (keys: set<string>)
    ensures forall key :: key in keys <==> IsEdgeKey(cycles, key)
  {
    hide EdgeKey;
    keys := {};
    for k := 0 to |cycles|
      invariant forall key :: key in keys <==> IsEdgeKey(cycles[..k], key)
    {
      var c, i := cycles[k], 0;
      assert c[..0] == [];
      assert forall key :: !KeyAlong([], key);
      while i < |c| - 1
        invariant 0 <= i <= |c|
        invariant i == 0 || i <= |c| - 1
        invariant forall key :: key in keys <==>
          IsEdgeKey(cycles[..k], key) || KeyAlong(c[..if |c| == 0 then 0 else i + 1], key)
      {
        KeyAlongSnoc(c[..i + 1], c[i + 1]);
        assert c[..i + 2] == c[..i + 1] + [c[i + 1]];
        keys := keys + {EdgeKey(c[i], c[i + 1])};
        i := i + 1;
      }
      assert c[..if |c| == 0 then 0 else i + 1] == c;
      assert cycles[..k + 1] == cycles[..k] + [c];
      EdgeKeysSnoc(cycles[..k], c);
    }
    assert cycles[..|cycles|] == cycles;
  }

  ghost predicate KeyAlong(c: Cycle, key: string) {
    exists j :: 0 <= j < |c| - 1 && key == EdgeKey(c[j], c[j + 1])
  }

  lemma KeyAlongSnoc(c: Cycle, x: string)
    requires c != []
    ensures forall key :: KeyAlong(c + [x], key) <==> KeyAlong(c, key) || key == EdgeKey(Last(c), x)
  {
    hide EdgeKey;
    var long := c + [x];
    forall key ensures KeyAlong(long, key) <==> KeyAlong(c, key) || key == EdgeKey(Last(c), x) {
      if KeyAlong(long, key) {
        var j :| 0 <= j < |long| - 1 && key == EdgeKey(long[j], long[j + 1]);
        assert j < |c| - 1 ==> c[j] == long[j] && c[j + 1] == long[j + 1];
      }
      if KeyAlong(c, key) {
        var j :| 0 <= j < |c| - 1 && key == EdgeKey(c[j], c[j + 1]);
        assert c[j] == long[j] && c[j + 1] == long[j + 1];
      }
      assert long[|c| - 1] == Last(c) && long[|c| - 1 + 1] == x;
    }
  }

  lemma EdgeKeysSnoc(cycles: seq<Cycle>, c: Cycle)
    ensures forall key :: IsEdgeKey(cycles + [c], key) <==> IsEdgeKey(cycles, key) || KeyAlong(c, key)
  {
    hide EdgeKey;
    var all := cycles + [c];
    forall key ensures IsEdgeKey(all, key) <==> IsEdgeKey(cycles, key) || KeyAlong(c, key) {
      if IsEdgeKey(cycles, key) {
        var k, i :| 0 <= k < |cycles| && 0 <= i < |cycles[k]| - 1 && key == EdgeKey(cycles[k][i], cycles[k][i + 1]);
        assert all[k] == cycles[k];
      }
      if KeyAlong(c, key) {
        var j :| 0 <= j < |c| - 1 && key == EdgeKey(c[j], c[j + 1]);
        assert all[|cycles|] == c;
      }
    }
  }

  method GenerateDot(ms: seq<Module>, cycles: seq<Cycle>) returns (dot: string)
    ensures dot == Join(Picture(ByKey, ms, cycles), "\n")
  {
    hide EdgeKey, EdgeLine, NodeLine, OnCycle, IsEdgeKey;
    var cycleEdges := CollectEdgeKeys(cycles);
    var lines := HEADER;
    for i := 0 to |ms|
      invariant lines == HEADER + ModuleLines(ByKey, cycles, ms[..i])
    {
      var m := ms[i];
      lines := lines + [NodeLine(m.path)];
      ghost var before := lines;
      for j := 0 to |m.imports|
        invariant lines == before + EdgeLines(ByKey, cycles, m.path, m.imports[..j])
      {
        var imp := m.imports[j];
        assert m.imports[..j + 1][..j] == m.imports[..j] && Last(m.imports[..j + 1]) == imp;
        lines := lines + [EdgeLine(m.path, imp, EdgeKey(m.path, imp) in cycleEdges)];
      }
      assert m.imports[..|m.imports|] == m.imports;
      assert ms[..i + 1][..i] == ms[..i] && Last(ms[..i + 1]) == m;
    }
    assert ms[..|ms|] == ms;
    lines := lines + ["}"];
    dot := Join(lines, "\n");
  }

  /** The run of the script with `--dot`: imports on reported cycles, and only those, are red. */
  method PrintDot(ms: seq<Module>) returns (dot: string)
    ensures dot == Join(Picture(ByKey, ms, Detect(ms)), "\n")
    ensures NamesArrowFree(ms) ==> dot == Join(Picture(ByEdge, ms, Detect(ms)), "\n")
  {
    hide NamesArrowFree, KeysDecide, NamesConfused, Picture;
    var cycles := DetectCycles(ms);
    dot := GenerateDot(ms, cycles);
    if NamesArrowFree(ms) {
      forall c | c in cycles ensures AllArrowFree(c) {
        DetectedArrowFree(ms, c);
      }
      ArrowFreeKeysDecide(ms, cycles);
      KeysDecideIff(ms, cycles);
      PaintsExactlyIff(ms, cycles);
    }
  }

  // ---------------------------------------------------------------------------------
  // The picture prints every edge of every reported cycle, in red

  lemma {:induction false} EdgeLinePresent(
    test: Test, cycles: seq<Cycle>, path: string, imports: seq<string>, v: string)
    requires v in imports
    ensures EdgeLine(path, v, Red(test, cycles, path, v)) in EdgeLines(test, cycles, path, imports)
  {
    hide EdgeLine, Red;
    var init := imports[..|imports| - 1];
    assert imports == init + [Last(imports)];
    if v != Last(imports) {
      EdgeLinePresent(test, cycles, path, init, v);
    }
  }

  lemma {:induction false} ModuleEdgePresent(test: Test, cycles: seq<Cycle>, ms: seq<Module>, m: Module, v: string)
    requires m in ms && v in m.imports
    ensures EdgeLine(m.path, v, Red(test, cycles, m.path, v)) in ModuleLines(test, cycles, ms)
  {
    hide EdgeLine, Red;
    var init := ms[..|ms| - 1];
    assert ms == init + [Last(ms)];
    if m == Last(ms) {
      EdgeLinePresent(test, cycles, m.path, m.imports, v);
    } else {
      ModuleEdgePresent(test, cycles, init, m, v);
    }
  }

  /** Whatever the names, no edge of a reported cycle is missing or left black. */
  lemma CycleEdgesAreRed(ms: seq<Module>, c: Cycle, i: nat)
    requires c in Detect(ms) && i < |c| - 1
    ensures "  \"" + c[i] + "\" -> \"" + c[i + 1] + "\" [color=red, penwidth=2];" in Picture(ByKey, ms, Detect(ms))
  {
    hide EdgeLine, EdgeKey;
    LinesAreText(c[i], c[i + 1]);
    ReportedCyclesAreReal(ms, c);
    assert ImportOf(ms, c[i], c[i + 1]);
    var m :| m in ms && m.path == c[i] && c[i + 1] in m.imports;
    ModuleEdgePresent(ByKey, Detect(ms), ms, m, c[i + 1]);
    var k := IndexOf(Detect(ms), c);
    assert IsEdgeKey(Detect(ms), EdgeKey(Detect(ms)[k][i], Detect(ms)[k][i + 1]));
  }

  // ---------------------------------------------------------------------------------
  // An import off the cycles that is painted red

  /** Three modules; the names of one import and of one module are themselves edge keys. */
  function Confused(a: string, b: string, c: string): seq<Module> {
    [Module(a, [EdgeKey(b, c)]), Module(EdgeKey(a, b), [c]), Module(c, [EdgeKey(a, b)])]
  }

  predicate Apart(a: string, b: string, c: string) {
    ArrowFree(a) && ArrowFree(b) && ArrowFree(c) && a != c
  }

  lemma ConfusedImports(a: string, b: string, c: string, u: string, v: string)
    requires ImportOf(Confused(a, b, c), u, v)
    ensures (u == a && v == EdgeKey(b, c)) || (u == EdgeKey(a, b) && v == c) || (u == c && v == EdgeKey(a, b))
  {
    hide EdgeKey;
  }

  lemma ConfusedNames(a: string, b: string, c: string)
    requires Apart(a, b, c)
    ensures a != EdgeKey(a, b) && EdgeKey(a, b) != c && EdgeKey(b, c) !in {a, EdgeKey(a, b), c}
  {
    hide ArrowFree;
    HasArrow(a, b);
    HasArrow(b, c);
    SameEdgeKeyIff(b, c, a, b);
    ArrowFreeSplitsOnce(b, c, a, b);
  }

  /** The first module's import lies on no cycle: nothing is imported by it. */
  lemma ConfusedOffCycle(a: string, b: string, c: string, w: Cycle, i: nat)
    requires Apart(a, b, c) && w in Detect(Confused(a, b, c)) && i < |w| - 1
    ensures w[i + 1] != EdgeKey(b, c)
  {
    hide Detect, EdgeKey, Apart;
    var ms := Confused(a, b, c);
    ReportedCyclesAreReal(ms, w);
    ConfusedNames(a, b, c);
    var next := if i + 1 < |w| - 1 then i + 1 else 0;
    assert w[next] == w[i + 1] && ImportOf(ms, w[next], w[next + 1]);
    ConfusedImports(a, b, c, w[next], w[next + 1]);
  }

  lemma ConfusedWalk(a: string, b: string, c: string)
    requires Apart(a, b, c)
    ensures ClosedWalk(AdjList(Confused(a, b, c)), [EdgeKey(a, b), c, EdgeKey(a, b)])
  {
    hide EdgeKey, ArrowFree;
    ConfusedNames(a, b, c);
    var ab, bc := EdgeKey(a, b), EdgeKey(b, c);
    var ms := Confused(a, b, c);
    var m0, m1 := ms[0], ms[1];
    assert ms[..2] == [m0, m1] && [m0, m1][..1] == [m0] && [m0][..0] == [];
    assert AdjList([m0]) == map[a := [bc]];
    assert AdjList([m0, m1]) == map[a := [bc], ab := [c]];
    var g, w := AdjList(ms), [ab, c, ab];
    assert Neighbors(g, ab) == [c] && Neighbors(g, c) == [ab];
    assert c in Neighbors(g, w[0]) && ab in Neighbors(g, w[1]);
  }

  lemma SomeCycleReported(ms: seq<Module>, w: seq<string>) returns (c: Cycle)
    requires ClosedWalk(AdjList(ms), w)
    ensures c in Detect(ms)
  {
    hide Detect, ClosedWalk, AdjList;
    PassedIffAcyclic(ms);
    c := Detect(ms)[0];
  }

  lemma ConfusedOnCycle(a: string, b: string, c: string)
    requires Apart(a, b, c)
    ensures OnCycle(Detect(Confused(a, b, c)), EdgeKey(a, b), c)
  {
    hide Detect, EdgeKey, Apart;
    var ms, ab := Confused(a, b, c), EdgeKey(a, b);
    var cycles := Detect(ms);
    ConfusedWalk(a, b, c);
    var w := SomeCycleReported(ms, [ab, c, ab]);
    var k := IndexOf(cycles, w);
    ReportedCyclesAreReal(ms, w);
    ConfusedNames(a, b, c);
    assert ImportOf(ms, w[0], w[1]);
    ConfusedImports(a, b, c, w[0], w[1]);
    if w[0] == ab {
      assert cycles[k][0] == ab && cycles[k][0 + 1] == c;
    } else {
      ConfusedOffCycle(a, b, c, w, 0);
      assert w[0] == c && |w| > 2;
      assert ImportOf(ms, w[1], w[1 + 1]);
      ConfusedImports(a, b, c, w[1], w[1 + 1]);
      assert cycles[k][1] == ab && cycles[k][1 + 1] == c;
    }
  }

  lemma ConfusedNotOnCycle(a: string, b: string, c: string)
    requires Apart(a, b, c)
    ensures !OnCycle(Detect(Confused(a, b, c)), a, EdgeKey(b, c))
  {
    hide Detect, EdgeKey, Apart, Confused;
    var cycles := Detect(Confused(a, b, c));
    if OnCycle(cycles, a, EdgeKey(b, c)) {
      var k, i :|
        0 <= k < |cycles| && 0 <= i < |cycles[k]| - 1 && cycles[k][i] == a && cycles[k][i + 1] == EdgeKey(b, c);
      ConfusedOffCycle(a, b, c, cycles[k], i);
    }
  }

  lemma ConfusedSplit(a: string, b: string, c: string)
    ensures OneTextTwoEdges(a, EdgeKey(b, c), EdgeKey(a, b), c)
    ensures EdgeKey(a, EdgeKey(b, c)) == EdgeKey(EdgeKey(a, b), c)
  {
    SplitsSameText(a, EdgeKey(b, c), EdgeKey(a, b), c);
  }

  /**
   For all names a, b and c without "->", such as "a.ts", "b.ts" and "c.ts", and a other than c: the import of
   b -> c in a lies on no cycle, and the script paints it red.
   */
  lemma ArrowNamesPaintTooMuch(a: string, b: string, c: string)
    requires Apart(a, b, c)
    ensures var ms, bc := Confused(a, b, c), EdgeKey(b, c);
      !OnCycle(Detect(ms), a, bc) && EdgeLine(a, bc, true) in Picture(ByKey, ms, Detect(ms)) &&
      Picture(ByKey, ms, Detect(ms)) != Picture(ByEdge, ms, Detect(ms))
  {
    hide OnCycle, Picture, EdgeLine, Detect, OneTextTwoEdges, EdgeKey, IsEdgeKey, ModuleLines, Apart;
    var ms, ab, bc := Confused(a, b, c), EdgeKey(a, b), EdgeKey(b, c);
    var cycles, m := Detect(ms), ms[0];
    ConfusedNotOnCycle(a, b, c);
    ConfusedOnCycle(a, b, c);
    ConfusedSplit(a, b, c);
    assert m in ms && m.path == a && m.imports[0] == bc;
    assert NamesConfused(ms, cycles);
    PaintsExactlyIff(ms, cycles);
    CycleEdgeKey(cycles, ab, c);
    ModuleEdgePresent(ByKey, cycles, ms, m, bc);
    InPicture(ByKey, ms, cycles, EdgeLine(a, bc, true));
  }

  lemma CycleEdgeKey(cycles: seq<Cycle>, a: string, b: string)
    requires OnCycle(cycles, a, b)
    ensures IsEdgeKey(cycles, EdgeKey(a, b))
  {
    var k, i :| 0 <= k < |cycles| && 0 <= i < |cycles[k]| - 1 && cycles[k][i] == a && cycles[k][i + 1] == b;
    assert EdgeKey(a, b) == EdgeKey(cycles[k][i], cycles[k][i + 1]);
  }

  lemma InPicture(test: Test, ms: seq<Module>, cycles: seq<Cycle>, line: string)
    requires line in ModuleLines(test, cycles, ms)
    ensures line in Picture(test, ms, cycles)
  {
  }
}
