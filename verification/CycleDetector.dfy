/** `detectCycles` as the object its closures share, and what its report means. */
module CycleDetector {
  import opened Text
  import opened CycleKeys
  import opened ImportGraph
  import opened CycleSearch

  class Detector {
    const adj: Graph
    var cycles: seq<Cycle>
    var visited: set<string>
    var inStack: set<string>
    var pathStack: seq<string>
    ghost var order: seq<string>
    ghost var finished: seq<string>
    ghost var found: seq<Cycle>

    ghost function State(): Search
      reads this
    {
      Search(order, pathStack, finished, found, cycles)
    }

    ghost predicate Valid()
      reads this
    {
      (forall n :: n in visited <==> n in order) && (forall n :: n in inStack <==> n in pathStack) &&
      Shape(adj, State())
    }

    constructor (g: Graph)
      ensures adj == g && State() == START && Valid()
    {
      adj := g;
      cycles, visited, inStack, pathStack := [], {}, {}, [];
      order, finished, found := [], [], [];
    }

    /** `pathStack.indexOf(node)`. */
    method StackIndex(node: string) returns (k: int)
      ensures node in pathStack ==> 0 <= k < |pathStack| && k == IndexOf(pathStack, node)
      ensures node !in pathStack ==> k == -1
    {
      for i := 0 to |pathStack|
        invariant forall j :: 0 <= j < i ==> pathStack[j] != node
      {
        if pathStack[i] == node {
          return i;
        }
      }
      return -1;
    }

    /** The branch of `dfs` for a node on the path stack. */
    method ReportCycle(node: string)
      requires Valid() && node in inStack
      modifies `cycles, `found
      ensures State() == Report(old(State()), node)
    {
      hide Shape;
      var cycleStart := StackIndex(node);
      if cycleStart >= 0 {
        var cycle := pathStack[cycleStart..] + [node];
        var isDuplicate := exists c :: c in cycles && CycleKey(c) == CycleKey(cycle);
        if !isDuplicate {
          cycles := cycles + [cycle];
        }
        found := found + [cycle];
      }
    }

    method Enter(node: string)
      requires Valid() && Next(adj, pathStack, node) && node !in visited
      modifies this
      ensures Valid() && State() == Push(old(State()), node)
    {
      PushShape(adj, State(), node);
      visited := visited + {node};
      inStack := inStack + {node};
      pathStack := pathStack + [node];
      order := order + [node];
    }

    method Leave(node: string)
      requires Valid() && pathStack != [] && Last(pathStack) == node
      modifies this
      ensures Valid() && State() == Pop(old(State()), node)
    {
      PopKeepsStackSet(adj, State(), node);
      PopShape(adj, State(), node);
      pathStack := pathStack[..|pathStack| - 1];
      inStack := inStack - {node};
      finished := finished + [node];
    }

    method Dfs(node: string)
      requires Valid() && Next(adj, pathStack, node)
      modifies this
      ensures Valid() && State() == Visit(adj, old(State()), node)
      decreases Unvisited(adj, State()), 0, 1
    {
      hide Shape;
      ghost var s := State();
      if node in inStack {
        VisitShape(adj, s, node);
        ReportCycle(node);
        return;
      }
      if node in visited {
        return;
      }

      Enter(node);
      ghost var s1 := State();
      var neighbors := if node in adj then adj[node] else [];
      assert node in adj ==> node in Unvisited(adj, s) && node !in Unvisited(adj, s1);
      assert node !in adj ==> Unvisited(adj, s) == Unvisited(adj, s1);
      DfsAll(neighbors);
      assert Last(pathStack) == node;
      Leave(node);
    }

    /** The loop `for (const n of ns) dfs(n)`. */
    method DfsAll(ns: seq<string>)
      requires Valid() && AllNext(adj, pathStack, ns)
      modifies this
      ensures Valid() && State() == VisitAll(adj, old(State()), ns)
      decreases Unvisited(adj, State()), |ns|, 0
    {
      hide Shape;
      ghost var s := State();
      assert ns[0..] == ns;
      for i := 0 to |ns|
        invariant Valid() && Extends(s, State()) && pathStack == s.stack
        invariant VisitAll(adj, State(), ns[i..]) == VisitAll(adj, s, ns)
      {
        assert ns[i..][0] == ns[i] && ns[i..][1..] == ns[i + 1..];
        assert Unvisited(adj, State()) <= Unvisited(adj, s);
        Dfs(ns[i]);
      }
      assert ns[|ns|..] == [];
    }
  }

  lemma PopKeepsStackSet(g: Graph, s: Search, node: string)
    requires Shape(g, s) && s.stack != [] && Last(s.stack) == node
    ensures forall n :: n in Pop(s, node).stack <==> n in s.stack && n != node
  {
    AscendingIsDistinct(s.visited, s.stack);
    assert s.stack == Pop(s, node).stack + [node];
  }

  method DetectCycles(modules: seq<Module>) returns (cycles: seq<Cycle>)
    ensures cycles == Detect(modules)
  {
    var adjList: Graph := map[];
    for i := 0 to |modules|
      invariant adjList == AdjList(modules[..i])
    {
      assert modules[..i + 1][..i] == modules[..i];
      adjList := adjList[modules[i].path := modules[i].imports];
    }
    assert modules[..|modules|] == modules;

    var detector := new Detector(adjList);
    var paths := seq(|modules|, i requires 0 <= i < |modules| => modules[i].path);
    detector.DfsAll(paths);
    return detector.cycles;
  }

  // ---------------------------------------------------------------------------------
  // The finished search

  ghost predicate Complete(ms: seq<Module>, s: Search) {
    var g := AdjList(ms);
    Shape(g, s) && Found(g, s) && Topological(g, s.finished, s.found) && s.stack == [] &&
    forall n :: n in g ==> n in s.finished
  }

  lemma {:induction false} AdjListKeys(ms: seq<Module>, n: string)
    ensures n in AdjList(ms) <==> n in Paths(ms)
  {
    if ms != [] {
      var init := ms[..|ms| - 1];
      AdjListKeys(init, n);
      assert Paths(ms) == Paths(init) + [ms[|ms| - 1].path];
    }
  }

  lemma SearchIsComplete(ms: seq<Module>)
    ensures Complete(ms, SearchOf(ms))
  {
    var g, paths := AdjList(ms), Paths(ms);
    VisitAllShape(g, START, paths);
    VisitAllFound(g, START, paths);
    VisitAllTopological(g, START, paths);
    var s := SearchOf(ms);
    forall n | n in g ensures n in s.finished {
      AdjListKeys(ms, n);
      assert Handled(s, paths[IndexOf(paths, n)]);
    }
  }

  lemma FoundIsGood(ms: seq<Module>, c: Cycle)
    requires c in SearchOf(ms).found
    ensures GoodCycle(AdjList(ms), SearchOf(ms).visited, c)
  {
    hide GoodCycle, Shape, Topological;
    SearchIsComplete(ms);
    var k := IndexOf(SearchOf(ms).found, c);
  }

  // ---------------------------------------------------------------------------------
  // De-duplication

  /** The cycles met, each kept unless an earlier one had the same key. */
  ghost function KeepFirst(found: seq<Cycle>): seq<Cycle> {
    if found == [] then [] else Record(KeepFirst(found[..|found| - 1]), Last(found))
  }

  lemma {:induction false} VisitKeepsFirst(g: Graph, s: Search, node: string)
    requires s.cycles == KeepFirst(s.found)
    ensures var t := Visit(g, s, node); t.cycles == KeepFirst(t.found)
    decreases Unvisited(g, s), 0
  {
    if node in s.stack {
      var t := Report(s, node);
      assert t.found[..|t.found| - 1] == s.found;
    } else if node !in s.visited && node in g {
      assert node in Unvisited(g, s) && node !in Unvisited(g, Push(s, node));
      VisitAllKeepsFirst(g, Push(s, node), g[node]);
    }
  }

  lemma {:induction false} VisitAllKeepsFirst(g: Graph, s: Search, ns: seq<string>)
    requires s.cycles == KeepFirst(s.found)
    ensures var t := VisitAll(g, s, ns); t.cycles == KeepFirst(t.found)
    decreases Unvisited(g, s), |ns|
  {
    if ns != [] {
      assert Unvisited(g, Visit(g, s, ns[0])) <= Unvisited(g, s);
      VisitKeepsFirst(g, s, ns[0]);
      VisitAllKeepsFirst(g, Visit(g, s, ns[0]), ns[1..]);
    }
  }

  ghost predicate KeysDiffer(cs: seq<Cycle>) {
    forall i, j :: 0 <= i < j < |cs| ==> CycleKey(cs[i]) != CycleKey(cs[j])
  }

  ghost predicate HasKey(cs: seq<Cycle>, key: string) {
    exists d :: d in cs && CycleKey(d) == key
  }

  lemma RecordKeys(cs: seq<Cycle>, c: Cycle)
    requires KeysDiffer(cs)
    ensures KeysDiffer(Record(cs, c)) && |Record(cs, c)| <= |cs| + 1 && Record(cs, c) != []
    ensures HasKey(Record(cs, c), CycleKey(c)) && forall key :: HasKey(cs, key) ==> HasKey(Record(cs, c), key)
    ensures forall d :: d in Record(cs, c) ==> d in cs || d == c
  {
    hide CycleKey;
    var r := Record(cs, c);
    if !HasKey(cs, CycleKey(c)) {
      assert r == cs + [c] && c in r;
      forall i | 0 <= i < |cs| ensures CycleKey(cs[i]) != CycleKey(c) {
        assert cs[i] in cs;
      }
    }
    forall key | HasKey(cs, key) ensures HasKey(r, key) {
      var d :| d in cs && CycleKey(d) == key;
      assert d in r;
    }
  }

  lemma {:induction false} KeepFirstKeys(found: seq<Cycle>)
    ensures KeysDiffer(KeepFirst(found)) && |KeepFirst(found)| <= |found|
    ensures forall c :: c in KeepFirst(found) ==> c in found
    ensures forall c :: c in found ==> HasKey(KeepFirst(found), CycleKey(c))
    ensures found != [] ==> KeepFirst(found) != []
  {
    hide CycleKey, HasKey, Record;
    if found != [] {
      var init := found[..|found| - 1];
      assert found == init + [Last(found)];
      KeepFirstKeys(init);
      RecordKeys(KeepFirst(init), Last(found));
    }
  }

  // ---------------------------------------------------------------------------------
  // Two cycles of one search with the same nodes are the same cycle

  lemma AscendingHead(order: seq<string>, xs: seq<string>, n: string)
    requires Ascending(order, xs) && n in xs
    ensures IndexOf(order, xs[0]) <= IndexOf(order, n)
  {
    var i := IndexOf(xs, n);
  }

  lemma HasMember(xs: seq<string>)
    requires xs != []
    ensures exists n :: n in xs
  {
    assert xs[0] in xs;
  }

  lemma {:induction false} AscendingIsUnique(order: seq<string>, xs: seq<string>, ys: seq<string>)
    requires Ascending(order, xs) && Ascending(order, ys) && forall n :: n in xs <==> n in ys
    ensures xs == ys
  {
    if xs == [] {
      if ys != [] { HasMember(ys); }
    } else {
      assert xs[0] in ys && ys[0] in xs;
      AscendingHead(order, ys, xs[0]);
      AscendingHead(order, xs, ys[0]);
      AscendingDrop(order, xs, 1);
      AscendingDrop(order, ys, 1);
      AscendingIsDistinct(order, xs);
      AscendingIsDistinct(order, ys);
      assert xs == [xs[0]] + xs[1..] && ys == [ys[0]] + ys[1..];
      forall n ensures n in xs[1..] <==> n in ys[1..] {
        assert n in xs <==> n in ys;
      }
      AscendingIsUnique(order, xs[1..], ys[1..]);
    }
  }

  /** A cycle's nodes are those before its last one. */
  lemma InnerNodes(c: Cycle, n: string)
    requires |c| >= 2 && c[0] == c[|c| - 1]
    ensures n in c[..|c| - 1] <==> n in multiset(c)
  {
    assert c == c[..|c| - 1] + [c[0]] && c[..|c| - 1][0] == c[0];
  }

  lemma SameNodesSameCycle(g: Graph, order: seq<string>, c: Cycle, d: Cycle)
    requires GoodCycle(g, order, c) && GoodCycle(g, order, d) && multiset(c) == multiset(d)
    ensures c == d
  {
    hide Ascending;
    var c', d' := c[..|c| - 1], d[..|d| - 1];
    forall n ensures n in c' <==> n in d' {
      InnerNodes(c, n);
      InnerNodes(d, n);
    }
    AscendingIsUnique(order, c', d');
    assert c == c' + [c'[0]] && d == d' + [d'[0]];
  }

  /** No module or imported name holds the text "->". */
  ghost predicate NamesArrowFree(ms: seq<Module>) {
    forall m :: m in ms ==> ArrowFree(m.path) && AllArrowFree(m.imports)
  }

  lemma {:induction false} AdjListImports(ms: seq<Module>, n: string)
    requires n in AdjList(ms)
    ensures exists m :: m in ms && m.path == n && m.imports == AdjList(ms)[n]
  {
    var init, last := ms[..|ms| - 1], ms[|ms| - 1];
    if n == last.path {
      assert last in ms;
    } else {
      AdjListImports(init, n);
      var m :| m in init && m.path == n && m.imports == AdjList(init)[n];
      assert m in ms;
    }
  }

  lemma CycleArrowFree(ms: seq<Module>, c: Cycle)
    requires NamesArrowFree(ms) && ClosedWalk(AdjList(ms), c)
    ensures AllArrowFree(c)
  {
    var g := AdjList(ms);
    forall i | 0 <= i < |c| ensures ArrowFree(c[i]) {
      var j := if i == 0 then |c| - 2 else i - 1;
      assert c[j + 1] in Neighbors(g, c[j]);
      AdjListImports(ms, c[j]);
      var k := IndexOf(g[c[j]], c[i]);
    }
  }

  /** Two met cycles with different sorted node lists whose joined texts are equal. */
  ghost predicate KeysClash(found: seq<Cycle>) {
    exists c, d :: c in found && d in found && CycleKey(c) == CycleKey(d) && Sorted(c) != Sorted(d)
  }

  lemma SameKeySameCycle(ms: seq<Module>, c: Cycle, d: Cycle)
    requires c in SearchOf(ms).found && d in SearchOf(ms).found
    requires !KeysClash(SearchOf(ms).found) && CycleKey(c) == CycleKey(d)
    ensures c == d
  {
    hide Ascending, ClosedWalk;
    FoundIsGood(ms, c);
    FoundIsGood(ms, d);
    assert multiset(c) == multiset(Sorted(c)) == multiset(Sorted(d)) == multiset(d);
    SameNodesSameCycle(AdjList(ms), SearchOf(ms).visited, c, d);
  }

  lemma DifferentKeys(cs: seq<Cycle>, c: Cycle, d: Cycle)
    requires KeysDiffer(cs) && c in cs && d in cs && CycleKey(c) == CycleKey(d)
    ensures c == d
  {
    hide CycleKey;
    var i, j := IndexOf(cs, c), IndexOf(cs, d);
    assert cs[i] == c && cs[j] == d;
  }

  lemma KeysDifferIsDistinct(cs: seq<Cycle>)
    requires KeysDiffer(cs)
    ensures Distinct(cs)
  {
    hide CycleKey;
    forall i, j | 0 <= i < j < |cs| ensures cs[i] != cs[j] {
      assert CycleKey(cs[i]) != CycleKey(cs[j]);
    }
  }

  /** Every reported cycle was met, and no cycle is reported twice. */
  lemma ReportedWereMet(ms: seq<Module>)
    ensures var s := SearchOf(ms);
      KeysDiffer(s.cycles) && Distinct(s.cycles) && |s.cycles| <= |s.found| &&
      (s.found != [] ==> s.cycles != []) && forall c :: c in s.cycles ==> c in s.found
  {
    hide CycleKey, KeysDiffer;
    VisitAllKeepsFirst(AdjList(ms), START, Paths(ms));
    KeepFirstKeys(SearchOf(ms).found);
    KeysDifferIsDistinct(SearchOf(ms).cycles);
  }

  lemma KeyIsReported(ms: seq<Module>, c: Cycle) returns (d: Cycle)
    requires c in SearchOf(ms).found
    ensures d in SearchOf(ms).cycles && CycleKey(d) == CycleKey(c)
  {
    hide CycleKey, KeysDiffer;
    VisitAllKeepsFirst(AdjList(ms), START, Paths(ms));
    KeepFirstKeys(SearchOf(ms).found);
    d :| d in SearchOf(ms).cycles && CycleKey(d) == CycleKey(c);
  }

  ghost predicate AllReported(s: Search) {
    forall c :: c in s.found ==> c in s.cycles
  }

  /**
   The key test drops only repeats of a cycle, so that every cycle met is reported, exactly when joining
   the sorted names confuses no two lists.
   */
  lemma DedupIsExactIff(ms: seq<Module>)
    ensures AllReported(SearchOf(ms)) <==> !KeysClash(SearchOf(ms).found)
  {
    hide CycleKey, Sorted, KeysDiffer;
    var s := SearchOf(ms);
    ReportedWereMet(ms);
    if KeysClash(s.found) {
      var c, d :| c in s.found && d in s.found && CycleKey(c) == CycleKey(d) && Sorted(c) != Sorted(d);
      if AllReported(s) {
        DifferentKeys(s.cycles, c, d);
      }
    } else {
      forall c | c in s.found ensures c in s.cycles {
        var d := KeyIsReported(ms, c);
        SameKeySameCycle(ms, c, d);
      }
    }
  }

  /** Two import cycles, each through distinct nodes, have different sorted node lists whose joined texts are equal. */
  ghost predicate CyclesClash(g: Graph) {
    exists c, d :: SimpleCycle(g, c) && SimpleCycle(g, d) && CycleKey(c) == CycleKey(d) && Sorted(c) != Sorted(d)
  }

  ghost predicate SimpleCycle(g: Graph, c: Cycle) {
    ClosedWalk(g, c) && Distinct(c[..|c| - 1])
  }

  /** A condition on the import graph alone: no two of its cycles are confused. */
  lemma ClashFreeGraphIsExact(ms: seq<Module>)
    requires !CyclesClash(AdjList(ms))
    ensures AllReported(SearchOf(ms))
  {
    hide CycleKey, Sorted, ClosedWalk, Distinct;
    forall c, d | c in SearchOf(ms).found && d in SearchOf(ms).found && CycleKey(c) == CycleKey(d)
      ensures Sorted(c) == Sorted(d)
    {
      FoundIsSimple(ms, c);
      FoundIsSimple(ms, d);
    }
    DedupIsExactIff(ms);
  }

  lemma FoundIsSimple(ms: seq<Module>, c: Cycle)
    requires c in SearchOf(ms).found
    ensures SimpleCycle(AdjList(ms), c)
  {
    hide Ascending, ClosedWalk;
    FoundIsGood(ms, c);
    assert |c| >= 2 by { WalkIsLong(AdjList(ms), c); }
    AscendingIsDistinct(SearchOf(ms).visited, c[..|c| - 1]);
  }

  lemma WalkIsLong(g: Graph, w: seq<string>)
    requires ClosedWalk(g, w)
    ensures |w| >= 2
  {
  }

  /** Names without "->" never clash. */
  lemma DedupIsExact(ms: seq<Module>)
    requires NamesArrowFree(ms)
    ensures !CyclesClash(AdjList(ms)) && AllReported(SearchOf(ms))
  {
    hide CycleKey, Sorted, NamesArrowFree, ClosedWalk, Distinct, ArrowFree;
    var g := AdjList(ms);
    forall c, d | SimpleCycle(g, c) && SimpleCycle(g, d) && CycleKey(c) == CycleKey(d) ensures Sorted(c) == Sorted(d) {
      WalkIsLong(g, c);
      WalkIsLong(g, d);
      CycleArrowFree(ms, c);
      CycleArrowFree(ms, d);
      KeyDeterminesNodes(c, d);
    }
    ClashFreeGraphIsExact(ms);
  }

  /** The name x twice, joined the way the key joins names. */
  function Twice(x: string): string {
    x + ARROW + x
  }

  function ClashingModules(x: string): seq<Module> {
    [Module(x, [Twice(x)]), Module(Twice(x), [Twice(x), x])]
  }

  function ClashingGraph(x: string): Graph {
    map[x := [Twice(x)], Twice(x) := [Twice(x), x]]
  }

  /** The loop on the second module and the cycle through both. */
  function ClashingCycles(x: string): seq<Cycle> {
    [[Twice(x), Twice(x)], [x, Twice(x), x]]
  }

  lemma TwiceDiffers(x: string)
    ensures x != Twice(x)
  {
    assert |Twice(x)| > |x|;
  }

  lemma ClashingNeighbors(x: string)
    ensures var y, g := Twice(x), ClashingGraph(x);
      x != y && x in g && g[x] == [y] && y in g && g[y] == [y, x]
  {
    hide Twice;
    TwiceDiffers(x);
  }

  lemma ClashingAdjList(x: string)
    ensures AdjList(ClashingModules(x)) == ClashingGraph(x) && Paths(ClashingModules(x)) == [x, Twice(x)]
  {
    var ms := ClashingModules(x);
    assert ms[..1] == [ms[0]] && ms[..1][..0] == [];
    assert AdjList(ms[..1]) == map[x := [Twice(x)]];
  }

  /** The two imports of the second module, met with both on the path stack. */
  lemma ClashingReports(x: string)
    ensures var y, met := Twice(x), ClashingCycles(x);
      VisitAll(ClashingGraph(x), Search([x, y], [x, y], [], [], []), [y, x]) ==
        Search([x, y], [x, y], [], met, met[..1])
  {
    hide CycleKey, Twice, Visit, VisitAll, ClashingGraph;
    ClashingKeys(x);
    TwiceDiffers(x);
    var y, met, g := Twice(x), ClashingCycles(x), ClashingGraph(x);
    var s := Search([x, y], [x, y], [], [], []);
    var t := Search([x, y], [x, y], [], [met[0]], [met[0]]);
    VisitTwo(g, s, y, x);
    VisitMet(g, s, y);
    assert Report(s, y) == t by {
      assert IndexOf(s.stack, y) == 1 && Closing(s.stack, y) == met[0];
    }
    VisitMet(g, t, x);
    var r := Report(t, x);
    assert r.cycles == [met[0]] && r.found == met by {
      assert Closing(t.stack, x) == met[1];
      assert met[0] in t.cycles;
    }
  }

  lemma ClashingSearch(x: string)
    ensures var y, met := Twice(x), ClashingCycles(x);
      VisitAll(ClashingGraph(x), START, [x, y]) == Search([x, y], [], [y, x], met, met[..1])
  {
    hide CycleKey, Twice, Visit, VisitAll, ClashingGraph;
    var y, met, g := Twice(x), ClashingCycles(x), ClashingGraph(x);
    ClashingNeighbors(x);
    var s1, first := Push(START, x), met[..1];
    var s2 := Push(s1, y);
    assert s1 == Search([x], [x], [], [], []) && s2 == Search([x, y], [x, y], [], [], []);
    VisitTwo(g, START, x, y);
    VisitNew(g, START, x);
    VisitOnly(g, s1, y);
    VisitNew(g, s1, y);
    ClashingReports(x);
    var s3 := Pop(Search([x, y], [x, y], [], met, first), y);
    assert s3 == Search([x, y], [x], [y], met, first);
    var s4 := Pop(s3, x);
    assert s4 == Search([x, y], [], [y, x], met, first);
    VisitAgain(g, s4, y);
  }

  /**
   For every name x, such as "src/a.ts", a second module named x -> x hides a cycle: its loop and the cycle
   through both modules have the same key, and only the first is reported.
   */
  lemma ArrowNamesHideACycle(x: string)
    ensures var y := Twice(x);
      SearchOf(ClashingModules(x)).found == [[y, y], [x, y, x]] && Detect(ClashingModules(x)) == [[y, y]]
  {
    hide Twice;
    ClashingAdjList(x);
    ClashingSearch(x);
  }

  lemma {:induction false} TextLePrefix(x: string, z: string)
    ensures TextLe(x, x + z)
  {
    if x != [] {
      assert (x + z)[1..] == x[1..] + z;
      TextLePrefix(x[1..], z);
    }
  }

  lemma ClashingOrder(x: string)
    ensures TextLe(x, x) && TextLe(x, Twice(x)) && !TextLe(Twice(x), x) && TextLe(Twice(x), Twice(x))
  {
    TwiceDiffers(x);
    TextLeTotal(x, x);
    TextLeTotal(Twice(x), Twice(x));
    assert Twice(x) == x + (ARROW + x);
    TextLePrefix(x, ARROW + x);
    TextLeTotal(x, Twice(x));
  }

  lemma ClashingSorts(x: string)
    ensures var y := Twice(x); Sorted([y, y]) == [y, y] && Sorted([x, y, x]) == [x, x, y]
  {
    hide TextLe, Twice, Sorted;
    ClashingOrder(x);
    var y := Twice(x);
    SortedIs([y, y], [y, y]);
    SortedIs([x, y, x], [x, x, y]);
  }

  lemma ClashingKeys(x: string)
    ensures CycleKey([Twice(x), Twice(x)]) == CycleKey([x, Twice(x), x])
  {
    hide Sorted;
    var y := Twice(x);
    ClashingSorts(x);
    assert [x, x, y][1..] == [x, y] && [x, y][1..] == [y] && [y, y][1..] == [y];
    assert Join([x, y], ARROW) == x + ARROW + y;
    assert Join([x, x, y], ARROW) == x + ARROW + (x + ARROW + y);
    assert Join([y, y], ARROW) == y + ARROW + y;
    assert x + ARROW + (x + ARROW + y) == y + ARROW + y;
  }

  lemma {:induction false} CountIsMultiplicity(found: seq<Cycle>, c: Cycle)
    requires c in found && |c| >= 2
    requires forall k :: 0 <= k < |found| && SameClosing(found[k], c) ==> found[k] == c
    ensures Count(found, c[|c| - 2], c[|c| - 1]) == multiset(found)[c]
  {
    var init := found[..|found| - 1];
    assert found == init + [Last(found)];
    if c in init {
      CountIsMultiplicity(init, c);
    } else {
      forall k | 0 <= k < |init| ensures !ClosedBy(init[k], c[|c| - 2], c[|c| - 1]) {
        assert init[k] == found[k];
      }
      CountAbsent(init, c[|c| - 2], c[|c| - 1]);
    }
  }

  /** The search meets a cycle again only because its closing import is written again. */
  lemma RepeatsAreDoubledImports(ms: seq<Module>, c: Cycle)
    requires c in SearchOf(ms).found
    ensures |c| >= 2 && multiset(SearchOf(ms).found)[c] == multiset(Neighbors(AdjList(ms), c[|c| - 2]))[c[|c| - 1]]
  {
    var s, g := SearchOf(ms), AdjList(ms);
    SearchIsComplete(ms);
    var k := IndexOf(s.found, c);
    assert GoodCycle(g, s.visited, s.found[k]);
    VisitAllCount(g, START, Paths(ms), c[|c| - 2], c[|c| - 1]);
    CountIsMultiplicity(s.found, c);
    assert c in multiset(s.found);
  }

  // ---------------------------------------------------------------------------------
  // What the report says about the import graph

  /** A closed walk that uses no import closing one of the given cycles. */
  ghost predicate Avoids(w: seq<string>, cycles: seq<Cycle>) {
    forall i :: 0 <= i < |w| - 1 ==> !Closes(cycles, w[i], w[i + 1])
  }

  lemma {:induction false} WalkDescends(ms: seq<Module>, s: Search, w: seq<string>, i: nat)
    requires Complete(ms, s) && ClosedWalk(AdjList(ms), w) && Avoids(w, s.found) && 0 < i < |w|
    ensures w[0] in s.finished && w[i] in s.finished && IndexOf(s.finished, w[i]) < IndexOf(s.finished, w[0])
  {
    var g := AdjList(ms);
    if i > 1 {
      WalkDescends(ms, s, w, i - 1);
    }
    assert w[0 + 1] in Neighbors(g, w[0]);
    assert w[i - 1 + 1] in Neighbors(g, w[i - 1]);
    var k := IndexOf(s.finished, w[i - 1]);
    assert !Closes(s.found, w[i - 1], w[i - 1 + 1]);
    assert w[i] in s.finished[..k];
    IndexOfPrefix(s.finished[..k], s.finished, w[i]);
  }

  lemma NoWalkAvoids(ms: seq<Module>, s: Search, w: seq<string>)
    requires Complete(ms, s) && ClosedWalk(AdjList(ms), w)
    ensures !Avoids(w, s.found)
  {
    if Avoids(w, s.found) {
      WalkDescends(ms, s, w, |w| - 1);
    }
  }

  /** An import along a cycle before its closing one leads to a node discovered later, so it closes no cycle. */
  lemma TreeEdgeClosesNothing(ms: seq<Module>, c: Cycle, d: Cycle, i: nat)
    requires c in SearchOf(ms).found && d in SearchOf(ms).found && i + 2 < |c|
    ensures !ClosedBy(d, c[i], c[i + 1])
  {
    hide Shape, Topological;
    FoundIsGood(ms, c);
    FoundIsGood(ms, d);
    var order, c', d' := SearchOf(ms).visited, c[..|c| - 1], d[..|d| - 1];
    assert IndexOf(order, c'[i]) < IndexOf(order, c'[i + 1]);
    assert IndexOf(order, d'[0]) <= IndexOf(order, d'[|d'| - 1]);
  }

  lemma ClosingDecidesCycle(ms: seq<Module>, c: Cycle, d: Cycle)
    requires c in SearchOf(ms).found && d in SearchOf(ms).found && SameClosing(c, d)
    ensures c == d
  {
    hide GoodCycle, Shape, Topological;
    SearchIsComplete(ms);
    var found := SearchOf(ms).found;
    assert found[IndexOf(found, c)] == c && found[IndexOf(found, d)] == d;
  }

  /** A cycle that was met and is not reported is a closed walk that the report leaves whole. */
  lemma UnreportedAvoids(ms: seq<Module>, c: Cycle)
    requires c in SearchOf(ms).found && c !in Detect(ms)
    ensures ClosedWalk(AdjList(ms), c) && Avoids(c, Detect(ms))
  {
    hide KeysDiffer;
    FoundIsGood(ms, c);
    ReportedWereMet(ms);
    var cycles := Detect(ms);
    forall i | 0 <= i < |c| - 1 ensures !Closes(cycles, c[i], c[i + 1]) {
      forall k | 0 <= k < |cycles| ensures !ClosedBy(cycles[k], c[i], c[i + 1]) {
        assert cycles[k] in cycles;
        if i + 2 < |c| {
          TreeEdgeClosesNothing(ms, c, cycles[k], i);
        } else if ClosedBy(cycles[k], c[i], c[i + 1]) {
          ClosingDecidesCycle(ms, c, cycles[k]);
        }
      }
    }
  }

  lemma ReportedAllBreaks(ms: seq<Module>, w: seq<string>)
    requires AllReported(SearchOf(ms)) && ClosedWalk(AdjList(ms), w)
    ensures !Avoids(w, Detect(ms))
  {
    var s := SearchOf(ms);
    SearchIsComplete(ms);
    NoWalkAvoids(ms, s, w);
    var i :| 0 <= i < |w| - 1 && Closes(s.found, w[i], w[i + 1]);
    var k :| 0 <= k < |s.found| && ClosedBy(s.found[k], w[i], w[i + 1]);
    assert s.found[k] in s.cycles;
    var j := IndexOf(s.cycles, s.found[k]);
    assert ClosedBy(s.cycles[j], w[i], w[i + 1]);
  }

  /** Removing the closing import of every reported cycle leaves no import cycle. */
  ghost predicate BreaksEveryCycle(ms: seq<Module>) {
    forall w :: ClosedWalk(AdjList(ms), w) ==> !Avoids(w, Detect(ms))
  }

  /** The report breaks every import cycle exactly when the joined names of no two cycles met are confused. */
  lemma BreaksEveryCycleIff(ms: seq<Module>)
    ensures BreaksEveryCycle(ms) <==> !KeysClash(SearchOf(ms).found)
  {
    hide ClosedWalk, Avoids, KeysClash;
    DedupIsExactIff(ms);
    if AllReported(SearchOf(ms)) {
      forall w | ClosedWalk(AdjList(ms), w) ensures !Avoids(w, Detect(ms)) {
        ReportedAllBreaks(ms, w);
      }
    } else {
      var c :| c in SearchOf(ms).found && c !in SearchOf(ms).cycles;
      UnreportedAvoids(ms, c);
    }
  }

  /** Names without "->" never clash, so their report breaks every cycle. */
  lemma ArrowFreeReportBreaksEveryCycle(ms: seq<Module>)
    requires NamesArrowFree(ms)
    ensures BreaksEveryCycle(ms)
  {
    hide KeysClash, NamesArrowFree, BreaksEveryCycle;
    DedupIsExact(ms);
    DedupIsExactIff(ms);
    BreaksEveryCycleIff(ms);
  }

  /** The hidden cycle survives: it uses no import that closes a reported cycle. */
  lemma HiddenCycleSurvives(x: string)
    ensures var ms, w := ClashingModules(x), [x, Twice(x), x]; ClosedWalk(AdjList(ms), w) && Avoids(w, Detect(ms))
  {
    hide ClosedWalk, Avoids, Twice;
    var ms := ClashingModules(x);
    var hidden: Cycle := [x, Twice(x), x];
    ArrowNamesHideACycle(x);
    assert SearchOf(ms).found[1] == hidden;
    assert |Detect(ms)[0]| != |hidden| && |Detect(ms)| == 1;
    UnreportedAvoids(ms, hidden);
  }

  /** `summary.status` is 'passed' exactly when the import graph has no cycle, whatever the names. */
  lemma PassedIffAcyclic(ms: seq<Module>)
    ensures Detect(ms) == [] <==> forall w :: !ClosedWalk(AdjList(ms), w)
  {
    hide ClosedWalk, Complete, KeysDiffer;
    var s, g := SearchOf(ms), AdjList(ms);
    SearchIsComplete(ms);
    ReportedWereMet(ms);
    if s.cycles == [] {
      forall w | ClosedWalk(g, w) ensures false {
        NoWalkAvoids(ms, s, w);
      }
    } else {
      var c := s.cycles[0];
      FoundIsGood(ms, c);
    }
  }

  ghost predicate ImportOf(ms: seq<Module>, u: string, v: string) {
    exists m :: m in ms && m.path == u && v in m.imports
  }

  /** Every reported cycle runs along imports that are really written and repeats no inner node. */
  lemma ReportedCyclesAreReal(ms: seq<Module>, c: Cycle)
    requires c in Detect(ms)
    ensures |c| >= 2 && c[0] == c[|c| - 1] && Distinct(c[..|c| - 1])
    ensures forall i :: 0 <= i < |c| - 1 ==> ImportOf(ms, c[i], c[i + 1])
  {
    var s, g := SearchOf(ms), AdjList(ms);
    ReportedWereMet(ms);
    FoundIsGood(ms, c);
    AscendingIsDistinct(s.visited, c[..|c| - 1]);
    forall i | 0 <= i < |c| - 1 ensures ImportOf(ms, c[i], c[i + 1]) {
      assert c[i + 1] in Neighbors(g, c[i]);
      AdjListImports(ms, c[i]);
    }
  }

  // ---------------------------------------------------------------------------------
  // The searched graph and the imports that are written

  /** The module at position j is the last one listed with its path. */
  ghost predicate LastListing(ms: seq<Module>, j: nat) {
    j < |ms| && forall k :: j < k < |ms| ==> ms[k].path != ms[j].path
  }

  lemma {:induction false} FindLastListing(ms: seq<Module>, i: nat) returns (j: nat)
    requires i < |ms|
    ensures LastListing(ms, j) && ms[j].path == ms[i].path
    decreases |ms| - i
  {
    if k :| i < k < |ms| && ms[k].path == ms[i].path {
      j := FindLastListing(ms, k);
    } else {
      j := i;
    }
  }

  /** Only the last listing of a path is searched. */
  lemma {:induction false} AdjListLast(ms: seq<Module>, j: nat)
    requires LastListing(ms, j)
    ensures ms[j].path in AdjList(ms) && AdjList(ms)[ms[j].path] == ms[j].imports
  {
    var init := ms[..|ms| - 1];
    if j < |init| {
      assert ms[|init|].path != ms[j].path;
      assert forall k :: j < k < |init| ==> init[k] == ms[k];
      AdjListLast(init, j);
    }
  }

  /** The searched graph holds exactly the imports that are written. */
  ghost predicate SearchesAllImports(ms: seq<Module>) {
    forall u, v :: v in Neighbors(AdjList(ms), u) <==> ImportOf(ms, u, v)
  }

  ghost predicate SaysAll(m: Module, n: Module) {
    forall v :: v in m.imports ==> v in n.imports
  }

  /** Whatever a listing of a path imports, the last listing of that path imports too. */
  ghost predicate LastListingsSayAll(ms: seq<Module>) {
    forall i: nat, j: nat ::
      i < |ms| && LastListing(ms, j) && ms[j].path == ms[i].path ==> SaysAll(ms[i], ms[j])
  }

  lemma WrittenIsSearched(ms: seq<Module>, u: string, v: string)
    requires LastListingsSayAll(ms) && ImportOf(ms, u, v)
    ensures v in Neighbors(AdjList(ms), u)
  {
    hide AdjList;
    var m :| m in ms && m.path == u && v in m.imports;
    var i := IndexOf(ms, m);
    var j := FindLastListing(ms, i);
    AdjListLast(ms, j);
    assert SaysAll(ms[i], ms[j]);
  }

  lemma SearchedIsSaid(ms: seq<Module>, i: nat, j: nat)
    requires SearchesAllImports(ms) && i < |ms| && LastListing(ms, j) && ms[j].path == ms[i].path
    ensures SaysAll(ms[i], ms[j])
  {
    hide AdjList;
    AdjListLast(ms, j);
    forall v | v in ms[i].imports ensures v in ms[j].imports {
      assert ms[i] in ms && ImportOf(ms, ms[i].path, v);
      assert v in Neighbors(AdjList(ms), ms[i].path);
    }
  }

  /** The searched graph is the graph of all imports exactly when last listings repeat what earlier ones say. */
  lemma SearchesAllImportsIff(ms: seq<Module>)
    ensures SearchesAllImports(ms) <==> LastListingsSayAll(ms)
  {
    hide AdjList, SaysAll;
    if SearchesAllImports(ms) {
      forall i: nat, j: nat | i < |ms| && LastListing(ms, j) && ms[j].path == ms[i].path
        ensures SaysAll(ms[i], ms[j])
      {
        SearchedIsSaid(ms, i, j);
      }
    }
    if LastListingsSayAll(ms) {
      forall u, v ensures v in Neighbors(AdjList(ms), u) <==> ImportOf(ms, u, v) {
        if u in AdjList(ms) { AdjListImports(ms, u); }
        if ImportOf(ms, u, v) { WrittenIsSearched(ms, u, v); }
      }
    }
  }

  /** Paths that are not listed twice, as a directory walk gives them, are such a list. */
  lemma AdjListIsImports(ms: seq<Module>)
    requires Distinct(Paths(ms))
    ensures SearchesAllImports(ms)
  {
    hide AdjList, SearchesAllImports;
    forall i: nat, j: nat | i < |ms| && LastListing(ms, j) && ms[j].path == ms[i].path
      ensures SaysAll(ms[i], ms[j])
    {
      assert Paths(ms)[i] == Paths(ms)[j];
    }
    SearchesAllImportsIff(ms);
  }

  lemma FirstEdge(g: Graph, w: seq<string>)
    requires ClosedWalk(g, w)
    ensures w[1] in Neighbors(g, w[0])
  {
    assert w[0 + 1] in Neighbors(g, w[0]);
  }

  lemma NothingImported(g: Graph, w: seq<string>)
    requires forall u :: u in g ==> Neighbors(g, u) == []
    ensures !ClosedWalk(g, w)
  {
    if ClosedWalk(g, w) { FirstEdge(g, w); }
  }

  /** A written self-import that passes, because its module is listed a second time without it. */
  lemma RepeatedPathHidesSelfImport(x: string)
    ensures var ms := [Module(x, [x]), Module(x, [])];
      ImportOf(ms, x, x) && Detect(ms) == [] && !SearchesAllImports(ms)
  {
    var ms := [Module(x, [x]), Module(x, [])];
    var m := ms[0];
    assert m in ms && m.path == x && m.imports[0] == x;
    assert ImportOf(ms, x, x);
    assert LastListing(ms, 1);
    AdjListLast(ms, 1);
    var g := AdjList(ms);
    assert x !in Neighbors(g, x);
    forall u | u in g ensures Neighbors(g, u) == [] {
      AdjListKeys(ms, u);
      assert Paths(ms)[IndexOf(Paths(ms), u)] == x;
    }
    forall w ensures !ClosedWalk(g, w) {
      NothingImported(g, w);
    }
    PassedIffAcyclic(ms);
  }

  // ---------------------------------------------------------------------------------
  // The number of cycles

  /** `totalEdges`. */
  function TotalEdges(ms: seq<Module>): nat {
    if ms == [] then 0 else TotalEdges(ms[..|ms| - 1]) + |ms[|ms| - 1].imports|
  }

  /** Where an import is written: the position of its module and its position there. */
  function ImportPositions(ms: seq<Module>): set<(int, int)> {
    set i, j | 0 <= i < |ms| && 0 <= j < |ms[i].imports| :: (i, j)
  }

  function Row(i: int, n: nat): set<(int, int)> {
    set j | 0 <= j < n :: (i, j)
  }

  lemma {:induction false} RowSize(i: int, n: nat)
    ensures |Row(i, n)| == n
  {
    if n > 0 {
      RowSize(i, n - 1);
      assert Row(i, n) == Row(i, n - 1) + {(i, n - 1)};
    }
  }

  /** `totalEdges` counts every written import once. */
  lemma {:induction false} TotalEdgesCounts(ms: seq<Module>)
    ensures TotalEdges(ms) == |ImportPositions(ms)|
  {
    if ms != [] {
      var init, n := ms[..|ms| - 1], |ms| - 1;
      TotalEdgesCounts(init);
      RowSize(n, |ms[n].imports|);
      assert ImportPositions(ms) == ImportPositions(init) + Row(n, |ms[n].imports|);
      assert ImportPositions(init) !! Row(n, |ms[n].imports|);
    }
  }

  lemma {:induction false} ImportsUpdate(g: Graph, p: string, imports: seq<string>, order: seq<string>)
    requires Distinct(order)
    ensures Imports(g[p := imports], order) <= Imports(g, order) + if p in order then |imports| else 0
  {
    if order != [] {
      var init := order[..|order| - 1];
      assert order == init + [Last(order)];
      ImportsUpdate(g, p, imports, init);
    }
  }

  lemma {:induction false} ImportsAtMostTotal(ms: seq<Module>, order: seq<string>)
    requires Distinct(order)
    ensures Imports(AdjList(ms), order) <= TotalEdges(ms)
  {
    if ms == [] {
      ImportsOfNone(order);
    } else {
      var init, last := ms[..|ms| - 1], ms[|ms| - 1];
      ImportsAtMostTotal(init, order);
      ImportsUpdate(AdjList(init), last.path, last.imports, order);
    }
  }

  lemma {:induction false} ImportsOfNone(order: seq<string>)
    ensures Imports(map[], order) == 0
  {
    if order != [] { ImportsOfNone(order[..|order| - 1]); }
  }

  lemma AtMostOneCyclePerImport(ms: seq<Module>)
    ensures |Detect(ms)| <= |SearchOf(ms).found| <= |ImportPositions(ms)|
  {
    TotalEdgesCounts(ms);
    var s, g := SearchOf(ms), AdjList(ms);
    SearchIsComplete(ms);
    ReportedWereMet(ms);
    VisitAllBound(g, START, Paths(ms));
    ImportsAtMostTotal(ms, s.visited);
  }

  /** The summary of the report: the run passes exactly when no import cycle exists. */
  method Summarize(ms: seq<Module>) returns (passed: bool, totalEdges: nat, circularDependencies: nat)
    ensures passed <==> forall w :: !ClosedWalk(AdjList(ms), w)
    ensures totalEdges == |ImportPositions(ms)| && circularDependencies == |Detect(ms)| <= totalEdges
  {
    totalEdges := 0;
    for i := 0 to |ms|
      invariant totalEdges == TotalEdges(ms[..i])
    {
      assert ms[..i + 1][..i] == ms[..i];
      totalEdges := totalEdges + |ms[i].imports|;
    }
    assert ms[..|ms|] == ms;
    var cycles := DetectCycles(ms);
    passed, circularDependencies := |cycles| == 0, |cycles|;
    PassedIffAcyclic(ms);
    AtMostOneCyclePerImport(ms);
    TotalEdgesCounts(ms);
  }
}
