/**
 The search of `detectCycles`, first as functions over an explicit search state and then as the
 class whose methods update that state in place.
 */
module ImportGraph {
  import opened Text
  import opened CycleKeys

  datatype Module = Module(path: string, imports: seq<string>)
  type Graph = map<string, seq<string>>

  /** `adjList.get(node) || []`. */
  function Neighbors(g: Graph, n: string): seq<string> {
    if n in g then g[n] else []
  }

  /** The adjacency map: a module listed again replaces its earlier entry. */
  function AdjList(ms: seq<Module>): Graph {
    if ms == [] then map[]
    else AdjList(ms[..|ms| - 1])[ms[|ms| - 1].path := ms[|ms| - 1].imports]
  }

  function Paths(ms: seq<Module>): seq<string> {
    seq(|ms|, i requires 0 <= i < |ms| => ms[i].path)
  }

  /**
   The state of a search. `visited` lists the nodes in discovery order and `stack` is `pathStack`.
   `finished` (nodes in the order their calls returned) and `found` (every cycle met, before
   de-duplication) are history.
   */
  datatype Search = Search(
    visited: seq<string>, stack: seq<string>, finished: seq<string>,
    found: seq<Cycle>, cycles: seq<Cycle>)

  const START := Search([], [], [], [], [])

  /** The part of the path stack from `node` on, closed with `node`. */
  function Closing(stack: seq<string>, node: string): Cycle
    requires node in stack
  {
    stack[IndexOf(stack, node)..] + [node]
  }

  function Record(cycles: seq<Cycle>, c: Cycle): seq<Cycle> {
    if exists d :: d in cycles && CycleKey(d) == CycleKey(c) then cycles else cycles + [c]
  }

  function Report(s: Search, node: string): Search
    requires node in s.stack
  {
    var c := Closing(s.stack, node);
    s.(found := s.found + [c], cycles := Record(s.cycles, c))
  }

  function Push(s: Search, node: string): Search {
    s.(visited := s.visited + [node], stack := s.stack + [node])
  }

  function Pop(s: Search, node: string): Search
    requires s.stack != []
  {
    s.(stack := s.stack[..|s.stack| - 1], finished := s.finished + [node])
  }

  ghost function Unvisited(g: Graph, s: Search): set<string> {
    set n | n in g && n !in s.visited
  }

  /** History only grows. */
  ghost predicate Extends(s: Search, t: Search) {
    s.visited <= t.visited && s.finished <= t.finished && s.found <= t.found && s.cycles <= t.cycles
  }

  /** One call of `dfs(node)`: it leaves the path stack as it found it. */
  ghost function Visit(g: Graph, s: Search, node: string): (t: Search)
    ensures t.stack == s.stack && Extends(s, t)
    decreases Unvisited(g, s), 0
  {
    if node in s.stack then Report(s, node)
    else if node in s.visited then s
    else if node in g then
      assert node in Unvisited(g, s) && node !in Unvisited(g, Push(s, node));
      Pop(VisitAll(g, Push(s, node), g[node]), node)
    else Pop(Push(s, node), node)
  }

  /** The calls `dfs(n)` for each `n` of a list, in order. */
  ghost function VisitAll(g: Graph, s: Search, ns: seq<string>): (t: Search)
    ensures t.stack == s.stack && Extends(s, t)
    decreases Unvisited(g, s), |ns|
  {
    if ns == [] then s
    else
      var t := Visit(g, s, ns[0]);
      assert Unvisited(g, t) <= Unvisited(g, s);
      VisitAll(g, t, ns[1..])
  }

  ghost function SearchOf(ms: seq<Module>): Search {
    VisitAll(AdjList(ms), START, Paths(ms))
  }

  /** What `detectCycles(modules)` returns. */
  ghost function Detect(ms: seq<Module>): seq<Cycle> {
    SearchOf(ms).cycles
  }

  lemma VisitNew(g: Graph, s: Search, x: string)
    requires x in g && x !in s.stack && x !in s.visited
    ensures Visit(g, s, x) == Pop(VisitAll(g, Push(s, x), g[x]), x)
  {
  }

  lemma VisitMet(g: Graph, s: Search, n: string)
    requires n in s.stack
    ensures Visit(g, s, n) == Report(s, n)
  {
  }

  lemma VisitAgain(g: Graph, s: Search, n: string)
    requires n !in s.stack && n in s.visited
    ensures Visit(g, s, n) == s
  {
  }

  lemma VisitOnly(g: Graph, s: Search, n: string)
    ensures VisitAll(g, s, [n]) == Visit(g, s, n)
  {
    assert [n][1..] == [] && VisitAll(g, Visit(g, s, n), []) == Visit(g, s, n);
  }

  lemma VisitTwo(g: Graph, s: Search, n: string, m: string)
    ensures VisitAll(g, s, [n, m]) == Visit(g, Visit(g, s, n), m)
  {
    assert [n, m][1..] == [m];
    VisitOnly(g, Visit(g, s, n), m);
  }

  // ---------------------------------------------------------------------------------
  // Shape: discovery order, path stack and finished nodes

  ghost predicate Ascending(order: seq<string>, xs: seq<string>) {
    (forall i :: 0 <= i < |xs| ==> xs[i] in order) &&
    forall i, j :: 0 <= i < j < |xs| ==> IndexOf(order, xs[i]) < IndexOf(order, xs[j])
  }

  /** The path stack is a path of import edges, discovered in stack order. */
  ghost predicate Shape(g: Graph, s: Search) {
    Distinct(s.visited) && Distinct(s.finished) && Ascending(s.visited, s.stack) &&
    (forall i :: 0 <= i < |s.stack| - 1 ==> s.stack[i + 1] in Neighbors(g, s.stack[i])) &&
    (forall n :: n in s.visited <==> n in s.stack || n in s.finished) &&
    (forall n :: n in s.stack ==> n !in s.finished)
  }

  /** A node may be visited next when it is imported by the top of the path stack. */
  ghost predicate Next(g: Graph, stack: seq<string>, n: string) {
    stack == [] || n in Neighbors(g, stack[|stack| - 1])
  }

  ghost predicate AllNext(g: Graph, stack: seq<string>, ns: seq<string>) {
    forall i :: 0 <= i < |ns| ==> Next(g, stack, ns[i])
  }

  lemma AscendingExtend(order: seq<string>, order': seq<string>, xs: seq<string>)
    requires order <= order' && Ascending(order, xs)
    ensures Ascending(order', xs)
  {
    forall i | 0 <= i < |xs| ensures xs[i] in order' && IndexOf(order', xs[i]) == IndexOf(order, xs[i]) {
      IndexOfPrefix(order, order', xs[i]);
    }
  }

  lemma AscendingSnoc(order: seq<string>, xs: seq<string>, n: string)
    requires Distinct(order) && Ascending(order, xs) && n !in order
    ensures Ascending(order + [n], xs + [n]) && Distinct(order + [n])
  {
    var order' := order + [n];
    AscendingExtend(order, order', xs);
    assert order'[|order|] == n;
    IndexOfDistinct(order', |order|);
    forall i | 0 <= i < |xs| ensures IndexOf(order', xs[i]) < |order| {
      IndexOfPrefix(order, order', xs[i]);
    }
  }

  lemma PushShape(g: Graph, s: Search, node: string)
    requires Shape(g, s) && Next(g, s.stack, node) && node !in s.visited
    ensures Shape(g, Push(s, node))
  {
    hide Ascending, Distinct, Neighbors;
    AscendingSnoc(s.visited, s.stack, node);
  }

  lemma AscendingInit(order: seq<string>, xs: seq<string>)
    requires Ascending(order, xs) && xs != []
    ensures Ascending(order, xs[..|xs| - 1]) && xs[|xs| - 1] !in xs[..|xs| - 1]
  {
    var init := xs[..|xs| - 1];
    forall i | 0 <= i < |init| ensures init[i] != xs[|xs| - 1] {
      assert IndexOf(order, xs[i]) < IndexOf(order, xs[|xs| - 1]);
    }
  }

  lemma PopShape(g: Graph, s: Search, node: string)
    requires Shape(g, s) && s.stack != [] && s.stack[|s.stack| - 1] == node
    ensures Shape(g, Pop(s, node))
  {
    hide Ascending, Neighbors;
    assert s.stack == Pop(s, node).stack + [node];
    AscendingInit(s.visited, s.stack);
    assert node in s.stack;
    assert forall n :: n in s.stack <==> n in Pop(s, node).stack || n == node;
  }

  lemma {:induction false} VisitShape(g: Graph, s: Search, node: string)
    requires Shape(g, s) && Next(g, s.stack, node)
    ensures Shape(g, Visit(g, s, node))
    decreases Unvisited(g, s), 0
  {
    if node !in s.stack && node !in s.visited {
      PushShape(g, s, node);
      var t := Push(s, node);
      if node in g {
        assert node in Unvisited(g, s) && node !in Unvisited(g, t);
        VisitAllShape(g, t, g[node]);
        PopShape(g, VisitAll(g, t, g[node]), node);
      } else {
        PopShape(g, t, node);
      }
    }
  }

  lemma {:induction false} VisitAllShape(g: Graph, s: Search, ns: seq<string>)
    requires Shape(g, s) && AllNext(g, s.stack, ns)
    ensures Shape(g, VisitAll(g, s, ns))
    decreases Unvisited(g, s), |ns|
  {
    if ns != [] {
      var t := Visit(g, s, ns[0]);
      assert Unvisited(g, t) <= Unvisited(g, s);
      VisitShape(g, s, ns[0]);
      VisitAllShape(g, t, ns[1..]);
    }
  }
}
