/** What the search of `detectCycles` keeps at every step, call by call. */
module CycleSearch {
  import opened Text
  import opened CycleKeys
  import opened ImportGraph

  function Last<T>(xs: seq<T>): T
    requires xs != []
  {
    xs[|xs| - 1]
  }

  // ---------------------------------------------------------------------------------
  // Every cycle met is a closed walk along import edges, without a repeated inner node

  ghost predicate ClosedWalk(g: Graph, w: seq<string>) {
    |w| >= 2 && w[0] == w[|w| - 1] && forall i :: 0 <= i < |w| - 1 ==> w[i + 1] in Neighbors(g, w[i])
  }

  ghost predicate GoodCycle(g: Graph, order: seq<string>, c: Cycle) {
    ClosedWalk(g, c) && Ascending(order, c[..|c| - 1])
  }

  /** The import that closes the cycle leads from `u` to `v`. */
  ghost predicate ClosedBy(c: Cycle, u: string, v: string) {
    |c| >= 2 && c[|c| - 2] == u && c[|c| - 1] == v
  }

  ghost predicate ReadOffAt(stack: seq<string>, p: nat, c: Cycle)
    requires p < |stack|
  {
    c != [] && Last(c) in stack[..p + 1] && c == Closing(stack[..p + 1], Last(c))
  }

  /** A cycle whose last import is made by a node still on the path stack is read off that stack. */
  ghost predicate ReadOff(stack: seq<string>, c: Cycle) {
    |c| >= 2 && forall p :: 0 <= p < |stack| && stack[p] == c[|c| - 2] ==> ReadOffAt(stack, p, c)
  }

  ghost predicate SameClosing(c: Cycle, d: Cycle) {
    |c| >= 2 && |d| >= 2 && c[|c| - 2] == d[|d| - 2] && c[|c| - 1] == d[|d| - 1]
  }

  ghost predicate ClosingDecides(found: seq<Cycle>) {
    forall k, l :: 0 <= k < |found| && 0 <= l < |found| && SameClosing(found[k], found[l]) ==> found[k] == found[l]
  }

  ghost predicate Found(g: Graph, s: Search) {
    (forall k :: 0 <= k < |s.found| ==> GoodCycle(g, s.visited, s.found[k])) &&
    (forall k :: 0 <= k < |s.found| ==> ReadOff(s.stack, s.found[k])) &&
    ClosingDecides(s.found)
  }

  lemma AscendingIsDistinct(order: seq<string>, xs: seq<string>)
    requires Ascending(order, xs)
    ensures Distinct(xs)
  {
    forall i, j | 0 <= i < j < |xs| ensures xs[i] != xs[j] {
      assert IndexOf(order, xs[i]) < IndexOf(order, xs[j]);
    }
  }

  lemma AscendingDrop(order: seq<string>, xs: seq<string>, i: nat)
    requires Ascending(order, xs) && i <= |xs|
    ensures Ascending(order, xs[i..])
  {
  }

  lemma ClosingIsWalk(g: Graph, stack: seq<string>, node: string)
    requires forall i :: 0 <= i < |stack| - 1 ==> stack[i + 1] in Neighbors(g, stack[i])
    requires node in stack && node in Neighbors(g, Last(stack))
    ensures ClosedWalk(g, Closing(stack, node)) && ClosedBy(Closing(stack, node), Last(stack), node)
    ensures Closing(stack, node)[..|Closing(stack, node)| - 1] == stack[IndexOf(stack, node)..]
  {
    var i, c := IndexOf(stack, node), Closing(stack, node);
    forall j | 0 <= j < |c| - 1 ensures c[j + 1] in Neighbors(g, c[j]) {
      assert c[j] == stack[i + j];
      if j + 1 < |c| - 1 { assert c[j + 1] == stack[i + j + 1]; }
    }
  }

  lemma ClosingReadOff(stack: seq<string>, node: string)
    requires Distinct(stack) && node in stack
    ensures ReadOff(stack, Closing(stack, node))
  {
    var c := Closing(stack, node);
    assert c[|c| - 2] == Last(stack);
    assert stack[..|stack|] == stack;
    forall p | 0 <= p < |stack| && stack[p] == c[|c| - 2] ensures ReadOffAt(stack, p, c) {
      assert p == |stack| - 1;
    }
  }

  lemma ClosingIsGood(g: Graph, s: Search, node: string)
    requires Shape(g, s) && Next(g, s.stack, node) && node in s.stack
    ensures GoodCycle(g, s.visited, Closing(s.stack, node))
    ensures ClosedBy(Closing(s.stack, node), Last(s.stack), node)
    ensures ReadOff(s.stack, Closing(s.stack, node))
  {
    ClosingIsWalk(g, s.stack, node);
    AscendingDrop(s.visited, s.stack, IndexOf(s.stack, node));
    AscendingIsDistinct(s.visited, s.stack);
    ClosingReadOff(s.stack, node);
  }

  lemma ReadOffIsSame(stack: seq<string>, c: Cycle, d: Cycle)
    requires stack != [] && ReadOff(stack, c) && ReadOff(stack, d) && SameClosing(c, d) && c[|c| - 2] == Last(stack)
    ensures c == d
  {
    assert ReadOffAt(stack, |stack| - 1, c) && ReadOffAt(stack, |stack| - 1, d);
  }

  lemma DecidesAppend(found: seq<Cycle>, c: Cycle)
    requires ClosingDecides(found) && forall k :: 0 <= k < |found| && SameClosing(found[k], c) ==> found[k] == c
    ensures ClosingDecides(found + [c])
  {
  }

  lemma FoundReport(g: Graph, s: Search, node: string)
    requires Shape(g, s) && Found(g, s) && Next(g, s.stack, node) && node in s.stack
    ensures Found(g, Report(s, node))
  {
    hide Shape, GoodCycle, ReadOff, ClosingDecides;
    var c := Closing(s.stack, node);
    ClosingIsGood(g, s, node);
    forall k | 0 <= k < |s.found| && SameClosing(s.found[k], c) ensures s.found[k] == c {
      ReadOffIsSame(s.stack, s.found[k], c);
    }
    DecidesAppend(s.found, c);
  }

  lemma ReadOffPush(stack: seq<string>, node: string, c: Cycle)
    requires ReadOff(stack, c) && c[|c| - 2] != node
    ensures ReadOff(stack + [node], c)
  {
    forall p | 0 <= p < |stack + [node]| && (stack + [node])[p] == c[|c| - 2]
      ensures ReadOffAt(stack + [node], p, c)
    {
      assert stack[p] == c[|c| - 2] && ReadOffAt(stack, p, c);
      assert (stack + [node])[..p + 1] == stack[..p + 1];
    }
  }

  lemma ReadOffPop(stack: seq<string>, c: Cycle)
    requires stack != [] && ReadOff(stack, c)
    ensures ReadOff(stack[..|stack| - 1], c)
  {
    var rest := stack[..|stack| - 1];
    forall p | 0 <= p < |rest| && rest[p] == c[|c| - 2] ensures ReadOffAt(rest, p, c) {
      assert stack[p] == c[|c| - 2] && ReadOffAt(stack, p, c);
      assert rest[..p + 1] == stack[..p + 1];
    }
  }

  lemma TailVisited(g: Graph, order: seq<string>, c: Cycle)
    requires GoodCycle(g, order, c)
    ensures c[|c| - 2] in order
  {
    assert c[..|c| - 1][|c| - 2] in order;
  }

  lemma FoundPush(g: Graph, s: Search, node: string)
    requires Found(g, s) && node !in s.visited
    ensures Found(g, Push(s, node))
  {
    var t := Push(s, node);
    forall k | 0 <= k < |s.found|
      ensures GoodCycle(g, t.visited, s.found[k]) && ReadOff(t.stack, s.found[k])
    {
      var c := s.found[k];
      assert GoodCycle(g, s.visited, c) && ReadOff(s.stack, c);
      AscendingExtend(s.visited, t.visited, c[..|c| - 1]);
      TailVisited(g, s.visited, c);
      ReadOffPush(s.stack, node, c);
    }
  }

  lemma FoundPop(g: Graph, s: Search, node: string)
    requires Found(g, s) && s.stack != []
    ensures Found(g, Pop(s, node))
  {
    forall k | 0 <= k < |s.found| ensures ReadOff(Pop(s, node).stack, s.found[k]) {
      ReadOffPop(s.stack, s.found[k]);
    }
  }

  lemma {:induction false} VisitFound(g: Graph, s: Search, node: string)
    requires Shape(g, s) && Found(g, s) && Next(g, s.stack, node)
    ensures Found(g, Visit(g, s, node))
    decreases Unvisited(g, s), 0
  {
    if node in s.stack {
      FoundReport(g, s, node);
    } else if node !in s.visited {
      PushShape(g, s, node);
      FoundPush(g, s, node);
      var t := Push(s, node);
      if node in g {
        assert node in Unvisited(g, s) && node !in Unvisited(g, t);
        VisitAllShape(g, t, g[node]);
        VisitAllFound(g, t, g[node]);
        FoundPop(g, VisitAll(g, t, g[node]), node);
      } else {
        FoundPop(g, t, node);
      }
    }
  }

  lemma {:induction false} VisitAllFound(g: Graph, s: Search, ns: seq<string>)
    requires Shape(g, s) && Found(g, s) && AllNext(g, s.stack, ns)
    ensures Found(g, VisitAll(g, s, ns))
    decreases Unvisited(g, s), |ns|
  {
    if ns != [] {
      var t := Visit(g, s, ns[0]);
      assert Unvisited(g, t) <= Unvisited(g, s);
      VisitShape(g, s, ns[0]);
      VisitFound(g, s, ns[0]);
      VisitAllFound(g, t, ns[1..]);
    }
  }

  // ---------------------------------------------------------------------------------
  // Every import of a finished node closes a cycle that was met or leads to a node finished earlier

  ghost predicate Closes(found: seq<Cycle>, u: string, v: string) {
    exists k :: 0 <= k < |found| && ClosedBy(found[k], u, v)
  }

  ghost predicate Topological(g: Graph, finished: seq<string>, found: seq<Cycle>) {
    forall i, v :: 0 <= i < |finished| && v in Neighbors(g, finished[i]) ==>
      Closes(found, finished[i], v) || v in finished[..i]
  }

  ghost predicate Handled(s: Search, n: string) {
    n in s.finished || (s.stack != [] && Closes(s.found, Last(s.stack), n))
  }

  lemma ClosesMonotone(found: seq<Cycle>, found': seq<Cycle>, u: string, v: string)
    requires found <= found' && Closes(found, u, v)
    ensures Closes(found', u, v)
  {
    var k :| 0 <= k < |found| && ClosedBy(found[k], u, v);
    assert found'[k] == found[k];
  }

  lemma HandledMonotone(s: Search, t: Search, n: string)
    requires Extends(s, t) && s.stack == t.stack && Handled(s, n)
    ensures Handled(t, n)
  {
    if n in s.finished {
      var i := IndexOf(s.finished, n);
      assert t.finished[i] == n;
    } else {
      ClosesMonotone(s.found, t.found, Last(s.stack), n);
    }
  }

  ghost predicate AllHandled(s: Search, ns: seq<string>) {
    forall i :: 0 <= i < |ns| ==> Handled(s, ns[i])
  }

  lemma AllHandledCons(s: Search, t: Search, ns: seq<string>)
    requires Extends(s, t) && s.stack == t.stack && ns != [] && Handled(s, ns[0]) && AllHandled(t, ns[1..])
    ensures AllHandled(t, ns)
  {
    HandledMonotone(s, t, ns[0]);
    forall i | 0 <= i < |ns| ensures Handled(t, ns[i]) {
      if i > 0 { assert ns[i] == ns[1..][i - 1]; }
    }
  }

  lemma AllHandledMember(s: Search, ns: seq<string>)
    requires AllHandled(s, ns)
    ensures forall n :: n in ns ==> Handled(s, n)
  {
  }

  lemma TopologicalPop(g: Graph, s: Search, node: string)
    requires s.stack != [] && Last(s.stack) == node && Topological(g, s.finished, s.found)
    requires forall v :: v in Neighbors(g, node) ==> Handled(s, v)
    ensures Topological(g, Pop(s, node).finished, s.found)
  {
    var fin := s.finished + [node];
    forall i, v | 0 <= i < |fin| && v in Neighbors(g, fin[i])
      ensures Closes(s.found, fin[i], v) || v in fin[..i]
    {
      if i < |s.finished| {
        assert fin[i] == s.finished[i] && fin[..i] == s.finished[..i];
      } else {
        assert Handled(s, v) && fin[..i] == s.finished;
      }
    }
  }

  lemma TopologicalReport(g: Graph, s: Search, node: string)
    requires Shape(g, s) && Next(g, s.stack, node) && node in s.stack && Topological(g, s.finished, s.found)
    ensures Topological(g, s.finished, Report(s, node).found) && Handled(Report(s, node), node)
  {
    var t := Report(s, node);
    ClosingIsGood(g, s, node);
    assert t.found[|s.found|] == Closing(s.stack, node);
    forall i, v | 0 <= i < |s.finished| && v in Neighbors(g, s.finished[i])
      ensures Closes(t.found, s.finished[i], v) || v in s.finished[..i]
    {
      if Closes(s.found, s.finished[i], v) {
        ClosesMonotone(s.found, t.found, s.finished[i], v);
      }
    }
  }

  lemma VisitedOrDone(g: Graph, s: Search, n: string)
    requires Shape(g, s) && n in s.visited
    ensures n in s.stack || n in s.finished
  {
  }

  lemma {:induction false} VisitTopological(g: Graph, s: Search, node: string)
    requires Shape(g, s) && Next(g, s.stack, node) && Topological(g, s.finished, s.found)
    ensures var t := Visit(g, s, node); Topological(g, t.finished, t.found) && Handled(t, node)
    decreases Unvisited(g, s), 0
  {
    hide AllHandled, Topological, Shape;
    if node in s.visited { VisitedOrDone(g, s, node); }
    if node in s.stack {
      TopologicalReport(g, s, node);
    } else if node !in s.visited {
      PushShape(g, s, node);
      var t := Push(s, node);
      if node in g {
        assert node in Unvisited(g, s) && node !in Unvisited(g, t);
        VisitAllTopological(g, t, g[node]);
        var r := VisitAll(g, t, g[node]);
        AllHandledMember(r, g[node]);
        TopologicalPop(g, r, node);
      } else {
        TopologicalPop(g, t, node);
      }
    }
  }

  lemma {:induction false} VisitAllTopological(g: Graph, s: Search, ns: seq<string>)
    requires Shape(g, s) && AllNext(g, s.stack, ns) && Topological(g, s.finished, s.found)
    ensures var t := VisitAll(g, s, ns); Topological(g, t.finished, t.found) && AllHandled(t, ns)
    decreases Unvisited(g, s), |ns|
  {
    hide Shape, Found, Topological;
    if ns != [] {
      var t := Visit(g, s, ns[0]);
      assert Unvisited(g, t) <= Unvisited(g, s);
      VisitShape(g, s, ns[0]);
      VisitTopological(g, s, ns[0]);
      VisitAllTopological(g, t, ns[1..]);
      AllHandledCons(t, VisitAll(g, t, ns[1..]), ns);
    }
  }

  // ---------------------------------------------------------------------------------
  // How often the search meets the cycle closed by one import

  /** How many of the cycles met are closed by the import of `v` in `u`. */
  ghost function Count(found: seq<Cycle>, u: string, v: string): nat {
    if found == [] then 0
    else Count(found[..|found| - 1], u, v) + if ClosedBy(Last(found), u, v) then 1 else 0
  }

  lemma {:induction false} CountAbsent(found: seq<Cycle>, u: string, v: string)
    requires forall k :: 0 <= k < |found| ==> !ClosedBy(found[k], u, v)
    ensures Count(found, u, v) == 0
  {
    if found != [] {
      CountAbsent(found[..|found| - 1], u, v);
    }
  }

  lemma CountOutside(g: Graph, s: Search, u: string, v: string)
    requires Found(g, s) && u !in s.visited
    ensures Count(s.found, u, v) == 0
  {
    forall k | 0 <= k < |s.found| ensures !ClosedBy(s.found[k], u, v) {
      TailVisited(g, s.visited, s.found[k]);
    }
    CountAbsent(s.found, u, v);
  }

  ghost predicate OnTop(s: Search, u: string) {
    s.stack != [] && Last(s.stack) == u
  }

  /** The cycles met between two states that are closed by the import of `v` in `u`. */
  ghost predicate Counted(g: Graph, s: Search, t: Search, u: string, v: string, met: nat) {
    if u in s.visited then Count(t.found, u, v) == Count(s.found, u, v) + if OnTop(s, u) && v in s.stack then met else 0
    else Count(t.found, u, v) in {0, multiset(Neighbors(g, u))[v]}
  }

  lemma StackIsVisited(g: Graph, s: Search, u: string)
    requires Shape(g, s)
    ensures u in s.stack ==> u in s.visited
  {
  }

  lemma ReportCount(g: Graph, s: Search, node: string, u: string, v: string)
    requires Shape(g, s) && Found(g, s) && Next(g, s.stack, node) && node in s.stack
    ensures Counted(g, s, Report(s, node), u, v, if v == node then 1 else 0)
  {
    hide Shape, Found, GoodCycle, ReadOff, Closing;
    ClosingIsGood(g, s, node);
    var t := Report(s, node);
    assert t.found[..|t.found| - 1] == s.found;
    StackIsVisited(g, s, Last(s.stack));
    if u !in s.visited {
      CountOutside(g, s, u, v);
    }
  }

  lemma {:induction false} VisitCount(g: Graph, s: Search, node: string, u: string, v: string)
    requires Shape(g, s) && Found(g, s) && Next(g, s.stack, node)
    ensures Counted(g, s, Visit(g, s, node), u, v, if v == node then 1 else 0)
    decreases Unvisited(g, s), 0
  {
    hide Shape, Found, Counted, Next;
    if node in s.stack {
      ReportCount(g, s, node, u, v);
    } else if node in s.visited {
      NothingCounted(g, s, node, u, v);
    } else {
      PushShape(g, s, node);
      FoundPush(g, s, node);
      var t := Push(s, node);
      var r := if node in g then VisitAll(g, t, g[node]) else t;
      assert Counted(g, t, r, u, v, multiset(Neighbors(g, node))[v]) by {
        if node in g {
          assert node in Unvisited(g, s) && node !in Unvisited(g, t);
          NeighborsAreNext(g, t, node);
          VisitAllCount(g, t, g[node], u, v);
        } else {
          NothingCounted(g, t, node, u, v);
        }
      }
      NewCount(g, s, r, node, u, v);
    }
  }

  lemma NeighborsAreNext(g: Graph, t: Search, node: string)
    requires t.stack != [] && Last(t.stack) == node && node in g
    ensures AllNext(g, t.stack, g[node])
  {
  }

  /** A call that does nothing meets nothing. */
  lemma NothingCounted(g: Graph, s: Search, node: string, u: string, v: string)
    requires Shape(g, s) && Found(g, s)
    ensures node !in s.stack ==> Counted(g, s, s, u, v, if v == node then 1 else 0)
    ensures node !in g && OnTop(s, node) ==> Counted(g, s, s, u, v, multiset(Neighbors(g, node))[v])
  {
    hide Shape, Found;
    if u !in s.visited { CountOutside(g, s, u, v); }
  }

  /** From the state after the push of a new node to the state before it. */
  lemma NewCount(g: Graph, s: Search, r: Search, node: string, u: string, v: string)
    requires Shape(g, s) && Found(g, s) && node !in s.visited && node !in s.stack
    requires Counted(g, Push(s, node), r, u, v, multiset(Neighbors(g, node))[v])
    ensures Counted(g, s, Pop(r.(stack := s.stack + [node]), node), u, v, if v == node then 1 else 0)
  {
    hide Shape, Found;
    StackIsVisited(g, s, u);
    if u !in s.visited { CountOutside(g, s, u, v); }
  }

  lemma CountedCons(g: Graph, s: Search, t: Search, r: Search, ns: seq<string>, u: string, v: string)
    requires ns != [] && t.stack == s.stack && s.visited <= t.visited
    requires Counted(g, s, t, u, v, if v == ns[0] then 1 else 0) && Counted(g, t, r, u, v, multiset(ns[1..])[v])
    requires u in s.stack ==> u in s.visited
    ensures Counted(g, s, r, u, v, multiset(ns)[v])
  {
    assert ns == [ns[0]] + ns[1..];
  }

  lemma {:induction false} VisitAllCount(g: Graph, s: Search, ns: seq<string>, u: string, v: string)
    requires Shape(g, s) && Found(g, s) && AllNext(g, s.stack, ns)
    ensures Counted(g, s, VisitAll(g, s, ns), u, v, multiset(ns)[v])
    decreases Unvisited(g, s), |ns|
  {
    hide Shape, Found, Topological;
    if ns == [] {
      if u !in s.visited { CountOutside(g, s, u, v); }
    } else {
      var t := Visit(g, s, ns[0]);
      assert Unvisited(g, t) <= Unvisited(g, s);
      VisitShape(g, s, ns[0]);
      VisitFound(g, s, ns[0]);
      VisitCount(g, s, ns[0], u, v);
      VisitAllCount(g, t, ns[1..], u, v);
      StackIsVisited(g, s, u);
      CountedCons(g, s, t, VisitAll(g, t, ns[1..]), ns, u, v);
    }
  }

  // ---------------------------------------------------------------------------------
  // Each import is followed at most once

  ghost function Imports(g: Graph, order: seq<string>): nat {
    if order == [] then 0 else Imports(g, order[..|order| - 1]) + |Neighbors(g, Last(order))|
  }

  lemma {:induction false} VisitBound(g: Graph, s: Search, node: string)
    ensures var t := Visit(g, s, node);
      |t.found| + Imports(g, s.visited) <= |s.found| + Imports(g, t.visited) + if s.stack == [] then 0 else 1
    decreases Unvisited(g, s), 0
  {
    if node !in s.stack && node !in s.visited {
      var t := Push(s, node);
      assert t.visited[..|t.visited| - 1] == s.visited;
      if node in g {
        assert node in Unvisited(g, s) && node !in Unvisited(g, t);
        VisitAllBound(g, t, g[node]);
      }
    }
  }

  lemma {:induction false} VisitAllBound(g: Graph, s: Search, ns: seq<string>)
    ensures var t := VisitAll(g, s, ns);
      |t.found| + Imports(g, s.visited) <= |s.found| + Imports(g, t.visited) + if s.stack == [] then 0 else |ns|
    decreases Unvisited(g, s), |ns|
  {
    if ns != [] {
      var t := Visit(g, s, ns[0]);
      assert Unvisited(g, t) <= Unvisited(g, s);
      VisitBound(g, s, ns[0]);
      VisitAllBound(g, t, ns[1..]);
    }
  }
}
