/**
 For which module names the report of `detectCycles` is complete, whatever the imports are: a condition on
 the names alone.
 */
module CycleNames {
  import opened Text
  import opened CycleKeys
  import opened ImportGraph
  import opened CycleSearch
  import opened CycleDetector

  /** The nodes of a closed walk, each once. */
  function Inner(c: Cycle): seq<string>
    requires c != []
  {
    c[..|c| - 1]
  }

  ghost predicate Meet(xs: seq<string>, ys: seq<string>) {
    exists n :: n in xs && n in ys
  }

  /** One search can meet both cycles only if they share no node or start alike, or just one starts on the other. */
  ghost predicate Together(c: Cycle, d: Cycle)
    requires c != [] && d != []
  {
    Meet(Inner(c), Inner(d)) ==> c[0] == d[0] || (c[0] in Inner(d) <==> d[0] !in Inner(c))
  }

  // ---------------------------------------------------------------------------------
  // Two cycles of one search fit together: each follows the tree of first visits

  /** Each node but the first comes from the one before it. */
  ghost predicate Follows(parent: map<string, string>, xs: seq<string>) {
    forall i :: 0 < i < |xs| ==> xs[i] in parent && parent[xs[i]] == xs[i - 1]
  }

  ghost predicate Woven(s: Search, parent: map<string, string>) {
    Follows(parent, s.stack) && (forall n :: n in parent ==> n in s.visited) &&
    forall k :: 0 <= k < |s.found| ==> s.found[k] != [] && Follows(parent, Inner(s.found[k]))
  }

  lemma WovenReport(s: Search, parent: map<string, string>, node: string)
    requires Woven(s, parent) && node in s.stack
    ensures Woven(Report(s, node), parent)
  {
    var i, c := IndexOf(s.stack, node), Closing(s.stack, node);
    assert Inner(c) == s.stack[i..];
    forall j | 0 < j < |Inner(c)| ensures Inner(c)[j] in parent && parent[Inner(c)[j]] == Inner(c)[j - 1] {
      assert s.stack[i + j] == Inner(c)[j] && s.stack[i + j - 1] == Inner(c)[j - 1];
    }
  }

  lemma FollowsMore(parent: map<string, string>, xs: seq<string>, n: string, p: string)
    requires Follows(parent, xs) && n !in xs
    ensures Follows(parent[n := p], xs)
  {
  }

  lemma WovenPush(g: Graph, s: Search, parent: map<string, string>, node: string) returns (parent': map<string, string>)
    requires Shape(g, s) && Found(g, s) && Woven(s, parent) && node !in s.visited
    ensures Woven(Push(s, node), parent')
  {
    hide ReadOff, ClosingDecides, Ascending, ClosedWalk;
    var t := Push(s, node);
    if s.stack == [] {
      parent' := parent;
    } else {
      parent' := parent[node := Last(s.stack)];
      FollowsMore(parent, s.stack, node, Last(s.stack));
    }
    forall k | 0 <= k < |s.found| ensures Follows(parent', Inner(s.found[k])) {
      NotOnFound(g, s, k, node);
      FollowsMore(parent, Inner(s.found[k]), node, if s.stack == [] then "" else Last(s.stack));
    }
    forall i | 0 < i < |t.stack| ensures t.stack[i] in parent' && parent'[t.stack[i]] == t.stack[i - 1] {
      if i == |s.stack| { assert t.stack[i - 1] == Last(s.stack); }
    }
  }

  lemma NotOnFound(g: Graph, s: Search, k: nat, node: string)
    requires Found(g, s) && k < |s.found| && s.found[k] != [] && node !in s.visited
    ensures node !in Inner(s.found[k])
  {
    hide ReadOff, ClosingDecides, ClosedWalk;
    assert GoodCycle(g, s.visited, s.found[k]);
  }

  lemma WovenPop(s: Search, parent: map<string, string>, node: string)
    requires Woven(s, parent) && s.stack != []
    ensures Woven(Pop(s, node), parent)
  {
  }

  lemma {:induction false} VisitWoven(g: Graph, s: Search, node: string, parent: map<string, string>)
    returns (parent': map<string, string>)
    requires Shape(g, s) && Found(g, s) && Woven(s, parent) && Next(g, s.stack, node)
    ensures Woven(Visit(g, s, node), parent')
    decreases Unvisited(g, s), 0
  {
    hide Shape, Found, Woven;
    if node in s.stack {
      WovenReport(s, parent, node);
      parent' := parent;
    } else if node in s.visited {
      parent' := parent;
    } else {
      PushShape(g, s, node);
      FoundPush(g, s, node);
      var t := Push(s, node);
      parent' := WovenPush(g, s, parent, node);
      if node in g {
        assert node in Unvisited(g, s) && node !in Unvisited(g, t);
        NeighborsAreNext(g, t, node);
        parent' := VisitAllWoven(g, t, g[node], parent');
        WovenPop(VisitAll(g, t, g[node]), parent', node);
      } else {
        WovenPop(t, parent', node);
      }
    }
  }

  lemma {:induction false} VisitAllWoven(g: Graph, s: Search, ns: seq<string>, parent: map<string, string>)
    returns (parent': map<string, string>)
    requires Shape(g, s) && Found(g, s) && Woven(s, parent) && AllNext(g, s.stack, ns)
    ensures Woven(VisitAll(g, s, ns), parent')
    decreases Unvisited(g, s), |ns|
  {
    hide Shape, Found, Woven;
    parent' := parent;
    if ns != [] {
      var t := Visit(g, s, ns[0]);
      assert Unvisited(g, t) <= Unvisited(g, s);
      VisitShape(g, s, ns[0]);
      VisitFound(g, s, ns[0]);
      parent' := VisitWoven(g, s, ns[0], parent);
      parent' := VisitAllWoven(g, t, ns[1..], parent');
    }
  }

  /** Two chains that share a node agree upwards, until one of them starts. */
  lemma {:induction false} WalkBack(parent: map<string, string>, xs: seq<string>, ys: seq<string>, i: nat, j: nat)
    requires Follows(parent, xs) && Follows(parent, ys) && i < |xs| && j < |ys| && xs[i] == ys[j]
    ensures (i <= j ==> xs[0] == ys[j - i]) && (j <= i ==> ys[0] == xs[i - j])
    decreases i
  {
    if i > 0 && j > 0 {
      assert parent[xs[i]] == xs[i - 1] && parent[ys[j]] == ys[j - 1];
      WalkBack(parent, xs, ys, i - 1, j - 1);
    }
  }

  lemma StartsFirst(order: seq<string>, xs: seq<string>, i: nat)
    requires Ascending(order, xs) && i < |xs| && xs[i] != xs[0]
    ensures IndexOf(order, xs[0]) < IndexOf(order, xs[i])
  {
  }

  /** Any two cycles met in one search fit together. */
  lemma MetTogether(ms: seq<Module>, c: Cycle, d: Cycle)
    requires c in SearchOf(ms).found && d in SearchOf(ms).found
    ensures |c| >= 2 && |d| >= 2 && Together(c, d)
  {
    hide Shape, Found, Ascending, Woven;
    var g, s := AdjList(ms), SearchOf(ms);
    FoundIsGood(ms, c);
    FoundIsGood(ms, d);
    if Meet(Inner(c), Inner(d)) && c[0] != d[0] {
      var parent := SearchIsWoven(ms);
      var n :| n in Inner(c) && n in Inner(d);
      var i, j := IndexOf(Inner(c), n), IndexOf(Inner(d), n);
      FoundFollows(s, parent, c);
      FoundFollows(s, parent, d);
      WalkBack(parent, Inner(c), Inner(d), i, j);
      if c[0] in Inner(d) && d[0] in Inner(c) {
        StartsFirst(s.visited, Inner(d), IndexOf(Inner(d), c[0]));
        StartsFirst(s.visited, Inner(c), IndexOf(Inner(c), d[0]));
      }
      assert i <= j ==> c[0] == Inner(d)[j - i];
      assert j <= i ==> d[0] == Inner(c)[i - j];
    }
  }

  lemma SearchIsWoven(ms: seq<Module>) returns (parent: map<string, string>)
    ensures Woven(SearchOf(ms), parent)
  {
    assert AllNext(AdjList(ms), START.stack, Paths(ms));
    parent := VisitAllWoven(AdjList(ms), START, Paths(ms), map[]);
  }

  lemma FoundFollows(s: Search, parent: map<string, string>, c: Cycle)
    requires Woven(s, parent) && c in s.found
    ensures c != [] && Follows(parent, Inner(c))
  {
    var k := IndexOf(s.found, c);
  }

  // ---------------------------------------------------------------------------------
  // Cycles that fit together are met in one search of suitable modules

  /** Along a list each node imports the next one, and the last one imports `ends`. */
  function NextOf(xs: seq<string>, i: nat, ends: seq<string>): seq<string>
    requires i < |xs|
  {
    if i + 1 < |xs| then [xs[i + 1]] else ends
  }

  ghost predicate Trunk(g: Graph, xs: seq<string>, ends: seq<string>) {
    forall i :: 0 <= i < |xs| ==> xs[i] in g && g[xs[i]] == NextOf(xs, i, ends)
  }

  ghost predicate Unmet(s: Search, xs: seq<string>) {
    Distinct(xs) && forall i :: 0 <= i < |xs| ==> xs[i] !in s.visited && xs[i] !in s.stack
  }

  function PushAll(s: Search, xs: seq<string>): Search {
    s.(visited := s.visited + xs, stack := s.stack + xs)
  }

  lemma TrunkTail(g: Graph, xs: seq<string>, ends: seq<string>)
    requires xs != [] && Trunk(g, xs, ends)
    ensures Trunk(g, xs[1..], ends)
  {
    var tail := xs[1..];
    forall i | 0 <= i < |tail| ensures tail[i] in g && g[tail[i]] == NextOf(tail, i, ends) {
      assert tail[i] == xs[i + 1] && NextOf(tail, i, ends) == NextOf(xs, i + 1, ends);
    }
  }

  lemma UnmetTail(s: Search, xs: seq<string>)
    requires xs != [] && Unmet(s, xs)
    ensures Unmet(Push(s, xs[0]), xs[1..])
  {
    var s', tail := Push(s, xs[0]), xs[1..];
    forall i | 0 <= i < |tail| ensures tail[i] !in s'.visited && tail[i] !in s'.stack {
      assert tail[i] == xs[i + 1] && xs[0] != xs[i + 1];
    }
  }

  lemma PushTail(s: Search, xs: seq<string>)
    requires xs != []
    ensures PushAll(Push(s, xs[0]), xs[1..]) == PushAll(s, xs)
  {
    assert xs == [xs[0]] + xs[1..];
    assert s.visited + [xs[0]] + xs[1..] == s.visited + xs && s.stack + [xs[0]] + xs[1..] == s.stack + xs;
  }

  /** A visit goes down the trunk and meets what the imports of its last node meet. */
  lemma {:induction false} TrunkRun(g: Graph, s: Search, xs: seq<string>, ends: seq<string>)
    requires xs != [] && Trunk(g, xs, ends) && Unmet(s, xs)
    ensures var t, u := Visit(g, s, xs[0]), VisitAll(g, PushAll(s, xs), ends);
      t.found == u.found && t.visited == u.visited
    decreases |xs|
  {
    hide Visit, VisitAll, Unmet;
    var x, tail := xs[0], xs[1..];
    assert x in g && x !in s.stack && x !in s.visited by { FirstUnmet(s, xs); }
    VisitNew(g, s, x);
    TrunkTail(g, xs, ends);
    UnmetTail(s, xs);
    PushTail(s, xs);
    if tail == [] {
      assert g[x] == NextOf(xs, 0, ends) == ends && PushAll(s, xs) == Push(s, x);
    } else {
      assert g[x] == NextOf(xs, 0, ends) == [tail[0]];
      VisitOnly(g, Push(s, x), tail[0]);
      TrunkRun(g, Push(s, x), tail, ends);
    }
  }

  lemma FirstUnmet(s: Search, xs: seq<string>)
    requires xs != [] && Unmet(s, xs)
    ensures xs[0] !in s.stack && xs[0] !in s.visited
  {
  }

  /** Where a branch starts: its first node, or the node that it leads back to. */
  function Head(xs: seq<string>, v: string): string {
    if xs == [] then v else xs[0]
  }

  /** A branch of single imports that leads back to a node of its own or of the path stack closes one cycle. */
  lemma BranchRun(g: Graph, s: Search, xs: seq<string>, v: string)
    requires Trunk(g, xs, [v]) && Unmet(s, xs) && v in s.stack + xs
    ensures var t := Visit(g, s, Head(xs, v));
      t.found == s.found + [Closing(s.stack + xs, v)] && t.visited == s.visited + xs
  {
    hide Trunk;
    if xs == [] {
      assert s.stack + xs == s.stack && s.visited + xs == s.visited;
    } else {
      TrunkRun(g, s, xs, [v]);
      VisitOnly(g, PushAll(s, xs), v);
    }
  }

  function TrunkModules(xs: seq<string>, ends: seq<string>): seq<Module> {
    seq(|xs|, i requires 0 <= i < |xs| => Module(xs[i], NextOf(xs, i, ends)))
  }

  /** A trunk and two branches from its end, each leading back to a node. */
  function ForkModules(trunk: seq<string>, a: seq<string>, v: string, b: seq<string>, w: string): seq<Module> {
    TrunkModules(trunk, [Head(a, v), Head(b, w)]) + TrunkModules(a, [v]) + TrunkModules(b, [w])
  }

  lemma ForkPaths(trunk: seq<string>, a: seq<string>, v: string, b: seq<string>, w: string)
    ensures Paths(ForkModules(trunk, a, v, b, w)) == trunk + a + b
  {
  }

  lemma {:induction false} AdjListEntry(ms: seq<Module>, i: nat)
    requires Distinct(Paths(ms)) && i < |ms|
    ensures ms[i].path in AdjList(ms) && AdjList(ms)[ms[i].path] == ms[i].imports
  {
    var init := ms[..|ms| - 1];
    if i < |init| {
      assert Paths(ms)[i] != Paths(ms)[|init|];
      forall j, k | 0 <= j < k < |init| ensures Paths(init)[j] != Paths(init)[k] {
        assert Paths(ms)[j] != Paths(ms)[k];
      }
      AdjListEntry(init, i);
    }
  }

  lemma TrunkInGraph(ms: seq<Module>, at: nat, xs: seq<string>, ends: seq<string>)
    requires Distinct(Paths(ms)) && at + |xs| <= |ms| && ms[at..at + |xs|] == TrunkModules(xs, ends)
    ensures Trunk(AdjList(ms), xs, ends)
  {
    hide AdjList, Distinct, Paths, NextOf;
    forall i | 0 <= i < |xs| ensures xs[i] in AdjList(ms) && AdjList(ms)[xs[i]] == NextOf(xs, i, ends) {
      assert ms[at + i] == ms[at..at + |xs|][i] == Module(xs[i], NextOf(xs, i, ends));
      AdjListEntry(ms, at + i);
    }
  }

  lemma ForkGraph(trunk: seq<string>, a: seq<string>, v: string, b: seq<string>, w: string)
    requires Distinct(trunk + a + b)
    ensures var g := AdjList(ForkModules(trunk, a, v, b, w));
      Trunk(g, trunk, [Head(a, v), Head(b, w)]) && Trunk(g, a, [v]) && Trunk(g, b, [w])
  {
    hide Trunk, AdjList, TrunkModules;
    var ms := ForkModules(trunk, a, v, b, w);
    ForkPaths(trunk, a, v, b, w);
    var x, y, z := TrunkModules(trunk, [Head(a, v), Head(b, w)]), TrunkModules(a, [v]), TrunkModules(b, [w]);
    TrunkLength(trunk, [Head(a, v), Head(b, w)]);
    TrunkLength(a, [v]);
    TrunkLength(b, [w]);
    assert ms[0..|x|] == x && ms[|x|..|x| + |y|] == y && ms[|x| + |y|..|x| + |y| + |z|] == z;
    TrunkInGraph(ms, 0, trunk, [Head(a, v), Head(b, w)]);
    TrunkInGraph(ms, |x|, a, [v]);
    TrunkInGraph(ms, |x| + |y|, b, [w]);
  }

  lemma TrunkLength(xs: seq<string>, ends: seq<string>)
    ensures |TrunkModules(xs, ends)| == |xs|
  {
  }

  lemma DistinctParts(xs: seq<string>, ys: seq<string>)
    requires Distinct(xs + ys)
    ensures Distinct(xs) && Distinct(ys) && forall i :: 0 <= i < |ys| ==> ys[i] !in xs
  {
    var all := xs + ys;
    forall i, j | 0 <= i < j < |xs| ensures xs[i] != xs[j] {
      assert all[i] != all[j];
    }
    forall i, j | 0 <= i < j < |ys| ensures ys[i] != ys[j] {
      assert all[|xs| + i] != all[|xs| + j];
    }
    forall i, j | 0 <= i < |ys| && 0 <= j < |xs| ensures xs[j] != ys[i] {
      assert all[j] != all[|xs| + i];
    }
  }

  lemma UnmetParts(trunk: seq<string>, a: seq<string>, b: seq<string>)
    requires Distinct(trunk + a + b)
    ensures Unmet(START, trunk) && Unmet(PushAll(START, trunk), a)
    ensures forall s: Search :: s.visited == trunk + a && s.stack == trunk ==> Unmet(s, b)
  {
    hide Distinct;
    DistinctParts(trunk + a, b);
    DistinctParts(trunk, a);
    assert forall i :: 0 <= i < |b| ==> b[i] !in trunk;
    assert START.visited + trunk == trunk;
  }

  /** What the search has met when the first module is done. */
  lemma ForkFirstVisit(trunk: seq<string>, a: seq<string>, v: string, b: seq<string>, w: string)
    requires trunk != [] && Distinct(trunk + a + b) && v in trunk + a && w in trunk + b
    ensures Visit(AdjList(ForkModules(trunk, a, v, b, w)), START, trunk[0]).found ==
      [Closing(trunk + a, v)] + [Closing(trunk + b, w)]
  {
    hide Trunk, AdjList, Unmet, Closing, ForkModules, Visit, Distinct;
    var g := AdjList(ForkModules(trunk, a, v, b, w));
    var ends, s := [Head(a, v), Head(b, w)], PushAll(START, trunk);
    assert s.stack == trunk && s.visited == trunk && s.found == [];
    ForkGraph(trunk, a, v, b, w);
    UnmetParts(trunk, a, b);
    TrunkRun(g, START, trunk, ends);
    BranchRun(g, s, a, v);
    var t := Visit(g, s, Head(a, v));
    assert t.stack == trunk && t.visited == trunk + a;
    BranchRun(g, t, b, w);
    VisitTwo(g, s, Head(a, v), Head(b, w));
    assert s.found + [Closing(trunk + a, v)] == [Closing(trunk + a, v)];
  }

  lemma FirstModule(ms: seq<Module>, n: string)
    requires ms != [] && Paths(ms)[0] == n
    ensures Visit(AdjList(ms), START, n).found <= SearchOf(ms).found
  {
    hide Visit, AdjList;
    var first := Visit(AdjList(ms), START, n);
    assert VisitAll(AdjList(ms), START, Paths(ms)) == VisitAll(AdjList(ms), first, Paths(ms)[1..]);
    assert Extends(first, VisitAll(AdjList(ms), first, Paths(ms)[1..]));
  }

  /** Both branches of a fork close a cycle, and the search meets both. */
  lemma ForkMeetsBoth(trunk: seq<string>, a: seq<string>, v: string, b: seq<string>, w: string)
    requires trunk != [] && Distinct(trunk + a + b) && v in trunk + a && w in trunk + b
    ensures var found := SearchOf(ForkModules(trunk, a, v, b, w)).found;
      Closing(trunk + a, v) in found && Closing(trunk + b, w) in found
  {
    hide AdjList, Closing, ForkModules, SearchOf, Visit, Distinct;
    var ms := ForkModules(trunk, a, v, b, w);
    ForkPaths(trunk, a, v, b, w);
    ForkFirstVisit(trunk, a, v, b, w);
    assert Paths(ms)[0] == trunk[0];
    FirstModule(ms, trunk[0]);
    var first := Visit(AdjList(ms), START, trunk[0]);
    FoundInPrefix(first.found, SearchOf(ms).found, Closing(trunk + a, v), Closing(trunk + b, w));
  }

  lemma FoundInPrefix(some: seq<Cycle>, all: seq<Cycle>, c: Cycle, d: Cycle)
    requires some == [c] + [d] && some <= all
    ensures c in all && d in all
  {
    assert all[0] == some[0] == c && all[1] == some[1] == d;
  }

  // ---------------------------------------------------------------------------------
  // Arranging two cycles as a fork

  function Common(xs: seq<string>, ys: seq<string>): seq<string> {
    if xs == [] then [] else (if xs[0] in ys then [xs[0]] else []) + Common(xs[1..], ys)
  }

  function Others(xs: seq<string>, ys: seq<string>): seq<string> {
    if xs == [] then [] else (if xs[0] in ys then [] else [xs[0]]) + Others(xs[1..], ys)
  }

  lemma {:induction false} SplitMembers(xs: seq<string>, ys: seq<string>)
    ensures forall n :: n in Common(xs, ys) <==> n in xs && n in ys
    ensures forall n :: n in Others(xs, ys) <==> n in xs && n !in ys
    ensures multiset(Common(xs, ys)) + multiset(Others(xs, ys)) == multiset(xs)
  {
    if xs != [] {
      SplitMembers(xs[1..], ys);
      assert xs == [xs[0]] + xs[1..];
    }
  }

  lemma SplitHeads(xs: seq<string>, ys: seq<string>)
    requires xs != []
    ensures xs[0] in ys ==> Common(xs, ys) != [] && Common(xs, ys)[0] == xs[0]
    ensures xs[0] !in ys ==> Others(xs, ys) != [] && Others(xs, ys)[0] == xs[0]
  {
  }

  lemma DistinctCons(x: string, xs: seq<string>)
    requires Distinct(xs) && x !in xs
    ensures Distinct([x] + xs)
  {
  }

  lemma {:induction false} SplitDistinct(xs: seq<string>, ys: seq<string>)
    requires Distinct(xs)
    ensures Distinct(Common(xs, ys)) && Distinct(Others(xs, ys))
  {
    if xs != [] {
      SplitDistinct(xs[1..], ys);
      SplitMembers(xs[1..], ys);
      assert xs[0] !in xs[1..];
      DistinctCons(xs[0], Common(xs[1..], ys));
      DistinctCons(xs[0], Others(xs[1..], ys));
      assert [] + Common(xs[1..], ys) == Common(xs[1..], ys) && [] + Others(xs[1..], ys) == Others(xs[1..], ys);
    }
  }

  lemma {:induction false} JoinDistinct(xs: seq<string>, ys: seq<string>)
    requires Distinct(xs) && Distinct(ys) && forall n :: n in xs ==> n !in ys
    ensures Distinct(xs + ys)
  {
    if xs == [] {
      assert xs + ys == ys;
    } else {
      assert xs == [xs[0]] + xs[1..] && xs[0] !in xs[1..];
      JoinDistinct(xs[1..], ys);
      DistinctCons(xs[0], xs[1..] + ys);
      assert xs + ys == [xs[0]] + (xs[1..] + ys);
    }
  }

  lemma {:induction false} CountDistinct(xs: seq<string>, n: string)
    requires Distinct(xs)
    ensures multiset(xs)[n] == if n in xs then 1 else 0
  {
    if xs != [] {
      assert xs == [xs[0]] + xs[1..] && xs[0] !in xs[1..];
      CountDistinct(xs[1..], n);
    }
  }

  lemma SameMembers(xs: seq<string>, ys: seq<string>)
    requires Distinct(xs) && Distinct(ys) && forall n :: n in xs <==> n in ys
    ensures multiset(xs) == multiset(ys)
  {
    forall n ensures multiset(xs)[n] == multiset(ys)[n] {
      CountDistinct(xs, n);
      CountDistinct(ys, n);
    }
  }

  lemma ClosingAt(xs: seq<string>, ys: seq<string>)
    requires ys != [] && ys[0] !in xs
    ensures Closing(xs + ys, ys[0]) == ys + [ys[0]]
  {
    var all := xs + ys;
    assert all[|xs|] == ys[0];
    var i := IndexOf(all, ys[0]);
    assert forall k :: 0 <= k < |xs| ==> all[k] != ys[0];
    assert all[|xs|..] == ys;
  }

  /** A closed list through distinct nodes. */
  ghost predicate Ring(c: Cycle) {
    |c| >= 2 && c[0] == c[|c| - 1] && Distinct(Inner(c))
  }

  lemma RingNodes(c: Cycle)
    requires Ring(c)
    ensures c == Inner(c) + [c[0]] && Inner(c) != [] && Inner(c)[0] == c[0]
    ensures multiset(c) == multiset(Inner(c)) + multiset{c[0]}
  {
    assert c == Inner(c) + [c[0]];
  }

  ghost predicate NamesIn(ms: seq<Module>, names: set<string>) {
    forall i :: 0 <= i < |ms| ==> ms[i].path in names && forall v :: v in ms[i].imports ==> v in names
  }

  ghost predicate AllIn(xs: seq<string>, names: set<string>) {
    forall n :: n in xs ==> n in names
  }

  lemma TrunkNames(xs: seq<string>, ends: seq<string>, names: set<string>)
    requires AllIn(xs, names) && AllIn(ends, names)
    ensures NamesIn(TrunkModules(xs, ends), names)
  {
    var ms := TrunkModules(xs, ends);
    forall i | 0 <= i < |ms| ensures ms[i].path in names && forall v :: v in ms[i].imports ==> v in names {
      assert ms[i] == Module(xs[i], NextOf(xs, i, ends)) && xs[i] in xs;
      if i + 1 < |xs| { assert xs[i + 1] in xs; }
    }
  }

  lemma ForkNames(trunk: seq<string>, a: seq<string>, v: string, b: seq<string>, w: string, names: set<string>)
    requires AllIn(trunk, names) && AllIn(a, names) && AllIn(b, names) && v in names && w in names
    ensures NamesIn(ForkModules(trunk, a, v, b, w), names)
  {
    hide TrunkModules;
    assert Head(a, v) in names && Head(b, w) in names;
    TrunkNames(trunk, [Head(a, v), Head(b, w)], names);
    TrunkNames(a, [v], names);
    TrunkNames(b, [w], names);
  }

  /** Modules whose search meets both node lists, up to the order of the nodes. */
  ghost predicate MeetsBoth(ms: seq<Module>, names: set<string>, c: Cycle, d: Cycle) {
    NamesIn(ms, names) &&
    exists c', d' ::
      c' in SearchOf(ms).found && d' in SearchOf(ms).found && multiset(c') == multiset(c) && multiset(d') == multiset(d)
  }

  lemma ForkFits(
    trunk: seq<string>, a: seq<string>, v: string, b: seq<string>, w: string,
    c: Cycle, d: Cycle, c': Cycle, d': Cycle, names: set<string>) returns (ms: seq<Module>)
    requires trunk != [] && Distinct(trunk + a + b) && v in trunk + a && w in trunk + b
    requires Closing(trunk + a, v) == c' && Closing(trunk + b, w) == d'
    requires multiset(c') == multiset(c) && multiset(d') == multiset(d)
    requires AllIn(trunk, names) && AllIn(a, names) && AllIn(b, names)
    ensures MeetsBoth(ms, names, c, d)
  {
    hide Closing, ForkModules, Distinct;
    assert v in names && w in names;
    ms := ForkModules(trunk, a, v, b, w);
    ForkNames(trunk, a, v, b, w, names);
    ForkMeetsBoth(trunk, a, v, b, w);
  }

  lemma ApartFits(c: Cycle, d: Cycle, names: set<string>) returns (ms: seq<Module>)
    requires Ring(c) && Ring(d) && AllIn(c, names) && AllIn(d, names) && !Meet(Inner(c), Inner(d))
    ensures MeetsBoth(ms, names, c, d)
  {
    var xs, ys := Inner(c), Inner(d);
    RingNodes(c);
    RingNodes(d);
    JoinDistinct(xs, ys);
    assert xs + [] + ys == xs + ys && xs + [] == xs && [] + xs == xs;
    ClosingAt([], xs);
    ClosingAt(xs, ys);
    ms := ForkFits(xs, [], c[0], ys, d[0], c, d, c, d, names);
  }

  lemma SameStartFits(c: Cycle, d: Cycle, names: set<string>) returns (ms: seq<Module>)
    requires Ring(c) && Ring(d) && AllIn(c, names) && AllIn(d, names) && c[0] == d[0]
    ensures MeetsBoth(ms, names, c, d)
  {
    var xs, ys := Inner(c), Inner(d);
    RingNodes(c);
    RingNodes(d);
    var trunk, a, b := Common(xs, ys), Others(xs, ys), Others(ys, xs);
    SplitAll(xs, ys);
    SplitHeads(xs, ys);
    JoinDistinct(trunk, a);
    JoinDistinct(trunk + a, b);
    ClosingAt([], trunk + a);
    ClosingAt([], trunk + b);
    assert [] + (trunk + a) == trunk + a && [] + (trunk + b) == trunk + b;
    ms := ForkFits(trunk, a, c[0], b, d[0], c, d, trunk + a + [c[0]], trunk + b + [d[0]], names);
  }

  /** The parts of two lists of distinct nodes. */
  lemma SplitAll(xs: seq<string>, ys: seq<string>)
    requires Distinct(xs) && Distinct(ys)
    ensures Distinct(Common(xs, ys)) && Distinct(Others(xs, ys)) && Distinct(Common(ys, xs)) && Distinct(Others(ys, xs))
    ensures forall n :: n in Common(xs, ys) <==> n in xs && n in ys
    ensures forall n :: n in Others(xs, ys) <==> n in xs && n !in ys
    ensures forall n :: n in Common(ys, xs) <==> n in xs && n in ys
    ensures forall n :: n in Others(ys, xs) <==> n in ys && n !in xs
    ensures multiset(Common(xs, ys)) + multiset(Others(xs, ys)) == multiset(xs)
    ensures multiset(Common(xs, ys)) + multiset(Others(ys, xs)) == multiset(ys)
    ensures multiset(Common(ys, xs)) == multiset(Common(xs, ys))
  {
    hide Common, Others, Distinct;
    SplitDistinct(xs, ys);
    SplitDistinct(ys, xs);
    SplitMembers(xs, ys);
    SplitMembers(ys, xs);
    SameMembers(Common(xs, ys), Common(ys, xs));
  }

  /** The nodes of the first list only, then the shared ones from where the second list starts. */
  lemma BelowShape(xs: seq<string>, ys: seq<string>)
    requires Distinct(xs) && Distinct(ys) && xs != [] && ys != [] && ys[0] in xs && xs[0] !in ys
    ensures var top, shared, b := Others(xs, ys), Common(ys, xs), Others(ys, xs);
      top != [] && Distinct(top + shared + [] + b) && xs[0] in top + shared + [] && ys[0] in top + shared + b &&
      Closing(top + shared + [], xs[0]) == top + shared + [xs[0]] &&
      Closing(top + shared + b, ys[0]) == shared + b + [ys[0]]
  {
    hide Common, Others, Distinct, Closing;
    var top, shared, b := Others(xs, ys), Common(ys, xs), Others(ys, xs);
    SplitAll(xs, ys);
    SplitHeads(xs, ys);
    SplitHeads(ys, xs);
    JoinDistinct(top, shared);
    JoinDistinct(top + shared, b);
    assert top + shared + [] == top + shared == [] + (top + shared);
    ClosingAt([], top + shared);
    ClosingAt(top, shared + b);
    assert top + shared + b == top + (shared + b);
  }

  lemma BelowMultisets(c: Cycle, d: Cycle)
    requires Ring(c) && Ring(d)
    ensures var xs, ys := Inner(c), Inner(d);
      multiset(Others(xs, ys) + Common(ys, xs) + [c[0]]) == multiset(c) &&
      multiset(Common(ys, xs) + Others(ys, xs) + [d[0]]) == multiset(d)
  {
    hide Common, Others;
    RingNodes(c);
    RingNodes(d);
    SplitAll(Inner(c), Inner(d));
  }

  /** The second cycle starts on the first one, below its start. */
  lemma BelowFits(c: Cycle, d: Cycle, names: set<string>) returns (ms: seq<Module>)
    requires Ring(c) && Ring(d) && AllIn(c, names) && AllIn(d, names) && d[0] in Inner(c) && c[0] !in Inner(d)
    ensures MeetsBoth(ms, names, c, d)
  {
    hide Common, Others, Distinct, Closing, MeetsBoth;
    var xs, ys := Inner(c), Inner(d);
    RingNodes(c);
    RingNodes(d);
    var top, shared, b := Others(xs, ys), Common(ys, xs), Others(ys, xs);
    BelowShape(xs, ys);
    BelowMultisets(c, d);
    SplitAll(xs, ys);
    ms := ForkFits(top + shared, [], c[0], b, d[0], c, d, top + shared + [c[0]], shared + b + [d[0]], names);
  }

  lemma MeetsSwap(ms: seq<Module>, names: set<string>, c: Cycle, d: Cycle)
    requires MeetsBoth(ms, names, d, c)
    ensures MeetsBoth(ms, names, c, d)
  {
  }

  /** Node lists that fit together can both be met. */
  lemma BothCanBeMet(c: Cycle, d: Cycle, names: set<string>) returns (ms: seq<Module>)
    requires Ring(c) && Ring(d) && AllIn(c, names) && AllIn(d, names) && Together(c, d)
    ensures MeetsBoth(ms, names, c, d)
  {
    hide Ring, MeetsBoth, AllIn;
    assert c != [] && d != [] by { RingNodes(c); RingNodes(d); }
    if !Meet(Inner(c), Inner(d)) {
      ms := ApartFits(c, d, names);
    } else if c[0] == d[0] {
      ms := SameStartFits(c, d, names);
    } else if d[0] in Inner(c) {
      ms := BelowFits(c, d, names);
    } else {
      ms := BelowFits(d, c, names);
      MeetsSwap(ms, names, c, d);
    }
  }

  // ---------------------------------------------------------------------------------
  // The names for which every report is complete

  /** Two node lists that one search can meet, with equal joined texts and different nodes. */
  ghost predicate NamesClash(names: set<string>) {
    exists c, d :: Ring(c) && Ring(d) && AllIn(c, names) && AllIn(d, names) && Together(c, d) &&
      CycleKey(c) == CycleKey(d) && Sorted(c) != Sorted(d)
  }

  lemma FoundNames(ms: seq<Module>, names: set<string>, c: Cycle)
    requires NamesIn(ms, names) && c in SearchOf(ms).found
    ensures Ring(c) && AllIn(c, names)
  {
    FoundIsSimple(ms, c);
    var g := AdjList(ms);
    forall i | 0 <= i < |c| ensures c[i] in names {
      var j := if i == 0 then |c| - 2 else i - 1;
      assert c[j + 1] in Neighbors(g, c[j]);
      AdjListImports(ms, c[j]);
    }
  }

  lemma MeetsClash(ms: seq<Module>, names: set<string>, c: Cycle, d: Cycle)
    requires MeetsBoth(ms, names, c, d) && CycleKey(c) == CycleKey(d) && Sorted(c) != Sorted(d)
    ensures KeysClash(SearchOf(ms).found)
  {
    hide CycleKey, Sorted, SearchOf;
    var c', d' :|
      c' in SearchOf(ms).found && d' in SearchOf(ms).found &&
      multiset(c') == multiset(c) && multiset(d') == multiset(d);
    KeyForgetsOrder(c, c');
    KeyForgetsOrder(d, d');
  }

  /**
   The report breaks every import cycle, for every list of modules with these names, exactly when no two
   node lists over the names that one search can meet are confused by the key.
   */
  lemma ReportsCompleteIff(names: set<string>)
    ensures (forall ms :: NamesIn(ms, names) ==> BreaksEveryCycle(ms)) <==> !NamesClash(names)
  {
    hide BreaksEveryCycle, CycleKey, Sorted, NamesIn, AllIn, Together, SearchOf, MeetsBoth, Distinct;
    if NamesClash(names) {
      var c, d :| Ring(c) && Ring(d) && AllIn(c, names) && AllIn(d, names) && Together(c, d) &&
        CycleKey(c) == CycleKey(d) && Sorted(c) != Sorted(d);
      var ms := BothCanBeMet(c, d, names);
      assert NamesIn(ms, names) by { MeetsNames(ms, names, c, d); }
      MeetsClash(ms, names, c, d);
      BreaksEveryCycleIff(ms);
    } else {
      forall ms | NamesIn(ms, names) ensures BreaksEveryCycle(ms) {
        forall c, d | c in SearchOf(ms).found && d in SearchOf(ms).found && CycleKey(c) == CycleKey(d)
          ensures Sorted(c) == Sorted(d)
        {
          FoundNames(ms, names, c);
          FoundNames(ms, names, d);
          MetTogether(ms, c, d);
        }
        BreaksEveryCycleIff(ms);
      }
    }
  }

  lemma MeetsNames(ms: seq<Module>, names: set<string>, c: Cycle, d: Cycle)
    requires MeetsBoth(ms, names, c, d)
    ensures NamesIn(ms, names)
  {
  }

  /** Names without "->" never clash. */
  lemma ArrowFreeNamesAreSafe(names: set<string>)
    requires forall n :: n in names ==> ArrowFree(n)
    ensures !NamesClash(names)
  {
    hide CycleKey, Sorted, ArrowFree, Together, Distinct;
    forall c, d | Ring(c) && Ring(d) && AllIn(c, names) && AllIn(d, names) && CycleKey(c) == CycleKey(d)
      ensures Sorted(c) == Sorted(d)
    {
      assert forall i :: 0 <= i < |c| ==> c[i] in c;
      assert forall i :: 0 <= i < |d| ==> d[i] in d;
      KeyDeterminesNodes(c, d);
    }
  }

  lemma LoopIsRing(y: string)
    ensures Ring([y, y]) && Inner([y, y]) == [y]
  {
  }

  lemma PairIsRing(x: string, y: string)
    requires x != y
    ensures Ring([x, y, x]) && Inner([x, y, x]) == [x, y]
  {
    assert [x, y, x][..2] == [x, y];
  }

  /** Any name x and the name x -> x do. */
  lemma ArrowNamesClash(x: string)
    ensures NamesClash({x, Twice(x)})
  {
    hide CycleKey, Sorted, Twice, Ring, Inner, Distinct;
    var y := Twice(x);
    var c: Cycle, d: Cycle := [y, y], [x, y, x];
    TwiceDiffers(x);
    LoopIsRing(y);
    PairIsRing(x, y);
    assert Together(c, d);
    ClashingKeys(x);
    assert Sorted(c) != Sorted(d) by {
      ClashingSorts(x);
      assert |Sorted(c)| != |Sorted(d)|;
    }
  }
}
