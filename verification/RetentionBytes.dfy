/** The byte totals of a run against what is really freed. */
module RetentionBytes {
  import opened Wrappers
  import opened FileTree
  import opened Retention
  import opened RetentionListing
  import opened RetentionWindow

  ghost predicate AllHold(es: Entries, cs: seq<Candidate>) {
    forall i :: 0 <= i < |cs| ==> Holds(es, cs[i])
  }

  // ---------------------------------------------------------------------------------
  // Conservation

  /** The bytes of file candidates that were already gone when they were removed. */
  ghost function AlreadyGone(es: Entries, cs: seq<Candidate>): int
    decreases |cs|
  {
    if cs == [] then 0
    else
      BytesOf(es, cs[0]) - SizeAt(es, cs[0].path) + AlreadyGone(Remove(es, cs[0].path), cs[1..])
  }

  lemma {:induction false} ReportedIsFreedAndGone(es: Entries, policy: Policy, now: real, cs: seq<Candidate>)
    ensures TotalBytes(Actions(es, policy, now, true, cs)) ==
      Size(es) - Size(TreeAfter(es, true, cs)) + AlreadyGone(es, cs)
    decreases |cs|
  {
    if cs != [] {
      RemoveConserves(es, cs[0].path);
      ReportedIsFreedAndGone(Remove(es, cs[0].path), policy, now, cs[1..]);
      var tail := Actions(Remove(es, cs[0].path), policy, now, true, cs[1..]);
      assert Actions(es, policy, now, true, cs)[1..] == tail;
    }
  }

  /** The tree is the first one with some of the entries removed. */
  ghost predicate Pruned(es0: Entries, es: Entries, removed: seq<Path>) {
    Valid(es) && forall p, n :: Lookup(es0, p) == Some(n) && n.File? ==>
      Lookup(es, p) == if exists k :: 0 <= k < |removed| && removed[k] <= p then None else Some(n)
  }

  lemma PrunedStep(es0: Entries, es: Entries, removed: seq<Path>, q: Path)
    requires Pruned(es0, es, removed) && q != []
    ensures Pruned(es0, Remove(es, q), removed + [q])
  {
    RemoveValid(es, q);
    var more := removed + [q];
    forall p, n | Lookup(es0, p) == Some(n) && n.File?
      ensures Lookup(Remove(es, q), p) == if exists k :: 0 <= k < |more| && more[k] <= p then None else Some(n)
    {
      FileAfterRemove(es, q, p);
      if k :| 0 <= k < |removed| && removed[k] <= p {
        assert more[k] == removed[k];
      }
      assert more[|removed|] == q;
      assert forall k :: 0 <= k < |removed| ==> more[k] == removed[k];
    }
  }

  /** A file is gone exactly when what is removed is at or above it. */
  lemma FileAfterRemove(es: Entries, q: Path, p: Path)
    requires Valid(es) && q != [] && (Lookup(es, p).Some? ==> Lookup(es, p).value.File?)
    ensures Lookup(Remove(es, q), p) == if q <= p then None else Lookup(es, p)
  {
    if q <= p {
      LookupBelowRemoved(es, q, p);
    } else if p != [] && p <= q {
      LookupAboveRemoved(es, q, p);
    } else if p != [] {
      LookupElsewhere(es, q, p);
    }
  }

  ghost predicate RemovedAbove(removed: seq<Path>, p: Path) {
    exists k :: 0 <= k < |removed| && removed[k] <= p
  }

  /** A nonempty file candidate at or below something removed before it. */
  ghost predicate CountedTwice(removed: seq<Path>, cs: seq<Candidate>) {
    exists j :: 0 <= j < |cs| && !cs[j].stats.isDir && cs[j].stats.size > 0 &&
      (RemovedAbove(removed, cs[j].path) || exists i :: 0 <= i < j && cs[i].path <= cs[j].path)
  }

  lemma CountedTwiceStep(removed: seq<Path>, cs: seq<Candidate>)
    requires cs != []
    ensures CountedTwice(removed, cs) <==>
      (!cs[0].stats.isDir && cs[0].stats.size > 0 && RemovedAbove(removed, cs[0].path)) ||
      CountedTwice(removed + [cs[0].path], cs[1..])
  {
    var more := removed + [cs[0].path];
    forall p ensures RemovedAbove(more, p) <==> RemovedAbove(removed, p) || cs[0].path <= p {
      assert more[|removed|] == cs[0].path;
      assert forall k :: 0 <= k < |removed| ==> more[k] == removed[k];
    }
    if CountedTwice(removed, cs) {
      var j :| 0 <= j < |cs| && !cs[j].stats.isDir && cs[j].stats.size > 0 &&
        (RemovedAbove(removed, cs[j].path) || exists i :: 0 <= i < j && cs[i].path <= cs[j].path);
      if j > 0 {
        assert cs[1..][j - 1] == cs[j];
        if i :| 0 <= i < j && cs[i].path <= cs[j].path {
          assert i > 0 ==> cs[1..][i - 1] == cs[i];
        }
      }
    }
    if CountedTwice(more, cs[1..]) {
      var j :| 0 <= j < |cs[1..]| && !cs[1..][j].stats.isDir && cs[1..][j].stats.size > 0 &&
        (RemovedAbove(more, cs[1..][j].path) || exists i :: 0 <= i < j && cs[1..][i].path <= cs[1..][j].path);
      assert cs[j + 1] == cs[1..][j];
      if i :| 0 <= i < j && cs[1..][i].path <= cs[1..][j].path {
        assert cs[i + 1] == cs[1..][i];
      }
    }
  }

  lemma BytesBeyond(es0: Entries, es: Entries, removed: seq<Path>, c: Candidate)
    requires Pruned(es0, es, removed) && Holds(es0, c)
    ensures BytesOf(es, c) - SizeAt(es, c.path) ==
      if !c.stats.isDir && RemovedAbove(removed, c.path) then c.stats.size else 0
  {
  }

  lemma {:induction false} GoneIffCountedTwice(es0: Entries, es: Entries, removed: seq<Path>, cs: seq<Candidate>)
    requires Pruned(es0, es, removed) && AllHold(es0, cs)
    ensures AlreadyGone(es, cs) >= 0 && (AlreadyGone(es, cs) == 0 <==> !CountedTwice(removed, cs))
    decreases |cs|
  {
    if cs != [] {
      var c := cs[0];
      assert Holds(es0, c);
      BytesBeyond(es0, es, removed, c);
      PrunedStep(es0, es, removed, c.path);
      forall i | 0 <= i < |cs[1..]| ensures Holds(es0, cs[1..][i]) {
        assert cs[1..][i] == cs[i + 1];
      }
      GoneIffCountedTwice(es0, Remove(es, c.path), removed + [c.path], cs[1..]);
      CountedTwiceStep(removed, cs);
    }
  }

  /**
   With apply, the reported bytes are never less than what is freed, and they are equal exactly when no
   nonempty file is removed after something above it (or itself) was.
   */
  lemma ReportedIsFreedIff(es: Entries, policy: Policy, now: real, cs: seq<Candidate>)
    requires Valid(es) && AllHold(es, cs)
    ensures var reported := TotalBytes(Actions(es, policy, now, true, cs));
      var freed := Size(es) - Size(TreeAfter(es, true, cs));
      reported >= freed && (reported == freed <==> !CountedTwice([], cs))
  {
    ReportedIsFreedAndGone(es, policy, now, cs);
    GoneIffCountedTwice(es, es, [], cs);
  }

  /** A policy that selects everything counts the file in a removed directory a second time. */
  lemma MixedPolicyCountsTwice()
    ensures var es := Entry("cache", Dir(0.0, Entry("d", Dir(0.0, Entry("f", File(5, 0.0), Empty)), Empty)), Empty);
      var scan := Scan(es, Policy("mixed", ["cache"], 0, None, (c: Candidate) => true), 1.0, true);
      scan.Done? && TotalBytes(scan.value.1) == 10 && Size(es) - Size(scan.value.0) == 5
  {
    var f := Entry("f", File(5, 0.0), Empty);
    var d := Entry("d", Dir(0.0, f), Empty);
    var es := Entry("cache", Dir(0.0, d), Empty);
    var policy := Policy("mixed", ["cache"], 0, None, (c: Candidate) => true);
    var c1, c2 := Candidate(["cache", "d"], Stats(true, 0, 0.0)), Candidate(["cache", "d", "f"], Stats(false, 5, 0.0));
    assert ["cache"] + ["d"] == ["cache", "d"] && ["cache", "d"] + ["f"] == ["cache", "d", "f"];
    assert Walk(f, ["cache", "d"]) == [c2];
    assert Walk(d, ["cache"]) == [c1, c2];
    assert [c1, c2][1..] == [c2] && [c2][1..] == [];
    assert Keep(policy.selects, [c2]) == [c2] && Keep(policy.selects, [c1, c2]) == [c1, c2];
    assert SortNewest([c2]) == [c2] && SortNewest([c1, c2]) == [c1, c2];
    assert Candidates(es, policy) == Done([c1, c2]);
    assert Select(policy, 1.0, [c2], 1) == [c2] && Select(policy, 1.0, [c1, c2], 0) == [c1, c2];
    assert ["cache", "d"][1..] == ["d"] && ["cache", "d", "f"][1..] == ["d", "f"];
    var left := Remove(es, c1.path);
    assert left == Entry("cache", Dir(0.0, Empty), Empty) && SizeAt(es, c1.path) == 5;
    assert Remove(left, c2.path) == left;
    assert TreeAfter(left, true, [c2]) == left && TreeAfter(es, true, [c1, c2]) == left;
    var actions := Actions(left, policy, 1.0, true, [c2]);
    assert TotalBytes(actions) == 5 + TotalBytes(actions[1..]) == 5;
    assert Actions(es, policy, 1.0, true, [c1, c2])[1..] == actions;
  }

  // ---------------------------------------------------------------------------------
  // Policies that select only files, or only directories

  ghost predicate OnlyFiles(policy: Policy) {
    forall c :: policy.selects(c) ==> !c.stats.isDir
  }

  ghost predicate OnlyDirectories(policy: Policy) {
    forall c :: policy.selects(c) ==> c.stats.isDir
  }

  ghost predicate DistinctPaths(cs: seq<Candidate>) {
    forall i, j :: 0 <= i < |cs| && 0 <= j < |cs| && cs[i].path == cs[j].path ==> i == j
  }

  lemma DistinctAppend(a: seq<Candidate>, b: seq<Candidate>)
    requires DistinctPaths(a) && DistinctPaths(b) && forall c, d :: c in a && d in b ==> c.path != d.path
    ensures DistinctPaths(a + b)
  {
    var s := a + b;
    forall i, j | 0 <= i < |s| && 0 <= j < |s| && s[i].path == s[j].path ensures i == j {
      assert i < |a| ==> s[i] in a;
      assert j < |a| ==> s[j] in a;
      assert i >= |a| ==> s[i] in b;
      assert j >= |a| ==> s[j] in b;
    }
  }

  lemma {:induction false} WalkDistinct(es: Entries, at: Path)
    requires Valid(es)
    ensures DistinctPaths(Walk(es, at))
  {
    if es.Entry? {
      var here := at + [es.name];
      var head := [Candidate(here, StatsOf(es.node))];
      var below := if es.node.Dir? then Walk(es.node.entries, here) else [];
      var rest := Walk(es.rest, at);
      WalkDistinct(es.rest, at);
      if es.node.Dir? { WalkDistinct(es.node.entries, here); }
      forall c | c in below ensures here < c.path {
        WalkPaths(es.node.entries, here, c);
      }
      DistinctAppend(head, below);
      forall c, d | c in head + below && d in rest ensures c.path != d.path {
        WalkPaths(es.rest, at, d);
        assert c in head || c in below;
        assert c.path[|at|] == here[|at|] == es.name;
      }
      DistinctAppend(head + below, rest);
    }
  }

  lemma {:induction false} KeepDistinct(f: Candidate -> bool, cs: seq<Candidate>)
    requires DistinctPaths(cs)
    ensures DistinctPaths(Keep(f, cs))
  {
    if cs != [] {
      var rest := Keep(f, cs[1..]);
      KeepDistinct(f, cs[1..]);
      KeepShrinks(f, cs[1..]);
      forall d | d in rest ensures d.path != cs[0].path {
        var i :| 0 <= i < |cs[1..]| && cs[1..][i] == d;
        assert cs[i + 1] == d;
      }
      DistinctAppend(if f(cs[0]) then [cs[0]] else [], rest);
    }
  }

  lemma {:induction false} SortDistinct(cs: seq<Candidate>)
    requires DistinctPaths(cs)
    ensures DistinctPaths(SortNewest(cs))
  {
    if cs != [] {
      var rest := SortNewest(cs[1..]);
      SortDistinct(cs[1..]);
      SortIsSorted(cs[1..]);
      forall d | d in rest ensures d.path != cs[0].path {
        assert d in multiset(rest);
        assert d in cs[1..];
        var i :| 0 <= i < |cs[1..]| && cs[1..][i] == d;
        assert cs[i + 1] == d;
      }
      InsertDistinct(cs[0], rest);
    }
  }

  lemma {:induction false} InsertDistinct(c: Candidate, cs: seq<Candidate>)
    requires DistinctPaths(cs) && forall d :: d in cs ==> d.path != c.path
    ensures DistinctPaths(Insert(c, cs)) && forall d :: d in Insert(c, cs) <==> d == c || d in cs
  {
    if cs == [] || c.stats.mtime >= cs[0].stats.mtime {
      DistinctAppend([c], cs);
    } else {
      assert cs == [cs[0]] + cs[1..];
      InsertDistinct(c, cs[1..]);
      forall d | d in Insert(c, cs[1..]) ensures d.path != cs[0].path {
        if d in cs[1..] {
          var i :| 0 <= i < |cs[1..]| && cs[1..][i] == d;
          assert cs[i + 1] == d;
        } else {
          assert cs[0] in cs;
        }
      }
      DistinctAppend([cs[0]], Insert(c, cs[1..]));
    }
  }

  ghost function DoomedOf(es: Entries, policy: Policy, now: real): seq<Candidate>
    requires Candidates(es, policy).Done?
  {
    Select(policy, now, Candidates(es, policy).value, 0)
  }

  lemma CandidatesDistinct(es: Entries, policy: Policy)
    requires Valid(es) && policy.root != [] && Candidates(es, policy).Done?
    ensures DistinctPaths(Candidates(es, policy).value)
  {
    var all := Listing(es, policy.root).value;
    if Lookup(es, policy.root).Some? {
      LookupValid(es, policy.root);
      WalkDistinct(Lookup(es, policy.root).value.entries, policy.root);
    }
    KeepDistinct(policy.selects, all);
    SortDistinct(Keep(policy.selects, all));
  }

  lemma DoomedFacts(es: Entries, policy: Policy, now: real)
    requires Valid(es) && policy.root != [] && Candidates(es, policy).Done?
    ensures var cs := DoomedOf(es, policy, now);
      AllHold(es, cs) && DistinctPaths(cs) && Removable(cs) && forall i :: 0 <= i < |cs| ==> policy.selects(cs[i])
  {
    var all := Listing(es, policy.root).value;
    var kept := Keep(policy.selects, all);
    var sorted := SortNewest(kept);
    var cs := DoomedOf(es, policy, now);
    SelectedArePlaced(es, policy, now);
    CandidatesDistinct(es, policy);
    CandidatesNewest(es, policy);
    KeptIsPrefix(policy, now, sorted);
    SortIsSorted(kept);
    forall i | 0 <= i < |cs| ensures Holds(es, cs[i]) && policy.selects(cs[i]) {
      assert cs[i] in cs;
      assert cs[i] in multiset(sorted);
      KeepMember(policy.selects, all, cs[i]);
    }
  }

  lemma NotCountedTwice(es: Entries, policy: Policy, now: real)
    requires Valid(es) && policy.root != [] && Candidates(es, policy).Done?
    requires OnlyFiles(policy) || OnlyDirectories(policy)
    ensures !CountedTwice([], DoomedOf(es, policy, now))
  {
    var cs := DoomedOf(es, policy, now);
    DoomedFacts(es, policy, now);
    forall i, j | 0 <= i < j < |cs| && !cs[j].stats.isDir ensures !(cs[i].path <= cs[j].path) {
      assert policy.selects(cs[i]) && policy.selects(cs[j]);
      assert Holds(es, cs[i]) && Holds(es, cs[j]);
      if cs[i].path <= cs[j].path && cs[i].path != cs[j].path {
        var r := cs[j].path[|cs[i].path|..];
        assert cs[j].path == cs[i].path + r;
        LookupThrough(es, cs[i].path, r);
      }
    }
  }

  /** One policy of either kind reports exactly the bytes it frees. */
  lemma ScanConserves(es: Entries, policy: Policy, now: real)
    requires Valid(es) && policy.root != [] && Scan(es, policy, now, true).Done?
    requires OnlyFiles(policy) || OnlyDirectories(policy)
    ensures var (es', actions) := Scan(es, policy, now, true).value;
      Valid(es') && TotalBytes(actions) == Size(es) - Size(es')
  {
    ApplySettles(es, policy, now);
    DoomedFacts(es, policy, now);
    NotCountedTwice(es, policy, now);
    ReportedIsFreedIff(es, policy, now, DoomedOf(es, policy, now));
  }

  lemma {:induction false} TotalAppend(a: seq<Action>, b: seq<Action>)
    ensures TotalBytes(a + b) == TotalBytes(a) + TotalBytes(b)
  {
    if a == [] {
      assert a + b == b;
    } else {
      assert (a + b)[1..] == a[1..] + b;
      TotalAppend(a[1..], b);
    }
  }

  ghost predicate OfOneKind(policies: seq<Policy>) {
    forall i :: 0 <= i < |policies| ==> OnlyFiles(policies[i]) || OnlyDirectories(policies[i])
  }

  /** `removedBytes` of a whole run is the size of the tree before minus after. */
  lemma {:induction false} RunConserves(es: Entries, policies: seq<Policy>, now: real)
    requires Valid(es) && Rooted(policies) && OfOneKind(policies) && ScanAll(es, policies, now, true).Done?
    ensures var (es', actions) := ScanAll(es, policies, now, true).value;
      Valid(es') && TotalBytes(actions) == Size(es) - Size(es')
    decreases |policies|
  {
    if policies != [] {
      assert policies[0].root != [] && (OnlyFiles(policies[0]) || OnlyDirectories(policies[0]));
      ScanConserves(es, policies[0], now);
      var (next, actions) := Scan(es, policies[0], now, true).value;
      forall i | 0 <= i < |policies[1..]|
        ensures policies[1..][i].root != [] && (OnlyFiles(policies[1..][i]) || OnlyDirectories(policies[1..][i]))
      {
        assert policies[1..][i] == policies[i + 1];
      }
      RunConserves(next, policies[1..], now);
      TotalAppend(actions, ScanAll(next, policies[1..], now, true).value.1);
    }
  }
}
