/** Which entries of the tree a run can touch, and which it leaves alone. */
module RetentionScope {
  import opened Wrappers
  import opened FileTree
  import opened Retention
  import opened RetentionListing
  import opened RetentionWindow
  import opened RetentionBytes
  import opened RetentionDryRun

  // ---------------------------------------------------------------------------------
  // Candidates

  /** Every entry of the tree is listed. */
  lemma {:induction false} WalkFinds(es: Entries, at: Path, p: Path)
    requires Lookup(es, p).Some?
    ensures Candidate(at + p, StatsOf(Lookup(es, p).value)) in Walk(es, at)
  {
    var here := at + [es.name];
    if es.name != p[0] {
      WalkFinds(es.rest, at, p);
    } else if |p| == 1 {
      assert p == [es.name];
    } else {
      WalkFinds(es.node.entries, here, p[1..]);
      assert here + p[1..] == at + p;
    }
  }

  /** What is listed below a root is what the tree holds there. */
  lemma ListedIff(es: Entries, root: Path, c: Candidate)
    requires Valid(es) && root != [] && Listing(es, root).Done?
    ensures c in Listing(es, root).value <==> root < c.path && Holds(es, c)
  {
    hide Walk;
    if c in Listing(es, root).value {
      ListingHolds(es, root, c);
    }
    if root < c.path && Holds(es, c) {
      var r := c.path[|root|..];
      assert c.path == root + r;
      LookupThrough(es, root, r);
      WalkFinds(Lookup(es, root).value.entries, root, r);
    }
  }

  /** The candidates are the entries below the root that the policy selects. */
  lemma CandidatesIff(es: Entries, policy: Policy, c: Candidate)
    requires Valid(es) && policy.root != [] && Candidates(es, policy).Done?
    ensures c in Candidates(es, policy).value <==> policy.root < c.path && Holds(es, c) && policy.selects(c)
  {
    hide Listing, Keep, SortNewest, Holds;
    var all := Listing(es, policy.root).value;
    var kept := Keep(policy.selects, all);
    SortIsSorted(kept);
    assert c in SortNewest(kept) <==> c in multiset(SortNewest(kept));
    assert c in kept <==> c in multiset(kept);
    KeepMember(policy.selects, all, c);
    ListedIff(es, policy.root, c);
  }

  // ---------------------------------------------------------------------------------
  // What is gone after a run

  /** An entry stays exactly when nothing at or above it is removed. */
  lemma ThereAfterRemove(es: Entries, q: Path, p: Path)
    requires Valid(es) && q != [] && p != []
    ensures Lookup(Remove(es, q), p).Some? <==> Lookup(es, p).Some? && !(q <= p)
  {
    if q <= p {
      LookupBelowRemoved(es, q, p);
    } else if p <= q {
      LookupAboveRemoved(es, q, p);
    } else {
      LookupElsewhere(es, q, p);
    }
  }

  ghost predicate AtOrBelow(p: Path, actions: seq<Action>) {
    exists i :: 0 <= i < |actions| && actions[i].path <= p
  }

  lemma AtOrBelowAppend(p: Path, a: seq<Action>, b: seq<Action>)
    ensures AtOrBelow(p, a + b) <==> AtOrBelow(p, a) || AtOrBelow(p, b)
  {
    forall i | 0 <= i < |b| ensures (a + b)[|a| + i] == b[i] {
    }
    if i :| 0 <= i < |b| && b[i].path <= p {
      assert (a + b)[|a| + i].path <= p;
    }
    if i :| 0 <= i < |a| && a[i].path <= p {
      assert (a + b)[i].path <= p;
    }
  }

  lemma {:induction false} ThereAfterTree(es: Entries, policy: Policy, now: real, cs: seq<Candidate>, p: Path)
    requires Valid(es) && p != [] && forall i :: 0 <= i < |cs| ==> cs[i].path != []
    ensures Valid(TreeAfter(es, true, cs))
    ensures Lookup(TreeAfter(es, true, cs), p).Some? <==>
      Lookup(es, p).Some? && !AtOrBelow(p, Actions(es, policy, now, true, cs))
    decreases |cs|
  {
    hide BytesOf, AgeDays;
    if cs != [] {
      var q := cs[0].path;
      var first := Action(policy.id, q, BytesOf(es, cs[0]), AgeDays(now, cs[0]), true);
      RemoveValid(es, q);
      ThereAfterRemove(es, q, p);
      ThereAfterTree(Remove(es, q), policy, now, cs[1..], p);
      AtOrBelowAppend(p, [first], Actions(Remove(es, q), policy, now, true, cs[1..]));
      assert [first][0].path == q;
    }
  }

  lemma DoomedPaths(es: Entries, policy: Policy, now: real)
    requires Valid(es) && policy.root != [] && Candidates(es, policy).Done?
    ensures forall i :: 0 <= i < |DoomedOf(es, policy, now)| ==> DoomedOf(es, policy, now)[i].path != []
  {
    DoomedFacts(es, policy, now);
  }

  /** After a run an entry is gone exactly when something at or above it is reported as removed. */
  lemma {:induction false} GoneIff(es: Entries, policies: seq<Policy>, now: real, p: Path)
    requires Valid(es) && Rooted(policies) && p != [] && ScanAll(es, policies, now, true).Done?
    ensures var (es', actions) := ScanAll(es, policies, now, true).value;
      Lookup(es', p).Some? <==> Lookup(es, p).Some? && !AtOrBelow(p, actions)
    decreases |policies|
  {
    hide Candidates, Select, Actions, TreeAfter;
    if policies != [] {
      var doomed := DoomedOf(es, policies[0], now);
      var next := TreeAfter(es, true, doomed);
      var actions := Actions(es, policies[0], now, true, doomed);
      DoomedPaths(es, policies[0], now);
      ThereAfterTree(es, policies[0], now, doomed, p);
      GoneIff(next, policies[1..], now, p);
      AtOrBelowAppend(p, actions, ScanAll(next, policies[1..], now, true).value.1);
    }
  }

  // ---------------------------------------------------------------------------------
  // Where the reported entries come from

  /**
   The entry lies below the root of the policy, which selects it; it is older than the window or the policy counts
   its entries.
   */
  ghost predicate Explains(a: Action, policy: Policy, c: Candidate, age: real) {
    a.policyId == policy.id && a.path == c.path && policy.root < c.path && policy.selects(c) &&
    IsAgeInDays(a.ageDays, age) && (age > policy.maxAgeDays as real * 86400000.0 || policy.maxEntries.Some?)
  }

  ghost predicate ComesFrom(a: Action, policy: Policy) {
    exists c, age :: Explains(a, policy, c, age)
  }

  ghost predicate AllFrom(actions: seq<Action>, policy: Policy) {
    forall i :: 0 <= i < |actions| ==> ComesFrom(actions[i], policy)
  }

  ghost predicate FromOneOf(a: Action, policies: seq<Policy>) {
    exists k :: 0 <= k < |policies| && ComesFrom(a, policies[k])
  }

  ghost predicate AllFromOneOf(actions: seq<Action>, policies: seq<Policy>) {
    forall i :: 0 <= i < |actions| ==> FromOneOf(actions[i], policies)
  }

  lemma DoomedComeFrom(es: Entries, policy: Policy, now: real, apply: bool)
    requires Valid(es) && policy.root != [] && Candidates(es, policy).Done?
    ensures AllFrom(Actions(es, policy, now, apply, DoomedOf(es, policy, now)), policy)
  {
    hide Actions, IsAgeInDays, Candidates, Select, KeptCount, Holds, Newest;
    var cs, doomed := Candidates(es, policy).value, DoomedOf(es, policy, now);
    var actions := Actions(es, policy, now, apply, doomed);
    CandidatesNewest(es, policy);
    KeptIsPrefix(policy, now, cs);
    ReportedPaths(es, policy, now, apply, doomed);
    forall i | 0 <= i < |actions| ensures ComesFrom(actions[i], policy) {
      var k := KeptCount(policy, now, cs) + i;
      assert doomed[i] == cs[k];
      CandidatesIff(es, policy, cs[k]);
      assert Explains(actions[i], policy, cs[k], now - cs[k].stats.mtime);
    }
  }

  lemma OneOfMore(a: seq<Action>, b: seq<Action>, policies: seq<Policy>)
    requires policies != [] && AllFrom(a, policies[0]) && AllFromOneOf(b, policies[1..])
    ensures AllFromOneOf(a + b, policies)
  {
    hide ComesFrom;
    forall i | 0 <= i < |a + b| ensures FromOneOf((a + b)[i], policies) {
      if i < |a| {
        assert ComesFrom((a + b)[i], policies[0]);
      } else {
        assert FromOneOf(b[i - |a|], policies[1..]);
        var k :| 0 <= k < |policies[1..]| && ComesFrom(b[i - |a|], policies[1..][k]);
        assert ComesFrom((a + b)[i], policies[k + 1]);
      }
    }
  }

  /** In both modes a run reports only entries that one of its policies selects. */
  lemma {:induction false} RunComesFrom(es: Entries, policies: seq<Policy>, now: real, apply: bool)
    requires Valid(es) && Rooted(policies) && ScanAll(es, policies, now, apply).Done?
    ensures AllFromOneOf(ScanAll(es, policies, now, apply).value.1, policies)
    decreases |policies|
  {
    hide Candidates, Select, Actions, TreeAfter, AllFrom, FromOneOf;
    if policies != [] {
      var doomed := DoomedOf(es, policies[0], now);
      var next := TreeAfter(es, apply, doomed);
      DoomedComeFrom(es, policies[0], now, apply);
      StillValid(es, policies[0], now, apply);
      RunComesFrom(next, policies[1..], now, apply);
      OneOfMore(Actions(es, policies[0], now, apply, doomed),
        ScanAll(next, policies[1..], now, apply).value.1, policies);
    }
  }

  lemma StillValid(es: Entries, policy: Policy, now: real, apply: bool)
    requires Valid(es) && policy.root != [] && Candidates(es, policy).Done?
    ensures Valid(TreeAfter(es, apply, DoomedOf(es, policy, now)))
  {
    hide Candidates, Select;
    var doomed := DoomedOf(es, policy, now);
    if apply {
      DoomedPaths(es, policy, now);
      ThereAfterTree(es, policy, now, doomed, ["any"]);
    } else {
      NothingChanges(es, doomed);
    }
  }

  lemma {:induction false} NothingChanges(es: Entries, cs: seq<Candidate>)
    ensures TreeAfter(es, false, cs) == es
    decreases |cs|
  {
    if cs != [] { NothingChanges(es, cs[1..]); }
  }

  lemma {:induction false} DryRunLeavesTree(es: Entries, policies: seq<Policy>, now: real)
    requires ScanAll(es, policies, now, false).Done?
    ensures ScanAll(es, policies, now, false).value.0 == es
    decreases |policies|
  {
    hide Candidates, Select, Actions, TreeAfter;
    if policies != [] {
      NothingChanges(es, DoomedOf(es, policies[0], now));
      DryRunLeavesTree(es, policies[1..], now);
    }
  }

  // ---------------------------------------------------------------------------------
  // What a run leaves

  /** Where a policy has nothing to remove, all that it selects is within its window and its count. */
  lemma SettledMeans(es: Entries, policy: Policy, now: real)
    requires Valid(es) && policy.root != [] && Settled(es, policy, now)
    ensures forall c: Candidate :: policy.root < c.path && Holds(es, c) && policy.selects(c) ==>
      now - c.stats.mtime <= policy.maxAgeDays as real * 86400000.0
    ensures policy.maxEntries.Some? ==> |Candidates(es, policy).value| <= policy.maxEntries.value
  {
    hide Candidates, Select, Holds;
    var cs := Candidates(es, policy).value;
    CandidatesNewest(es, policy);
    KeptIsPrefix(policy, now, cs);
    assert KeptCount(policy, now, cs) == |cs|;
    forall c: Candidate | policy.root < c.path && Holds(es, c) && policy.selects(c)
      ensures now - c.stats.mtime <= policy.maxAgeDays as real * 86400000.0
    {
      CandidatesIff(es, policy, c);
      var i :| 0 <= i < |cs| && cs[i] == c;
    }
  }
}
