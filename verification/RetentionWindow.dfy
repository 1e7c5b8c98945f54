/** Which candidates a policy keeps, and why a second run has nothing left to do. */
module RetentionWindow {
  import opened FileTree
  import opened Retention
  import opened RetentionListing

  /** How many of the candidates, newest first, are within the age window. */
  function FreshCount(policy: Policy, now: real, cs: seq<Candidate>): (n: nat)
    ensures n <= |cs|
  {
    if cs == [] || StaleByAge(policy, now, cs[0]) then 0 else 1 + FreshCount(policy, now, cs[1..])
  }

  /** min(maxEntries, number within the age window). */
  function KeptCount(policy: Policy, now: real, cs: seq<Candidate>): (n: nat)
    ensures n <= |cs|
  {
    var young := FreshCount(policy, now, cs);
    if policy.maxEntries.Some? && policy.maxEntries.value < young then policy.maxEntries.value else young
  }

  lemma {:induction false} FreshCountDecides(policy: Policy, now: real, cs: seq<Candidate>, i: nat)
    requires Newest(cs) && i < |cs|
    ensures StaleByAge(policy, now, cs[i]) <==> FreshCount(policy, now, cs) <= i
  {
    if StaleByAge(policy, now, cs[0]) {
      assert cs[0].stats.mtime >= cs[i].stats.mtime;
    } else if i > 0 {
      FreshCountDecides(policy, now, cs[1..], i - 1);
    }
  }

  /** From position k on, and only there, the candidates are to be removed. */
  ghost predicate SplitAt(policy: Policy, now: real, cs: seq<Candidate>, index: nat, k: nat) {
    forall i :: 0 <= i < |cs| ==> (Stale(policy, now, cs[i], index + i) <==> k <= i)
  }

  lemma {:induction false} SelectSuffix(policy: Policy, now: real, cs: seq<Candidate>, index: nat, k: nat)
    requires k <= |cs| && SplitAt(policy, now, cs, index, k)
    ensures Select(policy, now, cs, index) == cs[k..]
  {
    hide Stale;
    if cs != [] {
      var tail, k' := cs[1..], if k == 0 then 0 else k - 1;
      assert Stale(policy, now, cs[0], index + 0) <==> k <= 0;
      forall i | 0 <= i < |tail| ensures Stale(policy, now, tail[i], index + 1 + i) <==> k' <= i {
        assert tail[i] == cs[i + 1];
        assert Stale(policy, now, cs[i + 1], index + (i + 1)) <==> k <= i + 1;
      }
      SelectSuffix(policy, now, tail, index + 1, k');
      if k == 0 {
        assert cs == [cs[0]] + tail;
      } else {
        assert cs[k..] == tail[k'..];
      }
    }
  }

  /**
   What a policy removes is the tail after the first min(maxEntries, number within the window) candidates: those
   modified more than maxAgeDays days of 86,400,000 milliseconds ago or at a position of maxEntries or more.
   */
  lemma KeptIsPrefix(policy: Policy, now: real, cs: seq<Candidate>)
    requires Newest(cs)
    ensures Select(policy, now, cs, 0) == cs[KeptCount(policy, now, cs)..]
    ensures forall i :: 0 <= i < |cs| ==>
      (KeptCount(policy, now, cs) <= i <==>
       now - cs[i].stats.mtime > policy.maxAgeDays as real * 86400000.0 ||
       (policy.maxEntries.Some? && i >= policy.maxEntries.value))
  {
    var k := KeptCount(policy, now, cs);
    forall i | 0 <= i < |cs| ensures Stale(policy, now, cs[i], 0 + i) <==> k <= i {
      FreshCountDecides(policy, now, cs, i);
    }
    SelectSuffix(policy, now, cs, 0, k);
  }

  // ---------------------------------------------------------------------------------
  // A policy that has nothing to remove keeps having nothing to remove

  /** The policy would remove nothing from this tree. */
  ghost predicate Settled(es: Entries, policy: Policy, now: real) {
    Candidates(es, policy).Done? && Select(policy, now, Candidates(es, policy).value, 0) == []
  }

  ghost predicate AllKept(policy: Policy, now: real, cs: seq<Candidate>) {
    (forall c :: c in cs ==> !StaleByAge(policy, now, c)) &&
    (policy.maxEntries.Some? ==> |cs| <= policy.maxEntries.value)
  }

  lemma {:induction false} SelectsNothing(policy: Policy, now: real, cs: seq<Candidate>, index: nat)
    requires forall c :: c in cs ==> !StaleByAge(policy, now, c)
    requires policy.maxEntries.Some? ==> index + |cs| <= policy.maxEntries.value
    ensures Select(policy, now, cs, index) == []
  {
    if cs != [] {
      SelectsNothing(policy, now, cs[1..], index + 1);
      assert cs[0] in cs;
    }
  }

  lemma {:induction false} KeepShrinks(f: Candidate -> bool, cs: seq<Candidate>)
    ensures |Keep(f, cs)| <= |cs| && forall c :: c in Keep(f, cs) ==> c in cs
  {
    if cs != [] {
      KeepShrinks(f, cs[1..]);
      assert cs == [cs[0]] + cs[1..];
    }
  }

  lemma KeptAreFresh(policy: Policy, now: real, cs: seq<Candidate>)
    requires Newest(cs)
    ensures AllKept(policy, now, cs[..KeptCount(policy, now, cs)])
  {
    var k := KeptCount(policy, now, cs);
    forall c | c in cs[..k] ensures !StaleByAge(policy, now, c) {
      var i :| 0 <= i < k && cs[..k][i] == c;
      FreshCountDecides(policy, now, cs, i);
    }
  }

  /** Filtered candidates of a tail that is filtered out are candidates that were kept. */
  lemma KeepOfKept(policy: Policy, now: real, cs: seq<Candidate>, f: Candidate -> bool)
    requires Newest(cs) && forall c :: c in Select(policy, now, cs, 0) ==> !f(c)
    ensures AllKept(policy, now, Keep(f, cs))
  {
    hide Newest, StaleByAge, KeptCount, Select;
    var k := KeptCount(policy, now, cs);
    var kept, doomed := cs[..k], cs[k..];
    KeptIsPrefix(policy, now, cs);
    KeptAreFresh(policy, now, cs);
    assert cs == kept + doomed;
    KeepAppend(f, kept, doomed);
    KeepNone(f, doomed);
    KeepShrinks(f, kept);
    assert Keep(f, kept) + [] == Keep(f, kept);
  }

  lemma CandidatesNewest(es: Entries, policy: Policy)
    requires Candidates(es, policy).Done?
    ensures Newest(Candidates(es, policy).value)
  {
    SortIsSorted(Keep(policy.selects, Listing(es, policy.root).value));
  }

  lemma SettledAfterRemove(es: Entries, policy: Policy, now: real, q: Path)
    requires Valid(es) && policy.root != [] && q != [] && Settled(es, policy, now)
    ensures Settled(Remove(es, q), policy, now)
  {
    var cs := Candidates(es, policy).value;
    CandidatesNewest(es, policy);
    CandidatesAfterRemove(es, policy, q);
    KeepOfKept(policy, now, cs, (c: Candidate) => true);
    KeepAll((c: Candidate) => true, cs);
    KeepShrinks(Outside(q), cs);
    SelectsNothing(policy, now, Keep(Outside(q), cs), 0);
  }

  ghost predicate Removable(cs: seq<Candidate>) {
    forall c :: c in cs ==> c.path != []
  }

  lemma {:induction false} SettledAfterAll(es: Entries, policy: Policy, now: real, cs: seq<Candidate>)
    requires Valid(es) && policy.root != [] && Removable(cs) && Settled(es, policy, now)
    ensures Valid(TreeAfter(es, true, cs)) && Settled(TreeAfter(es, true, cs), policy, now)
    decreases |cs|
  {
    if cs != [] {
      assert cs[0] in cs;
      RemoveValid(es, cs[0].path);
      SettledAfterRemove(es, policy, now, cs[0].path);
      SettledAfterAll(Remove(es, cs[0].path), policy, now, cs[1..]);
    }
  }

  /** The candidates that are outside everything removed. */
  function OutsideAll(cs: seq<Candidate>): Candidate -> bool {
    (c: Candidate) => forall i :: 0 <= i < |cs| ==> !(cs[i].path <= c.path)
  }

  lemma {:induction false} KeepOutsideAll(cs: seq<Candidate>, all: seq<Candidate>)
    requires cs != []
    ensures Keep(OutsideAll(cs), all) == Keep(OutsideAll(cs[1..]), Keep(Outside(cs[0].path), all))
  {
    if all != [] {
      KeepOutsideAll(cs, all[1..]);
      var rest := Keep(Outside(cs[0].path), all[1..]);
      KeepCons(OutsideAll(cs[1..]), all[0], rest);
      assert OutsideAll(cs)(all[0]) <==> Outside(cs[0].path)(all[0]) && OutsideAll(cs[1..])(all[0]) by {
        assert cs == [cs[0]] + cs[1..];
      }
    }
  }

  lemma {:induction false} CandidatesAfterAll(es: Entries, policy: Policy, cs: seq<Candidate>)
    requires Valid(es) && policy.root != [] && Removable(cs) && Candidates(es, policy).Done?
    ensures Valid(TreeAfter(es, true, cs))
    ensures Candidates(TreeAfter(es, true, cs), policy) == Done(Keep(OutsideAll(cs), Candidates(es, policy).value))
    decreases |cs|
  {
    var all := Candidates(es, policy).value;
    if cs == [] {
      KeepAll(OutsideAll(cs), all);
    } else {
      assert cs[0] in cs;
      var es' := Remove(es, cs[0].path);
      RemoveValid(es, cs[0].path);
      CandidatesAfterRemove(es, policy, cs[0].path);
      CandidatesAfterAll(es', policy, cs[1..]);
      KeepOutsideAll(cs, all);
    }
  }

  lemma SelectedArePlaced(es: Entries, policy: Policy, now: real)
    requires Valid(es) && policy.root != [] && Candidates(es, policy).Done?
    ensures var doomed := Select(policy, now, Candidates(es, policy).value, 0);
      Removable(doomed) && forall c :: c in doomed ==> c in Candidates(es, policy).value && Holds(es, c)
  {
    var all := Listing(es, policy.root).value;
    var kept := Keep(policy.selects, all);
    var cs := SortNewest(kept);
    CandidatesNewest(es, policy);
    SortIsSorted(kept);
    KeptIsPrefix(policy, now, cs);
    forall c | c in Select(policy, now, cs, 0) ensures c in cs && Holds(es, c) {
      assert c in cs;
      assert c in multiset(cs);
      assert c in kept;
      KeepMember(policy.selects, all, c);
      ListingHolds(es, policy.root, c);
    }
  }

  /** Applying a policy leaves a tree from which it removes nothing more. */
  lemma ApplySettles(es: Entries, policy: Policy, now: real)
    requires Valid(es) && policy.root != [] && Scan(es, policy, now, true).Done?
    ensures var es' := Scan(es, policy, now, true).value.0;
      Valid(es') && Settled(es', policy, now) && Scan(es', policy, now, true) == Done((es', []))
  {
    var cs := Candidates(es, policy).value;
    var doomed := Select(policy, now, cs, 0);
    SelectedArePlaced(es, policy, now);
    CandidatesAfterAll(es, policy, doomed);
    CandidatesNewest(es, policy);
    KeepOfKept(policy, now, cs, OutsideAll(doomed));
    SelectsNothing(policy, now, Keep(OutsideAll(doomed), cs), 0);
  }

  // ---------------------------------------------------------------------------------
  // The whole run

  ghost predicate Rooted(policies: seq<Policy>) {
    forall i :: 0 <= i < |policies| ==> policies[i].root != []
  }

  ghost predicate AllSettled(es: Entries, policies: seq<Policy>, now: real) {
    forall i :: 0 <= i < |policies| ==> Settled(es, policies[i], now)
  }

  lemma ScanKeepsSettled(es: Entries, policy: Policy, other: Policy, now: real)
    requires Valid(es) && policy.root != [] && other.root != [] && Scan(es, policy, now, true).Done?
    requires Settled(es, other, now)
    ensures Settled(Scan(es, policy, now, true).value.0, other, now)
  {
    SelectedArePlaced(es, policy, now);
    SettledAfterAll(es, other, now, Select(policy, now, Candidates(es, policy).value, 0));
  }

  lemma {:induction false} RunKeepsSettled(es: Entries, policies: seq<Policy>, other: Policy, now: real)
    requires Valid(es) && Rooted(policies) && other.root != [] && ScanAll(es, policies, now, true).Done?
    requires Settled(es, other, now)
    ensures Settled(ScanAll(es, policies, now, true).value.0, other, now)
    decreases |policies|
  {
    if policies != [] {
      assert policies[0].root != [];
      ApplySettles(es, policies[0], now);
      ScanKeepsSettled(es, policies[0], other, now);
      RunKeepsSettled(Scan(es, policies[0], now, true).value.0, policies[1..], other, now);
    }
  }

  lemma {:induction false} RunSettles(es: Entries, policies: seq<Policy>, now: real)
    requires Valid(es) && Rooted(policies) && ScanAll(es, policies, now, true).Done?
    ensures var es' := ScanAll(es, policies, now, true).value.0;
      Valid(es') && AllSettled(es', policies, now)
    decreases |policies|
  {
    if policies != [] {
      assert policies[0].root != [];
      ApplySettles(es, policies[0], now);
      var next := Scan(es, policies[0], now, true).value.0;
      RunSettles(next, policies[1..], now);
      RunKeepsSettled(next, policies[1..], policies[0], now);
    }
  }

  lemma {:induction false} SettledRunDoesNothing(es: Entries, policies: seq<Policy>, now: real)
    requires AllSettled(es, policies, now)
    ensures ScanAll(es, policies, now, true) == Done((es, []))
    decreases |policies|
  {
    if policies != [] {
      assert Settled(es, policies[0], now);
      SettledRunDoesNothing(es, policies[1..], now);
      PrependTwice([], [], Done((es, [])));
    }
  }

  /** Running all policies again at the same time removes nothing and reports nothing. */
  lemma SecondRunDoesNothing(es: Entries, policies: seq<Policy>, now: real)
    requires Valid(es) && Rooted(policies) && ScanAll(es, policies, now, true).Done?
    ensures var es' := ScanAll(es, policies, now, true).value.0;
      ScanAll(es', policies, now, true) == Done((es', []))
  {
    RunSettles(es, policies, now);
    SettledRunDoesNothing(ScanAll(es, policies, now, true).value.0, policies, now);
  }
}
