/** The dry run against the run that removes: same paths, and a byte total that bounds the real one. */
module RetentionDryRun {
  import opened FileTree
  import opened Retention
  import opened RetentionWindow
  import opened RetentionBytes

  /** The number of whole days of 86,400,000 milliseconds. */
  ghost predicate IsAgeInDays(days: int, age: real) {
    days as real * 86400000.0 <= age < (days + 1) as real * 86400000.0
  }

  lemma AgeInDays(now: real, c: Candidate)
    ensures IsAgeInDays(AgeDays(now, c), now - c.stats.mtime)
  {
    var age := (now - c.stats.mtime) / 86400000.0;
    assert age.Floor as real <= age < (age.Floor + 1) as real;
  }

  /** Both modes report the selected candidates in the same order, with their ages. */
  lemma {:induction false} ReportedPaths(es: Entries, policy: Policy, now: real, apply: bool, cs: seq<Candidate>)
    ensures var actions := Actions(es, policy, now, apply, cs);
      |actions| == |cs| && forall i :: 0 <= i < |cs| ==>
        actions[i].policyId == policy.id && actions[i].path == cs[i].path && actions[i].removed == apply &&
        IsAgeInDays(actions[i].ageDays, now - cs[i].stats.mtime)
    decreases |cs|
  {
    hide IsAgeInDays, AgeDays;
    if cs != [] {
      AgeInDays(now, cs[0]);
      ReportedPaths(After(es, apply, cs[0]), policy, now, apply, cs[1..]);
    }
  }

  lemma SamePathsInBothModes(es: Entries, policy: Policy, now: real)
    requires Candidates(es, policy).Done?
    ensures var dry, applied := Scan(es, policy, now, false).value.1, Scan(es, policy, now, true).value.1;
      |dry| == |applied| && forall i :: 0 <= i < |dry| ==> dry[i].path == applied[i].path
  {
    ReportedPaths(es, policy, now, false, DoomedOf(es, policy, now));
    ReportedPaths(es, policy, now, true, DoomedOf(es, policy, now));
  }

  /** Removing q takes bytes away from p. */
  ghost predicate Shares(es: Entries, q: Path, p: Path) {
    (q <= p && SizeAt(es, p) > 0) || (p <= q && SizeAt(es, q) > 0)
  }

  /** The tree after removing some paths from the first one, in terms of sizes. */
  ghost predicate Shrunk(es0: Entries, es: Entries, removed: seq<Path>) {
    Valid(es) &&
    (forall p: Path, q: Path :: p != [] && q != [] && p <= q ==>
      SizeAt(es, p) - SizeAt(es, q) <= SizeAt(es0, p) - SizeAt(es0, q)) &&
    (forall p: Path :: p != [] ==> SizeAt(es, p) <= SizeAt(es0, p)) &&
    (forall p: Path, k :: 0 <= k < |removed| && removed[k] <= p ==> SizeAt(es, p) == 0) &&
    forall p: Path :: p != [] && SizeAt(es, p) < SizeAt(es0, p) ==>
      exists k :: 0 <= k < |removed| && Shares(es0, removed[k], p)
  }

  lemma ShrunkOutside(es0: Entries, es: Entries, removed: seq<Path>, r: Path, p: Path, q: Path)
    requires Shrunk(es0, es, removed) && r != [] && p != [] && q != [] && p <= q
    ensures SizeAt(Remove(es, r), p) - SizeAt(Remove(es, r), q) <= SizeAt(es0, p) - SizeAt(es0, q)
  {
    SizeAfterRemove(es, r, p);
    SizeAfterRemove(es, r, q);
    SizeAfterRemove(es, q, p);
    if r <= q {
      SizeAfterRemove(es, q, r);
      PrefixesCompare(p, r, q);
    }
  }

  lemma PrefixesCompare(p: Path, r: Path, q: Path)
    requires p <= q && r <= q
    ensures p <= r || r <= p
  {
    assert p == q[..|p|] && r == q[..|r|];
  }

  lemma RemovedStaysGone(es0: Entries, es: Entries, removed: seq<Path>, r: Path, p: Path, k: nat)
    requires Shrunk(es0, es, removed) && r != []
    requires k < |removed + [r]| && (removed + [r])[k] <= p
    ensures SizeAt(Remove(es, r), p) == 0
  {
    if p == [] {
    } else {
      SizeAfterRemove(es, r, p);
      if k < |removed| {
        assert removed[k] <= p;
      }
    }
  }

  lemma LostBytesAreShared(es0: Entries, es: Entries, removed: seq<Path>, r: Path, p: Path)
    requires Shrunk(es0, es, removed) && r != [] && p != []
    requires SizeAt(Remove(es, r), p) < SizeAt(es0, p)
    ensures exists k :: 0 <= k < |removed + [r]| && Shares(es0, (removed + [r])[k], p)
  {
    var more := removed + [r];
    SizeAfterRemove(es, r, p);
    if SizeAt(es, p) < SizeAt(es0, p) {
      var k :| 0 <= k < |removed| && Shares(es0, removed[k], p);
      assert more[k] == removed[k];
    } else {
      assert SizeAt(es, r) <= SizeAt(es0, r);
      assert Shares(es0, r, p);
      assert more[|removed|] == r;
    }
  }

  lemma ShrunkStep(es0: Entries, es: Entries, removed: seq<Path>, r: Path)
    requires Shrunk(es0, es, removed) && r != []
    ensures Shrunk(es0, Remove(es, r), removed + [r])
  {
    hide Shrunk;
    var es' := Remove(es, r);
    assert Valid(es) by { assert Shrunk(es0, es, removed); ShrunkValid(es0, es, removed); }
    RemoveValid(es, r);
    forall p: Path, q: Path | p != [] && q != [] && p <= q
      ensures SizeAt(es', p) - SizeAt(es', q) <= SizeAt(es0, p) - SizeAt(es0, q)
    {
      ShrunkOutside(es0, es, removed, r, p, q);
    }
    forall p: Path | p != [] ensures SizeAt(es', p) <= SizeAt(es0, p) {
      SizeAfterRemove(es, r, p);
      ShrunkBound(es0, es, removed, p);
    }
    forall p: Path, k | 0 <= k < |removed + [r]| && (removed + [r])[k] <= p ensures SizeAt(es', p) == 0 {
      RemovedStaysGone(es0, es, removed, r, p, k);
    }
    forall p: Path | p != [] && SizeAt(es', p) < SizeAt(es0, p)
      ensures exists k :: 0 <= k < |removed + [r]| && Shares(es0, (removed + [r])[k], p)
    {
      LostBytesAreShared(es0, es, removed, r, p);
    }
    ShrunkIntro(es0, es', removed + [r]);
  }

  lemma ShrunkValid(es0: Entries, es: Entries, removed: seq<Path>)
    requires Shrunk(es0, es, removed)
    ensures Valid(es)
  {
  }

  lemma ShrunkBound(es0: Entries, es: Entries, removed: seq<Path>, p: Path)
    requires Shrunk(es0, es, removed) && p != []
    ensures SizeAt(es, p) <= SizeAt(es0, p)
  {
  }

  lemma ShrunkIntro(es0: Entries, es: Entries, removed: seq<Path>)
    requires Valid(es)
    requires forall p: Path, q: Path :: p != [] && q != [] && p <= q ==>
      SizeAt(es, p) - SizeAt(es, q) <= SizeAt(es0, p) - SizeAt(es0, q)
    requires forall p: Path :: p != [] ==> SizeAt(es, p) <= SizeAt(es0, p)
    requires forall p: Path, k :: 0 <= k < |removed| && removed[k] <= p ==> SizeAt(es, p) == 0
    requires forall p: Path :: p != [] && SizeAt(es, p) < SizeAt(es0, p) ==>
      exists k :: 0 <= k < |removed| && Shares(es0, removed[k], p)
    ensures Shrunk(es0, es, removed)
  {
  }

  ghost predicate SharesAny(es0: Entries, removed: seq<Path>, p: Path) {
    exists k :: 0 <= k < |removed| && Shares(es0, removed[k], p)
  }

  /** A path has lost bytes exactly when something removed shared bytes with it. */
  lemma LostIffShared(es0: Entries, es: Entries, removed: seq<Path>, p: Path)
    requires Shrunk(es0, es, removed) && p != [] && forall k :: 0 <= k < |removed| ==> removed[k] != []
    ensures SizeAt(es, p) <= SizeAt(es0, p)
    ensures SizeAt(es, p) < SizeAt(es0, p) <==> SharesAny(es0, removed, p)
  {
    if SharesAny(es0, removed, p) {
      var k :| 0 <= k < |removed| && Shares(es0, removed[k], p);
      if !(removed[k] <= p) {
        assert SizeAt(es, removed[k]) == 0;
        assert SizeAt(es, p) - SizeAt(es, removed[k]) <= SizeAt(es0, p) - SizeAt(es0, removed[k]);
      }
    }
  }

  /** A selected directory shares bytes with something removed before it. */
  ghost predicate Overlaps(es0: Entries, removed: seq<Path>, cs: seq<Candidate>)
    decreases |cs|
  {
    cs != [] &&
    ((cs[0].stats.isDir && SharesAny(es0, removed, cs[0].path)) || Overlaps(es0, removed + [cs[0].path], cs[1..]))
  }

  lemma {:induction false} DryMinusApplied(
    es0: Entries, es: Entries, removed: seq<Path>, policy: Policy, now: real, cs: seq<Candidate>)
    requires Shrunk(es0, es, removed) && Removable(cs) && forall k :: 0 <= k < |removed| ==> removed[k] != []
    ensures var dry := TotalBytes(Actions(es0, policy, now, false, cs));
      var applied := TotalBytes(Actions(es, policy, now, true, cs));
      dry >= applied && (dry == applied <==> !Overlaps(es0, removed, cs))
    decreases |cs|
  {
    hide Shrunk, SharesAny;
    if cs != [] {
      var c := cs[0];
      assert c in cs;
      LostIffShared(es0, es, removed, c.path);
      ShrunkStep(es0, es, removed, c.path);
      forall d | d in cs[1..] ensures d.path != [] {
        assert d in cs;
      }
      DryMinusApplied(es0, Remove(es, c.path), removed + [c.path], policy, now, cs[1..]);
      var dry, applied := Actions(es0, policy, now, false, cs), Actions(es, policy, now, true, cs);
      assert dry[1..] == Actions(es0, policy, now, false, cs[1..]);
      assert applied[1..] == Actions(Remove(es, c.path), policy, now, true, cs[1..]);
    }
  }

  /** Two selected entries share bytes, and the one removed later is a directory. */
  ghost predicate TwoShare(es: Entries, cs: seq<Candidate>) {
    exists i, j :: 0 <= i < j < |cs| && cs[j].stats.isDir && Shares(es, cs[i].path, cs[j].path)
  }

  ghost predicate LaterShares(es: Entries, removed: seq<Path>, cs: seq<Candidate>) {
    exists j :: 0 <= j < |cs| && cs[j].stats.isDir && SharesAny(es, removed, cs[j].path)
  }

  lemma {:induction false} OverlapsIsSharing(es: Entries, removed: seq<Path>, cs: seq<Candidate>)
    ensures Overlaps(es, removed, cs) <==> LaterShares(es, removed, cs) || TwoShare(es, cs)
    decreases |cs|
  {
    if cs != [] {
      OverlapsIsSharing(es, removed + [cs[0].path], cs[1..]);
      if LaterShares(es, removed, cs) || TwoShare(es, cs) { SharingUncons(es, removed, cs); }
      if FirstOrLater(es, removed, cs) { SharingCons(es, removed, cs); }
    }
  }

  lemma SharesMore(es: Entries, removed: seq<Path>, q: Path, p: Path)
    ensures SharesAny(es, removed + [q], p) <==> SharesAny(es, removed, p) || Shares(es, q, p)
  {
    hide Shares;
    var more := removed + [q];
    assert more[|removed|] == q && forall k :: 0 <= k < |removed| ==> more[k] == removed[k];
  }

  /** The first candidate, or a later one, shares bytes with something before it. */
  ghost predicate FirstOrLater(es: Entries, removed: seq<Path>, cs: seq<Candidate>)
    requires cs != []
  {
    (cs[0].stats.isDir && SharesAny(es, removed, cs[0].path)) ||
    LaterShares(es, removed + [cs[0].path], cs[1..]) || TwoShare(es, cs[1..])
  }

  lemma SharingUncons(es: Entries, removed: seq<Path>, cs: seq<Candidate>)
    requires cs != [] && (LaterShares(es, removed, cs) || TwoShare(es, cs))
    ensures FirstOrLater(es, removed, cs)
  {
    hide Shares, SharesAny;
    var q, tail := cs[0].path, cs[1..];
    if LaterShares(es, removed, cs) {
      var j :| 0 <= j < |cs| && cs[j].stats.isDir && SharesAny(es, removed, cs[j].path);
      assert j > 0 ==> tail[j - 1] == cs[j];
      SharesMore(es, removed, q, cs[j].path);
    } else {
      var i, j :| 0 <= i < j < |cs| && cs[j].stats.isDir && Shares(es, cs[i].path, cs[j].path);
      assert tail[j - 1] == cs[j];
      assert i > 0 ==> tail[i - 1] == cs[i];
      SharesMore(es, removed, q, cs[j].path);
    }
  }

  lemma SharingCons(es: Entries, removed: seq<Path>, cs: seq<Candidate>)
    requires cs != [] && FirstOrLater(es, removed, cs)
    ensures LaterShares(es, removed, cs) || TwoShare(es, cs)
  {
    hide Shares, SharesAny;
    var q, tail := cs[0].path, cs[1..];
    if LaterShares(es, removed + [q], tail) {
      var j :| 0 <= j < |tail| && tail[j].stats.isDir && SharesAny(es, removed + [q], tail[j].path);
      assert cs[j + 1] == tail[j];
      SharesMore(es, removed, q, tail[j].path);
    }
    if TwoShare(es, tail) {
      var i, j :| 0 <= i < j < |tail| && tail[j].stats.isDir && Shares(es, tail[i].path, tail[j].path);
      assert cs[j + 1] == tail[j] && cs[i + 1] == tail[i];
    }
  }

  /**
   For one policy and tree the dry run reports at least the bytes of the run that removes, and the same
   bytes exactly when no selected directory shares bytes with an entry selected before it.
   */
  lemma DryRunBounds(es: Entries, policy: Policy, now: real)
    requires Valid(es) && policy.root != [] && Candidates(es, policy).Done?
    ensures var dry := TotalBytes(Scan(es, policy, now, false).value.1);
      var applied := TotalBytes(Scan(es, policy, now, true).value.1);
      dry >= applied && (dry == applied <==> !TwoShare(es, DoomedOf(es, policy, now)))
  {
    var cs := DoomedOf(es, policy, now);
    DoomedFacts(es, policy, now);
    DryMinusApplied(es, es, [], policy, now, cs);
    OverlapsIsSharing(es, [], cs);
  }

  /** In particular the totals are equal when no reported directory contains another reported entry. */
  lemma NoNestingSameBytes(es: Entries, policy: Policy, now: real)
    requires Valid(es) && policy.root != [] && Candidates(es, policy).Done?
    requires var cs := DoomedOf(es, policy, now);
      forall i, j :: 0 <= i < |cs| && 0 <= j < |cs| && i != j ==> !(cs[i].path <= cs[j].path)
    ensures TotalBytes(Scan(es, policy, now, false).value.1) == TotalBytes(Scan(es, policy, now, true).value.1)
  {
    DryRunBounds(es, policy, now);
  }

  // ---------------------------------------------------------------------------------
  // The whole run: later policies of a run that removes see what earlier ones left

  ghost predicate Subsequence<T(!new)>(a: seq<T>, b: seq<T>) {
    a == [] || (b != [] && ((a[0] == b[0] && Subsequence(a[1..], b[1..])) || Subsequence(a, b[1..])))
  }

  /** With fewer candidates, counted from no higher an index, a policy selects no others. */
  lemma {:induction false} SelectsSubsequence(
    policy: Policy, now: real, cs: seq<Candidate>, f: Candidate -> bool, i: nat, j: nat)
    requires i <= j
    ensures Subsequence(Select(policy, now, Keep(f, cs), i), Select(policy, now, cs, j))
  {
    hide StaleByAge;
    if cs != [] {
      var c, tail := cs[0], cs[1..];
      if f(c) {
        SelectsSubsequence(policy, now, tail, f, i + 1, j + 1);
        assert ([c] + Keep(f, tail))[1..] == Keep(f, tail);
        SubsequenceCons(Stale(policy, now, c, i), Stale(policy, now, c, j), c,
          Select(policy, now, Keep(f, tail), i + 1), Select(policy, now, tail, j + 1));
      } else {
        SelectsSubsequence(policy, now, tail, f, i, j + 1);
        assert [] + Keep(f, tail) == Keep(f, tail);
        SubsequenceSkip(Stale(policy, now, c, j), c,
          Select(policy, now, Keep(f, tail), i), Select(policy, now, tail, j + 1));
      }
    }
  }

  lemma SubsequenceSkip(q: bool, c: Candidate, a: seq<Candidate>, b: seq<Candidate>)
    requires Subsequence(a, b)
    ensures Subsequence(a, (if q then [c] else []) + b)
  {
    assert [] + b == b && ([c] + b)[1..] == b;
  }

  lemma SubsequenceCons(p: bool, q: bool, c: Candidate, a: seq<Candidate>, b: seq<Candidate>)
    requires Subsequence(a, b) && (p ==> q)
    ensures Subsequence((if p then [c] else []) + a, (if q then [c] else []) + b)
  {
    if p {
      assert ([c] + a)[1..] == a && ([c] + b)[1..] == b;
    } else {
      assert [] + a == a;
      SubsequenceSkip(q, c, a, b);
    }
  }

  /** What a dry run reports for the candidates, all of them measured on the same tree. */
  ghost function Measured(es: Entries, cs: seq<Candidate>): nat {
    if cs == [] then 0 else BytesOf(es, cs[0]) + Measured(es, cs[1..])
  }

  lemma {:induction false} DryTotal(es: Entries, policy: Policy, now: real, cs: seq<Candidate>)
    ensures TotalBytes(Actions(es, policy, now, false, cs)) == Measured(es, cs) && TreeAfter(es, false, cs) == es
    decreases |cs|
  {
    if cs != [] {
      DryTotal(es, policy, now, cs[1..]);
      assert Actions(es, policy, now, false, cs)[1..] == Actions(es, policy, now, false, cs[1..]);
    }
  }

  lemma {:induction false} SubsequenceMeasures(es: Entries, a: seq<Candidate>, b: seq<Candidate>)
    requires Subsequence(a, b)
    ensures Measured(es, a) <= Measured(es, b)
    decreases |b|
  {
    hide BytesOf;
    if a != [] {
      if a[0] == b[0] && Subsequence(a[1..], b[1..]) {
        SubsequenceMeasures(es, a[1..], b[1..]);
      } else {
        SubsequenceMeasures(es, a, b[1..]);
      }
    }
  }

  lemma {:induction false} SizesShrink(es: Entries, cs: seq<Candidate>, p: Path)
    requires Valid(es) && Removable(cs) && p != []
    ensures Valid(TreeAfter(es, true, cs)) && SizeAt(TreeAfter(es, true, cs), p) <= SizeAt(es, p)
    decreases |cs|
  {
    if cs != [] {
      assert cs[0] in cs;
      RemoveValid(es, cs[0].path);
      SizeAfterRemove(es, cs[0].path, p);
      SizesShrink(Remove(es, cs[0].path), cs[1..], p);
    }
  }

  lemma {:induction false} MeasuredShrinks(es: Entries, removed: seq<Candidate>, cs: seq<Candidate>)
    requires Valid(es) && Removable(removed) && Removable(cs)
    ensures Measured(TreeAfter(es, true, removed), cs) <= Measured(es, cs)
  {
    hide SizeAt;
    if cs != [] {
      assert cs[0] in cs;
      SizesShrink(es, removed, cs[0].path);
      MeasuredShrinks(es, removed, cs[1..]);
    }
  }

  lemma {:induction false} TreeAfterAppend(es: Entries, a: seq<Candidate>, b: seq<Candidate>)
    ensures TreeAfter(es, true, a + b) == TreeAfter(TreeAfter(es, true, a), true, b)
    decreases |a|
  {
    if a == [] {
      assert a + b == b;
    } else {
      assert (a + b)[1..] == a[1..] + b;
      TreeAfterAppend(Remove(es, a[0].path), a[1..], b);
    }
  }

  ghost function ActionPaths(actions: seq<Action>): seq<Path> {
    if actions == [] then [] else [actions[0].path] + ActionPaths(actions[1..])
  }

  ghost function PathsOf(cs: seq<Candidate>): seq<Path> {
    if cs == [] then [] else [cs[0].path] + PathsOf(cs[1..])
  }

  lemma {:induction false} ActionsHavePaths(es: Entries, policy: Policy, now: real, apply: bool, cs: seq<Candidate>)
    ensures ActionPaths(Actions(es, policy, now, apply, cs)) == PathsOf(cs)
    decreases |cs|
  {
    if cs != [] {
      ActionsHavePaths(After(es, apply, cs[0]), policy, now, apply, cs[1..]);
    }
  }

  lemma {:induction false} PathsSubsequence(a: seq<Candidate>, b: seq<Candidate>)
    requires Subsequence(a, b)
    ensures Subsequence(PathsOf(a), PathsOf(b))
    decreases |b|
  {
    if a != [] {
      if a[0] == b[0] && Subsequence(a[1..], b[1..]) {
        PathsSubsequence(a[1..], b[1..]);
      } else {
        PathsSubsequence(a, b[1..]);
      }
    }
  }

  lemma {:induction false} SubsequenceAppend<T(!new)>(a: seq<T>, b: seq<T>, c: seq<T>, d: seq<T>)
    requires Subsequence(a, b) && Subsequence(c, d)
    ensures Subsequence(a + c, b + d)
    decreases |b|
  {
    if b == [] {
      assert a + c == c && b + d == d;
    } else {
      assert (b + d)[1..] == b[1..] + d && (b + d)[0] == b[0];
      if a != [] && a[0] == b[0] && Subsequence(a[1..], b[1..]) {
        SubsequenceAppend(a[1..], b[1..], c, d);
        assert (a + c)[1..] == a[1..] + c && (a + c)[0] == a[0];
      } else {
        SubsequenceAppend(a, b[1..], c, d);
      }
    }
  }

  lemma {:induction false} PathsAppend(a: seq<Action>, b: seq<Action>)
    ensures ActionPaths(a + b) == ActionPaths(a) + ActionPaths(b)
  {
    if a == [] {
      assert a + b == b;
    } else {
      assert (a + b)[1..] == a[1..] + b;
      PathsAppend(a[1..], b);
    }
  }

  /** What a run that removes reports is bounded by what the dry run reports. */
  ghost predicate Bounded(dry: seq<Action>, applied: seq<Action>) {
    TotalBytes(applied) <= TotalBytes(dry) && Subsequence(ActionPaths(applied), ActionPaths(dry))
  }

  /** One policy, on the tree of the dry run and on what earlier removals left of it. */
  lemma ScanBounded(es: Entries, removed: seq<Candidate>, policy: Policy, now: real)
    requires Valid(es) && Removable(removed) && policy.root != [] && Candidates(es, policy).Done?
    ensures var left := TreeAfter(es, true, removed);
      Valid(left) && Candidates(left, policy).Done? && Removable(DoomedOf(left, policy, now)) &&
      Bounded(Scan(es, policy, now, false).value.1, Scan(left, policy, now, true).value.1)
  {
    hide Candidates, BytesOf, Keep, Select;
    var left, cs := TreeAfter(es, true, removed), Candidates(es, policy).value;
    CandidatesAfterAll(es, policy, removed);
    var doomed, fewer := DoomedOf(es, policy, now), DoomedOf(left, policy, now);
    SelectsSubsequence(policy, now, cs, OutsideAll(removed), 0, 0);
    DoomedFacts(left, policy, now);
    DryRunBounds(left, policy, now);
    DryTotal(left, policy, now, fewer);
    DryTotal(es, policy, now, doomed);
    MeasuredShrinks(es, removed, fewer);
    SubsequenceMeasures(es, fewer, doomed);
    ActionsHavePaths(es, policy, now, false, doomed);
    ActionsHavePaths(left, policy, now, true, fewer);
    PathsSubsequence(fewer, doomed);
  }

  lemma BoundedAppend(dry: seq<Action>, applied: seq<Action>, dry': seq<Action>, applied': seq<Action>)
    requires Bounded(dry, applied) && Bounded(dry', applied')
    ensures Bounded(dry + dry', applied + applied')
  {
    TotalAppend(dry, dry');
    TotalAppend(applied, applied');
    PathsAppend(dry, dry');
    PathsAppend(applied, applied');
    SubsequenceAppend(ActionPaths(applied), ActionPaths(dry), ActionPaths(applied'), ActionPaths(dry'));
  }

  lemma {:induction false} RunBounded(es: Entries, removed: seq<Candidate>, policies: seq<Policy>, now: real)
    requires Valid(es) && Removable(removed) && Rooted(policies) && ScanAll(es, policies, now, false).Done?
    ensures var left := TreeAfter(es, true, removed);
      ScanAll(left, policies, now, true).Done? &&
      Bounded(ScanAll(es, policies, now, false).value.1, ScanAll(left, policies, now, true).value.1)
    decreases |policies|
  {
    hide Bounded, Candidates, Select, Actions;
    if policies == [] {
      assert Bounded([], []) by { NothingBounded(); }
    } else {
      var policy, left := policies[0], TreeAfter(es, true, removed);
      assert policy.root != [];
      assert Candidates(es, policy).Done?;
      ScanBounded(es, removed, policy, now);
      var fewer := DoomedOf(left, policy, now);
      DryTotal(es, policy, now, DoomedOf(es, policy, now));
      assert Scan(es, policy, now, false).value.0 == es;
      TreeAfterAppend(es, removed, fewer);
      assert Removable(removed + fewer);
      RunBounded(es, removed + fewer, policies[1..], now);
      assert Scan(left, policy, now, true).value.0 == TreeAfter(es, true, removed + fewer);
      BoundedAppend(Scan(es, policy, now, false).value.1, Scan(left, policy, now, true).value.1,
        ScanAll(es, policies[1..], now, false).value.1,
        ScanAll(TreeAfter(es, true, removed + fewer), policies[1..], now, true).value.1);
    }
  }

  lemma NothingBounded()
    ensures Bounded([], [])
  {
  }

  /**
   For every list of policies: if the dry run succeeds so does the run that removes, everything removed was
   announced by the dry run, in the same order, and the dry-run total bounds the removed bytes.
   */
  lemma DryRunAnnouncesRun(es: Entries, policies: seq<Policy>, now: real)
    requires Valid(es) && Rooted(policies) && ScanAll(es, policies, now, false).Done?
    ensures ScanAll(es, policies, now, true).Done?
    ensures var dry, applied := ScanAll(es, policies, now, false).value.1, ScanAll(es, policies, now, true).value.1;
      TotalBytes(applied) <= TotalBytes(dry) && Subsequence(ActionPaths(applied), ActionPaths(dry))
  {
    hide ScanAll;
    RunBounded(es, [], policies, now);
  }
}
