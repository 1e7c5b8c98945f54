/** The eight policies of the script, and what the general results say about them. */
module RetentionPolicies {
  import opened Wrappers
  import opened Text
  import opened FileTree
  import opened Retention
  import opened RetentionListing
  import opened RetentionWindow
  import opened RetentionBytes
  import opened RetentionDryRun
  import opened RetentionScope

  function LowerChar(c: char): char {
    if 'A' <= c <= 'Z' then (c as int + 32) as char else c
  }

  function Lower(s: string): string {
    seq(|s|, i requires 0 <= i < |s| => LowerChar(s[i]))
  }

  predicate HasExtension(name: string, extensions: set<string>) {
    exists e :: e in extensions && EndsWith(Lower(name), "." + e)
  }

  function BaseName(c: Candidate): string {
    if c.path == [] then "" else c.path[|c.path| - 1]
  }

  /** `\d{4}-\d{2}-\d{2}T` at the start of a name. */
  predicate StartsWithDate(s: string) {
    |s| >= 11 && IsDigit(s[0]) && IsDigit(s[1]) && IsDigit(s[2]) && IsDigit(s[3]) && s[4] == '-' &&
    IsDigit(s[5]) && IsDigit(s[6]) && s[7] == '-' && IsDigit(s[8]) && IsDigit(s[9]) && s[10] == 'T'
  }

  function Policies(): seq<Policy> {
    [ Policy("essential-backups", ["data", "backups", "essential"], 14, Some(5), (c: Candidate) =>
        !c.stats.isDir && BaseName(c) != "manifest.json" && HasExtension(BaseName(c), {"zip", "json"})),
      Policy("database-snapshots", ["data", "backups"], 14, Some(5), (c: Candidate) =>
        c.stats.isDir && |c.path| > 2 && c.path[0] == "data" && c.path[1] == "backups" && StartsWithDate(c.path[2])),
      Policy("runtime-logs", ["data", "runtime"], 7, None, (c: Candidate) =>
        !c.stats.isDir && HasExtension(BaseName(c), {"log", "trace", "tmp", "bak"})),
      Policy("runtime-derived-reports", ["data", "runtime"], 14, None, (c: Candidate) =>
        !c.stats.isDir && (EndsWith(Lower(BaseName(c)), "-last.json") || EndsWith(Lower(BaseName(c)), "-report.json"))),
      Policy("publish-archives", ["data", "publish-archives"], 30, Some(12), (c: Candidate) => c.stats.isDir),
      Policy("generated-runtime-logs", ["ops", "artifacts", "generated", "runtime-logs"], 14, None,
        (c: Candidate) => !c.stats.isDir),
      Policy("generated-deliveries", ["ops", "artifacts", "generated", "deliveries"], 14, None,
        (c: Candidate) => !c.stats.isDir),
      Policy("generated-reports", ["ops", "artifacts", "generated", "reports"], 30, None,
        (c: Candidate) => !c.stats.isDir) ]
  }

  lemma PoliciesAreOfOneKind()
    ensures OfOneKind(Policies()) && Rooted(Policies())
  {
    var ps := Policies();
    forall i | 0 <= i < |ps| ensures (OnlyFiles(ps[i]) || OnlyDirectories(ps[i])) && ps[i].root != [] {
      if i == 1 || i == 4 {
        assert OnlyDirectories(ps[i]);
      } else {
        assert OnlyFiles(ps[i]);
      }
    }
  }

  /** The script with `--apply`: `removedBytes` is what the tree lost, and a second run reports nothing. */
  lemma RunOfTheScript(es: Entries, now: real)
    requires Valid(es) && ScanAll(es, Policies(), now, true).Done?
    ensures var (es', actions) := ScanAll(es, Policies(), now, true).value;
      TotalBytes(actions) == Size(es) - Size(es') && ScanAll(es', Policies(), now, true) == Done((es', []))
  {
    hide ScanAll, Policies;
    PoliciesAreOfOneKind();
    RunConserves(es, Policies(), now);
    SecondRunDoesNothing(es, Policies(), now);
  }

  /** The script without `--apply`: everything a run with it would free was announced, in the same order. */
  lemma DryRunOfTheScript(es: Entries, now: real)
    requires Valid(es) && ScanAll(es, Policies(), now, false).Done?
    ensures ScanAll(es, Policies(), now, true).Done?
    ensures var dry := ScanAll(es, Policies(), now, false).value.1;
      var (es', applied) := ScanAll(es, Policies(), now, true).value;
      Size(es) - Size(es') <= TotalBytes(dry) && Subsequence(ActionPaths(applied), ActionPaths(dry))
  {
    hide ScanAll, Policies;
    PoliciesAreOfOneKind();
    DryRunAnnouncesRun(es, Policies(), now);
    RunConserves(es, Policies(), now);
  }

  // ---------------------------------------------------------------------------------
  // The table, by place, kind and name

  function Capital(i: nat): char
    requires i < 26
  {
    "ABCDEFGHIJKLMNOPQRSTUVWXYZ"[i]
  }

  function Small(i: nat): char
    requires i < 26
  {
    "abcdefghijklmnopqrstuvwxyz"[i]
  }

  /** The same letter in either case, or the same character. */
  ghost predicate SameLetter(c: char, d: char) {
    c == d || exists i: nat :: i < 26 && c == Capital(i) && d == Small(i)
  }

  ghost predicate EndsInAnyCase(name: string, ending: string) {
    |ending| <= |name| &&
    forall i :: 0 <= i < |ending| ==> SameLetter(name[|name| - |ending| + i], ending[i])
  }

  ghost predicate EndsLike(path: Path, endings: set<string>) {
    path != [] && exists e :: e in endings && EndsInAnyCase(path[|path| - 1], e)
  }

  predicate AreDigits(s: string) {
    forall i :: 0 <= i < |s| ==> s[i] in "0123456789"
  }

  /** Year, month and day in digits, with dashes between them and a T after them. */
  ghost predicate IsDated(name: string) {
    exists y, m, d, rest: string ::
      name == y + "-" + m + "-" + d + "T" + rest && |y| == 4 && |m| == 2 && |d| == 2 &&
      AreDigits(y) && AreDigits(m) && AreDigits(d)
  }

  lemma DigitIff(c: char)
    ensures IsDigit(c) <==> c in "0123456789"
  {
  }

  lemma TwoDigits(s: string)
    requires |s| == 2
    ensures AreDigits(s) <==> IsDigit(s[0]) && IsDigit(s[1])
  {
    DigitIff(s[0]);
    DigitIff(s[1]);
  }

  lemma FourDigits(s: string)
    requires |s| == 4
    ensures AreDigits(s) <==> IsDigit(s[0]) && IsDigit(s[1]) && IsDigit(s[2]) && IsDigit(s[3])
  {
    DigitIff(s[0]);
    DigitIff(s[1]);
    DigitIff(s[2]);
    DigitIff(s[3]);
  }

  lemma StartsWithDateIff(name: string)
    ensures StartsWithDate(name) <==> IsDated(name)
  {
    hide AreDigits, IsDigit;
    if StartsWithDate(name) {
      var y, m, d, rest := name[..4], name[5..7], name[8..10], name[11..];
      assert name == y + "-" + m + "-" + d + "T" + rest;
      FourDigits(y);
      TwoDigits(m);
      TwoDigits(d);
    }
    if IsDated(name) {
      var y, m, d, rest: string :|
        name == y + "-" + m + "-" + d + "T" + rest && |y| == 4 && |m| == 2 && |d| == 2 &&
        AreDigits(y) && AreDigits(m) && AreDigits(d);
      DateParts(name, y, m, d, rest);
      FourDigits(y);
      TwoDigits(m);
      TwoDigits(d);
    }
  }

  lemma DateParts(name: string, y: string, m: string, d: string, rest: string)
    requires name == y + "-" + m + "-" + d + "T" + rest && |y| == 4 && |m| == 2 && |d| == 2
    ensures |name| >= 11 && name[..4] == y && name[4] == '-' && name[5..7] == m && name[7] == '-' &&
      name[8..10] == d && name[10] == 'T'
    ensures name[0] == y[0] && name[1] == y[1] && name[2] == y[2] && name[3] == y[3]
    ensures name[5] == m[0] && name[6] == m[1] && name[8] == d[0] && name[9] == d[1]
  {
  }

  lemma CapitalAt(i: nat)
    requires i < 26
    ensures Capital(i) as int == 'A' as int + i
  {
  }

  lemma SmallAt(i: nat)
    requires i < 26
    ensures Small(i) as int == 'a' as int + i
  {
  }

  lemma LowerIff(c: char, d: char)
    requires !('A' <= d <= 'Z')
    ensures LowerChar(c) == d <==> SameLetter(c, d)
  {
    hide Capital, Small;
    forall i: nat | i < 26 ensures Capital(i) as int == 'A' as int + i && Small(i) as int == 'a' as int + i {
      CapitalAt(i);
      SmallAt(i);
    }
    if 'A' <= c <= 'Z' {
      var i := c as int - 'A' as int;
      assert c == Capital(i) && LowerChar(c) == Small(i);
    }
  }

  lemma EndsLowerIff(name: string, ending: string)
    requires NoCapitals(ending)
    ensures EndsWith(Lower(name), ending) <==> EndsInAnyCase(name, ending)
  {
    hide SameLetter, LowerChar;
    if |ending| <= |name| {
      var at := |name| - |ending|;
      forall i | 0 <= i < |ending|
        ensures Lower(name)[at..][i] == LowerChar(name[at + i])
        ensures LowerChar(name[at + i]) == ending[i] <==> SameLetter(name[at + i], ending[i])
      {
        LowerIff(name[at + i], ending[i]);
      }
    }
  }

  /** Where the entries of a policy lie, what they are and what they are called. */
  ghost predicate Fits(policy: nat, path: Path, isDir: bool) {
    match policy
    case 0 =>
      !isDir && ["data", "backups", "essential"] < path && EndsLike(path, {".zip", ".json"}) &&
      path[|path| - 1] != "manifest.json"
    case 1 => isDir && ["data", "backups"] < path && IsDated(path[2])
    case 2 => !isDir && ["data", "runtime"] < path && EndsLike(path, {".log", ".trace", ".tmp", ".bak"})
    case 3 => !isDir && ["data", "runtime"] < path && EndsLike(path, {"-last.json", "-report.json"})
    case 4 => isDir && ["data", "publish-archives"] < path
    case 5 => !isDir && ["ops", "artifacts", "generated", "runtime-logs"] < path
    case 6 => !isDir && ["ops", "artifacts", "generated", "deliveries"] < path
    case 7 => !isDir && ["ops", "artifacts", "generated", "reports"] < path
    case _ => false
  }

  function Id(policy: nat): string
    requires policy < 8
  {
    ["essential-backups", "database-snapshots", "runtime-logs", "runtime-derived-reports",
     "publish-archives", "generated-runtime-logs", "generated-deliveries", "generated-reports"][policy]
  }

  function Days(policy: nat): nat
    requires policy < 8
  {
    [14, 14, 7, 14, 30, 14, 14, 30][policy]
  }

  function Counted(policy: nat): Option<nat> {
    if policy == 0 || policy == 1 then Some(5) else if policy == 4 then Some(12) else None
  }

  /** Each ending is a dot and an extension, and the other way round. */
  ghost predicate Dotted(endings: set<string>, extensions: set<string>) {
    (forall e :: e in endings ==> exists x :: x in extensions && e == "." + x) &&
    forall x :: x in extensions ==> "." + x in endings
  }

  predicate NoCapitals(s: string) {
    forall i :: 0 <= i < |s| ==> !('A' <= s[i] <= 'Z')
  }

  ghost predicate Uncapitalized(endings: set<string>) {
    forall e :: e in endings ==> NoCapitals(e)
  }

  lemma ExtensionIsEnding(path: Path, extensions: set<string>, endings: set<string>)
    requires path != [] && Dotted(endings, extensions) && Uncapitalized(endings)
    ensures HasExtension(path[|path| - 1], extensions) <==> EndsLike(path, endings)
  {
    hide EndsWith, Lower, EndsInAnyCase, NoCapitals;
    var name := path[|path| - 1];
    if HasExtension(name, extensions) {
      var x :| x in extensions && EndsWith(Lower(name), "." + x);
      EndsLowerIff(name, "." + x);
    }
    if EndsLike(path, endings) {
      var e :| e in endings && EndsInAnyCase(name, e);
      EndsLowerIff(name, e);
    }
  }

  lemma DotEndings()
    ensures Dotted({".zip", ".json"}, {"zip", "json"})
    ensures Dotted({".log", ".trace", ".tmp", ".bak"}, {"log", "trace", "tmp", "bak"})
  {
    assert "." + "zip" == ".zip" && "." + "json" == ".json" && "." + "log" == ".log" && "." + "trace" == ".trace";
    assert "." + "tmp" == ".tmp" && "." + "bak" == ".bak";
    var s, t := {"zip", "json"}, {"log", "trace", "tmp", "bak"};
    assert "zip" in s && "json" in s;
    assert "log" in t && "trace" in t && "tmp" in t && "bak" in t;
  }

  lemma EndingsHaveNoCapitals()
    ensures Uncapitalized({".zip", ".json"}) && Uncapitalized({".log", ".trace", ".tmp", ".bak"})
    ensures NoCapitals("-last.json") && NoCapitals("-report.json")
  {
  }

  /** What a policy does with a candidate below its root. */
  ghost predicate Matches(p: Policy, policy: nat, c: Candidate)
    requires policy < 8
  {
    p.id == Id(policy) && p.maxAgeDays == Days(policy) && p.maxEntries == Counted(policy) && p.root != [] &&
    (p.root < c.path && p.selects(c) <==> Fits(policy, c.path, c.stats.isDir))
  }

  lemma BackupsMatch(c: Candidate)
    ensures Matches(Policies()[0], 0, c)
  {
    hide StartsWithDate, HasExtension, EndsLike, EndsWith, Dotted, Uncapitalized;
    DotEndings();
    EndingsHaveNoCapitals();
    if c.path != [] { ExtensionIsEnding(c.path, {"zip", "json"}, {".zip", ".json"}); }
  }

  lemma LogsMatch(c: Candidate)
    ensures Matches(Policies()[2], 2, c)
  {
    hide StartsWithDate, HasExtension, EndsLike, EndsWith, Dotted, Uncapitalized;
    DotEndings();
    EndingsHaveNoCapitals();
    if c.path != [] {
      ExtensionIsEnding(c.path, {"log", "trace", "tmp", "bak"}, {".log", ".trace", ".tmp", ".bak"});
    }
  }

  lemma SnapshotsMatch(c: Candidate)
    ensures Matches(Policies()[1], 1, c)
  {
    hide StartsWithDate, IsDated, HasExtension, EndsLike;
    var root := ["data", "backups"];
    assert root < c.path ==> c.path[0] == root[0] && c.path[1] == root[1];
    if |c.path| > 2 { StartsWithDateIff(c.path[2]); }
  }

  lemma ReportsMatch(c: Candidate)
    ensures Matches(Policies()[3], 3, c)
  {
    hide StartsWithDate, HasExtension, EndsWith, Lower, EndsInAnyCase, NoCapitals;
    EndingsHaveNoCapitals();
    if c.path != [] {
      var name := c.path[|c.path| - 1];
      EndsLowerIff(name, "-last.json");
      EndsLowerIff(name, "-report.json");
    }
  }

  lemma OthersMatch(c: Candidate)
    ensures Matches(Policies()[4], 4, c) && Matches(Policies()[5], 5, c) && Matches(Policies()[6], 6, c)
    ensures Matches(Policies()[7], 7, c) && |Policies()| == 8
  {
    hide StartsWithDate, HasExtension, EndsLike;
  }

  /** Every policy has the place, kind, names, window and count of the table. */
  lemma PolicyMatches(policy: nat, c: Candidate)
    requires policy < 8
    ensures |Policies()| == 8 && Matches(Policies()[policy], policy, c)
  {
    hide Policies, Matches;
    BackupsMatch(c);
    LogsMatch(c);
    SnapshotsMatch(c);
    ReportsMatch(c);
    OthersMatch(c);
  }

  // ---------------------------------------------------------------------------------
  // What the script can and cannot touch

  /** What may be reported: an entry of a policy that is older than its window, unless the policy counts. */
  ghost predicate InScope(a: Action) {
    exists policy: nat, isDir ::
      policy < 8 && a.policyId == Id(policy) && Fits(policy, a.path, isDir) &&
      (Counted(policy).Some? || a.ageDays >= Days(policy))
  }

  lemma OlderThan(days: nat, ageDays: int, age: real)
    requires IsAgeInDays(ageDays, age) && age > days as real * 86400000.0
    ensures ageDays >= days
  {
    assert (ageDays + 1) as real > days as real;
  }

  lemma FromPolicy(a: Action, policy: nat) returns (isDir: bool)
    requires policy < |Policies()| && ComesFrom(a, Policies()[policy])
    ensures policy < 8 && a.policyId == Id(policy) && Fits(policy, a.path, isDir)
    ensures Counted(policy).Some? || a.ageDays >= Days(policy)
  {
    hide Policies, IsAgeInDays, Fits;
    var p := Policies()[policy];
    var c, age :| Explains(a, p, c, age);
    OthersMatch(c);
    PolicyMatches(policy, c);
    if age > p.maxAgeDays as real * 86400000.0 { OlderThan(p.maxAgeDays, a.ageDays, age); }
    isDir := c.stats.isDir;
  }

  /** In both modes the script reports nothing out of scope, and what is gone was at or below something reported. */
  lemma ScriptStaysInScope(es: Entries, now: real, apply: bool)
    requires Valid(es) && ScanAll(es, Policies(), now, apply).Done?
    ensures var (es', actions) := ScanAll(es, Policies(), now, apply).value;
      (forall i :: 0 <= i < |actions| ==> InScope(actions[i])) &&
      forall p: Path :: p != [] && Lookup(es, p).Some? && Lookup(es', p).None? ==> apply && AtOrBelow(p, actions)
  {
    hide Policies, ComesFrom, Fits;
    var (es', actions) := ScanAll(es, Policies(), now, apply).value;
    PoliciesAreOfOneKind();
    RunComesFrom(es, Policies(), now, apply);
    forall i | 0 <= i < |actions| ensures InScope(actions[i]) {
      assert FromOneOf(actions[i], Policies());
      var k :| 0 <= k < |Policies()| && ComesFrom(actions[i], Policies()[k]);
      var isDir := FromPolicy(actions[i], k);
    }
    if apply {
      forall p: Path | p != [] ensures Lookup(es', p).Some? <==> Lookup(es, p).Some? && !AtOrBelow(p, actions) {
        GoneIff(es, Policies(), now, p);
      }
    } else {
      DryRunLeavesTree(es, Policies(), now);
    }
  }

  lemma PlaceOf(policy: nat, path: Path, isDir: bool)
    requires 0 < policy < 8 && Fits(policy, path, isDir)
    ensures |path| > 2 && (path[0] != "data" || path[1] != "backups" || IsDated(path[2]))
  {
    hide EndsLike, IsDated;
    var runtime, archives := ["data", "runtime"], ["data", "publish-archives"];
    assert runtime < path ==> path[1] == runtime[1] && runtime[1][0] == 'r';
    assert archives < path ==> path[1] == archives[1] && archives[1][0] == 'p';
    assert ["ops", "artifacts"] < path ==> path[0] == ["ops", "artifacts"][0] == "ops";
  }

  lemma EssentialPath(p: Path)
    requires ["data", "backups", "essential"] < p
    ensures p[0] == "data" && p[1] == "backups" && p[2] == "essential"
  {
    var root := ["data", "backups", "essential"];
    assert p[0] == root[0] && p[1] == root[1] && p[2] == root[2];
  }

  /** A zip or JSON backup is out of reach of all other policies. */
  lemma OutOfReach(policy: nat, path: Path, isDir: bool, p: Path)
    requires 0 < policy < 8 && Fits(policy, path, isDir) && ["data", "backups", "essential"] < p
    ensures !(path <= p)
  {
    hide Fits, IsDated;
    PlaceOf(policy, path, isDir);
    EssentialPath(p);
    NotADate();
  }

  lemma NotADate()
    ensures !IsDated("essential")
  {
    StartsWithDateIff("essential");
  }

  /**
   The five newest of the zip and JSON files in data/backups/essential, unless they are more than 14 days old,
   survive the whole run with `--apply`.
   */
  lemma EssentialBackupsStay(es: Entries, now: real, i: nat)
    requires Valid(es) && ScanAll(es, Policies(), now, true).Done?
    requires var cs := Candidates(es, Policies()[0]).value;
      i < |cs| && i < 5 && now - cs[i].stats.mtime <= 1209600000.0
    ensures var c := Candidates(es, Policies()[0]).value[i];
      Fits(0, c.path, c.stats.isDir) && Lookup(ScanAll(es, Policies(), now, true).value.0, c.path).Some?
  {
    hide Candidates, TreeAfter, Actions, Select, ScanAll, Policies, Fits, ComesFrom;
    FirstPolicy(es, now);
    KeptByFirst(es, now, i);
    PoliciesAreOfOneKind();
    PolicyMatches(0, Candidate([], Stats(false, 0, 0.0)));
    var ps := Policies();
    var cs, doomed := Candidates(es, ps[0]).value, DoomedOf(es, ps[0], now);
    var p := cs[i].path;
    var next, first := TreeAfter(es, true, doomed), Actions(es, ps[0], now, true, doomed);
    var rest := ScanAll(next, ps[1..], now, true).value.1;
    StillValid(es, ps[0], now, true);
    RunComesFrom(next, ps[1..], now, true);
    GoneIff(es, ps, now, p);
    AtOrBelowAppend(p, first, rest);
    if AtOrBelow(p, rest) {
      var j :| 0 <= j < |rest| && rest[j].path <= p;
      assert FromOneOf(rest[j], ps[1..]);
      var k :| 0 <= k < |ps[1..]| && ComesFrom(rest[j], ps[1..][k]);
      assert ps[1..][k] == ps[k + 1];
      var isDir := FromPolicy(rest[j], k + 1);
      OutOfReach(k + 1, rest[j].path, isDir, p);
    }
  }

  lemma FirstPolicy(es: Entries, now: real)
    requires ScanAll(es, Policies(), now, true).Done?
    ensures var p := Policies()[0];
      Candidates(es, p).Done? &&
      var doomed := DoomedOf(es, p, now);
      var tail := ScanAll(TreeAfter(es, true, doomed), Policies()[1..], now, true);
      tail.Done? &&
      ScanAll(es, Policies(), now, true).value.1 == Actions(es, p, now, true, doomed) + tail.value.1
  {
    hide Candidates, TreeAfter, Actions, Select, Policies;
    OthersMatch(Candidate([], Stats(false, 0, 0.0)));
  }

  /** The first policy keeps it. */
  lemma KeptByFirst(es: Entries, now: real, i: nat)
    requires Valid(es) && Candidates(es, Policies()[0]).Done?
    requires var cs := Candidates(es, Policies()[0]).value;
      i < |cs| && i < 5 && now - cs[i].stats.mtime <= 1209600000.0
    ensures var c := Candidates(es, Policies()[0]).value[i];
      c.path != [] && Lookup(es, c.path).Some? && ["data", "backups", "essential"] < c.path &&
      Fits(0, c.path, c.stats.isDir) &&
      !AtOrBelow(c.path, Actions(es, Policies()[0], now, true, DoomedOf(es, Policies()[0], now)))
  {
    hide Candidates, TreeAfter, Actions, Select, Lookup, EndsLike, Policies;
    PolicyMatches(0, Candidate([], Stats(false, 0, 0.0)));
    var policy := Policies()[0];
    var cs, doomed := Candidates(es, policy).value, DoomedOf(es, policy, now);
    var c, actions := cs[i], Actions(es, policy, now, true, doomed);
    CandidatesNewest(es, policy);
    KeptIsPrefix(policy, now, cs);
    CandidatesIff(es, policy, c);
    PolicyMatches(0, c);
    ReportedPaths(es, policy, now, true, doomed);
    var kept := KeptCount(policy, now, cs);
    assert i < kept;
    forall j | 0 <= j < |actions| ensures !(actions[j].path <= c.path) {
      var d := cs[kept + j];
      assert doomed[j] == d;
      CandidatesIff(es, policy, d);
      PolicyMatches(0, d);
      CandidatesDistinct(es, policy);
      if d.path < c.path { FileIsLeaf(es, d.path, c.path); }
    }
  }

  /** Nothing lies below a file. */
  lemma FileIsLeaf(es: Entries, q: Path, p: Path)
    requires q != [] && q < p && Lookup(es, q).Some? && Lookup(es, q).value.File?
    ensures Lookup(es, p).None?
  {
    assert p == q + p[|q|..];
    LookupThrough(es, q, p[|q|..]);
  }

  // ---------------------------------------------------------------------------------
  // What the script leaves

  /**
   After a run with `--apply` nothing of a policy is older than its window, and of counted entries no more are left
   than counted.
   */
  lemma NothingOverdueStays(es: Entries, now: real, policy: nat)
    requires Valid(es) && ScanAll(es, Policies(), now, true).Done? && policy < 8
    ensures var es' := ScanAll(es, Policies(), now, true).value.0;
      (forall c: Candidate :: Holds(es', c) && Fits(policy, c.path, c.stats.isDir) ==>
        now - c.stats.mtime <= Days(policy) as real * 86400000.0) &&
      |Policies()| == 8 && Candidates(es', Policies()[policy]).Done? &&
      (Counted(policy).Some? ==> |Candidates(es', Policies()[policy]).value| <= Counted(policy).value)
  {
    hide Policies, ScanAll, Fits, Holds, Candidates;
    var es' := ScanAll(es, Policies(), now, true).value.0;
    PoliciesAreOfOneKind();
    RunSettles(es, Policies(), now);
    PolicyMatches(policy, Candidate([], Stats(false, 0, 0.0)));
    var p := Policies()[policy];
    assert Settled(es', p, now);
    SettledMeans(es', p, now);
    forall c: Candidate | Holds(es', c) && Fits(policy, c.path, c.stats.isDir)
      ensures now - c.stats.mtime <= Days(policy) as real * 86400000.0
    {
      PolicyMatches(policy, c);
    }
  }
}
