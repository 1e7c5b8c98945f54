/** The argument parser of the Android version script. */
module PinVersionArgs {
  import opened Wrappers
  import opened Text

  datatype Options = Options(
    explicitVersion: Option<string>, explicitVersionCode: Option<nat>, fromGateway: bool, rootDir: string, sync: bool)

  datatype Error =
    | UnknownArgument(arg: string)
    | MissingValue(flag: string)
    | NotAPositiveInteger(raw: string)
    | NotASafeInteger(raw: string)
    | ChooseOneSource

  /** Parsed options, the exit of `--help`, or a thrown error. */
  datatype Outcome<+T> = Parsed(value: T) | Help | Failed(error: Error)

  // ---------------------------------------------------------------------------------
  // Version codes

  const MAX_SAFE_INTEGER: nat := 9007199254740991

  predicate AllDigits(s: string) {
    forall i :: 0 <= i < |s| ==> IsDigit(s[i])
  }

  /** `/^[1-9]\d*$/` */
  predicate IsPositiveDecimal(s: string) {
    s != [] && s[0] != '0' && AllDigits(s)
  }

  function DigitsValue(s: string): nat
    requires AllDigits(s)
  {
    if s == [] then 0 else DigitsValue(s[..|s| - 1]) * 10 + (s[|s| - 1] as int - '0' as int)
  }

  function ParseExplicitVersionCode(raw: string): Outcome<nat> {
    var text := Trim(raw);
    if !IsPositiveDecimal(text) then Failed(NotAPositiveInteger(raw))
    else if DigitsValue(text) > MAX_SAFE_INTEGER then Failed(NotASafeInteger(raw))
    else Parsed(DigitsValue(text))
  }

  /** The decimal text of a positive integer. */
  function Decimal(n: nat): string {
    if n == 0 then "" else Decimal(n / 10) + [(n % 10 + '0' as int) as char]
  }

  lemma {:induction false} DecimalIsDecimal(n: nat)
    requires n > 0
    ensures IsPositiveDecimal(Decimal(n)) && DigitsValue(Decimal(n)) == n
  {
    var d := (n % 10 + '0' as int) as char;
    var s := Decimal(n);
    assert s[..|s| - 1] == Decimal(n / 10);
    if n / 10 > 0 {
      DecimalIsDecimal(n / 10);
      assert s[0] == Decimal(n / 10)[0];
    } else {
      assert Decimal(0) == "" && s == [d];
    }
  }

  lemma LastDigit(v: nat, d: nat)
    requires d < 10
    ensures (v * 10 + d) / 10 == v && (v * 10 + d) % 10 == d
  {
  }

  lemma DecimalEnd(v: nat, d: nat)
    requires d < 10 && v * 10 + d > 0
    ensures Decimal(v * 10 + d) == Decimal(v) + [(d + '0' as int) as char]
  {
    LastDigit(v, d);
    var n := v * 10 + d;
    assert Decimal(n) == Decimal(n / 10) + [(n % 10 + '0' as int) as char];
  }

  lemma ValueEnd(init: string, last: char)
    requires AllDigits(init) && IsDigit(last)
    ensures AllDigits(init + [last])
    ensures DigitsValue(init + [last]) == DigitsValue(init) * 10 + (last as int - '0' as int)
  {
    assert (init + [last])[..|init|] == init;
  }

  lemma {:induction false} DecimalOfValue(s: string)
    requires IsPositiveDecimal(s)
    ensures DigitsValue(s) > 0 && Decimal(DigitsValue(s)) == s
  {
    hide Decimal, DigitsValue;
    var init, last := s[..|s| - 1], s[|s| - 1];
    assert s == init + [last];
    ValueEnd(init, last);
    var v, d := DigitsValue(init), last as int - '0' as int;
    if init == [] {
      NoDigits();
      assert s[0] == last;
    } else {
      assert init[0] == s[0];
      DecimalOfValue(init);
    }
    DecimalEnd(v, d);
  }

  lemma NoDigits()
    ensures Decimal(0) == "" && DigitsValue("") == 0
  {
  }

  /** A code is accepted exactly when it is, up to white space, the decimal text of an integer from 1 to 2^53 - 1. */
  lemma VersionCodeAccepted(raw: string, n: nat)
    ensures ParseExplicitVersionCode(raw) == Parsed(n) <==> 1 <= n <= 9007199254740991 && Trim(raw) == Decimal(n)
  {
    if n > 0 { DecimalIsDecimal(n); }
    if IsPositiveDecimal(Trim(raw)) { DecimalOfValue(Trim(raw)); }
  }

  // ---------------------------------------------------------------------------------
  // The parser

  /** `readOptionValue`, for the flag at the given position. */
  function ReadOptionValue(argv: seq<string>, index: nat): Outcome<string>
    requires index < |argv|
  {
    if index + 1 >= |argv| || argv[index + 1] == "" || argv[index + 1][0] == '-' then Failed(MissingValue(argv[index]))
    else Parsed(argv[index + 1])
  }

  /** The options after the token at `index`, and the position of the next token. */
  function Step(argv: seq<string>, index: nat, o: Options, resolve: string -> string): (r: Outcome<(Options, nat)>)
    requires index < |argv|
    ensures r.Parsed? ==> index < r.value.1 <= |argv|
  {
    var arg := argv[index];
    if arg == "--from-gateway" then Parsed((o.(fromGateway := true), index + 1))
    else if arg == "--version" then
      match ReadOptionValue(argv, index)
      case Parsed(v) => Parsed((o.(explicitVersion := Some(v)), index + 2))
      case Failed(e) => Failed(e)
    else if arg == "--version-code" then
      match ReadOptionValue(argv, index)
      case Failed(e) => Failed(e)
      case Parsed(v) =>
        (match ParseExplicitVersionCode(v)
         case Parsed(n) => Parsed((o.(explicitVersionCode := Some(n)), index + 2))
         case Failed(e) => Failed(e))
    else if arg == "--no-sync" then Parsed((o.(sync := false), index + 1))
    else if arg == "--root" then
      match ReadOptionValue(argv, index)
      case Parsed(v) => Parsed((o.(rootDir := resolve(v)), index + 2))
      case Failed(e) => Failed(e)
    else if arg == "-h" || arg == "--help" then Help
    else Failed(UnknownArgument(arg))
  }

  function Scan(argv: seq<string>, index: nat, o: Options, resolve: string -> string): Outcome<Options>
    requires index <= |argv|
    decreases |argv| - index
  {
    if index == |argv| then Parsed(o)
    else
      match Step(argv, index, o, resolve)
      case Parsed((o', next)) => Scan(argv, next, o', resolve)
      case Help => Help
      case Failed(e) => Failed(e)
  }

  function Check(o: Options): Outcome<Options> {
    if o.fromGateway == o.explicitVersion.Some? then Failed(ChooseOneSource)
    else if o.explicitVersion.Some? && Trim(o.explicitVersion.value) == "" then Failed(MissingValue("--version"))
    else Parsed(o)
  }

  function Defaults(resolve: string -> string): Options {
    Options(None, None, false, resolve("."), true)
  }

  function Parse(argv: seq<string>, resolve: string -> string): Outcome<Options> {
    match Scan(argv, 0, Defaults(resolve), resolve)
    case Parsed(o) => Check(o)
    case Help => Help
    case Failed(e) => Failed(e)
  }

  method ParseArgs(argv: seq<string>, resolve: string -> string) returns (r: Outcome<Options>)
    ensures r == Parse(argv, resolve)
  {
    var explicitVersion: Option<string> := None;
    var explicitVersionCode: Option<nat> := None;
    var fromGateway, rootDir, sync := false, resolve("."), true;
    var index := 0;
    while index < |argv|
      invariant 0 <= index <= |argv|
      invariant Scan(argv, 0, Defaults(resolve), resolve) ==
        Scan(argv, index, Options(explicitVersion, explicitVersionCode, fromGateway, rootDir, sync), resolve)
    {
      var arg := argv[index];
      if arg == "--from-gateway" {
        fromGateway := true;
      } else if arg == "--version" {
        var value := ReadOptionValue(argv, index);
        if value.Failed? { return Failed(value.error); }
        explicitVersion := Some(value.value);
        index := index + 1;
      } else if arg == "--version-code" {
        var value := ReadOptionValue(argv, index);
        if value.Failed? { return Failed(value.error); }
        var code := ParseExplicitVersionCode(value.value);
        if code.Failed? { return Failed(code.error); }
        explicitVersionCode := Some(code.value);
        index := index + 1;
      } else if arg == "--no-sync" {
        sync := false;
      } else if arg == "--root" {
        var value := ReadOptionValue(argv, index);
        if value.Failed? { return Failed(value.error); }
        rootDir := resolve(value.value);
        index := index + 1;
      } else if arg == "-h" || arg == "--help" {
        return Help;
      } else {
        return Failed(UnknownArgument(arg));
      }
      index := index + 1;
    }
    if fromGateway == explicitVersion.Some? {
      return Failed(ChooseOneSource);
    }
    if explicitVersion.Some? && Trim(explicitVersion.value) == "" {
      return Failed(MissingValue("--version"));
    }
    return Parsed(Options(explicitVersion, explicitVersionCode, fromGateway, rootDir, sync));
  }

  // ---------------------------------------------------------------------------------
  // What success means

  /** What the parser can return. */
  ghost predicate Valid(o: Options, resolve: string -> string) {
    o.fromGateway == o.explicitVersion.None? &&
    (o.explicitVersion.Some? ==> Trim(o.explicitVersion.value) != "" && IsValue(o.explicitVersion.value)) &&
    (o.explicitVersionCode.Some? ==> 1 <= o.explicitVersionCode.value <= MAX_SAFE_INTEGER) &&
    exists root :: o.rootDir == resolve(root)
  }

  /** A token that `readOptionValue` takes as a value. */
  predicate IsValue(s: string) {
    s != "" && s[0] != '-'
  }

  ghost predicate Sound(o: Options, resolve: string -> string) {
    (o.explicitVersion.Some? ==> IsValue(o.explicitVersion.value)) &&
    (o.explicitVersionCode.Some? ==> 1 <= o.explicitVersionCode.value <= MAX_SAFE_INTEGER) &&
    exists root :: o.rootDir == resolve(root)
  }

  lemma {:induction false} ScanIsSound(argv: seq<string>, index: nat, o: Options, resolve: string -> string)
    requires index <= |argv| && Sound(o, resolve)
    ensures Scan(argv, index, o, resolve).Parsed? ==> Sound(Scan(argv, index, o, resolve).value, resolve)
    decreases |argv| - index
  {
    if index < |argv| {
      var step := Step(argv, index, o, resolve);
      if step.Parsed? {
        var o' := step.value.0;
        if o'.explicitVersionCode.Some? && o'.explicitVersionCode != o.explicitVersionCode {
          VersionCodeAccepted(argv[index + 1], o'.explicitVersionCode.value);
        }
        ScanIsSound(argv, step.value.1, o', resolve);
      }
    }
  }

  /** Success means exactly one version source, a version with text in it, a code in range and a resolved root. */
  lemma ParsedIsValid(argv: seq<string>, resolve: string -> string)
    requires Parse(argv, resolve).Parsed?
    ensures Valid(Parse(argv, resolve).value, resolve)
  {
    var o := Defaults(resolve);
    assert o.rootDir == resolve(".");
    ScanIsSound(argv, 0, o, resolve);
  }

  // ---------------------------------------------------------------------------------
  // Option groups: a flag with its value, if it takes one

  datatype Group =
    | FromGateway
    | NoSync
    | Version(value: string)
    | VersionCode(raw: string)
    | Root(path: string)

  function Tokens(g: Group): seq<string> {
    match g
    case FromGateway => ["--from-gateway"]
    case NoSync => ["--no-sync"]
    case Version(v) => ["--version", v]
    case VersionCode(raw) => ["--version-code", raw]
    case Root(path) => ["--root", path]
  }

  function AllTokens(gs: seq<Group>): seq<string> {
    if gs == [] then [] else Tokens(gs[0]) + AllTokens(gs[1..])
  }

  predicate Accepted(g: Group) {
    match g
    case Version(v) => IsValue(v)
    case VersionCode(raw) => IsValue(raw) && ParseExplicitVersionCode(raw).Parsed?
    case Root(path) => IsValue(path)
    case _ => true
  }

  function Apply(g: Group, o: Options, resolve: string -> string): Options
    requires Accepted(g)
  {
    match g
    case FromGateway => o.(fromGateway := true)
    case NoSync => o.(sync := false)
    case Version(v) => o.(explicitVersion := Some(v))
    case VersionCode(raw) => o.(explicitVersionCode := Some(ParseExplicitVersionCode(raw).value))
    case Root(path) => o.(rootDir := resolve(path))
  }

  predicate AllAccepted(gs: seq<Group>) {
    forall i :: 0 <= i < |gs| ==> Accepted(gs[i])
  }

  function ApplyAll(gs: seq<Group>, o: Options, resolve: string -> string): Options
    requires AllAccepted(gs)
    decreases |gs|
  {
    if gs == [] then o else ApplyAll(gs[1..], Apply(gs[0], o, resolve), resolve)
  }

  lemma StepIsGroup(argv: seq<string>, index: nat, g: Group, o: Options, resolve: string -> string)
    requires index < |argv| && Accepted(g) && Tokens(g) <= argv[index..]
    ensures Step(argv, index, o, resolve) == Parsed((Apply(g, o, resolve), index + |Tokens(g)|))
  {
    assert argv[index..][0] == argv[index] && Tokens(g)[0] == argv[index];
    if |Tokens(g)| == 2 {
      assert argv[index..][1] == argv[index + 1] && Tokens(g)[1] == argv[index + 1];
    }
  }

  lemma StepGivesGroup(argv: seq<string>, index: nat, o: Options, resolve: string -> string) returns (g: Group)
    requires index < |argv| && Step(argv, index, o, resolve).Parsed?
    ensures Accepted(g) && index + |Tokens(g)| <= |argv| && argv[index..index + |Tokens(g)|] == Tokens(g)
    ensures Step(argv, index, o, resolve) == Parsed((Apply(g, o, resolve), index + |Tokens(g)|))
  {
    hide ParseExplicitVersionCode;
    var arg := argv[index];
    if arg == "--from-gateway" {
      g := FromGateway;
    } else if arg == "--version" {
      g := Version(argv[index + 1]);
    } else if arg == "--version-code" {
      g := VersionCode(argv[index + 1]);
    } else if arg == "--no-sync" {
      g := NoSync;
    } else {
      g := Root(argv[index + 1]);
    }
    if |Tokens(g)| == 1 {
      assert argv[index..index + 1] == [arg] == Tokens(g);
    } else {
      assert argv[index..index + 2] == [arg, argv[index + 1]] == Tokens(g);
    }
  }

  lemma {:induction false} ScanGroups(
    argv: seq<string>, index: nat, gs: seq<Group>, o: Options, resolve: string -> string)
    requires index <= |argv| && AllAccepted(gs) && argv[index..] == AllTokens(gs)
    ensures Scan(argv, index, o, resolve) == Parsed(ApplyAll(gs, o, resolve))
    decreases |gs|
  {
    hide Step, Accepted, Apply;
    if gs != [] {
      var g, rest := gs[0], AllTokens(gs[1..]);
      assert Accepted(g);
      assert Tokens(g) <= argv[index..] && |Tokens(g)| > 0;
      StepIsGroup(argv, index, g, o, resolve);
      assert argv[index + |Tokens(g)|..] == argv[index..][|Tokens(g)|..] == rest;
      ScanGroups(argv, index + |Tokens(g)|, gs[1..], Apply(g, o, resolve), resolve);
    }
  }

  lemma {:induction false} GroupsOfScan(argv: seq<string>, index: nat, o: Options, resolve: string -> string)
    returns (gs: seq<Group>)
    requires index <= |argv| && Scan(argv, index, o, resolve).Parsed?
    ensures AllAccepted(gs) && argv[index..] == AllTokens(gs)
    decreases |argv| - index
  {
    hide Step, Accepted, Apply, Tokens;
    if index == |argv| {
      gs := [];
    } else {
      var g := StepGivesGroup(argv, index, o, resolve);
      var next := index + |Tokens(g)|;
      var rest := GroupsOfScan(argv, next, Apply(g, o, resolve), resolve);
      gs := [g] + rest;
      assert gs[1..] == rest && argv[index..] == argv[index..next] + argv[next..];
    }
  }

  /** The tokens are the groups one after the other, and the options are what the groups say, checked. */
  ghost predicate ReadsAs(argv: seq<string>, gs: seq<Group>, o: Options, resolve: string -> string) {
    AllAccepted(gs) && argv == AllTokens(gs) && ApplyAll(gs, Defaults(resolve), resolve) == o && Check(o) == Parsed(o)
  }

  /** Parsing succeeds exactly when the tokens are a list of option groups, each token in one group. */
  lemma ParsedIffGroups(argv: seq<string>, o: Options, resolve: string -> string)
    ensures Parse(argv, resolve) == Parsed(o) <==> exists gs :: ReadsAs(argv, gs, o, resolve)
  {
    hide Scan, Accepted, ApplyAll, AllTokens, AllAccepted;
    var d := Defaults(resolve);
    assert argv[0..] == argv;
    if Parse(argv, resolve) == Parsed(o) {
      var gs := GroupsOfScan(argv, 0, d, resolve);
      ScanGroups(argv, 0, gs, d, resolve);
      assert ReadsAs(argv, gs, o, resolve);
    }
    if gs :| ReadsAs(argv, gs, o, resolve) {
      ScanGroups(argv, 0, gs, d, resolve);
    }
  }

  /** There is only one way to split the tokens into groups. */
  lemma {:induction false} GroupsAreUnique(gs: seq<Group>, hs: seq<Group>)
    requires AllAccepted(gs) && AllAccepted(hs) && AllTokens(gs) == AllTokens(hs)
    ensures gs == hs
  {
    if gs != [] && hs != [] {
      var g, h, s := gs[0], hs[0], AllTokens(gs);
      assert s[0] == Tokens(g)[0] == Tokens(h)[0];
      assert |Tokens(g)| == |Tokens(h)|;
      assert Tokens(g) == s[..|Tokens(g)|] == Tokens(h);
      assert |Tokens(g)| == 2 ==> s[1] == Tokens(g)[1] == Tokens(h)[1];
      assert g == h;
      assert AllTokens(gs[1..]) == s[|Tokens(g)|..] == AllTokens(hs[1..]);
      GroupsAreUnique(gs[1..], hs[1..]);
      assert gs == [g] + gs[1..] && hs == [h] + hs[1..];
    }
  }

  // ---------------------------------------------------------------------------------
  // The order of the groups

  /** The same flag, whatever the value. */
  predicate SameFlag(g: Group, h: Group) {
    Tokens(g)[0] == Tokens(h)[0]
  }

  ghost predicate DistinctFlags(gs: seq<Group>) {
    forall i, j :: 0 <= i < j < |gs| ==> !SameFlag(gs[i], gs[j])
  }

  lemma ApplyCommutes(g: Group, h: Group, o: Options, resolve: string -> string)
    requires Accepted(g) && Accepted(h) && !SameFlag(g, h)
    ensures Apply(g, Apply(h, o, resolve), resolve) == Apply(h, Apply(g, o, resolve), resolve)
  {
    hide ParseExplicitVersionCode;
  }

  lemma {:induction false} MoveToFront(a: seq<Group>, g: Group, b: seq<Group>, o: Options, resolve: string -> string)
    requires AllAccepted(a) && Accepted(g) && AllAccepted(b) && forall i :: 0 <= i < |a| ==> !SameFlag(g, a[i])
    ensures AllAccepted(a + [g] + b) && AllAccepted(a + b)
    ensures ApplyAll(a + [g] + b, o, resolve) == ApplyAll(a + b, Apply(g, o, resolve), resolve)
    decreases |a|
  {
    hide Accepted, Apply, SameFlag;
    if a == [] {
      assert a + [g] + b == [g] + b && ([g] + b)[1..] == b && a + b == b;
    } else {
      assert (a + [g] + b)[1..] == a[1..] + [g] + b && (a + b)[1..] == a[1..] + b;
      ApplyCommutes(g, a[0], o, resolve);
      MoveToFront(a[1..], g, b, Apply(a[0], o, resolve), resolve);
    }
  }

  lemma FlagsWithout(hs: seq<Group>, i: nat)
    requires i < |hs| && DistinctFlags(hs)
    ensures DistinctFlags(hs[..i] + hs[i + 1..])
  {
    hide SameFlag;
    var rest := hs[..i] + hs[i + 1..];
    forall j, k | 0 <= j < k < |rest| ensures !SameFlag(rest[j], rest[k]) {
      var j', k' := if j < i then j else j + 1, if k < i then k else k + 1;
      assert rest[j] == hs[j'] && rest[k] == hs[k'];
    }
  }

  /** The first of the groups is somewhere in the reordering. */
  lemma TakeOut(gs: seq<Group>, hs: seq<Group>) returns (a: seq<Group>, b: seq<Group>)
    requires gs != [] && multiset(gs) == multiset(hs) && DistinctFlags(hs)
    ensures hs == a + [gs[0]] + b && multiset(gs[1..]) == multiset(a + b) && DistinctFlags(a + b)
    ensures forall i :: 0 <= i < |a| ==> !SameFlag(gs[0], a[i])
  {
    hide SameFlag, DistinctFlags;
    assert gs[0] in multiset(hs);
    var i := IndexOf(hs, gs[0]);
    a, b := hs[..i], hs[i + 1..];
    DropHead(gs);
    DropAt(hs, i);
    FlagsWithout(hs, i);
    forall j | 0 <= j < |a| ensures !SameFlag(gs[0], a[j]) {
      FlagsDiffer(hs, j, i);
    }
  }

  lemma FlagsDiffer(hs: seq<Group>, j: nat, i: nat)
    requires DistinctFlags(hs) && j < i < |hs|
    ensures !SameFlag(hs[i], hs[j])
  {
    hide SameFlag;
    assert !SameFlag(hs[j], hs[i]);
    SameFlagSwaps(hs[j], hs[i]);
  }

  lemma SameFlagSwaps(g: Group, h: Group)
    ensures SameFlag(g, h) <==> SameFlag(h, g)
  {
  }

  lemma {:induction false} OrderOfApplying(gs: seq<Group>, hs: seq<Group>, o: Options, resolve: string -> string)
    requires AllAccepted(gs) && AllAccepted(hs) && DistinctFlags(hs) && multiset(gs) == multiset(hs)
    ensures ApplyAll(gs, o, resolve) == ApplyAll(hs, o, resolve)
    decreases |gs|
  {
    hide Accepted, Apply, SameFlag, DistinctFlags;
    if gs == [] {
      assert |multiset(hs)| == |hs| == 0;
    } else {
      var a, b := TakeOut(gs, hs);
      AcceptedParts(a, gs[0], b);
      MoveToFront(a, gs[0], b, o, resolve);
      OrderOfApplying(gs[1..], a + b, Apply(gs[0], o, resolve), resolve);
    }
  }

  lemma AcceptedParts(a: seq<Group>, g: Group, b: seq<Group>)
    requires AllAccepted(a + [g] + b)
    ensures AllAccepted(a) && Accepted(g) && AllAccepted(b)
  {
    hide Accepted;
    var s := a + [g] + b;
    forall i | 0 <= i < |a| ensures Accepted(a[i]) { assert s[i] == a[i]; }
    forall i | 0 <= i < |b| ensures Accepted(b[i]) { assert s[|a| + 1 + i] == b[i]; }
    assert s[|a|] == g;
  }

  /** Groups with different flags may be written in any order. */
  lemma OrderDoesNotMatter(gs: seq<Group>, hs: seq<Group>, resolve: string -> string)
    requires AllAccepted(gs) && AllAccepted(hs) && DistinctFlags(hs) && multiset(gs) == multiset(hs)
    ensures Parse(AllTokens(gs), resolve) == Parse(AllTokens(hs), resolve)
  {
    var d := Defaults(resolve);
    OrderOfApplying(gs, hs, d, resolve);
    ScanGroups(AllTokens(gs), 0, gs, d, resolve);
    ScanGroups(AllTokens(hs), 0, hs, d, resolve);
  }

  // ---------------------------------------------------------------------------------
  // Printing options

  function PrintGroups(o: Options): seq<Group> {
    [if o.explicitVersion.Some? then Version(o.explicitVersion.value) else FromGateway] +
    (if o.explicitVersionCode.Some? then [VersionCode(Decimal(o.explicitVersionCode.value))] else []) +
    (if o.sync then [] else [NoSync]) +
    [Root(o.rootDir)]
  }

  function Print(o: Options): seq<string> {
    AllTokens(PrintGroups(o))
  }

  lemma DecimalIsAccepted(n: nat)
    requires 1 <= n <= MAX_SAFE_INTEGER
    ensures Accepted(VersionCode(Decimal(n))) && ParseExplicitVersionCode(Decimal(n)) == Parsed(n)
  {
    DecimalIsDecimal(n);
    DigitsAreTrimmed(Decimal(n));
    VersionCodeAccepted(Decimal(n), n);
  }

  lemma DigitsAreTrimmed(s: string)
    requires AllDigits(s)
    ensures Trim(s) == s
  {
    if s != [] {
      assert IsDigit(s[0]) && IsDigit(s[|s| - 1]);
    }
  }

  lemma {:induction false} ApplyAppend(a: seq<Group>, b: seq<Group>, o: Options, resolve: string -> string)
    requires AllAccepted(a) && AllAccepted(b)
    ensures AllAccepted(a + b) && ApplyAll(a + b, o, resolve) == ApplyAll(b, ApplyAll(a, o, resolve), resolve)
    decreases |a|
  {
    hide Accepted, Apply;
    if a == [] {
      assert a + b == b;
    } else {
      assert (a + b)[1..] == a[1..] + b;
      ApplyAppend(a[1..], b, Apply(a[0], o, resolve), resolve);
    }
  }

  /** At most one group. */
  lemma ApplyFew(gs: seq<Group>, o: Options, resolve: string -> string)
    requires |gs| <= 1 && AllAccepted(gs)
    ensures ApplyAll(gs, o, resolve) == if gs == [] then o else Apply(gs[0], o, resolve)
  {
    hide Apply;
    if gs != [] { assert gs[1..] == []; }
  }

  lemma PrintedGroupsApply(o: Options, resolve: string -> string)
    requires Valid(o, resolve) && IsValue(o.rootDir) && resolve(o.rootDir) == o.rootDir
    ensures AllAccepted(PrintGroups(o)) && ApplyAll(PrintGroups(o), Defaults(resolve), resolve) == o
  {
    hide ParseExplicitVersionCode, ApplyAll, Trim, Decimal, IsValue;
    var a := [if o.explicitVersion.Some? then Version(o.explicitVersion.value) else FromGateway];
    var b := if o.explicitVersionCode.Some? then [VersionCode(Decimal(o.explicitVersionCode.value))] else [];
    var c := if o.sync then [] else [NoSync];
    var d := [Root(o.rootDir)];
    if o.explicitVersionCode.Some? { DecimalIsAccepted(o.explicitVersionCode.value); }
    assert AllAccepted(a) && AllAccepted(b) && AllAccepted(c) && AllAccepted(d);
    var p := Defaults(resolve);
    ApplyAppend(a, b, p, resolve);
    ApplyAppend(a + b, c, p, resolve);
    ApplyAppend(a + b + c, d, p, resolve);
    ApplyFew(a, p, resolve);
    var p1 := p.(explicitVersion := o.explicitVersion, fromGateway := o.fromGateway);
    assert ApplyAll(a, p, resolve) == p1;
    ApplyFew(b, p1, resolve);
    var p2 := p1.(explicitVersionCode := o.explicitVersionCode);
    assert ApplyAll(b, p1, resolve) == p2;
    ApplyFew(c, p2, resolve);
    var p3 := p2.(sync := o.sync);
    assert ApplyAll(c, p2, resolve) == p3;
    ApplyFew(d, p3, resolve);
  }

  lemma PrintedFlagsDiffer(o: Options)
    ensures DistinctFlags(PrintGroups(o))
  {
    hide Decimal;
  }

  /**
   Parsing inverts printing: for every options record the parser can return, with a root that is its own
   resolution, the printed tokens parse to that record, in whatever order the groups are written.
   */
  lemma ParseInvertsPrint(o: Options, gs: seq<Group>, resolve: string -> string)
    requires Valid(o, resolve) && IsValue(o.rootDir) && resolve(o.rootDir) == o.rootDir
    requires multiset(gs) == multiset(PrintGroups(o))
    ensures Parse(Print(o), resolve) == Parsed(o) == Parse(AllTokens(gs), resolve)
  {
    hide Parse, Valid, PrintGroups, ApplyAll, AllTokens, Accepted;
    PrintedGroupsApply(o, resolve);
    PrintedFlagsDiffer(o);
    assert AllAccepted(gs) by {
      forall i | 0 <= i < |gs| ensures Accepted(gs[i]) {
        assert gs[i] in multiset(PrintGroups(o));
      }
    }
    OrderDoesNotMatter(gs, PrintGroups(o), resolve);
    assert Check(o) == Parsed(o) by { CheckValid(o, resolve); }
    assert ReadsAs(Print(o), PrintGroups(o), o, resolve);
    ParsedIffGroups(Print(o), o, resolve);
  }

  lemma CheckValid(o: Options, resolve: string -> string)
    requires Valid(o, resolve)
    ensures Check(o) == Parsed(o)
  {
  }
}
