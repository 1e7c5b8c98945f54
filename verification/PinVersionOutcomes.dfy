/** What decides the outcome of the version script's parser: the first token that is no accepted group, if any. */
module PinVersionOutcomes {
  import opened Wrappers
  import opened Text
  import opened PinVersionArgs

  // ---------------------------------------------------------------------------------
  // What accepted groups say

  /** The last group with this flag. */
  function LastOf(gs: seq<Group>, flag: string): (r: Option<Group>)
    ensures r.Some? ==> Tokens(r.value)[0] == flag
  {
    if gs == [] then None
    else if LastOf(gs[1..], flag).Some? then LastOf(gs[1..], flag)
    else if Tokens(gs[0])[0] == flag then Some(gs[0])
    else None
  }

  ghost predicate IsLastAt(gs: seq<Group>, flag: string, i: nat) {
    i < |gs| && Tokens(gs[i])[0] == flag && forall j :: i < j < |gs| ==> Tokens(gs[j])[0] != flag
  }

  lemma {:induction false} LastOfMeans(gs: seq<Group>, flag: string) returns (i: nat)
    ensures match LastOf(gs, flag)
      case Some(g) => IsLastAt(gs, flag, i) && gs[i] == g
      case None => forall j :: 0 <= j < |gs| ==> Tokens(gs[j])[0] != flag
  {
    hide Tokens;
    i := 0;
    if gs != [] {
      var k := LastOfMeans(gs[1..], flag);
      if LastOf(gs[1..], flag).Some? { i := k + 1; }
    }
  }

  /** A flag without a value holds if it is there; an option has the value of its last group, or its default. */
  ghost predicate Says(gs: seq<Group>, o: Options, default: Options, resolve: string -> string) {
    o.fromGateway == (default.fromGateway || FromGateway in gs) &&
    o.sync == (default.sync && NoSync !in gs) &&
    (match LastOf(gs, "--version")
     case Some(Version(v)) => o.explicitVersion == Some(v)
     case _ => o.explicitVersion == default.explicitVersion) &&
    (match LastOf(gs, "--version-code")
     case Some(VersionCode(raw)) => o.explicitVersionCode.Some? && Trim(raw) == Decimal(o.explicitVersionCode.value)
     case _ => o.explicitVersionCode == default.explicitVersionCode) &&
    (match LastOf(gs, "--root")
     case Some(Root(p)) => o.rootDir == resolve(p)
     case _ => o.rootDir == default.rootDir)
  }

  lemma SaidByOne(g: Group, gs: seq<Group>, o: Options, end: Options, resolve: string -> string)
    requires Accepted(g) && Says(gs, end, Apply(g, o, resolve), resolve)
    ensures Says([g] + gs, end, o, resolve)
  {
    hide ParseExplicitVersionCode, Decimal, Trim;
    assert ([g] + gs)[1..] == gs;
    if g.VersionCode? { VersionCodeAccepted(g.raw, ParseExplicitVersionCode(g.raw).value); }
  }

  lemma {:induction false} AppliedIsSaid(gs: seq<Group>, o: Options, resolve: string -> string)
    requires AllAccepted(gs)
    ensures Says(gs, ApplyAll(gs, o, resolve), o, resolve)
    decreases |gs|
  {
    hide Accepted, Apply, Says;
    if gs == [] {
      NothingSaid(o, resolve);
    } else {
      var o' := Apply(gs[0], o, resolve);
      AppliedIsSaid(gs[1..], o', resolve);
      SaidByOne(gs[0], gs[1..], o, ApplyAll(gs[1..], o', resolve), resolve);
      assert gs == [gs[0]] + gs[1..];
    }
  }

  lemma NothingSaid(o: Options, resolve: string -> string)
    ensures Says([], o, o, resolve)
  {
  }

  // ---------------------------------------------------------------------------------
  // Where the tokens stop being accepted groups

  /** The next token asks for help. */
  predicate AsksForHelp(rest: seq<string>) {
    rest != [] && (rest[0] == "-h" || rest[0] == "--help")
  }

  ghost predicate IsNoDecimal(raw: string) {
    forall n: nat :: n > 0 ==> Trim(raw) != Decimal(n)
  }

  ghost predicate IsLargeDecimal(raw: string) {
    exists n: nat :: n > 9007199254740991 && Trim(raw) == Decimal(n)
  }

  /** The next token is no flag, or its value is missing or no version code. */
  ghost predicate Breaks(rest: seq<string>, e: Error) {
    rest != [] &&
    match e
    case UnknownArgument(arg) =>
      rest[0] == arg &&
      arg !in {"--from-gateway", "--version", "--version-code", "--no-sync", "--root", "-h", "--help"}
    case MissingValue(flag) =>
      rest[0] == flag && flag in {"--version", "--version-code", "--root"} &&
      (|rest| == 1 || rest[1] == "" || rest[1][0] == '-')
    case NotAPositiveInteger(raw) =>
      IsCode(rest, raw) && IsNoDecimal(raw)
    case NotASafeInteger(raw) =>
      IsCode(rest, raw) && IsLargeDecimal(raw)
    case ChooseOneSource => false
  }

  predicate IsCode(rest: seq<string>, raw: string) {
    |rest| > 1 && rest[0] == "--version-code" && rest[1] == raw && raw != "" && raw[0] != '-'
  }

  /** The groups name no source or two, or the last version is blank. */
  ghost predicate Contradicts(gs: seq<Group>, e: Error) {
    match e
    case ChooseOneSource => FromGateway in gs <==> LastOf(gs, "--version").Some?
    case MissingValue(flag) =>
      flag == "--version" && FromGateway !in gs &&
      exists v :: LastOf(gs, "--version") == Some(Version(v)) && Trim(v) == ""
    case _ => false
  }

  /** The tokens are accepted groups and then the rest. */
  ghost predicate SplitsInto(argv: seq<string>, gs: seq<Group>, rest: seq<string>) {
    AllAccepted(gs) && argv == AllTokens(gs) + rest
  }

  lemma CodeFails(raw: string, e: Error)
    ensures !ParseExplicitVersionCode(raw).Help?
    ensures ParseExplicitVersionCode(raw) == Failed(e) <==>
      (e == NotAPositiveInteger(raw) && IsNoDecimal(raw)) || (e == NotASafeInteger(raw) && IsLargeDecimal(raw))
  {
    hide Trim, Decimal, DigitsValue, AllDigits;
    var text := Trim(raw);
    if IsPositiveDecimal(text) {
      DecimalOfValue(text);
    }
    forall n: nat | n > 0 && text == Decimal(n) ensures IsPositiveDecimal(text) && DigitsValue(text) == n {
      DecimalIsDecimal(n);
    }
  }

  lemma StepFails(argv: seq<string>, index: nat, o: Options, resolve: string -> string, e: Error)
    requires index < |argv|
    ensures Step(argv, index, o, resolve) == Failed(e) <==> Breaks(argv[index..], e)
    ensures Step(argv, index, o, resolve) == Help <==> AsksForHelp(argv[index..])
  {
    hide ParseExplicitVersionCode, IsNoDecimal, IsLargeDecimal;
    var rest := argv[index..];
    assert rest[0] == argv[index] && (|rest| > 1 ==> rest[1] == argv[index + 1]);
    if |rest| > 1 {
      CodeFails(rest[1], e);
    }
  }

  /** Accepted groups are read one after the other. */
  lemma {:induction false} ScanPast(
    argv: seq<string>, index: nat, gs: seq<Group>, rest: seq<string>, o: Options, resolve: string -> string)
    requires index <= |argv| && SplitsInto(argv[index..], gs, rest)
    ensures var next := index + |AllTokens(gs)|;
      next <= |argv| && argv[next..] == rest &&
      Scan(argv, index, o, resolve) == Scan(argv, next, ApplyAll(gs, o, resolve), resolve)
    decreases |gs|
  {
    hide Step, Accepted, Apply;
    if gs == [] {
      assert [] + rest == rest;
    } else {
      var g, tail := gs[0], AllTokens(gs[1..]) + rest;
      var next := index + |Tokens(g)|;
      assert Accepted(g);
      assert argv[index..] == Tokens(g) + tail;
      assert Tokens(g) <= argv[index..] && |Tokens(g)| > 0;
      StepIsGroup(argv, index, g, o, resolve);
      assert argv[next..] == argv[index..][|Tokens(g)|..] == tail;
      ScanPast(argv, next, gs[1..], rest, Apply(g, o, resolve), resolve);
    }
  }

  /** Where the scan stops. */
  lemma {:induction false} ScanStops(argv: seq<string>, index: nat, o: Options, resolve: string -> string)
    returns (gs: seq<Group>, rest: seq<string>)
    requires index <= |argv|
    ensures SplitsInto(argv[index..], gs, rest)
    ensures match Scan(argv, index, o, resolve)
      case Parsed(o') => rest == [] && o' == ApplyAll(gs, o, resolve)
      case Help => AsksForHelp(rest)
      case Failed(e) => Breaks(rest, e)
    decreases |argv| - index
  {
    hide Step, Accepted, Apply, Tokens, Breaks, AsksForHelp;
    if index == |argv| {
      gs, rest := [], [];
    } else {
      match Step(argv, index, o, resolve)
      case Parsed((o', next)) =>
        var g := StepGivesGroup(argv, index, o, resolve);
        var more, end := ScanStops(argv, next, o', resolve);
        gs, rest := [g] + more, end;
        assert gs[1..] == more && argv[index..] == argv[index..next] + argv[next..];
        assert Tokens(g) + (AllTokens(more) + rest) == Tokens(g) + AllTokens(more) + rest;
      case Help =>
        gs, rest := [], argv[index..];
        StepFails(argv, index, o, resolve, ChooseOneSource);
        assert [] + rest == rest;
      case Failed(e) =>
        gs, rest := [], argv[index..];
        StepFails(argv, index, o, resolve, e);
        assert [] + rest == rest;
    }
  }

  lemma ScanAtBreak(argv: seq<string>, index: nat, o: Options, resolve: string -> string)
    requires index <= |argv|
    ensures index == |argv| ==> Scan(argv, index, o, resolve) == Parsed(o)
    ensures AsksForHelp(argv[index..]) ==> Scan(argv, index, o, resolve) == Help
    ensures forall e :: Breaks(argv[index..], e) ==> Scan(argv, index, o, resolve) == Failed(e)
  {
    hide Step, Breaks, AsksForHelp;
    if index < |argv| {
      forall e ensures Breaks(argv[index..], e) ==> Scan(argv, index, o, resolve) == Failed(e) {
        StepFails(argv, index, o, resolve, e);
      }
      StepFails(argv, index, o, resolve, ChooseOneSource);
    } else {
      assert argv[index..] == [];
      NothingLeft();
    }
  }

  lemma NothingLeft()
    ensures !AsksForHelp([]) && forall e :: !Breaks([], e)
  {
  }

  lemma CheckFails(gs: seq<Group>, o: Options, resolve: string -> string, e: Error)
    requires Says(gs, o, Defaults(resolve), resolve)
    ensures Check(o) == Failed(e) <==> Contradicts(gs, e)
  {
    hide Trim;
  }

  /** Help is given exactly when the first token that starts no accepted group asks for it. */
  lemma HelpIff(argv: seq<string>, resolve: string -> string)
    ensures Parse(argv, resolve) == Help <==> exists gs, rest :: SplitsInto(argv, gs, rest) && AsksForHelp(rest)
  {
    hide Scan, SplitsInto, AsksForHelp, Breaks, Accepted;
    var d := Defaults(resolve);
    assert argv[0..] == argv;
    if Parse(argv, resolve) == Help {
      var gs, rest := ScanStops(argv, 0, d, resolve);
    }
    forall gs, rest | SplitsInto(argv, gs, rest) && AsksForHelp(rest) ensures Parse(argv, resolve) == Help {
      AcceptedOf(argv, gs, rest);
      ScanPast(argv, 0, gs, rest, d, resolve);
      ScanAtBreak(argv, |AllTokens(gs)|, ApplyAll(gs, d, resolve), resolve);
    }
  }

  lemma AcceptedOf(argv: seq<string>, gs: seq<Group>, rest: seq<string>)
    requires SplitsInto(argv, gs, rest)
    ensures AllAccepted(gs)
  {
  }

  /**
   An error is thrown exactly when the first token that starts no accepted group breaks off with it, or when all
   tokens are accepted groups that contradict each other so.
   */
  lemma FailedIff(argv: seq<string>, e: Error, resolve: string -> string)
    ensures Parse(argv, resolve) == Failed(e) <==>
      (exists gs, rest :: SplitsInto(argv, gs, rest) && Breaks(rest, e)) ||
      (exists gs :: SplitsInto(argv, gs, []) && Contradicts(gs, e))
  {
    hide Scan, SplitsInto, AsksForHelp, Breaks, Accepted, Contradicts, Check, Says, Defaults;
    var d := Defaults(resolve);
    assert argv[0..] == argv;
    if Parse(argv, resolve) == Failed(e) {
      var gs, rest := ScanStops(argv, 0, d, resolve);
      AcceptedOf(argv, gs, rest);
      AppliedIsSaid(gs, d, resolve);
      CheckFails(gs, ApplyAll(gs, d, resolve), resolve, e);
    }
    forall gs, rest | SplitsInto(argv, gs, rest) && Breaks(rest, e) ensures Parse(argv, resolve) == Failed(e) {
      AcceptedOf(argv, gs, rest);
      ScanPast(argv, 0, gs, rest, d, resolve);
      ScanAtBreak(argv, |AllTokens(gs)|, ApplyAll(gs, d, resolve), resolve);
    }
    forall gs | SplitsInto(argv, gs, []) && Contradicts(gs, e) ensures Parse(argv, resolve) == Failed(e) {
      AcceptedOf(argv, gs, []);
      ScanPast(argv, 0, gs, [], d, resolve);
      ScanAtBreak(argv, |AllTokens(gs)|, ApplyAll(gs, d, resolve), resolve);
      AppliedIsSaid(gs, d, resolve);
      CheckFails(gs, ApplyAll(gs, d, resolve), resolve, e);
    }
  }
}
