/** `extractJsonPayloadFromText`: finding the JSON payload after arbitrary output. */
module JsonRecovery {
  import opened Wrappers
  import opened Text
  import opened Json
  import opened JsonDepth
  import opened JsonRoundTrip
  import opened JsonGrammar
  import opened JsonReader

  /** What the function returns, or which of its two errors it throws. */
  datatype Extraction = Payload(value: Value) | EmptyOutput | NoJson(firstSegment: string)

  /** Where `^` matches with the flag `m`: at the start and after a line terminator. */
  predicate IsLineStart(s: string, i: nat) {
    i == 0 || (i <= |s| && IsBreak(s[i - 1]))
  }

  /** A match of `/^[\[{]/gm`. */
  predicate IsCandidate(s: string, i: nat) {
    i < |s| && IsOpen(s[i]) && IsLineStart(s, i)
  }

  /** The value at the last candidate before k whose suffix is JSON. */
  function ScanBack(s: string, k: nat): Option<Value>
    requires k <= |s|
  {
    if k == 0 then None
    else if IsCandidate(s, k - 1) && Parse(s[k - 1..]).Some? then Parse(s[k - 1..])
    else ScanBack(s, k - 1)
  }

  function FirstSegment(s: string): string {
    if |s| <= 120 then s else s[..120]
  }

  function Extract(output: string): Extraction {
    var s := Trim(output);
    if s == [] then EmptyOutput
    else if Parse(s).Some? then Payload(Parse(s).value)
    else match ScanBack(s, |s|)
      case Some(v) => Payload(v)
      case None => NoJson(FirstSegment(s))
  }

  // ---------------------------------------------------------------------------------
  // The function as it is written

  ghost predicate IsCandidateList(s: string, k: nat, xs: seq<nat>) {
    (forall j :: 0 <= j < |xs| ==> xs[j] < k && IsCandidate(s, xs[j])) &&
    (forall i, j :: 0 <= i < j < |xs| ==> xs[i] < xs[j]) &&
    forall i :: 0 <= i < k && IsCandidate(s, i) ==> i in xs
  }

  method CandidateIndexes(s: string) returns (indexes: seq<nat>)
    ensures IsCandidateList(s, |s|, indexes)
  {
    indexes := [];
    for i := 0 to |s|
      invariant IsCandidateList(s, i, indexes)
    {
      if IsCandidate(s, i) {
        indexes := indexes + [i];
      }
    }
  }

  /** The list the loop runs down: the candidates, with 0 in front if it is not one. */
  ghost predicate IsScanList(s: string, xs: seq<nat>) {
    xs != [] && xs[0] == 0 &&
    (forall j :: 0 <= j < |xs| ==> xs[j] < |s| && (xs[j] == 0 || IsCandidate(s, xs[j]))) &&
    (forall i, j :: 0 <= i < j < |xs| ==> xs[i] < xs[j]) &&
    forall i :: 0 <= i < |s| && IsCandidate(s, i) ==> i in xs
  }

  function Next(s: string, xs: seq<nat>, j: nat): nat {
    if j + 1 < |xs| then xs[j + 1] else |s|
  }

  lemma ScanListGap(s: string, xs: seq<nat>, j: nat)
    requires IsScanList(s, xs) && j < |xs|
    ensures xs[j] < Next(s, xs, j) <= |s| && ScanBack(s, Next(s, xs, j)) == ScanBack(s, xs[j] + 1)
  {
    hide IsCandidate, Parse, ScanBack;
    var b := Next(s, xs, j);
    forall i | 0 <= i < |s| && IsCandidate(s, i) ensures i <= xs[j] || b <= i {
      var k := IndexOf(xs, i);
      assert k < j || k == j || k == j + 1 || j + 1 < k;
    }
    ScanBackSkips(s, xs[j] + 1, b);
  }

  lemma {:induction false} ScanBackSkips(s: string, from: nat, to: nat)
    requires from <= to <= |s| && forall i :: from <= i < to ==> !IsCandidate(s, i)
    ensures ScanBack(s, to) == ScanBack(s, from)
  {
    hide IsCandidate, Parse;
    if from < to {
      ScanBackSkips(s, from, to - 1);
    }
  }

  lemma SuffixIsTrimmed(s: string, i: nat)
    requires Trimmed(s) && i < |s| && (i == 0 || IsOpen(s[i]))
    ensures Trim(s[i..]) == s[i..]
  {
    var t := s[i..];
    assert t[0] == s[i] && t[|t| - 1] == s[|s| - 1];
  }

  /** The counting-down loop. */
  method TryCandidates(s: string, indexes: seq<nat>) returns (r: Option<Value>)
    requires Trimmed(s) && IsScanList(s, indexes)
    ensures r == ScanBack(s, |s|)
  {
    hide Trim, Parse;
    var index := |indexes| - 1;
    ghost var reached := |s|;
    while index >= 0
      invariant -1 <= index < |indexes|
      invariant index >= 0 ==> reached == Next(s, indexes, index)
      invariant index < 0 ==> reached == 0
      invariant reached <= |s| && ScanBack(s, |s|) == ScanBack(s, reached)
    {
      var start := indexes[index];
      ScanListGap(s, indexes, index);
      SuffixIsTrimmed(s, start);
      var candidate := Trim(s[start..]);
      if candidate != [] && IsOpen(candidate[0]) {
        var parsed := Parse(candidate);
        if parsed.Some? {
          return parsed;
        }
      }
      index, reached := index - 1, start;
    }
    return None;
  }

  method ExtractJsonPayloadFromText(output: string) returns (r: Extraction)
    ensures r == Extract(output)
  {
    hide Trim, Parse;
    var normalized := Trim(output);
    TrimIsTrimmed(output);
    if normalized == [] {
      return EmptyOutput;
    }
    var whole := Parse(normalized);
    if whole.Some? {
      return Payload(whole.value);
    }

    var candidateIndexes := CandidateIndexes(normalized);
    ghost var matched := candidateIndexes;
    if 0 !in candidateIndexes {
      candidateIndexes := [0] + candidateIndexes;
    } else {
      assert IndexOf(matched, 0) == 0;
    }
    var recovered := TryCandidates(normalized, candidateIndexes);
    r := match recovered
      case Some(v) => Payload(v)
      case None => NoJson(FirstSegment(normalized));
  }

  // ---------------------------------------------------------------------------------
  // What the function finds

  lemma {:induction false} ScanBackFinds(s: string, k: nat, i: nat)
    requires k <= |s| && i < k && IsCandidate(s, i) && Parse(s[i..]).Some?
    requires forall j :: i < j < k && IsCandidate(s, j) ==> Parse(s[j..]).None?
    ensures ScanBack(s, k) == Parse(s[i..])
  {
    hide IsCandidate, Parse;
    if i < k - 1 {
      ScanBackFinds(s, k - 1, i);
    }
  }

  lemma {:induction false} ScanBackFailsIff(s: string, k: nat)
    requires k <= |s|
    ensures ScanBack(s, k) == None <==> forall i :: 0 <= i < k && IsCandidate(s, i) ==> Parse(s[i..]).None?
  {
    hide IsCandidate, Parse;
    if k > 0 {
      ScanBackFailsIff(s, k - 1);
    }
  }

  /** The text denotes some value. */
  ghost predicate IsJson(t: string) {
    exists v :: Denotes(t, v)
  }

  lemma ParsesIffJson(t: string)
    ensures Parse(t).Some? <==> IsJson(t)
  {
    hide Parse, Denotes;
    if Parse(t).Some? {
      ParseIffDenotes(t, Parse(t).value);
    }
    forall v | Denotes(t, v) ensures Parse(t).Some? {
      ParseIffDenotes(t, v);
    }
  }

  /** The text from a bracket at the start of a line on. */
  ghost predicate IsLineSuffix(s: string, t: string) {
    exists p: string :: s == p + t && t != "" && t[0] in "[{" && (p == "" || p[|p| - 1] in "\n\r\U{2028}\U{2029}")
  }

  /** The last line suffix that is JSON. */
  ghost predicate IsLastJson(s: string, t: string) {
    IsLineSuffix(s, t) && IsJson(t) && forall u :: IsLineSuffix(s, u) && |u| < |t| ==> !IsJson(u)
  }

  /** The value of the whole text or, when the whole is not JSON, of its last line suffix that is. */
  ghost predicate Holds(s: string, v: Value) {
    Denotes(s, v) || (!IsJson(s) && exists t :: IsLastJson(s, t) && Denotes(t, v))
  }

  ghost predicate HoldsNone(s: string) {
    !IsJson(s) && forall t :: IsLineSuffix(s, t) ==> !IsJson(t)
  }

  lemma LineSuffixIff(s: string, t: string)
    ensures IsLineSuffix(s, t) <==> |t| <= |s| && s[|s| - |t|..] == t && IsCandidate(s, |s| - |t|)
  {
    var n := |s| - |t|;
    if 0 <= n && s[n..] == t {
      assert s == s[..n] + t;
    }
  }

  lemma CandidateIsSuffix(s: string, i: nat)
    requires IsCandidate(s, i)
    ensures IsLineSuffix(s, s[i..])
  {
    hide IsLineSuffix, IsLineStart;
    LineSuffixIff(s, s[i..]);
    assert |s| - |s[i..]| == i;
  }

  /** Where the scan stops. */
  lemma {:induction false} ScanBackStops(s: string, k: nat) returns (i: nat)
    requires k <= |s| && ScanBack(s, k).Some?
    ensures i < k && IsCandidate(s, i) && Parse(s[i..]) == ScanBack(s, k)
    ensures forall j :: i < j < k && IsCandidate(s, j) ==> Parse(s[j..]).None?
  {
    hide IsCandidate, Parse;
    if IsCandidate(s, k - 1) && Parse(s[k - 1..]).Some? {
      i := k - 1;
    } else {
      i := ScanBackStops(s, k - 1);
    }
  }

  /** Where the scan stops, the last line suffix that is JSON starts. */
  lemma StopIsLast(s: string) returns (t: string)
    requires ScanBack(s, |s|).Some?
    ensures IsLastJson(s, t) && Parse(t) == ScanBack(s, |s|)
  {
    hide IsCandidate, IsLineSuffix, Parse, IsJson;
    var i := ScanBackStops(s, |s|);
    t := s[i..];
    CandidateIsSuffix(s, i);
    ParsesIffJson(t);
    forall u | IsLineSuffix(s, u) && |u| < |t| ensures !IsJson(u) {
      LineSuffixIff(s, u);
      IsNotEmpty(s, u);
      ParsesIffJson(u);
    }
  }

  lemma LastIsFound(s: string, t: string)
    requires IsLastJson(s, t)
    ensures ScanBack(s, |s|) == Parse(t)
  {
    hide IsCandidate, IsLineSuffix, Parse, IsJson;
    LineSuffixIff(s, t);
    ParsesIffJson(t);
    var i := |s| - |t|;
    forall j | i < j < |s| && IsCandidate(s, j) ensures Parse(s[j..]).None? {
      CandidateIsSuffix(s, j);
      ParsesIffJson(s[j..]);
    }
    IsNotEmpty(s, t);
    ScanBackFinds(s, |s|, i);
  }

  lemma ScanBackMeans(s: string, v: Value)
    ensures ScanBack(s, |s|) == Some(v) <==> exists t :: IsLastJson(s, t) && Denotes(t, v)
  {
    hide ScanBack, IsLastJson, Parse, Denotes;
    if ScanBack(s, |s|) == Some(v) {
      var t := StopIsLast(s);
      ParseIffDenotes(t, v);
    }
    forall t | IsLastJson(s, t) && Denotes(t, v) ensures ScanBack(s, |s|) == Some(v) {
      LastIsFound(s, t);
      ParseIffDenotes(t, v);
    }
  }

  lemma IsNotEmpty(s: string, t: string)
    requires IsLineSuffix(s, t)
    ensures t != ""
  {
  }

  lemma ScanBackNone(s: string)
    ensures ScanBack(s, |s|) == None <==> forall t :: IsLineSuffix(s, t) ==> !IsJson(t)
  {
    hide IsCandidate, IsLineSuffix, Parse, IsJson;
    ScanBackFailsIff(s, |s|);
    if ScanBack(s, |s|) == None {
      forall t | IsLineSuffix(s, t) ensures !IsJson(t) {
        LineSuffixIff(s, t);
        IsNotEmpty(s, t);
        ParsesIffJson(t);
      }
    } else {
      var i := ScanBackStops(s, |s|);
      CandidateIsSuffix(s, i);
      ParsesIffJson(s[i..]);
    }
  }

  lemma EmptyIsNotJson()
    ensures !IsJson("")
  {
    ParsesIffJson("");
  }

  /**
   The output between the white space at its ends is empty, or it holds a value, which is returned, or none; the
   error then quotes its first 120 characters.
   */
  lemma ExtractMeaning(a: string, s: string, b: string)
    requires AllSpace(a) && Trimmed(s) && AllSpace(b)
    ensures Extract(a + s + b) == EmptyOutput <==> s == ""
    ensures forall v :: Extract(a + s + b) == Payload(v) <==> Holds(s, v)
    ensures Extract(a + s + b).NoJson? <==> s != "" && HoldsNone(s)
    ensures var r := Extract(a + s + b);
      r.NoJson? ==> r.firstSegment <= s && if |s| < 120 then r.firstSegment == s else |r.firstSegment| == 120
  {
    hide Trim, AllSpace, Trimmed, Parse, IsJson, Denotes, IsLastJson, IsLineSuffix, IsCandidate;
    TrimMeans(a, s, b);
    ParsesIffJson(s);
    ScanBackNone(s);
    EmptyIsNotJson();
    forall v ensures Extract(a + s + b) == Payload(v) <==> Holds(s, v) {
      ParseIffDenotes(s, v);
      ScanBackMeans(s, v);
      if s == "" {
        EmptyHoldsNothing(v);
      }
    }
  }

  lemma EmptyHoldsNothing(v: Value)
    ensures !Holds("", v)
  {
    hide Denotes, IsJson;
    EmptyIsNotJson();
    assert !Denotes("", v) by {
      ParseIffDenotes("", v);
    }
  }

  /** The text ends where a line starts. */
  predicate WholeLines(before: string) {
    before == "" || before[|before| - 1] in "\n\r\U{2028}\U{2029}"
  }

  /** An array or object text, without white space at its ends. */
  ghost predicate IsContainer(t: string) {
    t != [] && IsOpen(t[0]) && !IsSpace(t[|t| - 1]) && Parse(t).Some?
  }

  lemma SpelledContainer(t: string, v: Value)
    requires Spells(t, v) && (v.Arr? || v.Obj?)
    ensures IsContainer(t) && Parse(t) == Some(v)
  {
    hide DenotesItems, DenotesMembers, Parse;
    assert t == "" + t + "";
    assert Denotes(t, v);
    ParseIffDenotes(t, v);
  }

  /**
   Whatever came before on earlier lines, if anything, and whatever white space follows: every text of an array
   or object gives that array or object.
   */
  lemma PayloadIsRecovered(before: string, t: string, v: Value, w: string)
    requires WholeLines(before) && Spells(t, v) && (v.Arr? || v.Obj?) && AllSpace(w)
    ensures Extract(before + t + w) == Payload(v)
  {
    hide Parse, Spells;
    SpelledContainer(t, v);
    if before == "" {
      NothingBefore(t, w);
    } else {
      var p, eol := before[..|before| - 1], before[|before| - 1];
      assert before == p + [eol];
      NormalizedOutput(p, eol, t, w);
      if !AllSpace(p) {
        TrimStartKeeps(p);
        LogThenPayload(TrimStart(p), eol, t);
      }
    }
  }

  lemma NothingBefore(t: string, w: string)
    requires t != [] && IsOpen(t[0]) && !IsSpace(t[|t| - 1]) && AllSpace(w)
    ensures Trim("" + t + w) == t
  {
    assert "" + t + w == t + w && (t + w)[0] == t[0];
    TrimEndAppend(t, w);
  }

  /** Trimming removes what follows the payload and, when there is only white space, what precedes it. */
  lemma NormalizedOutput(p: string, eol: char, t: string, w: string)
    requires t != [] && IsOpen(t[0]) && !IsSpace(t[|t| - 1]) && AllSpace(w) && IsBreak(eol)
    ensures Trim(p + [eol] + t + w) == if AllSpace(p) then t else TrimStart(p) + [eol] + t
    ensures !AllSpace(p) ==> TrimStart(p) != []
  {
    hide TrimStart, TrimEnd, AllSpace;
    var body := [eol] + t + w;
    Regroup(p, eol, t, w);
    TrimStartAppend(p, body);
    if AllSpace(p) {
      TrimOnlyPayload(eol, t, w);
    } else {
      TrimStartKeeps(p);
      Regroup(TrimStart(p), eol, t, w);
      TrimLogged(TrimStart(p), eol, t, w);
    }
  }

  lemma Regroup(p: string, eol: char, t: string, w: string)
    ensures p + [eol] + t + w == p + ([eol] + t + w)
  {
  }

  lemma TrimOnlyPayload(eol: char, t: string, w: string)
    requires t != [] && IsOpen(t[0]) && !IsSpace(t[|t| - 1]) && AllSpace(w) && IsBreak(eol)
    ensures Trim([eol] + t + w) == t
  {
    var body := [eol] + t + w;
    assert body[1..] == t + w && (t + w)[0] == t[0];
    assert TrimStart(body) == TrimStart(body[1..]) == t + w;
    TrimEndAppend(t, w);
  }

  lemma TrimLogged(q: string, eol: char, t: string, w: string)
    requires t != [] && !IsSpace(t[|t| - 1]) && AllSpace(w)
    ensures TrimEnd(q + [eol] + t + w) == q + [eol] + t
  {
    var s := q + [eol] + t;
    assert s[|s| - 1] == t[|t| - 1];
    TrimEndAppend(s, w);
  }

  lemma LogThenPayload(q: string, eol: char, t: string)
    requires q != [] && !IsSpace(q[0]) && IsContainer(t) && IsBreak(eol)
    ensures var s := q + [eol] + t; Parse(s).None? && ScanBack(s, |s|) == Parse(t)
  {
    hide Parse;
    var s, n := q + [eol] + t, |q| + 1;
    PrefixedFails(q, eol, t);
    assert s[n..] == t && s[n - 1] == eol && s[n] == t[0];
    forall j | n < j < |s| && IsCandidate(s, j) ensures Parse(s[j..]).None? {
      assert s[j..] == t[j - n..] && s[j] == t[j - n];
      NoSuffixParses(t, j - n);
    }
    ScanBackFinds(s, |s|, n);
  }

  /** The report file, or a probe's output that ends with it, gives the reported value back. */
  lemma ReportIsRecovered(before: string, v: Value)
    requires WholeLines(before) && WellFormed(v) && (v.Arr? || v.Obj?)
    ensures Extract(before + Stringify(v) + "\n") == Payload(v)
  {
    hide Parse, Extract, Spells;
    var t := Stringify(v);
    ParseStringify(v);
    StringifySpells(v);
    PayloadIsRecovered(before, t, v, "\n");
  }

  /** A printed array or object has no white space at its ends. */
  lemma StringifySpells(v: Value)
    requires WellFormed(v) && (v.Arr? || v.Obj?)
    ensures Spells(Stringify(v), v)
  {
    hide Parse, Spells;
    var t := Stringify(v);
    ParseStringify(v);
    ParseIffDenotes(t, v);
    StringifyEnds(v);
    var a, x, b :| t == a + x + b && White(a) && Spells(x, v) && White(b);
    WhiteIsSpace(a);
    WhiteIsSpace(b);
    SpaceEnds(a, x, b);
    assert t == x;
  }

  lemma WhiteIsSpace(s: string)
    requires White(s)
    ensures AllSpace(s)
  {
  }

  lemma StringifyEnds(v: Value)
    requires v.Arr? || v.Obj?
    ensures var t := Stringify(v); t != [] && IsOpen(t[0]) && !IsSpace(t[|t| - 1])
  {
    hide PrintItems, PrintMembers;
    match v
    case Arr(NoValues) =>
    case Obj(NoMembers) =>
    case Arr(vs) =>
      assert Stringify(v) == "[\n" + PrintItems(vs, "" + "  ") + "\n" + "" + "]";
    case Obj(ms) =>
      assert Stringify(v) == "{\n" + PrintMembers(ms, "" + "  ") + "\n" + "" + "}";
  }

  /** On a text that is an array or object, the early parse returns what the scan alone would find. */
  lemma EarlyParseAgrees(s: string, v: Value)
    requires Spells(s, v) && (v.Arr? || v.Obj?)
    ensures Parse(s) == Some(v) && ScanBack(s, |s|) == Some(v)
  {
    hide Parse, Spells;
    SpelledContainer(s, v);
    assert s[0..] == s;
    forall j | 0 < j < |s| && IsCandidate(s, j) ensures Parse(s[j..]).None? {
      NoSuffixParses(s, j);
    }
    ScanBackFinds(s, |s|, 0);
  }
}
