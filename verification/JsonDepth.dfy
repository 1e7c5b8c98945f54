/**
 A scanner that only counts brackets and quotes, and what it does along JSON text: an array or object
 stays open until its last character, so no proper suffix of it that starts at a bracket is JSON.
 */
module JsonDepth {
  import opened Text
  import opened Json

  datatype Mode = Normal | InString | Escaped | Bad
  datatype State = State(mode: Mode, depth: int)

  predicate IsOpen(c: char) { c == '[' || c == '{' }
  predicate IsClose(c: char) { c == ']' || c == '}' }

  function Step(st: State, c: char): State {
    match st.mode
    case Normal =>
      if c == '"' then State(InString, st.depth)
      else if c == '\\' then State(Bad, st.depth)
      else if IsOpen(c) then State(Normal, st.depth + 1)
      else if IsClose(c) then State(Normal, st.depth - 1)
      else st
    case InString =>
      if c as int < 32 then State(Bad, st.depth)
      else if c == '"' then State(Normal, st.depth)
      else if c == '\\' then State(Escaped, st.depth)
      else st
    case Escaped =>
      if c == 'u' || Unescape(c).Some? then State(InString, st.depth) else State(Bad, st.depth)
    case Bad => st
  }

  /** The state after the first k characters. */
  function Walk(s: string, k: nat, st: State): State
    requires k <= |s|
  {
    if k == 0 then st else Walk(s[1..], k - 1, Step(st, s[0]))
  }

  lemma {:induction false} WalkSplit(s: string, a: nat, b: nat, st: State)
    requires a + b <= |s|
    ensures Walk(s, a + b, st) == Walk(s[a..], b, Walk(s, a, st))
  {
    if a == 0 {
      assert s[0..] == s;
    } else {
      WalkSplit(s[1..], a - 1, b, Step(st, s[0]));
      assert s[1..][a - 1..] == s[a..];
    }
  }

  lemma WalkStep(s: string, k: nat, st: State)
    requires k < |s|
    ensures Walk(s, k + 1, st) == Step(Walk(s, k, st), s[k])
  {
    WalkSplit(s, k, 1, st);
    assert s[k..][0] == s[k];
    assert Walk(s[k..], 1, Walk(s, k, st)) == Walk(s[k..][1..], 0, Step(Walk(s, k, st), s[k]));
  }

  /** Starting deeper only shifts the depth. */
  lemma {:induction false} WalkShift(s: string, k: nat, st: State, shift: int)
    requires k <= |s|
    ensures Walk(s, k, State(st.mode, st.depth + shift)) ==
            State(Walk(s, k, st).mode, Walk(s, k, st).depth + shift)
  {
    if k > 0 {
      WalkShift(s[1..], k - 1, Step(st, s[0]), shift);
    }
  }

  lemma {:induction false} BadStays(s: string, k: nat, st: State)
    requires k <= |s| && st.mode == Bad
    ensures Walk(s, k, st) == st
  {
    if k > 0 {
      BadStays(s[1..], k - 1, st);
    }
  }

  /** Two scans of one text, one of them inside a string, never both end outside. */
  ghost predicate Opposite(a: Mode, b: Mode) {
    (a == Normal && b == InString) || (a == InString && b == Normal)
  }

  lemma {:induction false} OppositeStays(s: string, a: State, b: State)
    requires Opposite(a.mode, b.mode)
    ensures var x, y := Walk(s, |s|, a).mode, Walk(s, |s|, b).mode; Opposite(x, y) || x == Bad || y == Bad
  {
    if s != [] {
      var a', b' := Step(a, s[0]), Step(b, s[0]);
      if a'.mode == Bad {
        BadStays(s[1..], |s| - 1, a');
      } else if b'.mode == Bad {
        BadStays(s[1..], |s| - 1, b');
      } else {
        OppositeStays(s[1..], a', b');
      }
    }
  }

  // ---------------------------------------------------------------------------------
  // Reading a prefix of a text returns the scanner to where it was

  function Used(s: string, rest: string): nat
    requires |rest| <= |s|
  {
    |s| - |rest|
  }

  ghost predicate Above(st: State, d: int) {
    st.mode != Bad && st.depth >= d
  }

  ghost predicate Suffix(s: string, rest: string) {
    |rest| <= |s| && s[|s| - |rest|..] == rest
  }

  /** The scan from `from` through the text before `rest` ends in `to` and never falls below depth d. */
  ghost predicate Spans(s: string, rest: string, from: State, to: State, d: int) {
    Suffix(s, rest) && Walk(s, Used(s, rest), from) == to &&
    forall k :: 0 <= k <= Used(s, rest) ==> Above(Walk(s, k, from), d)
  }

  lemma SpansTrans(s: string, t: string, u: string, a: State, b: State, c: State, d: int)
    requires Spans(s, t, a, b, d) && Spans(t, u, b, c, d)
    ensures Spans(s, u, a, c, d)
  {
    var n, m := Used(s, t), Used(t, u);
    assert s[n..] == t;
    assert s[n + m..] == t[m..] == u;
    WalkSplit(s, n, m, a);
    forall k | 0 <= k <= n + m ensures Above(Walk(s, k, a), d) {
      if k > n {
        WalkSplit(s, n, k - n, a);
      }
    }
  }

  lemma SpansRefl(s: string, a: State, d: int)
    requires Above(a, d)
    ensures Spans(s, s, a, a, d)
  {
    assert s[0..] == s;
  }

  lemma SpansOne(s: string, a: State, d: int)
    requires s != [] && Above(a, d) && Above(Step(a, s[0]), d)
    ensures Spans(s, s[1..], a, Step(a, s[0]), d)
  {
    WalkStep(s, 0, a);
  }

  /** Characters that the scanner passes over outside strings. */
  predicate Plain(c: char) {
    c != '"' && c != '\\' && !IsOpen(c) && !IsClose(c)
  }

  lemma {:induction false} PlainSpans(s: string, n: nat, d: int)
    requires n <= |s| && forall i :: 0 <= i < n ==> Plain(s[i])
    ensures Spans(s, s[n..], State(Normal, d), State(Normal, d), d)
  {
    var st := State(Normal, d);
    if n == 0 {
      SpansRefl(s, st, d);
      assert s[0..] == s;
    } else {
      SpansOne(s, st, d);
      PlainSpans(s[1..], n - 1, d);
      assert s[1..][n - 1..] == s[n..];
      SpansTrans(s, s[1..], s[n..], st, st, st, d);
    }
  }

  /** Code read outside strings leaves the scanner unchanged. */
  ghost predicate Balanced(s: string, rest: string, d: int) {
    Spans(s, rest, State(Normal, d), State(Normal, d), d)
  }

  lemma BalancedTrans(s: string, t: string, u: string, d: int)
    requires Balanced(s, t, d) && Balanced(t, u, d)
    ensures Balanced(s, u, d)
  {
    SpansTrans(s, t, u, State(Normal, d), State(Normal, d), State(Normal, d), d);
  }

  lemma {:induction false} SkipBalanced(s: string, d: int)
    ensures Balanced(s, SkipWs(s), d)
  {
    if s != [] && IsWs(s[0]) {
      PlainSpans(s, 1, d);
      SkipBalanced(s[1..], d);
      BalancedTrans(s, s[1..], SkipWs(s), d);
    } else {
      SpansRefl(s, State(Normal, d), d);
    }
  }

  /** One plain character and the white space after it. */
  lemma PunctuationBalanced(s: string, d: int)
    requires s != [] && Plain(s[0])
    ensures Balanced(s, SkipWs(s[1..]), d)
  {
    PlainSpans(s, 1, d);
    SkipBalanced(s[1..], d);
    BalancedTrans(s, s[1..], SkipWs(s[1..]), d);
  }

  predicate NumberChar(c: char) {
    IsDigit(c) || c == '.' || c == 'e' || c == 'E' || c == '+' || c == '-'
  }

  lemma DigitsChars(s: string, k: nat)
    requires k <= |s|
    ensures forall i :: k <= i < k + Digits(s[k..]) ==> NumberChar(s[i])
  {
    forall i | k <= i < k + Digits(s[k..]) ensures NumberChar(s[i]) {
      assert s[i] == s[k..][i - k];
    }
  }

  lemma FracExpChars(s: string)
    requires FracExpLen(s).Some?
    ensures forall i :: 0 <= i < FracExpLen(s).value ==> NumberChar(s[i])
  {
    var f := FracLen(s).value;
    if f > 0 { DigitsChars(s, 1); }
    var t := s[f..];
    var e := ExpLen(t).value;
    if e > 0 {
      var sign := if |t| > 1 && (t[1] == '+' || t[1] == '-') then 2 else 1;
      DigitsChars(t, sign);
    }
    forall i | f <= i < f + e ensures NumberChar(s[i]) {
      assert s[i] == t[i - f];
    }
  }

  lemma UnsignedChars(s: string)
    requires UnsignedLen(s).Some?
    ensures forall i :: 0 <= i < UnsignedLen(s).value ==> NumberChar(s[i])
  {
    var n := IntLen(s).value;
    FracExpChars(s[n..]);
    forall i | n <= i < UnsignedLen(s).value ensures NumberChar(s[i]) {
      assert s[i] == s[n..][i - n];
    }
  }

  lemma NumberChars(s: string)
    requires NumberLen(s).Some?
    ensures forall i :: 0 <= i < NumberLen(s).value ==> NumberChar(s[i])
  {
    if s[0] == '-' {
      UnsignedChars(s[1..]);
      forall i | 1 <= i < NumberLen(s).value ensures NumberChar(s[i]) {
        assert s[i] == s[1..][i - 1];
      }
    } else {
      UnsignedChars(s);
    }
  }

  lemma StartsChars(s: string, p: string)
    requires Starts(s, p)
    ensures |p| <= |s| && forall i :: 0 <= i < |p| ==> s[i] == p[i]
  {
    assert forall i :: 0 <= i < |p| ==> s[i] == s[..|p|][i];
  }

  /** The line terminators of JavaScript. */
  predicate IsBreak(c: char) {
    c in "\n\r\U{2028}\U{2029}"
  }

  /** A literal or number uses plain characters and no line break. */
  lemma ScalarChars(s: string)
    requires ParseScalar(s).Got?
    ensures Suffix(s, ParseScalar(s).rest)
    ensures forall i :: 0 <= i < Used(s, ParseScalar(s).rest) ==> Plain(s[i]) && !IsBreak(s[i])
  {
    hide NumberLen, Starts;
    if Starts(s, "null") {
      StartsChars(s, "null");
    } else if Starts(s, "true") {
      StartsChars(s, "true");
    } else if Starts(s, "false") {
      StartsChars(s, "false");
    } else {
      NumberChars(s);
    }
  }

  lemma ScalarBalanced(s: string, d: int)
    requires ParseScalar(s).Got?
    ensures Balanced(s, ParseScalar(s).rest, d)
  {
    hide ParseScalar, Spans;
    ScalarChars(s);
    PlainSpans(s, Used(s, ParseScalar(s).rest), d);
  }

  // Strings: between the quotes the scanner is never in normal mode

  ghost predicate Inside(s: string, rest: string, d: int) {
    Spans(s, rest, State(InString, d), State(InString, d), d) &&
    forall k :: 0 <= k <= Used(s, rest) ==> Walk(s, k, State(InString, d)).mode != Normal
  }

  lemma InsideOne(s: string, d: int)
    requires s != [] && s[0] as int >= 32 && s[0] != '"' && s[0] != '\\'
    ensures Inside(s, s[1..], d)
  {
    WalkStep(s, 0, State(InString, d));
  }

  lemma InsideEscape(s: string, d: int)
    requires |s| >= 2 && s[0] == '\\' && (s[1] == 'u' || Unescape(s[1]).Some?)
    ensures Inside(s, s[2..], d)
  {
    var st := State(InString, d);
    WalkStep(s, 0, st);
    WalkStep(s, 1, st);
  }

  lemma InsideTrans(s: string, t: string, u: string, d: int)
    requires Inside(s, t, d) && Inside(t, u, d)
    ensures Inside(s, u, d)
  {
    var st := State(InString, d);
    SpansTrans(s, t, u, st, st, st, d);
    var n := Used(s, t);
    forall k | 0 <= k <= Used(s, u) ensures Walk(s, k, st).mode != Normal {
      if k > n {
        WalkSplit(s, n, k - n, st);
        assert s[n..] == t;
      }
    }
  }

  lemma HexInside(s: string, d: int)
    requires |s| >= 4 && Hex4(s).Some?
    ensures Inside(s, s[4..], d)
  {
    InsideOne(s, d);
    InsideOne(s[1..], d);
    InsideOne(s[2..], d);
    InsideOne(s[3..], d);
    InsideTrans(s, s[1..], s[2..], d);
    InsideTrans(s, s[2..], s[3..], d);
    InsideTrans(s, s[3..], s[4..], d);
  }

  lemma CharInside(s: string, d: int)
    requires ParseChar(s).Got?
    ensures Inside(s, ParseChar(s).rest, d)
  {
    if s[0] != '\\' {
      InsideOne(s, d);
    } else {
      InsideEscape(s, d);
      if s[1] == 'u' {
        HexInside(s[2..], d);
        InsideTrans(s, s[2..], s[6..], d);
      }
    }
  }

  /** From the opening quote through the closing one; normal mode only outside. */
  ghost predicate Quoted(s: string, rest: string, d: int) {
    Balanced(s, rest, d) && Used(s, rest) > 0 &&
    forall k :: 0 < k < Used(s, rest) ==> Walk(s, k, State(Normal, d)).mode != Normal
  }

  ghost predicate Unclosed(s: string, rest: string, d: int) {
    Spans(s, rest, State(InString, d), State(Normal, d), d) && Used(s, rest) > 0 &&
    forall k :: 0 <= k < Used(s, rest) ==> Walk(s, k, State(InString, d)).mode != Normal
  }

  lemma UnclosedTrans(s: string, t: string, u: string, d: int)
    requires Inside(s, t, d) && Unclosed(t, u, d)
    ensures Unclosed(s, u, d)
  {
    var st := State(InString, d);
    SpansTrans(s, t, u, st, st, State(Normal, d), d);
    var n := Used(s, t);
    forall k | 0 <= k < Used(s, u) ensures Walk(s, k, st).mode != Normal {
      if k > n {
        WalkSplit(s, n, k - n, st);
        assert s[n..] == t;
      }
    }
  }

  lemma {:induction false} CharsUnclosed(s: string, d: int)
    requires ParseChars(s).Got?
    ensures Unclosed(s, ParseChars(s).rest, d)
    decreases |s|
  {
    if s[0] == '"' {
      WalkStep(s, 0, State(InString, d));
    } else {
      var r := ParseChar(s).rest;
      CharInside(s, d);
      CharsUnclosed(r, d);
      UnclosedTrans(s, r, ParseChars(r).rest, d);
    }
  }

  lemma StringQuoted(s: string, d: int)
    requires s != [] && s[0] == '"' && ParseChars(s[1..]).Got?
    ensures Quoted(s, ParseChars(s[1..]).rest, d)
  {
    var st, rest := State(Normal, d), ParseChars(s[1..]).rest;
    CharsUnclosed(s[1..], d);
    SpansOne(s, st, d);
    SpansTrans(s, s[1..], rest, st, State(InString, d), st, d);
    forall k | 0 < k < Used(s, rest) ensures Walk(s, k, st).mode != Normal {
      WalkSplit(s, 1, k - 1, st);
      WalkStep(s, 0, st);
    }
  }

  // Arrays and objects

  /** From the opening bracket through the closing one: strictly deeper in between. */
  ghost predicate Enclosed(s: string, rest: string, d: int) {
    Balanced(s, rest, d) &&
    forall k :: 0 < k < Used(s, rest) ==> Above(Walk(s, k, State(Normal, d)), d + 1)
  }

  lemma EncloseBody(s: string, body: string, d: int)
    requires s != [] && IsOpen(s[0]) && Balanced(s[1..], body, d + 1) && body != [] && IsClose(body[0])
    ensures Enclosed(s, body[1..], d)
  {
    var low, high := State(Normal, d), State(Normal, d + 1);
    SpansOne(s, low, d);
    WalkStep(s, 0, low);
    var n := Used(s[1..], body);
    var rest := body[1..];
    assert s[1..][n..] == body && s[n + 1..] == body && s[n + 2..] == rest;
    WalkSplit(s, 1, n, low);
    WalkStep(s, n + 1, low);
    assert s[n + 1] == s[n + 1..][0];
    assert Walk(s, n + 2, low) == low;
    forall k | 0 < k < n + 2 ensures Above(Walk(s, k, low), d + 1) {
      WalkSplit(s, 1, k - 1, low);
    }
  }

  /** A list body: what is read is balanced, and the next character closes it. */
  ghost predicate Body(s: string, rest: string, d: int) {
    exists body :: Balanced(s, body, d) && body != [] && IsClose(body[0]) && body[1..] == rest
  }

  lemma BodyTrans(s: string, t: string, rest: string, d: int)
    requires Balanced(s, t, d) && Body(t, rest, d)
    ensures Body(s, rest, d)
  {
    var body :| Balanced(t, body, d) && body != [] && IsClose(body[0]) && body[1..] == rest;
    BalancedTrans(s, t, body, d);
  }

  lemma EncloseList(s: string, rest: string, d: int)
    requires s != [] && IsOpen(s[0]) && Body(SkipWs(s[1..]), rest, d + 1)
    ensures Enclosed(s, rest, d)
  {
    SkipBalanced(s[1..], d + 1);
    BodyTrans(s[1..], SkipWs(s[1..]), rest, d + 1);
    var body :| Balanced(s[1..], body, d + 1) && body != [] && IsClose(body[0]) && body[1..] == rest;
    EncloseBody(s, body, d);
  }

  lemma EmptyBody(t: string, d: int)
    requires t != [] && IsClose(t[0])
    ensures Body(t, t[1..], d)
  {
    SpansRefl(t, State(Normal, d), d);
  }

  lemma {:induction false} ContainerEnclosed(s: string, d: int)
    requires s != [] && IsOpen(s[0]) && ParseValue(s).Got?
    ensures Enclosed(s, ParseValue(s).rest, d)
    decreases |s|, 0
  {
    hide Body, Enclosed;
    var t := SkipWs(s[1..]);
    if t != [] && IsClose(t[0]) && (s[0] == '[' <==> t[0] == ']') {
      EmptyBody(t, d + 1);
    } else if s[0] == '[' {
      ItemsBody(t, d + 1);
    } else {
      MembersBody(t, d + 1);
    }
    EncloseList(s, ParseValue(s).rest, d);
  }

  lemma {:induction false} ValueBalanced(s: string, d: int)
    requires ParseValue(s).Got?
    ensures Balanced(s, ParseValue(s).rest, d)
    decreases |s|, 1
  {
    if s[0] == '"' {
      StringQuoted(s, d);
    } else if IsOpen(s[0]) {
      ContainerEnclosed(s, d);
    } else {
      ScalarBalanced(s, d);
    }
  }

  lemma {:induction false} ItemsBody(s: string, d: int)
    requires ParseItems(s).Got?
    ensures Body(s, ParseItems(s).rest, d)
    decreases |s|, 2
  {
    hide Balanced, Body, ParseValue;
    var rest := ParseValue(s).rest;
    var t := SkipWs(rest);
    ValueBalanced(s, d);
    SkipBalanced(rest, d);
    BalancedTrans(s, rest, t, d);
    if t[0] == ']' {
      EmptyBody(t, d);
    } else {
      PunctuationBalanced(t, d);
      ItemsBody(SkipWs(t[1..]), d);
      BodyTrans(t, SkipWs(t[1..]), ParseItems(s).rest, d);
    }
    BodyTrans(s, t, ParseItems(s).rest, d);
  }

  lemma KeyBalanced(s: string, d: int)
    requires ParseKey(s).Got?
    ensures Balanced(s, ParseKey(s).rest, d)
  {
    var rest := ParseChars(s[1..]).rest;
    var t := SkipWs(rest);
    StringQuoted(s, d);
    SkipBalanced(rest, d);
    BalancedTrans(s, rest, t, d);
    PunctuationBalanced(t, d);
    BalancedTrans(s, t, SkipWs(t[1..]), d);
  }

  lemma {:induction false} MembersBody(s: string, d: int)
    requires ParseMembers(s).Got?
    ensures Body(s, ParseMembers(s).rest, d)
    decreases |s|, 2
  {
    hide Balanced, Body, ParseValue, ParseKey;
    var value := ParseKey(s).rest;
    var rest := ParseValue(value).rest;
    var t := SkipWs(rest);
    KeyBalanced(s, d);
    ValueBalanced(value, d);
    BalancedTrans(s, value, rest, d);
    SkipBalanced(rest, d);
    BalancedTrans(s, rest, t, d);
    if t[0] == '}' {
      EmptyBody(t, d);
    } else {
      PunctuationBalanced(t, d);
      MembersBody(SkipWs(t[1..]), d);
      BodyTrans(t, SkipWs(t[1..]), ParseMembers(s).rest, d);
    }
    BodyTrans(s, t, ParseMembers(s).rest, d);
  }

  // ---------------------------------------------------------------------------------
  // Whole texts

  lemma ParseBalanced(s: string, d: int)
    requires Parse(s).Some?
    ensures Balanced(s, [], d)
  {
    hide Balanced;
    var t := SkipWs(s);
    var rest := ParseValue(t).rest;
    SkipBalanced(s, d);
    ValueBalanced(t, d);
    SkipBalanced(rest, d);
    BalancedTrans(s, t, rest, d);
    BalancedTrans(s, rest, [], d);
  }

  lemma {:induction false} SkipNothingLeft(s: string)
    requires SkipWs(s) == []
    ensures forall i :: 0 <= i < |s| ==> IsWs(s[i])
  {
    if s != [] {
      SkipNothingLeft(s[1..]);
      assert s == [s[0]] + s[1..];
    }
  }

  lemma SuffixLast(s: string, rest: string)
    requires Suffix(s, rest) && rest != []
    ensures s[|s| - 1] == rest[|rest| - 1]
  {
  }

  /** Inside an array or object text, up to its last bracket, the scanner is at depth one or more. */
  lemma ParseEncloses(s: string, k: nat)
    requires s != [] && IsOpen(s[0]) && Parse(s).Some? && 0 < k < |s| && !IsWs(s[|s| - 1])
    ensures Above(Walk(s, k, State(Normal, 0)), 1)
  {
    assert SkipWs(s) == s;
    var rest := ParseValue(s).rest;
    SkipNothingLeft(rest);
    ContainerEnclosed(s, 0);
    if rest != [] { SuffixLast(s, rest); }
  }

  /** Starting inside a string, a text that is JSON on its own does not get out of the string. */
  lemma InStringSuffixFails(u: string, d: int)
    requires Walk(u, |u|, State(InString, d)).mode == Normal
    ensures Parse(u).None?
  {
    if Parse(u).Some? {
      ParseBalanced(u, d);
      OppositeStays(u, State(InString, d), State(Normal, d));
    }
  }

  lemma NormalSuffixFails(u: string, d: int)
    requires Walk(u, |u|, State(Normal, d)) != State(Normal, d)
    ensures Parse(u).None?
  {
    if Parse(u).Some? {
      ParseBalanced(u, d);
    }
  }

  /** No proper suffix of an array or object text that starts at a bracket is JSON. */
  lemma NoSuffixParses(s: string, k: nat)
    requires s != [] && IsOpen(s[0]) && Parse(s).Some? && !IsWs(s[|s| - 1])
    requires 0 < k < |s| && IsOpen(s[k])
    ensures Parse(s[k..]).None?
  {
    var st := State(Normal, 0);
    var at := Walk(s, k, st);
    ParseBalanced(s, 0);
    ParseEncloses(s, k);
    WalkSplit(s, k, |s| - k, st);
    assert Walk(s[k..], |s[k..]|, at) == st;
    match at.mode
    case Normal =>
      NormalSuffixFails(s[k..], at.depth);
    case InString =>
      InStringSuffixFails(s[k..], at.depth);
    case _ =>
      WalkStep(s, k, st);
  }

  /** In JSON text the scanner is outside a string or inside one after every line break. */
  lemma AfterBreak(s: string, k: nat)
    requires Parse(s).Some? && k < |s| && IsBreak(s[k])
    ensures Walk(s, k + 1, State(Normal, 0)).mode in {Normal, InString}
  {
    hide Parse;
    var st := State(Normal, 0);
    ParseBalanced(s, 0);
    WalkStep(s, k, st);
    assert Above(Walk(s, k, st), 0) && Above(Walk(s, k + 1, st), 0);
  }

  lemma WalkOver(s: string, n: nat, t: string, st: State)
    requires n <= |s| && s[n..] == t && Walk(s, n, st).mode == Normal && Parse(t).Some?
    ensures Walk(s, |s|, st) == Walk(s, n, st)
  {
    hide Parse;
    WalkSplit(s, n, |t|, st);
    ParseBalanced(t, Walk(s, n, st).depth);
  }

  lemma WalkInside(s: string, n: nat, t: string, st: State)
    requires n <= |s| && s[n..] == t && Walk(s, n, st).mode == InString && Parse(t).Some?
    ensures Walk(s, |s|, st).mode != Normal
  {
    hide Parse;
    var at := Walk(s, n, st);
    WalkSplit(s, n, |t|, st);
    ParseBalanced(t, at.depth);
    OppositeStays(t, at, State(Normal, at.depth));
  }

  /** A text with a line break before an array or object text is not JSON. */
  lemma PrefixedFails(p: string, eol: char, t: string)
    requires p != [] && !IsWs(p[0]) && IsBreak(eol)
    requires t != [] && IsOpen(t[0]) && Parse(t).Some? && !IsWs(t[|t| - 1])
    ensures Parse(p + [eol] + t).None?
  {
    hide Parse;
    var s, n, st := p + [eol] + t, |p| + 1, State(Normal, 0);
    if Parse(s).Some? {
      ParseBalanced(s, 0);
      AfterBreak(s, |p|);
      if Walk(s, n, st).mode == InString {
        WalkInside(s, n, t, st);
      } else {
        WalkOver(s, n, t, st);
        NotOpenBefore(p, eol, t);
      }
    }
  }

  /** The scanner is inside the value, or inside a string, at every line break before the end. */
  lemma NotOpenBefore(p: string, eol: char, t: string)
    requires p != [] && !IsWs(p[0]) && IsBreak(eol) && t != [] && !IsWs(t[|t| - 1])
    requires var s := p + [eol] + t; Parse(s).Some?
    ensures Walk(p + [eol] + t, |p| + 1, State(Normal, 0)) != State(Normal, 0)
  {
    var s, n, st := p + [eol] + t, |p| + 1, State(Normal, 0);
    assert s[|s| - 1] == t[|t| - 1] && s[|p|] == eol;
    assert SkipWs(s) == s;
    if IsOpen(s[0]) {
      ParseEncloses(s, n);
    } else {
      var rest := ParseValue(s).rest;
      SkipNothingLeft(rest);
      ValueBalanced(s, 0);
      if rest != [] { SuffixLast(s, rest); }
      if s[0] == '"' {
        StringQuoted(s, 0);
      } else {
        ScalarChars(s);
      }
    }
  }
}
