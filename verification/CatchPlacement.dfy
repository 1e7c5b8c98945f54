/**
 Where `fixEmptyCatches` puts the logger import, said of the original text: characters outside matches come
 through the rewrite, and they alone decide.
 */
module CatchPlacement {
  import opened Wrappers
  import opened Text
  import opened CatchPatterns
  import opened CatchRewriter
  import opened CatchFixpoint
  import opened CatchOnePass
  import opened CatchImport

  // ---------------------------------------------------------------------------------
  // A match ends in a brace or parenthesis

  ghost predicate Suffix(r: string, s: string) {
    |r| <= |s| && s[|s| - |r|..] == r
  }

  /** The rest of s right after a character c. */
  ghost predicate Behind(r: string, s: string, c: char) {
    |r| < |s| && s[|s| - |r|..] == r && s[|s| - |r| - 1] == c
  }

  lemma BehindSuffix(r: string, t: string, s: string, c: char)
    requires Behind(r, t, c) && Suffix(t, s)
    ensures Behind(r, s, c)
  {
    var n := |s| - |t|;
    assert forall i :: 0 <= i < |t| ==> s[n + i] == t[i];
    assert s[|s| - |r|..] == t[|t| - |r|..];
  }

  lemma SuffixOf(r: string, t: string, s: string)
    requires Suffix(r, t) && Suffix(t, s)
    ensures Suffix(r, s)
  {
    assert s[|s| - |r|..] == s[|s| - |t|..][|t| - |r|..];
  }

  lemma AfterBehind(s: string, c: char)
    requires After(s, c).Some?
    ensures Behind(After(s, c).value, s, c) && Suffix(After(s, c).value, s)
  {
    TrimStartShape(s);
    var t := TrimStart(s);
    assert Suffix(t, s) && t[1..] == After(s, c).value;
    assert Behind(t[1..], t, c);
    BehindSuffix(t[1..], t, s, c);
  }

  lemma {:induction false} DropWordSuffix(s: string)
    ensures Suffix(DropWord(s), s)
  {
    if s != [] && IsWord(s[0]) {
      DropWordSuffix(s[1..]);
      SuffixOf(DropWord(s), s[1..], s);
    }
  }

  lemma BracesBehind(s: string)
    requires BracesAfter(s).Some?
    ensures Behind(BracesAfter(s).value, s, '}') && Suffix(BracesAfter(s).value, s)
  {
    hide After;
    AfterBehind(s, '{');
    var t := After(s, '{').value;
    AfterBehind(t, '}');
    BehindSuffix(BracesAfter(s).value, t, s, '}');
  }

  lemma VariableSuffix(s: string)
    requires VariableAfter(s).Some?
    ensures Suffix(VariableAfter(s).value, s)
  {
    hide After, DropWord;
    AfterBehind(s, '(');
    var t := After(s, '(').value;
    TrimStartShape(t);
    var w := TrimStart(t);
    assert Suffix(w, t);
    DropWordSuffix(w);
    AfterBehind(DropWord(w), ')');
    SuffixOf(VariableAfter(s).value, DropWord(w), w);
    SuffixOf(VariableAfter(s).value, w, t);
    SuffixOf(VariableAfter(s).value, t, s);
  }

  lemma ArrowBehind(s: string)
    requires ArrowAfter(s).Some?
    ensures Behind(ArrowAfter(s).value, s, ')')
  {
    hide After, BracesAfter, Suffix, Behind;
    AfterBehind(s, '(');
    var a := After(s, '(').value;
    AfterBehind(a, ')');
    var b := After(a, ')').value;
    AfterBehind(b, '=');
    var c := After(b, '=').value;
    TailSuffix(c);
    var d := Next(c, '>').value;
    BracesBehind(d);
    var e := BracesAfter(d).value;
    AfterBehind(e, ')');
    SuffixOf(b, a, s);
    SuffixOf(c, b, s);
    SuffixOf(d, c, s);
    SuffixOf(e, d, s);
    BehindSuffix(ArrowAfter(s).value, e, s, ')');
  }

  lemma TailSuffix(s: string)
    requires s != []
    ensures Suffix(s[1..], s)
  {
  }

  lemma DropSuffix(s: string, n: nat)
    requires n <= |s|
    ensures Suffix(s[n..], s)
  {
  }

  lemma MatchBehind(k: Pattern, s: string)
    requires Rest(k, s).Some?
    ensures Behind(Rest(k, s).value, s, if k.Handler? then ')' else '}')
  {
    hide BracesAfter, VariableAfter, ArrowAfter, Suffix, Behind;
    var n := if k.Handler? then 7 else 5;
    DropSuffix(s, n);
    match k
    case Block =>
      BracesBehind(s[5..]);
      BehindSuffix(Rest(k, s).value, s[5..], s, '}');
    case BlockWithVariable =>
      VariableSuffix(s[5..]);
      var t := VariableAfter(s[5..]).value;
      BracesBehind(t);
      BehindSuffix(Rest(k, s).value, t, s[5..], '}');
      BehindSuffix(Rest(k, s).value, s[5..], s, '}');
    case Handler =>
      ArrowBehind(s[7..]);
      BehindSuffix(Rest(k, s).value, s[7..], s, ')');
  }

  // ---------------------------------------------------------------------------------
  // Kept characters

  /** The match of pattern k that starts at position m holds position i. */
  ghost predicate Covers(s: string, i: nat, k: Pattern, m: nat) {
    m <= i && m <= |s| && Rest(k, s[m..]).Some? && i < |s| - |Rest(k, s[m..]).value|
  }

  /** Position i of the text lies in a match of one of the patterns. */
  ghost predicate InMatch(s: string, i: nat) {
    exists k: Pattern, m: nat :: Covers(s, i, k, m)
  }

  ghost predicate Kept(s: string, i: nat) {
    i < |s| && !InMatch(s, i)
  }

  lemma {:induction false} NoneBefore(j: Pattern, s: string, n: nat, m: nat)
    requires m < n <= |s| && Hits(j, s) == Hits(j, s[n..])
    ensures Rest(j, s[m..]).None?
  {
    hide Rest;
    CountIsHits(j, s[n..]);
    assert Rest(j, s).None? by {
      if Rest(j, s).Some? { HitHere(j, s); }
    }
    if m == 0 {
      assert s[0..] == s;
    } else {
      assert s[1..][n - 1..] == s[n..] && s[1..][m - 1..] == s[m..];
      NoneBefore(j, s[1..], n - 1, m - 1);
    }
  }

  /** No match starts within another one. */
  lemma NoInnerStart(j: Pattern, k: Pattern, s: string, m: nat)
    requires Rest(k, s).Some? && 0 < m < |s| - |Rest(k, s).value|
    ensures Rest(j, s[m..]).None?
  {
    hide Rest;
    var r := Rest(k, s).value;
    var n := |s| - |r|;
    MatchBehind(k, s);
    assert s[n..] == r && s[1..][n - 1..] == r && s[1..][m - 1..] == s[m..];
    if j == k {
      SkipInside(k, s);
      NoneBefore(k, s[1..], n - 1, m - 1);
    } else {
      SkipMatch(j, k, s);
      NoneBefore(j, s, n, m);
    }
  }

  lemma KindDecides(s: string)
    ensures KindAt(s).None? <==> forall k: Pattern :: Rest(k, s).None?
    ensures KindAt(s).Some? ==> Rest(KindAt(s).value, s).Some?
    ensures forall k: Pattern :: Rest(k, s).Some? ==> KindAt(s) == Some(k)
  {
    hide Rest;
    forall k: Pattern | Rest(k, s).Some? ensures KindAt(s) == Some(k) {
      forall j: Pattern | j != k ensures Rest(j, s).None? {
        MatchesExclude(j, k, s);
      }
    }
  }

  /** Where no match starts, the head is kept and the tail is as it is on its own. */
  lemma KeptStep(s: string, i: nat)
    requires s != [] && KindAt(s).None?
    ensures Kept(s, 0) && (Kept(s, i + 1) <==> Kept(s[1..], i))
  {
    hide Rest, KindAt;
    KindDecides(s);
    assert s[0..] == s;
    if InMatch(s, i + 1) {
      var k: Pattern, m: nat :| Covers(s, i + 1, k, m);
      assert m > 0;
      assert s[m..] == s[1..][m - 1..] && Covers(s[1..], i, k, m - 1);
    }
    if InMatch(s[1..], i) {
      var k: Pattern, m: nat :| Covers(s[1..], i, k, m);
      assert s[m + 1..] == s[1..][m..] && Covers(s, i + 1, k, m + 1);
    }
  }

  /** Where a match starts, its characters are not kept and what follows is as it is on its own. */
  lemma KeptMatch(s: string, k: Pattern, i: nat)
    requires Rest(k, s).Some?
    ensures var r := Rest(k, s).value;
      (i < |s| - |r| ==> !Kept(s, i)) && (Kept(s, |s| - |r| + i) <==> Kept(r, i))
  {
    hide Rest;
    var r := Rest(k, s).value;
    var n := |s| - |r|;
    MatchBehind(k, s);
    assert s[0..] == s;
    assert i < n ==> Covers(s, i, k, 0);
    if InMatch(s, n + i) {
      var j: Pattern, m: nat :| Covers(s, n + i, j, m);
      if m < n {
        if m > 0 {
          NoInnerStart(j, k, s, m);
        } else if j != k {
          MatchesExclude(j, k, s);
        }
        assert false;
      }
      assert s[m..] == r[m - n..] && Covers(r, i, j, m - n);
    }
    if InMatch(r, i) {
      var j: Pattern, m: nat :| Covers(r, i, j, m);
      assert s[n + m..] == r[m..] && Covers(s, n + i, j, n + m);
    }
  }

  // ---------------------------------------------------------------------------------
  // Texts that neither start in a replacement nor touch a match

  ghost predicate Foreign(p: string) {
    p in {"\n", "import ", "import { logger }", "import {logger}"}
  }

  lemma ForeignIsQuiet(p: string)
    requires Foreign(p)
    ensures p != [] && forall i :: 0 <= i < |p| ==> Quiet(p[i])
  {
  }

  lemma OnePassHead(s: string)
    requires s != []
    ensures OnePass(s) != [] && OnePass(s)[0] == s[0]
    ensures Quiet(s[0]) ==> KindAt(s).None? && OnePass(s)[1..] == OnePass(s[1..])
  {
    hide Rest;
    if Quiet(s[0]) {
      QuietHead(Block, s);
      QuietHead(BlockWithVariable, s);
      QuietHead(Handler, s);
    } else if KindAt(s).Some? {
      RestHead(KindAt(s).value, s);
    }
  }

  lemma StartsCons(s: string, p: string)
    requires p != []
    ensures Starts(s, p) <==> s != [] && s[0] == p[0] && Starts(s[1..], p[1..])
  {
    if s != [] && |p| <= |s| {
      assert s[..|p|] == [s[0]] + s[1..][..|p| - 1] && p == [p[0]] + p[1..];
    }
  }

  /** A quiet text starts in the rewritten text where it starts in the original one. */
  lemma {:induction false} QuietStarts(s: string, p: string)
    requires forall i :: 0 <= i < |p| ==> Quiet(p[i])
    ensures Starts(OnePass(s), p) <==> Starts(s, p)
    decreases |p|
  {
    hide OnePass, KindAt;
    if p != [] {
      StartsCons(s, p);
      StartsCons(OnePass(s), p);
      if s == [] {
        assert OnePass(s) == [] by { NothingToPass(); }
      } else {
        OnePassHead(s);
        if Quiet(s[0]) { QuietStarts(s[1..], p[1..]); }
      }
    }
  }

  lemma NothingToPass()
    ensures OnePass("") == ""
  {
  }

  ghost predicate Occurs(t: string, p: string) {
    exists m: nat :: m < |t| && Starts(t[m..], p)
  }

  /** The text p does not start in a when t follows. */
  ghost predicate Free(p: string, a: string, t: string) {
    forall m: nat :: m < |a| ==> !Starts((a + t)[m..], p)
  }

  lemma FreeConcat(p: string, a: string, b: string, t: string)
    requires Free(p, a, b + t) && Free(p, b, t)
    ensures Free(p, a + b, t)
  {
    assert a + b + t == a + (b + t);
    forall m: nat | m < |a + b| ensures !Starts((a + b + t)[m..], p) {
      if m >= |a| { assert (a + (b + t))[m..] == (b + t)[m - |a|..]; }
    }
  }

  /** A piece in which each i is followed by some other character than m, and no line breaks. */
  predicate Bland(a: string) {
    forall i :: 0 <= i < |a| ==> BlandAt(a, i)
  }

  predicate BlandAt(a: string, i: nat)
    requires i < |a|
  {
    a[i] != '\n' && (a[i] == 'i' ==> i + 1 < |a| && a[i + 1] != 'm')
  }

  ghost predicate StartsImport(x: string) {
    |x| >= 7 && x[0] == 'i' && x[1] == 'm' && x[2] == 'p' && x[3] == 'o' && x[4] == 'r' && x[5] == 't' && x[6] == ' '
  }

  lemma ForeignStart(x: string, p: string)
    requires Foreign(p) && Starts(x, p)
    ensures x != [] && (x[0] == '\n' || StartsImport(x))
  {
    assert forall i :: 0 <= i < |p| ==> x[i] == x[..|p|][i] == p[i];
  }

  lemma BlandIsFree(p: string, a: string, t: string)
    requires Foreign(p) && Bland(a)
    ensures Free(p, a, t)
  {
    forall m: nat | m < |a| ensures !Starts((a + t)[m..], p) {
      var x := (a + t)[m..];
      assert x[0] == a[m] && (m + 1 < |a| ==> x[1] == a[m + 1]);
      assert BlandAt(a, m);
      if Starts(x, p) { ForeignStart(x, p); }
    }
  }

  lemma NoImportOfName(x: string, n: nat)
    requires 0 < n < |x| && x[n] == ')' && forall i :: 0 <= i < n ==> IsWord(x[i])
    ensures x[0] != '\n' && !StartsImport(x)
  {
    assert IsWord(x[0]) && (n > 6 ==> IsWord(x[6]));
    assert n in {1, 2, 3, 4, 5, 6} || n > 6;
  }

  /** A variable before a closing parenthesis is not an import. */
  lemma NameIsFree(p: string, v: string, t: string)
    requires Foreign(p) && AllWord(v) && t != [] && t[0] == ')'
    ensures Free(p, v, t)
  {
    hide StartsImport, Foreign;
    forall m: nat | m < |v| ensures !Starts((v + t)[m..], p) {
      var x, n := (v + t)[m..], |v| - m;
      assert forall i :: 0 <= i < n ==> x[i] == v[m + i] && IsWord(v[m + i]);
      assert x[n] == ')';
      NoImportOfName(x, n);
      if Starts(x, p) { ForeignStart(x, p); }
    }
  }

  // ---------------------------------------------------------------------------------
  // Replacements are free of them

  lemma WarnBodyIsFree(p: string, v: string, t: string)
    requires Foreign(p) && AllWord(v)
    ensures Free(p, WarnBody(v), t)
  {
    hide Foreign, Free, Bland;
    assert Bland(WARN_TEXT) && Bland(WARN_TAIL) && Bland("); }") by { PiecesAreBland(); }
    var end: string := "); }";
    BlandIsFree(p, end, t);
    NameIsFree(p, v, end + t);
    FreeConcat(p, v, end, t);
    BlandIsFree(p, WARN_TAIL, v + end + t);
    FreeConcat(p, WARN_TAIL, v + end, t);
    BlandIsFree(p, WARN_TEXT, WARN_TAIL + (v + end) + t);
    FreeConcat(p, WARN_TEXT, WARN_TAIL + (v + end), t);
  }

  lemma PiecesAreBland()
    ensures Bland(WARN_TEXT) && Bland(WARN_TAIL) && Bland("); }") && Bland(WARN) && Bland(CATCH + " (") && Bland(")")
    ensures Bland(DOT_CATCH + "(") && Bland(") => { logger")
  {
  }

  lemma CatchWarnIsFree(p: string, v: string, t: string)
    requires Foreign(p) && AllWord(v)
    ensures Free(p, CatchWarn(v), t)
  {
    hide Foreign, Free, Bland, WarnBody;
    PiecesAreBland();
    var body := WarnBody(v);
    WarnBodyIsFree(p, v, t);
    BlandIsFree(p, WARN, body + t);
    FreeConcat(p, WARN, body, t);
    NameIsFree(p, v, WARN + body + t);
    FreeConcat(p, v, WARN + body, t);
    BlandIsFree(p, CATCH + " (", v + (WARN + body) + t);
    FreeConcat(p, CATCH + " (", v + (WARN + body), t);
    assert CatchWarn(v) == CATCH + " (" + (v + (WARN + body));
  }

  lemma HandlerWarnIsFree(p: string, t: string)
    requires Foreign(p)
    ensures Free(p, HandlerWarn(), t)
  {
    hide Foreign, Free, Bland, WarnBody;
    PiecesAreBland();
    var body, arrow: string, v: string := WarnBody("err"), ") => { logger", "err";
    BlandIsFree(p, ")", t);
    WarnBodyIsFree(p, v, ")" + t);
    FreeConcat(p, body, ")", t);
    BlandIsFree(p, arrow, body + ")" + t);
    FreeConcat(p, arrow, body + ")", t);
    NameIsFree(p, v, arrow + (body + ")") + t);
    FreeConcat(p, v, arrow + (body + ")"), t);
    BlandIsFree(p, DOT_CATCH + "(", v + (arrow + (body + ")")) + t);
    FreeConcat(p, DOT_CATCH + "(", v + (arrow + (body + ")")), t);
    assert HandlerWarn() == DOT_CATCH + "(" + (v + (arrow + (body + ")")));
  }

  lemma ReplacementIsFree(p: string, k: Pattern, s: string, t: string)
    requires Foreign(p) && Rest(k, s).Some?
    ensures Free(p, Replacement(k, s), t)
  {
    hide Foreign, Free, CatchWarn, HandlerWarn, BracesAfter, ArrowAfter, WordClose;
    match k
    case Block => CatchWarnIsFree(p, "err", t);
    case BlockWithVariable =>
      TakeWordIsWord(TrimStart(After(s[5..], '(').value));
      CatchWarnIsFree(p, Variable(s), t);
    case Handler => HandlerWarnIsFree(p, t);
  }

  // ---------------------------------------------------------------------------------
  // They occur in the rewritten text where they occur outside matches

  /** The text p starts at a kept character. */
  ghost predicate KeptIn(s: string, p: string) {
    exists m: nat :: Kept(s, m) && Starts(s[m..], p)
  }

  lemma OccursAfter(p: string, a: string, t: string)
    requires Free(p, a, t)
    ensures Occurs(a + t, p) <==> Occurs(t, p)
  {
    if Occurs(a + t, p) {
      var m: nat :| m < |a + t| && Starts((a + t)[m..], p);
      assert m >= |a|;
      assert (a + t)[m..] == t[m - |a|..];
    }
    if Occurs(t, p) {
      var m: nat :| m < |t| && Starts(t[m..], p);
      assert (a + t)[|a| + m..] == t[m..];
    }
  }

  lemma OccursStep(t: string, p: string)
    requires t != []
    ensures Occurs(t, p) <==> Starts(t, p) || Occurs(t[1..], p)
  {
    assert t[0..] == t;
    if Occurs(t, p) {
      var m: nat :| m < |t| && Starts(t[m..], p);
      if m > 0 { assert t[m..] == t[1..][m - 1..]; }
    }
    if Occurs(t[1..], p) {
      var m: nat :| m < |t[1..]| && Starts(t[1..][m..], p);
      assert t[m + 1..] == t[1..][m..];
    }
  }

  lemma KeptInStep(s: string, p: string)
    requires s != [] && KindAt(s).None?
    ensures KeptIn(s, p) <==> Starts(s, p) || KeptIn(s[1..], p)
  {
    hide KindAt, InMatch, Starts;
    assert s[0..] == s;
    KeptStep(s, 0);
    if KeptIn(s, p) {
      var m: nat :| Kept(s, m) && Starts(s[m..], p);
      if m > 0 {
        KeptStep(s, m - 1);
        assert Kept(s[1..], m - 1);
        assert s[m..] == s[1..][m - 1..];
      }
    }
    if KeptIn(s[1..], p) {
      var m: nat :| Kept(s[1..], m) && Starts(s[1..][m..], p);
      KeptStep(s, m);
      assert s[m + 1..] == s[1..][m..];
    }
  }

  lemma KeptInMatch(s: string, k: Pattern, p: string)
    requires Rest(k, s).Some?
    ensures KeptIn(s, p) <==> KeptIn(Rest(k, s).value, p)
  {
    hide Rest, InMatch, Starts;
    var r := Rest(k, s).value;
    var n := |s| - |r|;
    assert s[n..] == r by { MatchBehind(k, s); }
    if KeptIn(s, p) {
      var m: nat :| Kept(s, m) && Starts(s[m..], p);
      KeptMatch(s, k, m);
      assert m >= n;
      KeptMatch(s, k, m - n);
      assert s[m..] == r[m - n..];
    }
    if KeptIn(r, p) {
      var m: nat :| Kept(r, m) && Starts(r[m..], p);
      KeptMatch(s, k, m);
      assert s[n + m..] == r[m..];
    }
  }

  lemma NothingKept(p: string)
    requires p != ""
    ensures !KeptIn("", p) && !Occurs(OnePass(""), p)
  {
  }

  lemma {:induction false} OccursIffKept(s: string, p: string)
    requires Foreign(p)
    ensures Occurs(OnePass(s), p) <==> KeptIn(s, p)
    decreases |s|
  {
    hide Rest, Replacement, KindAt, Occurs, KeptIn, Starts, Foreign;
    ForeignIsQuiet(p);
    if s == [] {
      NothingKept(p);
    } else {
      KindDecides(s);
      match KindAt(s)
      case Some(k) =>
        var r := Rest(k, s).value;
        OccursIffKept(r, p);
        KeptInMatch(s, k, p);
        ReplacementIsFree(p, k, s, OnePass(r));
        OccursAfter(p, Replacement(k, s), OnePass(r));
      case None =>
        OccursIffKept(s[1..], p);
        KeptInStep(s, p);
        assert OnePass(s)[1..] == OnePass(s[1..]);
        OccursStep(OnePass(s), p);
        QuietStarts(s, p);
    }
  }

  // ---------------------------------------------------------------------------------
  // The last import and the line breaks after it

  /** The last kept place where the text p starts. */
  ghost predicate LastKept(s: string, p: string, last: nat) {
    Kept(s, last) && Starts(s[last..], p) && forall m: nat :: last < m && Kept(s, m) ==> !Starts(s[m..], p)
  }

  /** A line break from position i on. */
  ghost predicate BreakFrom(t: string, i: nat) {
    exists j: nat :: i <= j < |t| && t[j] == '\n'
  }

  /** A line break from position i on that lies in no match. */
  ghost predicate KeptBreak(s: string, i: nat) {
    exists j: nat :: i <= j && Kept(s, j) && s[j] == '\n'
  }

  lemma LastStartAfter(p: string, a: string, t: string, at: nat)
    requires LastStart(t, p, at)
    ensures LastStart(a + t, p, |a| + at)
  {
    assert (a + t)[|a| + at..] == t[at..];
    forall m | |a| + at < m < |a + t| ensures !Starts((a + t)[m..], p) {
      assert (a + t)[m..] == t[m - |a|..];
    }
  }

  lemma BreakFromAfter(a: string, t: string, i: nat)
    ensures BreakFrom(a + t, |a| + i) <==> BreakFrom(t, i)
  {
    if BreakFrom(t, i) {
      var j: nat :| i <= j < |t| && t[j] == '\n';
      assert (a + t)[|a| + j] == '\n';
    }
    if BreakFrom(a + t, |a| + i) {
      var j: nat :| |a| + i <= j < |a + t| && (a + t)[j] == '\n';
      assert t[j - |a|] == '\n';
    }
  }

  /** The kept characters of s from n on are those of its suffix t. */
  ghost predicate SameKept(s: string, t: string, n: nat) {
    n + |t| == |s| && s[n..] == t && forall i: nat :: Kept(s, n + i) <==> Kept(t, i)
  }

  lemma LastKeptShift(s: string, t: string, n: nat, p: string, last: nat)
    requires SameKept(s, t, n) && LastKept(s, p, last) && n <= last
    ensures LastKept(t, p, last - n) && (KeptBreak(s, last) <==> KeptBreak(t, last - n))
  {
    hide InMatch, Starts;
    assert Kept(s, n + (last - n));
    assert s[last..] == t[last - n..];
    forall m: nat | last - n < m && Kept(t, m) ensures !Starts(t[m..], p) {
      assert Kept(s, n + m) && s[n + m..] == t[m..];
    }
    if KeptBreak(s, last) {
      var j: nat :| last <= j && Kept(s, j) && s[j] == '\n';
      assert Kept(s, n + (j - n)) && t[j - n] == '\n';
    }
    if KeptBreak(t, last - n) {
      var j: nat :| last - n <= j && Kept(t, j) && t[j] == '\n';
      assert Kept(s, n + j) && s[n + j] == '\n';
    }
  }

  lemma StepSameKept(s: string)
    requires s != [] && KindAt(s).None?
    ensures SameKept(s, s[1..], 1)
  {
    hide KindAt, InMatch;
    forall i: nat ensures Kept(s, 1 + i) <==> Kept(s[1..], i) {
      KeptStep(s, i);
    }
  }

  lemma MatchSameKept(s: string, k: Pattern)
    requires Rest(k, s).Some?
    ensures var r := Rest(k, s).value; SameKept(s, r, |s| - |r|) && forall i: nat :: Kept(s, i) ==> i >= |s| - |r|
  {
    hide Rest, InMatch;
    MatchBehind(k, s);
    var r := Rest(k, s).value;
    forall i: nat ensures (Kept(s, |s| - |r| + i) <==> Kept(r, i)) && (Kept(s, i) ==> i >= |s| - |r|) {
      KeptMatch(s, k, i);
    }
  }

  lemma BreakIsText(t: string, s: string)
    ensures BreakFrom(t, 0) <==> Occurs(t, "\n")
    ensures KeptBreak(s, 0) <==> KeptIn(s, "\n")
  {
    hide InMatch, Starts;
    forall m: nat | m < |t| ensures Starts(t[m..], "\n") <==> t[m] == '\n' {
      StartsWithChar(t, m, '\n');
    }
    forall m: nat | Kept(s, m) ensures m < |s| && (Starts(s[m..], "\n") <==> s[m] == '\n') {
      StartsWithChar(s, m, '\n');
    }
  }

  /** The first character starts the last kept import. */
  lemma PlacedHere(s: string)
    requires LastKept(s, "import ", 0) && s != [] && KindAt(s).None?
    ensures LastStart(OnePass(s), "import ", 0) && (BreakFrom(OnePass(s), 0) <==> KeptBreak(s, 0))
  {
    hide KindAt, InMatch, Starts, OnePass;
    var p, u := "import ", OnePass(s);
    assert s[0..] == s;
    QuietStarts(s, p);
    OnePassStep(s);
    assert u[0..] == u;
    OccursIffKept(s[1..], p);
    forall m: nat | Kept(s[1..], m) ensures !Starts(s[1..][m..], p) {
      KeptStep(s, m);
      assert s[m + 1..] == s[1..][m..];
    }
    forall m: nat | 0 < m < |u| ensures !Starts(u[m..], p) {
      assert u[m..] == u[1..][m - 1..];
    }
    BreakIsText(u, s);
    OccursIffKept(s, "\n");
  }

  lemma OnePassStep(s: string)
    requires s != [] && KindAt(s).None?
    ensures OnePass(s) == [s[0]] + OnePass(s[1..]) && OnePass(s)[1..] == OnePass(s[1..])
  {
  }

  lemma OnePassMatch(s: string, k: Pattern)
    requires KindAt(s) == Some(k)
    ensures Rest(k, s).Some? && OnePass(s) == Replacement(k, s) + OnePass(Rest(k, s).value)
  {
    hide Rest, Replacement;
    KindDecides(s);
    if s == [] { RestHead(k, s); }
  }

  /** The last kept import stays the last import, with a line break after it exactly when one is kept. */
  lemma {:induction false} Placed(s: string, last: nat) returns (at: nat)
    requires LastKept(s, "import ", last)
    ensures LastStart(OnePass(s), "import ", at) && (BreakFrom(OnePass(s), at) <==> KeptBreak(s, last))
    decreases |s|
  {
    hide Rest, Replacement, KindAt, OnePass, InMatch, Starts, LastStart, BreakFrom, KeptBreak, SameKept;
    assert Kept(s, last);
    match KindAt(s)
    case Some(k) =>
      OnePassMatch(s, k);
      var r := Rest(k, s).value;
      MatchSameKept(s, k);
      LastKeptShift(s, r, |s| - |r|, "import ", last);
      at := Placed(r, last - (|s| - |r|));
      LastStartAfter("import ", Replacement(k, s), OnePass(r), at);
      BreakFromAfter(Replacement(k, s), OnePass(r), at);
      at := |Replacement(k, s)| + at;
    case None =>
      if last == 0 {
        PlacedHere(s);
        at := 0;
      } else {
        OnePassStep(s);
        StepSameKept(s);
        LastKeptShift(s, s[1..], 1, "import ", last);
        at := Placed(s[1..], last - 1);
        LastStartAfter("import ", [s[0]], OnePass(s[1..]), at);
        BreakFromAfter([s[0]], OnePass(s[1..]), at);
        at := 1 + at;
      }
  }

  // ---------------------------------------------------------------------------------
  // What `fixEmptyCatches` does with the import, said of the file it reads

  lemma ContainsIsOccurs(t: string, p: string)
    requires p != ""
    ensures Contains(t, p) <==> Occurs(t, p)
  {
    hide Find, Starts;
    FindIsFirst(t, p, 0);
    assert !Starts(t[|t|..], p) by { NothingStarts(t, p); }
  }

  lemma NothingStarts(t: string, p: string)
    requires p != ""
    ensures !Starts(t[|t|..], p)
  {
  }

  lemma FindsLast(t: string, p: string)
    ensures FindLast(t, p, |t|) >= 0 <==> Occurs(t, p)
  {
    hide Starts;
    FindLastIsLast(t, p, |t|);
  }

  /** Something is fixed, the file has an import, and it does not import the logger yet, all outside matches. */
  ghost predicate NeedsLogger(s: string) {
    CountAll(s) > 0 && KeptIn(s, "import ") && !KeptIn(s, "import { logger }") && !KeptIn(s, "import {logger}")
  }

  lemma LoggerNeeded(s: string)
    ensures var u := RewriteAll(s);
      NeedsLogger(s) <==>
        (Fix(s).1 > 0 && FindLast(u, "import ", |u|) >= 0 &&
         !Contains(u, "import { logger }") && !Contains(u, "import {logger}"))
  {
    hide Contains, FindLast, KeptIn, Occurs, RewriteAll, Fix;
    var u := RewriteAll(s);
    PassesAreOne(s);
    RewriteAllFixesAll(s);
    OccursIffKept(s, "import ");
    OccursIffKept(s, "import { logger }");
    OccursIffKept(s, "import {logger}");
    ContainsIsOccurs(u, "import { logger }");
    ContainsIsOccurs(u, "import {logger}");
    FindsLast(u, "import ");
  }

  /** The logger import is inserted exactly when the file needs it; otherwise only the matches are replaced. */
  lemma ImportInsertedIff(s: string)
    ensures Fix(s).0 == OnePass(s) <==> !NeedsLogger(s)
  {
    hide Contains, FindLast, NeedsLogger, InsertPosition, Count, Rewrite;
    PassesAreOne(s);
    LoggerNeeded(s);
    var u := RewriteAll(s);
    if NeedsLogger(s) {
      assert |WithImport(u)| > |u|;
    }
  }

  /** The import line stands at position i, after the line of the last import at position `at` or at the start. */
  ghost predicate InsertedAt(content: string, u: string, at: nat, i: nat) {
    LastStart(u, "import ", at) && AfterLineOf(u, at, i) &&
    content == u[..i] + "import { logger } from '../logger.js';\n" + u[i..]
  }

  lemma WhereInserted(s: string) returns (at: nat, i: nat)
    requires NeedsLogger(s)
    ensures InsertedAt(Fix(s).0, RewriteAll(s), at, i)
  {
    hide Contains, FindLast, NeedsLogger, WithImport, RewriteAll, LastStart, AfterLineOf, Fix;
    LoggerNeeded(s);
    at, i := ImportIsALine(RewriteAll(s));
    FixIsWithImport(s);
  }

  lemma InsertedWhere(content: string, u: string, at: nat, i: nat)
    requires InsertedAt(content, u, at, i)
    ensures (at < i <==> BreakFrom(u, at)) && (i == 0 <==> !BreakFrom(u, at))
  {
    hide Starts;
    if i > 0 { assert u[i - 1] == '\n'; }
  }

  lemma {:induction false} FindLastKept(s: string, p: string, m: nat) returns (last: nat)
    requires Kept(s, m) && Starts(s[m..], p)
    ensures LastKept(s, p, last)
    decreases |s| - m
  {
    hide InMatch, Starts;
    if n: nat :| m < n && Kept(s, n) && Starts(s[n..], p) {
      last := FindLastKept(s, p, n);
    } else {
      last := m;
    }
  }

  /**
   For every file that gets the logger import: it goes after the line of the last import that lies in no match
   exactly when some line break from there on lies in no match, and to the very start otherwise.
   */
  lemma ImportPlacement(s: string) returns (last: nat, at: nat, i: nat)
    requires NeedsLogger(s)
    ensures LastKept(s, "import ", last) && InsertedAt(Fix(s).0, OnePass(s), at, i)
    ensures (at < i <==> KeptBreak(s, last)) && (i == 0 <==> !KeptBreak(s, last))
  {
    hide InMatch, Starts, CountAll, RewriteAll, OnePass, Fix, KeptBreak, LastKept, LastStart, BreakFrom, InsertedAt;
    var m: nat :| Kept(s, m) && Starts(s[m..], "import ");
    last := FindLastKept(s, "import ", m);
    PassesAreOne(s);
    at, i := WhereInserted(s);
    var at' := Placed(s, last);
    InsertedHere(Fix(s).0, OnePass(s), at, i);
    OneLastStart(OnePass(s), "import ", at, at');
    InsertedWhere(Fix(s).0, OnePass(s), at, i);
  }

  lemma InsertedHere(content: string, u: string, at: nat, i: nat)
    requires InsertedAt(content, u, at, i)
    ensures LastStart(u, "import ", at)
  {
  }

  lemma FixIsWithImport(s: string)
    requires Fix(s).1 > 0
    ensures Fix(s).0 == WithImport(RewriteAll(s))
  {
    hide WithImport, Count, Rewrite;
  }

  lemma OneLastStart(t: string, p: string, i: nat, j: nat)
    requires LastStart(t, p, i) && LastStart(t, p, j)
    ensures i == j
  {
    hide Starts;
  }

  /** A file that ends its last line gets the import after the line of its last import. */
  lemma EndedFileIsSafe(s: string) returns (last: nat, at: nat, i: nat)
    requires NeedsLogger(s) && s[|s| - 1] == '\n'
    ensures LastKept(s, "import ", last) && InsertedAt(Fix(s).0, OnePass(s), at, i) && at < i
  {
    hide NeedsLogger, LastStart, InsertedAt, OnePass, Fix, AfterLineOf;
    last, at, i := ImportPlacement(s);
    LastCharKept(s);
    assert KeptBreak(s, last);
  }

  lemma LastCharKept(s: string)
    requires s != "" && s[|s| - 1] == '\n'
    ensures Kept(s, |s| - 1)
  {
    var i := |s| - 1;
    if InMatch(s, i) {
      var k: Pattern, m: nat :| Covers(s, i, k, m);
      MatchBehind(k, s[m..]);
    }
  }

  // ---------------------------------------------------------------------------------
  // A family of files in which the import goes in front of the last import

  lemma {:induction false} OnePassCopies(a: string, t: string)
    requires forall i :: 0 <= i < |a| ==> Quiet(a[i])
    ensures OnePass(a + t) == a + OnePass(t)
  {
    hide KindAt, OnePass;
    if a == [] {
      assert a + t == t && [] + OnePass(t) == OnePass(t);
    } else {
      var s := a + t;
      assert s[0] == a[0] && s[1..] == a[1..] + t;
      OnePassHead(s);
      OnePassStep(s);
      OnePassCopies(a[1..], t);
      assert [a[0]] + (a[1..] + OnePass(t)) == a + OnePass(t);
    }
  }

  /** An empty block, with white space between its braces. */
  function EmptyBlock(w: string): string {
    CATCH + ("{" + (w + "}"))
  }

  lemma EmptyBlockMatches(w: string)
    requires AllSpace(w)
    ensures Rest(Block, EmptyBlock(w)) == Some("") && OnePass(EmptyBlock(w)) == CatchWarn("err")
    ensures CountAll(EmptyBlock(w)) == 1
  {
    hide CatchWarn;
    var s, y := EmptyBlock(w), "{" + (w + "}");
    assert s[..5] == CATCH && s[5..] == y && y[1..] == w + "}" && TrimStart(y) == y;
    TrimStartAppend(w, "}");
    assert TrimStart("}") == "}" && "}"[1..] == "";
    assert BracesAfter(y) == Some("");
    assert CatchWarn("err") + OnePass("") == CatchWarn("err");
    SkipMatch(BlockWithVariable, Block, s);
    SkipMatch(Handler, Block, s);
    CountIsHits(BlockWithVariable, s);
    CountIsHits(Handler, s);
    NoHits(BlockWithVariable);
    NoHits(Handler);
    assert Count(Block, s) == 1 + Count(Block, "") == 1;
  }

  lemma NoHits(k: Pattern)
    ensures Hits(k, "") == []
  {
  }

  const LONE_IMPORT := "import a;"

  lemma LoggerImportStart(x: string, p: string)
    requires p in {"\n", "import { logger }", "import {logger}"} && Starts(x, p)
    ensures x != "" && (x[0] == '\n' || (x[0] == 'i' && |x| > 7 && x[7] == '{'))
  {
    assert forall i :: 0 <= i < |p| ==> x[i] == x[..|p|][i] == p[i];
  }

  lemma LoneImportIsFree(p: string, t: string)
    requires p in {"\n", "import { logger }", "import {logger}"}
    ensures Free(p, LONE_IMPORT, t)
  {
    var a: string := LONE_IMPORT;
    forall m: nat | m < |a| ensures !Starts((a + t)[m..], p) {
      var x := (a + t)[m..];
      assert x[0] == a[m] && (m == 0 ==> x[7] == a[7]);
      if Starts(x, p) { LoggerImportStart(x, p); }
    }
  }

  lemma LoneImportNeeds(w: string)
    requires AllSpace(w)
    ensures var s := LONE_IMPORT + EmptyBlock(w);
      NeedsLogger(s) && OnePass(s) == LONE_IMPORT + CatchWarn("err") && CountAll(s) == 1 &&
      forall i: nat :: !BreakFrom(OnePass(s), i)
  {
    hide Count, OnePass, KeptIn, CatchWarn, Hits, InMatch, Starts, EmptyBlock, Occurs, Free;
    var a: string, b, r := LONE_IMPORT, EmptyBlock(w), CatchWarn("err");
    var s, u := a + b, a + r;
    assert AllWord("err");
    EmptyBlockMatches(w);
    OnePassCopies(a, b);
    LoneCount(Block, b);
    LoneCount(BlockWithVariable, b);
    LoneCount(Handler, b);
    forall p | p in {"\n", "import { logger }", "import {logger}"} ensures !Occurs(u, p) && !KeptIn(s, p) {
      LoneImportIsFree(p, r);
      OccursAfter(p, a, r);
      CatchWarnIsFree(p, "err", "");
      OccursAfter(p, r, "");
      assert r + "" == r;
      NothingKept(p);
      assert OnePass("") == "" by { NothingToPass(); }
      OccursIffKept(s, p);
    }
    BreakIsText(u, s);
    NoBreaks(u);
    LoneImportOccurs(r);
    OccursIffKept(s, "import ");
  }

  lemma NoBreaks(u: string)
    requires !BreakFrom(u, 0)
    ensures forall i: nat :: !BreakFrom(u, i)
  {
  }

  lemma LoneCount(k: Pattern, t: string)
    ensures Count(k, LONE_IMPORT + t) == Count(k, t)
  {
    hide Hits;
    SkipQuietText(k, LONE_IMPORT, t);
    CountIsHits(k, LONE_IMPORT + t);
    CountIsHits(k, t);
  }

  lemma LoneImportOccurs(t: string)
    ensures Occurs(LONE_IMPORT + t, "import ")
  {
    var u := LONE_IMPORT + t;
    assert u[0..] == u && u[..7] == LONE_IMPORT[..7] == "import ";
  }

  /**
   An import that stands on a last line without a line break, before an empty block: the logger import goes in
   front of it, also when the block itself holds line breaks.
   */
  lemma UnendedImportComesSecond(w: string)
    requires AllSpace(w)
    ensures Fix("import a;" + EmptyBlock(w)) ==
      ("import { logger } from '../logger.js';\n" + ("import a;" + CatchWarn("err")), 1)
  {
    hide NeedsLogger, LastStart, OnePass, CatchWarn, EmptyBlock, RewriteAll, Count;
    var s := LONE_IMPORT + EmptyBlock(w);
    LoneImportNeeds(w);
    RewriteAllFixesAll(s);
    PassesAreOne(s);
    var at, i := WhereInserted(s);
    var u := OnePass(s);
    InsertedWhere(Fix(s).0, u, at, i);
    assert u[..0] + IMPORT_LINE + u[0..] == IMPORT_LINE + u;
  }
}
