/** The texts that the three patterns match and the texts that replace them, letter by letter. */
module CatchText {
  import opened Wrappers
  import opened Text
  import opened CatchPatterns
  import opened CatchRewriter

  // ---------------------------------------------------------------------------------
  // Matches

  /** n runs of white space, each of any length. */
  ghost predicate AreRuns(w: seq<string>, n: nat) {
    |w| == n && forall i :: 0 <= i < n ==> AllSpace(w[i])
  }

  predicate IsWordChar(c: char) {
    c in "abcdefghijklmnopqrstuvwxyz" || c in "ABCDEFGHIJKLMNOPQRSTUVWXYZ" || c in "0123456789_"
  }

  predicate IsWordText(v: string) {
    v != "" && forall i :: 0 <= i < |v| ==> IsWordChar(v[i])
  }

  /** `catch {}`, with any white space, and then r. */
  ghost predicate IsBlockThen(s: string, w: seq<string>, r: string) {
    AreRuns(w, 2) && s == "catch" + (w[0] + ("{" + (w[1] + ("}" + r))))
  }

  /** `catch (v) {}`, with any white space, and then r. */
  ghost predicate IsVariableThen(s: string, w: seq<string>, v: string, r: string) {
    AreRuns(w, 5) && IsWordText(v) &&
    s == "catch" + (w[0] + ("(" + (w[1] + (v + (w[2] + (")" + (w[3] + ("{" + (w[4] + ("}" + r))))))))))
  }

  /** `.catch(() => {})`, with any white space, and then r. */
  ghost predicate IsHandlerThen(s: string, w: seq<string>, r: string) {
    AreRuns(w, 6) &&
    s == ".catch(" + (w[0] + ("(" + (w[1] + (")" + (w[2] + ("=>" + (w[3] + ("{" + (w[4] + ("}" +
      (w[5] + (")" + r))))))))))))
  }

  /** The text is a match of the pattern and then r. */
  ghost predicate IsMatchThen(k: Pattern, s: string, r: string) {
    match k
    case Block => exists w :: IsBlockThen(s, w, r)
    case BlockWithVariable => exists w, v :: IsVariableThen(s, w, v, r)
    case Handler => exists w :: IsHandlerThen(s, w, r)
  }

  lemma AfterSplit(s: string, c: char) returns (w: string)
    requires After(s, c).Some?
    ensures AllSpace(w) && s == w + ([c] + After(s, c).value)
  {
    TrimStartShape(s);
    w := s[..|s| - |TrimStart(s)|];
    assert s == w + TrimStart(s);
  }

  lemma AfterRun(w: string, c: char, r: string)
    requires AllSpace(w) && !IsSpace(c)
    ensures After(w + ([c] + r), c) == Some(r)
  {
    TrimStartAppend(w, [c] + r);
    assert ([c] + r)[1..] == r;
  }

  lemma LowerIff(c: char)
    ensures c in "abcdefghijklmnopqrstuvwxyz" <==> 'a' <= c <= 'z'
  {
  }

  lemma UpperIff(c: char)
    ensures c in "ABCDEFGHIJKLMNOPQRSTUVWXYZ" <==> 'A' <= c <= 'Z'
  {
  }

  lemma DigitIff(c: char)
    ensures c in "0123456789_" <==> '0' <= c <= '9' || c == '_'
  {
  }

  lemma NoWordIsSpace(c: char)
    requires IsWord(c)
    ensures !IsSpace(c)
  {
  }

  lemma WordCharIff(c: char)
    ensures IsWordChar(c) <==> IsWord(c)
  {
    LowerIff(c);
    UpperIff(c);
    DigitIff(c);
  }

  lemma WordCons(c: char, v: string)
    ensures IsWordText([c] + v) <==> IsWord(c) && (v == "" || IsWordText(v))
  {
    hide IsWordChar, IsWord;
    WordCharIff(c);
    var t := [c] + v;
    assert t[0] == c && forall i :: 0 <= i < |v| ==> t[i + 1] == v[i];
  }

  lemma {:induction false} WordSplit(s: string)
    ensures s == TakeWord(s) + DropWord(s) && (s != "" && IsWord(s[0]) ==> IsWordText(TakeWord(s)))
  {
    hide IsWordText;
    if s != "" && IsWord(s[0]) {
      WordSplit(s[1..]);
      WordCons(s[0], TakeWord(s[1..]));
      assert s == [s[0]] + s[1..];
    }
  }

  lemma {:induction false} WordAhead(v: string, r: string)
    requires (v == "" || IsWordText(v)) && (r == "" || !IsWord(r[0]))
    ensures TakeWord(v + r) == v && DropWord(v + r) == r
  {
    hide IsWordText, IsWord;
    if v == "" {
      assert v + r == r;
    } else {
      assert v == [v[0]] + v[1..];
      WordCons(v[0], v[1..]);
      WordAhead(v[1..], r);
      assert (v + r)[1..] == v[1..] + r;
    }
  }

  lemma BracesSplit(s: string) returns (a: string, b: string)
    requires BracesAfter(s).Some?
    ensures AllSpace(a) && AllSpace(b) && s == a + ("{" + (b + ("}" + BracesAfter(s).value)))
  {
    hide After, AllSpace;
    a := AfterSplit(s, '{');
    b := AfterSplit(After(s, '{').value, '}');
  }

  lemma BracesRun(a: string, b: string, r: string)
    requires AllSpace(a) && AllSpace(b)
    ensures BracesAfter(a + ("{" + (b + ("}" + r)))) == Some(r)
  {
    hide After, AllSpace;
    AfterRun(a, '{', b + ("}" + r));
    AfterRun(b, '}', r);
  }

  lemma BlockIff(s: string, r: string)
    ensures Rest(Block, s) == Some(r) <==> exists w :: IsBlockThen(s, w, r)
  {
    hide BracesAfter, AllSpace;
    if Rest(Block, s) == Some(r) {
      var a, b := BracesSplit(s[5..]);
      assert s == s[..5] + s[5..];
      assert IsBlockThen(s, [a, b], r);
    }
    forall w | IsBlockThen(s, w, r) ensures Rest(Block, s) == Some(r) {
      BracesRun(w[0], w[1], r);
      assert s[..5] == "catch" && s[5..] == w[0] + ("{" + (w[1] + ("}" + r)));
    }
  }

  lemma VariableSplit(y: string) returns (a: string, b: string, c: string)
    requires VariableAfter(y).Some?
    ensures AllSpace(a) && AllSpace(b) && AllSpace(c)
    ensures var v := TakeWord(TrimStart(After(y, '(').value));
      IsWordText(v) && y == a + ("(" + (b + (v + (c + (")" + VariableAfter(y).value)))))
  {
    hide After, TakeWord, DropWord, AllSpace, TrimStart, IsWordText;
    a := AfterSplit(y, '(');
    var t := After(y, '(').value;
    TrimStartShape(t);
    var x := TrimStart(t);
    b := t[..|t| - |x|];
    assert t == b + x;
    WordSplit(x);
    c := AfterSplit(DropWord(x), ')');
  }

  lemma VariableRun(a: string, b: string, v: string, c: string, r: string)
    requires AllSpace(a) && AllSpace(b) && AllSpace(c) && IsWordText(v)
    ensures var y := a + ("(" + (b + (v + (c + (")" + r)))));
      VariableAfter(y) == Some(r) && TakeWord(TrimStart(After(y, '(').value)) == v
  {
    hide After, TakeWord, DropWord, AllSpace, TrimStart;
    var tail := c + (")" + r);
    var x := v + tail;
    AfterRun(a, '(', b + x);
    WordIsNoSpace(v, tail);
    TrimStartAppend(b, x);
    SpaceIsNoWord(c, r);
    WordAhead(v, tail);
    AfterRun(c, ')', r);
    TrimStartShape(b);
    OnlySpace(b);
  }

  lemma WordIsNoSpace(v: string, tail: string)
    requires IsWordText(v)
    ensures var x := v + tail; x != "" && IsWord(x[0]) && !IsSpace(x[0]) && TrimStart(x) == x
  {
    hide IsWordChar, IsWord, IsSpace;
    WordCharIff(v[0]);
    NoWordIsSpace(v[0]);
    assert (v + tail)[0] == v[0];
  }

  lemma SpaceIsNoWord(c: string, r: string)
    requires AllSpace(c)
    ensures var t := c + (")" + r); t != "" && !IsWord(t[0])
  {
    assert (c + (")" + r))[0] == if c == "" then ')' else c[0];
  }

  /** A match of the second pattern, and the variable it captures. */
  lemma VariableIff(s: string, v: string, r: string)
    ensures Rest(BlockWithVariable, s) == Some(r) && Variable(s) == v <==> exists w :: IsVariableThen(s, w, v, r)
  {
    hide BracesAfter, VariableAfter, After, AllSpace, IsWordText, TakeWord, TrimStart;
    if Rest(BlockWithVariable, s) == Some(r) && Variable(s) == v {
      var a, b, c := VariableSplit(s[5..]);
      var d, e := BracesSplit(VariableAfter(s[5..]).value);
      assert s == s[..5] + s[5..];
      assert IsVariableThen(s, [a, b, c, d, e], v, r);
    }
    forall w | IsVariableThen(s, w, v, r) ensures Rest(BlockWithVariable, s) == Some(r) && Variable(s) == v {
      var braces := w[3] + ("{" + (w[4] + ("}" + r)));
      VariableRun(w[0], w[1], v, w[2], braces);
      BracesRun(w[3], w[4], r);
      var y := w[0] + ("(" + (w[1] + (v + (w[2] + (")" + braces)))));
      assert s[..5] == "catch" && s[5..] == y;
    }
  }

  lemma ArrowSplit(s: string) returns (w: seq<string>)
    requires ArrowAfter(s).Some?
    ensures AreRuns(w, 6)
    ensures s == w[0] + ("(" + (w[1] + (")" + (w[2] + ("=" + (">" + (w[3] + ("{" + (w[4] + ("}" +
      (w[5] + (")" + ArrowAfter(s).value))))))))))))
  {
    hide After, BracesAfter, AllSpace;
    var a := AfterSplit(s, '(');
    var s1 := After(s, '(').value;
    var b := AfterSplit(s1, ')');
    var s2 := After(s1, ')').value;
    var c := AfterSplit(s2, '=');
    var s3 := After(s2, '=').value;
    var s4 := Next(s3, '>').value;
    assert s3 == ">" + s4;
    var d, e := BracesSplit(s4);
    var f := AfterSplit(BracesAfter(s4).value, ')');
    w := [a, b, c, d, e, f];
  }

  lemma ArrowRun(w: seq<string>, r: string)
    requires AreRuns(w, 6)
    ensures ArrowAfter(w[0] + ("(" + (w[1] + (")" + (w[2] + ("=" + (">" + (w[3] + ("{" + (w[4] + ("}" +
      (w[5] + (")" + r))))))))))))) == Some(r)
  {
    hide After, BracesAfter, AllSpace;
    var f := w[5] + (")" + r);
    var d := w[3] + ("{" + (w[4] + ("}" + f)));
    var c := w[2] + ("=" + (">" + d));
    var b := w[1] + (")" + c);
    AfterRun(w[0], '(', b);
    AfterRun(w[1], ')', c);
    AfterRun(w[2], '=', ">" + d);
    assert (">" + d)[1..] == d;
    BracesRun(w[3], w[4], f);
    AfterRun(w[5], ')', r);
  }

  lemma HandlerIff(s: string, r: string)
    ensures Rest(Handler, s) == Some(r) <==> exists w :: IsHandlerThen(s, w, r)
  {
    hide ArrowAfter, AllSpace;
    if Rest(Handler, s) == Some(r) {
      var w := ArrowSplit(s[7..]);
      ArrowText(w[3] + ("{" + (w[4] + ("}" + (w[5] + (")" + r))))));
      assert s == s[..7] + s[7..];
      assert IsHandlerThen(s, w, r);
    }
    forall w | IsHandlerThen(s, w, r) ensures Rest(Handler, s) == Some(r) {
      ArrowText(w[3] + ("{" + (w[4] + ("}" + (w[5] + (")" + r))))));
      ArrowRun(w, r);
      assert s[..7] == ".catch(";
      assert s[7..] == w[0] + ("(" + (w[1] + (")" + (w[2] + ("=>" + (w[3] + ("{" + (w[4] + ("}" +
        (w[5] + (")" + r)))))))))));
    }
  }

  lemma ArrowText(t: string)
    ensures "=>" + t == "=" + (">" + t)
  {
  }

  /** A pattern matches at the start of a text exactly when the text starts as the pattern says. */
  lemma RestIff(k: Pattern, s: string, r: string)
    ensures Rest(k, s) == Some(r) <==> IsMatchThen(k, s, r)
  {
    hide Rest, IsBlockThen, IsVariableThen, IsHandlerThen;
    match k
    case Block => BlockIff(s, r);
    case BlockWithVariable =>
      if Rest(BlockWithVariable, s) == Some(r) {
        VariableIff(s, Variable(s), r);
      }
      forall w, v | IsVariableThen(s, w, v, r) ensures Rest(k, s) == Some(r) {
        VariableIff(s, v, r);
      }
    case Handler => HandlerIff(s, r);
  }

  // ---------------------------------------------------------------------------------
  // Replacements

  /** The replacement of a block, around the variable. */
  lemma WarnText(v: string)
    ensures CatchWarn(v) ==
      "catch (" + (v + (") { logger" + (".warn(\"[auto-fix] Empty " + ("catch block\", " + (v + "); }")))))
  {
    assert CATCH + " (" == "catch (";
    assert CatchWarn(v) == CATCH + " (" + (v + (WARN + WarnBody(v)));
  }

  lemma MoveIn(a: string, b: string, c: string, d: string, e: string)
    ensures a + (b + (c + d)) + e == a + (b + (c + (d + e)))
  {
  }

  lemma HandlerText()
    ensures HandlerWarn() ==
      ".catch((" + ("err" + (") => { logger" + (".warn(\"[auto-fix] Empty " + ("catch block\", " + ("err" + "); })")))))
  {
    assert DOT_CATCH + "(" == ".catch((";
    assert "); }" + ")" == "); })";
    MoveIn(WARN_TEXT, WARN_TAIL, "err", "); }", ")");
    Regroup(DOT_CATCH, "(", "err" + (") => { logger" + (WarnBody("err") + ")")));
  }

  /** What replaces a match; the second pattern puts in the name it matched, twice. */
  lemma ReplacementText(s: string, w: seq<string>, v: string, r: string)
    ensures IsBlockThen(s, w, r) ==>
      Rest(Block, s) == Some(r) &&
      Replacement(Block, s) ==
        "catch (" + ("err" + (") { logger" + (".warn(\"[auto-fix] Empty " + ("catch block\", " + ("err" + "); }")))))
    ensures IsVariableThen(s, w, v, r) ==>
      Rest(BlockWithVariable, s) == Some(r) &&
      Replacement(BlockWithVariable, s) ==
        "catch (" + (v + (") { logger" + (".warn(\"[auto-fix] Empty " + ("catch block\", " + (v + "); }")))))
    ensures IsHandlerThen(s, w, r) ==>
      Rest(Handler, s) == Some(r) &&
      Replacement(Handler, s) ==
        ".catch((" + ("err" + (") => { logger" + (".warn(\"[auto-fix] Empty " +
          ("catch block\", " + ("err" + "); })")))))
  {
    hide Rest, Variable, CatchWarn, HandlerWarn, IsBlockThen, IsVariableThen, IsHandlerThen;
    BlockIff(s, r);
    VariableIff(s, v, r);
    HandlerIff(s, r);
    WarnText("err");
    WarnText(v);
    HandlerText();
  }
}
