/** The rewrites do not disturb each other, they fix what is counted, and they leave nothing to fix. */
module CatchFixpoint {
  import opened Wrappers
  import opened Text
  import opened CatchPatterns
  import opened CatchRewriter

  function RewriteRest(k: Pattern, r: Option<string>): Option<string> {
    match r
    case None => None
    case Some(t) => Some(Rewrite(k, t))
  }

  /** No match of any pattern starts with this character. */
  predicate Quiet(c: char) {
    c != 'c' && c != '.'
  }

  lemma StartsHead(s: string, p: string)
    requires Starts(s, p) && p != []
    ensures s != [] && s[0] == p[0]
  {
    assert s[..|p|][0] == s[0];
  }

  lemma RestHead(k: Pattern, s: string)
    requires Rest(k, s).Some?
    ensures s != [] && s[0] == if k.Handler? then '.' else 'c'
  {
    StartsHead(s, if k.Handler? then DOT_CATCH else CATCH);
  }

  /** A rewrite keeps the first character, and all of a text that does not start with a match comes through. */
  lemma RewriteHead(k: Pattern, s: string)
    requires s != []
    ensures Rewrite(k, s) != [] && Rewrite(k, s)[0] == s[0]
    ensures Rest(k, s).None? ==> Rewrite(k, s)[1..] == Rewrite(k, s[1..])
    ensures Rest(k, s).Some? ==> Rewrite(k, s) == Replacement(k, s) + Rewrite(k, Rest(k, s).value)
  {
    if Rest(k, s).Some? {
      RestHead(k, s);
    }
  }

  lemma QuietHead(k: Pattern, s: string)
    requires s != [] && Quiet(s[0])
    ensures Rest(k, s).None? && Rewrite(k, s) == [s[0]] + Rewrite(k, s[1..])
  {
    if Rest(k, s).Some? { RestHead(k, s); }
  }

  // ---------------------------------------------------------------------------------
  // A scan of the rewritten text is the rewritten scan

  lemma NextRewrite(k: Pattern, s: string, c: char)
    requires Quiet(c)
    ensures Next(Rewrite(k, s), c) == RewriteRest(k, Next(s, c))
  {
    if s != [] {
      RewriteHead(k, s);
      if s[0] == c { QuietHead(k, s); }
    }
  }

  lemma SpaceIsQuiet(c: char)
    requires IsSpace(c)
    ensures Quiet(c) && !IsWord(c)
  {
  }

  lemma {:induction false} TrimRewrite(k: Pattern, s: string)
    ensures TrimStart(Rewrite(k, s)) == Rewrite(k, TrimStart(s))
  {
    hide Rest, Replacement;
    if s != [] {
      RewriteHead(k, s);
      if IsSpace(s[0]) {
        SpaceIsQuiet(s[0]);
        QuietHead(k, s);
        TrimRewrite(k, s[1..]);
      }
    }
  }

  lemma AfterRewrite(k: Pattern, s: string, c: char)
    requires Quiet(c)
    ensures After(Rewrite(k, s), c) == RewriteRest(k, After(s, c))
  {
    hide Rewrite, Quiet;
    TrimRewrite(k, s);
    NextRewrite(k, TrimStart(s), c);
  }

  lemma BracesRewrite(k: Pattern, s: string)
    ensures BracesAfter(Rewrite(k, s)) == RewriteRest(k, BracesAfter(s))
  {
    hide Rewrite, After;
    AfterRewrite(k, s, '{');
    if After(s, '{').Some? { AfterRewrite(k, After(s, '{').value, '}'); }
  }

  lemma ArrowRewrite(k: Pattern, s: string)
    ensures ArrowAfter(Rewrite(k, s)) == RewriteRest(k, ArrowAfter(s))
  {
    hide Rewrite, After, BracesAfter, Next;
    AfterRewrite(k, s, '(');
    if After(s, '(').Some? {
      var a := After(s, '(').value;
      AfterRewrite(k, a, ')');
      if After(a, ')').Some? {
        var b := After(a, ')').value;
        AfterRewrite(k, b, '=');
        if After(b, '=').Some? {
          var c := After(b, '=').value;
          NextRewrite(k, c, '>');
          if Next(c, '>').Some? {
            var d := Next(c, '>').value;
            BracesRewrite(k, d);
            if BracesAfter(d).Some? { AfterRewrite(k, BracesAfter(d).value, ')'); }
          }
        }
      }
    }
  }

  // The text of a match, and of a replacement, is not the end of a variable

  lemma AfterDiffers(s: string, c: char, d: char)
    requires c != d && After(s, c).Some?
    ensures After(s, d).None?
  {
  }

  lemma WordHead(s: string, c: char)
    requires s != [] && IsWord(s[0]) && !IsWord(c)
    ensures After(s, c).None?
  {
    assert !IsSpace(s[0]);
  }

  lemma {:induction false} DropWordOver(w: string, s: string)
    requires (forall i :: 0 <= i < |w| ==> IsWord(w[i])) && (s == [] || !IsWord(s[0]))
    ensures DropWord(w + s) == s
  {
    if w == [] {
      assert w + s == s;
    } else {
      assert (w + s)[1..] == w[1..] + s;
      DropWordOver(w[1..], s);
    }
  }

  lemma DropCatch(s: string)
    requires Starts(s, CATCH)
    ensures DropWord(s) == DropWord(s[5..])
  {
    assert s[0] == 'c' && s[1] == 'a' && s[2] == 't' && s[3] == 'c' && s[4] == 'h';
    assert DropWord(s) == DropWord(s[1..]) == DropWord(s[1..][1..]) == DropWord(s[1..][1..][1..]);
    assert DropWord(s[3..]) == DropWord(s[3..][1..]) == DropWord(s[3..][1..][1..]);
    assert s[1..][1..][1..] == s[3..] && s[3..][1..][1..] == s[5..];
  }

  /** After the word "catch" of a match there is no closing parenthesis. */
  lemma CatchBlocksWord(k: Pattern, s: string)
    requires Rest(k, s).Some? && !k.Handler?
    ensures WordClose(s).None?
  {
    DropCatch(s);
    var y := s[5..];
    var c := if k.Block? then '{' else '(';
    assert After(y, c).Some?;
    if y != [] && IsWord(y[0]) {
      WordHead(y, c);
    } else {
      assert DropWord(y) == y;
      AfterDiffers(y, c, ')');
    }
  }

  lemma SpaceParen(s: string)
    ensures After(" (" + s, ')').None? && DropWord(" (" + s) == " (" + s
  {
    var t := " (" + s;
    assert t[1..] == "(" + s && TrimStart(t) == TrimStart(t[1..]) == "(" + s;
  }

  lemma CatchWarnBlocksWord(v: string, s: string)
    ensures WordClose(CatchWarn(v) + s).None?
  {
    hide WarnBody;
    var t := CatchWarn(v) + s;
    var y := v + (WARN + WarnBody(v)) + s;
    assert t == CATCH + (" (" + y);
    assert Starts(t, CATCH) && t[5..] == " (" + y;
    DropCatch(t);
    SpaceParen(y);
  }

  lemma {:induction false} WordCloseRewrite(k: Pattern, s: string)
    ensures WordClose(Rewrite(k, s)) == RewriteRest(k, WordClose(s))
  {
    hide Rest, After, CatchWarn;
    if s != [] && IsWord(s[0]) {
      RewriteHead(k, s);
      if Rest(k, s).Some? {
        RestHead(k, s);
        CatchBlocksWord(k, s);
        CatchWarnBlocksWord(if k.Block? then "err" else Variable(s), Rewrite(k, Rest(k, s).value));
      } else {
        WordCloseRewrite(k, s[1..]);
      }
    } else {
      if s != [] { RewriteHead(k, s); }
      AfterRewrite(k, s, ')');
    }
  }

  lemma VariableRewrite(k: Pattern, s: string)
    ensures VariableAfter(Rewrite(k, s)) == RewriteRest(k, VariableAfter(s))
  {
    hide After, WordClose;
    AfterRewrite(k, s, '(');
    if After(s, '(').Some? {
      var t := After(s, '(').value;
      TrimRewrite(k, t);
      var w := TrimStart(t);
      if w != [] { RewriteHead(k, w); }
      WordCloseRewrite(k, w);
    }
  }

  // ---------------------------------------------------------------------------------
  // Keywords come through a rewrite

  lemma StartsFive(s: string)
    ensures Starts(s, CATCH) <==> |s| >= 5 && s[0] == 'c' && s[1] == 'a' && s[2] == 't' && s[3] == 'c' && s[4] == 'h'
  {
    assert |s| >= 5 ==> forall i :: 0 <= i < 5 ==> s[i] == s[..5][i];
    assert |s| >= 5 && s[0] == 'c' && s[1] == 'a' && s[2] == 't' && s[3] == 'c' && s[4] == 'h' ==> s[..5] == CATCH;
  }

  lemma CatchRewrite(k: Pattern, s: string)
    requires Rest(k, s).None? && Starts(s, CATCH)
    ensures Starts(Rewrite(k, s), CATCH) && Rewrite(k, s)[5..] == Rewrite(k, s[5..])
  {
    hide Rewrite, Rest;
    StartsFive(s);
    var t1, t2, t3, t4 := s[1..], s[2..], s[3..], s[4..];
    assert t1[1..] == t2 && t2[1..] == t3 && t3[1..] == t4 && t4[1..] == s[5..];
    RewriteHead(k, s);
    QuietCopy(k, t1);
    QuietCopy(k, t2);
    NotCatchAtCh(k, t3);
    RewriteHead(k, t3);
    QuietCopy(k, t4);
    var r := Rewrite(k, s);
    assert r[1..] == Rewrite(k, t1);
    assert r[2..] == Rewrite(k, t2);
    assert r[3..] == Rewrite(k, t3);
    assert r[4..] == Rewrite(k, t4);
    assert r[5..] == Rewrite(k, s[5..]);
    assert r[1] == r[1..][0] && r[2] == r[2..][0] && r[3] == r[3..][0] && r[4] == r[4..][0];
    StartsFive(r);
  }

  lemma QuietCopy(k: Pattern, s: string)
    requires s != [] && Quiet(s[0])
    ensures Rewrite(k, s) != [] && Rewrite(k, s)[0] == s[0] && Rewrite(k, s)[1..] == Rewrite(k, s[1..])
  {
    QuietHead(k, s);
  }

  lemma NotCatchAtCh(k: Pattern, s: string)
    requires |s| >= 2 && s[0] == 'c' && s[1] == 'h'
    ensures Rest(k, s).None?
  {
    StartsFive(s);
    if k.Handler? && Starts(s, DOT_CATCH) { StartsHead(s, DOT_CATCH); }
  }

  /** The letters "catch" appear in the rewritten text only where they were. */
  lemma CatchWasThere(k: Pattern, s: string)
    requires Rest(k, s).None? && Starts(Rewrite(k, s), CATCH)
    ensures Starts(s, CATCH)
  {
    hide Rewrite, Rest, Replacement;
    var r := Rewrite(k, s);
    StartsFive(r);
    assert s != [] by { EmptyRewrite(k, s); }
    RewriteHead(k, s);
    var t1 := s[1..];
    assert r[1..] == Rewrite(k, t1) && r[1] == r[1..][0];
    HeadWas(k, t1);
    QuietCopy(k, t1);
    var t2 := t1[1..];
    assert r[2..] == r[1..][1..] && r[2] == r[2..][0];
    HeadWas(k, t2);
    QuietCopy(k, t2);
    var t3 := t2[1..];
    assert r[3..] == r[2..][1..] && r[3] == r[3..][0];
    HeadWas(k, t3);
    if Rest(k, t3).Some? { MatchGivesCatch(k, t3); }
    assert r[4] == r[3..][1];
    RewriteHead(k, t3);
    var t4 := t3[1..];
    assert r[3..][1..] == Rewrite(k, t4);
    HeadWas(k, t4);
    assert s[1] == t1[0] && s[2] == t2[0] && s[3] == t3[0] && s[4] == t4[0];
    StartsFive(s);
  }

  lemma EmptyRewrite(k: Pattern, s: string)
    ensures Rewrite(k, s) == [] <==> s == []
  {
    if s != [] { RewriteHead(k, s); }
  }

  lemma HeadWas(k: Pattern, s: string)
    requires Rewrite(k, s) != []
    ensures s != [] && s[0] == Rewrite(k, s)[0]
  {
    EmptyRewrite(k, s);
    RewriteHead(k, s);
  }

  /** Where a match that starts with 'c' is rewritten, the second letter is 'a'. */
  lemma MatchGivesCatch(k: Pattern, s: string)
    requires s != [] && s[0] == 'c' && Rest(k, s).Some?
    ensures |Rewrite(k, s)| >= 2 && Rewrite(k, s)[1] == 'a'
  {
    RestHead(k, s);
    RewriteHead(k, s);
  }

  lemma StartsDotCatch(s: string)
    ensures Starts(s, DOT_CATCH) <==>
      s != [] && s[0] == '.' && Starts(s[1..], CATCH) && Next(s[6..], '(').Some?
    ensures Starts(s, DOT_CATCH) ==> Next(s[6..], '(') == Some(s[7..])
  {
    if s != [] {
      var x := s[1..];
      StartsFive(x);
      assert |s| >= 7 ==> forall i :: 0 <= i < 7 ==> s[i] == s[..7][i];
      assert |x| >= 5 ==> x[0] == s[1] && x[1] == s[2] && x[2] == s[3] && x[3] == s[4] && x[4] == s[5];
      if |s| >= 7 && s[0] == '.' && s[1] == 'c' && s[2] == 'a' && s[3] == 't' && s[4] == 'c' && s[5] == 'h' &&
        s[6] == '('
      {
        assert s[..7] == DOT_CATCH;
      }
    }
  }

  /** What the third pattern looks for after the dot and the letters. */
  function HandlerRest(y: string): Option<string> {
    match Next(y, '(')
    case None => None
    case Some(t) => ArrowAfter(t)
  }

  lemma HandlerParts(s: string)
    ensures Rest(Handler, s) ==
      if s != [] && s[0] == '.' && Starts(s[1..], CATCH) then HandlerRest(s[6..]) else None
  {
    hide ArrowAfter;
    StartsDotCatch(s);
  }

  lemma HandlerRestRewrite(k: Pattern, y: string)
    ensures HandlerRest(Rewrite(k, y)) == RewriteRest(k, HandlerRest(y))
  {
    hide Rewrite, ArrowAfter, Next;
    NextRewrite(k, y, '(');
    if Next(y, '(').Some? { ArrowRewrite(k, Next(y, '(').value); }
  }

  lemma NextIsAfter(y: string, c: char)
    requires Next(y, c).Some? && !IsSpace(c)
    ensures After(y, c) == Next(y, c)
  {
  }

  /** A catch block is not a catch handler, before or after it is rewritten. */
  lemma BlockIsNoHandler(k: Pattern, x: string)
    requires Rest(k, x).Some? && !k.Handler?
    ensures Starts(x, CATCH) && HandlerRest(x[5..]).None?
  {
    hide WordClose;
    var y := x[5..];
    if Next(y, '(').Some? {
      NextIsAfter(y, '(');
      if k.Block? {
        AfterDiffers(y, '(', '{');
      } else {
        WordHead(TrimStart(y[1..]), '(');
      }
    }
  }

  lemma CatchWarnIsNoHandler(v: string, s: string)
    ensures Starts(CatchWarn(v) + s, CATCH) && HandlerRest((CatchWarn(v) + s)[5..]).None?
  {
    hide WarnBody;
    var t := CatchWarn(v) + s;
    var y := v + (WARN + WarnBody(v)) + s;
    assert t == CATCH + (" (" + y);
    assert t[..5] == CATCH && t[5..] == " (" + y;
  }

  lemma HandlerRewrite(k: Pattern, s: string)
    requires Rest(k, s).None?
    ensures Rest(Handler, Rewrite(k, s)) == RewriteRest(k, Rest(Handler, s))
  {
    hide Rewrite, HandlerRest, Rest, CatchWarn;
    var r := Rewrite(k, s);
    HandlerParts(s);
    HandlerParts(r);
    if s == [] {
      EmptyRewrite(k, s);
    } else {
      RewriteHead(k, s);
      if s[0] == '.' {
        var x := s[1..];
        assert r[1..] == Rewrite(k, x);
        assert |s| >= 6 ==> s[6..] == x[5..];
        assert |r| >= 6 ==> r[6..] == r[1..][5..];
        if Rest(k, x).Some? {
          RestHead(k, x);
          RewriteHead(k, x);
          if k.Handler? {
            if Starts(x, CATCH) { StartsHead(x, CATCH); }
            if Starts(r[1..], CATCH) { StartsHead(r[1..], CATCH); }
          } else {
            BlockIsNoHandler(k, x);
            CatchWarnIsNoHandler(if k.Block? then "err" else Variable(x), Rewrite(k, Rest(k, x).value));
          }
        } else if Starts(x, CATCH) {
          CatchRewrite(k, x);
          HandlerRestRewrite(k, x[5..]);
        } else if Starts(r[1..], CATCH) {
          CatchWasThere(k, x);
        }
      }
    }
  }

  /** Where a rewrite leaves the text alone, every pattern finds in the new text what it found in the old. */
  lemma RestRewrite(j: Pattern, k: Pattern, s: string)
    requires Rest(k, s).None?
    ensures Rest(j, Rewrite(k, s)) == RewriteRest(k, Rest(j, s))
  {
    hide Rewrite, BracesAfter, VariableAfter, ArrowAfter;
    if j.Handler? {
      HandlerRewrite(k, s);
    } else if Starts(s, CATCH) {
      CatchRewrite(k, s);
      BracesRewrite(k, s[5..]);
      VariableRewrite(k, s[5..]);
      if VariableAfter(s[5..]).Some? { BracesRewrite(k, VariableAfter(s[5..]).value); }
    } else if Starts(Rewrite(k, s), CATCH) {
      CatchWasThere(k, s);
    }
  }

  // ---------------------------------------------------------------------------------
  // Scanning past text in which nothing starts

  /** Where the matches start that a global search finds, each by the length of the text from there on. */
  ghost function Hits(k: Pattern, s: string): seq<nat>
    decreases |s|
  {
    if s == [] then []
    else
      match Rest(k, s)
      case Some(r) => [|s|] + Hits(k, r)
      case None => Hits(k, s[1..])
  }

  lemma {:induction false} CountIsHits(k: Pattern, s: string)
    ensures Count(k, s) == |Hits(k, s)| && forall i :: 0 <= i < |Hits(k, s)| ==> 0 < Hits(k, s)[i] <= |s|
    decreases |s|
  {
    hide Rest;
    if s != [] {
      CountIsHits(k, if Rest(k, s).Some? then Rest(k, s).value else s[1..]);
    }
  }

  lemma SkipQuiet(j: Pattern, s: string)
    requires s != [] && Quiet(s[0])
    ensures Hits(j, s) == Hits(j, s[1..])
  {
    QuietHead(j, s);
  }

  lemma {:induction false} SkipQuietText(j: Pattern, a: string, s: string)
    requires forall i :: 0 <= i < |a| ==> Quiet(a[i])
    ensures Hits(j, a + s) == Hits(j, s)
  {
    if a == [] {
      assert a + s == s;
    } else {
      assert (a + s)[0] == a[0] && (a + s)[1..] == a[1..] + s;
      SkipQuiet(j, a + s);
      SkipQuietText(j, a[1..], s);
    }
  }

  lemma {:induction false} SkipTrim(j: Pattern, s: string)
    ensures Hits(j, s) == Hits(j, TrimStart(s))
  {
    if s != [] && IsSpace(s[0]) {
      SpaceIsQuiet(s[0]);
      SkipQuiet(j, s);
      SkipTrim(j, s[1..]);
    }
  }

  lemma SkipAfter(j: Pattern, s: string, c: char)
    requires Quiet(c) && After(s, c).Some?
    ensures Hits(j, s) == Hits(j, After(s, c).value)
  {
    hide Hits;
    SkipTrim(j, s);
    SkipQuiet(j, TrimStart(s));
  }

  lemma SkipBraces(j: Pattern, s: string)
    requires BracesAfter(s).Some?
    ensures Hits(j, s) == Hits(j, BracesAfter(s).value)
  {
    hide Hits, After;
    SkipAfter(j, s, '{');
    SkipAfter(j, After(s, '{').value, '}');
  }

  /** Past the letters "atch". */
  lemma SkipAtch(j: Pattern, s: string)
    requires Starts(s, CATCH)
    ensures Hits(j, s[1..]) == Hits(j, s[5..])
  {
    hide Rest;
    StartsFive(s);
    assert s[1..][1..] == s[2..] && s[2..][1..] == s[3..] && s[3..][1..] == s[4..] && s[4..][1..] == s[5..];
    SkipQuiet(j, s[1..]);
    SkipQuiet(j, s[2..]);
    NotCatchAtCh(j, s[3..]);
    assert Hits(j, s[3..]) == Hits(j, s[3..][1..]);
    SkipQuiet(j, s[4..]);
  }

  /** Past the letters "catch" of something that is not a match. */
  lemma SkipCatch(j: Pattern, s: string)
    requires Starts(s, CATCH) && Rest(j, s).None?
    ensures Hits(j, s) == Hits(j, s[5..])
  {
    hide Rest;
    SkipAtch(j, s);
    StartsHead(s, CATCH);
  }

  /** Within a variable no match starts. */
  lemma WordIsNoMatch(j: Pattern, s: string)
    requires s != [] && IsWord(s[0]) && WordClose(s).Some?
    ensures Rest(j, s).None?
  {
    if Rest(j, s).Some? {
      RestHead(j, s);
      CatchBlocksWord(j, s);
    }
  }

  lemma {:induction false} SkipWord(j: Pattern, s: string)
    requires WordClose(s).Some?
    ensures Hits(j, s) == Hits(j, WordClose(s).value)
  {
    hide Rest, After;
    if s != [] && IsWord(s[0]) {
      WordIsNoMatch(j, s);
      SkipWord(j, s[1..]);
    } else {
      SkipAfter(j, s, ')');
    }
  }

  lemma SkipVariable(j: Pattern, s: string)
    requires VariableAfter(s).Some?
    ensures Hits(j, s) == Hits(j, VariableAfter(s).value)
  {
    hide Hits, After, WordClose;
    SkipAfter(j, s, '(');
    SkipTrim(j, After(s, '(').value);
    SkipWord(j, TrimStart(After(s, '(').value));
  }

  lemma SkipArrow(j: Pattern, s: string)
    requires ArrowAfter(s).Some?
    ensures Hits(j, s) == Hits(j, ArrowAfter(s).value)
  {
    hide Hits, After, BracesAfter;
    SkipAfter(j, s, '(');
    var a := After(s, '(').value;
    SkipAfter(j, a, ')');
    var b := After(a, ')').value;
    SkipAfter(j, b, '=');
    var c := After(b, '=').value;
    SkipQuiet(j, c);
    var d := Next(c, '>').value;
    SkipBraces(j, d);
    SkipAfter(j, BracesAfter(d).value, ')');
  }

  /** At most one pattern matches at a place. */
  lemma MatchesExclude(j: Pattern, k: Pattern, s: string)
    requires j != k && Rest(k, s).Some?
    ensures Rest(j, s).None?
  {
    hide BracesAfter, ArrowAfter;
    RestHead(k, s);
    if Rest(j, s).Some? {
      RestHead(j, s);
      OneKind(s);
    }
  }

  lemma OneKind(s: string)
    ensures Rest(Block, s).None? || Rest(BlockWithVariable, s).None?
  {
    hide WordClose;
    var y := if Starts(s, CATCH) then s[5..] else "";
    if After(y, '{').Some? { AfterDiffers(y, '{', '('); }
  }

  /** A match holds no start of a match of another pattern. */
  lemma SkipMatch(j: Pattern, k: Pattern, s: string)
    requires j != k && Rest(k, s).Some?
    ensures Hits(j, s) == Hits(j, Rest(k, s).value)
  {
    hide Hits, BracesAfter, VariableAfter, ArrowAfter;
    MatchesExclude(j, k, s);
    match k
    case Block =>
      SkipCatch(j, s);
      SkipBraces(j, s[5..]);
    case BlockWithVariable =>
      SkipCatch(j, s);
      SkipVariable(j, s[5..]);
      SkipBraces(j, VariableAfter(s[5..]).value);
    case Handler =>
      SkipDot(j, s);
      SkipArrow(j, s[7..]);
  }

  lemma SkipDot(j: Pattern, s: string)
    requires !j.Handler? && Rest(Handler, s).Some?
    ensures Hits(j, s) == Hits(j, s[7..])
  {
    hide ArrowAfter, WordClose;
    StartsDotCatch(s);
    var x, y := s[1..], s[6..];
    assert x[5..] == y && y[1..] == s[7..];
    assert Rest(j, s).None? by { if Starts(s, CATCH) { StartsHead(s, CATCH); } }
    NextIsAfter(y, '(');
    assert Rest(j, x).None? by {
      AfterDiffers(y, '(', '{');
      ArrowHead(s[7..]);
    }
    SkipCatch(j, x);
    SkipQuiet(j, y);
  }

  /** Nor does a match hold another start of its own pattern. */
  lemma SkipInside(k: Pattern, s: string)
    requires Rest(k, s).Some?
    ensures Hits(k, s[1..]) == Hits(k, Rest(k, s).value)
  {
    hide Hits, BracesAfter, VariableAfter, ArrowAfter;
    match k
    case Block =>
      SkipAtch(k, s);
      SkipBraces(k, s[5..]);
    case BlockWithVariable =>
      SkipAtch(k, s);
      SkipVariable(k, s[5..]);
      SkipBraces(k, VariableAfter(s[5..]).value);
    case Handler =>
      SkipHandler(s);
  }

  lemma SkipHandler(s: string)
    requires Rest(Handler, s).Some?
    ensures Hits(Handler, s[1..]) == Hits(Handler, Rest(Handler, s).value)
  {
    hide Hits, ArrowAfter;
    StartsDotCatch(s);
    var x, y := s[1..], s[6..];
    assert x[5..] == y && y[1..] == s[7..] && Starts(x, CATCH);
    assert Rest(Handler, x).None? by { if Starts(x, DOT_CATCH) { StartsHead(x, DOT_CATCH); } }
    SkipCatch(Handler, x);
    SkipQuiet(Handler, y);
    SkipArrow(Handler, s[7..]);
  }

  lemma ArrowHead(t: string)
    requires ArrowAfter(t).Some?
    ensures TrimStart(t) != [] && !IsWord(TrimStart(t)[0])
  {
  }

  // ---------------------------------------------------------------------------------
  // Nothing starts in a replacement

  predicate AllWord(v: string) {
    v != [] && forall i :: 0 <= i < |v| ==> IsWord(v[i])
  }

  lemma WordCloseOf(v: string, s: string)
    requires AllWord(v)
    ensures WordClose(v + (")" + s)) == Some(s)
  {
    DropWordOver(v, ")" + s);
    assert (")" + s)[1..] == s;
  }

  /** A variable before a closing parenthesis. */
  lemma SkipName(j: Pattern, v: string, s: string)
    requires AllWord(v)
    ensures Hits(j, v + (")" + s)) == Hits(j, s)
  {
    hide Hits, WordClose;
    WordCloseOf(v, s);
    SkipWord(j, v + (")" + s));
  }

  lemma SkipOtherDot(j: Pattern, s: string)
    requires |s| >= 2 && s[0] == '.' && s[1] != 'c'
    ensures Hits(j, s) == Hits(j, s[1..])
  {
    StartsDotCatch(s);
    if Starts(s, CATCH) { StartsHead(s, CATCH); }
    if Starts(s[1..], CATCH) { StartsHead(s[1..], CATCH); }
    SkipStep(j, s);
  }

  lemma SkipWarnText(j: Pattern, s: string)
    ensures Hits(j, WARN_TEXT + s) == Hits(j, s)
  {
    hide Hits;
    var t := WARN_TEXT + s;
    assert t[0] == '.' && t[1] == 'w';
    SkipOtherDot(j, t);
    assert t[1..] == WARN_TEXT[1..] + s;
    SkipQuietText(j, WARN_TEXT[1..], s);
  }

  lemma SkipStep(j: Pattern, s: string)
    requires s != [] && Rest(j, s).None?
    ensures Hits(j, s) == Hits(j, s[1..])
  {
  }

  lemma SkipWarnTail(j: Pattern, s: string)
    ensures Hits(j, WARN_TAIL + s) == Hits(j, s)
  {
    hide Hits;
    var t := WARN_TAIL + s;
    var y := " block\", " + s;
    assert WARN_TAIL == CATCH + " block\", ";
    assert t == CATCH + y && t[..5] == CATCH && t[5..] == y;
    assert y[1..] == "block\", " + s && TrimStart(y) == TrimStart(y[1..]) == y[1..];
    if Starts(t, DOT_CATCH) { StartsHead(t, DOT_CATCH); }
    SkipCatch(j, t);
    SkipBlockWord(j, s);
  }

  lemma SkipBlockWord(j: Pattern, s: string)
    ensures Hits(j, " block\", " + s) == Hits(j, s)
  {
    hide Hits;
    var t := " block\", " + s;
    assert t == " blo" + ("ck\", " + s);
    SkipQuietText(j, " blo", "ck\", " + s);
    var u := "ck\", " + s;
    StartsFive(u);
    if Starts(u, DOT_CATCH) { StartsHead(u, DOT_CATCH); }
    SkipStep(j, u);
    assert u[1..] == "k\", " + s;
    SkipQuietText(j, "k\", ", s);
  }

  lemma SkipWarnBody(j: Pattern, v: string, s: string)
    requires AllWord(v)
    ensures Hits(j, WarnBody(v) + s) == Hits(j, s)
  {
    hide Hits;
    var end := "); }" + s;
    assert WarnBody(v) + s == WARN_TEXT + (WARN_TAIL + (v + end));
    SkipWarnText(j, WARN_TAIL + (v + end));
    SkipWarnTail(j, v + end);
    assert end == ")" + ("; }" + s);
    SkipName(j, v, "; }" + s);
    SkipQuietText(j, "; }", s);
  }

  lemma CatchWarnParts(v: string, s: string)
    ensures CatchWarn(v) + s == CATCH + (" (" + (v + (")" + (" { logger" + (WarnBody(v) + s)))))
  {
    hide WarnBody;
    assert WARN == ")" + " { logger";
  }

  /** A repaired catch block is not a match, and no match starts in it. */
  lemma SkipCatchWarn(j: Pattern, v: string, s: string)
    requires AllWord(v)
    ensures Hits(j, CatchWarn(v) + s) == Hits(j, s)
    ensures Rest(j, CatchWarn(v) + s).None?
  {
    hide Hits, WordClose, CatchWarn, Rest, WarnBody;
    var t := CatchWarn(v) + s;
    var body := WarnBody(v) + s;
    var log := " { logger" + body;
    var name := v + (")" + log);
    CatchWarnParts(v, s);
    assert t[..5] == CATCH && t[5..] == " (" + name;
    NamedBlockFails(j, v, body);
    SkipCatch(j, t);
    SkipQuietText(j, " (", name);
    SkipName(j, v, log);
    SkipQuietText(j, " { logger", body);
    SkipWarnBody(j, v, s);
  }

  lemma NamedBlockFails(j: Pattern, v: string, body: string)
    requires AllWord(v)
    ensures Rest(j, CATCH + (" (" + (v + (")" + (" { logger" + body))))).None?
  {
    hide WordClose, BracesAfter;
    var name := v + (")" + (" { logger" + body));
    var t := CATCH + (" (" + name);
    assert t[..5] == CATCH && t[5..] == " (" + name;
    CatchWarnFails(name);
    WordCloseOf(v, " { logger" + body);
    BracesFail(body);
    NoBraces(" (" + name);
    assert name[0] == v[0] && !IsSpace(v[0]) by { assert IsWord(v[0]); }
    if Starts(t, DOT_CATCH) { StartsHead(t, DOT_CATCH); }
  }

  lemma NoBraces(s: string)
    requires After(s, '{').None?
    ensures BracesAfter(s).None?
  {
  }

  lemma CatchWarnFails(name: string)
    ensures After(" (" + name, '{').None? && After(" (" + name, '(') == Some(name)
  {
    var t := " (" + name;
    assert t[1..] == "(" + name && TrimStart(t) == TrimStart(t[1..]) == "(" + name && ("(" + name)[1..] == name;
  }

  lemma BracesFail(body: string)
    ensures BracesAfter(" { logger" + body).None?
  {
    var t := " { logger" + body;
    var u := " logger" + body;
    assert t[1..] == "{" + u && TrimStart(t) == TrimStart(t[1..]) == "{" + u && ("{" + u)[1..] == u;
    assert u[1..] == "logger" + body && TrimStart(u) == TrimStart(u[1..]) == u[1..];
  }

  /** A second parenthesis with a name in it is neither a variable nor an empty parameter list. */
  lemma NamedHandlerFails(j: Pattern, name: string)
    requires name != [] && name[0] == 'e'
    ensures Rest(j, DOT_CATCH + ("(" + name)).None? && Rest(j, CATCH + ("((" + name)).None?
  {
    hide WordClose, After, BracesAfter;
    var t, u, y := DOT_CATCH + ("(" + name), CATCH + ("((" + name), "((" + name;
    assert t[..7] == DOT_CATCH && t[7..] == "(" + name;
    assert u[..5] == CATCH && u[5..] == y;
    DoubleParen(name);
    NoBraces(y);
    if Starts(t, CATCH) { StartsHead(t, CATCH); }
    if Starts(u, DOT_CATCH) { StartsHead(u, DOT_CATCH); }
  }

  lemma DoubleParen(name: string)
    requires name != [] && name[0] == 'e'
    ensures var y := "((" + name;
      After(y, '{').None? && After(y, '(') == Some("(" + name) && After("(" + name, '(') == Some(name) &&
      After(name, ')').None? && TrimStart("(" + name) == "(" + name && ("(" + name)[0] == '('
  {
    var y := "((" + name;
    assert y[1..] == "(" + name && ("(" + name)[1..] == name;
    assert TrimStart(y) == y && TrimStart("(" + name) == "(" + name && TrimStart(name) == name;
  }

  lemma HandlerWarnParts(s: string)
    ensures HandlerWarn() + s == DOT_CATCH + ("(" + ("err" + (")" + (" => { logger" + (WarnBody("err") + (")" + s))))))
  {
    hide WarnBody;
    assert ") => { logger" == ")" + " => { logger";
  }

  lemma DotCatchTail(name: string)
    ensures (DOT_CATCH + ("(" + name))[1..] == CATCH + ("((" + name)
  {
    assert DOT_CATCH == "." + (CATCH + "(");
    assert "((" + name == "(" + ("(" + name);
  }

  lemma SkipHandlerWarn(j: Pattern, s: string)
    ensures Hits(j, HandlerWarn() + s) == Hits(j, s)
    ensures Rest(j, HandlerWarn() + s).None?
  {
    hide Hits, Rest, WarnBody;
    var body := WarnBody("err") + (")" + s);
    var arrow := " => { logger" + body;
    var name := "err" + (")" + arrow);
    var t, u := HandlerWarn() + s, CATCH + ("((" + name);
    HandlerWarnParts(s);
    DotCatchTail(name);
    assert u[..5] == CATCH && u[5..] == "((" + name;
    NamedHandlerFails(j, name);
    SkipStep(j, t);
    SkipCatch(j, u);
    SkipQuietText(j, "((", name);
    SkipName(j, "err", arrow);
    SkipQuietText(j, " => { logger", body);
    SkipWarnBody(j, "err", ")" + s);
    SkipQuietText(j, ")", s);
  }

  lemma {:induction false} TakeWordIsWord(s: string)
    requires s != [] && IsWord(s[0])
    ensures AllWord(TakeWord(s))
  {
    if |s| > 1 && IsWord(s[1]) {
      TakeWordIsWord(s[1..]);
    }
  }

  lemma SkipReplacement(j: Pattern, k: Pattern, s: string, t: string)
    requires Rest(k, s).Some?
    ensures Hits(j, Replacement(k, s) + t) == Hits(j, t) && Rest(j, Replacement(k, s) + t).None?
  {
    hide Hits, CatchWarn, HandlerWarn, BracesAfter, ArrowAfter, WordClose;
    match k
    case Block => SkipCatchWarn(j, "err", t);
    case BlockWithVariable =>
      TakeWordIsWord(TrimStart(After(s[5..], '(').value));
      SkipCatchWarn(j, Variable(s), t);
    case Handler => SkipHandlerWarn(j, t);
  }

  // ---------------------------------------------------------------------------------
  // Main results

  lemma CountReplacement(j: Pattern, k: Pattern, s: string, t: string)
    requires Rest(k, s).Some?
    ensures Count(j, Replacement(k, s) + t) == Count(j, t)
  {
    hide Replacement, Rest;
    SkipReplacement(j, k, s, t);
    CountIsHits(j, Replacement(k, s) + t);
    CountIsHits(j, t);
  }

  lemma CountPastMatch(j: Pattern, k: Pattern, s: string)
    requires j != k && Rest(k, s).Some?
    ensures Count(j, s) == Count(j, Rest(k, s).value)
  {
    hide Rest;
    SkipMatch(j, k, s);
    CountIsHits(j, s);
    CountIsHits(j, Rest(k, s).value);
  }

  /** A rewrite removes every match of its own pattern. */
  lemma {:induction false} RewriteRemoves(k: Pattern, s: string)
    ensures Count(k, Rewrite(k, s)) == 0
    decreases |s|
  {
    hide Rest, Replacement;
    if s != [] {
      RewriteHead(k, s);
      if Rest(k, s).Some? {
        var r := Rest(k, s).value;
        RewriteRemoves(k, r);
        CountReplacement(k, k, s, Rewrite(k, r));
      } else {
        RestRewrite(k, k, s);
        RewriteRemoves(k, s[1..]);
      }
    }
  }

  /** A rewrite neither adds nor removes matches of another pattern. */
  lemma {:induction false} RewriteKeepsCount(j: Pattern, k: Pattern, s: string)
    requires j != k
    ensures Count(j, Rewrite(k, s)) == Count(j, s)
    decreases |s|
  {
    hide Rest, Replacement;
    if s != [] {
      RewriteHead(k, s);
      if Rest(k, s).Some? {
        var r := Rest(k, s).value;
        CountPastMatch(j, k, s);
        CountReplacement(j, k, s, Rewrite(k, r));
        RewriteKeepsCount(j, k, r);
      } else {
        RestRewrite(j, k, s);
        if Rest(j, s).Some? {
          RewriteKeepsCount(j, k, Rest(j, s).value);
        } else {
          RewriteKeepsCount(j, k, s[1..]);
        }
      }
    }
  }

  /** `fixedCount` is the count of the original text, and the rewritten text has nothing left to count. */
  lemma RewriteAllFixesAll(s: string)
    ensures Fix(s).1 == CountAll(s) && CountAll(RewriteAll(s)) == 0
  {
    hide Count, Rewrite, WithImport;
    var s1 := Rewrite(Block, s);
    var s2 := Rewrite(BlockWithVariable, s1);
    RewriteKeepsCount(BlockWithVariable, Block, s);
    RewriteKeepsCount(Handler, Block, s);
    RewriteKeepsCount(Handler, BlockWithVariable, s1);
    RewriteRemoves(Block, s);
    RewriteRemoves(BlockWithVariable, s1);
    RewriteRemoves(Handler, s2);
    RewriteKeepsCount(Block, BlockWithVariable, s1);
    RewriteKeepsCount(Block, Handler, s2);
    RewriteKeepsCount(BlockWithVariable, Handler, s2);
  }
}
