/**
 The three passes in a row are one pass over the original text that replaces every match of the three
 patterns, and which characters of the original text they leave alone.
 */
module CatchOnePass {
  import opened Wrappers
  import opened Text
  import opened CatchPatterns
  import opened CatchRewriter
  import opened CatchFixpoint

  /** The pattern that matches here, if any; at most one does. */
  function KindAt(s: string): Option<Pattern> {
    if Rest(Block, s).Some? then Some(Block)
    else if Rest(BlockWithVariable, s).Some? then Some(BlockWithVariable)
    else if Rest(Handler, s).Some? then Some(Handler)
    else None
  }

  /** All matches replaced in one pass. */
  function OnePass(s: string): string
    decreases |s|
  {
    if s == [] then ""
    else
      match KindAt(s)
      case Some(k) => Replacement(k, s) + OnePass(Rest(k, s).value)
      case None => [s[0]] + OnePass(s[1..])
  }

  // ---------------------------------------------------------------------------------
  // The later passes leave replacements alone

  lemma HitHere(j: Pattern, s: string)
    requires Rest(j, s).Some?
    ensures Hits(j, s) != [] && Hits(j, s)[0] == |s|
  {
    RestHead(j, s);
  }

  /** Where no match starts before the rest t, a pass copies the text up to it. */
  lemma {:induction false} RewriteCopies(j: Pattern, a: string, t: string)
    requires Hits(j, a + t) == Hits(j, t)
    ensures Rewrite(j, a + t) == a + Rewrite(j, t)
  {
    hide Rest, Replacement;
    if a == [] {
      assert a + t == t && [] + Rewrite(j, t) == Rewrite(j, t);
    } else {
      var s := a + t;
      assert s[0] == a[0] && s[1..] == a[1..] + t;
      CountIsHits(j, t);
      assert Rest(j, s).None? by {
        if Rest(j, s).Some? { HitHere(j, s); }
      }
      RewriteCopies(j, a[1..], t);
      assert [a[0]] + (a[1..] + Rewrite(j, t)) == a + Rewrite(j, t);
    }
  }

  lemma RewriteReplacement(j: Pattern, k: Pattern, s: string, t: string)
    requires Rest(k, s).Some?
    ensures Rewrite(j, Replacement(k, s) + t) == Replacement(k, s) + Rewrite(j, t)
  {
    hide Rest, Replacement, Rewrite, Hits;
    SkipReplacement(j, k, s, t);
    RewriteCopies(j, Replacement(k, s), t);
  }

  /** A pass does not touch the variable of a match of the second pattern. */
  lemma {:induction false} WordRewrite(k: Pattern, w: string)
    requires WordClose(w).Some?
    ensures TakeWord(Rewrite(k, w)) == TakeWord(w)
  {
    hide Rest, After, Replacement;
    if w == [] {
    } else {
      RewriteHead(k, w);
      if IsWord(w[0]) {
        WordIsNoMatch(k, w);
        WordRewrite(k, w[1..]);
      }
    }
  }

  lemma VariableKept(k: Pattern, s: string)
    requires Rest(k, s).None? && Rest(BlockWithVariable, s).Some?
    ensures Rest(BlockWithVariable, Rewrite(k, s)) == Some(Rewrite(k, Rest(BlockWithVariable, s).value))
    ensures Variable(Rewrite(k, s)) == Variable(s)
  {
    RestRewrite(BlockWithVariable, k, s);
    CatchRewrite(k, s);
    VariableOf(k, s[5..]);
  }

  lemma VariableOf(k: Pattern, y: string)
    requires VariableAfter(y).Some?
    ensures After(Rewrite(k, y), '(').Some?
    ensures TakeWord(TrimStart(After(Rewrite(k, y), '(').value)) == TakeWord(TrimStart(After(y, '(').value))
  {
    hide Rewrite, WordClose, After, TakeWord;
    AfterRewrite(k, y, '(');
    TrimRewrite(k, After(y, '(').value);
    WordRewrite(k, TrimStart(After(y, '(').value));
  }

  // ---------------------------------------------------------------------------------
  // Three passes are one

  lemma OneStep(k: Pattern, s: string)
    requires s != [] && Rest(k, s).None?
    ensures Rewrite(k, s) == [s[0]] + Rewrite(k, s[1..])
  {
  }

  lemma PassesAtBlock(s: string, r: string)
    requires Rest(Block, s) == Some(r)
    ensures RewriteAll(s) == Replacement(Block, s) + RewriteAll(r)
  {
    hide Rest, Replacement;
    RewriteHead(Block, s);
    var t := Rewrite(Block, r);
    RewriteReplacement(BlockWithVariable, Block, s, t);
    RewriteReplacement(Handler, Block, s, Rewrite(BlockWithVariable, t));
  }

  lemma PassesAtVariable(s: string, r: string)
    requires Rest(Block, s).None? && Rest(BlockWithVariable, s) == Some(r)
    ensures RewriteAll(s) == Replacement(BlockWithVariable, s) + RewriteAll(r)
  {
    hide Rest, Rewrite;
    var s1 := Rewrite(Block, s);
    VariableKept(Block, s);
    MatchRewritten(BlockWithVariable, s1, Rewrite(Block, r));
    RewriteReplacement(Handler, BlockWithVariable, s1, Rewrite(BlockWithVariable, Rewrite(Block, r)));
  }

  lemma MatchRewritten(k: Pattern, s: string, r: string)
    requires Rest(k, s) == Some(r)
    ensures Rewrite(k, s) == Replacement(k, s) + Rewrite(k, r)
  {
    hide Rest, Replacement;
    RewriteHead(k, s);
  }

  lemma PassesAtHandler(s: string, r: string)
    requires Rest(Block, s).None? && Rest(BlockWithVariable, s).None? && Rest(Handler, s) == Some(r)
    ensures RewriteAll(s) == Replacement(Handler, s) + RewriteAll(r)
  {
    hide Rest, Rewrite;
    var s1 := Rewrite(Block, s);
    RestRewrite(BlockWithVariable, Block, s);
    RestRewrite(Handler, Block, s);
    RestRewrite(Handler, BlockWithVariable, s1);
    MatchRewritten(Handler, Rewrite(BlockWithVariable, s1), Rewrite(BlockWithVariable, Rewrite(Block, r)));
  }

  lemma PassesElsewhere(s: string)
    requires s != [] && KindAt(s).None?
    ensures RewriteAll(s) == [s[0]] + RewriteAll(s[1..])
  {
    hide Rest, Rewrite;
    var s1 := Rewrite(Block, s);
    RestRewrite(BlockWithVariable, Block, s);
    RestRewrite(Handler, Block, s);
    RestRewrite(Handler, BlockWithVariable, s1);
    OneStep(Block, s);
    OneStep(BlockWithVariable, s1);
    OneStep(Handler, Rewrite(BlockWithVariable, s1));
  }

  /** The three passes in a row replace what one pass for all patterns replaces. */
  lemma {:induction false} PassesAreOne(s: string)
    ensures RewriteAll(s) == OnePass(s)
    decreases |s|
  {
    hide Rest, Replacement, RewriteAll;
    if s == [] {
      assert RewriteAll(s) == "" by { NothingRewritten(); }
    } else {
      match KindAt(s)
      case None =>
        PassesElsewhere(s);
        PassesAreOne(s[1..]);
      case Some(k) =>
        var r := Rest(k, s).value;
        match k {
          case Block => PassesAtBlock(s, r);
          case BlockWithVariable => PassesAtVariable(s, r);
          case Handler => PassesAtHandler(s, r);
        }
        PassesAreOne(r);
    }
  }

  lemma NothingRewritten()
    ensures RewriteAll("") == ""
  {
  }
}
