/** Inserting the logger import makes nothing match, so a second pass has nothing to do. */
module CatchImport {
  import opened Wrappers
  import opened Text
  import opened CatchPatterns
  import opened CatchRewriter
  import opened CatchFixpoint

  // ---------------------------------------------------------------------------------
  // A match does not depend on what follows it, and does not run into the import line

  lemma {:induction false} TrimGrow(a: string, x: string)
    ensures TrimStart(a) != [] ==> TrimStart(a + x) == TrimStart(a) + x
    ensures TrimStart(a) == [] ==> TrimStart(a + x) == TrimStart(x)
  {
    if a == [] {
      assert a + x == x;
    } else {
      assert (a + x)[0] == a[0] && (a + x)[1..] == a[1..] + x;
      if IsSpace(a[0]) { TrimGrow(a[1..], x); }
    }
  }

  lemma AfterGrow(a: string, x: string, c: char)
    requires After(a, c).Some?
    ensures After(a + x, c) == Some(After(a, c).value + x)
  {
    TrimGrow(a, x);
    assert (TrimStart(a) + x)[1..] == TrimStart(a)[1..] + x;
  }

  /** The line starts with a word character, so it is not white space and holds no expected character. */
  predicate StartsWithImport(x: string) {
    Starts(x, "import {")
  }

  lemma AfterBlocked(a: string, x: string, c: char)
    requires After(a, c).None? && StartsWithImport(x) && c != 'i'
    ensures After(a + x, c).None?
  {
    StartsHead(x, "import {");
    TrimGrow(a, x);
    assert TrimStart(x) == x;
  }

  lemma NextGrow(a: string, x: string, c: char)
    requires StartsWithImport(x) && c != 'i'
    ensures Next(a + x, c) == match Next(a, c) case None => None case Some(r) => Some(r + x)
  {
    StartsHead(x, "import {");
    if a == [] {
      assert a + x == x;
    } else {
      assert (a + x)[1..] == a[1..] + x;
    }
  }

  /** The scan of the longer text is the scan of the shorter one, with the rest of the text behind it. */
  ghost predicate Grows(short: Option<string>, long: Option<string>, x: string) {
    long == match short case None => None case Some(r) => Some(r + x)
  }

  lemma AfterGrows(a: string, x: string, c: char)
    requires StartsWithImport(x) && c != 'i'
    ensures Grows(After(a, c), After(a + x, c), x)
  {
    if After(a, c).Some? { AfterGrow(a, x, c); } else { AfterBlocked(a, x, c); }
  }

  lemma BracesGrows(a: string, x: string)
    requires StartsWithImport(x)
    ensures Grows(BracesAfter(a), BracesAfter(a + x), x)
  {
    hide After, StartsWithImport;
    AfterGrows(a, x, '{');
    if After(a, '{').Some? { AfterGrows(After(a, '{').value, x, '}'); }
  }

  lemma ImportWord(x: string)
    requires StartsWithImport(x)
    ensures WordClose(x).None?
  {
    var y := x[6..];
    assert forall i :: 0 <= i < 8 ==> x[i] == x[..8][i];
    assert x[0] == 'i' && x[1] == 'm' && x[2] == 'p' && x[3] == 'o' && x[4] == 'r' && x[5] == 't' &&
      x[6] == ' ' && x[7] == '{';
    assert x == "import" + y && y[0] == ' ';
    DropWordOver("import", y);
    assert y[1..][0] == '{' && TrimStart(y) == TrimStart(y[1..]) == y[1..];
  }

  lemma {:induction false} WordGrows(a: string, x: string)
    requires StartsWithImport(x)
    ensures Grows(WordClose(a), WordClose(a + x), x)
  {
    hide After, StartsWithImport;
    if a == [] {
      assert a + x == x;
      ImportWord(x);
      assert WordClose(a).None? by { EmptyAfter(')'); }
    } else {
      assert (a + x)[0] == a[0] && (a + x)[1..] == a[1..] + x;
      if IsWord(a[0]) { WordGrows(a[1..], x); } else { AfterGrows(a, x, ')'); }
    }
  }

  lemma EmptyAfter(c: char)
    ensures After("", c).None?
  {
  }

  lemma VariableGrows(a: string, x: string)
    requires StartsWithImport(x)
    ensures Grows(VariableAfter(a), VariableAfter(a + x), x)
  {
    hide After, WordClose;
    AfterGrows(a, x, '(');
    if After(a, '(').Some? {
      var t := After(a, '(').value;
      TrimGrow(t, x);
      WordGrows(TrimStart(t), x);
      if TrimStart(t) == [] {
        StartsHead(x, "import {");
        ImportWord(x);
      } else {
        assert (TrimStart(t) + x)[0] == TrimStart(t)[0];
      }
    }
  }

  lemma ArrowGrows(a: string, x: string)
    requires StartsWithImport(x)
    ensures Grows(ArrowAfter(a), ArrowAfter(a + x), x)
  {
    hide After, BracesAfter, Next, StartsWithImport;
    AfterGrows(a, x, '(');
    if After(a, '(').Some? {
      var t := After(a, '(').value;
      AfterGrows(t, x, ')');
      if After(t, ')').Some? {
        var u := After(t, ')').value;
        AfterGrows(u, x, '=');
        if After(u, '=').Some? {
          var v := After(u, '=').value;
          NextGrow(v, x, '>');
          if Next(v, '>').Some? {
            var w := Next(v, '>').value;
            BracesGrows(w, x);
            if BracesAfter(w).Some? { AfterGrows(BracesAfter(w).value, x, ')'); }
          }
        }
      }
    }
  }

  /** A keyword without the letter i does not run into the line. */
  lemma StartsGrows(a: string, x: string, p: string)
    requires StartsWithImport(x) && forall i :: 0 <= i < |p| ==> p[i] != 'i'
    ensures Starts(a + x, p) <==> Starts(a, p)
  {
    StartsHead(x, "import {");
    assert |a| < |p| <= |a + x| ==> (a + x)[..|p|][|a|] == x[0];
    assert |p| <= |a| ==> (a + x)[..|p|] == a[..|p|];
  }

  lemma RestGrows(j: Pattern, a: string, x: string)
    requires StartsWithImport(x)
    ensures Grows(Rest(j, a), Rest(j, a + x), x)
  {
    hide BracesAfter, VariableAfter, ArrowAfter, StartsWithImport;
    var p := if j.Handler? then DOT_CATCH else CATCH;
    StartsGrows(a, x, p);
    if Starts(a, p) {
      assert (a + x)[|p|..] == a[|p|..] + x;
      var y := a[|p|..];
      match j
      case Block => BracesGrows(y, x);
      case BlockWithVariable =>
        VariableGrows(y, x);
        if VariableAfter(y).Some? { BracesGrows(VariableAfter(y).value, x); }
      case Handler => ArrowGrows(y, x);
    }
  }

  // The other direction: a match stays a match whatever follows

  lemma {:induction false} WordGrow(a: string, x: string)
    requires WordClose(a).Some?
    ensures WordClose(a + x) == Some(WordClose(a).value + x)
  {
    hide After;
    if a == [] {
      EmptyAfter(')');
    } else {
      assert (a + x)[0] == a[0] && (a + x)[1..] == a[1..] + x;
      if IsWord(a[0]) { WordGrow(a[1..], x); } else { AfterGrow(a, x, ')'); }
    }
  }

  lemma BracesGrow(a: string, x: string)
    requires BracesAfter(a).Some?
    ensures BracesAfter(a + x).Some?
  {
    hide After;
    AfterGrow(a, x, '{');
    AfterGrow(After(a, '{').value, x, '}');
  }

  lemma VariableGrow(a: string, x: string)
    requires VariableAfter(a).Some?
    ensures VariableAfter(a + x) == Some(VariableAfter(a).value + x)
  {
    hide After, WordClose;
    AfterGrow(a, x, '(');
    var t := After(a, '(').value;
    TrimGrow(t, x);
    WordGrow(TrimStart(t), x);
    assert (TrimStart(t) + x)[0] == TrimStart(t)[0];
  }

  lemma ArrowGrow(a: string, x: string)
    requires ArrowAfter(a).Some?
    ensures ArrowAfter(a + x).Some?
  {
    hide After;
    AfterGrow(a, x, '(');
    var t := After(a, '(').value;
    AfterGrow(t, x, ')');
    var u := After(t, ')').value;
    AfterGrow(u, x, '=');
    var v := After(u, '=').value;
    assert (v + x)[0] == v[0] && (v + x)[1..] == v[1..] + x;
    var w := v[1..];
    AfterGrow(w, x, '{');
    AfterGrow(After(w, '{').value, x, '}');
    AfterGrow(BracesAfter(w).value, x, ')');
  }

  lemma RestGrow(j: Pattern, a: string, x: string)
    requires Rest(j, a).Some?
    ensures Rest(j, a + x).Some?
  {
    hide BracesAfter, VariableAfter, ArrowAfter;
    var p := if j.Handler? then DOT_CATCH else CATCH;
    assert (a + x)[..|p|] == a[..|p|] && (a + x)[|p|..] == a[|p|..] + x;
    var y := a[|p|..];
    match j
    case Block => BracesGrow(y, x);
    case BlockWithVariable =>
      VariableGrow(y, x);
      BracesGrow(VariableAfter(y).value, x);
    case Handler => ArrowGrow(y, x);
  }

  // ---------------------------------------------------------------------------------
  // Nothing starts in the import line

  const IMPORT_HEAD := "import { logger } from '"
  const IMPORT_MIDDLE := "/logger"
  const IMPORT_TAIL := "js';\n"

  lemma ImportLineParts(s: string)
    ensures IMPORT_LINE + s == IMPORT_HEAD + ("." + ("." + (IMPORT_MIDDLE + ("." + (IMPORT_TAIL + s)))))
  {
  }

  /** Past a piece of the line and past a dot before it. */
  lemma SkipPiece(j: Pattern, piece: string, t: string)
    requires piece in {IMPORT_HEAD, IMPORT_MIDDLE, IMPORT_TAIL}
    ensures Hits(j, piece + t) == Hits(j, t) && piece + t != "" && (piece + t)[0] != 'c'
  {
    hide Hits;
    PiecesAreQuiet();
    SkipQuietText(j, piece, t);
    assert (piece + t)[0] == piece[0];
  }

  lemma PiecesAreQuiet()
    ensures forall piece :: piece in {IMPORT_HEAD, IMPORT_MIDDLE, IMPORT_TAIL} ==>
      piece != "" && forall i :: 0 <= i < |piece| ==> Quiet(piece[i])
  {
  }

  lemma CountImportLine(j: Pattern, s: string)
    ensures Count(j, IMPORT_LINE + s) == Count(j, s)
  {
    hide Hits, Quiet;
    CountIsHits(j, IMPORT_LINE + s);
    CountIsHits(j, s);
    ImportLineParts(s);
    var d := IMPORT_TAIL + s;
    var b := IMPORT_MIDDLE + ("." + d);
    SkipPiece(j, IMPORT_HEAD, "." + ("." + b));
    SkipDotBefore(j, "." + b);
    SkipPiece(j, IMPORT_MIDDLE, "." + d);
    SkipDotBefore(j, b);
    SkipPiece(j, IMPORT_TAIL, s);
    SkipDotBefore(j, d);
  }

  lemma SkipDotBefore(j: Pattern, t: string)
    requires t != "" && t[0] != 'c'
    ensures Hits(j, "." + t) == Hits(j, t)
  {
    hide Hits;
    var s := "." + t;
    assert s[0] == '.' && s[1] == t[0] && s[1..] == t;
    SkipOtherDot(j, s);
  }

  lemma ImportLineStarts(b: string)
    ensures StartsWithImport(IMPORT_LINE + b)
  {
    assert (IMPORT_LINE + b)[..8] == IMPORT_LINE[..8] == "import {";
  }

  /** A text without matches has none with the import line inserted anywhere. */
  lemma {:induction false} InsertKeepsZero(j: Pattern, a: string, b: string)
    requires Count(j, a + b) == 0
    ensures Count(j, a + (IMPORT_LINE + b)) == 0
    decreases |a|
  {
    hide Rest, StartsWithImport;
    var x := IMPORT_LINE + b;
    if a == [] {
      assert a + b == b && a + x == x;
      CountImportLine(j, b);
    } else {
      assert (a + b)[1..] == a[1..] + b && (a + x)[1..] == a[1..] + x;
      ImportLineStarts(b);
      RestGrows(j, a, x);
      if Rest(j, a).Some? { RestGrow(j, a, b); }
      InsertKeepsZero(j, a[1..], b);
    }
  }

  lemma {:induction false} NothingToRewrite(k: Pattern, s: string)
    requires Count(k, s) == 0
    ensures Rewrite(k, s) == s
    decreases |s|
  {
    if s != [] {
      NothingToRewrite(k, s[1..]);
      assert s == [s[0]] + s[1..];
    }
  }

  lemma WithImportKeepsZero(s: string)
    requires CountAll(s) == 0
    ensures CountAll(WithImport(s)) == 0
  {
    hide Count;
    var last := FindLast(s, "import ", |s|);
    if last != -1 {
      var i := InsertPosition(s, last);
      assert s == s[..i] + s[i..];
      assert s[..i] + IMPORT_LINE + s[i..] == s[..i] + (IMPORT_LINE + s[i..]);
      InsertKeepsZero(Block, s[..i], s[i..]);
      InsertKeepsZero(BlockWithVariable, s[..i], s[i..]);
      InsertKeepsZero(Handler, s[..i], s[i..]);
    }
  }

  /**
   The counter and the rewriter agree, the output (with the inserted import) has no match of any pattern,
   and a second pass changes nothing.
   */
  lemma FixReachesFixpoint(s: string)
    ensures var (content, fixedCount) := Fix(s);
      fixedCount == CountAll(s) && CountAll(content) == 0 && Fix(content) == (content, 0)
  {
    hide Count, Rewrite, WithImport;
    RewriteAllFixesAll(s);
    WithImportKeepsZero(RewriteAll(s));
    var content := Fix(s).0;
    NothingToRewrite(Block, content);
    NothingToRewrite(BlockWithVariable, content);
    NothingToRewrite(Handler, content);
  }

  // ---------------------------------------------------------------------------------
  // Where the import goes, and what a match spells

  lemma {:induction false} FindIsFirst(s: string, p: string, i: nat)
    requires i <= |s|
    ensures var j := Find(s, p, i);
      (j <= |s| ==> i <= j && Starts(s[j..], p)) && forall m :: i <= m <= |s| && m < j ==> !Starts(s[m..], p)
    decreases |s| - i
  {
    if !Starts(s[i..], p) && i < |s| {
      FindIsFirst(s, p, i + 1);
    }
  }

  lemma {:induction false} FindLastIsLast(s: string, p: string, k: nat)
    requires k <= |s|
    ensures var j := FindLast(s, p, k);
      (j >= 0 ==> Starts(s[j..], p)) && forall m :: j < m < k ==> !Starts(s[m..], p)
  {
    if k > 0 && !Starts(s[k - 1..], p) {
      FindLastIsLast(s, p, k - 1);
    }
  }

  lemma StartsWithChar(s: string, m: nat, c: char)
    requires m <= |s|
    ensures Starts(s[m..], [c]) <==> m < |s| && s[m] == c
  {
    if m < |s| { assert s[m..][..1] == [s[m]]; }
  }

  /** Position i is where the line that holds position `last` is ended, or 0 if it is not ended. */
  ghost predicate AfterLineOf(s: string, last: nat, i: nat) {
    i <= |s| && (i > 0 ==> last < i && s[i - 1] == '\n' && forall m :: last <= m < i - 1 ==> s[m] != '\n') &&
    (i == 0 ==> forall m :: last <= m < |s| ==> s[m] != '\n')
  }

  /** The insert position ends the line it is searched from. */
  lemma InsertsAfterLine(s: string, last: nat)
    requires last < |s|
    ensures AfterLineOf(s, last, InsertPosition(s, last))
  {
    hide Starts;
    FindIsFirst(s, "\n", last);
    forall m | last <= m <= |s| ensures Starts(s[m..], "\n") <==> m < |s| && s[m] == '\n' {
      StartsWithChar(s, m, '\n');
    }
  }

  /** The last place where the text p starts. */
  ghost predicate LastStart(s: string, p: string, last: nat) {
    last < |s| && Starts(s[last..], p) && forall m :: last < m < |s| ==> !Starts(s[m..], p)
  }

  /**
   The import line is inserted whole between two lines: after the line of the last import, or at the very
   start when that line is the last one and is not ended. Nothing else changes.
   */
  lemma ImportIsALine(s: string) returns (last: nat, i: nat)
    requires !Contains(s, "import { logger }") && !Contains(s, "import {logger}")
    requires FindLast(s, "import ", |s|) >= 0
    ensures LastStart(s, "import ", last) && AfterLineOf(s, last, i) && WithImport(s) == s[..i] + IMPORT_LINE + s[i..]
  {
    hide Contains, InsertPosition, Starts, FindLast, AfterLineOf;
    last := FindLast(s, "import ", |s|);
    i := InsertPosition(s, last);
    FindLastIsLast(s, "import ", |s|);
    InsertsAfterLine(s, last);
  }
}
