/**
 The three regular expressions of the empty-catch rewriter: as token lists with the backtracking
 semantics of a regex engine, and as the deterministic scans they amount to.
 */
module CatchPatterns {
  import opened Wrappers
  import opened Text

  /** A literal character, `\s*`, `\w` and `\w*`. */
  datatype Token = Lit(c: char) | Spaces | WordChar | WordChars

  predicate IsWord(c: char) {
    'a' <= c <= 'z' || 'A' <= c <= 'Z' || '0' <= c <= '9' || c == '_'
  }

  /** An empty catch block, an empty catch block with a variable, an empty catch handler. */
  datatype Pattern = Block | BlockWithVariable | Handler

  const CATCH := "catch"
  const DOT_CATCH := ".catch("

  function Lits(t: string): seq<Token> {
    if t == [] then [] else [Lit(t[0])] + Lits(t[1..])
  }

  /** The regular expression itself. */
  function Tokens(k: Pattern): seq<Token> {
    match k
    case Block =>
      Lits(CATCH) + [Spaces, Lit('{'), Spaces, Lit('}')]
    case BlockWithVariable =>
      Lits(CATCH) + ([Spaces, Lit('('), Spaces, WordChar, WordChars, Spaces, Lit(')')] +
                     [Spaces, Lit('{'), Spaces, Lit('}')])
    case Handler =>
      Lits(DOT_CATCH) + [Spaces, Lit('('), Spaces, Lit(')'), Spaces, Lit('='), Lit('>'),
                        Spaces, Lit('{'), Spaces, Lit('}'), Spaces, Lit(')')]
  }

  /** What is left of the text after the match a backtracking engine finds at its start: longest first. */
  function Match(p: seq<Token>, s: string): (r: Option<string>)
    ensures r.Some? ==> |r.value| <= |s|
    decreases |s| + |p|
  {
    if p == [] then Some(s)
    else
      match p[0]
      case Lit(c) => if s != [] && s[0] == c then Match(p[1..], s[1..]) else None
      case WordChar => if s != [] && IsWord(s[0]) then Match(p[1..], s[1..]) else None
      case Spaces =>
        if s != [] && IsSpace(s[0]) && Match(p, s[1..]).Some? then Match(p, s[1..]) else Match(p[1..], s)
      case WordChars =>
        if s != [] && IsWord(s[0]) && Match(p, s[1..]).Some? then Match(p, s[1..]) else Match(p[1..], s)
  }

  // ---------------------------------------------------------------------------------
  // Deterministic scans

  /** The text after a literal character. */
  function Next(s: string, c: char): (r: Option<string>)
    ensures r.Some? ==> |r.value| < |s|
  {
    if s != [] && s[0] == c then Some(s[1..]) else None
  }

  /** The text after white space and a literal character. */
  function After(s: string, c: char): (r: Option<string>)
    ensures r.Some? ==> |r.value| < |s|
  {
    Next(TrimStartShorter(s), c)
  }

  function TrimStartShorter(s: string): (r: string)
    ensures r == TrimStart(s) && |r| <= |s|
  {
    TrimStartShape(s);
    TrimStart(s)
  }

  function DropWord(s: string): (r: string)
    ensures |r| <= |s|
  {
    if s != [] && IsWord(s[0]) then DropWord(s[1..]) else s
  }

  function TakeWord(s: string): string {
    if s != [] && IsWord(s[0]) then [s[0]] + TakeWord(s[1..]) else ""
  }

  function BracesAfter(s: string): (r: Option<string>)
    ensures r.Some? ==> |r.value| < |s|
  {
    match After(s, '{')
    case None => None
    case Some(t) => After(t, '}')
  }

  /** `\w*\s*\)` */
  function WordClose(s: string): (r: Option<string>)
    ensures r.Some? ==> |r.value| < |s|
  {
    After(DropWord(s), ')')
  }

  /** `\(\s*\w+\s*\)` after white space. */
  function VariableAfter(s: string): (r: Option<string>)
    ensures r.Some? ==> |r.value| < |s|
  {
    match After(s, '(')
    case None => None
    case Some(t) =>
      var w := TrimStartShorter(t);
      if w != [] && IsWord(w[0]) then WordClose(w) else None
  }

  /** `\(\s*\)\s*=>\s*\{\s*\}\s*\)` after white space. */
  function ArrowAfter(s: string): (r: Option<string>)
    ensures r.Some? ==> |r.value| < |s|
  {
    match After(s, '(')
    case None => None
    case Some(a) =>
      match After(a, ')')
      case None => None
      case Some(b) =>
        match After(b, '=')
        case None => None
        case Some(c) =>
          match Next(c, '>')
          case None => None
          case Some(d) =>
            match BracesAfter(d)
            case None => None
            case Some(e) => After(e, ')')
  }

  /** What is left after a match at the start of the text. */
  function Rest(k: Pattern, s: string): (r: Option<string>)
    ensures r.Some? ==> |r.value| < |s|
  {
    match k
    case Block => if Starts(s, CATCH) then BracesAfter(s[5..]) else None
    case BlockWithVariable =>
      if !Starts(s, CATCH) || VariableAfter(s[5..]).None? then None
      else BracesAfter(VariableAfter(s[5..]).value)
    case Handler => if Starts(s, DOT_CATCH) then ArrowAfter(s[7..]) else None
  }

  /** The variable a match of the second pattern captures. */
  function Variable(s: string): string
    requires Rest(BlockWithVariable, s).Some?
  {
    TakeWord(TrimStart(After(s[5..], '(').value))
  }

  // ---------------------------------------------------------------------------------
  // The scans are the regular expressions

  lemma {:induction false} MatchLits(t: string, p: seq<Token>, s: string)
    ensures Match(Lits(t) + p, s) == if Starts(s, t) then Match(p, s[|t|..]) else None
  {
    if t == [] {
      assert Lits(t) + p == p && s[0..] == s;
    } else {
      var q := Lits(t) + p;
      assert q[0] == Lit(t[0]) && q[1..] == Lits(t[1..]) + p;
      if s != [] && s[0] == t[0] {
        MatchLits(t[1..], p, s[1..]);
        assert |t| <= |s| ==> s[1..][|t| - 1..] == s[|t|..];
        assert t == [t[0]] + t[1..];
        assert Starts(s[1..], t[1..]) ==> s[..|t|] == [s[0]] + s[1..][..|t| - 1];
        assert Starts(s, t) ==> s[1..][..|t| - 1] == s[..|t|][1..];
      } else {
        assert |t| <= |s| ==> s[..|t|][0] == s[0];
      }
    }
  }

  /** The token cannot match a white space character. */
  predicate NoSpace(t: Token) {
    t.WordChar? || (t.Lit? && !IsSpace(t.c))
  }

  lemma MatchNoSpace(p: seq<Token>, s: string)
    requires p != [] && NoSpace(p[0]) && s != [] && IsSpace(s[0])
    ensures Match(p, s) == None
  {
  }

  /** `\s*` before something that is not white space takes all of it. */
  lemma {:induction false} MatchSpaces(p: seq<Token>, s: string)
    requires p != [] && NoSpace(p[0])
    ensures Match([Spaces] + p, s) == Match(p, TrimStart(s))
  {
    var q := [Spaces] + p;
    assert q[0] == Spaces && q[1..] == p;
    if s != [] && IsSpace(s[0]) {
      MatchSpaces(p, s[1..]);
      MatchNoSpace(p, s);
    }
  }

  lemma MatchAfter(c: char, p: seq<Token>, s: string)
    requires !IsSpace(c)
    ensures Match([Spaces, Lit(c)] + p, s) == match After(s, c) case None => None case Some(r) => Match(p, r)
  {
    var q := [Lit(c)] + p;
    assert [Spaces, Lit(c)] + p == [Spaces] + q && q[0] == Lit(c) && q[1..] == p;
    MatchSpaces(q, s);
  }

  /** `\w*` before white space and a parenthesis takes the whole word. */
  lemma {:induction false} MatchWord(p: seq<Token>, s: string)
    ensures Match([WordChars, Spaces, Lit(')')] + p, s) ==
      match WordClose(s) case None => None case Some(r) => Match(p, r)
  {
    var q := [WordChars, Spaces, Lit(')')] + p;
    assert q[0] == WordChars && q[1..] == [Spaces, Lit(')')] + p;
    MatchAfter(')', p, s);
    if s != [] && IsWord(s[0]) {
      MatchWord(p, s[1..]);
      assert !IsSpace(s[0]) && TrimStart(s) == s;
      assert After(s, ')') == None;
    }
  }

  lemma MatchVariable(p: seq<Token>, s: string)
    ensures Match([Spaces, Lit('('), Spaces, WordChar, WordChars, Spaces, Lit(')')] + p, s) ==
      match VariableAfter(s) case None => None case Some(r) => Match(p, r)
  {
    var word := [WordChars, Spaces, Lit(')')] + p;
    var q := [WordChar] + word;
    assert [Spaces, Lit('('), Spaces, WordChar, WordChars, Spaces, Lit(')')] + p == [Spaces, Lit('(')] + ([Spaces] + q);
    MatchAfter('(', [Spaces] + q, s);
    if After(s, '(').Some? {
      var t := After(s, '(').value;
      MatchSpaces(q, t);
      assert q[0] == WordChar && q[1..] == word;
      var w := TrimStart(t);
      if w != [] && IsWord(w[0]) {
        MatchWord(p, w[1..]);
      }
    }
  }

  lemma MatchBraces(p: seq<Token>, s: string)
    ensures Match([Spaces, Lit('{'), Spaces, Lit('}')] + p, s) ==
      match BracesAfter(s) case None => None case Some(r) => Match(p, r)
  {
    var q := [Spaces, Lit('}')] + p;
    assert [Spaces, Lit('{'), Spaces, Lit('}')] + p == [Spaces, Lit('{')] + q;
    MatchAfter('{', q, s);
    if After(s, '{').Some? {
      MatchAfter('}', p, After(s, '{').value);
    }
  }

  lemma MatchArrow(s: string)
    ensures Match([Spaces, Lit('('), Spaces, Lit(')'), Spaces, Lit('='), Lit('>'), Spaces, Lit('{'), Spaces, Lit('}'),
      Spaces, Lit(')')], s) == ArrowAfter(s)
  {
    var p5 := [Spaces, Lit(')')];
    var p4 := [Spaces, Lit('{'), Spaces, Lit('}')] + p5;
    var p3 := [Lit('>')] + p4;
    var p2 := [Spaces, Lit('=')] + p3;
    var p1 := [Spaces, Lit(')')] + p2;
    assert [Spaces, Lit('('), Spaces, Lit(')'), Spaces, Lit('='), Lit('>'),
            Spaces, Lit('{'), Spaces, Lit('}'), Spaces, Lit(')')]
      == [Spaces, Lit('(')] + p1;
    MatchAfter('(', p1, s);
    if After(s, '(').Some? {
      var a := After(s, '(').value;
      MatchAfter(')', p2, a);
      if After(a, ')').Some? {
        var b := After(a, ')').value;
        MatchAfter('=', p3, b);
        if After(b, '=').Some? {
          var c := After(b, '=').value;
          assert p3[0] == Lit('>') && p3[1..] == p4;
          if Next(c, '>').Some? {
            var d := Next(c, '>').value;
            MatchBraces(p5, d);
            if BracesAfter(d).Some? {
              assert p5 + [] == p5;
              MatchAfter(')', [], BracesAfter(d).value);
            }
          }
        }
      }
    }
  }

  /** A backtracking engine finds what the scan finds, and stops where it stops. */
  lemma RestIsMatch(k: Pattern, s: string)
    ensures Match(Tokens(k), s) == Rest(k, s)
  {
    match k
    case Block =>
      var p := [Spaces, Lit('{'), Spaces, Lit('}')];
      MatchLits(CATCH, p, s);
      if Starts(s, CATCH) {
        assert p + [] == p;
        MatchBraces([], s[5..]);
      }
    case BlockWithVariable =>
      var braces := [Spaces, Lit('{'), Spaces, Lit('}')];
      var p := [Spaces, Lit('('), Spaces, WordChar, WordChars, Spaces, Lit(')')] + braces;
      MatchLits(CATCH, p, s);
      if Starts(s, CATCH) {
        MatchVariable(braces, s[5..]);
        if VariableAfter(s[5..]).Some? {
          assert braces + [] == braces;
          MatchBraces([], VariableAfter(s[5..]).value);
        }
      }
    case Handler =>
      var p := [Spaces, Lit('('), Spaces, Lit(')'), Spaces, Lit('='), Lit('>'), Spaces, Lit('{'), Spaces, Lit('}'),
                Spaces, Lit(')')];
      MatchLits(DOT_CATCH, p, s);
      MatchArrow(s[if Starts(s, DOT_CATCH) then 7 else 0..]);
  }
}
