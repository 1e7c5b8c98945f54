/** Quoting of Windows command-line arguments, and the two ways back: a decoder and `normalizeCliValue`. */
module WindowsArgs {
  import opened Wrappers
  import opened Text

  /** The characters that get a caret. */
  predicate IsSpecial(c: char) {
    c in {'"', '^', '&', '|', '<', '>', '(', ')', '%', '!'}
  }

  predicate NeedsQuotes(v: string) {
    exists i :: 0 <= i < |v| && (IsSpace(v[i]) || IsSpecial(v[i]))
  }

  function EscapeChar(c: char): string {
    if IsSpecial(c) then ['^', c] else [c]
  }

  function EscapeArg(v: string): string {
    if v == [] then "" else EscapeChar(v[0]) + EscapeArg(v[1..])
  }

  function QuoteArg(v: string): string {
    if v == [] then "\"\""
    else if !NeedsQuotes(v) then v
    else "\"" + EscapeArg(v) + "\""
  }

  function QuoteEach(args: seq<string>): seq<string> {
    if args == [] then [] else [QuoteArg(args[0])] + QuoteEach(args[1..])
  }

  /** `args.map(quoteWindowsArg).join(' ')`. */
  function CommandLine(args: seq<string>): string {
    Join(QuoteEach(args), " ")
  }

  // ---------------------------------------------------------------------------------
  // Decoding a command line

  /** The argument up to its closing quote, and what follows the quote. */
  function Unquote(s: string): (r: Option<(string, string)>)
    ensures r.Some? ==> |r.value.1| < |s|
    decreases |s|
  {
    if s == [] then None
    else if s[0] == '"' then Some(("", s[1..]))
    else if s[0] == '^' then
      if |s| < 2 then None
      else
        match Unquote(s[2..])
        case None => None
        case Some((v, rest)) => Some(([s[1]] + v, rest))
    else
      match Unquote(s[1..])
      case None => None
      case Some((v, rest)) => Some(([s[0]] + v, rest))
  }

  function BareWord(s: string): (w: string)
    ensures w <= s
  {
    if s == [] || s[0] == ' ' then "" else [s[0]] + BareWord(s[1..])
  }

  /** One argument and what is left after it. */
  function DecodeOne(s: string): (r: Option<(string, string)>)
    ensures r.Some? ==> |r.value.1| <= |s|
  {
    if s != [] && s[0] == '"' then Unquote(s[1..])
    else Some((BareWord(s), s[|BareWord(s)|..]))
  }

  function DecodeArgs(s: string): Option<seq<string>>
    decreases |s|
  {
    match DecodeOne(s)
    case None => None
    case Some((v, rest)) =>
      if rest == [] then Some([v])
      else if rest[0] != ' ' then None
      else
        match DecodeArgs(rest[1..])
        case None => None
        case Some(more) => Some([v] + more)
  }

  function Decode(line: string): Option<seq<string>> {
    if line == [] then Some([]) else DecodeArgs(line)
  }

  lemma UnquoteChar(c: char, more: string)
    ensures Unquote(EscapeChar(c) + more) ==
      match Unquote(more) case None => None case Some((v, rest)) => Some(([c] + v, rest))
  {
    var s := EscapeChar(c) + more;
    assert s[|EscapeChar(c)|..] == more;
  }

  lemma UnquoteEnd(rest: string)
    ensures Unquote(EscapeArg("") + ("\"" + rest)) == Some(("", rest))
  {
    var tail := "\"" + rest;
    assert EscapeArg("") + tail == tail && tail[1..] == rest;
  }

  lemma {:induction false} UnquoteEscaped(v: string, rest: string)
    ensures Unquote(EscapeArg(v) + ("\"" + rest)) == Some((v, rest))
  {
    hide EscapeChar, Unquote;
    var tail := "\"" + rest;
    if v == [] {
      UnquoteEnd(rest);
    } else {
      UnquoteEscaped(v[1..], rest);
      var more := EscapeArg(v[1..]) + tail;
      UnquoteChar(v[0], more);
      assert EscapeArg(v) + tail == EscapeChar(v[0]) + more;
      assert v == [v[0]] + v[1..];
    }
  }

  lemma {:induction false} BareWordOf(v: string, rest: string)
    requires (forall i :: 0 <= i < |v| ==> v[i] != ' ') && (rest == [] || rest[0] == ' ')
    ensures BareWord(v + rest) == v
  {
    if v == [] {
      assert v + rest == rest;
    } else {
      assert (v + rest)[1..] == v[1..] + rest;
      BareWordOf(v[1..], rest);
      assert v == [v[0]] + v[1..];
    }
  }

  lemma DecodeEscaped(v: string, rest: string)
    ensures DecodeOne("\"" + EscapeArg(v) + "\"" + rest) == Some((v, rest))
  {
    hide Unquote, EscapeArg;
    var s := "\"" + EscapeArg(v) + "\"" + rest;
    UnquoteEscaped(v, rest);
    assert s[0] == '"' && s[1..] == EscapeArg(v) + ("\"" + rest);
  }

  lemma DecodeBare(v: string, rest: string)
    requires v != [] && !NeedsQuotes(v) && (rest == [] || rest[0] == ' ')
    ensures DecodeOne(v + rest) == Some((v, rest))
  {
    forall i | 0 <= i < |v| ensures v[i] != ' ' && v[i] != '"' {
      assert !(IsSpace(v[i]) || IsSpecial(v[i]));
    }
    BareWordOf(v, rest);
    assert (v + rest)[0] == v[0] && (v + rest)[|v|..] == rest;
  }

  lemma DecodeQuoted(v: string, rest: string)
    requires rest == [] || rest[0] == ' '
    ensures DecodeOne(QuoteArg(v) + rest) == Some((v, rest)) && QuoteArg(v) != []
  {
    hide DecodeOne, NeedsQuotes;
    if v != [] && !NeedsQuotes(v) {
      DecodeBare(v, rest);
    } else {
      assert QuoteArg(v) == "\"" + EscapeArg(v) + "\"";
      DecodeEscaped(v, rest);
    }
  }

  lemma {:induction false} DecodeArgsOfQuoted(args: seq<string>)
    requires args != []
    ensures DecodeArgs(CommandLine(args)) == Some(args) && CommandLine(args) != []
  {
    hide QuoteArg, DecodeOne;
    var quoted := QuoteEach(args);
    assert quoted[0] == QuoteArg(args[0]) && quoted[1..] == QuoteEach(args[1..]);
    if |args| == 1 {
      assert QuoteEach(args[1..]) == [] && quoted == [QuoteArg(args[0])];
      DecodeQuoted(args[0], "");
      assert QuoteArg(args[0]) + "" == QuoteArg(args[0]) && args == [args[0]];
    } else {
      assert QuoteEach(args[1..]) != [];
      var rest := " " + CommandLine(args[1..]);
      DecodeQuoted(args[0], rest);
      DecodeArgsOfQuoted(args[1..]);
      assert CommandLine(args) == QuoteArg(args[0]) + rest;
      assert rest[1..] == CommandLine(args[1..]);
      assert args == [args[0]] + args[1..];
    }
  }

  /** The argument list can be recovered from the command line, whatever the arguments. */
  lemma CommandLineDecodes(args: seq<string>)
    ensures Decode(CommandLine(args)) == Some(args)
  {
    if args != [] {
      DecodeArgsOfQuoted(args);
    }
  }

  /** Different argument lists give different command lines. */
  lemma CommandLineIsInjective(a: seq<string>, b: seq<string>)
    requires CommandLine(a) == CommandLine(b)
    ensures a == b
  {
    CommandLineDecodes(a);
    CommandLineDecodes(b);
  }

  // ---------------------------------------------------------------------------------
  // normalizeCliValue

  function StripStart(s: string, c: char): string {
    if s != [] && s[0] == c then StripStart(s[1..], c) else s
  }

  function StripEnd(s: string, c: char): string {
    if s != [] && s[|s| - 1] == c then StripEnd(s[..|s| - 1], c) else s
  }

  function Without(s: string, c: char): string {
    if s == [] then "" else (if s[0] == c then "" else [s[0]]) + Without(s[1..], c)
  }

  /** Trim, carets off both ends, quotes off both ends, and every other caret out. */
  function NormalizeCliValue(v: string): string {
    var trimmed := Trim(v);
    var bare := StripEnd(StripStart(trimmed, '^'), '^');
    Without(StripEnd(StripStart(bare, '"'), '"'), '^')
  }

  predicate EndsWithQuote(v: string) {
    v != [] && v[|v| - 1] == '"'
  }

  lemma {:induction false} WithoutAppend(a: string, b: string, c: char)
    ensures Without(a + b, c) == Without(a, c) + Without(b, c)
  {
    if a == [] {
      assert a + b == b;
    } else {
      assert (a + b)[1..] == a[1..] + b;
      WithoutAppend(a[1..], b, c);
    }
  }

  lemma {:induction false} WithoutShrinks(s: string, c: char)
    ensures |Without(s, c)| <= |s| && (Without(s, c) == s <==> c !in s)
  {
    if s != [] {
      WithoutShrinks(s[1..], c);
      assert s == [s[0]] + s[1..];
    }
  }

  lemma {:induction false} EscapeAppend(a: string, b: string)
    ensures EscapeArg(a + b) == EscapeArg(a) + EscapeArg(b)
  {
    if a == [] {
      assert a + b == b;
    } else {
      assert (a + b)[1..] == a[1..] + b;
      EscapeAppend(a[1..], b);
    }
  }

  /** Taking out the carets undoes the escaping, up to the carets that were there. */
  lemma {:induction false} WithoutEscaped(v: string)
    ensures Without(EscapeArg(v), '^') == Without(v, '^')
  {
    if v != [] {
      WithoutEscaped(v[1..]);
      if IsSpecial(v[0]) {
        WithoutAppend(['^', v[0]], EscapeArg(v[1..]), '^');
        assert ['^', v[0]][1..] == [v[0]] && [v[0]][1..] == "";
        assert Without([v[0]], '^') == if v[0] == '^' then "" else [v[0]];
        assert Without(['^', v[0]], '^') == Without([v[0]], '^');
      } else {
        assert ([v[0]] + EscapeArg(v[1..]))[1..] == EscapeArg(v[1..]);
      }
    }
  }

  lemma EscapedStart(v: string)
    requires v != []
    ensures EscapeArg(v) != [] && EscapeArg(v)[0] != '"'
  {
  }

  /** The last character of the escaped text is the last character of the text. */
  lemma EscapedEnd(v: string)
    requires v != []
    ensures var init, last := v[..|v| - 1], v[|v| - 1];
      EscapeArg(v) == EscapeArg(init) + (if IsSpecial(last) then ['^', last] else [last])
  {
    var init, last := v[..|v| - 1], v[|v| - 1];
    assert v == init + [last];
    EscapeAppend(init, [last]);
    assert [last][1..] == "";
    assert EscapeArg([last]) == (if IsSpecial(last) then ['^', last] else [last]) + "";
  }

  lemma StripEndOne(s: string, c: char)
    ensures StripEnd(s + [c], c) == StripEnd(s, c)
  {
    assert (s + [c])[..|s|] == s;
  }

  lemma StripEndOther(s: string, c: char)
    requires s == [] || s[|s| - 1] != c
    ensures StripEnd(s, c) == s
  {
  }

  /** The quotes that come off the end: the one that was put there, and one more if the value ends with one. */
  lemma StripQuoted(v: string)
    requires v != []
    ensures StripEnd(EscapeArg(v) + "\"", '"') ==
      if EndsWithQuote(v) then EscapeArg(v[..|v| - 1]) + "^" else EscapeArg(v)
  {
    hide EscapeArg, StripEnd;
    var e, init, last := EscapeArg(v), v[..|v| - 1], v[|v| - 1];
    EscapedEnd(v);
    StripEndOne(e, '"');
    if last == '"' {
      var f := EscapeArg(init) + "^";
      assert e == f + ['"'];
      StripEndOne(f, '"');
      StripEndOther(f, '"');
    } else {
      StripEndOther(e, '"');
    }
  }

  /** Only the opening quote comes off the start, and neither white space nor a caret off either end. */
  lemma StripOpening(e: string)
    requires e != [] && e[0] != '"'
    ensures var q := "\"" + e + "\"";
      Trim(q) == q && StripEnd(StripStart(q, '^'), '^') == q && StripStart(q, '"') == e + "\""
  {
    var q := "\"" + e + "\"";
    assert q[0] == '"' && q[|q| - 1] == '"';
    assert q[1..] == e + "\"" && (e + "\"")[0] == e[0];
  }

  lemma NormalizeQuotedForm(v: string)
    requires v != [] && NeedsQuotes(v)
    ensures NormalizeCliValue(QuoteArg(v)) == Without(if EndsWithQuote(v) then v[..|v| - 1] else v, '^')
  {
    hide EscapeArg, Trim, StripStart, StripEnd, NeedsQuotes;
    var init := v[..|v| - 1];
    EscapedStart(v);
    StripOpening(EscapeArg(v));
    StripQuoted(v);
    WithoutEscaped(v);
    if EndsWithQuote(v) {
      WithoutEscaped(init);
      WithoutAppend(EscapeArg(init), "^", '^');
      assert "^"[1..] == "" && Without("^", '^') == "" + Without("", '^') == "";
      assert Without(init, '^') + "" == Without(init, '^');
    }
  }

  /** What `normalizeCliValue` makes of any quoted value: carets and one closing quote are lost. */
  lemma NormalizeQuoted(v: string)
    ensures NormalizeCliValue(QuoteArg(v)) == Without(if EndsWithQuote(v) then v[..|v| - 1] else v, '^')
  {
    hide NormalizeCliValue, NeedsQuotes, EscapeArg;
    if v == [] {
      NormalizeEmpty();
    } else if NeedsQuotes(v) {
      NormalizeQuotedForm(v);
    } else {
      NormalizeBare(v);
    }
  }

  lemma NormalizeEmpty()
    ensures NormalizeCliValue("\"\"") == "" && Without("", '^') == ""
  {
    var q := "\"\"";
    assert Trim(q) == q && StripEnd(StripStart(q, '^'), '^') == q;
    assert q[1..] == "\"" && "\""[1..] == "";
    assert StripStart(q, '"') == "";
  }

  lemma NormalizeBare(v: string)
    requires v != [] && !NeedsQuotes(v)
    ensures NormalizeCliValue(v) == Without(v, '^') && !EndsWithQuote(v)
  {
    var first, last := v[0], v[|v| - 1];
    assert !(IsSpace(v[0]) || IsSpecial(v[0]));
    assert !(IsSpace(v[|v| - 1]) || IsSpecial(v[|v| - 1]));
    assert Trim(v) == v;
    NothingToStrip(v, '^');
    NothingToStrip(v, '"');
  }

  lemma NothingToStrip(v: string, c: char)
    requires v != [] && v[0] != c && v[|v| - 1] != c
    ensures StripEnd(StripStart(v, c), c) == v
  {
  }

  /** The value survives quoting and normalizing exactly when it has no caret and does not end with a quote. */
  lemma NormalizeUndoesQuoteIff(v: string)
    ensures NormalizeCliValue(QuoteArg(v)) == v <==> '^' !in v && !EndsWithQuote(v)
  {
    NormalizeQuoted(v);
    WithoutShrinks(v, '^');
    if EndsWithQuote(v) {
      WithoutShrinks(v[..|v| - 1], '^');
    }
  }

  /** A caret and a closing quote that are lost. */
  lemma CaretAndQuoteAreLost()
    ensures NormalizeCliValue(QuoteArg("a^b")) == "ab" && NormalizeCliValue(QuoteArg("a\"")) == "a"
  {
    hide NormalizeCliValue, QuoteArg;
    NormalizeQuoted("a^b");
    NormalizeQuoted("a\"");
    assert "a^b"[1..] == "^b" && "^b"[1..] == "b" && "b"[1..] == "" && "a\""[..1] == "a" && "a"[1..] == "";
    assert Without("b", '^') == "b" && Without("^b", '^') == "b" && Without("a^b", '^') == "ab";
    assert Without("a", '^') == "a";
  }

  /** A token that ends an option's value. */
  predicate IsOption(token: string) {
    var t := Trim(token);
    |t| >= 2 && t[..2] == "--"
  }

  /** `readOptionValue`: the tokens up to the next option, joined by spaces and normalized. */
  method ReadOptionValue(argv: seq<string>, currentIndex: nat) returns (value: string, nextIndex: nat)
    requires currentIndex < |argv|
    ensures currentIndex <= nextIndex < |argv|
    ensures value == NormalizeCliValue(Join(argv[currentIndex + 1..nextIndex + 1], " "))
    ensures forall i :: currentIndex < i <= nextIndex ==> !IsOption(argv[i])
    ensures nextIndex + 1 < |argv| ==> IsOption(argv[nextIndex + 1])
  {
    var chunks := [];
    nextIndex := currentIndex;
    while nextIndex + 1 < |argv|
      invariant currentIndex <= nextIndex < |argv|
      invariant chunks == argv[currentIndex + 1..nextIndex + 1]
      invariant forall i :: currentIndex < i <= nextIndex ==> !IsOption(argv[i])
    {
      var candidate := argv[nextIndex + 1];
      if IsOption(candidate) {
        break;
      }
      chunks := chunks + [candidate];
      nextIndex := nextIndex + 1;
    }
    value := NormalizeCliValue(Join(chunks, " "));
  }
}
