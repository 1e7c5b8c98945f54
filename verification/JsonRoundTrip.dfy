/** Reading what the printer wrote gives the value back. */
module JsonRoundTrip {
  import opened Wrappers
  import opened Text
  import opened Json

  /** The text does not continue a number token. */
  predicate Stops(s: string) {
    s == [] || !(IsDigit(s[0]) || s[0] == '.' || s[0] == 'e' || s[0] == 'E')
  }

  predicate Blank(s: string) {
    forall i :: 0 <= i < |s| ==> IsWs(s[i])
  }

  lemma {:induction false} SkipBlank(w: string, s: string)
    requires Blank(w)
    ensures SkipWs(w + s) == SkipWs(s)
  {
    if w == [] {
      assert w + s == s;
    } else {
      assert (w + s)[1..] == w[1..] + s;
      SkipBlank(w[1..], s);
    }
  }

  lemma {:induction false} DigitsExtend(s: string, rest: string)
    requires Stops(rest) || (Digits(s) < |s|)
    ensures Digits(s + rest) == Digits(s)
  {
    if s == [] {
      assert s + rest == rest;
    } else if IsDigit(s[0]) {
      assert (s + rest)[1..] == s[1..] + rest;
      DigitsExtend(s[1..], rest);
    }
  }

  lemma DropAppend(s: string, n: nat, rest: string)
    requires n <= |s|
    ensures (s + rest)[n..] == s[n..] + rest && (s + rest)[..n] == s[..n]
  {
  }

  lemma IntExtend(s: string, rest: string)
    requires IntLen(s).Some? && Stops(rest)
    ensures IntLen(s + rest) == IntLen(s)
  {
    DigitsExtend(s, rest);
  }

  lemma FracExtend(s: string, rest: string)
    requires FracLen(s).Some? && Stops(rest)
    ensures FracLen(s + rest) == FracLen(s)
  {
    if s == [] {
      assert s + rest == rest;
    } else {
      DropAppend(s, 1, rest);
      DigitsExtend(s[1..], rest);
    }
  }

  lemma ExpExtend(s: string, rest: string)
    requires ExpLen(s).Some? && Stops(rest)
    ensures ExpLen(s + rest) == ExpLen(s)
  {
    if s == [] {
      assert s + rest == rest;
    } else if s[0] == 'e' || s[0] == 'E' {
      var sign := if |s| > 1 && (s[1] == '+' || s[1] == '-') then 2 else 1;
      assert Digits(s[sign..]) > 0;
      assert |s| > 1;
      DropAppend(s, sign, rest);
      DigitsExtend(s[sign..], rest);
    }
  }

  lemma FracExpExtend(s: string, rest: string)
    requires FracExpLen(s).Some? && Stops(rest)
    ensures FracExpLen(s + rest) == FracExpLen(s)
  {
    hide FracLen, ExpLen, Stops;
    FracExtend(s, rest);
    DropAppend(s, FracLen(s).value, rest);
    ExpExtend(s[FracLen(s).value..], rest);
  }

  lemma UnsignedExtend(s: string, rest: string)
    requires UnsignedLen(s).Some? && Stops(rest)
    ensures UnsignedLen(s + rest) == UnsignedLen(s)
  {
    hide IntLen, FracExpLen, Stops;
    IntExtend(s, rest);
    DropAppend(s, IntLen(s).value, rest);
    FracExpExtend(s[IntLen(s).value..], rest);
  }

  /** A complete number token is read as such before any text that does not continue it. */
  lemma NumberExtend(s: string, rest: string)
    requires NumberLen(s) == Some(|s|) && Stops(rest)
    ensures NumberLen(s + rest) == Some(|s|)
  {
    hide UnsignedLen, Stops;
    assert s != [] && (s + rest)[0] == s[0];
    if s[0] == '-' {
      DropAppend(s, 1, rest);
      UnsignedExtend(s[1..], rest);
    } else {
      UnsignedExtend(s, rest);
    }
  }

  /** A number token starts with a digit or a minus sign. */
  lemma NumberStart(s: string)
    requires NumberLen(s).Some?
    ensures s != [] && (IsDigit(s[0]) || s[0] == '-')
  {
  }

  lemma HexRoundTrip(c: Code)
    requires c < 0x1_0000
    ensures Hex4(EscapeHex(c)[2..]) == Some(c)
  {
    hide HexDigit, HexValue;
    var a, b, d, e := c / 4096, c / 256 % 16, c / 16 % 16, c % 16;
    HexDigitValue(a);
    HexDigitValue(b);
    HexDigitValue(d);
    HexDigitValue(e);
    var t := EscapeHex(c)[2..];
    assert t == [HexDigit(a), HexDigit(b), HexDigit(d), HexDigit(e)];
    HexDigits(c);
  }

  lemma DivideTwice(c: nat)
    ensures c / 256 == c / 16 / 16
  {
  }

  lemma DivideThrice(c: nat)
    ensures c / 4096 == c / 16 / 16 / 16
  {
  }

  lemma HexDigits(c: nat)
    ensures ((c / 4096 * 16 + c / 256 % 16) * 16 + c / 16 % 16) * 16 + c % 16 == c
  {
    DivideTwice(c);
    DivideThrice(c);
    var q := c / 16;
    var r := q / 16;
    assert r == r / 16 * 16 + r % 16;
    assert q == r * 16 + q % 16;
    assert c == q * 16 + c % 16;
  }

  lemma HexDigitValue(n: nat)
    requires n < 16
    ensures HexValue(HexDigit(n)) == Some(n)
  {
  }

  lemma CodeRoundTrip(c: Code, rest: string)
    ensures ParseChar(PrintCode(c) + rest) == Got(c, rest) && PrintCode(c)[0] != '"'
  {
    var p := PrintCode(c);
    var s := p + rest;
    if c == 34 || c == 92 || c == 8 || c == 12 || c == 10 || c == 13 || c == 9 {
      assert s[2..] == rest;
    } else if c < 32 || 0xD800 <= c < 0xE000 {
      HexRoundTrip(c);
      assert s[6..] == rest && s[2] == p[2] && s[3] == p[3] && s[4] == p[4] && s[5] == p[5];
      assert Hex4(s[2..]) == Hex4(p[2..]);
    } else {
      assert s[1..] == rest;
    }
  }

  lemma {:induction false} CodesRoundTrip(cs: seq<Code>, rest: string)
    ensures ParseChars(PrintCodes(cs) + "\"" + rest) == Got(cs, rest)
  {
    if cs == [] {
      var s := PrintCodes(cs) + "\"" + rest;
      assert s == "\"" + rest && s[1..] == rest;
    } else {
      var tail := PrintCodes(cs[1..]) + "\"" + rest;
      assert PrintCodes(cs) + "\"" + rest == PrintCode(cs[0]) + tail;
      CodeRoundTrip(cs[0], tail);
      CodesRoundTrip(cs[1..], rest);
      assert cs == [cs[0]] + cs[1..];
    }
  }

  lemma QuoteRoundTrip(cs: seq<Code>, rest: string)
    ensures var s := Quote(cs) + rest; s[0] == '"' && ParseChars(s[1..]) == Got(cs, rest)
  {
    var s := Quote(cs) + rest;
    assert s[1..] == PrintCodes(cs) + "\"" + rest;
    CodesRoundTrip(cs, rest);
  }

  /** A printed value starts with neither white space nor a closing bracket. */
  lemma PrintStart(v: Value, indent: string)
    requires WellFormed(v)
    ensures Print(v, indent) != [] && !IsWs(Print(v, indent)[0]) && Print(v, indent)[0] !in {']', '}', ','}
  {
  }

  lemma SkipToPrint(v: Value, indent: string, rest: string)
    requires WellFormed(v) && Blank(indent)
    ensures SkipWs(indent + Print(v, indent) + rest) == Print(v, indent) + rest
  {
    PrintStart(v, indent);
    assert indent + Print(v, indent) + rest == indent + (Print(v, indent) + rest);
    SkipBlank(indent, Print(v, indent) + rest);
  }

  lemma ScalarRoundTrip(v: Value, indent: string, rest: string)
    requires WellFormed(v) && Stops(rest) && (v.Null? || v.Bool? || v.Num?)
    ensures ParseValue(Print(v, indent) + rest) == Got(v, rest)
  {
    hide NumberLen, Stops;
    var p := Print(v, indent);
    var s := p + rest;
    if v.Num? {
      NumberExtend(v.token, rest);
      NumberStart(v.token);
    }
    assert s[0] == p[0];
    assert s[..|p|] == p && s[|p|..] == rest;
  }

  /** The end of an item list: a newline, the outer indentation and the bracket. */
  lemma CloseRest(indent: string, close: char, rest: string)
    requires Blank(indent) && (close == ']' || close == '}')
    ensures var s := "\n" + indent + [close] + rest;
      Stops(s) && SkipWs(s) == [close] + rest && ([close] + rest)[1..] == rest
  {
    assert "\n" + indent + [close] + rest == ("\n" + indent) + ([close] + rest);
    SkipBlank("\n" + indent, [close] + rest);
  }

  lemma ArrayText(vs: Values, indent: string, rest: string)
    requires vs.Values?
    requires var t := SkipWs(PrintItems(vs, indent + "  ") + ("\n" + indent + "]" + rest));
      ParseItems(t) == Got(vs, rest) && t != [] && t[0] != ']'
    ensures ParseValue(Print(Arr(vs), indent) + rest) == Got(Arr(vs), rest)
  {
    hide ParseItems, ParseMembers, ParseScalar, ParseChars, PrintItems, PrintMembers;
    var text := PrintItems(vs, indent + "  ") + ("\n" + indent + "]" + rest);
    var s := Print(Arr(vs), indent) + rest;
    assert s[0] == '[' && s[1..] == "\n" + text;
    SkipBlank("\n", text);
  }

  lemma ObjectText(ms: Members, indent: string, rest: string)
    requires ms.Members?
    requires var t := SkipWs(PrintMembers(ms, indent + "  ") + ("\n" + indent + "}" + rest));
      ParseMembers(t) == Got(ms, rest) && t != [] && t[0] != '}'
    ensures ParseValue(Print(Obj(ms), indent) + rest) == Got(Obj(ms), rest)
  {
    hide ParseMembers, ParseItems, ParseScalar, ParseChars, PrintMembers, PrintItems;
    var text := PrintMembers(ms, indent + "  ") + ("\n" + indent + "}" + rest);
    var s := Print(Obj(ms), indent) + rest;
    assert s[0] == '{' && s[1..] == "\n" + text;
    SkipBlank("\n", text);
  }

  lemma EmptyText(v: Value, indent: string, rest: string)
    requires v == Arr(NoValues) || v == Obj(NoMembers)
    ensures ParseValue(Print(v, indent) + rest) == Got(v, rest)
  {
    var s := Print(v, indent) + rest;
    assert s[1..] == [s[1]] + rest && s[1..][1..] == rest;
  }

  lemma {:induction false} PrintRoundTrip(v: Value, indent: string, rest: string)
    requires WellFormed(v) && Blank(indent) && Stops(rest)
    ensures ParseValue(Print(v, indent) + rest) == Got(v, rest)
    decreases v, 0
  {
    hide ParseItems, ParseMembers, PrintItems, PrintMembers, ParseScalar, SkipWs;
    match v
    case Str(cs) =>
      QuoteRoundTrip(cs, rest);
    case Arr(NoValues) =>
      EmptyText(v, indent, rest);
    case Obj(NoMembers) =>
      EmptyText(v, indent, rest);
    case Arr(vs) =>
      ItemsRoundTrip(vs, indent + "  ", indent, rest);
      ArrayText(vs, indent, rest);
    case Obj(ms) =>
      MembersRoundTrip(ms, indent + "  ", indent, rest);
      ObjectText(ms, indent, rest);
    case _ =>
      ScalarRoundTrip(v, indent, rest);
  }

  lemma {:induction false} ItemsRoundTrip(vs: Values, indent: string, outer: string, rest: string)
    requires vs.Values? && WellFormedItems(vs) && Blank(indent) && Blank(outer)
    ensures var t := SkipWs(PrintItems(vs, indent) + ("\n" + outer + "]" + rest));
      ParseItems(t) == Got(vs, rest) && t != [] && t[0] != ']'
    decreases vs, 1
  {
    var v, end := vs.head, "\n" + outer + "]" + rest;
    PrintStart(v, indent);
    CloseRest(outer, ']', rest);
    if vs.tail.NoValues? {
      SkipToPrint(v, indent, end);
      assert PrintItems(vs, indent) + end == indent + Print(v, indent) + end;
      PrintRoundTrip(v, indent, end);
    } else {
      var more := PrintItems(vs.tail, indent) + end;
      var after := ",\n" + more;
      assert PrintItems(vs, indent) + end == indent + Print(v, indent) + after;
      SkipToPrint(v, indent, after);
      PrintRoundTrip(v, indent, after);
      CommaRest(more);
      ItemsRoundTrip(vs.tail, indent, outer, rest);
    }
  }

  lemma ColonRest(value: string)
    requires value != [] && !IsWs(value[0])
    ensures var t := ": " + value; SkipWs(t) == t && t[0] == ':' && SkipWs(t[1..]) == value
  {
    assert (": " + value)[1..] == " " + value;
    SkipBlank(" ", value);
  }

  lemma KeyRoundTrip(key: seq<Code>, v: Value, indent: string, rest: string)
    requires WellFormed(v)
    ensures ParseKey(Quote(key) + ": " + Print(v, indent) + rest) == Got(key, Print(v, indent) + rest)
  {
    hide Print, Quote, ParseChars;
    var value := Print(v, indent) + rest;
    assert Quote(key) + ": " + Print(v, indent) + rest == Quote(key) + (": " + value);
    QuoteRoundTrip(key, ": " + value);
    PrintStart(v, indent);
    ColonRest(value);
  }

  /** One printed member, from its indentation to the text after its value. */
  lemma MemberText(key: seq<Code>, v: Value, indent: string, after: string)
    requires WellFormed(v) && Blank(indent)
    ensures var t := SkipWs(indent + (Quote(key) + ": " + Print(v, indent) + after));
      t != [] && t[0] == '"' && ParseKey(t) == Got(key, Print(v, indent) + after)
  {
    hide ParseKey, Print;
    var t := Quote(key) + ": " + Print(v, indent) + after;
    SkipBlank(indent, t);
    KeyRoundTrip(key, v, indent, after);
  }

  lemma {:induction false} MembersRoundTrip(ms: Members, indent: string, outer: string, rest: string)
    requires ms.Members? && WellFormedMembers(ms) && Blank(indent) && Blank(outer)
    ensures var t := SkipWs(PrintMembers(ms, indent) + ("\n" + outer + "}" + rest));
      ParseMembers(t) == Got(ms, rest) && t != [] && t[0] != '}'
    decreases ms, 1
  {
    hide ParseKey, ParseValue, Quote, Print, SkipWs, Blank;
    var k, v, end := ms.key, ms.value, "\n" + outer + "}" + rest;
    CloseRest(outer, '}', rest);
    if ms.rest.NoMembers? {
      assert PrintMembers(ms, indent) + end == indent + (Quote(k) + ": " + Print(v, indent) + end);
      MemberText(k, v, indent, end);
      PrintRoundTrip(v, indent, end);
    } else {
      var more := PrintMembers(ms.rest, indent) + end;
      var after := ",\n" + more;
      assert PrintMembers(ms, indent) + end == indent + (Quote(k) + ": " + Print(v, indent) + after);
      MemberText(k, v, indent, after);
      PrintRoundTrip(v, indent, after);
      CommaRest(more);
      MembersRoundTrip(ms.rest, indent, outer, rest);
    }
  }

  lemma CommaRest(more: string)
    ensures var after := ",\n" + more;
      Stops(after) && SkipWs(after) == after && after[0] == ',' && SkipWs(after[1..]) == SkipWs(more)
  {
    assert (",\n" + more)[1..] == "\n" + more;
    SkipBlank("\n", more);
  }

  /** `JSON.parse(JSON.stringify(v, null, 2))` is v. */
  lemma ParseStringify(v: Value)
    requires WellFormed(v)
    ensures Parse(Stringify(v)) == Some(v)
  {
    PrintStart(v, "");
    PrintRoundTrip(v, "", "");
    assert Stringify(v) + "" == Stringify(v);
  }
}
