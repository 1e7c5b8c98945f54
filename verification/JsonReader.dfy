/** The reader accepts exactly the texts of the grammar and returns exactly the value they denote. */
module JsonReader {
  import opened Wrappers
  import opened Text
  import opened Json
  import opened JsonRoundTrip
  import opened JsonGrammar

  // ---------------------------------------------------------------------------------
  // Numbers

  lemma {:induction false} DigitsOfRun(s: string, rest: string)
    requires DigitRun(s) && (rest == [] || !IsDigit(rest[0]))
    ensures Digits(s + rest) == |s|
  {
    assert (s + rest)[1..] == s[1..] + rest;
    if |s| > 1 {
      DigitsOfRun(s[1..], rest);
    } else {
      assert s[1..] + rest == rest;
    }
  }

  lemma RunOfDigits(s: string)
    requires Digits(s) > 0
    ensures DigitRun(s[..Digits(s)])
  {
  }

  lemma IntIff(s: string, rest: string)
    requires rest == [] || !IsDigit(rest[0])
    ensures IntPart(s) ==> IntLen(s + rest) == Some(|s|)
  {
    if IntPart(s) {
      DigitsOfRun(s, rest);
    }
  }

  lemma FracIff(s: string, rest: string)
    requires rest == [] || (!IsDigit(rest[0]) && rest[0] != '.')
    requires FracPart(s)
    ensures FracLen(s + rest) == Some(|s|)
  {
    if s == "" {
      assert s + rest == rest;
    } else {
      DropAppend(s, 1, rest);
      DigitsOfRun(s[1..], rest);
    }
  }

  lemma ExpIff(s: string, rest: string)
    requires ExpPart(s) && Stops(rest)
    ensures ExpLen(s + rest) == Some(|s|)
  {
    if s == "" {
      assert s + rest == rest;
    } else {
      var sign := if DigitRun(s[1..]) then 1 else 2;
      assert |s| > 1;
      assert s[1] == s[1..][0];
      DropAppend(s, sign, rest);
      DigitsOfRun(s[sign..], rest);
    }
  }

  lemma FracExpReads(frac: string, exp: string, rest: string)
    requires FracPart(frac) && ExpPart(exp) && Stops(rest)
    ensures FracExpLen(frac + exp + rest) == Some(|frac + exp|)
  {
    hide FracLen, ExpLen;
    assert frac + exp + rest == frac + (exp + rest);
    FracIff(frac, exp + rest);
    DropAppend(frac, |frac|, exp + rest);
    ExpIff(exp, rest);
  }

  lemma UnsignedReads(whole: string, tail: string, frac: string, exp: string)
    requires IntPart(whole) && FracPart(frac) && ExpPart(exp) && tail == frac + exp
    ensures UnsignedLen(whole + tail) == Some(|whole + tail|)
  {
    hide IntLen, FracExpLen;
    IntIff(whole, tail);
    assert (whole + tail)[|whole|..] == tail;
    FracExpReads(frac, exp, "");
    assert tail + "" == tail;
  }

  lemma NumberParts(s: string) returns (whole: string, frac: string, exp: string)
    requires UnsignedLen(s) == Some(|s|)
    ensures s == whole + (frac + exp) && IntPart(whole) && FracPart(frac) && ExpPart(exp)
  {
    hide IntLen, FracExpLen, IntPart, FracPart, ExpPart;
    IntShape(s);
    var n := IntLen(s).value;
    whole := s[..n];
    frac, exp := TailParts(s[n..]);
  }

  lemma TailParts(t: string) returns (frac: string, exp: string)
    requires FracExpLen(t) == Some(|t|)
    ensures t == frac + exp && FracPart(frac) && ExpPart(exp)
  {
    hide FracLen, ExpLen, FracPart, ExpPart;
    var f := FracLen(t).value;
    FracShape(t);
    frac, exp := t[..f], t[f..];
    ExpShape(exp);
  }

  lemma IntShape(s: string)
    requires IntLen(s).Some?
    ensures IntLen(s).value <= |s| && IntPart(s[..IntLen(s).value])
  {
  }

  lemma FracShape(s: string)
    requires FracLen(s).Some?
    ensures FracLen(s).value <= |s| && FracPart(s[..FracLen(s).value])
  {
    var f := FracLen(s).value;
    if f > 0 {
      RunOfDigits(s[1..]);
      assert s[..f][1..] == s[1..][..f - 1];
    }
  }

  lemma ExpShape(s: string)
    requires ExpLen(s) == Some(|s|)
    ensures ExpPart(s)
  {
    if s != "" {
      var sign := if |s| > 1 && (s[1] == '+' || s[1] == '-') then 2 else 1;
      RunOfDigits(s[sign..]);
      assert s[sign..] == s[sign..][..Digits(s[sign..])];
    }
  }

  /** A text is read as one number token exactly when it is a number. */
  lemma NumberIff(s: string)
    ensures NumberLen(s) == Some(|s|) <==> IsNumber(s)
  {
    hide UnsignedLen, IntPart, FracPart, ExpPart;
    if NumberLen(s) == Some(|s|) {
      var sign := if s[0] == '-' then "-" else "";
      var whole, frac, exp := NumberParts(s[|sign|..]);
      assert s == sign + (whole + (frac + exp));
    }
    if IsNumber(s) {
      var sign, whole, frac, exp :|
        s == sign + (whole + (frac + exp)) && (sign == "" || sign == "-") &&
        IntPart(whole) && FracPart(frac) && ExpPart(exp);
      UnsignedReads(whole, frac + exp, frac, exp);
      IntStarts(whole);
      assert s[|sign|..] == whole + (frac + exp);
      if sign == "" {
        assert s[0] == whole[0];
      }
    }
  }

  lemma IntStarts(whole: string)
    requires IntPart(whole)
    ensures whole != "" && whole[0] != '-'
  {
  }

  // ---------------------------------------------------------------------------------
  // Strings

  lemma HexIff(c: char, n: nat)
    requires n < 16
    ensures IsHex(c, n) <==> HexValue(c) == Some(n)
  {
  }

  lemma HexRange(c: char)
    ensures HexValue(c).Some? ==> HexValue(c).value < 16
  {
  }

  lemma HexQuotients(a: nat, b: nat, d: nat, e: nat)
    requires a < 16 && b < 16 && d < 16 && e < 16
    ensures var c := ((a * 16 + b) * 16 + d) * 16 + e;
      c < 0x1_0000 && c / 0x1000 == a && c / 0x100 % 16 == b && c / 0x10 % 16 == d && c % 16 == e
  {
    var c := ((a * 16 + b) * 16 + d) * 16 + e;
    DivideTwice(c);
    DivideThrice(c);
  }

  /** Four hexadecimal digits are read as the number with these digits. */
  lemma Hex4Iff(s: string, c: nat)
    requires |s| >= 4
    ensures Hex4(s) == Some(c) <==>
      c < 0x1_0000 && IsHex(s[0], c / 0x1000) && IsHex(s[1], c / 0x100 % 16) && IsHex(s[2], c / 0x10 % 16) &&
      IsHex(s[3], c % 16)
  {
    hide HexValue, IsHex;
    HexRange(s[0]);
    HexRange(s[1]);
    HexRange(s[2]);
    HexRange(s[3]);
    if Hex4(s) == Some(c) {
      HexQuotients(HexValue(s[0]).value, HexValue(s[1]).value, HexValue(s[2]).value, HexValue(s[3]).value);
    }
    if c < 0x1_0000 {
      HexIff(s[0], c / 0x1000);
      HexIff(s[1], c / 0x100 % 16);
      HexIff(s[2], c / 0x10 % 16);
      HexIff(s[3], c % 16);
      HexDigits(c);
    }
  }

  lemma CharReads(x: string, c: Code, rest: string)
    requires SpellsChar(x, c)
    ensures x != "" && x[0] != '"' && ParseChar(x + rest) == Got(c, rest)
  {
    hide Hex4, IsHex;
    var s := x + rest;
    assert s[|x|..] == rest && forall i :: 0 <= i < |x| ==> s[i] == x[i];
    if |x| == 6 {
      Hex4Iff(s[2..], c);
      assert x[..2][1] == 'u' && x[..2][0] == '\\';
      assert s[2..][0] == x[2] && s[2..][1] == x[3] && s[2..][2] == x[4] && s[2..][3] == x[5];
    }
  }

  lemma CharShape(s: string) returns (x: string)
    requires ParseChar(s).Got?
    ensures s == x + ParseChar(s).rest && SpellsChar(x, ParseChar(s).value)
  {
    hide Hex4, IsHex;
    x := s[..|s| - |ParseChar(s).rest|];
    if s[0] == '\\' && s[1] == 'u' {
      Hex4Iff(s[2..], Hex4(s[2..]).value);
      assert s[2..][0] == x[2] && s[2..][1] == x[3] && s[2..][2] == x[4] && s[2..][3] == x[5];
    }
  }

  lemma {:induction false} CharsRead(t: string, cs: seq<Code>, rest: string)
    requires SpellsChars(t, cs)
    ensures ParseChars(t + "\"" + rest) == Got(cs, rest)
    decreases |cs|
  {
    hide SpellsChar, ParseChar;
    if cs == [] {
      assert t + "\"" + rest == "\"" + rest && ("\"" + rest)[1..] == rest;
    } else {
      var x, y :| t == x + y && SpellsChar(x, cs[0]) && SpellsChars(y, cs[1..]);
      var tail := y + "\"" + rest;
      assert t + "\"" + rest == x + tail;
      CharReads(x, cs[0], tail);
      CharsRead(y, cs[1..], rest);
      assert (x + tail)[0] == x[0];
      assert cs == [cs[0]] + cs[1..];
    }
  }

  lemma {:induction false} CharsShape(s: string) returns (t: string)
    requires ParseChars(s).Got?
    ensures s == t + "\"" + ParseChars(s).rest && SpellsChars(t, ParseChars(s).value)
    decreases |s|
  {
    hide SpellsChar, ParseChar;
    if s[0] == '"' {
      t := "";
    } else {
      var x := CharShape(s);
      var y := CharsShape(ParseChar(s).rest);
      t := x + y;
      var cs := ParseChars(s).value;
      assert cs[0] == ParseChar(s).value && cs[1..] == ParseChars(ParseChar(s).rest).value;
    }
  }

  lemma StringReads(t: string, cs: seq<Code>, rest: string)
    requires SpellsString(t, cs)
    ensures t != "" && t[0] == '"' && ParseChars((t + rest)[1..]) == Got(cs, rest)
  {
    hide SpellsChars, ParseChars;
    var x :| t == "\"" + x + "\"" && SpellsChars(x, cs);
    assert (t + rest)[1..] == x + "\"" + rest;
    CharsRead(x, cs, rest);
  }

  lemma StringShape(s: string) returns (t: string)
    requires s != "" && s[0] == '"' && ParseChars(s[1..]).Got?
    ensures s == t + ParseChars(s[1..]).rest && SpellsString(t, ParseChars(s[1..]).value)
  {
    hide SpellsChars, ParseChars;
    var x := CharsShape(s[1..]);
    t := "\"" + x + "\"";
    assert s == [s[0]] + s[1..];
  }

  // ---------------------------------------------------------------------------------
  // Values

  lemma WhiteIff(s: string)
    ensures White(s) <==> Blank(s)
  {
  }

  /** What follows a value in JSON text: white space and then its end or a separator or bracket. */
  ghost predicate Closes(s: string) {
    s == "" || s[0] in ",]}"
  }

  lemma {:induction false} SkipShape(s: string) returns (w: string)
    ensures s == w + SkipWs(s) && White(w)
  {
    if s != [] && IsWs(s[0]) {
      var v := SkipShape(s[1..]);
      w := [s[0]] + v;
    } else {
      w := "";
    }
  }

  lemma WhiteStops(b: string, rest: string)
    requires White(b) && Closes(rest)
    ensures Stops(b + rest) && SkipWs(b + rest) == rest
  {
    WhiteIff(b);
    SkipBlank(b, rest);
    if b == "" {
      assert b + rest == rest;
    } else {
      assert (b + rest)[0] == b[0];
    }
  }

  lemma NumberReads(t: string, rest: string)
    requires IsNumber(t) && Stops(rest)
    ensures NumberLen(t + rest) == Some(|t|) && t != "" && (IsDigit(t[0]) || t[0] == '-')
  {
    hide IsNumber, NumberLen, Stops;
    NumberIff(t);
    NumberExtend(t, rest);
    NumberStart(t);
  }

  /** A value starts with a character of its own, not with white space or a separator. */
  lemma SpellsStart(t: string, v: Value)
    requires Spells(t, v)
    ensures t != "" && !IsWs(t[0]) && t[0] !in ",:]}"
  {
    hide SpellsChars, DenotesItems, DenotesMembers;
    if v.Num? {
      NumberReads(t, "");
    }
  }

  lemma ScalarReads(t: string, v: Value, rest: string)
    requires Spells(t, v) && Stops(rest) && (v.Null? || v.Bool? || v.Num?)
    ensures ParseValue(t + rest) == Got(v, rest)
  {
    hide NumberLen, Stops, IsNumber;
    var s := t + rest;
    if v.Num? {
      NumberReads(t, rest);
    }
    assert s[0] == t[0];
    assert s[..|t|] == t && s[|t|..] == rest;
  }

  lemma {:induction false} ValueReads(t: string, v: Value, rest: string)
    requires Spells(t, v) && Stops(rest)
    ensures ParseValue(t + rest) == Got(v, rest)
    decreases v, 0
  {
    hide ParseItems, ParseMembers, ParseScalar, ParseChars, SkipWs;
    hide SpellsString, DenotesItems, DenotesMembers, IsNumber;
    var s := t + rest;
    match v
    case Str(cs) =>
      StringReads(t, cs, rest);
      assert s[0] == t[0];
    case Arr(vs) =>
      var x :| t == "[" + x + "]" && DenotesItems(x, vs);
      ItemsRead(x, vs, rest);
      assert s[0] == '[' && s[1..] == x + "]" + rest;
    case Obj(ms) =>
      var x :| t == "{" + x + "}" && DenotesMembers(x, ms);
      MembersRead(x, ms, rest);
      assert s[0] == '{' && s[1..] == x + "}" + rest;
    case _ =>
      ScalarReads(t, v, rest);
  }

  /** White space and a value are skipped and read, up to what follows it. */
  lemma {:induction false} DenotesReads(t: string, v: Value, rest: string)
    requires Denotes(t, v) && Closes(rest)
    ensures var s := SkipWs(t + rest);
      s != "" && s[0] !in ",]}" && ParseValue(s).Got? && ParseValue(s).value == v && SkipWs(ParseValue(s).rest) == rest
    decreases v, 1
  {
    hide Spells, ParseValue, SkipWs, Stops, White;
    var a, x, b :| t == a + x + b && White(a) && Spells(x, v) && White(b);
    var after := b + rest;
    WhiteStops(b, rest);
    SpellsStart(x, v);
    assert t + rest == a + (x + after);
    WhiteIff(a);
    SkipBlank(a, x + after);
    SkipNothing(x, after);
    ValueReads(x, v, after);
  }

  lemma SkipNothing(x: string, rest: string)
    requires x != "" && !IsWs(x[0])
    ensures SkipWs(x + rest) == x + rest && (x + rest)[0] == x[0]
  {
  }

  lemma {:induction false} ItemsRead(t: string, vs: Values, rest: string)
    requires DenotesItems(t, vs)
    ensures var s := SkipWs(t + "]" + rest);
      s != "" && (s[0] == ']' <==> vs.NoValues?) &&
      if vs.NoValues? then s[1..] == rest else ParseItems(s) == Got(vs, rest)
    decreases vs
  {
    hide ParseValue, SkipWs, Denotes, White;
    var end := "]" + rest;
    assert t + "]" + rest == t + end && end[1..] == rest;
    match vs
    case NoValues =>
      WhiteStops(t, end);
    case Values(v, NoValues) =>
      DenotesReads(t, v, end);
    case Values(v, tail) =>
      var x, y :| t == x + "," + y && Denotes(x, v) && DenotesItems(y, tail);
      var after := "," + (y + "]" + rest);
      assert t + end == x + after && after[1..] == y + "]" + rest;
      DenotesReads(x, v, after);
      ItemsRead(y, tail, rest);
  }

  lemma KeyReads(t: string, key: seq<Code>, value: string)
    requires DenotesKey(t, key)
    ensures var s := SkipWs(t + ":" + value);
      s != "" && s[0] == '"' && ParseKey(s) == Got(key, SkipWs(value))
  {
    hide SpellsString, ParseChars, SkipWs, White;
    var a, x, b :| t == a + x + b && White(a) && SpellsString(x, key) && White(b);
    var end := ":" + value;
    var after := b + end;
    StringReads(x, key, after);
    assert t + ":" + value == a + (x + after);
    WhiteIff(a);
    WhiteIff(b);
    SkipBlank(a, x + after);
    SkipNothing(x, after);
    SkipBlank(b, end);
    SkipNothing(":", value);
    assert end[1..] == value;
  }

  /** One member, up to what follows its value. */
  lemma {:induction false} MemberReads(x: string, k: seq<Code>, y: string, v: Value, rest: string)
    requires DenotesKey(x, k) && Denotes(y, v) && Closes(rest)
    ensures var s := SkipWs(x + ":" + (y + rest));
      s != "" && s[0] == '"' && ParseKey(s).Got? && ParseKey(s).value == k &&
      var r := ParseValue(ParseKey(s).rest); r.Got? && r.value == v && SkipWs(r.rest) == rest
    decreases v, 2
  {
    hide ParseValue, ParseKey, SkipWs, Denotes, DenotesKey;
    KeyReads(x, k, y + rest);
    DenotesReads(y, v, rest);
  }

  lemma SplitMember(t: string, x: string, y: string, z: string, rest: string)
    ensures t == x + ":" + y + "," + z ==> t + "}" + rest == x + ":" + (y + ("," + (z + "}" + rest)))
    ensures t == x + ":" + y ==> t + "}" + rest == x + ":" + (y + ("}" + rest))
  {
  }

  lemma {:induction false} MembersRead(t: string, ms: Members, rest: string)
    requires DenotesMembers(t, ms)
    ensures var s := SkipWs(t + "}" + rest);
      s != "" && (s[0] == '}' <==> ms.NoMembers?) &&
      if ms.NoMembers? then s[1..] == rest else ParseMembers(s) == Got(ms, rest)
    decreases ms, 3
  {
    hide ParseValue, ParseKey, SkipWs, Denotes, DenotesKey, White;
    match ms
    case NoMembers =>
      assert t + "}" + rest == t + ("}" + rest);
      WhiteStops(t, "}" + rest);
    case Members(k, v, NoMembers) =>
      var x, y :| t == x + ":" + y && DenotesKey(x, k) && Denotes(y, v);
      SplitMember(t, x, y, "", rest);
      MemberReads(x, k, y, v, "}" + rest);
      assert ("}" + rest)[1..] == rest;
    case Members(k, v, tail) =>
      var x, y, z :| t == x + ":" + y + "," + z && DenotesKey(x, k) && Denotes(y, v) && DenotesMembers(z, tail);
      var more := z + "}" + rest;
      SplitMember(t, x, y, z, rest);
      MemberReads(x, k, y, v, "," + more);
      assert ("," + more)[1..] == more;
      MembersRead(z, tail, rest);
  }

  lemma ScalarShape(s: string) returns (t: string)
    requires ParseScalar(s).Got?
    ensures s == t + ParseScalar(s).rest && Spells(t, ParseScalar(s).value)
  {
    hide NumberLen, IsNumber;
    t := s[..|s| - |ParseScalar(s).rest|];
    if ParseScalar(s).value.Num? {
      TokenShape(s);
      NumberIff(t);
    }
  }

  /** The token that is read is a number on its own. */
  lemma TokenShape(s: string)
    requires NumberLen(s).Some?
    ensures var t := s[..NumberLen(s).value]; NumberLen(t) == Some(|t|)
  {
    hide UnsignedLen;
    var n := NumberLen(s).value;
    if s[0] == '-' {
      UnsignedShape(s[1..]);
      assert s[..n][1..] == s[1..][..n - 1];
    } else {
      UnsignedShape(s);
    }
  }

  lemma {:induction false} DigitsCut(s: string, n: nat)
    requires Digits(s) <= n <= |s|
    ensures Digits(s[..n]) == Digits(s)
  {
    if s != [] && IsDigit(s[0]) {
      DigitsCut(s[1..], n - 1);
      assert s[..n][1..] == s[1..][..n - 1];
    }
  }

  lemma IntCut(s: string, n: nat)
    requires IntLen(s).Some? && IntLen(s).value <= n <= |s|
    ensures IntLen(s[..n]) == IntLen(s)
  {
    if s[0] != '0' {
      DigitsCut(s, n);
    }
  }

  lemma FracCut(s: string, n: nat)
    requires FracLen(s).Some? && FracLen(s).value <= n <= |s|
    ensures FracLen(s[..n]) == FracLen(s)
  {
    if FracLen(s).value > 0 {
      DigitsCut(s[1..], n - 1);
      assert s[..n][1..] == s[1..][..n - 1];
    }
  }

  lemma ExpCut(s: string)
    requires ExpLen(s).Some?
    ensures ExpLen(s).value <= |s| && ExpLen(s[..ExpLen(s).value]) == ExpLen(s)
  {
    var n := ExpLen(s).value;
    if n > 0 {
      var sign := if |s| > 1 && (s[1] == '+' || s[1] == '-') then 2 else 1;
      DigitsCut(s[sign..], n - sign);
      assert s[..n][sign..] == s[sign..][..n - sign];
    }
  }

  lemma UnsignedShape(s: string)
    requires UnsignedLen(s).Some?
    ensures var t := s[..UnsignedLen(s).value]; UnsignedLen(t) == Some(|t|)
  {
    hide FracLen, ExpLen;
    var n := UnsignedLen(s).value;
    var i := IntLen(s).value;
    var f := FracLen(s[i..]).value;
    IntCut(s, n);
    FracCut(s[i..], n - i);
    assert s[..n][i..] == s[i..][..n - i];
    ExpCut(s[i..][f..]);
    assert s[..n][i..][f..] == s[i..][f..][..n - i - f];
  }

  lemma {:induction false} ValueShape(s: string) returns (t: string)
    requires ParseValue(s).Got?
    ensures s == t + ParseValue(s).rest && Spells(t, ParseValue(s).value)
    decreases |s|, 0
  {
    hide ParseItems, ParseMembers, ParseScalar, ParseChars, SkipWs;
    hide SpellsString, DenotesItems, DenotesMembers, IsNumber;
    var rest := ParseValue(s).rest;
    assert s == [s[0]] + s[1..];
    if s[0] == '"' {
      t := StringShape(s);
    } else if s[0] == '[' {
      var x := ArrayShape(s[1..], rest, ParseValue(s).value.items);
      t := "[" + x + "]";
    } else if s[0] == '{' {
      var x := ObjectShape(s[1..], rest, ParseValue(s).value.members);
      t := "{" + x + "}";
    } else {
      t := ScalarShape(s);
    }
  }

  /** What stands between the brackets of an array. */
  lemma {:induction false} ArrayShape(s: string, rest: string, vs: Values) returns (x: string)
    requires var t := SkipWs(s);
      if t != [] && t[0] == ']' then vs == NoValues && t[1..] == rest else ParseItems(t) == Got(vs, rest)
    ensures s == x + "]" + rest && DenotesItems(x, vs)
    decreases |s|, 3
  {
    hide ParseItems, SkipWs, Denotes;
    var t := SkipWs(s);
    if t != [] && t[0] == ']' {
      x := SkipShape(s);
      assert t == "]" + rest;
    } else {
      x := ItemsShape(s);
    }
  }

  lemma {:induction false} ObjectShape(s: string, rest: string, ms: Members) returns (x: string)
    requires var t := SkipWs(s);
      if t != [] && t[0] == '}' then ms == NoMembers && t[1..] == rest else ParseMembers(t) == Got(ms, rest)
    ensures s == x + "}" + rest && DenotesMembers(x, ms)
    decreases |s|, 3
  {
    hide ParseMembers, SkipWs, Denotes, DenotesKey;
    var t := SkipWs(s);
    if t != [] && t[0] == '}' {
      x := SkipShape(s);
      assert t == "}" + rest;
    } else {
      x := MembersShape(s);
    }
  }

  /** A value with the white space before and after it. */
  lemma {:induction false} DenotesShape(s: string) returns (t: string)
    requires ParseValue(SkipWs(s)).Got?
    ensures s == t + SkipWs(ParseValue(SkipWs(s)).rest) && Denotes(t, ParseValue(SkipWs(s)).value)
    decreases |s|, 1
  {
    hide Spells, ParseValue, SkipWs, White;
    var a := SkipShape(s);
    var x := ValueShape(SkipWs(s));
    var b := SkipShape(ParseValue(SkipWs(s)).rest);
    t := a + x + b;
  }

  lemma {:induction false} ItemsShape(s: string) returns (t: string)
    requires ParseItems(SkipWs(s)).Got?
    ensures s == t + "]" + ParseItems(SkipWs(s)).rest && DenotesItems(t, ParseItems(SkipWs(s)).value)
    ensures ParseItems(SkipWs(s)).value.Values?
    decreases |s|, 2
  {
    hide ParseValue, SkipWs, Denotes;
    var x := DenotesShape(s);
    var after := SkipWs(ParseValue(SkipWs(s)).rest);
    assert after == [after[0]] + after[1..];
    if after[0] == ']' {
      t := x;
    } else {
      var y := ItemsShape(after[1..]);
      t := x + "," + y;
    }
  }

  lemma KeyShape(s: string) returns (t: string, value: string)
    requires ParseKey(SkipWs(s)).Got?
    ensures s == t + ":" + value && DenotesKey(t, ParseKey(SkipWs(s)).value)
    ensures ParseKey(SkipWs(s)).rest == SkipWs(value)
  {
    hide SpellsString, ParseChars, SkipWs, White;
    var u := SkipWs(s);
    var rest := ParseChars(u[1..]).rest;
    var end := SkipWs(rest);
    var a := SkipShape(s);
    var x := StringShape(u);
    var b := SkipShape(rest);
    t, value := a + x + b, end[1..];
    assert end == ":" + value;
  }

  lemma {:induction false} MembersShape(s: string) returns (t: string)
    requires ParseMembers(SkipWs(s)).Got?
    ensures s == t + "}" + ParseMembers(SkipWs(s)).rest && DenotesMembers(t, ParseMembers(SkipWs(s)).value)
    ensures ParseMembers(SkipWs(s)).value.Members?
    decreases |s|, 2
  {
    hide ParseValue, ParseKey, SkipWs, Denotes, DenotesKey;
    var x, value := KeyShape(s);
    var y := DenotesShape(value);
    var after := SkipWs(ParseValue(SkipWs(value)).rest);
    assert after == [after[0]] + after[1..];
    if after[0] == '}' {
      t := x + ":" + y;
    } else {
      var z := MembersShape(after[1..]);
      t := x + ":" + y + "," + z;
    }
  }

  /** `JSON.parse` accepts exactly the texts of the grammar and returns the value they denote. */
  lemma ParseIffDenotes(t: string, v: Value)
    ensures Parse(t) == Some(v) <==> Denotes(t, v)
  {
    hide Denotes, ParseValue, SkipWs;
    if Parse(t) == Some(v) {
      var x := DenotesShape(t);
      assert x + "" == x;
    }
    if Denotes(t, v) {
      DenotesReads(t, v, "");
      assert t + "" == t;
    }
  }

  // ---------------------------------------------------------------------------------
  // Which values have a text

  /** The values that have a text are those whose number tokens are numbers. */
  lemma WellFormedIff(v: Value)
    ensures WellFormed(v) <==> exists t: string :: Denotes(t, v)
  {
    hide Denotes, Parse;
    if WellFormed(v) {
      ParseStringify(v);
      ParseIffDenotes(Stringify(v), v);
    }
    forall t: string | Denotes(t, v) ensures WellFormed(v) {
      DenotedIsWellFormed(t, v);
    }
  }

  lemma {:induction false} SpelledIsWellFormed(t: string, v: Value)
    requires Spells(t, v)
    ensures WellFormed(v)
    decreases v, 0
  {
    hide DenotesItems, DenotesMembers, IsNumber, SpellsString;
    match v
    case Num(token) =>
      NumberIff(token);
    case Arr(vs) =>
      var x :| t == "[" + x + "]" && DenotesItems(x, vs);
      ItemsAreWellFormed(x, vs);
    case Obj(ms) =>
      var x :| t == "{" + x + "}" && DenotesMembers(x, ms);
      MembersAreWellFormed(x, ms);
    case _ =>
  }

  lemma {:induction false} DenotedIsWellFormed(t: string, v: Value)
    requires Denotes(t, v)
    ensures WellFormed(v)
    decreases v, 1
  {
    hide Spells, WellFormed;
    var a, x, b :| t == a + x + b && White(a) && Spells(x, v) && White(b);
    SpelledIsWellFormed(x, v);
  }

  lemma {:induction false} ItemsAreWellFormed(t: string, vs: Values)
    requires DenotesItems(t, vs)
    ensures WellFormedItems(vs)
    decreases vs
  {
    hide Denotes, WellFormed;
    match vs
    case NoValues =>
    case Values(v, NoValues) =>
      DenotedIsWellFormed(t, v);
    case Values(v, tail) =>
      var x, y :| t == x + "," + y && Denotes(x, v) && DenotesItems(y, tail);
      DenotedIsWellFormed(x, v);
      ItemsAreWellFormed(y, tail);
  }

  lemma {:induction false} MembersAreWellFormed(t: string, ms: Members)
    requires DenotesMembers(t, ms)
    ensures WellFormedMembers(ms)
    decreases ms
  {
    hide Denotes, DenotesKey, WellFormed;
    match ms
    case NoMembers =>
    case Members(k, v, NoMembers) =>
      var x, y :| t == x + ":" + y && DenotesKey(x, k) && Denotes(y, v);
      DenotedIsWellFormed(y, v);
    case Members(k, v, rest) =>
      var x, y, z :| t == x + ":" + y + "," + z && DenotesKey(x, k) && Denotes(y, v) && DenotesMembers(z, rest);
      DenotedIsWellFormed(y, v);
      MembersAreWellFormed(z, rest);
  }
}
