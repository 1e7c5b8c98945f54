/** The layout of `JSON.stringify(value, null, 2)`: nested text is the text of its own, two spaces further in. */
module JsonLayout {
  import opened Text
  import opened Json
  import opened JsonReader
  import opened JsonGrammar

  /** The text with w at the start of every line but the first. */
  function Shift(s: string, w: string): string {
    if s == "" then "" else (if s[0] == '\n' then "\n" + w else [s[0]]) + Shift(s[1..], w)
  }

  function Texts(vs: Values): seq<string> {
    match vs
    case NoValues => []
    case Values(v, tail) => [Stringify(v)] + Texts(tail)
  }

  function MemberTexts(ms: Members): seq<string> {
    match ms
    case NoMembers => []
    case Members(k, v, rest) => [Quote(k) + ": " + Stringify(v)] + MemberTexts(rest)
  }

  predicate OneLine(s: string) {
    '\n' !in s
  }

  lemma {:induction false} ShiftAppend(a: string, b: string, w: string)
    ensures Shift(a + b, w) == Shift(a, w) + Shift(b, w)
  {
    if a == "" {
      assert a + b == b;
    } else {
      assert (a + b)[1..] == a[1..] + b;
      ShiftAppend(a[1..], b, w);
      Regroup(if a[0] == '\n' then "\n" + w else [a[0]], Shift(a[1..], w), Shift(b, w));
    }
  }

  lemma Regroup(a: string, b: string, c: string)
    ensures a + (b + c) == a + b + c
  {
  }

  lemma {:induction false} ShiftOneLine(s: string, w: string)
    requires OneLine(s)
    ensures Shift(s, w) == s
  {
    if s != "" {
      ShiftOneLine(s[1..], w);
      assert s == [s[0]] + s[1..];
    }
  }

  lemma ShiftBreak(w: string)
    ensures Shift("\n", w) == "\n" + w && Shift(",\n", w) == ",\n" + w
  {
    assert ",\n"[1..] == "\n" && "\n"[1..] == "";
    assert Shift("\n", w) == "\n" + w + "";
    assert Shift(",\n", w) == "," + Shift("\n", w);
  }

  // ---------------------------------------------------------------------------------
  // Scalars have no line breaks

  lemma {:induction false} CodesAreOneLine(cs: seq<Code>)
    ensures OneLine(PrintCodes(cs))
  {
    if cs != [] {
      CodeIsOneLine(cs[0]);
      CodesAreOneLine(cs[1..]);
    }
  }

  lemma CodeIsOneLine(c: Code)
    ensures OneLine(PrintCode(c))
  {
  }

  lemma QuoteIsOneLine(cs: seq<Code>)
    ensures OneLine(Quote(cs))
  {
    CodesAreOneLine(cs);
  }

  lemma NumberIsOneLine(t: string)
    requires IsNumber(t)
    ensures OneLine(t)
  {
    hide IntPart, FracPart, ExpPart;
    var sign, whole, frac, exp :|
      t == sign + (whole + (frac + exp)) && (sign == "" || sign == "-") &&
      IntPart(whole) && FracPart(frac) && ExpPart(exp);
    PartsAreOneLine(whole, frac, exp);
  }

  lemma PartsAreOneLine(whole: string, frac: string, exp: string)
    requires IntPart(whole) && FracPart(frac) && ExpPart(exp)
    ensures OneLine(whole) && OneLine(frac) && OneLine(exp)
  {
    hide DigitRun;
    RunIsOneLine(whole);
    if frac != "" {
      RunIsOneLine(frac[1..]);
      assert frac == [frac[0]] + frac[1..];
    }
    if exp != "" {
      RunIsOneLine(exp[1..]);
      assert exp == [exp[0]] + exp[1..];
      if |exp| > 1 {
        RunIsOneLine(exp[2..]);
        assert exp == [exp[0], exp[1]] + exp[2..];
      }
    }
  }

  lemma RunIsOneLine(s: string)
    ensures DigitRun(s) ==> OneLine(s)
  {
  }

  // ---------------------------------------------------------------------------------
  // Indentation

  lemma ShiftList(open: string, body: string, x: string, close: string, w: string)
    requires OneLine(open) && OneLine(x) && OneLine(close)
    ensures Shift(open + "\n" + body + "\n" + x + close, w) ==
      open + "\n" + (w + Shift(body, w)) + "\n" + (w + x) + close
  {
    hide Shift;
    ShiftBreak(w);
    ShiftAppend(open + "\n" + body + "\n" + x, close, w);
    ShiftAppend(open + "\n" + body + "\n", x, w);
    ShiftAppend(open + "\n" + body, "\n", w);
    ShiftAppend(open + "\n", body, w);
    ShiftAppend(open, "\n", w);
    ShiftOneLine(open, w);
    ShiftOneLine(x, w);
    ShiftOneLine(close, w);
    Reassociate(open, w, Shift(body, w), x, close);
  }

  lemma Reassociate(open: string, w: string, body: string, x: string, close: string)
    ensures open + ("\n" + w) + body + ("\n" + w) + x + close == open + "\n" + (w + body) + "\n" + (w + x) + close
  {
    assert open + ("\n" + w) + body == open + "\n" + (w + body);
    var t := open + "\n" + (w + body);
    assert t + ("\n" + w) + x == t + "\n" + (w + x);
  }

  lemma Literals()
    ensures OneLine("null") && OneLine("true") && OneLine("false") && OneLine("[]") && OneLine("{}") && OneLine(": ")
    ensures OneLine("") && OneLine("[") && OneLine("]") && OneLine("{") && OneLine("}")
    ensures "[" + "\n" == "[\n" && "{" + "\n" == "{\n"
  {
  }

  lemma SpacesAreOneLine(x: string)
    requires OneLine(x)
    ensures OneLine(x + "  ")
  {
  }

  /** Printed deeper, a value is the same text shifted. */
  lemma {:induction false} PrintShifts(v: Value, w: string, x: string)
    requires WellFormed(v) && OneLine(x)
    ensures Print(v, w + x) == Shift(Print(v, x), w)
    decreases v, 0
  {
    hide Shift, PrintItems, PrintMembers, Quote, NumberLen, OneLine, IsNumber;
    Literals();
    match v
    case Null => ShiftOneLine("null", w);
    case Bool(b) => ShiftOneLine(if b then "true" else "false", w);
    case Num(token) =>
      NumberIff(token);
      NumberIsOneLine(token);
      ShiftOneLine(token, w);
    case Str(cs) =>
      QuoteIsOneLine(cs);
      ShiftOneLine(Quote(cs), w);
    case Arr(NoValues) => ShiftOneLine("[]", w);
    case Obj(NoMembers) => ShiftOneLine("{}", w);
    case Arr(vs) =>
      SpacesAreOneLine(x);
      ItemsShift(vs, w, x + "  ");
      assert w + x + "  " == w + (x + "  ");
      ShiftList("[", PrintItems(vs, x + "  "), x, "]", w);
    case Obj(ms) =>
      SpacesAreOneLine(x);
      MembersShift(ms, w, x + "  ");
      assert w + x + "  " == w + (x + "  ");
      ShiftList("{", PrintMembers(ms, x + "  "), x, "}", w);
  }

  lemma ShiftEntry(x: string, text: string, w: string)
    requires OneLine(x)
    ensures w + Shift(x + text, w) == (w + x) + Shift(text, w)
  {
    hide Shift;
    ShiftAppend(x, text, w);
    ShiftOneLine(x, w);
  }

  lemma ShiftEntries(x: string, text: string, more: string, w: string)
    requires OneLine(x)
    ensures w + Shift(x + text + ",\n" + more, w) == (w + x) + Shift(text, w) + ",\n" + (w + Shift(more, w))
  {
    hide Shift;
    ShiftBreak(w);
    ShiftAppend(x + text + ",\n", more, w);
    ShiftAppend(x + text, ",\n", w);
    ShiftEntry(x, text, w);
    var t := Shift(x + text, w);
    assert w + (t + (",\n" + w) + Shift(more, w)) == w + t + ",\n" + (w + Shift(more, w));
  }

  lemma {:induction false} ItemsShift(vs: Values, w: string, x: string)
    requires vs.Values? && WellFormedItems(vs) && OneLine(x)
    ensures PrintItems(vs, w + x) == w + Shift(PrintItems(vs, x), w)
    decreases vs
  {
    hide Shift, Print, WellFormed, OneLine;
    var v := vs.head;
    PrintShifts(v, w, x);
    if vs.tail.NoValues? {
      ShiftEntry(x, Print(v, x), w);
    } else {
      ItemsShift(vs.tail, w, x);
      ShiftEntries(x, Print(v, x), PrintItems(vs.tail, x), w);
    }
  }

  lemma MemberShifts(k: seq<Code>, v: Value, w: string, x: string)
    requires Print(v, w + x) == Shift(Print(v, x), w)
    ensures Quote(k) + ": " + Print(v, w + x) == Shift(Quote(k) + ": " + Print(v, x), w)
  {
    hide Shift, Quote, Print, OneLine;
    Literals();
    QuoteIsOneLine(k);
    ShiftAppend(Quote(k) + ": ", Print(v, x), w);
    ShiftAppend(Quote(k), ": ", w);
    ShiftOneLine(Quote(k), w);
    ShiftOneLine(": ", w);
  }

  lemma {:induction false} MembersShift(ms: Members, w: string, x: string)
    requires ms.Members? && WellFormedMembers(ms) && OneLine(x)
    ensures PrintMembers(ms, w + x) == w + Shift(PrintMembers(ms, x), w)
    decreases ms
  {
    hide Shift, Print, Quote, WellFormed, OneLine;
    var k, v := ms.key, ms.value;
    var text, shifted := Quote(k) + ": " + Print(v, x), Quote(k) + ": " + Print(v, w + x);
    PrintShifts(v, w, x);
    MemberShifts(k, v, w, x);
    EntryText(x, Quote(k), Print(v, x));
    EntryText(w + x, Quote(k), Print(v, w + x));
    if ms.rest.NoMembers? {
      ShiftEntry(x, text, w);
    } else {
      MembersShift(ms.rest, w, x);
      ShiftEntries(x, text, PrintMembers(ms.rest, x), w);
    }
  }

  lemma EntryText(x: string, key: string, value: string)
    ensures x + key + ": " + value == x + (key + ": " + value)
  {
  }

  lemma {:induction false} ItemsJoin(vs: Values)
    ensures PrintItems(vs, "") == Join(Texts(vs), ",\n")
  {
    hide Print;
    match vs
    case NoValues =>
    case Values(v, tail) =>
      ItemsJoin(tail);
      assert Texts(vs)[1..] == Texts(tail);
      assert "" + Print(v, "") == Stringify(v);
  }

  lemma {:induction false} MembersJoin(ms: Members)
    ensures PrintMembers(ms, "") == Join(MemberTexts(ms), ",\n")
  {
    hide Print, Quote;
    match ms
    case NoMembers =>
    case Members(k, v, rest) =>
      MembersJoin(rest);
      assert MemberTexts(ms)[1..] == MemberTexts(rest);
      EntryText("", Quote(k), Print(v, ""));
      assert "" + (Quote(k) + ": " + Print(v, "")) == Quote(k) + ": " + Stringify(v);
  }

  /**
   An array is "[", its items one a line with commas between them and everything two spaces in, and "]" on a line of
   its own; an object is laid out alike, with its members.
   */
  lemma NestedTextIsShifted(vs: Values, ms: Members)
    requires WellFormedItems(vs) && WellFormedMembers(ms)
    ensures Stringify(Arr(vs)) ==
      if vs == NoValues then "[]" else "[" + Shift("\n" + Join(Texts(vs), ",\n"), "  ") + "\n]"
    ensures Stringify(Obj(ms)) ==
      if ms == NoMembers then "{}" else "{" + Shift("\n" + Join(MemberTexts(ms), ",\n"), "  ") + "\n}"
  {
    hide Shift, PrintItems, PrintMembers, OneLine;
    Literals();
    ShiftBreak("  ");
    if vs.Values? {
      ItemsShift(vs, "  ", "");
      ItemsJoin(vs);
      ListText("[", PrintItems(vs, ""), "]");
    }
    if ms.Members? {
      MembersShift(ms, "  ", "");
      MembersJoin(ms);
      ListText("{", PrintMembers(ms, ""), "}");
    }
    assert "" + "  " == "  " == "  " + "";
  }

  lemma ListText(open: string, body: string, close: string)
    ensures open + "\n" + ("  " + Shift(body, "  ")) + "\n" + "" + close ==
      open + Shift("\n" + body, "  ") + ("\n" + close)
  {
    hide Shift;
    ShiftBreak("  ");
    ShiftAppend("\n", body, "  ");
  }
}
