/** What JSON text is: a relation between a text and the value it denotes, after the grammar of RFC 8259. */
module JsonGrammar {
  import opened Json

  /** Section 2: any run of space, tab, line feed and carriage return, also none. */
  predicate White(s: string) {
    forall i :: 0 <= i < |s| ==> s[i] in " \t\n\r"
  }

  /** Section 6: a number is an optional minus, an integer, an optional fraction and an optional exponent. */
  predicate DigitRun(s: string) {
    s != "" && forall i :: 0 <= i < |s| ==> s[i] in "0123456789"
  }

  predicate IntPart(s: string) {
    DigitRun(s) && (s[0] == '0' ==> s == "0")
  }

  predicate FracPart(s: string) {
    s == "" || (s[0] == '.' && DigitRun(s[1..]))
  }

  predicate ExpPart(s: string) {
    s == "" || (s[0] in "eE" && (DigitRun(s[1..]) || (|s| > 1 && s[1] in "+-" && DigitRun(s[2..]))))
  }

  ghost predicate IsNumber(t: string) {
    exists sign, whole, frac, exp ::
      t == sign + (whole + (frac + exp)) && (sign == "" || sign == "-") &&
      IntPart(whole) && FracPart(frac) && ExpPart(exp)
  }

  /** Section 7: a hexadecimal digit in either case. */
  predicate IsHex(c: char, n: nat)
    requires n < 16
  {
    c == "0123456789abcdef"[n] || c == "0123456789ABCDEF"[n]
  }

  /** The spellings of one character: itself, a two-character escape, or \u and four hexadecimal digits. */
  predicate SpellsChar(t: string, c: Code) {
    (|t| == 1 && t[0] as int == c && c >= 0x20 && t[0] != '"' && t[0] != '\\') ||
    (t == "\\\"" && c == 0x22) ||
    (t == "\\\\" && c == 0x5C) ||
    (t == "\\/" && c == 0x2F) ||
    (t == "\\b" && c == 0x08) ||
    (t == "\\f" && c == 0x0C) ||
    (t == "\\n" && c == 0x0A) ||
    (t == "\\r" && c == 0x0D) ||
    (t == "\\t" && c == 0x09) ||
    (|t| == 6 && t[..2] == "\\u" && c < 0x1_0000 &&
     IsHex(t[2], c / 0x1000) && IsHex(t[3], c / 0x100 % 16) && IsHex(t[4], c / 0x10 % 16) && IsHex(t[5], c % 16))
  }

  ghost predicate SpellsChars(t: string, cs: seq<Code>)
    decreases |cs|
  {
    if cs == [] then t == ""
    else exists x, y :: t == x + y && SpellsChar(x, cs[0]) && SpellsChars(y, cs[1..])
  }

  ghost predicate SpellsString(t: string, cs: seq<Code>) {
    exists x :: t == "\"" + x + "\"" && SpellsChars(x, cs)
  }

  /** Section 3: the text of the value without white space at its ends. */
  ghost predicate Spells(t: string, v: Value)
    decreases v, 0
  {
    match v
    case Null => t == "null"
    case Bool(b) => t == if b then "true" else "false"
    case Num(token) => t == token && IsNumber(token)
    case Str(cs) => SpellsString(t, cs)
    case Arr(vs) => exists x :: t == "[" + x + "]" && DenotesItems(x, vs)
    case Obj(ms) => exists x :: t == "{" + x + "}" && DenotesMembers(x, ms)
  }

  /** Section 2: the text of a value with any white space around it. */
  ghost predicate Denotes(t: string, v: Value)
    decreases v, 1
  {
    exists a, x, b :: t == a + x + b && White(a) && Spells(x, v) && White(b)
  }

  /** Section 5: the values of an array, with commas between them. */
  ghost predicate DenotesItems(t: string, vs: Values)
    decreases vs
  {
    match vs
    case NoValues => White(t)
    case Values(v, NoValues) => Denotes(t, v)
    case Values(v, tail) => exists x, y :: t == x + "," + y && Denotes(x, v) && DenotesItems(y, tail)
  }

  /** Section 4: the members of an object, with commas between them. */
  ghost predicate DenotesMembers(t: string, ms: Members)
    decreases ms
  {
    match ms
    case NoMembers => White(t)
    case Members(k, v, NoMembers) => exists x, y :: t == x + ":" + y && DenotesKey(x, k) && Denotes(y, v)
    case Members(k, v, rest) =>
      exists x, y, z :: t == x + ":" + y + "," + z && DenotesKey(x, k) && Denotes(y, v) && DenotesMembers(z, rest)
  }

  ghost predicate DenotesKey(t: string, key: seq<Code>) {
    exists a, x, b :: t == a + x + b && White(a) && SpellsString(x, key) && White(b)
  }
}
