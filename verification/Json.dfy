/**
 JSON text as RFC 8259 defines it: values, the reader `JSON.parse` and the printer
 `JSON.stringify(value, null, 2)`. A number is kept as its token.
 */
module Json {
  import opened Wrappers
  import opened Text

  /** A code point of a string value; lone surrogates are allowed. */
  type Code = c: int | 0 <= c < 0x11_0000

  datatype Value =
    | Null
    | Bool(b: bool)
    | Num(token: string)
    | Str(codes: seq<Code>)
    | Arr(items: Values)
    | Obj(members: Members)
  datatype Values = NoValues | Values(head: Value, tail: Values)
  datatype Members = NoMembers | Members(key: seq<Code>, value: Value, rest: Members)

  /** The result of reading a prefix of a text: what was read, and the text that is left. */
  datatype Parsed<+T> = Fail | Got(value: T, rest: string)

  // ---------------------------------------------------------------------------------
  // Reader

  predicate IsWs(c: char) {
    c == ' ' || c == '\t' || c == '\n' || c == '\r'
  }

  function SkipWs(s: string): (r: string)
    ensures |r| <= |s| && (r == [] || !IsWs(r[0]))
  {
    if s != [] && IsWs(s[0]) then SkipWs(s[1..]) else s
  }

  /** How many digits the text starts with. */
  function Digits(s: string): (n: nat)
    ensures n <= |s| && (forall i :: 0 <= i < n ==> IsDigit(s[i])) && (n < |s| ==> !IsDigit(s[n]))
  {
    if s != [] && IsDigit(s[0]) then 1 + Digits(s[1..]) else 0
  }

  /** The lengths of the parts of a number token; None when the part is malformed. */
  function IntLen(s: string): Option<nat> {
    if s == [] || !IsDigit(s[0]) then None
    else if s[0] == '0' then Some(1)
    else Some(Digits(s))
  }

  function FracLen(s: string): Option<nat> {
    if s == [] || s[0] != '.' then Some(0)
    else if Digits(s[1..]) == 0 then None
    else Some(1 + Digits(s[1..]))
  }

  function ExpLen(s: string): Option<nat> {
    if s == [] || (s[0] != 'e' && s[0] != 'E') then Some(0)
    else
      var sign := if |s| > 1 && (s[1] == '+' || s[1] == '-') then 2 else 1;
      if Digits(s[sign..]) == 0 then None else Some(sign + Digits(s[sign..]))
  }

  function FracExpLen(s: string): (n: Option<nat>)
    ensures n.Some? ==> n.value <= |s|
  {
    var f := FracLen(s);
    if f.None? then None
    else
      var e := ExpLen(s[f.value..]);
      if e.None? then None else Some(f.value + e.value)
  }

  function UnsignedLen(s: string): (n: Option<nat>)
    ensures n.Some? ==> 0 < n.value <= |s|
  {
    var i := IntLen(s);
    if i.None? then None
    else
      var t := FracExpLen(s[i.value..]);
      if t.None? then None else Some(i.value + t.value)
  }

  function NumberLen(s: string): (n: Option<nat>)
    ensures n.Some? ==> 0 < n.value <= |s|
  {
    if s != [] && s[0] == '-' then
      var u := UnsignedLen(s[1..]);
      if u.None? then None else Some(1 + u.value)
    else UnsignedLen(s)
  }

  function HexValue(c: char): Option<nat> {
    if '0' <= c <= '9' then Some(c as int - '0' as int)
    else if 'a' <= c <= 'f' then Some(c as int - 'a' as int + 10)
    else if 'A' <= c <= 'F' then Some(c as int - 'A' as int + 10)
    else None
  }

  /** Four hexadecimal digits. */
  function Hex4(s: string): Option<nat>
    requires |s| >= 4
  {
    var a, b, c, d := HexValue(s[0]), HexValue(s[1]), HexValue(s[2]), HexValue(s[3]);
    if a.Some? && b.Some? && c.Some? && d.Some? then
      Some(((a.value * 16 + b.value) * 16 + c.value) * 16 + d.value)
    else None
  }

  lemma Hex4Range(s: string)
    requires |s| >= 4
    ensures Hex4(s).Some? ==> Hex4(s).value < 0x1_0000
  {
  }

  /** The character a two-character escape stands for. */
  function Unescape(c: char): Option<Code> {
    match c
    case '"' => Some(34)
    case '\\' => Some(92)
    case '/' => Some(47)
    case 'b' => Some(8)
    case 'f' => Some(12)
    case 'n' => Some(10)
    case 'r' => Some(13)
    case 't' => Some(9)
    case _ => None
  }

  /** One character of a string, and how much text it takes. */
  function ParseChar(s: string): (r: Parsed<Code>)
    ensures r.Got? ==> |r.rest| < |s|
  {
    if s == [] || s[0] == '"' || s[0] as int < 32 then Fail
    else if s[0] != '\\' then Got(s[0] as int, s[1..])
    else if |s| < 2 then Fail
    else if s[1] == 'u' then
      if |s| < 6 || Hex4(s[2..]).None? then Fail
      else
        Hex4Range(s[2..]);
        Got(Hex4(s[2..]).value, s[6..])
    else if Unescape(s[1]).Some? then Got(Unescape(s[1]).value, s[2..])
    else Fail
  }

  /** The characters of a string up to and including its closing quote. */
  function ParseChars(s: string): (r: Parsed<seq<Code>>)
    ensures r.Got? ==> |r.rest| < |s|
    decreases |s|
  {
    if s != [] && s[0] == '"' then Got([], s[1..])
    else
      match ParseChar(s)
      case Fail => Fail
      case Got(c, rest) =>
        match ParseChars(rest)
        case Fail => Fail
        case Got(cs, rest') => Got([c] + cs, rest')
  }

  function ParseScalar(s: string): (r: Parsed<Value>)
    ensures r.Got? ==> |r.rest| < |s|
  {
    if Starts(s, "null") then Got(Null, s[4..])
    else if Starts(s, "true") then Got(Bool(true), s[4..])
    else if Starts(s, "false") then Got(Bool(false), s[5..])
    else
      match NumberLen(s)
      case None => Fail
      case Some(n) => Got(Num(s[..n]), s[n..])
  }

  function ParseValue(s: string): (r: Parsed<Value>)
    ensures r.Got? ==> |r.rest| < |s|
    decreases |s|, 0
  {
    if s == [] then Fail
    else if s[0] == '"' then
      match ParseChars(s[1..])
      case Fail => Fail
      case Got(cs, rest) => Got(Str(cs), rest)
    else if s[0] == '[' then
      var t := SkipWs(s[1..]);
      if t != [] && t[0] == ']' then Got(Arr(NoValues), t[1..])
      else
        match ParseItems(t)
        case Fail => Fail
        case Got(vs, rest) => Got(Arr(vs), rest)
    else if s[0] == '{' then
      var t := SkipWs(s[1..]);
      if t != [] && t[0] == '}' then Got(Obj(NoMembers), t[1..])
      else
        match ParseMembers(t)
        case Fail => Fail
        case Got(ms, rest) => Got(Obj(ms), rest)
    else ParseScalar(s)
  }

  /** The items of a nonempty array, through its closing bracket. */
  function ParseItems(s: string): (r: Parsed<Values>)
    ensures r.Got? ==> |r.rest| < |s|
    decreases |s|, 1
  {
    match ParseValue(s)
    case Fail => Fail
    case Got(v, rest) =>
      var t := SkipWs(rest);
      if t != [] && t[0] == ']' then Got(Values(v, NoValues), t[1..])
      else if t != [] && t[0] == ',' then
        match ParseItems(SkipWs(t[1..]))
        case Fail => Fail
        case Got(vs, rest') => Got(Values(v, vs), rest')
      else Fail
  }

  /** A key, its colon and the space around it; what is left starts at the value. */
  function ParseKey(s: string): (r: Parsed<seq<Code>>)
    ensures r.Got? ==> |r.rest| < |s|
  {
    if s == [] || s[0] != '"' then Fail
    else
      match ParseChars(s[1..])
      case Fail => Fail
      case Got(key, rest) =>
        var t := SkipWs(rest);
        if t != [] && t[0] == ':' then Got(key, SkipWs(t[1..])) else Fail
  }

  /** The members of a nonempty object, through its closing brace. */
  function ParseMembers(s: string): (r: Parsed<Members>)
    ensures r.Got? ==> |r.rest| < |s|
    decreases |s|, 1
  {
    match ParseKey(s)
    case Fail => Fail
    case Got(key, rest) =>
      match ParseValue(rest)
      case Fail => Fail
      case Got(v, rest') =>
        var t := SkipWs(rest');
        if t != [] && t[0] == '}' then Got(Members(key, v, NoMembers), t[1..])
        else if t != [] && t[0] == ',' then
          match ParseMembers(SkipWs(t[1..]))
          case Fail => Fail
          case Got(ms, rest'') => Got(Members(key, v, ms), rest'')
        else Fail
  }

  /** `JSON.parse`; None where it throws. */
  function Parse(s: string): Option<Value> {
    match ParseValue(SkipWs(s))
    case Fail => None
    case Got(v, rest) => if SkipWs(rest) == [] then Some(v) else None
  }

  // ---------------------------------------------------------------------------------
  // Printer

  function HexDigit(n: nat): char
    requires n < 16
  {
    if n < 10 then ('0' as int + n) as char else ('a' as int + n - 10) as char
  }

  function EscapeHex(c: Code): string
    requires c < 0x1_0000
  {
    "\\u" + [HexDigit(c / 4096), HexDigit(c / 256 % 16), HexDigit(c / 16 % 16), HexDigit(c % 16)]
  }

  function PrintCode(c: Code): string {
    if c == 34 then "\\\""
    else if c == 92 then "\\\\"
    else if c == 8 then "\\b"
    else if c == 12 then "\\f"
    else if c == 10 then "\\n"
    else if c == 13 then "\\r"
    else if c == 9 then "\\t"
    else if c < 32 || 0xD800 <= c < 0xE000 then EscapeHex(c)
    else [c as char]
  }

  function PrintCodes(cs: seq<Code>): string {
    if cs == [] then "" else PrintCode(cs[0]) + PrintCodes(cs[1..])
  }

  function Quote(cs: seq<Code>): string {
    "\"" + PrintCodes(cs) + "\""
  }

  /** `JSON.stringify(v, null, 2)` of a value that stands `indent` deep. */
  function Print(v: Value, indent: string): string {
    match v
    case Null => "null"
    case Bool(b) => if b then "true" else "false"
    case Num(token) => token
    case Str(cs) => Quote(cs)
    case Arr(NoValues) => "[]"
    case Arr(vs) => "[\n" + PrintItems(vs, indent + "  ") + "\n" + indent + "]"
    case Obj(NoMembers) => "{}"
    case Obj(ms) => "{\n" + PrintMembers(ms, indent + "  ") + "\n" + indent + "}"
  }

  function PrintItems(vs: Values, indent: string): string {
    match vs
    case NoValues => ""
    case Values(v, NoValues) => indent + Print(v, indent)
    case Values(v, tail) => indent + Print(v, indent) + ",\n" + PrintItems(tail, indent)
  }

  function PrintMembers(ms: Members, indent: string): string {
    match ms
    case NoMembers => ""
    case Members(k, v, NoMembers) => indent + Quote(k) + ": " + Print(v, indent)
    case Members(k, v, rest) => indent + Quote(k) + ": " + Print(v, indent) + ",\n" + PrintMembers(rest, indent)
  }

  function Stringify(v: Value): string {
    Print(v, "")
  }

  /** Every number token in the value is a JSON number. */
  predicate WellFormed(v: Value) {
    match v
    case Num(token) => NumberLen(token) == Some(|token|)
    case Arr(vs) => WellFormedItems(vs)
    case Obj(ms) => WellFormedMembers(ms)
    case _ => true
  }

  predicate WellFormedItems(vs: Values) {
    match vs
    case NoValues => true
    case Values(v, tail) => WellFormed(v) && WellFormedItems(tail)
  }

  predicate WellFormedMembers(ms: Members) {
    match ms
    case NoMembers => true
    case Members(_, v, rest) => WellFormed(v) && WellFormedMembers(rest)
  }
}
