/**
 `htmlEscaped` and `renderInlineMarkdown`, and a reader of HTML that checks that the tags nest and
 returns the visible text.
 */
module MarkdownHtml {
  import opened Wrappers
  import opened Text

  function EscapeChar(c: char): string {
    match c
    case '&' => "&amp;"
    case '<' => "&lt;"
    case '>' => "&gt;"
    case '"' => "&quot;"
    case _ => [c]
  }

  function Escape(v: string): string {
    if v == [] then "" else EscapeChar(v[0]) + Escape(v[1..])
  }

  method HtmlEscaped(value: string) returns (escaped: string)
    ensures escaped == Escape(value)
  {
    escaped := "";
    assert value[0..] == value;
    for i := 0 to |value|
      invariant escaped + Escape(value[i..]) == Escape(value)
    {
      assert value[i..][0] == value[i] && value[i..][1..] == value[i + 1..];
      escaped := escaped + EscapeChar(value[i]);
    }
    assert value[|value|..] == [];
  }

  /** `split(separator: "`", omittingEmptySubsequences: false)`. */
  function Split(s: string): (pieces: seq<string>)
    ensures pieces != []
  {
    if s == [] then [""]
    else
      var r := Split(s[1..]);
      if s[0] == '`' then [""] + r else [[s[0]] + r[0]] + r[1..]
  }

  /** Every second piece becomes code. */
  function Wrap(pieces: seq<string>, code: bool): string {
    if pieces == [] then ""
    else (if code then Element("code", "code", pieces[0]) else pieces[0]) + Wrap(pieces[1..], !code)
  }

  function RenderInline(v: string): string {
    var pieces := Split(Escape(v));
    if |pieces| > 1 then Wrap(pieces, false) else Escape(v)
  }

  function StripTicks(v: string): string {
    if v == [] then "" else (if v[0] == '`' then "" else [v[0]]) + StripTicks(v[1..])
  }

  // ---------------------------------------------------------------------------------
  // Reading HTML

  /** Where the tag ends, or the length of the text. */
  function TagEnd(s: string): (n: nat)
    ensures n <= |s| && (forall i :: 0 <= i < n ==> s[i] != '>') && (n < |s| ==> s[n] == '>')
  {
    if s == [] || s[0] == '>' then 0 else 1 + TagEnd(s[1..])
  }

  /** The element name: the tag up to its first space. */
  function TagName(tag: string): string {
    if tag == [] || tag[0] == ' ' then "" else [tag[0]] + TagName(tag[1..])
  }

  function Prefix(t: string, r: Option<string>): Option<string> {
    if r.None? then None else Some(t + r.value)
  }

  /** The character of the entity reference at the start of a text, and the length of the reference. */
  function Entity(s: string): Option<(char, nat)> {
    if Starts(s, "&amp;") then Some(('&', 5))
    else if Starts(s, "&lt;") then Some(('<', 4))
    else if Starts(s, "&gt;") then Some(('>', 4))
    else if Starts(s, "&quot;") then Some(('"', 6))
    else if Starts(s, "&nbsp;") then Some(('\U{00A0}', 6))
    else if Starts(s, "&bull;") then Some(('\U{2022}', 6))
    else None
  }

  /** The visible text, with the given elements open; None unless tags nest and all are closed in the end. */
  function Read(s: string, open: seq<string>): Option<string>
    decreases |s|
  {
    if s == [] then (if open == [] then Some("") else None)
    else if s[0] == '<' then
      var n := TagEnd(s);
      if n == |s| then None
      else
        var tag := s[1..n];
        if tag != [] && tag[0] == '/' then
          if open != [] && open[0] == tag[1..] then Read(s[n + 1..], open[1..]) else None
        else Read(s[n + 1..], [TagName(tag)] + open)
    else if s[0] == '&' then
      match Entity(s)
      case None => None
      case Some((c, n)) => Prefix([c], Read(s[n..], open))
    else if s[0] == '>' then None
    else Prefix([s[0]], Read(s[1..], open))
  }

  /** Wherever it stands, the fragment nests properly and shows the text. */
  ghost predicate Shows(html: string, text: string) {
    forall rest, open {:trigger Read(html + rest, open)} :: Read(html + rest, open) == Prefix(text, Read(rest, open))
  }

  lemma ShowsNothing()
    ensures Shows("", "")
  {
    forall rest, open ensures Read("" + rest, open) == Prefix("", Read(rest, open)) {
      assert "" + rest == rest;
      PrefixNothing(Read(rest, open));
    }
  }

  lemma PrefixNothing(r: Option<string>)
    ensures Prefix("", r) == r
  {
    if r.Some? { assert "" + r.value == r.value; }
  }

  lemma PrefixTwice(a: string, b: string, r: Option<string>)
    ensures Prefix(a, Prefix(b, r)) == Prefix(a + b, r)
  {
    if r.Some? { assert a + (b + r.value) == a + b + r.value; }
  }

  lemma ShowsConcat(a: string, x: string, b: string, y: string)
    requires Shows(a, x) && Shows(b, y)
    ensures Shows(a + b, x + y)
  {
    forall rest, open ensures Read(a + b + rest, open) == Prefix(x + y, Read(rest, open)) {
      assert a + b + rest == a + (b + rest);
      PrefixTwice(x, y, Read(rest, open));
    }
  }

  lemma ShowsChar(c: char)
    requires c != '<' && c != '>' && c != '&'
    ensures Shows([c], [c])
  {
    forall rest, open ensures Read([c] + rest, open) == Prefix([c], Read(rest, open)) {
      assert ([c] + rest)[1..] == rest;
    }
  }

  lemma ShowsEntity(e: string, c: char)
    requires (e == "&amp;" && c == '&') || (e == "&lt;" && c == '<') || (e == "&gt;" && c == '>') ||
      (e == "&quot;" && c == '"') || (e == "&nbsp;" && c == '\U{00A0}') || (e == "&bull;" && c == '\U{2022}')
    ensures Shows(e, [c])
  {
    forall rest, open ensures Read(e + rest, open) == Prefix([c], Read(rest, open)) {
      var s := e + rest;
      assert s[..|e|] == e && s[|e|..] == rest;
      EntityAt(e, rest);
    }
  }

  lemma EntityAt(e: string, rest: string)
    requires e in {"&amp;", "&lt;", "&gt;", "&quot;", "&nbsp;", "&bull;"}
    ensures Entity(e + rest) == Entity(e) && Entity(e).Some? && Entity(e).value.1 == |e|
  {
    var s := e + rest;
    assert forall i :: 0 <= i < |e| ==> s[i] == e[i];
    assert e[1] == s[1] && e[2] == s[2];
    StartsAt(s, e, "&amp;");
    StartsAt(s, e, "&lt;");
    StartsAt(s, e, "&gt;");
    StartsAt(s, e, "&quot;");
    StartsAt(s, e, "&nbsp;");
    StartsAt(s, e, "&bull;");
  }

  /** References differ within their first three characters. */
  lemma StartsAt(s: string, e: string, p: string)
    requires e <= s && |e| >= 4 && |p| >= 4
    requires e == p || e[1] != p[1] || e[2] != p[2]
    ensures Starts(s, p) <==> e == p
    ensures Starts(e, p) <==> e == p
  {
    assert Starts(s, p) ==> s[..|p|][1] == p[1] && s[..|p|][2] == p[2];
    assert Starts(e, p) ==> e[..|p|][1] == p[1] && e[..|p|][2] == p[2];
    if e == p {
      assert e[..|e|] == e && s[..|e|] == e;
    }
  }

  lemma {:induction false} TagEndAt(inner: string, rest: string)
    requires forall i :: 0 <= i < |inner| ==> inner[i] != '>'
    ensures TagEnd(inner + ">" + rest) == |inner|
  {
    var s := inner + ">" + rest;
    if inner != [] {
      assert s[1..] == inner[1..] + ">" + rest;
      TagEndAt(inner[1..], rest);
    }
  }

  predicate IsTag(tag: string) {
    forall i :: 0 <= i < |tag| ==> tag[i] != '>'
  }

  lemma ReadOpen(tag: string, rest: string, open: seq<string>)
    requires IsTag(tag) && tag != [] && tag[0] != '/'
    ensures Read("<" + tag + ">" + rest, open) == Read(rest, [TagName(tag)] + open)
  {
    var s, inner := "<" + tag + ">" + rest, "<" + tag;
    TagEndAt(inner, rest);
    assert s == inner + ">" + rest;
    assert s[1..|inner|] == tag && s[|inner| + 1..] == rest;
  }

  lemma ReadClose(name: string, rest: string, open: seq<string>)
    requires IsTag(name)
    ensures Read("</" + name + ">" + rest, [name] + open) == Read(rest, open)
  {
    var s, inner := "</" + name + ">" + rest, "</" + name;
    TagEndAt(inner, rest);
    assert s[1..|inner|] == "/" + name && s[|inner| + 1..] == rest;
    assert ("/" + name)[1..] == name && ([name] + open)[1..] == open;
  }

  function Element(tag: string, name: string, html: string): string {
    "<" + tag + ">" + html + "</" + name + ">"
  }

  lemma ElementThen(tag: string, name: string, html: string, rest: string)
    ensures Element(tag, name, html) + rest == "<" + tag + ">" + (html + ("</" + name + ">" + rest))
  {
  }

  lemma ElementReads(tag: string, name: string, html: string, text: string, rest: string, open: seq<string>)
    requires IsTag(tag) && tag != [] && tag[0] != '/' && IsTag(name) && TagName(tag) == name && Shows(html, text)
    ensures Read(Element(tag, name, html) + rest, open) == Prefix(text, Read(rest, open))
  {
    hide Read, Element, Prefix, IsTag, TagName;
    var close := "</" + name + ">" + rest;
    ElementThen(tag, name, html, rest);
    ReadOpen(tag, html + close, open);
    ReadClose(name, rest, open);
    assert Read(html + close, [name] + open) == Prefix(text, Read(close, [name] + open));
  }

  /** An element shows what its content shows. */
  lemma ShowsElement(tag: string, name: string, html: string, text: string)
    requires IsTag(tag) && tag != [] && tag[0] != '/' && IsTag(name) && TagName(tag) == name && Shows(html, text)
    ensures Shows(Element(tag, name, html), text)
  {
    hide Read, Element, Prefix, IsTag, TagName;
    forall rest, open
      ensures Read(Element(tag, name, html) + rest, open) == Prefix(text, Read(rest, open))
    {
      ElementReads(tag, name, html, text, rest, open);
    }
  }

  /** Escaping is undone by reading. */
  lemma {:induction false} ShowsEscaped(v: string)
    ensures Shows(Escape(v), v)
  {
    if v == [] {
      ShowsNothing();
    } else {
      var c := v[0];
      if c == '&' || c == '<' || c == '>' || c == '"' { ShowsEntity(EscapeChar(c), c); } else { ShowsChar(c); }
      ShowsEscaped(v[1..]);
      ShowsConcat(EscapeChar(c), [c], Escape(v[1..]), v[1..]);
      assert v == [c] + v[1..];
    }
  }

  /** Four characters are replaced, each by its entity, and all others are kept. */
  lemma EscapeIsPerChar(a: string, c: char, b: string)
    ensures Escape("") == ""
    ensures Escape(a + [c] + b) ==
      Escape(a) +
      (if c == '&' then "&amp;" else if c == '<' then "&lt;" else if c == '>' then "&gt;"
       else if c == '"' then "&quot;" else [c]) +
      Escape(b)
  {
    EscapeAppend(a + [c], b);
    EscapeAppend(a, [c]);
    assert [c][1..] == "" && EscapeChar(c) + "" == EscapeChar(c);
  }

  /** `htmlEscaped` has an exact inverse. */
  lemma EscapeIsInvertible(v: string)
    ensures Read(Escape(v), []) == Some(v)
  {
    ShowsEscaped(v);
    assert Escape(v) + "" == Escape(v) && v + "" == v;
    assert Read("", []) == Some("");
  }

  // ---------------------------------------------------------------------------------
  // Inline code

  function EscapeEach(pieces: seq<string>): seq<string> {
    if pieces == [] then [] else [Escape(pieces[0])] + EscapeEach(pieces[1..])
  }

  function Concat(pieces: seq<string>): string {
    if pieces == [] then "" else pieces[0] + Concat(pieces[1..])
  }

  lemma {:induction false} SplitPrefix(p: string, s: string)
    requires forall i :: 0 <= i < |p| ==> p[i] != '`'
    ensures Split(p + s) == [p + Split(s)[0]] + Split(s)[1..]
  {
    var r := Split(s);
    if p == [] {
      assert p + s == s && "" + r[0] == r[0];
    } else {
      assert (p + s)[1..] == p[1..] + s && (p + s)[0] == p[0];
      SplitPrefix(p[1..], s);
      var q := [p[1..] + r[0]] + r[1..];
      assert q[0] == p[1..] + r[0] && q[1..] == r[1..];
      assert [p[0]] + (p[1..] + r[0]) == p + r[0];
    }
  }

  /** Escaping makes and hides no backtick: the pieces are the escaped pieces of the input. */
  lemma {:induction false} SplitEscaped(v: string)
    ensures Split(Escape(v)) == EscapeEach(Split(v))
  {
    if v != [] {
      var pieces := Split(v[1..]);
      SplitEscaped(v[1..]);
      assert EscapeEach(pieces)[0] == Escape(pieces[0]) && EscapeEach(pieces)[1..] == EscapeEach(pieces[1..]);
      if v[0] == '`' {
        assert (EscapeChar('`') + Escape(v[1..]))[1..] == Escape(v[1..]);
        assert ([""] + pieces)[1..] == pieces;
      } else {
        SplitPrefix(EscapeChar(v[0]), Escape(v[1..]));
        var first := [v[0]] + pieces[0];
        assert first[1..] == pieces[0];
        assert Split(v) == [first] + pieces[1..];
        assert ([first] + pieces[1..])[1..] == pieces[1..];
      }
    }
  }

  lemma {:induction false} ConcatSplit(v: string)
    ensures Concat(Split(v)) == StripTicks(v)
  {
    if v != [] {
      var pieces := Split(v[1..]);
      ConcatSplit(v[1..]);
      if v[0] == '`' {
        assert ([""] + pieces)[1..] == pieces;
      } else {
        var first := [v[0]] + pieces[0];
        assert ([first] + pieces[1..])[1..] == pieces[1..];
        assert first + Concat(pieces[1..]) == [v[0]] + (pieces[0] + Concat(pieces[1..]));
      }
    }
  }

  lemma {:induction false} ShowsWrapped(pieces: seq<string>, code: bool)
    ensures Shows(Wrap(EscapeEach(pieces), code), Concat(pieces))
  {
    hide Shows, Escape, Element;
    if pieces == [] {
      ShowsNothing();
    } else {
      var p := Escape(pieces[0]);
      assert EscapeEach(pieces)[0] == p && EscapeEach(pieces)[1..] == EscapeEach(pieces[1..]);
      ShowsEscaped(pieces[0]);
      if code {
        TagNameOf("code");
        ShowsElement("code", "code", p, pieces[0]);
      }
      ShowsWrapped(pieces[1..], !code);
      ShowsConcat(if code then Element("code", "code", p) else p, pieces[0],
        Wrap(EscapeEach(pieces[1..]), !code), Concat(pieces[1..]));
    }
  }

  lemma {:induction false} TagNameOf(name: string)
    requires forall i :: 0 <= i < |name| ==> name[i] != ' '
    ensures TagName(name) == name
  {
    if name != [] {
      TagNameOf(name[1..]);
      assert name == [name[0]] + name[1..];
    }
  }

  lemma {:induction false} OnePiece(s: string)
    requires |Split(s)| == 1
    ensures Split(s) == [s]
  {
    if s != [] {
      OnePiece(s[1..]);
      assert s == [s[0]] + s[1..];
    }
  }

  /**
   Inline rendering nests properly for every line, with any number of backticks, and shows the line
   without its backticks.
   */
  lemma InlineIsFaithful(v: string)
    ensures Shows(RenderInline(v), StripTicks(v))
  {
    SplitEscaped(v);
    ConcatSplit(v);
    ShowsWrapped(Split(v), false);
    if |Split(Escape(v))| == 1 {
      OnePiece(Escape(v));
      assert Wrap([Escape(v)], false) == Escape(v) + "" == Escape(v);
    }
  }

  // Which text is code: these equations determine the rendering of every line

  predicate TickFree(s: string) {
    forall i :: 0 <= i < |s| ==> s[i] != '`'
  }

  lemma {:induction false} EscapeAppend(a: string, b: string)
    ensures Escape(a + b) == Escape(a) + Escape(b)
  {
    if a == [] {
      assert a + b == b;
    } else {
      assert (a + b)[1..] == a[1..] + b;
      EscapeAppend(a[1..], b);
      assert EscapeChar(a[0]) + (Escape(a[1..]) + Escape(b)) == EscapeChar(a[0]) + Escape(a[1..]) + Escape(b);
    }
  }

  lemma {:induction false} EscapeTickFree(a: string)
    requires TickFree(a)
    ensures TickFree(Escape(a))
  {
    if a != [] {
      EscapeTickFree(a[1..]);
    }
  }

  lemma InlineIsWrap(v: string)
    ensures RenderInline(v) == Wrap(Split(Escape(v)), false)
  {
    if |Split(Escape(v))| == 1 {
      OnePiece(Escape(v));
      assert Wrap([Escape(v)], false) == Escape(v) + "" == Escape(v);
    }
  }

  lemma EscapeTick(a: string, s: string)
    ensures Escape(a + "`" + s) == Escape(a) + ("`" + Escape(s))
  {
    assert a + "`" + s == a + ("`" + s);
    EscapeAppend(a, "`" + s);
    assert ("`" + s)[1..] == s;
  }

  lemma SplitTick(s: string)
    ensures Split("`" + s) == [""] + Split(s)
  {
    assert ("`" + s)[1..] == s;
  }

  lemma SplitAtTick(a: string, s: string)
    requires TickFree(a)
    ensures Split(Escape(a + "`" + s)) == [Escape(a)] + Split(Escape(s))
  {
    hide Escape, Split;
    EscapeTick(a, s);
    EscapeTickFree(a);
    SplitPrefix(Escape(a), "`" + Escape(s));
    SplitTick(Escape(s));
    assert Escape(a) + "" == Escape(a) && ([""] + Split(Escape(s)))[1..] == Split(Escape(s));
  }

  lemma SplitTickFree(a: string)
    requires TickFree(a)
    ensures Split(Escape(a)) == [Escape(a)]
  {
    EscapeTickFree(a);
    SplitPrefix(Escape(a), "");
    assert Escape(a) + "" == Escape(a);
  }

  /** Text without backticks is escaped as it is. */
  lemma NoTicks(a: string)
    requires TickFree(a)
    ensures RenderInline(a) == Escape(a)
  {
    SplitTickFree(a);
    InlineIsWrap(a);
    assert Wrap([Escape(a)], false) == Escape(a) + "" == Escape(a);
  }

  lemma CodeElement(html: string)
    ensures Element("code", "code", html) == "<code>" + html + "</code>"
  {
    assert "<" + "code" + ">" == "<code>" && "</" + "code" + ">" == "</code>";
  }

  /** What stands between the first two backticks is code, and the rest is rendered on its own. */
  lemma ClosedCode(a: string, b: string, rest: string)
    requires TickFree(a) && TickFree(b)
    ensures RenderInline(a + "`" + (b + "`" + rest)) ==
      Escape(a) + ("<code>" + Escape(b) + "</code>") + RenderInline(rest)
  {
    hide Element, Escape;
    CodeElement(Escape(b));
    var pieces := Split(Escape(rest));
    SplitAtTick(a, b + "`" + rest);
    SplitAtTick(b, rest);
    InlineIsWrap(a + "`" + (b + "`" + rest));
    InlineIsWrap(rest);
    var x, y := Escape(a), Escape(b);
    assert ([x] + ([y] + pieces))[1..] == [y] + pieces && ([y] + pieces)[1..] == pieces;
    assert Wrap([y] + pieces, true) == Element("code", "code", y) + Wrap(pieces, false);
    assert x + (Element("code", "code", y) + Wrap(pieces, false)) ==
      x + Element("code", "code", y) + Wrap(pieces, false);
  }

  /** After a last backtick without a partner everything is code, and the tag is still closed. */
  lemma UnclosedCode(a: string, b: string)
    requires TickFree(a) && TickFree(b)
    ensures RenderInline(a + "`" + b) == Escape(a) + ("<code>" + Escape(b) + "</code>")
  {
    hide Element, Escape;
    CodeElement(Escape(b));
    SplitAtTick(a, b);
    SplitTickFree(b);
    InlineIsWrap(a + "`" + b);
    var x, y := Escape(a), Escape(b);
    assert ([x] + [y])[1..] == [y] && [y][1..] == [];
    assert Wrap([y], true) == Element("code", "code", y) + "" == Element("code", "code", y);
  }

  // ---------------------------------------------------------------------------------
  // Joining

  ghost predicate ShowEach(htmls: seq<string>, texts: seq<string>) {
    |htmls| == |texts| && forall i :: 0 <= i < |htmls| ==> Shows(htmls[i], texts[i])
  }

  lemma {:induction false} ShowsJoined(htmls: seq<string>, texts: seq<string>, sep: char)
    requires ShowEach(htmls, texts) && sep != '<' && sep != '>' && sep != '&'
    ensures Shows(Join(htmls, [sep]), Join(texts, [sep]))
  {
    if |htmls| == 0 {
      ShowsNothing();
    } else if |htmls| > 1 {
      ShowsChar(sep);
      ShowsJoined(htmls[1..], texts[1..], sep);
      ShowsConcat(htmls[0], texts[0], [sep], [sep]);
      ShowsConcat(htmls[0] + [sep], texts[0] + [sep], Join(htmls[1..], [sep]), Join(texts[1..], [sep]));
    }
  }
}
