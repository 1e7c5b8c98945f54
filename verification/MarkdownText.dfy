/** The page shows the document: all of its text, once and in order, in tags that nest. */
module MarkdownText {
  import opened Wrappers
  import opened Text
  import opened MarkdownHtml
  import opened MarkdownBlocks
  import opened MarkdownLines

  // ---------------------------------------------------------------------------------
  // What each line contributes, line by line

  datatype Piece =
    | HeadingText(level: nat, text: string)
    | ItemText(number: Option<string>, text: string)
    | ProseText(text: string)
    | CodeText(line: string)

  /** The contribution of a line outside code; fences and blank lines give nothing. */
  function LinePiece(raw: string): seq<Piece> {
    match Classify(raw)
    case Fence => []
    case Empty => []
    case Heading(level, text) => [HeadingText(level, text)]
    case Numbered(number, text) => [ItemText(Some(number), text)]
    case Bulleted(text) => [ItemText(None, text)]
    case Plain(text) => [ProseText(text)]
  }

  /** The contributions of the lines, where a fence only switches code on or off. */
  function Pieces(lines: seq<string>, inCode: bool): seq<Piece> {
    if lines == [] then []
    else if Classify(lines[0]).Fence? then Pieces(lines[1..], !inCode)
    else (if inCode then [CodeText(lines[0])] else LinePiece(lines[0])) + Pieces(lines[1..], inCode)
  }

  function Prose(lines: seq<string>): seq<Piece> {
    if lines == [] then [] else [ProseText(lines[0])] + Prose(lines[1..])
  }

  function CodeTexts(lines: seq<string>): seq<Piece> {
    if lines == [] then [] else [CodeText(lines[0])] + CodeTexts(lines[1..])
  }

  /** What a block holds. */
  function BlockPieces(b: Block): seq<Piece> {
    match b
    case Title(level, text) => [HeadingText(level, text)]
    case Item(number, text) => [ItemText(number, text)]
    case Continuation(text) => [ProseText(text)]
    case Paragraph(lines) => Prose(lines)
    case Code(lines) => CodeTexts(lines)
  }

  function AllPieces(bs: seq<Block>): seq<Piece> {
    if bs == [] then [] else BlockPieces(bs[0]) + AllPieces(bs[1..])
  }

  lemma {:induction false} PiecesAppend(a: seq<Block>, b: seq<Block>)
    ensures AllPieces(a + b) == AllPieces(a) + AllPieces(b)
    ensures |a| == 1 ==> AllPieces(a) == BlockPieces(a[0])
  {
    if a == [] {
      assert a + b == b;
    } else {
      assert (a + b)[1..] == a[1..] + b;
      PiecesAppend(a[1..], b);
    }
  }

  lemma {:induction false} CodePieces(lines: seq<string>)
    ensures Pieces(lines, true) ==
      CodeTexts(lines[..CodeLength(lines)]) + Pieces(AfterCode(lines, CodeLength(lines)), false)
  {
    hide Classify, LinePiece;
    var n := CodeLength(lines);
    if n > 0 {
      CodePieces(lines[1..]);
      assert lines[..n][1..] == lines[1..][..n - 1];
      assert AfterCode(lines, n) == AfterCode(lines[1..], n - 1);
    }
  }

  lemma {:induction false} RunPieces(lines: seq<string>)
    ensures Pieces(lines, false) == Prose(PlainRun(lines)) + Pieces(lines[|PlainRun(lines)|..], false)
  {
    hide Classify;
    var run := PlainRun(lines);
    if run == [] {
      assert lines[0..] == lines;
    } else {
      RunPieces(lines[1..]);
      assert run[1..] == PlainRun(lines[1..]);
      assert lines[1..][|run| - 1..] == lines[|run|..];
    }
  }

  lemma HeadPieces(b: Block, rest: seq<Block>)
    ensures AllPieces([b] + rest) == BlockPieces(b) + AllPieces(rest)
  {
    PiecesAppend([b], rest);
  }

  /** The blocks hold what the lines contribute, each once and in source order. */
  lemma {:induction false} BlocksKeepText(lines: seq<string>, afterItem: bool)
    ensures AllPieces(Blocks(lines, afterItem)) == Pieces(lines, false)
    decreases |lines|
  {
    hide Classify, Pieces, AllPieces, CodeLength, PlainRun;
    if lines == [] {
      assert Pieces([], false) == [] by { NoLines(); }
      assert AllPieces([]) == [] by { NoLines(); }
    } else {
      var rest := lines[1..];
      match Classify(lines[0])
      case Fence =>
        FirstLine(lines);
        CodePieces(rest);
        var n := CodeLength(rest);
        BlocksKeepText(AfterCode(rest, n), false);
        PiecesAppend(CodeBlock(rest[..n]), Blocks(AfterCode(rest, n), false));
        CodeBlockPieces(rest[..n]);
      case Plain(text) =>
        if afterItem && Starts(lines[0], "   ") {
          FirstLine(lines);
          HeadPieces(Continuation(text), Blocks(rest, true));
          BlocksKeepText(rest, true);
        } else {
          var run := PlainRun(lines);
          PlainRunNonempty(lines);
          RunPieces(lines);
          HeadPieces(Paragraph(run), Blocks(lines[|run|..], false));
          BlocksKeepText(lines[|run|..], false);
        }
      case Empty =>
        FirstLine(lines);
        BlocksKeepText(rest, false);
      case Heading(level, text) =>
        FirstLine(lines);
        HeadPieces(Title(level, text), Blocks(rest, false));
        BlocksKeepText(rest, false);
      case Numbered(number, text) =>
        FirstLine(lines);
        HeadPieces(Item(Some(number), text), Blocks(rest, true));
        BlocksKeepText(rest, true);
      case Bulleted(text) =>
        FirstLine(lines);
        HeadPieces(Item(None, text), Blocks(rest, true));
        BlocksKeepText(rest, true);
    }
  }

  lemma NoLines()
    ensures Pieces([], false) == [] && AllPieces([]) == []
  {
  }

  lemma FirstLine(lines: seq<string>)
    requires lines != []
    ensures Pieces(lines, false) ==
      if Classify(lines[0]).Fence? then Pieces(lines[1..], true) else LinePiece(lines[0]) + Pieces(lines[1..], false)
  {
    hide Classify, LinePiece;
  }

  lemma PlainRunNonempty(lines: seq<string>)
    requires lines != [] && Classify(lines[0]).Plain?
    ensures PlainRun(lines) != []
  {
  }

  lemma CodeBlockPieces(code: seq<string>)
    ensures AllPieces(CodeBlock(code)) == CodeTexts(code)
  {
    PiecesAppend(CodeBlock(code), []);
    assert CodeBlock(code) + [] == CodeBlock(code);
  }

  /**
   Text conservation: every line that is neither blank nor a fence contributes its text to the blocks
   exactly once, in source order, as code inside fences and as what it is outside.
   */
  lemma DocumentKeepsText(markdown: string)
    ensures AllPieces(Blocks(Lines(markdown), false)) == Pieces(Lines(markdown), false)
  {
    BlocksKeepText(Lines(markdown), false);
  }

  // ---------------------------------------------------------------------------------
  // What the page shows

  function StripEach(lines: seq<string>): seq<string> {
    if lines == [] then [] else [StripTicks(lines[0])] + StripEach(lines[1..])
  }

  /** The text of the entries a block renders to. */
  function Seen(b: Block): seq<string> {
    match b
    case Title(level, text) =>
      if 1 <= level <= 6 then
        (if level == 2 then ["\U{00A0}", "\U{00A0}"] else []) + [StripTicks(text)] +
        (if level <= 2 then [Rule()] else [])
      else []
    case Item(number, text) =>
      [(if number.Some? then number.value + "." else "\U{2022}") + " " + StripTicks(text)]
    case Continuation(text) => [StripTicks(text)]
    case Paragraph(lines) => [Join(StripEach(lines), " ")]
    case Code(lines) => [Join(lines, "\n")]
  }

  function SeenAll(bs: seq<Block>): seq<string> {
    if bs == [] then [] else Seen(bs[0]) + SeenAll(bs[1..])
  }

  lemma ElementIs(tag: string, name: string, html: string, open: string, close: string)
    requires open == "<" + tag + ">" && close == "</" + name + ">"
    ensures Element(tag, name, html) == open + html + close
  {
  }

  /** A tag with a class, letter by letter. */
  lemma OpenTag(name: string, cls: string, start: string)
    requires start == "<" + name + " class=\""
    ensures "<" + WithClass(name, cls) + ">" == start + cls + "\">"
  {
    assert "<" + (name + (" " + ("class=\"" + cls + "\""))) + ">" == "<" + name + " class=\"" + cls + "\">";
  }

  lemma PlainTags()
    ensures "<" + "p" + ">" == "<p>" && "</" + "p" + ">" == "</p>" && "</" + "span" + ">" == "</span>"
    ensures "<" + "pre" + ">" == "<pre>" && "</" + "pre" + ">" == "</pre>"
    ensures "<" + "code" + ">" == "<code>" && "</" + "code" + ">" == "</code>"
  {
  }

  lemma {:induction false} RepeatText(c: char, n: nat)
    ensures |Repeat(c, n)| == n && forall i :: 0 <= i < n ==> Repeat(c, n)[i] == c
  {
    if n > 0 { RepeatText(c, n - 1); }
  }

  lemma LevelText(level: nat)
    requires 1 <= level <= 6
    ensures LevelName(level) == "h" + ["123456"[level - 1]]
  {
  }

  /** The HTML of a heading: two spacers before the second level, a rule after the first two. */
  lemma TitleHtml(level: nat, text: string)
    requires 1 <= level <= 6
    ensures |Rule()| == 85 && forall i :: 0 <= i < 85 ==> Rule()[i] == '\U{2500}'
    ensures
      var h := "h" + ["123456"[level - 1]];
      var spacer := "<p class=\"" + "section-spacer" + "\">" + "&nbsp;" + "</p>";
      var rule := "<p class=\"" + "heading-rule" + "\">" + Rule() + "</p>";
      Render(Title(level, text)) ==
        (if level == 2 then [spacer, spacer] else []) +
        ["<" + h + ">" + RenderInline(text) + ("</" + h + ">")] +
        (if level <= 2 then [rule] else [])
  {
    hide RenderInline, Element, LevelName, WithClass, Rule;
    var h := LevelName(level);
    LevelText(level);
    OpenTag("p", "section-spacer", "<p class=\"");
    OpenTag("p", "heading-rule", "<p class=\"");
    PlainTags();
    RuleIs();
    ElementIs(h, h, RenderInline(text), "<" + h + ">", "</" + h + ">");
    ElementIs(WithClass("p", "section-spacer"), "p", "&nbsp;", "<p class=\"" + "section-spacer" + "\">", "</p>");
    ElementIs(WithClass("p", "heading-rule"), "p", Rule(), "<p class=\"" + "heading-rule" + "\">", "</p>");
    assert Spacer() == "<p class=\"" + "section-spacer" + "\">" + "&nbsp;" + "</p>";
  }

  lemma RuleIs()
    ensures |Rule()| == 85 && forall i :: 0 <= i < 85 ==> Rule()[i] == '\U{2500}'
  {
    RepeatText('\U{2500}', 85);
  }

  /** The HTML of a list item: its number or a bullet, a space, its text. */
  lemma ItemHtml(number: Option<string>, text: string)
    ensures
      var mark := if number.None? then "&bull;" else Escape(number.value) + ".";
      Render(Item(number, text)) ==
        ["<p class=\"" + "list-item" + "\">" +
         ("<span class=\"" + "marker" + "\">" + mark + "</span>" + " " + RenderInline(text)) + "</p>"]
  {
    hide RenderInline, Escape, Element, WithClass;
    var mark := if number.None? then "&bull;" else Escape(number.value) + ".";
    var html := Marker(number) + " " + RenderInline(text);
    OpenTag("p", "list-item", "<p class=\"");
    OpenTag("span", "marker", "<span class=\"");
    PlainTags();
    ElementIs(WithClass("span", "marker"), "span", mark, "<span class=\"" + "marker" + "\">", "</span>");
    ElementIs(WithClass("p", "list-item"), "p", html, "<p class=\"" + "list-item" + "\">", "</p>");
    assert Marker(number) == "<span class=\"" + "marker" + "\">" + mark + "</span>";
    assert Render(Item(number, text)) == [Element(WithClass("p", "list-item"), "p", html)];
  }

  /** The HTML of running text and of code. */
  lemma TextHtml(text: string, lines: seq<string>)
    ensures Render(Continuation(text)) == ["<p class=\"" + "list-continuation" + "\">" + RenderInline(text) + "</p>"]
    ensures Render(Paragraph(lines)) == ["<p>" + Join(RenderEach(lines), " ") + "</p>"]
    ensures Render(Code(lines)) == ["<pre>" + ("<code>" + Escape(Join(lines, "\n")) + "</code>") + "</pre>"]
  {
    hide RenderInline, RenderEach, Escape, Join, Element, WithClass;
    var code := Escape(Join(lines, "\n"));
    OpenTag("p", "list-continuation", "<p class=\"");
    PlainTags();
    var open := "<p class=\"" + "list-continuation" + "\">";
    ElementIs(WithClass("p", "list-continuation"), "p", RenderInline(text), open, "</p>");
    ElementIs("p", "p", Join(RenderEach(lines), " "), "<p>", "</p>");
    ElementIs("code", "code", code, "<code>", "</code>");
    ElementIs("pre", "pre", Element("code", "code", code), "<pre>", "</pre>");
  }

  /** A tag with a class is named by what stands before its first space. */
  lemma {:induction false} NameBeforeSpace(name: string, class': string)
    requires forall i :: 0 <= i < |name| ==> name[i] != ' '
    ensures TagName(name + (" " + class')) == name
  {
    if name == [] {
      assert name + (" " + class') == " " + class';
    } else {
      assert (name + (" " + class'))[1..] == name[1..] + (" " + class') && (name + (" " + class'))[0] == name[0];
      NameBeforeSpace(name[1..], class');
      assert name == [name[0]] + name[1..];
    }
  }

  lemma ClassTag(name: string, cls: string)
    requires name in {"p", "span"} && forall i :: 0 <= i < |cls| ==> cls[i] != '>'
    ensures TagName(WithClass(name, cls)) == name && IsTag(WithClass(name, cls)) && IsTag(name)
    ensures WithClass(name, cls)[0] != '/'
  {
    NameBeforeSpace(name, "class=\"" + cls + "\"");
  }

  lemma ShowsClass(name: string, cls: string, html: string, text: string)
    requires Shows(html, text) && name in {"p", "span"} && forall i :: 0 <= i < |cls| ==> cls[i] != '>'
    ensures Shows(Element(WithClass(name, cls), name, html), text)
  {
    hide Shows, Element;
    ClassTag(name, cls);
    ShowsElement(WithClass(name, cls), name, html, text);
  }

  lemma ShowsNamed(name: string, html: string, text: string)
    requires Shows(html, text) && name in {"p", "pre", "code", "h1", "h2", "h3", "h4", "h5", "h6"}
    ensures Shows(Element(name, name, html), text)
  {
    hide Shows, Element, WithClass;
    TagNameOf(name);
    ShowsElement(name, name, html, text);
  }

  lemma {:induction false} ShowsRepeat(c: char, n: nat)
    requires c != '<' && c != '>' && c != '&'
    ensures Shows(Repeat(c, n), Repeat(c, n))
  {
    hide Shows;
    if n == 0 {
      ShowsNothing();
    } else {
      ShowsChar(c);
      ShowsRepeat(c, n - 1);
      ShowsConcat([c], [c], Repeat(c, n - 1), Repeat(c, n - 1));
    }
  }

  lemma ShowsMarker(number: Option<string>)
    ensures Shows(Marker(number), if number.Some? then number.value + "." else "\U{2022}")
  {
    hide Shows, Element, WithClass;
    if number.Some? {
      ShowsEscaped(number.value);
      ShowsChar('.');
      ShowsConcat(Escape(number.value), number.value, ".", ".");
      ShowsClass("span", "marker", Escape(number.value) + ".", number.value + ".");
    } else {
      ShowsEntity("&bull;", '\U{2022}');
      ShowsClass("span", "marker", "&bull;", "\U{2022}");
    }
  }

  lemma ShowsItem(number: Option<string>, text: string)
    ensures ShowEach(Render(Item(number, text)), Seen(Item(number, text)))
  {
    hide Shows, Element, Marker, WithClass;
    var m, mark := Marker(number), if number.Some? then number.value + "." else "\U{2022}";
    ShowsMarker(number);
    ShowsChar(' ');
    ShowsConcat(m, mark, " ", " ");
    InlineIsFaithful(text);
    ShowsConcat(m + " ", mark + " ", RenderInline(text), StripTicks(text));
    ShowsClass("p", "list-item", m + " " + RenderInline(text), mark + " " + StripTicks(text));
  }

  lemma ShowsTitle(level: nat, text: string)
    ensures ShowEach(Render(Title(level, text)), Seen(Title(level, text)))
  {
    hide Shows, Element, Rule, WithClass, RenderInline, StripTicks, Spacer;
    if 1 <= level <= 6 {
      InlineIsFaithful(text);
      ShowsNamed(LevelName(level), RenderInline(text), StripTicks(text));
      ShowsSpacer();
      ShowsRule();
    }
  }

  lemma ShowsSpacer()
    ensures Shows(Spacer(), "\U{00A0}")
  {
    hide Shows, Element, WithClass;
    ShowsEntity("&nbsp;", '\U{00A0}');
    ShowsClass("p", "section-spacer", "&nbsp;", "\U{00A0}");
  }

  lemma ShowsRule()
    ensures Shows(Element(WithClass("p", "heading-rule"), "p", Rule()), Rule())
  {
    hide Shows, Element, Repeat, WithClass;
    ShowsRepeat('\U{2500}', 85);
    ShowsClass("p", "heading-rule", Rule(), Rule());
  }

  lemma ShowsContinuation(text: string)
    ensures ShowEach(Render(Continuation(text)), Seen(Continuation(text)))
  {
    hide Shows, Element, WithClass;
    InlineIsFaithful(text);
    ShowsClass("p", "list-continuation", RenderInline(text), StripTicks(text));
  }

  lemma {:induction false} ShowsEachLine(lines: seq<string>)
    ensures ShowEach(RenderEach(lines), StripEach(lines))
  {
    hide Shows, RenderInline, StripTicks;
    if lines != [] {
      InlineIsFaithful(lines[0]);
      ShowsEachLine(lines[1..]);
    }
  }

  /** Each entry a block renders to nests properly and shows the block's text. */
  lemma BlockShows(b: Block)
    ensures ShowEach(Render(b), Seen(b))
  {
    hide Shows, Element, RenderEach, StripEach;
    match b
    case Title(level, text) => ShowsTitle(level, text);
    case Item(number, text) => ShowsItem(number, text);
    case Continuation(text) =>
      ShowsContinuation(text);
    case Paragraph(lines) =>
      ShowsEachLine(lines);
      ShowsJoined(RenderEach(lines), StripEach(lines), ' ');
      ShowsNamed("p", Join(RenderEach(lines), " "), Join(StripEach(lines), " "));
    case Code(lines) =>
      var text := Join(lines, "\n");
      ShowsEscaped(text);
      ShowsNamed("code", Escape(text), text);
      ShowsNamed("pre", Element("code", "code", Escape(text)), text);
  }

  lemma {:induction false} BlocksShow(bs: seq<Block>)
    ensures ShowEach(RenderAll(bs), SeenAll(bs))
  {
    hide Shows, Render, Seen;
    if bs != [] {
      BlockShows(bs[0]);
      BlocksShow(bs[1..]);
    }
  }

  /**
   The body nests properly for every document, and reading it (dropping the tags, decoding the entities)
   gives the text of the blocks, entry by entry.
   */
  lemma PageShowsDocument(markdown: string)
    ensures Read(BodyOf(markdown), []) == Some(Join(SeenAll(Blocks(Lines(markdown), false)), "\n"))
  {
    hide Blocks, RenderAll, SeenAll;
    var bs := Blocks(Lines(markdown), false);
    BlocksShow(bs);
    ShowsJoined(RenderAll(bs), SeenAll(bs), '\n');
    var body, text := BodyOf(markdown), Join(SeenAll(bs), "\n");
    assert Shows(body, text);
    assert body + "" == body && text + "" == text;
    assert Read("", []) == Some("");
  }

  // ---------------------------------------------------------------------------------
  // From the lines of the document to the page

  /** What the converter puts around texts: blanks, line breaks, no-break spaces and the heading rule. */
  predicate IsLayout(c: char) {
    c == ' ' || c == '\n' || c == '\U{00A0}' || c == '\U{2500}'
  }

  predicate AllLayout(s: string) {
    forall i :: 0 <= i < |s| ==> IsLayout(s[i])
  }

  /** The texts stand in `t` letter by letter, each once and in order, with nothing but layout around them. */
  ghost predicate LaidOut(t: string, texts: seq<string>)
    decreases |texts|
  {
    if texts == [] then AllLayout(t)
    else exists w, rest :: t == w + texts[0] + rest && AllLayout(w) && LaidOut(rest, texts[1..])
  }

  /** What is shown of a line's contribution. */
  function PieceText(p: Piece): string {
    match p
    case HeadingText(_, text) => StripTicks(text)
    case ItemText(number, text) => (if number.Some? then number.value + "." else "\U{2022}") + " " + StripTicks(text)
    case ProseText(text) => StripTicks(text)
    case CodeText(line) => line
  }

  function PieceTexts(ps: seq<Piece>): seq<string> {
    if ps == [] then [] else [PieceText(ps[0])] + PieceTexts(ps[1..])
  }

  lemma {:induction false} PieceTextsAppend(a: seq<Piece>, b: seq<Piece>)
    ensures PieceTexts(a + b) == PieceTexts(a) + PieceTexts(b)
  {
    if a == [] {
      assert a + b == b;
    } else {
      assert (a + b)[1..] == a[1..] + b;
      PieceTextsAppend(a[1..], b);
    }
  }

  lemma LayoutBefore(w: string, t: string, texts: seq<string>)
    requires AllLayout(w) && LaidOut(t, texts)
    ensures LaidOut(w + t, texts)
  {
    if texts != [] {
      var v, rest :| t == v + texts[0] + rest && AllLayout(v) && LaidOut(rest, texts[1..]);
      assert w + t == (w + v) + texts[0] + rest && AllLayout(w + v);
    }
  }

  lemma {:induction false} LaidOutConcat(a: string, xs: seq<string>, b: string, ys: seq<string>)
    requires LaidOut(a, xs) && LaidOut(b, ys)
    ensures LaidOut(a + b, xs + ys)
    decreases |xs|
  {
    if xs == [] {
      assert xs + ys == ys;
      LayoutBefore(a, b, ys);
    } else {
      var w, rest :| a == w + xs[0] + rest && AllLayout(w) && LaidOut(rest, xs[1..]);
      LaidOutConcat(rest, xs[1..], b, ys);
      assert (xs + ys)[0] == xs[0] && (xs + ys)[1..] == xs[1..] + ys;
      assert a + b == w + xs[0] + (rest + b);
    }
  }

  lemma OneText(x: string)
    ensures LaidOut(x, [x])
  {
    assert [x][1..] == [] && LaidOut("", []);
    assert x == "" + [x][0] + "";
  }

  lemma {:induction false} LaidOutJoin(texts: seq<string>, sep: char)
    requires IsLayout(sep)
    ensures LaidOut(Join(texts, [sep]), texts)
  {
    if texts != [] {
      OneText(texts[0]);
      assert texts == [texts[0]] + texts[1..];
      if |texts| > 1 {
        LaidOutJoin(texts[1..], sep);
        LayoutBefore([sep], Join(texts[1..], [sep]), texts[1..]);
        LaidOutConcat(texts[0], [texts[0]], [sep] + Join(texts[1..], [sep]), texts[1..]);
        assert texts[0] + ([sep] + Join(texts[1..], [sep])) == texts[0] + [sep] + Join(texts[1..], [sep]);
      } else {
        assert texts == [texts[0]];
      }
    }
  }

  /** Entries one a line. */
  lemma EntriesConcat(a: seq<string>, xs: seq<string>, b: seq<string>, ys: seq<string>)
    requires LaidOut(Join(a, "\n"), xs) && LaidOut(Join(b, "\n"), ys)
    ensures LaidOut(Join(a + b, "\n"), xs + ys)
  {
    hide LaidOut, Join;
    JoinAppend(a, b, "\n");
    var s, t := Join(a, "\n"), Join(b, "\n");
    NoEntries();
    if a == [] {
      assert "" + t == t;
      LaidOutConcat(s, xs, t, ys);
    } else if b == [] {
      assert s + "" == s;
      LaidOutConcat(s, xs, t, ys);
    } else {
      LayoutBefore("\n", t, ys);
      LaidOutConcat(s, xs, "\n" + t, ys);
      assert s + ("\n" + t) == s + "\n" + t;
    }
  }

  lemma NoEntries()
    ensures Join([], "\n") == ""
  {
  }

  lemma OneEntry(entry: string)
    ensures Join([entry], "\n") == entry
  {
  }

  lemma {:induction false} RepeatIsLayout(c: char, n: nat)
    requires IsLayout(c)
    ensures AllLayout(Repeat(c, n))
  {
    if n > 0 { RepeatIsLayout(c, n - 1); }
  }

  lemma TitleLaidOut(level: nat, text: string)
    requires 1 <= level <= 6
    ensures LaidOut(Join(Seen(Title(level, text)), "\n"), [StripTicks(text)])
  {
    hide StripTicks, Rule;
    var x := StripTicks(text);
    var above: seq<string> := if level == 2 then ["\U{00A0}", "\U{00A0}"] else [];
    var below := if level <= 2 then [Rule()] else [];
    assert LaidOut(Join(above, "\n"), []) by {
      if level == 2 {
        assert ["\U{00A0}", "\U{00A0}"][1..] == ["\U{00A0}"];
        assert Join(above, "\n") == "\U{00A0}" + "\n" + "\U{00A0}";
      }
    }
    assert LaidOut(Join(below, "\n"), []) by {
      RuleIsLayout();
    }
    OneText(x);
    OneEntry(x);
    EntriesConcat(above, [], [x], [x]);
    EntriesConcat(above + [x], [] + [x], below, []);
    assert [] + [x] + [] == [x];
  }

  lemma RuleIsLayout()
    ensures AllLayout(Rule())
  {
    RepeatIsLayout('\U{2500}', 85);
  }

  /** The entries of a block show what the block holds, and layout. */
  lemma BlockLaidOut(b: Block)
    requires b.Title? ==> 1 <= b.level <= 6
    ensures LaidOut(Join(Seen(b), "\n"), PieceTexts(BlockPieces(b)))
  {
    hide LaidOut, Join, StripTicks;
    match b
    case Title(level, text) =>
      assert PieceTexts(BlockPieces(b)) == [StripTicks(text)];
      TitleLaidOut(level, text);
    case Item(number, text) =>
      var x := PieceText(ItemText(number, text));
      assert Seen(b) == [x] == PieceTexts(BlockPieces(b));
      OneText(x);
      OneEntry(x);
    case Continuation(text) =>
      var x := StripTicks(text);
      assert Seen(b) == [x] == PieceTexts(BlockPieces(b));
      OneText(x);
      OneEntry(x);
    case Paragraph(lines) =>
      ProseTexts(lines);
      LaidOutJoin(StripEach(lines), ' ');
      OneEntry(Join(StripEach(lines), " "));
    case Code(lines) =>
      CodeTextsAre(lines);
      LaidOutJoin(lines, '\n');
      OneEntry(Join(lines, "\n"));
  }

  lemma {:induction false} ProseTexts(lines: seq<string>)
    ensures PieceTexts(Prose(lines)) == StripEach(lines)
  {
    if lines != [] { ProseTexts(lines[1..]); }
  }

  lemma {:induction false} CodeTextsAre(lines: seq<string>)
    ensures PieceTexts(CodeTexts(lines)) == lines
  {
    if lines != [] { CodeTextsAre(lines[1..]); }
  }

  ghost predicate Leveled(bs: seq<Block>) {
    forall i :: 0 <= i < |bs| && bs[i].Title? ==> 1 <= bs[i].level <= 6
  }

  /** Only headings of the levels one to six are titles. */
  lemma {:induction false} BlocksAreLeveled(lines: seq<string>, afterItem: bool)
    ensures Leveled(Blocks(lines, afterItem))
    decreases |lines|
  {
    hide Classify, CodeLength, PlainRun;
    if lines != [] {
      HeadingLevel(lines[0]);
      BlocksAreLeveled(lines[1..], false);
      BlocksAreLeveled(lines[1..], true);
      if Classify(lines[0]).Fence? {
        BlocksAreLeveled(AfterCode(lines[1..], CodeLength(lines[1..])), false);
      } else if Classify(lines[0]).Plain? {
        PlainRunNonempty(lines);
        BlocksAreLeveled(lines[|PlainRun(lines)|..], false);
      }
    }
  }

  lemma {:induction false} BlocksLaidOut(bs: seq<Block>)
    requires Leveled(bs)
    ensures LaidOut(Join(SeenAll(bs), "\n"), PieceTexts(AllPieces(bs)))
  {
    hide LaidOut, Join, Seen, BlockPieces, PieceText;
    if bs == [] {
      NoEntries();
      assert LaidOut("", []) by { NothingLaidOut(); }
    } else {
      BlockLaidOut(bs[0]);
      BlocksLaidOut(bs[1..]);
      PieceTextsAppend(BlockPieces(bs[0]), AllPieces(bs[1..]));
      EntriesConcat(Seen(bs[0]), PieceTexts(BlockPieces(bs[0])), SeenAll(bs[1..]), PieceTexts(AllPieces(bs[1..])));
    }
  }

  lemma NothingLaidOut()
    ensures LaidOut("", [])
  {
  }

  /** What is shown of a line of this kind. */
  function KindText(k: Kind): string {
    match k
    case Heading(_, text) => StripTicks(text)
    case Numbered(number, text) => number + "." + " " + StripTicks(text)
    case Bulleted(text) => "\U{2022}" + " " + StripTicks(text)
    case Plain(text) => StripTicks(text)
    case _ => ""
  }

  /**
   The texts of the lines, in order: a fence only switches code on or off, a line inside code is itself, a blank
   line has none, any other has the text of its kind.
   */
  ghost predicate Tells(lines: seq<string>, inCode: bool, texts: seq<string>)
    decreases |lines|
  {
    if lines == [] then texts == []
    else exists line, k :: IsTextOf(lines[0], line) && IsOfKind(line, k) && TellsLine(lines, k, inCode, texts)
  }

  ghost predicate TellsLine(lines: seq<string>, k: Kind, inCode: bool, texts: seq<string>)
    requires lines != []
    decreases |lines|, 0
  {
    var rest := lines[1..];
    if k.Fence? then Tells(rest, !inCode, texts)
    else if k.Empty? && !inCode then Tells(rest, inCode, texts)
    else
      texts != [] && texts[0] == (if inCode then lines[0] else KindText(k)) && Tells(rest, inCode, texts[1..])
  }

  /** Lines tell exactly the texts of their contributions. */
  lemma {:induction false} TellsIff(lines: seq<string>, inCode: bool, texts: seq<string>)
    ensures Tells(lines, inCode, texts) <==> texts == PieceTexts(Pieces(lines, inCode))
    decreases |lines|
  {
    hide Classify, IsTextOf, IsOfKind;
    if lines != [] {
      var raw := lines[0];
      TextOfLine(raw);
      TellsLineIff(lines, inCode, texts);
      forall line, k
        ensures IsTextOf(raw, line) && IsOfKind(line, k) <==> line == TrimBlanks(raw) && k == Classify(raw)
      {
        TrimBlanksIff(raw, line);
        if line == TrimBlanks(raw) { ClassifyIff(raw, line, k); }
      }
    }
  }

  lemma TextOfLine(raw: string)
    ensures IsTextOf(raw, TrimBlanks(raw)) && IsOfKind(TrimBlanks(raw), Classify(raw))
  {
    hide TrimBlanks, Classify, IsTextOf, IsOfKind;
    TrimBlanksIff(raw, TrimBlanks(raw));
    ClassifyIff(raw, TrimBlanks(raw), Classify(raw));
  }

  lemma FirstText(x: string, ps: seq<Piece>, texts: seq<string>)
    ensures texts == [x] + PieceTexts(ps) <==> texts != [] && texts[0] == x && texts[1..] == PieceTexts(ps)
  {
    if texts != [] { assert texts == [texts[0]] + texts[1..]; }
  }

  lemma {:induction false} TellsLineIff(lines: seq<string>, inCode: bool, texts: seq<string>)
    requires lines != []
    ensures TellsLine(lines, Classify(lines[0]), inCode, texts) <==> texts == PieceTexts(Pieces(lines, inCode))
    decreases |lines|, 0
  {
    hide Classify, Tells, KindText, LinePiece, PieceTexts;
    var k, rest := Classify(lines[0]), lines[1..];
    if k.Fence? {
      TellsIff(rest, !inCode, texts);
    } else {
      var own := if inCode then [CodeText(lines[0])] else LinePiece(lines[0]);
      PieceTextsAppend(own, Pieces(rest, inCode));
      if k.Empty? && !inCode {
        TellsIff(rest, inCode, texts);
        EmptyTellsNothing(lines[0], Pieces(rest, inCode));
      } else {
        OwnText(lines[0], inCode);
        FirstText(if inCode then lines[0] else KindText(k), Pieces(rest, inCode), texts);
        if texts != [] { TellsIff(rest, inCode, texts[1..]); }
      }
    }
  }

  lemma EmptyTellsNothing(raw: string, ps: seq<Piece>)
    requires Classify(raw).Empty?
    ensures LinePiece(raw) == [] && [] + ps == ps
  {
    hide Classify;
  }

  lemma OwnText(raw: string, inCode: bool)
    requires !Classify(raw).Fence? && (inCode || !Classify(raw).Empty?)
    ensures PieceTexts(if inCode then [CodeText(raw)] else LinePiece(raw)) ==
      [if inCode then raw else KindText(Classify(raw))]
  {
    hide Classify, StripTicks;
  }

  /**
   Text conservation from the characters of the document to the page: for every document the tags of the body
   nest, and reading it gives the text of every line that is neither blank nor a fence, letter by letter, exactly
   once and in source order, with nothing but layout in between.
   */
  lemma PageKeepsText(markdown: string)
    ensures var page := Read(BodyOf(markdown), []);
      page.Some? &&
      exists lines, texts :: IsLinesOf(markdown, lines) && Tells(lines, false, texts) && LaidOut(page.value, texts)
  {
    hide Blocks, LaidOut, SeenAll, PieceTexts, AllPieces, Pieces, Leveled, Read, IsLinesOf, Tells;
    var lines := Lines(markdown);
    var bs := Blocks(lines, false);
    var texts := PieceTexts(Pieces(lines, false));
    LinesIff(markdown, lines);
    TellsIff(lines, false, texts);
    PageShowsDocument(markdown);
    DocumentKeepsText(markdown);
    BlocksAreLeveled(lines, false);
    BlocksLaidOut(bs);
  }
}
