/**
 `markdownToHTML`: the line-driven converter with its two buffers and two flags, against a block grammar
 that looks ahead instead of buffering.
 */
module MarkdownBlocks {
  import opened Wrappers
  import opened Text
  import opened MarkdownHtml

  // ---------------------------------------------------------------------------------
  // Lines

  /** `CharacterSet.newlines`. */
  predicate IsNewline(c: char) {
    var n := c as int;
    10 <= n <= 13 || n == 0x85 || n == 0x2028 || n == 0x2029
  }

  /** `CharacterSet.whitespaces`; on text without newlines also the regex class `\s`. */
  predicate IsBlank(c: char) {
    var n := c as int;
    n == 9 || n == 32 || n == 0xA0 || n == 0x1680 || 0x2000 <= n <= 0x200A || n == 0x202F || n == 0x205F || n == 0x3000
  }

  /** `components(separatedBy: .newlines)`. */
  function Lines(text: string): (lines: seq<string>)
    ensures lines != []
  {
    if text == [] then [""]
    else
      var r := Lines(text[1..]);
      if IsNewline(text[0]) then [""] + r else [[text[0]] + r[0]] + r[1..]
  }

  function DropBlanks(s: string): string {
    if s != [] && IsBlank(s[0]) then DropBlanks(s[1..]) else s
  }

  function DropBlanksAtEnd(s: string): string {
    if s != [] && IsBlank(s[|s| - 1]) then DropBlanksAtEnd(s[..|s| - 1]) else s
  }

  function TrimBlanks(s: string): string {
    DropBlanksAtEnd(DropBlanks(s))
  }

  function CountHashes(s: string): (n: nat)
    ensures n <= |s|
  {
    if s != [] && s[0] == '#' then 1 + CountHashes(s[1..]) else 0
  }

  function CountDigits(s: string): (n: nat)
    ensures n <= |s|
  {
    if s != [] && IsDigit(s[0]) then 1 + CountDigits(s[1..]) else 0
  }

  /** What a line is, outside code. */
  datatype Kind =
    | Fence
    | Empty
    | Heading(level: nat, text: string)
    | Numbered(number: string, text: string)
    | Bulleted(text: string)
    | Plain(text: string)

  /** `\s+(.+)$` at the start of a text: the text after the white space, if both are there. */
  function AfterBlanks(s: string): Option<string> {
    if s != [] && IsBlank(s[0]) && DropBlanks(s) != [] then Some(DropBlanks(s)) else None
  }

  function HeadingText(line: string): Option<string> {
    var n := CountHashes(line);
    if 1 <= n <= 6 then AfterBlanks(line[n..]) else None
  }

  function NumberedText(line: string): Option<string> {
    var n := CountDigits(line);
    if n >= 1 && n < |line| && line[n] == '.' then AfterBlanks(line[n + 1..]) else None
  }

  function BulletedText(line: string): Option<string> {
    if line != [] && line[0] == '-' then AfterBlanks(line[1..]) else None
  }

  /** The kind of a line, by its text. */
  function KindOf(line: string): Kind {
    if Starts(line, "```") then Fence
    else if line == [] then Empty
    else if HeadingText(line).Some? then Heading(CountHashes(line), HeadingText(line).value)
    else if NumberedText(line).Some? then Numbered(line[..CountDigits(line)], NumberedText(line).value)
    else if BulletedText(line).Some? then Bulleted(BulletedText(line).value)
    else Plain(line)
  }

  function Classify(raw: string): Kind {
    KindOf(TrimBlanks(raw))
  }

  // ---------------------------------------------------------------------------------
  // Blocks

  datatype Block =
    | Title(level: nat, text: string)
    | Item(number: Option<string>, text: string)
    | Continuation(text: string)
    | Paragraph(lines: seq<string>)
    | Code(lines: seq<string>)

  function Repeat(c: char, n: nat): string {
    if n == 0 then "" else [c] + Repeat(c, n - 1)
  }

  function Rule(): string {
    Repeat('\U{2500}', 85)
  }

  /** The tag of an element with a class. */
  function WithClass(name: string, cls: string): string {
    name + (" " + ("class=\"" + cls + "\""))
  }

  function Spacer(): string {
    Element(WithClass("p", "section-spacer"), "p", "&nbsp;")
  }

  function LevelName(level: nat): string
    requires 1 <= level <= 6
  {
    ["h1", "h2", "h3", "h4", "h5", "h6"][level - 1]
  }

  function RenderEach(lines: seq<string>): seq<string> {
    if lines == [] then [] else [RenderInline(lines[0])] + RenderEach(lines[1..])
  }

  function Marker(number: Option<string>): string {
    Element(WithClass("span", "marker"), "span", if number.Some? then Escape(number.value) + "." else "&bull;")
  }

  /** The entries a block appends to `body`. */
  function Render(b: Block): seq<string> {
    match b
    case Title(level, text) =>
      if 1 <= level <= 6 then
        (if level == 2 then [Spacer(), Spacer()] else []) +
        [Element(LevelName(level), LevelName(level), RenderInline(text))] +
        (if level <= 2 then [Element(WithClass("p", "heading-rule"), "p", Rule())] else [])
      else []
    case Item(number, text) =>
      [Element(WithClass("p", "list-item"), "p", Marker(number) + " " + RenderInline(text))]
    case Continuation(text) => [Element(WithClass("p", "list-continuation"), "p", RenderInline(text))]
    case Paragraph(lines) => [Element("p", "p", Join(RenderEach(lines), " "))]
    case Code(lines) => [Element("pre", "pre", Element("code", "code", Escape(Join(lines, "\n"))))]
  }

  function RenderAll(bs: seq<Block>): seq<string> {
    if bs == [] then [] else Render(bs[0]) + RenderAll(bs[1..])
  }

  /** How many lines come before the next fence. */
  function CodeLength(lines: seq<string>): (n: nat)
    ensures n <= |lines|
  {
    if lines == [] || Classify(lines[0]).Fence? then 0 else 1 + CodeLength(lines[1..])
  }

  /** The plain lines at the start, trimmed. */
  function PlainRun(lines: seq<string>): (run: seq<string>)
    ensures |run| <= |lines|
  {
    if lines != [] && Classify(lines[0]).Plain? then [Classify(lines[0]).text] + PlainRun(lines[1..]) else []
  }

  /** What follows a code block of n lines: its closing fence is dropped if there is one. */
  function AfterCode(lines: seq<string>, n: nat): seq<string>
    requires n <= |lines|
  {
    if n < |lines| then lines[n + 1..] else []
  }

  function CodeBlock(lines: seq<string>): seq<Block> {
    if lines == [] then [] else [Code(lines)]
  }

  /**
   The block grammar. A fence takes the lines up to the next fence; a plain line takes all plain lines
   after it, unless it is indented by three spaces and follows a list item or its continuation.
   */
  function Blocks(lines: seq<string>, afterItem: bool): seq<Block>
    decreases |lines|
  {
    if lines == [] then []
    else
      match Classify(lines[0])
      case Fence =>
        var n := CodeLength(lines[1..]);
        CodeBlock(lines[1..][..n]) + Blocks(AfterCode(lines[1..], n), false)
      case Empty => Blocks(lines[1..], false)
      case Heading(level, text) => [Title(level, text)] + Blocks(lines[1..], false)
      case Numbered(number, text) => [Item(Some(number), text)] + Blocks(lines[1..], true)
      case Bulleted(text) => [Item(None, text)] + Blocks(lines[1..], true)
      case Plain(text) =>
        if afterItem && Starts(lines[0], "   ") then [Continuation(text)] + Blocks(lines[1..], true)
        else [Paragraph(PlainRun(lines))] + Blocks(lines[|PlainRun(lines)|..], false)
  }

  // ---------------------------------------------------------------------------------
  // The converter

  /** The blocks still to come, given the buffers and flags of the converter. */
  function Future(paragraph: seq<string>, inCode: bool, code: seq<string>, afterItem: bool, lines: seq<string>)
    : seq<Block>
  {
    if inCode then
      var n := CodeLength(lines);
      CodeBlock(code + lines[..n]) + Blocks(AfterCode(lines, n), false)
    else if paragraph != [] then
      [Paragraph(paragraph + PlainRun(lines))] + Blocks(lines[|PlainRun(lines)|..], false)
    else Blocks(lines, afterItem)
  }

  class Converter {
    var body: seq<string>
    var paragraph: seq<string>
    var inCodeBlock: bool
    var codeLines: seq<string>
    var previousListItem: bool

    constructor ()
      ensures body == [] && Valid() && paragraph == [] && !inCodeBlock && !previousListItem
    {
      body, paragraph, inCodeBlock, codeLines, previousListItem := [], [], false, [], false;
    }

    /** The run invariants the conversion rests on. */
    ghost predicate Valid()
      reads this
    {
      (previousListItem ==> paragraph == []) &&
      (inCodeBlock ==> paragraph == [] && !previousListItem) &&
      (!inCodeBlock ==> codeLines == [])
    }

    /** The body once the given lines are converted too. */
    ghost function Final(lines: seq<string>): seq<string>
      reads this
    {
      body + RenderAll(Future(paragraph, inCodeBlock, codeLines, previousListItem, lines))
    }

    method FlushParagraph()
      modifies this
      ensures paragraph == [] && inCodeBlock == old(inCodeBlock) && codeLines == old(codeLines)
      ensures body == old(body) + (if old(paragraph) == [] then [] else Render(Paragraph(old(paragraph))))
      ensures previousListItem == (old(previousListItem) && old(paragraph) == [])
    {
      if paragraph == [] {
        return;
      }
      body := body + [Element("p", "p", Join(RenderEach(paragraph), " "))];
      paragraph := [];
      previousListItem := false;
    }

    method FlushCodeBlock()
      modifies this
      ensures codeLines == [] && inCodeBlock == old(inCodeBlock) && paragraph == old(paragraph)
      ensures body == old(body) + (if old(codeLines) == [] then [] else Render(Code(old(codeLines))))
      ensures previousListItem == (old(previousListItem) && old(codeLines) == [])
    {
      if codeLines == [] {
        return;
      }
      body := body + [Element("pre", "pre", Element("code", "code", Escape(Join(codeLines, "\n"))))];
      codeLines := [];
      previousListItem := false;
    }

    /** One line inside a code block. */
    method CodeLine(rawLine: string, ghost rest: seq<string>)
      requires Valid() && inCodeBlock
      modifies this
      ensures Valid() && Final(rest) == old(Final([rawLine] + rest))
    {
      hide Classify, Blocks, Render, RenderAll, CodeLength, AfterCode;
      CodeStep(codeLines, rawLine, rest);
      if Classify(rawLine).Fence? {
        FlushCodeBlock();
        inCodeBlock := false;
        RenderCodeBlock(old(codeLines), Blocks(rest, false));
      } else {
        codeLines := codeLines + [rawLine];
      }
    }

    method EmitHeading(level: nat, text: string)
      requires 1 <= level <= 6
      modifies `body
      ensures body == old(body) + Render(Title(level, text))
    {
      hide Element, RenderInline, Spacer, Rule, LevelName;
      if level == 2 {
        body := body + [Spacer()];
        body := body + [Spacer()];
      }
      body := body + [Element(LevelName(level), LevelName(level), RenderInline(text))];
      if level <= 2 {
        body := body + [Element(WithClass("p", "heading-rule"), "p", Rule())];
      }
    }

    method EmitItem(number: Option<string>, text: string)
      modifies `body
      ensures body == old(body) + Render(Item(number, text))
    {
      body := body + [Element(WithClass("p", "list-item"), "p", Marker(number) + " " + RenderInline(text))];
    }

    /** One line outside code blocks. */
    method TextLine(rawLine: string, ghost rest: seq<string>)
      requires Valid() && !inCodeBlock
      modifies this
      ensures Valid() && Final(rest) == old(Final([rawLine] + rest))
    {
      hide Classify, Blocks, RenderAll, Render, Starts, PlainRun;
      TextStep(paragraph, previousListItem, rawLine, rest);
      ghost var before, flushed := body, Flushed(paragraph);
      RenderFlushed(paragraph);
      match Classify(rawLine)
      case Fence =>
        FlushParagraph();
        inCodeBlock, previousListItem := true, false;
        RenderThen(flushed, Future([], true, [], false, rest));
        Regroup(before, RenderAll(flushed), RenderAll(Future([], true, [], false, rest)), []);
      case Empty =>
        FlushParagraph();
        previousListItem := false;
        RenderThen(flushed, Blocks(rest, false));
        Regroup(before, RenderAll(flushed), RenderAll(Blocks(rest, false)), []);
      case Heading(level, text) =>
        FlushParagraph();
        HeadingLevel(rawLine);
        EmitHeading(level, text);
        previousListItem := false;
        RenderTwo(flushed, Title(level, text), Blocks(rest, false));
        Regroup(before, RenderAll(flushed), Render(Title(level, text)), RenderAll(Blocks(rest, false)));
      case Numbered(number, text) =>
        FlushParagraph();
        EmitItem(Some(number), text);
        previousListItem := true;
        RenderTwo(flushed, Item(Some(number), text), Blocks(rest, true));
        Regroup(before, RenderAll(flushed), Render(Item(Some(number), text)), RenderAll(Blocks(rest, true)));
      case Bulleted(text) =>
        FlushParagraph();
        EmitItem(None, text);
        previousListItem := true;
        RenderTwo(flushed, Item(None, text), Blocks(rest, true));
        Regroup(before, RenderAll(flushed), Render(Item(None, text)), RenderAll(Blocks(rest, true)));
      case Plain(line) =>
        if previousListItem && Starts(rawLine, "   ") {
          RenderContinuation(line);
          body := body + [Element(WithClass("p", "list-continuation"), "p", RenderInline(line))];
          RenderThen([Continuation(line)], Blocks(rest, true));
          Regroup(before, Render(Continuation(line)), RenderAll(Blocks(rest, true)), []);
        } else {
          paragraph := paragraph + [line];
          previousListItem := false;
        }
    }
  }

  lemma Regroup(a: seq<string>, b: seq<string>, c: seq<string>, d: seq<string>)
    ensures a + (b + c + d) == a + b + c + d && a + (b + c) == a + b + c
  {
  }

  lemma RenderContinuation(line: string)
    ensures Render(Continuation(line)) == [Element(WithClass("p", "list-continuation"), "p", RenderInline(line))]
  {
  }

  lemma RenderFlushed(paragraph: seq<string>)
    ensures RenderAll(Flushed(paragraph)) == if paragraph == [] then [] else Render(Paragraph(paragraph))
  {
    RenderThen(Flushed(paragraph), []);
  }

  lemma RenderTwo(flushed: seq<Block>, b: Block, rest: seq<Block>)
    ensures RenderAll(flushed + ([b] + rest)) == RenderAll(flushed) + Render(b) + RenderAll(rest)
  {
    hide Render;
    RenderThen(flushed, [b] + rest);
    RenderThen([b], rest);
  }

  lemma {:induction false} RenderThen(a: seq<Block>, b: seq<Block>)
    ensures RenderAll(a + b) == RenderAll(a) + RenderAll(b)
    ensures |a| == 1 ==> RenderAll(a) == Render(a[0])
  {
    hide Render;
    if a == [] {
      assert a + b == b;
    } else {
      assert (a + b)[1..] == a[1..] + b && (a + b)[0] == a[0];
      RenderThen(a[1..], b);
      Regroup(Render(a[0]), RenderAll(a[1..]), RenderAll(b), []);
      assert |a| == 1 ==> a[1..] == [] && Render(a[0]) + [] == Render(a[0]);
    }
  }

  lemma RenderCodeBlock(code: seq<string>, b: seq<Block>)
    ensures RenderAll(CodeBlock(code) + b) == (if code == [] then [] else Render(Code(code))) + RenderAll(b)
  {
    RenderThen(CodeBlock(code), b);
  }

  lemma HeadingLevel(raw: string)
    ensures Classify(raw).Heading? ==> 1 <= Classify(raw).level <= 6
  {
  }

  lemma CodeStep(code: seq<string>, raw: string, rest: seq<string>)
    ensures var lines := [raw] + rest;
      Future([], true, code, false, lines) ==
        if Classify(raw).Fence? then CodeBlock(code) + Blocks(rest, false)
        else Future([], true, code + [raw], false, rest)
  {
    hide Classify, Blocks;
    var lines := [raw] + rest;
    assert lines[0] == raw && lines[1..] == rest;
    if Classify(raw).Fence? {
      assert CodeLength(lines) == 0 && code + lines[..0] == code;
    } else {
      CodeGoesOn(code, raw, rest);
    }
  }

  lemma CodeGoesOn(code: seq<string>, raw: string, rest: seq<string>)
    requires !Classify(raw).Fence?
    ensures var lines, n := [raw] + rest, CodeLength(rest);
      CodeLength(lines) == n + 1 && code + lines[..n + 1] == code + [raw] + rest[..n] &&
      AfterCode(lines, n + 1) == AfterCode(rest, n)
  {
    hide Classify;
    var lines, n := [raw] + rest, CodeLength(rest);
    assert lines[0] == raw && lines[1..] == rest;
    OneMoreLine(raw, rest, n);
    var more := rest[..n];
    assert code + ([raw] + more) == code + [raw] + more;
  }

  lemma OneMoreLine(raw: string, rest: seq<string>, n: nat)
    requires n <= |rest|
    ensures ([raw] + rest)[..n + 1] == [raw] + rest[..n]
    ensures n < |rest| ==> ([raw] + rest)[n + 2..] == rest[n + 1..]
  {
  }

  function Flushed(paragraph: seq<string>): seq<Block> {
    if paragraph == [] then [] else [Paragraph(paragraph)]
  }

  /** The blocks to come after the next line, outside code. */
  function AfterLine(paragraph: seq<string>, afterItem: bool, raw: string, rest: seq<string>): seq<Block> {
    match Classify(raw)
    case Fence => Flushed(paragraph) + Future([], true, [], false, rest)
    case Empty => Flushed(paragraph) + Blocks(rest, false)
    case Heading(level, text) => Flushed(paragraph) + ([Title(level, text)] + Blocks(rest, false))
    case Numbered(number, text) => Flushed(paragraph) + ([Item(Some(number), text)] + Blocks(rest, true))
    case Bulleted(text) => Flushed(paragraph) + ([Item(None, text)] + Blocks(rest, true))
    case Plain(text) =>
      if afterItem && Starts(raw, "   ") then [Continuation(text)] + Blocks(rest, true)
      else Future(paragraph + [text], false, [], false, rest)
  }

  lemma TextStep(paragraph: seq<string>, afterItem: bool, raw: string, rest: seq<string>)
    requires afterItem ==> paragraph == []
    ensures Future(paragraph, false, [], afterItem, [raw] + rest) == AfterLine(paragraph, afterItem, raw, rest)
  {
    hide Classify;
    if Classify(raw).Plain? {
      PlainStep(paragraph, afterItem, raw, rest);
    } else {
      BreakStep(paragraph, afterItem, raw, rest);
    }
  }

  lemma PlainStep(paragraph: seq<string>, afterItem: bool, raw: string, rest: seq<string>)
    requires (afterItem ==> paragraph == []) && Classify(raw).Plain?
    ensures Future(paragraph, false, [], afterItem, [raw] + rest) == AfterLine(paragraph, afterItem, raw, rest)
  {
    hide Classify;
    var lines, text, run := [raw] + rest, Classify(raw).text, PlainRun(rest);
    assert lines[0] == raw && lines[1..] == rest;
    assert PlainRun(lines) == [text] + run;
    assert lines[|run| + 1..] == rest[|run|..];
    assert paragraph + ([text] + run) == paragraph + [text] + run;
    assert paragraph == [] ==> paragraph + [text] == [text];
  }

  /** Any other line ends the paragraph. */
  lemma BreakStep(paragraph: seq<string>, afterItem: bool, raw: string, rest: seq<string>)
    requires (afterItem ==> paragraph == []) && !Classify(raw).Plain?
    ensures Future(paragraph, false, [], afterItem, [raw] + rest) == AfterLine(paragraph, afterItem, raw, rest)
  {
    hide Classify;
    var lines := [raw] + rest;
    assert lines[0] == raw && lines[1..] == rest;
    assert PlainRun(lines) == [] && lines[0..] == lines && paragraph + [] == paragraph;
    if Classify(raw).Fence? {
      var n := CodeLength(rest);
      assert [] + rest[..n] == rest[..n];
    }
    assert Blocks(lines, afterItem) == Blocks(lines, false);
    assert [] + Blocks(lines, afterItem) == Blocks(lines, afterItem);
    assert Future(paragraph, false, [], afterItem, lines) == Flushed(paragraph) + Blocks(lines, false);
  }

  /** The body of the page for a document: the rendered blocks, one entry a line. */
  function BodyOf(markdown: string): string {
    Join(RenderAll(Blocks(Lines(markdown), false)), "\n")
  }

  /** What is left to do after the last line: an open code block, then a paragraph. */
  lemma FutureAtEnd(paragraph: seq<string>, inCode: bool, code: seq<string>, afterItem: bool)
    requires (inCode ==> paragraph == []) && (!inCode ==> code == [])
    ensures RenderAll(Future(paragraph, inCode, code, afterItem, [])) ==
      (if code == [] then [] else Render(Code(code))) + (if paragraph == [] then [] else Render(Paragraph(paragraph)))
  {
    hide Render;
    assert code + [] == code && paragraph + [] == paragraph;
    RenderCodeBlock(code, []);
    RenderFlushed(paragraph);
    assert [Paragraph(paragraph)] + [] == [Paragraph(paragraph)];
  }

  method MarkdownToHtmlBody(markdown: string) returns (html: string)
    ensures html == BodyOf(markdown)
  {
    hide Blocks, Future, Render;
    var lines := Lines(markdown);
    var converter := new Converter();
    ghost var final := RenderAll(Blocks(lines, false));
    FutureAtStart(lines);
    for i := 0 to |lines|
      invariant converter.Valid() && converter.Final(lines[i..]) == final
    {
      assert lines[i..] == [lines[i]] + lines[i + 1..];
      if converter.inCodeBlock {
        converter.CodeLine(lines[i], lines[i + 1..]);
      } else {
        converter.TextLine(lines[i], lines[i + 1..]);
      }
    }
    assert lines[|lines|..] == [];
    FutureAtEnd(converter.paragraph, converter.inCodeBlock, converter.codeLines, converter.previousListItem);
    ghost var code := if converter.codeLines == [] then [] else Render(Code(converter.codeLines));
    ghost var paragraph := if converter.paragraph == [] then [] else Render(Paragraph(converter.paragraph));
    Regroup(converter.body, code, paragraph, []);
    assert code == [] ==> converter.body + code == converter.body;
    assert converter.Final([]) == converter.body + code + paragraph;
    if converter.inCodeBlock {
      converter.FlushCodeBlock();
    }
    converter.FlushParagraph();
    assert converter.body == final;
    html := Join(converter.body, "\n");
  }

  lemma FutureAtStart(lines: seq<string>)
    ensures lines[0..] == lines
    ensures [] + RenderAll(Future([], false, [], false, lines)) == RenderAll(Blocks(lines, false))
  {
  }
}
