/** `fixEmptyCatches` and `countEmptyCatches`: three global rewrites in a row, and the counter they must agree with. */
module CatchRewriter {
  import opened Text
  import opened CatchPatterns

  const WARN := ") { logger"
  const WARN_TEXT := ".warn(\"[auto-fix] Empty "
  const WARN_TAIL := "catch block\", "

  /** `) { logger.warn("[auto-fix] Empty catch block", v); }` */
  function WarnBody(v: string): string {
    WARN_TEXT + (WARN_TAIL + (v + "); }"))
  }

  /** `catch (v) { logger.warn(...); }` */
  function CatchWarn(v: string): string {
    CATCH + (" (" + (v + (WARN + WarnBody(v))))
  }

  /** `.catch((err) => { logger.warn(...); })` */
  function HandlerWarn(): string {
    DOT_CATCH + ("(" + ("err" + (") => { logger" + (WarnBody("err") + ")"))))
  }

  function Replacement(k: Pattern, s: string): string
    requires Rest(k, s).Some?
  {
    match k
    case Block => CatchWarn("err")
    case BlockWithVariable => CatchWarn(Variable(s))
    case Handler => HandlerWarn()
  }

  /** `content.replace(pattern, ...)` with a global pattern. */
  function Rewrite(k: Pattern, s: string): string
    decreases |s|
  {
    if s == [] then ""
    else
      match Rest(k, s)
      case Some(r) => Replacement(k, s) + Rewrite(k, r)
      case None => [s[0]] + Rewrite(k, s[1..])
  }

  /** `content.match(pattern).length` with a global pattern: matches do not overlap. */
  function Count(k: Pattern, s: string): nat
    decreases |s|
  {
    if s == [] then 0
    else
      match Rest(k, s)
      case Some(r) => 1 + Count(k, r)
      case None => Count(k, s[1..])
  }

  function CountAll(s: string): nat {
    Count(Block, s) + Count(BlockWithVariable, s) + Count(Handler, s)
  }

  function RewriteAll(s: string): string {
    Rewrite(Handler, Rewrite(BlockWithVariable, Rewrite(Block, s)))
  }

  // ---------------------------------------------------------------------------------
  // The logger import

  const IMPORT_LINE := "import { logger } from '../logger.js';\n"

  /** Where the text p starts at or after position i; |s| + 1 if nowhere. */
  function Find(s: string, p: string, i: nat): (j: nat)
    requires i <= |s|
    ensures j <= |s| + 1
    decreases |s| - i
  {
    if Starts(s[i..], p) then i else if i == |s| then |s| + 1 else Find(s, p, i + 1)
  }

  predicate Contains(s: string, p: string) {
    Find(s, p, 0) <= |s|
  }

  /** The last position below k at which p starts; -1 if none. */
  function FindLast(s: string, p: string, k: nat): (j: int)
    requires k <= |s|
    ensures -1 <= j < k
  {
    if k == 0 then -1 else if Starts(s[k - 1..], p) then k - 1 else FindLast(s, p, k - 1)
  }

  /** Where the line after the last import starts; 0 when that line is not ended. */
  function InsertPosition(s: string, lastImport: nat): (i: nat)
    requires lastImport <= |s|
    ensures i <= |s|
  {
    var endOfLine := Find(s, "\n", lastImport);
    if endOfLine < |s| then endOfLine + 1 else 0
  }

  function WithImport(s: string): string {
    if Contains(s, "import { logger }") || Contains(s, "import {logger}") then s
    else
      var last := FindLast(s, "import ", |s|);
      if last == -1 then s
      else
        var i := InsertPosition(s, last);
        s[..i] + IMPORT_LINE + s[i..]
  }

  /** What `fixEmptyCatches` returns: the new content and `fixedCount`. */
  function Fix(s: string): (string, nat) {
    var n := Count(Block, s) + Count(BlockWithVariable, Rewrite(Block, s)) +
      Count(Handler, Rewrite(BlockWithVariable, Rewrite(Block, s)));
    (if n > 0 then WithImport(RewriteAll(s)) else RewriteAll(s), n)
  }

  method ReplaceAll(k: Pattern, content: string) returns (result: string, count: nat)
    ensures result == Rewrite(k, content) && count == Count(k, content)
  {
    hide Rest, Replacement;
    result, count := "", 0;
    var left := content;
    assert "" + Rewrite(k, content) == Rewrite(k, content);
    while left != []
      invariant result + Rewrite(k, left) == Rewrite(k, content) && count + Count(k, left) == Count(k, content)
      decreases |left|
    {
      var rest := Rest(k, left);
      var piece := if rest.Some? then Replacement(k, left) else [left[0]];
      var tail := if rest.Some? then rest.value else left[1..];
      Regroup(result, piece, Rewrite(k, tail));
      result, left := result + piece, tail;
      if rest.Some? {
        count := count + 1;
      }
    }
    assert result + "" == result;
  }

  lemma Regroup(a: string, b: string, c: string)
    ensures a + (b + c) == a + b + c
  {
  }

  method CountEmptyCatches(content: string) returns (count: nat)
    ensures count == CountAll(content)
  {
    count := 0;
    var patterns := [Block, BlockWithVariable, Handler];
    for i := 0 to 3
      invariant count == (if i > 0 then Count(Block, content) else 0) +
        (if i > 1 then Count(BlockWithVariable, content) else 0) + (if i > 2 then Count(Handler, content) else 0)
    {
      var _, matches := ReplaceAll(patterns[i], content);
      count := count + matches;
    }
  }

  method FixEmptyCatches(original: string) returns (content: string, fixedCount: nat)
    ensures (content, fixedCount) == Fix(original)
  {
    content, fixedCount := original, 0;
    var n;
    content, n := ReplaceAll(Block, content);
    fixedCount := fixedCount + n;
    content, n := ReplaceAll(BlockWithVariable, content);
    fixedCount := fixedCount + n;
    content, n := ReplaceAll(Handler, content);
    fixedCount := fixedCount + n;

    if fixedCount > 0 && !Contains(content, "import { logger }") && !Contains(content, "import {logger}") {
      var lastImportIndex := FindLast(content, "import ", |content|);
      if lastImportIndex != -1 {
        var i := InsertPosition(content, lastImportIndex);
        content := content[..i] + IMPORT_LINE + content[i..];
      }
    }
  }
}
