/** `remarkCodeToHtml` (`src/plugins/ramarkCodeToHtml.ts`): every code node
    is highlighted; on success `valueHtml` takes the HTML and `value` is
    cleared, on failure the node is left as it is and one warning is printed.
    The pass itself never fails. */
module RemarkCodeToHtml {
  import opened Wrappers
  import opened Mdast
  import opened CodeVisitor

  /** `parseCodeToHtml(value, lang ?? null)`: the HTML, or `None` where it throws. */
  type Highlighter = (string, Option<string>) -> Option<string>

  /** `${node.lang}` for a language that may be null. */
  function LangText(lang: Option<string>): string {
    if lang.Some? then lang.value else "null"
  }

  /** The warning printed for a block the highlighter rejects. */
  function UnknownLanguage(lang: Option<string>): string {
    "Unknown language: \"" + LangText(lang) + "\" is not registered"
  }

  /** The visitor callback for one code node; it cannot fail. */
  function HighlightCode(hl: Highlighter, b: CodeBlock, p: Option<Position>): Result<(Node, seq<string>), ()> {
    match hl(b.value, b.lang)
    case Some(html) => Success((Code(b.(valueHtml := Some(html), value := ""), p), []))
    case None => Success((Code(b, p), [UnknownLanguage(b.lang)]))
  }

  function Highlight(hl: Highlighter): Handler<()> {
    (b: CodeBlock, p: Option<Position>) => HighlightCode(hl, b, p)
  }

  lemma HighlightKeepsSite(hl: Highlighter)
    ensures KeepsSite(Highlight(hl))
  {
  }

  /** The walk cannot fail: every failure is caught per node. */
  lemma HighlightNeverFails(ns: seq<Node>, hl: Highlighter)
    ensures VisitAll(ns, Highlight(hl)).Success?
  {
    HighlightKeepsSite(hl);
    VisitIsLeafwise(ns, Highlight(hl));
    MapLeavesSuccess(Leaves(ns), Highlight(hl));
  }

  /** The whole pass: the new tree and the warnings printed, in document order. */
  function CodeToHtmlPass(tree: Root, hl: Highlighter): (Root, seq<string>) {
    HighlightNeverFails(tree.children, hl);
    VisitRoot(tree, Highlight(hl)).value
  }

  method RemarkCodeToHtml(tree: Root, hl: Highlighter) returns (r: Root, warnings: seq<string>)
    ensures (r, warnings) == CodeToHtmlPass(tree, hl)
  {
    var walk := Visit(tree.children, Highlight(hl));
    HighlightNeverFails(tree.children, hl);
    r := tree.(children := walk.value.0);
    warnings := walk.value.1;
  }

  /** The warnings a list of leaves calls for: one per code block the
      highlighter rejects, in order. */
  function Diagnostics(ls: seq<Node>, hl: Highlighter): seq<string>
    decreases |ls|
  {
    if ls == [] then []
    else
      var n := ls[|ls| - 1];
      Diagnostics(ls[..|ls| - 1], hl) +
        (if n.Code? && hl(n.block.value, n.block.lang).None? then [UnknownLanguage(n.block.lang)] else [])
  }

  lemma {:induction false} MapLeavesDiagnostics(ls: seq<Node>, hl: Highlighter)
    ensures MapLeaves(ls, Highlight(hl)).Success?
    ensures MapLeaves(ls, Highlight(hl)).value.1 == Diagnostics(ls, hl)
    decreases |ls|
  {
    if ls != [] {
      MapLeavesDiagnostics(ls[..|ls| - 1], hl);
    }
  }

  /** What the pass makes of one code or widget leaf. */
  function HighlightedLeaf(hl: Highlighter, n: Node): Node {
    if n.Code? && hl(n.block.value, n.block.lang).Some? then
      Code(n.block.(valueHtml := hl(n.block.value, n.block.lang), value := ""), n.position)
    else n
  }

  /** Each code block the highlighter accepts gets `valueHtml` and an empty
      `value`; one it rejects, and every widget, is left exactly as it was;
      the tree keeps its shape, and exactly one warning is printed per rejected
      block, in document order. */
  lemma CodeToHtmlPassEffect(tree: Root, hl: Highlighter)
    ensures var ls := Leaves(tree.children);
      var (out, warnings) := CodeToHtmlPass(tree, hl);
      out.position == tree.position &&
      Erase(out.children) == Erase(tree.children) &&
      |Leaves(out.children)| == |ls| &&
      (forall i :: 0 <= i < |ls| ==> Leaves(out.children)[i] == HighlightedLeaf(hl, ls[i])) &&
      warnings == Diagnostics(ls, hl)
  {
    var h := Highlight(hl);
    var ls := Leaves(tree.children);
    HighlightKeepsSite(hl);
    HighlightNeverFails(tree.children, hl);
    VisitIsLeafwise(tree.children, h);
    VisitKeepsShape(tree.children, h);
    MapLeavesSuccess(ls, h);
    MapLeavesDiagnostics(ls, hl);
    var out := MapLeaves(ls, h).value.0;
    forall i | 0 <= i < |ls|
      ensures out[i] == HighlightedLeaf(hl, ls[i])
    {
      assert LeafStep(h, ls[i], out[i]);
    }
  }

  /** The test's `unsupportedlang` block: one warning naming the language,
      and nothing else changes. */
  lemma RejectedBlockWarns(hl: Highlighter, b: CodeBlock, p: Option<Position>)
    requires b.lang == Some("unsupportedlang") && hl(b.value, b.lang).None?
    ensures HighlightCode(hl, b, p) ==
      Success((Code(b, p), ["Unknown language: \"" + "unsupportedlang" + "\" is not registered"]))
  {
    assert LangText(b.lang) == "unsupportedlang";
  }
}
