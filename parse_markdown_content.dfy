/** `parseMarkdownContent` (`src/functions/parseMarkdownContent.ts`): the
    parsed Markdown tree goes through the code-metadata, widget, highlighting
    and section passes, in that order, and then loses every position. */
module ParseMarkdownContent {
  import opened Wrappers
  import opened OrderedMap
  import opened CodeMetaData
  import opened Mdast
  import opened CodeVisitor
  import opened RemarkCodeMetaData
  import opened RemarkWidget
  import opened RemarkCodeToHtml
  import opened RemarkSection
  import opened CodeMetaDataProperties
  import opened RemarkSectionExamples

  /** Why the transformation was rejected: the stage that threw, with its error. */
  datatype ContentError =
    | MetaDataError(metaError: MetaError)
    | YamlError(message: string)

  /** The finished tree and the warnings printed while highlighting. */
  datatype Content = Content(tree: Root, warnings: seq<string>)

  /** The pipeline as a composition of the pass specifications. */
  function Transform(tree: Root, gen: nat -> string, decode: YamlDecoder, hl: Highlighter): Result<Content, ContentError> {
    match CodeMetaDataPass(tree, gen)
    case Failure(e) => Failure(MetaDataError(e))
    case Success(t1) =>
      match WidgetPass(t1, decode)
      case Failure(e) => Failure(YamlError(e))
      case Success(t2) =>
        var (t3, warnings) := CodeToHtmlPass(t2, hl);
        Success(Content(Root(StripPositions(Sectionize(t3.children)), None), warnings))
  }

  /** `parser.run(tree)` followed by `removePosition(result, {force: true})`. */
  method ParseMarkdownContent(tree: Root, gen: nat -> string, decode: YamlDecoder, hl: Highlighter)
    returns (r: Result<Content, ContentError>)
    ensures r == Transform(tree, gen, decode, hl)
  {
    var withMetaData := RemarkCodeMetaData.RemarkCodeMetaData(tree, gen);
    if withMetaData.Failure? {
      return Failure(MetaDataError(withMetaData.error));
    }
    var withWidgets := RemarkWidget.RemarkWidget(withMetaData.value, decode);
    if withWidgets.Failure? {
      return Failure(YamlError(withWidgets.error));
    }
    var highlighted, warnings := RemarkCodeToHtml.RemarkCodeToHtml(withWidgets.value, hl);
    var sectioned := BuildSections(highlighted);
    r := Success(Content(Root(StripPositions(sectioned.children), None), warnings));
  }

  /** What the two rewriting passes make of one leaf. */
  function Prepare(gen: nat -> string, decode: YamlDecoder, n: Node): Node {
    PromotedLeaf(decode, AttachedLeaf(gen, n))
  }

  /** What the whole pipeline makes of one leaf. */
  function Finish(gen: nat -> string, decode: YamlDecoder, hl: Highlighter, n: Node): Node {
    StripNode(HighlightedLeaf(hl, Prepare(gen, decode, n)))
  }

  function PrepareAll(gen: nat -> string, decode: YamlDecoder, ls: seq<Node>): (r: seq<Node>)
    ensures |r| == |ls| && forall i :: 0 <= i < |ls| ==> r[i] == Prepare(gen, decode, ls[i])
  {
    seq(|ls|, i requires 0 <= i < |ls| => Prepare(gen, decode, ls[i]))
  }

  /** Every `meta` of a code leaf parses. */
  ghost predicate MetaDataParses(gen: nat -> string, ls: seq<Node>) {
    forall i :: 0 <= i < |ls| && ls[i].Code? && HasMeta(ls[i].block) ==>
      ParseCodeMetaData(ls[i].block.meta.value, gen).Success?
  }

  /** Every leaf that is a widget block once its metadata is attached decodes. */
  ghost predicate WidgetsDecode(gen: nat -> string, decode: YamlDecoder, ls: seq<Node>) {
    forall i :: 0 <= i < |ls| && AttachedLeaf(gen, ls[i]).Code? && IsWidgetBlock(AttachedLeaf(gen, ls[i]).block) ==>
      decode(AttachedLeaf(gen, ls[i]).block.value).Success?
  }

  /** The pipeline succeeds exactly when every `meta` parses and every widget
      block decodes; a metadata error wins over a YAML error wherever the two
      blocks stand, since the metadata pass runs over the whole tree first. */
  lemma TransformSucceeds(tree: Root, gen: nat -> string, decode: YamlDecoder, hl: Highlighter)
    ensures var ls := Leaves(tree.children);
      Transform(tree, gen, decode, hl).Success? <==> MetaDataParses(gen, ls) && WidgetsDecode(gen, decode, ls)
    ensures var ls := Leaves(tree.children);
      Transform(tree, gen, decode, hl).Failure? ==>
        (Transform(tree, gen, decode, hl).error.MetaDataError? <==> !MetaDataParses(gen, ls))
  {
    var ls := Leaves(tree.children);
    CodeMetaDataPassEffect(tree, gen);
    if CodeMetaDataPass(tree, gen).Success? {
      var t1 := CodeMetaDataPass(tree, gen).value;
      WidgetPassEffect(t1, decode);
      var l1 := Leaves(t1.children);
      assert WidgetsDecode(gen, decode, ls) <==>
        forall i :: 0 <= i < |l1| && l1[i].Code? && IsWidgetBlock(l1[i].block) ==> decode(l1[i].block.value).Success?;
    }
  }

  /** A successful pipeline leaves no position anywhere, keeps every leaf in
      document order with each one rewritten on its own by the passes in turn,
      and prints one warning per code block the highlighter rejects. */
  lemma TransformEffect(tree: Root, gen: nat -> string, decode: YamlDecoder, hl: Highlighter)
    requires Transform(tree, gen, decode, hl).Success?
    ensures var out := Transform(tree, gen, decode, hl).value;
      var ls := Leaves(tree.children);
      out.tree.position.None? && PositionFree(out.tree.children) &&
      |Leaves(out.tree.children)| == |ls| &&
      (forall i :: 0 <= i < |ls| ==> Leaves(out.tree.children)[i] == Finish(gen, decode, hl, ls[i])) &&
      out.warnings == Diagnostics(PrepareAll(gen, decode, ls), hl)
  {
    var ls := Leaves(tree.children);
    var t1 := CodeMetaDataPass(tree, gen).value;
    var t2 := WidgetPass(t1, decode).value;
    var (t3, warnings) := CodeToHtmlPass(t2, hl);
    var sectioned := Sectionize(t3.children);
    var out := Transform(tree, gen, decode, hl).value;
    assert out == Content(Root(StripPositions(sectioned), None), warnings);
    var l2 := PreparedLeaves(tree, gen, decode);
    CodeToHtmlPassEffect(t2, hl);
    var l3 := Leaves(t3.children);
    SectionizeLeaves(t3.children);
    StripPositionsClean(sectioned);
    StripPositionsLeaves(sectioned);
    assert Leaves(out.tree.children) == StripPositions(l3);
    forall i | 0 <= i < |ls|
      ensures Leaves(out.tree.children)[i] == Finish(gen, decode, hl, ls[i])
    {
      StripPositionsAt(l3, i);
    }
  }

  /** The leaves after the metadata and widget passes. */
  lemma PreparedLeaves(tree: Root, gen: nat -> string, decode: YamlDecoder) returns (l2: seq<Node>)
    requires CodeMetaDataPass(tree, gen).Success?
    requires WidgetPass(CodeMetaDataPass(tree, gen).value, decode).Success?
    ensures l2 == Leaves(WidgetPass(CodeMetaDataPass(tree, gen).value, decode).value.children)
    ensures l2 == PrepareAll(gen, decode, Leaves(tree.children))
  {
    var ls := Leaves(tree.children);
    CodeMetaDataPassEffect(tree, gen);
    var t1 := CodeMetaDataPass(tree, gen).value;
    WidgetPassEffect(t1, decode);
    var t2 := WidgetPass(t1, decode).value;
    l2 := Leaves(t2.children);
    var l1 := Leaves(t1.children);
    forall i | 0 <= i < |ls|
      ensures l2[i] == Prepare(gen, decode, ls[i])
    {
      assert l1[i] == AttachedLeaf(gen, ls[i]);
    }
  }

  /** A widget block never reaches the highlighter: it comes out as a widget
      named by its `metaData.widget`, with its code decoded as data. */
  lemma WidgetIsNotHighlighted(tree: Root, gen: nat -> string, decode: YamlDecoder, hl: Highlighter, i: nat)
    requires Transform(tree, gen, decode, hl).Success?
    requires i < |Leaves(tree.children)|
    requires var a := AttachedLeaf(gen, Leaves(tree.children)[i]); a.Code? && IsWidgetBlock(a.block)
    ensures |Leaves(Transform(tree, gen, decode, hl).value.tree.children)| == |Leaves(tree.children)|
    ensures var n := Leaves(tree.children)[i];
      var a := AttachedLeaf(gen, n);
      a.block.value == n.block.value && decode(a.block.value).Success? &&
      Leaves(Transform(tree, gen, decode, hl).value.tree.children)[i] ==
        Widget(Get(a.block.metaData.value, "widget").value, decode(a.block.value).value, None)
  {
    TransformEffect(tree, gen, decode, hl);
    TransformSucceeds(tree, gen, decode, hl);
  }

  /** A code block that is not a widget block keeps its `lang` and ends up
      highlighted, with an empty `value`, exactly when the highlighter accepts
      it. */
  lemma CodeIsHighlighted(tree: Root, gen: nat -> string, decode: YamlDecoder, hl: Highlighter, i: nat)
    requires Transform(tree, gen, decode, hl).Success?
    requires i < |Leaves(tree.children)|
    requires var a := AttachedLeaf(gen, Leaves(tree.children)[i]); a.Code? && !IsWidgetBlock(a.block)
    ensures |Leaves(Transform(tree, gen, decode, hl).value.tree.children)| == |Leaves(tree.children)|
    ensures var a := AttachedLeaf(gen, Leaves(tree.children)[i]);
      var m := Leaves(Transform(tree, gen, decode, hl).value.tree.children)[i];
      m.Code? && m.position.None? && m.block.lang == a.block.lang && m.block.metaData == a.block.metaData &&
      (hl(a.block.value, a.block.lang).Some? ==>
        m.block.valueHtml == hl(a.block.value, a.block.lang) && m.block.value == "") &&
      (hl(a.block.value, a.block.lang).None? ==> m.block == a.block)
  {
    TransformEffect(tree, gen, decode, hl);
  }

  /** A document without code blocks or widgets is only sectioned and
      stripped of its positions, with no warning. */
  lemma WithoutCode(tree: Root, gen: nat -> string, decode: YamlDecoder, hl: Highlighter)
    requires Leaves(tree.children) == []
    ensures Transform(tree, gen, decode, hl) ==
      Success(Content(Root(StripPositions(Sectionize(tree.children)), None), []))
  {
    VisitWithoutLeaves(tree.children, Attach(gen));
    assert tree.(children := tree.children) == tree;
    VisitWithoutLeaves(tree.children, Promote(decode));
    VisitWithoutLeaves(tree.children, Highlight(hl));
  }

  /** The first test of the pipeline, `# Title`, `## Section`, `Content`: the
      level-one heading stays at the top and the level-two heading opens a
      section of depth one holding it and the paragraph; no positions remain. */
  lemma TitleSectionContent(t1: seq<Node>, t2: seq<Node>, para: Node, p1: Option<Position>, p2: Option<Position>,
                            q: Option<Position>, gen: nat -> string, decode: YamlDecoder, hl: Highlighter)
    requires Leaves(t1) == [] && Leaves(t2) == []
    requires para.Other? && Leaves(para.children) == []
    ensures var tree := Root([Heading(1, t1, p1), Heading(2, t2, p2), para], q);
      Transform(tree, gen, decode, hl) ==
        Success(Content(Root([Heading(1, StripPositions(t1), None),
                              Section(1, [Heading(2, StripPositions(t2), None), StripNode(para)])], None), []))
  {
    var ns := [Heading(1, t1, p1), Heading(2, t2, p2), para];
    LeavesSingle(Heading(1, t1, p1));
    LeavesSingle(Heading(2, t2, p2));
    LeavesSingle(para);
    ThreeLeafless(Heading(1, t1, p1), Heading(2, t2, p2), para);
    TitleSectionStripped(t1, t2, para, p1, p2);
    WithoutCode(Root(ns, q), gen, decode, hl);
  }

  lemma ThreeLeafless(a: Node, b: Node, c: Node)
    requires Leaves([a]) == [] && Leaves([b]) == [] && Leaves([c]) == []
    ensures Leaves([a, b, c]) == []
  {
    assert [a, b, c] == [a, b] + [c] && [a, b] == [a] + [b];
    LeavesAppend([a, b], [c]);
    LeavesAppend([a], [b]);
  }

  lemma TitleSectionStripped(t1: seq<Node>, t2: seq<Node>, para: Node, p1: Option<Position>, p2: Option<Position>)
    requires para.Other?
    ensures StripPositions(Sectionize([Heading(1, t1, p1), Heading(2, t2, p2), para])) ==
      [Heading(1, StripPositions(t1), None), Section(1, [Heading(2, StripPositions(t2), None), StripNode(para)])]
  {
    var h1, h2 := Heading(1, t1, p1), Heading(2, t2, p2);
    TopHeadingStays(h1, h2, para);
    var s := Section(1, [h2, para]);
    StripPair(h1, s);
    StripPair(h2, para);
  }

  lemma StripPair(a: Node, b: Node)
    ensures StripPositions([a, b]) == [StripNode(a), StripNode(b)]
  {
    assert [a, b][..1] == [a] && [a][..0] == [];
  }

  /** The widget test of the pipeline, a `yaml widget="CodeWidget"` fence: the
      whole document becomes one widget named by the quoted text, with the
      decoded code as data. */
  lemma WidgetDocument(name: string, code: string, p: Option<Position>, q: Option<Position>, data: Yaml,
                       gen: nat -> string, decode: YamlDecoder, hl: Highlighter)
    requires name != "" && QuoteBody('"', name)
    requires FreshTokens(gen, "widget=\"" + name + "\"")
    requires decode(code) == Success(data)
    ensures var fence := CodeBlock(Some("yaml"), Some("widget=\"" + name + "\""), code, None, None);
      Transform(Root([Code(fence, p)], q), gen, decode, hl) ==
        Success(Content(Root([Widget(MString(name), data, None)], None), []))
  {
    var meta := "widget=\"" + name + "\"";
    var fence := CodeBlock(Some("yaml"), Some(meta), code, None, None);
    var attached := CodeBlock(Some("yaml"), None, code, Some([("widget", MString(name))]), None);
    var w := Widget(MString(name), data, p);
    WidgetFenceAttached(name, code, p, q, gen);
    WidgetFencePromoted(name, code, p, q, data, decode);
    WidgetUntouched(w, q, hl);
    WidgetSectioned(w);
  }

  /** The metadata pass turns the fence's `meta` into `{widget: name}`. */
  lemma WidgetFenceAttached(name: string, code: string, p: Option<Position>, q: Option<Position>, gen: nat -> string)
    requires QuoteBody('"', name)
    requires FreshTokens(gen, "widget=\"" + name + "\"")
    ensures CodeMetaDataPass(Root([Code(CodeBlock(Some("yaml"), Some("widget=\"" + name + "\""), code, None, None), p)], q), gen) ==
      Success(Root([Code(CodeBlock(Some("yaml"), None, code, Some([("widget", MString(name))]), None), p)], q))
  {
    var meta := "widget=\"" + name + "\"";
    WidgetMetaParses(name, gen);
    var fence := CodeBlock(Some("yaml"), Some(meta), code, None, None);
    var attached := fence.(metaData := Some([("widget", MString(name))]), meta := None);
    assert Attach(gen)(fence, p) == Success((Code(attached, p), []));
    VisitOne(Code(fence, p), Attach(gen));
  }

  lemma WidgetMetaParses(name: string, gen: nat -> string)
    requires QuoteBody('"', name)
    requires FreshTokens(gen, "widget=\"" + name + "\"")
    ensures ParseCodeMetaData("widget=\"" + name + "\"", gen) == Success([("widget", MString(name))])
  {
    assert "widget=\"" + name + "\"" == "widget" + "=" + ['"'] + name + ['"'];
    assert IsValidKey("widget");
    QuotedValueKeepsInnerText("widget", '"', name, gen);
  }

  /** The widget pass turns the attached block into the widget. */
  lemma WidgetFencePromoted(name: string, code: string, p: Option<Position>, q: Option<Position>, data: Yaml,
                            decode: YamlDecoder)
    requires name != ""
    requires decode(code) == Success(data)
    ensures WidgetPass(Root([Code(CodeBlock(Some("yaml"), None, code, Some([("widget", MString(name))]), None), p)], q), decode) ==
      Success(Root([Widget(MString(name), data, p)], q))
  {
    var md: MetaData := [("widget", MString(name))];
    var attached := CodeBlock(Some("yaml"), None, code, Some(md), None);
    NamedYamlBlockIsWidget(code, name);
    assert Get(md, "widget") == Some(MString(name));
    assert Promote(decode)(attached, p) == Success((Widget(MString(name), data, p), []));
    VisitOne(Code(attached, p), Promote(decode));
  }

  /** Highlighting leaves a widget alone, with no warning. */
  lemma WidgetUntouched(w: Node, q: Option<Position>, hl: Highlighter)
    requires w.Widget?
    ensures CodeToHtmlPass(Root([w], q), hl) == (Root([w], q), [])
  {
    VisitOne(w, Highlight(hl));
  }

  /** A lone widget opens no section and loses its position. */
  lemma WidgetSectioned(w: Node)
    requires w.Widget?
    ensures StripPositions(Sectionize([w])) == [Widget(w.name, w.data, None)]
  {
    assert Take([], 1) == ([], []);
    TakePlain(w, [], 1);
    assert [w] + [] == [w];
    assert StripPositions([w]) == [Widget(w.name, w.data, None)];
  }
}
