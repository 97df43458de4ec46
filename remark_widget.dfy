/** `remarkWidget` (`src/plugins/remarkWidget.ts`): a `yaml` code node whose
    `metaData.widget` is truthy becomes a `widget` node named by that value,
    with its code decoded as YAML for `data`; its `lang`, `metaData` and
    `value` are dropped. A decoding error aborts the pass. */
module RemarkWidget {
  import opened Wrappers
  import opened OrderedMap
  import opened CodeMetaData
  import opened Mdast
  import opened CodeVisitor

  /** The YAML decoder: the document, or the decoder's error message. */
  type YamlDecoder = string -> Result<Yaml, string>

  /** JavaScript truthiness of a metadata value. */
  predicate Truthy(v: MetaValue) {
    match v
    case MString(s) => s != ""
    case MNumber(x) => x != 0.0
    case MBoolean(b) => b
    case MNull => false
  }

  /** `node.lang === 'yaml' && node.metaData && node.metaData.widget`. */
  predicate IsWidgetBlock(b: CodeBlock) {
    b.lang == Some("yaml") && b.metaData.Some? &&
    Get(b.metaData.value, "widget").Some? && Truthy(Get(b.metaData.value, "widget").value)
  }

  /** The visitor callback for one code node. */
  function PromoteWidget(decode: YamlDecoder, b: CodeBlock, p: Option<Position>): Result<(Node, seq<string>), string> {
    if IsWidgetBlock(b) then
      match decode(b.value)
      case Success(data) => Success((Widget(Get(b.metaData.value, "widget").value, data, p), []))
      case Failure(e) => Failure(e)
    else Success((Code(b, p), []))
  }

  function Promote(decode: YamlDecoder): Handler<string> {
    (b: CodeBlock, p: Option<Position>) => PromoteWidget(decode, b, p)
  }

  /** The whole pass. */
  function WidgetPass(tree: Root, decode: YamlDecoder): Result<Root, string> {
    match VisitRoot(tree, Promote(decode))
    case Success((t, _)) => Success(t)
    case Failure(e) => Failure(e)
  }

  method RemarkWidget(tree: Root, decode: YamlDecoder) returns (r: Result<Root, string>)
    ensures r == WidgetPass(tree, decode)
  {
    var walk := Visit(tree.children, Promote(decode));
    if walk.Failure? {
      return Failure(walk.error);
    }
    r := Success(tree.(children := walk.value.0));
  }

  lemma PromoteKeepsSite(decode: YamlDecoder)
    ensures KeepsSite(Promote(decode))
  {
  }

  /** What a successful pass makes of one code or widget leaf. */
  function PromotedLeaf(decode: YamlDecoder, n: Node): Node {
    if n.Code? && IsWidgetBlock(n.block) && decode(n.block.value).Success? then
      Widget(Get(n.block.metaData.value, "widget").value, decode(n.block.value).value, n.position)
    else n
  }

  /** The pass succeeds exactly when every widget block decodes; then each
      widget block, and no other code node, becomes a widget named by its
      `metaData.widget` with the decoded code as data, every other leaf is left
      as it was (a yaml block without `widget` or a non-yaml block with one
      keeps `lang`, `metaData` and `value`), and the tree keeps its shape. */
  lemma WidgetPassEffect(tree: Root, decode: YamlDecoder)
    ensures var ls := Leaves(tree.children);
      WidgetPass(tree, decode).Success? <==>
        forall i :: 0 <= i < |ls| && ls[i].Code? && IsWidgetBlock(ls[i].block) ==>
          decode(ls[i].block.value).Success?
    ensures var ls := Leaves(tree.children);
      WidgetPass(tree, decode).Success? ==>
        var out := WidgetPass(tree, decode).value;
        out.position == tree.position &&
        Erase(out.children) == Erase(tree.children) &&
        |Leaves(out.children)| == |ls| &&
        forall i :: 0 <= i < |ls| ==> Leaves(out.children)[i] == PromotedLeaf(decode, ls[i])
  {
    var h := Promote(decode);
    var ls := Leaves(tree.children);
    PromoteKeepsSite(decode);
    VisitIsLeafwise(tree.children, h);
    MapLeavesSuccess(ls, h);
    if VisitAll(tree.children, h).Success? {
      VisitKeepsShape(tree.children, h);
      var out := MapLeaves(ls, h).value.0;
      forall i | 0 <= i < |ls|
        ensures out[i] == PromotedLeaf(decode, ls[i])
      {
        assert LeafStep(h, ls[i], out[i]);
      }
    } else {
      var i :| 0 <= i < |ls| && ls[i].Code? && h(ls[i].block, ls[i].position).Failure?;
      assert IsWidgetBlock(ls[i].block) && decode(ls[i].block.value).Failure?;
    }
  }

  /** A failing pass reports the decoding error of the first widget block, in
      document order, that does not decode; no node is promoted half-way, as
      the pass yields no tree at all. */
  lemma WidgetPassError(tree: Root, decode: YamlDecoder)
    requires WidgetPass(tree, decode).Failure?
    ensures var ls := Leaves(tree.children);
      exists i :: (0 <= i < |ls| && ls[i].Code? && IsWidgetBlock(ls[i].block) &&
        decode(ls[i].block.value) == Failure(WidgetPass(tree, decode).error) &&
        forall j :: 0 <= j < i && ls[j].Code? && IsWidgetBlock(ls[j].block) ==>
          decode(ls[j].block.value).Success?)
  {
    var h := Promote(decode);
    var ls := Leaves(tree.children);
    PromoteKeepsSite(decode);
    VisitIsLeafwise(tree.children, h);
    MapLeavesFailure(ls, h);
    var e := MapLeaves(ls, h).error;
    assert e == WidgetPass(tree, decode).error;
    var i :| 0 <= i < |ls| && ls[i].Code? && h(ls[i].block, ls[i].position) == Failure(e) &&
      forall j :: 0 <= j < i && ls[j].Code? ==> h(ls[j].block, ls[j].position).Success?;
    PromoteFailure(decode, ls[i].block, ls[i].position);
    forall j | 0 <= j < i && ls[j].Code? && IsWidgetBlock(ls[j].block)
      ensures decode(ls[j].block.value).Success?
    {
      PromoteFailure(decode, ls[j].block, ls[j].position);
    }
  }

  lemma PromoteFailure(decode: YamlDecoder, b: CodeBlock, p: Option<Position>)
    ensures Promote(decode)(b, p).Failure? <==> IsWidgetBlock(b) && decode(b.value).Failure?
    ensures Promote(decode)(b, p).Failure? ==> Promote(decode)(b, p).error == decode(b.value).error
  {
  }

  /** The fence of the widget tests, `yaml widget="TestWidget"`: its metadata
      names a widget, so the block is promoted. */
  lemma NamedYamlBlockIsWidget(value: string, name: string)
    requires name != ""
    ensures IsWidgetBlock(CodeBlock(Some("yaml"), None, value, Some([("widget", MString(name))]), None))
  {
    assert Get([("widget", MString(name))], "widget") == Some(MString(name));
  }

  /** A `widget` that is empty, zero, false or null does not promote. */
  lemma FalsyWidgetStaysCode(lang: Option<string>, value: string, v: MetaValue)
    requires !Truthy(v)
    ensures !IsWidgetBlock(CodeBlock(lang, None, value, Some([("widget", v)]), None))
  {
    assert Get([("widget", v)], "widget") == Some(v);
  }
}
