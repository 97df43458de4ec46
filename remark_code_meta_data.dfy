/** `remarkCodeMetaData` (`src/plugins/remarkCodeMetaData.ts`): every code
    node whose `meta` is set and non-empty gets `metaData` parsed from it and
    its `meta` set to null; a parse error aborts the pass. */
module RemarkCodeMetaData {
  import opened Wrappers
  import opened CodeMetaData
  import opened Mdast
  import opened CodeVisitor

  /** `if (node.meta)`: set and not the empty string. */
  predicate HasMeta(b: CodeBlock) {
    b.meta.Some? && b.meta.value != ""
  }

  /** The visitor callback for one code node. */
  function AttachMetaData(gen: nat -> string, b: CodeBlock, p: Option<Position>): Result<(Node, seq<string>), MetaError> {
    if HasMeta(b) then
      match ParseCodeMetaData(b.meta.value, gen)
      case Success(md) => Success((Code(b.(metaData := Some(md), meta := None), p), []))
      case Failure(e) => Failure(e)
    else Success((Code(b, p), []))
  }

  function Attach(gen: nat -> string): Handler<MetaError> {
    (b: CodeBlock, p: Option<Position>) => AttachMetaData(gen, b, p)
  }

  /** The whole pass. */
  function CodeMetaDataPass(tree: Root, gen: nat -> string): Result<Root, MetaError> {
    match VisitRoot(tree, Attach(gen))
    case Success((t, _)) => Success(t)
    case Failure(e) => Failure(e)
  }

  method RemarkCodeMetaData(tree: Root, gen: nat -> string) returns (r: Result<Root, MetaError>)
    ensures r == CodeMetaDataPass(tree, gen)
  {
    var walk := Visit(tree.children, Attach(gen));
    if walk.Failure? {
      return Failure(walk.error);
    }
    r := Success(tree.(children := walk.value.0));
  }

  lemma AttachKeepsSite(gen: nat -> string)
    ensures KeepsSite(Attach(gen))
  {
  }

  /** What a successful pass makes of one code or widget leaf. */
  function AttachedLeaf(gen: nat -> string, n: Node): Node {
    if n.Code? && HasMeta(n.block) && ParseCodeMetaData(n.block.meta.value, gen).Success? then
      Code(n.block.(metaData := Some(ParseCodeMetaData(n.block.meta.value, gen).value), meta := None), n.position)
    else n
  }

  /** The pass succeeds exactly when every code node with `meta` parses; then
      each such node gets `metaData` from its `meta` and `meta` set to null,
      every other code node and every widget is left as it was, only positions
      of replaced nodes are reused, and the rest of the tree keeps its shape. */
  lemma CodeMetaDataPassEffect(tree: Root, gen: nat -> string)
    ensures var ls := Leaves(tree.children);
      CodeMetaDataPass(tree, gen).Success? <==>
        forall i :: 0 <= i < |ls| && ls[i].Code? && HasMeta(ls[i].block) ==>
          ParseCodeMetaData(ls[i].block.meta.value, gen).Success?
    ensures var ls := Leaves(tree.children);
      CodeMetaDataPass(tree, gen).Success? ==>
        var out := CodeMetaDataPass(tree, gen).value;
        out.position == tree.position &&
        Erase(out.children) == Erase(tree.children) &&
        |Leaves(out.children)| == |ls| &&
        forall i :: 0 <= i < |ls| ==> Leaves(out.children)[i] == AttachedLeaf(gen, ls[i])
  {
    var h := Attach(gen);
    var ls := Leaves(tree.children);
    AttachKeepsSite(gen);
    VisitIsLeafwise(tree.children, h);
    MapLeavesSuccess(ls, h);
    if VisitAll(tree.children, h).Success? {
      VisitKeepsShape(tree.children, h);
      var out := MapLeaves(ls, h).value.0;
      forall i | 0 <= i < |ls|
        ensures out[i] == AttachedLeaf(gen, ls[i])
      {
        assert LeafStep(h, ls[i], out[i]);
      }
    } else {
      var i :| 0 <= i < |ls| && ls[i].Code? && h(ls[i].block, ls[i].position).Failure?;
      assert HasMeta(ls[i].block) && ParseCodeMetaData(ls[i].block.meta.value, gen).Failure?;
    }
  }

  /** A failing pass reports the error of the first code node, in document
      order, whose `meta` does not parse. */
  lemma CodeMetaDataPassError(tree: Root, gen: nat -> string)
    requires CodeMetaDataPass(tree, gen).Failure?
    ensures var ls := Leaves(tree.children);
      exists i :: (0 <= i < |ls| && ls[i].Code? && HasMeta(ls[i].block) &&
        ParseCodeMetaData(ls[i].block.meta.value, gen) == Failure(CodeMetaDataPass(tree, gen).error) &&
        forall j :: 0 <= j < i && ls[j].Code? && HasMeta(ls[j].block) ==>
          ParseCodeMetaData(ls[j].block.meta.value, gen).Success?)
  {
    var h := Attach(gen);
    var ls := Leaves(tree.children);
    AttachKeepsSite(gen);
    VisitIsLeafwise(tree.children, h);
    MapLeavesFailure(ls, h);
    var e := MapLeaves(ls, h).error;
    assert e == CodeMetaDataPass(tree, gen).error;
    var i :| 0 <= i < |ls| && ls[i].Code? && h(ls[i].block, ls[i].position) == Failure(e) &&
      forall j :: 0 <= j < i && ls[j].Code? ==> h(ls[j].block, ls[j].position).Success?;
    AttachFailure(gen, ls[i].block, ls[i].position);
    forall j | 0 <= j < i && ls[j].Code? && HasMeta(ls[j].block)
      ensures ParseCodeMetaData(ls[j].block.meta.value, gen).Success?
    {
      AttachFailure(gen, ls[j].block, ls[j].position);
    }
  }

  lemma AttachFailure(gen: nat -> string, b: CodeBlock, p: Option<Position>)
    ensures Attach(gen)(b, p).Failure? <==> HasMeta(b) && ParseCodeMetaData(b.meta.value, gen).Failure?
    ensures Attach(gen)(b, p).Failure? ==> Attach(gen)(b, p).error == ParseCodeMetaData(b.meta.value, gen).error
  {
  }
}
