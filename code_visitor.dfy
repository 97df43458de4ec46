/** `visit(tree, 'code', callback)` over values: every `code` node, in
    pre-order, is handed to the callback, which gives back the node to put in
    its place and the warnings it printed, or fails, which stops the walk. */
module CodeVisitor {
  import opened Wrappers
  import opened Mdast

  /** The callback of one pass: a code block and its position in, the
      replacement node and the warnings it printed out. */
  type Handler<E> = (CodeBlock, Option<Position>) -> Result<(Node, seq<string>), E>

  type Walk<E> = Result<(seq<Node>, seq<string>), E>

  /** Sequencing of two walks: the first failure wins, outputs concatenate. */
  function Then<E>(x: Walk<E>, y: Walk<E>): (r: Walk<E>)
    ensures x.Failure? ==> r == x
    ensures x.Success? && y.Failure? ==> r == y
    ensures x.Success? && y.Success? ==> r == Success((x.value.0 + y.value.0, x.value.1 + y.value.1))
  {
    if x.Failure? then x
    else if y.Failure? then y
    else Success((x.value.0 + y.value.0, x.value.1 + y.value.1))
  }

  lemma ThenAssociative<E>(x: Walk<E>, y: Walk<E>, z: Walk<E>)
    ensures Then(Then(x, y), z) == Then(x, Then(y, z))
  {
    if x.Success? && y.Success? && z.Success? {
      assert (x.value.0 + y.value.0) + z.value.0 == x.value.0 + (y.value.0 + z.value.0);
      assert (x.value.1 + y.value.1) + z.value.1 == x.value.1 + (y.value.1 + z.value.1);
    }
  }

  /** The callback's answer as a one-node walk. */
  function Single<E>(r: Result<(Node, seq<string>), E>): (w: Walk<E>)
    ensures r.Failure? ==> w == Failure(r.error)
    ensures r.Success? ==> w == Success(([r.value.0], r.value.1))
  {
    match r
    case Success((n, ws)) => Success(([n], ws))
    case Failure(e) => Failure(e)
  }

  /** A parent node over the walk of its children. */
  function Rebuild<E>(n: Node, inner: Walk<E>): (w: Walk<E>)
    requires !IsLeaf(n)
    ensures inner.Failure? ==> w == inner
    ensures inner.Success? ==> w == Success(([n.(children := inner.value.0)], inner.value.1))
  {
    if inner.Failure? then inner
    else Success(([n.(children := inner.value.0)], inner.value.1))
  }

  /** The walk of a forest, one node after the other. */
  function VisitAll<E>(ns: seq<Node>, h: Handler<E>): Walk<E>
    decreases ns
  {
    if ns == [] then Success(([], []))
    else
      Then(VisitAll(ns[..|ns| - 1], h), VisitNode(ns[|ns| - 1], h))
  }

  /** The walk of one node: a code block goes to the callback, a widget stays,
      any other node is rebuilt over the walk of its children. */
  function VisitNode<E>(n: Node, h: Handler<E>): Walk<E>
    decreases n, 1
  {
    if n.Code? then Single(h(n.block, n.position))
    else if n.Widget? then Success(([n], []))
    else Rebuild(n, VisitAll(n.children, h))
  }

  /** The walk of a whole tree: the root's children, the root itself kept. */
  function VisitRoot<E>(tree: Root, h: Handler<E>): (r: Result<(Root, seq<string>), E>)
  {
    var w := VisitAll(tree.children, h);
    if w.Failure? then Failure(w.error) else Success((tree.(children := w.value.0), w.value.1))
  }

  /** The reference the walk is measured against: the callback applied to a flat
      list of leaves, code blocks replaced, widgets kept, first failure wins. */
  function MapLeaves<E>(ls: seq<Node>, h: Handler<E>): Walk<E>
    decreases |ls|
  {
    if ls == [] then Success(([], []))
    else
      var n := ls[|ls| - 1];
      Then(MapLeaves(ls[..|ls| - 1], h),
           if n.Code? then Single(h(n.block, n.position)) else Success(([n], [])))
  }

  /** A callback that answers with a code block or a widget at the position it
      was given, as every pass of the compiler does. */
  ghost predicate KeepsSite<E>(h: Handler<E>) {
    forall b, p :: h(b, p).Success? ==> IsLeaf(h(b, p).value.0) && h(b, p).value.0.position == p
  }

  /** A walk's result seen through its leaves. */
  function Project<E>(w: Walk<E>): Walk<E> {
    if w.Failure? then w else Success((Leaves(w.value.0), w.value.1))
  }

  lemma ProjectThen<E>(x: Walk<E>, y: Walk<E>)
    ensures Project(Then(x, y)) == Then(Project(x), Project(y))
  {
    if x.Success? && y.Success? {
      LeavesAppend(x.value.0, y.value.0);
    }
  }

  lemma {:induction false} MapLeavesAppend<E>(a: seq<Node>, b: seq<Node>, h: Handler<E>)
    ensures MapLeaves(a + b, h) == Then(MapLeaves(a, h), MapLeaves(b, h))
    decreases |b|
  {
    if b == [] {
      assert a + b == a;
      var x := MapLeaves(a, h);
      if x.Success? {
        assert x.value.0 + [] == x.value.0 && x.value.1 + [] == x.value.1;
      }
    } else {
      var b', n := b[..|b| - 1], b[|b| - 1];
      assert (a + b)[..|a + b| - 1] == a + b';
      MapLeavesAppend(a, b', h);
      var last := if n.Code? then Single(h(n.block, n.position)) else Success(([n], []));
      ThenAssociative(MapLeaves(a, h), MapLeaves(b', h), last);
    }
  }

  lemma MapLeavesSingle<E>(n: Node, h: Handler<E>)
    ensures MapLeaves([n], h) == if n.Code? then Single(h(n.block, n.position)) else Success(([n], []))
  {
    assert [n][..0] == [];
    var w := if n.Code? then Single(h(n.block, n.position)) else Success(([n], []));
    if w.Success? {
      assert [] + w.value.0 == w.value.0 && [] + w.value.1 == w.value.1;
    }
  }

  /** The tree walk does to the leaves exactly what the flat reference does:
      same failure, same replacement leaves, same warnings in the same order. */
  lemma {:induction false} VisitIsLeafwise<E>(ns: seq<Node>, h: Handler<E>)
    requires KeepsSite(h)
    ensures Project(VisitAll(ns, h)) == MapLeaves(Leaves(ns), h)
    decreases ns
  {
    if ns != [] {
      var front, n := ns[..|ns| - 1], ns[|ns| - 1];
      VisitIsLeafwise(front, h);
      var step := VisitNode(n, h);
      ProjectThen(VisitAll(front, h), step);
      var own := if IsLeaf(n) then [n] else Leaves(n.children);
      MapLeavesAppend(Leaves(front), own, h);
      if IsLeaf(n) {
        MapLeavesSingle(n, h);
        if n.Code? && step.Success? {
          LeavesSingle(step.value.0[0]);
          assert step.value.0 == [step.value.0[0]];
        } else if n.Widget? {
          LeavesSingle(n);
        }
      } else {
        VisitIsLeafwise(n.children, h);
        if step.Success? {
          LeavesSingle(step.value.0[0]);
        }
      }
    }
  }

  /** The walk leaves everything but the leaves as it found it. */
  lemma {:induction false} VisitKeepsShape<E>(ns: seq<Node>, h: Handler<E>)
    requires KeepsSite(h)
    requires VisitAll(ns, h).Success?
    ensures Erase(VisitAll(ns, h).value.0) == Erase(ns)
    decreases ns
  {
    if ns != [] {
      var front, n := ns[..|ns| - 1], ns[|ns| - 1];
      var w := VisitAll(front, h);
      VisitKeepsShape(front, h);
      var step := VisitNode(n, h);
      EraseAppend(w.value.0, step.value.0);
      EraseAppend(front, [n]);
      VisitNodeKeepsShape(n, h);
    }
  }

  lemma {:induction false} VisitNodeKeepsShape<E>(n: Node, h: Handler<E>)
    requires KeepsSite(h)
    requires VisitNode(n, h).Success?
    ensures Erase(VisitNode(n, h).value.0) == Erase([n])
    decreases n, 1
  {
    var step := VisitNode(n, h).value.0;
    var m := step[0];
    assert step == [m];
    assert [m][..0] == [] && [n][..0] == [];
    if !IsLeaf(n) {
      VisitKeepsShape(n.children, h);
    }
  }

  /** One leaf before and after a successful reference walk. */
  ghost predicate LeafStep<E>(h: Handler<E>, before: Node, after: Node) {
    if before.Code? then
      h(before.block, before.position).Success? && after == h(before.block, before.position).value.0
    else after == before
  }

  /** The reference walk succeeds exactly when the callback succeeds on every
      code leaf, and then replaces each leaf on its own. */
  lemma {:induction false} MapLeavesSuccess<E>(ls: seq<Node>, h: Handler<E>)
    ensures MapLeaves(ls, h).Success? <==>
      forall i :: 0 <= i < |ls| && ls[i].Code? ==> h(ls[i].block, ls[i].position).Success?
    ensures MapLeaves(ls, h).Success? ==>
      |MapLeaves(ls, h).value.0| == |ls| &&
      forall i :: 0 <= i < |ls| ==> LeafStep(h, ls[i], MapLeaves(ls, h).value.0[i])
    decreases |ls|
  {
    if ls != [] {
      var front := ls[..|ls| - 1];
      MapLeavesSuccess(front, h);
      assert forall i :: 0 <= i < |front| ==> front[i] == ls[i];
    }
  }

  /** A failing reference walk reports the failure of the first failing code leaf. */
  lemma {:induction false} MapLeavesFailure<E>(ls: seq<Node>, h: Handler<E>)
    requires MapLeaves(ls, h).Failure?
    ensures exists i :: (0 <= i < |ls| && ls[i].Code? &&
      h(ls[i].block, ls[i].position) == Failure(MapLeaves(ls, h).error) &&
      forall j :: 0 <= j < i && ls[j].Code? ==> h(ls[j].block, ls[j].position).Success?)
    decreases |ls|
  {
    var front, n := ls[..|ls| - 1], ls[|ls| - 1];
    assert forall i :: 0 <= i < |front| ==> front[i] == ls[i];
    if MapLeaves(front, h).Failure? {
      MapLeavesFailure(front, h);
    } else {
      MapLeavesSuccess(front, h);
      assert n.Code? && h(n.block, n.position) == Failure(MapLeaves(ls, h).error);
    }
  }

  /** `visit` as a recursive walk with a loop over each node's children. */
  method Visit<E>(ns: seq<Node>, h: Handler<E>) returns (r: Walk<E>)
    ensures r == VisitAll(ns, h)
    decreases ns
  {
    var out: seq<Node> := [];
    var warnings: seq<string> := [];
    for i := 0 to |ns|
      invariant VisitAll(ns[..i], h) == Success((out, warnings))
    {
      var n := ns[i];
      assert ns[..i + 1][..i] == ns[..i];
      var step: Walk<E>;
      if n.Code? {
        var answer := h(n.block, n.position);
        step := Single(answer);
      } else if n.Widget? {
        step := Success(([n], []));
      } else {
        var inner := Visit(n.children, h);
        step := Rebuild(n, inner);
      }
      if step.Failure? {
        VisitFailureExtends(ns, i + 1, h);
        assert ns[..|ns|] == ns;
        return step;
      }
      out := out + step.value.0;
      warnings := warnings + step.value.1;
    }
    assert ns[..|ns|] == ns;
    r := Success((out, warnings));
  }

  /** Once a prefix of the forest fails, the whole walk fails the same way. */
  lemma {:induction false} VisitFailureExtends<E>(ns: seq<Node>, k: nat, h: Handler<E>)
    requires k <= |ns|
    requires VisitAll(ns[..k], h).Failure?
    ensures VisitAll(ns, h) == VisitAll(ns[..k], h)
    decreases |ns| - k
  {
    if k < |ns| {
      assert ns[..k + 1][..k] == ns[..k];
      VisitFailureExtends(ns, k + 1, h);
    } else {
      assert ns[..k] == ns;
    }
  }

  /** A forest without code or widget nodes comes out of the walk unchanged,
      with no warning. */
  lemma {:induction false} VisitWithoutLeaves<E>(ns: seq<Node>, h: Handler<E>)
    requires Leaves(ns) == []
    ensures VisitAll(ns, h) == Success((ns, []))
    decreases ns
  {
    if ns != [] {
      var front, n := ns[..|ns| - 1], ns[|ns| - 1];
      var own := if IsLeaf(n) then [n] else Leaves(n.children);
      assert Leaves(ns) == Leaves(front) + own;
      assert |Leaves(front)| + |own| == 0;
      VisitWithoutLeaves(front, h);
      assert !IsLeaf(n);
      VisitWithoutLeaves(n.children, h);
      assert n.(children := n.children) == n;
      assert front + [n] == ns;
    }
  }

  /** The walk of a one-node forest is the walk of that node. */
  lemma VisitOne<E>(n: Node, h: Handler<E>)
    ensures VisitAll([n], h) == VisitNode(n, h)
  {
    assert [n][..0] == [];
    var w := VisitNode(n, h);
    if w.Success? {
      assert [] + w.value.0 == w.value.0 && [] + w.value.1 == w.value.1;
    }
  }
}
