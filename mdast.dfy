/** The Markdown syntax tree the compiler's stages rewrite (`src/types.d.ts`):
    headings, code blocks, widgets and sections are modelled field by field;
    every other node kind (paragraph, list, table, ...) is `Other` with its kind
    name and its children. */
module Mdast {
  import opened Wrappers
  import opened CodeMetaData

  /** A source location, as the parser attaches it; the compiler only removes it. */
  datatype Point = Point(line: nat, column: nat, offset: nat)
  datatype Position = Position(start: Point, end: Point)

  /** A decoded YAML document, the `data` of a widget. */
  datatype Yaml =
    | YNull
    | YBoolean(flag: bool)
    | YNumber(number: real)
    | YString(text: string)
    | YList(items: seq<Yaml>)
    | YMap(entries: seq<(string, Yaml)>)

  /** The fields of a `code` node. `None` stands for both `null` and an absent field. */
  datatype CodeBlock = CodeBlock(
    lang: Option<string>,
    meta: Option<string>,
    value: string,
    metaData: Option<MetaData>,
    valueHtml: Option<string>)

  datatype Node =
    | Heading(depth: int, children: seq<Node>, position: Option<Position>)
    | Code(block: CodeBlock, position: Option<Position>)
    | Widget(name: MetaValue, data: Yaml, position: Option<Position>)
    | Section(depth: int, children: seq<Node>)
    | Other(kind: string, children: seq<Node>, position: Option<Position>)

  datatype Root = Root(children: seq<Node>, position: Option<Position>)

  /** Code blocks and widgets: the nodes without children. */
  predicate IsLeaf(n: Node) {
    n.Code? || n.Widget?
  }

  /** The code and widget nodes of a forest, in pre-order. */
  function Leaves(ns: seq<Node>): seq<Node>
    decreases ns
  {
    if ns == [] then []
    else
      var n := ns[|ns| - 1];
      Leaves(ns[..|ns| - 1]) + (if IsLeaf(n) then [n] else Leaves(n.children))
  }

  lemma {:induction false} LeavesAppend(a: seq<Node>, b: seq<Node>)
    ensures Leaves(a + b) == Leaves(a) + Leaves(b)
    decreases |b|
  {
    if b == [] {
      assert a + b == a;
    } else {
      var n := b[|b| - 1];
      assert (a + b)[..|a + b| - 1] == a + b[..|b| - 1];
      LeavesAppend(a, b[..|b| - 1]);
    }
  }

  lemma LeavesSingle(n: Node)
    ensures Leaves([n]) == if IsLeaf(n) then [n] else Leaves(n.children)
  {
    assert [n][..0] == [];
  }

  /** What is left of a node once its code and widget nodes are reduced to
      their bare positions: the shape the visitor passes must not change. */
  datatype Shape =
    | Slot(position: Option<Position>)
    | HeadingShape(depth: int, children: seq<Shape>, position: Option<Position>)
    | SectionShape(depth: int, children: seq<Shape>)
    | OtherShape(kind: string, children: seq<Shape>, position: Option<Position>)

  function Erase(ns: seq<Node>): (r: seq<Shape>)
    ensures |r| == |ns|
    decreases ns
  {
    if ns == [] then []
    else
      var n := ns[|ns| - 1];
      Erase(ns[..|ns| - 1]) +
        [match n
         case Code(_, p) => Slot(p)
         case Widget(_, _, p) => Slot(p)
         case Heading(d, cs, p) => HeadingShape(d, Erase(cs), p)
         case Section(d, cs) => SectionShape(d, Erase(cs))
         case Other(k, cs, p) => OtherShape(k, Erase(cs), p)]
  }

  lemma {:induction false} EraseAppend(a: seq<Node>, b: seq<Node>)
    ensures Erase(a + b) == Erase(a) + Erase(b)
    decreases |b|
  {
    if b == [] {
      assert a + b == a;
    } else {
      assert (a + b)[..|a + b| - 1] == a + b[..|b| - 1];
      EraseAppend(a, b[..|b| - 1]);
    }
  }

  /** A forest with every `section` replaced by its own (flattened) children:
      the nodes the section builder started from. */
  function Unwrap(ns: seq<Node>): seq<Node>
    decreases ns
  {
    if ns == [] then []
    else
      var n := ns[|ns| - 1];
      Unwrap(ns[..|ns| - 1]) + (if n.Section? then Unwrap(n.children) else [n])
  }

  lemma {:induction false} UnwrapAppend(a: seq<Node>, b: seq<Node>)
    ensures Unwrap(a + b) == Unwrap(a) + Unwrap(b)
    decreases |b|
  {
    if b == [] {
      assert a + b == a;
    } else {
      assert (a + b)[..|a + b| - 1] == a + b[..|b| - 1];
      UnwrapAppend(a, b[..|b| - 1]);
    }
  }

  lemma UnwrapSingle(n: Node)
    ensures Unwrap([n]) == if n.Section? then Unwrap(n.children) else [n]
  {
    assert [n][..0] == [];
  }

  /** Flattening the sections away keeps the code and widget nodes. */
  lemma {:induction false} LeavesUnwrap(ns: seq<Node>)
    ensures Leaves(Unwrap(ns)) == Leaves(ns)
    decreases ns
  {
    if ns != [] {
      var front, n := ns[..|ns| - 1], ns[|ns| - 1];
      LeavesUnwrap(front);
      if n.Section? {
        LeavesUnwrap(n.children);
        LeavesAppend(Unwrap(front), Unwrap(n.children));
      } else {
        LeavesAppend(Unwrap(front), [n]);
        LeavesSingle(n);
      }
    }
  }

  predicate NoSections(ns: seq<Node>) {
    forall i :: 0 <= i < |ns| ==> !ns[i].Section?
  }

  lemma {:induction false} UnwrapNoSections(ns: seq<Node>)
    requires NoSections(ns)
    ensures Unwrap(ns) == ns
    decreases |ns|
  {
    if ns != [] {
      UnwrapNoSections(ns[..|ns| - 1]);
    }
  }

  /** `removePosition(tree, {force: true})`: every node loses its position. */
  function StripPositions(ns: seq<Node>): (r: seq<Node>)
    ensures |r| == |ns|
    decreases ns
  {
    if ns == [] then []
    else
      var n := ns[|ns| - 1];
      StripPositions(ns[..|ns| - 1]) + [StripNode(n)]
  }

  function StripNode(n: Node): (r: Node)
    decreases n, 1
  {
    match n
    case Code(b, _) => Code(b, None)
    case Widget(name, data, _) => Widget(name, data, None)
    case Heading(d, cs, _) => Heading(d, StripPositions(cs), None)
    case Section(d, cs) => Section(d, StripPositions(cs))
    case Other(k, cs, _) => Other(k, StripPositions(cs), None)
  }

  /** No node of the forest, at any depth, carries a position. */
  predicate PositionFree(ns: seq<Node>)
    decreases ns
  {
    ns == [] ||
    (var n := ns[|ns| - 1];
     PositionFree(ns[..|ns| - 1]) &&
     match n
     case Code(_, p) => p.None?
     case Widget(_, _, p) => p.None?
     case Heading(_, cs, p) => p.None? && PositionFree(cs)
     case Section(_, cs) => PositionFree(cs)
     case Other(_, cs, p) => p.None? && PositionFree(cs))
  }

  /** After stripping, no position is left anywhere in the tree. */
  lemma {:induction false} StripPositionsClean(ns: seq<Node>)
    ensures PositionFree(StripPositions(ns))
    decreases ns
  {
    if ns != [] {
      var front, n := ns[..|ns| - 1], ns[|ns| - 1];
      var r := StripPositions(ns);
      assert r[..|r| - 1] == StripPositions(front);
      StripPositionsClean(front);
      if !IsLeaf(n) {
        StripPositionsClean(n.children);
      }
    }
  }

  /** Stripping changes nothing but positions: a position-free tree is left as it is. */
  lemma {:induction false} StripPositionsIdentity(ns: seq<Node>)
    requires PositionFree(ns)
    ensures StripPositions(ns) == ns
    decreases ns
  {
    if ns != [] {
      var front, n := ns[..|ns| - 1], ns[|ns| - 1];
      StripPositionsIdentity(front);
      if !IsLeaf(n) {
        StripPositionsIdentity(n.children);
      }
    }
  }

  lemma {:induction false} StripPositionsAppend(a: seq<Node>, b: seq<Node>)
    ensures StripPositions(a + b) == StripPositions(a) + StripPositions(b)
    decreases |b|
  {
    if b == [] {
      assert a + b == a;
    } else {
      assert (a + b)[..|a + b| - 1] == a + b[..|b| - 1];
      StripPositionsAppend(a, b[..|b| - 1]);
    }
  }

  /** Stripping works node by node. */
  lemma {:induction false} StripPositionsAt(ns: seq<Node>, i: nat)
    requires i < |ns|
    ensures StripPositions(ns)[i] == StripNode(ns[i])
    decreases |ns|
  {
    if i < |ns| - 1 {
      StripPositionsAt(ns[..|ns| - 1], i);
    }
  }

  /** The leaves of the stripped tree are the stripped leaves, in the same order. */
  lemma {:induction false} StripPositionsLeaves(ns: seq<Node>)
    ensures Leaves(StripPositions(ns)) == StripPositions(Leaves(ns))
    decreases ns
  {
    if ns != [] {
      var front, n := ns[..|ns| - 1], ns[|ns| - 1];
      var r := StripPositions(ns);
      assert r == StripPositions(front) + [StripNode(n)];
      StripPositionsLeaves(front);
      if IsLeaf(n) {
        StripPositionsAppend(Leaves(front), [n]);
        assert StripPositions([n]) == [StripNode(n)] by { assert [n][..0] == []; }
      } else {
        StripPositionsLeaves(n.children);
        StripPositionsAppend(Leaves(front), Leaves(n.children));
      }
    }
  }
}
