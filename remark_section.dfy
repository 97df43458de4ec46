/** `remarkSection` (`src/plugins/ramarkSection.ts`): one left-to-right scan of
    the root's children with a stack of open sections. A heading of depth > 1
    closes every open section whose heading is as deep or deeper, then opens a
    section of depth `heading.depth - 1` whose first child is that heading;
    every other node goes into the innermost open section, or the root. */
module RemarkSection {
  import opened Mdast

  /** A heading that opens a section. */
  predicate IsOpener(n: Node) {
    n.Heading? && n.depth > 1
  }

  /** An open section: the depth of the heading that opened it and the children
      collected so far. */
  datatype Frame = Frame(headingDepth: int, children: seq<Node>)

  /** The scan's state: the new root children and the stack of open sections. */
  datatype Builder = Builder(root: seq<Node>, stack: seq<Frame>)

  /** Heading depth of the innermost open section; 1 when none is open, since
      no opener is that shallow. */
  function TopDepth(b: Builder): int {
    if b.stack == [] then 1 else b.stack[|b.stack| - 1].headingDepth
  }

  /** `appendToCurrent(children)`: the nodes go to the innermost open section,
      or to the root when no section is open. */
  function AppendToCurrent(b: Builder, items: seq<Node>): (r: Builder)
    ensures |r.stack| == |b.stack| && TopDepth(r) == TopDepth(b)
  {
    if b.stack == [] then Builder(b.root + items, [])
    else
      var top := b.stack[|b.stack| - 1];
      Builder(b.root, b.stack[..|b.stack| - 1] + [Frame(top.headingDepth, top.children + items)])
  }

  /** Everything a builder holds, sections flattened away, in document order:
      the root, then each open section from the outermost in. */
  function Content(b: Builder): seq<Node> {
    Unwrap(b.root) + FramesContent(b.stack)
  }

  function FramesContent(fs: seq<Frame>): seq<Node>
    decreases |fs|
  {
    if fs == [] then [] else FramesContent(fs[..|fs| - 1]) + Unwrap(fs[|fs| - 1].children)
  }

  /** Appending never reorders: the new nodes come last in document order. */
  lemma AppendToCurrentContent(b: Builder, items: seq<Node>)
    ensures Content(AppendToCurrent(b, items)) == Content(b) + Unwrap(items)
  {
    var r := AppendToCurrent(b, items);
    if b.stack == [] {
      UnwrapAppend(b.root, items);
    } else {
      var fs := b.stack[..|b.stack| - 1];
      var top := b.stack[|b.stack| - 1];
      assert r.stack[..|r.stack| - 1] == fs;
      assert b.stack[..|b.stack| - 1] == fs;
      UnwrapAppend(top.children, items);
    }
  }

  lemma AppendToCurrentTwice(b: Builder, a: seq<Node>, c: seq<Node>)
    ensures AppendToCurrent(AppendToCurrent(b, a), c) == AppendToCurrent(b, a + c)
  {
    if b.stack == [] {
      assert b.root + a + c == b.root + (a + c);
    } else {
      var top := b.stack[|b.stack| - 1];
      var b1 := AppendToCurrent(b, a);
      assert b1.stack[..|b1.stack| - 1] == b.stack[..|b.stack| - 1];
      assert top.children + a + c == top.children + (a + c);
    }
  }

  lemma AppendToCurrentNothing(b: Builder)
    ensures AppendToCurrent(b, []) == b
  {
    if b.stack == [] {
      assert b.root + [] == b.root;
    } else {
      var top := b.stack[|b.stack| - 1];
      assert top.children + [] == top.children;
      assert b.stack[..|b.stack| - 1] + [top] == b.stack;
    }
  }

  /** Popping the innermost open section: it becomes a `section` node of depth
      one less than its heading, appended to the section around it or the root. */
  function CloseTop(b: Builder): (r: Builder)
    requires b.stack != []
    ensures |r.stack| == |b.stack| - 1
  {
    var top := b.stack[|b.stack| - 1];
    AppendToCurrent(Builder(b.root, b.stack[..|b.stack| - 1]), [Section(top.headingDepth - 1, top.children)])
  }

  /** Opening a section for heading `h`. */
  function Open(b: Builder, h: Node): Builder
    requires h.Heading?
  {
    Builder(b.root, b.stack + [Frame(h.depth, [h])])
  }

  /** The scan, one step at a time: closing a section does not consume input,
      and sections still open at the end are closed one by one. */
  function Scan(b: Builder, xs: seq<Node>): seq<Node>
    decreases |xs|, |b.stack|
  {
    if xs == [] then
      if b.stack == [] then b.root else Scan(CloseTop(b), xs)
    else if IsOpener(xs[0]) && b.stack != [] && TopDepth(b) >= xs[0].depth then
      Scan(CloseTop(b), xs)
    else if IsOpener(xs[0]) then
      Scan(Open(b, xs[0]), xs[1..])
    else
      Scan(AppendToCurrent(b, [xs[0]]), xs[1..])
  }

  /** An independent, recursive-descent reading of the same structure: the
      items up to the first opener no deeper than `bound`, and what is left. */
  function Take(xs: seq<Node>, bound: int): (r: (seq<Node>, seq<Node>))
    ensures |r.1| <= |xs|
    ensures r.1 == [] || (IsOpener(r.1[0]) && r.1[0].depth <= bound)
    decreases |xs|
  {
    if xs == [] then ([], [])
    else
      var x := xs[0];
      if IsOpener(x) && x.depth <= bound then ([], xs)
      else if IsOpener(x) then
        var (inner, rest1) := Take(xs[1..], x.depth);
        var (more, rest2) := Take(rest1, bound);
        ([Section(x.depth - 1, [x] + inner)] + more, rest2)
      else
        var (more, rest) := Take(xs[1..], bound);
        ([x] + more, rest)
  }

  /** The new root children. */
  function Sectionize(ns: seq<Node>): seq<Node> {
    Take(ns, 1).0
  }

  /** Open sections' heading depths strictly increase from the outermost in,
      and all exceed 1. */
  predicate Nested(fs: seq<Frame>) {
    (forall i :: 0 <= i < |fs| ==> fs[i].headingDepth > 1) &&
    (forall i, j :: 0 <= i < j < |fs| ==> fs[i].headingDepth < fs[j].headingDepth)
  }

  lemma NestedOpen(fs: seq<Frame>, h: Node)
    requires Nested(fs) && IsOpener(h)
    requires fs == [] || fs[|fs| - 1].headingDepth < h.depth
    ensures Nested(fs + [Frame(h.depth, [h])])
  {
    var gs := fs + [Frame(h.depth, [h])];
    forall i, j | 0 <= i < j < |gs|
      ensures gs[i].headingDepth < gs[j].headingDepth
    {
      if j == |fs| && i < |fs| - 1 {
        assert fs[i].headingDepth < fs[|fs| - 1].headingDepth;
      }
    }
  }

  /** Feeding `xs` to the scan is the same as appending what `Take` reads off
      `xs` to the innermost open section and going on with the rest. */
  lemma {:induction false} ScanTake(b: Builder, xs: seq<Node>)
    requires Nested(b.stack)
    ensures Scan(b, xs) == Scan(AppendToCurrent(b, Take(xs, TopDepth(b)).0), Take(xs, TopDepth(b)).1)
    decreases |xs|, 1
  {
    if xs == [] || (IsOpener(xs[0]) && xs[0].depth <= TopDepth(b)) {
      AppendToCurrentNothing(b);
    } else if IsOpener(xs[0]) {
      ScanTakeOpener(b, xs);
    } else {
      var t := Take(xs[1..], TopDepth(b));
      assert Take(xs, TopDepth(b)) == ([xs[0]] + t.0, t.1);
      ScanTake(AppendToCurrent(b, [xs[0]]), xs[1..]);
      AppendToCurrentTwice(b, [xs[0]], t.0);
    }
  }

  /** The case of `ScanTake` where `xs` opens a section inside the innermost one. */
  lemma {:induction false} ScanTakeOpener(b: Builder, xs: seq<Node>)
    requires Nested(b.stack)
    requires xs != [] && IsOpener(xs[0]) && xs[0].depth > TopDepth(b)
    ensures Scan(b, xs) == Scan(AppendToCurrent(b, Take(xs, TopDepth(b)).0), Take(xs, TopDepth(b)).1)
    decreases |xs|, 0
  {
    var bound, x := TopDepth(b), xs[0];
    var t1 := Take(xs[1..], x.depth);
    var t2 := Take(t1.1, bound);
    var sec := Section(x.depth - 1, [x] + t1.0);
    var b1 := Open(b, x);
    var b2 := AppendToCurrent(b1, t1.0);
    var b3 := AppendToCurrent(b, [sec]);
    calc {
      Scan(b, xs);
    == { ScanOpens(b, xs); }
      Scan(b1, xs[1..]);
    == { NestedOpen(b.stack, x); ScanTake(b1, xs[1..]); }
      Scan(b2, t1.1);
    == { ScanCloses(b2, t1.1); OpenThenClose(b, x, t1.0); }
      Scan(b3, t1.1);
    == { ScanTake(b3, t1.1); }
      Scan(AppendToCurrent(b3, t2.0), t2.1);
    == { AppendToCurrentTwice(b, [sec], t2.0); }
      Scan(AppendToCurrent(b, [sec] + t2.0), t2.1);
    == { assert Take(xs, bound) == ([sec] + t2.0, t2.1); }
      Scan(AppendToCurrent(b, Take(xs, bound).0), Take(xs, bound).1);
    }
  }

  /** A section opened, filled and closed again lands where it was opened. */
  lemma OpenThenClose(b: Builder, h: Node, items: seq<Node>)
    requires h.Heading?
    ensures CloseTop(AppendToCurrent(Open(b, h), items)) == AppendToCurrent(b, [Section(h.depth - 1, [h] + items)])
  {
    var b1 := Open(b, h);
    assert b1.stack[..|b1.stack| - 1] == b.stack;
    var b2 := AppendToCurrent(b1, items);
    assert b2.stack == b.stack + [Frame(h.depth, [h] + items)];
    assert b2.stack[..|b2.stack| - 1] == b.stack;
  }

  /** One step of the scan: an opener deeper than every open section opens one. */
  lemma ScanOpens(b: Builder, xs: seq<Node>)
    requires xs != [] && IsOpener(xs[0]) && xs[0].depth > TopDepth(b)
    ensures Scan(b, xs) == Scan(Open(b, xs[0]), xs[1..])
  {
  }

  /** One step of the scan: the end of input, or an opener no deeper than the
      innermost open section, closes that section. */
  lemma ScanCloses(b: Builder, xs: seq<Node>)
    requires b.stack != []
    requires xs == [] || (IsOpener(xs[0]) && xs[0].depth <= TopDepth(b))
    ensures Scan(b, xs) == Scan(CloseTop(b), xs)
  {
  }

  /** The stack scan builds exactly the recursive-descent structure. */
  lemma ScanIsSectionize(ns: seq<Node>)
    ensures Scan(Builder([], []), ns) == Sectionize(ns)
  {
    ScanTake(Builder([], []), ns);
    assert [] + Take(ns, 1).0 == Take(ns, 1).0;
  }

  /** `remarkSection` itself: the stack scan over the root's children, then
      `tree.children = newChildren`. */
  method BuildSections(tree: Root) returns (r: Root)
    ensures r == tree.(children := Sectionize(tree.children))
  {
    var ns := tree.children;
    var newChildren: seq<Node> := [];
    var sectionStack: seq<Frame> := [];
    for i := 0 to |ns|
      invariant Scan(Builder(newChildren, sectionStack), ns[i..]) == Scan(Builder([], []), ns)
    {
      var node := ns[i];
      assert ns[i..][0] == node && ns[i..][1..] == ns[i + 1..];
      if IsOpener(node) {
        while sectionStack != [] && sectionStack[|sectionStack| - 1].headingDepth >= node.depth
          invariant Scan(Builder(newChildren, sectionStack), ns[i..]) == Scan(Builder([], []), ns)
          decreases |sectionStack|
        {
          var b := CloseTop(Builder(newChildren, sectionStack));
          newChildren, sectionStack := b.root, b.stack;
        }
        sectionStack := sectionStack + [Frame(node.depth, [node])];
      } else {
        var b := AppendToCurrent(Builder(newChildren, sectionStack), [node]);
        newChildren, sectionStack := b.root, b.stack;
      }
    }
    // Sections still open are complete: attach them to their parents.
    while sectionStack != []
      invariant Scan(Builder(newChildren, sectionStack), []) == Scan(Builder([], []), ns)
      decreases |sectionStack|
    {
      var b := CloseTop(Builder(newChildren, sectionStack));
      newChildren, sectionStack := b.root, b.stack;
    }
    ScanIsSectionize(ns);
    r := tree.(children := newChildren);
  }

  // ---------------------------------------------------------------------
  // Properties of the section structure.

  /** `Take` loses and duplicates nothing and keeps the order. */
  lemma {:induction false} TakeUnwrap(xs: seq<Node>, bound: int)
    ensures Unwrap(Take(xs, bound).0) + Unwrap(Take(xs, bound).1) == Unwrap(xs)
    decreases |xs|
  {
    if xs != [] {
      var x, tail := xs[0], xs[1..];
      assert xs == [x] + tail;
      UnwrapAppend([x], tail);
      UnwrapSingle(x);
      if IsOpener(x) && x.depth <= bound {
        assert Unwrap([]) == [];
      } else if IsOpener(x) {
        var t1 := Take(tail, x.depth);
        var t2 := Take(t1.1, bound);
        var sec := Section(x.depth - 1, [x] + t1.0);
        assert Take(xs, bound) == ([sec] + t2.0, t2.1);
        TakeUnwrap(tail, x.depth);
        TakeUnwrap(t1.1, bound);
        assert Unwrap([sec] + t2.0) == [x] + Unwrap(t1.0) + Unwrap(t2.0) by {
          UnwrapAppend([sec], t2.0);
          UnwrapSingle(sec);
          UnwrapAppend([x], t1.0);
          UnwrapSingle(x);
        }
        UnwrapTakeSplit(x, Unwrap(t1.0), Unwrap(t1.1), Unwrap(t2.0), Unwrap(t2.1));
      } else {
        var t := Take(tail, bound);
        assert Take(xs, bound) == ([x] + t.0, t.1);
        TakeUnwrap(tail, bound);
        UnwrapAppend([x], t.0);
        assert Unwrap([x]) + Unwrap(t.0) + Unwrap(t.1) == Unwrap([x]) + (Unwrap(t.0) + Unwrap(t.1));
      }
    }
  }

  lemma UnwrapTakeSplit(x: Node, inner: seq<Node>, rest1: seq<Node>, more: seq<Node>, rest2: seq<Node>)
    requires more + rest2 == rest1
    ensures [x] + inner + more + rest2 == [x] + (inner + rest1)
  {
  }

  /** Every original top-level node appears exactly once in the result, in the
      same order, and unchanged: flattening the new sections gives back the input. */
  lemma SectionizeKeepsNodes(ns: seq<Node>)
    requires NoSections(ns)
    ensures Unwrap(Sectionize(ns)) == ns
  {
    TakeUnwrap(ns, 1);
    UnwrapNoSections(ns);
    assert Take(ns, 1).1 == [];
    assert Unwrap([]) == [];
  }

  /** The code blocks and widgets are the same, in the same order. */
  lemma SectionizeLeaves(ns: seq<Node>)
    ensures Leaves(Sectionize(ns)) == Leaves(ns)
  {
    TakeUnwrap(ns, 1);
    assert Take(ns, 1).1 == [];
    assert Unwrap([]) == [];
    assert Unwrap(Sectionize(ns)) == Unwrap(ns);
    LeavesUnwrap(Sectionize(ns));
    LeavesUnwrap(ns);
  }

  predicate NoOpeners(ns: seq<Node>) {
    forall i :: 0 <= i < |ns| ==> !IsOpener(ns[i])
  }

  lemma {:induction false} TakeNoOpeners(xs: seq<Node>, bound: int)
    requires NoOpeners(xs)
    ensures Take(xs, bound) == (xs, [])
    decreases |xs|
  {
    if xs != [] {
      TakeNoOpeners(xs[1..], bound);
      assert [xs[0]] + xs[1..] == xs;
    }
  }

  /** Without a heading of depth > 1 the root's children are left as they are. */
  lemma SectionizeWithoutOpeners(ns: seq<Node>)
    requires NoOpeners(ns)
    ensures Sectionize(ns) == ns
  {
    TakeNoOpeners(ns, 1);
  }

  /** The shape the scan produces, below an open section of heading depth
      `bound` (1 at the root): no opener stands outside a section; once a
      section appears, only sections follow, none deeper than the one before
      (an equally deep or shallower heading closes it); and every section
      starts with its own heading, one deeper than the section, deeper than
      `bound`, and holds a forest of the same shape below that heading. */
  predicate Forest(ns: seq<Node>, bound: int)
    decreases ns
  {
    (forall i :: 0 <= i < |ns| && !ns[i].Section? ==> !IsOpener(ns[i])) &&
    (forall i, j :: 0 <= i < j < |ns| && ns[i].Section? ==> ns[j].Section? && ns[j].depth <= ns[i].depth) &&
    (forall i :: 0 <= i < |ns| && ns[i].Section? ==> SectionShaped(ns[i], bound))
  }

  predicate SectionShaped(n: Node, bound: int)
    requires n.Section?
    decreases n, 1
  {
    var cs := n.children;
    n.depth + 1 > bound && cs != [] && cs[0].Heading? && cs[0].depth == n.depth + 1 &&
    Forest(cs[1..], n.depth + 1)
  }

  /** What `Take` returns when it starts at an opener or at the end: sections
      only, the first one opened by that opener. */
  lemma {:induction false} TakeAtOpener(xs: seq<Node>, bound: int)
    requires xs == [] || IsOpener(xs[0])
    ensures forall i :: 0 <= i < |Take(xs, bound).0| ==> Take(xs, bound).0[i].Section?
    ensures Take(xs, bound).0 != [] ==> xs != [] && Take(xs, bound).0[0].depth == xs[0].depth - 1
    decreases |xs|
  {
    if xs != [] && xs[0].depth > bound {
      var x := xs[0];
      var (inner, rest1) := Take(xs[1..], x.depth);
      TakeAtOpener(rest1, bound);
    }
  }

  /** `Take` builds a well-shaped forest from nodes that are not sections yet. */
  lemma {:induction false} TakeForest(xs: seq<Node>, bound: int)
    requires NoSections(xs)
    ensures Forest(Take(xs, bound).0, bound)
    decreases |xs|
  {
    if xs != [] {
      var x := xs[0];
      assert NoSections(xs[1..]) by {
        assert forall i :: 0 <= i < |xs| - 1 ==> xs[1..][i] == xs[i + 1];
      }
      if IsOpener(x) && x.depth <= bound {
      } else if IsOpener(x) {
        var (inner, rest1) := Take(xs[1..], x.depth);
        var (more, rest2) := Take(rest1, bound);
        TakeForest(xs[1..], x.depth);
        TakeSuffix(xs[1..], x.depth);
        assert NoSections(rest1) by {
          assert forall i :: 0 <= i < |rest1| ==> rest1[i] == xs[1..][|xs[1..]| - |rest1| + i];
        }
        TakeForest(rest1, bound);
        TakeAtOpener(rest1, bound);
        var sec := Section(x.depth - 1, [x] + inner);
        assert sec.children[1..] == inner;
        assert SectionShaped(sec, bound);
        ForestCons(sec, more, bound);
      } else {
        var (more, rest) := Take(xs[1..], bound);
        TakeForest(xs[1..], bound);
        ForestCons(x, more, bound);
      }
    }
  }

  /** What `Take` leaves over is a suffix of its input. */
  lemma {:induction false} TakeSuffix(xs: seq<Node>, bound: int)
    ensures Take(xs, bound).1 == xs[|xs| - |Take(xs, bound).1|..]
    decreases |xs|
  {
    if xs != [] {
      var x := xs[0];
      if IsOpener(x) && x.depth <= bound {
      } else if IsOpener(x) {
        var (inner, rest1) := Take(xs[1..], x.depth);
        TakeSuffix(xs[1..], x.depth);
        TakeSuffix(rest1, bound);
      } else {
        TakeSuffix(xs[1..], bound);
      }
    }
  }

  lemma ForestCons(n: Node, more: seq<Node>, bound: int)
    requires Forest(more, bound)
    requires !n.Section? ==> !IsOpener(n)
    requires n.Section? ==> SectionShaped(n, bound)
    requires n.Section? ==> forall i :: 0 <= i < |more| ==> more[i].Section?
    requires n.Section? && more != [] ==> more[0].depth <= n.depth
    ensures Forest([n] + more, bound)
  {
    var ns := [n] + more;
    assert forall i :: 1 <= i < |ns| ==> ns[i] == more[i - 1];
    if n.Section? && more != [] {
      assert forall j :: 1 <= j < |ns| ==> ns[j].depth <= n.depth by {
        forall j | 1 <= j < |ns|
          ensures ns[j].depth <= n.depth
        {
          if j > 1 {
            assert more[0].Section?;
            assert more[j - 1].depth <= more[0].depth;
          }
        }
      }
    }
  }

  /** The whole result is well shaped (the root accepts any section). */
  lemma SectionizeShape(ns: seq<Node>)
    requires NoSections(ns)
    ensures Forest(Sectionize(ns), 1)
  {
    TakeForest(ns, 1);
  }
}

/** The section builder on the documents of its own test suite. */
module RemarkSectionExamples {
  import opened Mdast
  import opened RemarkSection

  /** A node that neither opens a section nor is one (a paragraph, say). */
  predicate Plain(n: Node) {
    !IsOpener(n) && !n.Section?
  }

  lemma TakePlain(x: Node, tail: seq<Node>, bound: int)
    requires !IsOpener(x)
    ensures Take([x] + tail, bound) == ([x] + Take(tail, bound).0, Take(tail, bound).1)
  {
    assert ([x] + tail)[0] == x && ([x] + tail)[1..] == tail;
  }

  lemma TakeOpen(x: Node, tail: seq<Node>, bound: int)
    requires IsOpener(x) && x.depth > bound
    ensures var inner := Take(tail, x.depth);
      Take([x] + tail, bound) ==
        ([Section(x.depth - 1, [x] + inner.0)] + Take(inner.1, bound).0, Take(inner.1, bound).1)
  {
    assert ([x] + tail)[0] == x && ([x] + tail)[1..] == tail;
  }

  lemma TakeStop(x: Node, tail: seq<Node>, bound: int)
    requires IsOpener(x) && x.depth <= bound
    ensures Take([x] + tail, bound) == ([], [x] + tail)
  {
    assert ([x] + tail)[0] == x;
  }

  /** `# Page title`, `## First`, a paragraph, `### Sub`, text, `## Second`, a
      paragraph: the title stays at the root, `### Sub` nests inside `## First`,
      and `## Second`, as deep as `## First`, closes it and opens a sibling. */
  lemma NestedHeadings(title: Node, first: Node, p1: Node, sub: Node, t: Node, second: Node, p2: Node)
    requires title.Heading? && title.depth == 1
    requires first.Heading? && first.depth == 2 && second.Heading? && second.depth == 2
    requires sub.Heading? && sub.depth == 3
    requires Plain(p1) && Plain(t) && Plain(p2)
    ensures Sectionize([title, first, p1, sub, t, second, p2]) ==
      [title, Section(1, [first, p1, Section(2, [sub, t])]), Section(1, [second, p2])]
  {
    var tail := [second, p2];
    var s2 := Section(2, [sub, t]);
    var s1' := Section(1, [second, p2]);
    SiblingSection(second, p2);
    SubSection(sub, t, tail);
    var rest := [sub] + ([t] + tail);
    OuterSection(first, p1, rest, s2, tail, [s1']);
    assert [Section(1, [first, p1, s2])] + [s1'] == [Section(1, [first, p1, s2]), s1'];
    TakePlain(title, [first] + ([p1] + rest), 1);
    assert [title, first, p1, sub, t, second, p2] == [title] + ([first] + ([p1] + rest));
  }

  /** `## Second` and its paragraph: a section of their own at the top, and
      nothing at all inside a deeper section. */
  lemma SiblingSection(second: Node, p2: Node)
    requires second.Heading? && second.depth == 2 && Plain(p2)
    ensures Take([second, p2], 1) == ([Section(1, [second, p2])], [])
    ensures Take([second, p2], 2) == ([], [second, p2]) && Take([second, p2], 3) == ([], [second, p2])
  {
    assert Take([], 1) == ([], []) && Take([], 2) == ([], []);
    TakePlain(p2, [], 2);
    assert [p2] + [] == [p2];
    TakeOpen(second, [p2], 1);
    assert [second] + [p2] == [second, p2];
    assert [Section(1, [second, p2])] + [] == [Section(1, [second, p2])];
    TakeStop(second, [p2], 2);
    TakeStop(second, [p2], 3);
  }

  /** `### Sub` and its text, up to a heading no deeper than `##`. */
  lemma SubSection(sub: Node, t: Node, tail: seq<Node>)
    requires sub.Heading? && sub.depth == 3 && Plain(t)
    requires Take(tail, 3) == ([], tail) && Take(tail, 2) == ([], tail)
    ensures Take([sub] + ([t] + tail), 2) == ([Section(2, [sub, t])], tail)
  {
    TakePlain(t, tail, 3);
    assert [t] + [] == [t];
    TakeOpen(sub, [t] + tail, 2);
    assert [sub] + [t] == [sub, t] && [Section(2, [sub, t])] + [] == [Section(2, [sub, t])];
  }

  /** `## First`, its paragraph and what follows up to the next `##`. */
  lemma OuterSection(first: Node, p1: Node, rest: seq<Node>, inner: Node, tail: seq<Node>, after: seq<Node>)
    requires first.Heading? && first.depth == 2 && Plain(p1)
    requires Take(rest, 2) == ([inner], tail) && Take(tail, 1) == (after, [])
    ensures Take([first] + ([p1] + rest), 1) == ([Section(1, [first, p1, inner])] + after, [])
  {
    TakePlain(p1, rest, 2);
    assert [p1] + [inner] == [p1, inner];
    TakeOpen(first, [p1] + rest, 1);
    assert [first] + [p1, inner] == [first, p1, inner];
  }

  /** `## A`, `### B`, `#### C`, `##### D`: strictly deeper headings nest as a chain. */
  lemma DescendingChain(a: Node, b: Node, c: Node, d: Node)
    requires a.Heading? && a.depth == 2 && b.Heading? && b.depth == 3
    requires c.Heading? && c.depth == 4 && d.Heading? && d.depth == 5
    ensures Sectionize([a, b, c, d]) ==
      [Section(1, [a, Section(2, [b, Section(3, [c, Section(4, [d])])])])]
  {
    var sd := Section(4, [d]);
    var sc := Section(3, [c, sd]);
    var sb := Section(2, [b, sc]);
    assert Take([], 1) == ([], []) && Take([], 2) == ([], []) && Take([], 3) == ([], []);
    assert Take([], 4) == ([], []) && Take([], 5) == ([], []);
    TakeOpen(d, [], 4);
    assert [d] + [] == [d] && [sd] + [] == [sd];
    TakeOpen(c, [d], 3);
    assert [c] + [sd] == [c, sd] && [sc] + [] == [sc];
    TakeOpen(b, [c] + [d], 2);
    assert [b] + [sc] == [b, sc] && [sb] + [] == [sb];
    TakeOpen(a, [b] + ([c] + [d]), 1);
    assert [a] + [sb] == [a, sb];
    assert [Section(1, [a, sb])] + [] == [Section(1, [a, sb])];
    assert [a, b, c, d] == [a] + ([b] + ([c] + [d]));
  }

  /** `# Top`, `## Sub`, text: a `#` heading stays at the root and opens no section. */
  lemma TopHeadingStays(top: Node, sub: Node, t: Node)
    requires top.Heading? && top.depth == 1 && sub.Heading? && sub.depth == 2 && Plain(t)
    ensures Sectionize([top, sub, t]) == [top, Section(1, [sub, t])]
  {
    assert Take([], 1) == ([], []) && Take([], 2) == ([], []);
    TakePlain(t, [], 2);
    assert [t] + [] == [t];
    TakeOpen(sub, [t], 1);
    assert [sub] + [t] == [sub, t];
    assert [Section(1, [sub, t])] + [] == [Section(1, [sub, t])];
    TakePlain(top, [sub] + [t], 1);
    assert [top] + [Section(1, [sub, t])] == [top, Section(1, [sub, t])];
    assert [top, sub, t] == [top] + ([sub] + [t]);
  }

  /** `## A`, `# B`, text: a `#` heading inside a section does not close it. */
  lemma TopHeadingInsideSection(a: Node, top: Node, t: Node)
    requires a.Heading? && a.depth == 2 && top.Heading? && top.depth == 1 && Plain(t)
    ensures Sectionize([a, top, t]) == [Section(1, [a, top, t])]
  {
    assert Take([], 1) == ([], []) && Take([], 2) == ([], []);
    TakePlain(t, [], 2);
    assert [t] + [] == [t];
    assert Take([t], 2) == ([t], []);
    TakePlain(top, [t], 2);
    assert [top] + [t] == [top, t];
    assert Take([top, t], 2) == ([top, t], []);
    TakeOpen(a, [top, t], 1);
    assert [a] + [top, t] == [a, top, t];
    assert [Section(1, [a, top, t])] + [] == [Section(1, [a, top, t])];
    assert Take([a, top, t], 1) == ([Section(1, [a, top, t])], []);
  }
}
