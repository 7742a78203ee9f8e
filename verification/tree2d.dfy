/** The tree handle of the framework build: an empty-safe create, a free
    that releases nothing for an empty tree, and a range query that walks the
    tree with the handle's own explicit stack instead of recursion. */
module Tree2d {
  import opened Wrappers
  import opened Geometry
  import opened Seqs
  import opened KdTree
  import opened KpStack
  import KdTreeBuild

  /** A search stack entry: the pool index of a node, the axis to compare on
      there, and its slot in the handle's `count` search entries. */
  datatype SearchEntry = SearchEntry(node: nat, axis: Axis, slot: nat)

  /** The handle: the number of annotations, the node pool (node 0 is the
      root) and the stack kept for searches. */
  datatype Tree2d = Tree2d(size: nat, nodes: seq<Option<KdTreeBuild.PoolNode>>, stack: Stack<Option<SearchEntry>>)

  predicate WellFormed(t: Tree2d)
  {
    && |t.nodes| == t.size && t.stack.capacity == t.size && Valid(t.stack)
    && (t.size > 0 ==> KdTreeBuild.Linked(t.nodes) && Size(KdTreeBuild.Decode(t.nodes, 0)) == t.size)
  }

  /** The tree a handle holds; an empty handle holds none. */
  function Root(t: Tree2d): Tree
    requires WellFormed(t)
  {
    if t.size == 0 then Nil else KdTreeBuild.Decode(t.nodes, 0)
  }

  /** The heap blocks a handle owns. */
  datatype Block = NodePool | StackStorage | SearchEntries

  /** The blocks freeing a handle releases: none for an empty handle, which
      never allocated any. */
  function Free(t: Tree2d): (released: set<Block>)
    ensures released == {} <==> t.size == 0
    ensures NodePool in released <==> t.size > 0
    ensures t.size > 0 ==> released == {NodePool, StackStorage, SearchEntries}
  {
    if t.size == 0 then {} else {NodePool, StackStorage, SearchEntries}
  }

  /** The empty-safe create: an empty input gives a zeroed handle; otherwise
      the iterative build fills a pool of `size` nodes whose tree is the one
      `Build` defines. */
  method CreateTree(xs: seq<Annotation>, ys: seq<Annotation>) returns (t: Tree2d)
    requires |xs| <= KdTreeBuild.MaxFrameCount && ValidFrame(Frame(xs, ys, 0))
    ensures WellFormed(t) && t.size == |xs|
    ensures Root(t) == Build(Frame(xs, ys, 0))
    ensures Free(t) == {} <==> |xs| == 0
  {
    if |xs| == 0 {
      return Tree2d(0, [], KpStack.Create(0));
    }
    var pool, used := KdTreeBuild.Create(xs, ys);
    t := Tree2d(|xs|, pool, KpStack.Create(|xs|));
  }

  /** The query as the stack-based walk performs it. A node is tested for
      containment first; then only the left subtree is entered when the
      rectangle ends below the node's coordinate and there is a left child,
      only the right one when the rectangle starts at or above it and there is
      a right child, and otherwise both, left first. When the favoured child
      is missing the walk falls into the last case and may enter the other
      subtree. Whatever the tree, it reports only annotations inside the
      rectangle and stored in the tree. */
  function SearchFw(t: Tree, lo: MapPoint, hi: MapPoint, axis: Axis): (r: seq<Annotation>)
    ensures forall i :: 0 <= i < |r| ==> InRect(r[i].point, lo, hi) && r[i] in Preorder(t)
    ensures |r| <= Size(t)
  {
    match t
    case Nil => []
    case Node(a, l, rt) =>
      var here := if InRect(a.point, lo, hi) then [a] else [];
      var v := CoordOf(a, axis);
      var c := Complement(axis);
      if Coord(hi, axis) < v && l != Nil then here + SearchFw(l, lo, hi, c)
      else if Coord(lo, axis) >= v && rt != Nil then here + SearchFw(rt, lo, hi, c)
      else here + SearchFw(l, lo, hi, c) + SearchFw(rt, lo, hi, c)
  }

  /** One node of the walk: with both subtrees answering as the scan does,
      so does the node. */
  lemma SearchFwNodeStep(a: Annotation, l: Tree, r: Tree, lo: MapPoint, hi: MapPoint, axis: Axis)
    requires AllBelow(Preorder(l), axis, CoordOf(a, axis))
    requires AllAtOrAbove(Preorder(r), axis, CoordOf(a, axis))
    requires SearchFw(l, lo, hi, Complement(axis)) == Scan(Preorder(l), lo, hi)
    requires SearchFw(r, lo, hi, Complement(axis)) == Scan(Preorder(r), lo, hi)
    ensures SearchFw(Node(a, l, r), lo, hi, axis) == Scan(Preorder(Node(a, l, r)), lo, hi)
  {
    var here := if InRect(a.point, lo, hi) then [a] else [];
    var sl, sr := Scan(Preorder(l), lo, hi), Scan(Preorder(r), lo, hi);
    ScanNode(a, l, r, lo, hi);
    var v := CoordOf(a, axis);
    if Coord(hi, axis) < v && l != Nil {
      ScanAboveIsEmpty(Preorder(r), lo, hi, axis, v);
      LeftOnly(a, l, r, lo, hi, axis);
      DropEmpty(here, sl, sr);
    } else if Coord(lo, axis) >= v && r != Nil {
      ScanBelowIsEmpty(Preorder(l), lo, hi, axis, v);
      RightOnly(a, l, r, lo, hi, axis);
      assert sl == [];
      assert here + sl == here;
    } else {
      BothSides(a, l, r, lo, hi, axis);
    }
  }

  lemma DropEmpty(here: seq<Annotation>, sl: seq<Annotation>, sr: seq<Annotation>)
    requires sr == []
    ensures here + sl + sr == here + sl
  {
  }

  lemma LeftOnly(a: Annotation, l: Tree, r: Tree, lo: MapPoint, hi: MapPoint, axis: Axis)
    requires Coord(hi, axis) < CoordOf(a, axis) && l != Nil
    ensures SearchFw(Node(a, l, r), lo, hi, axis)
            == (if InRect(a.point, lo, hi) then [a] else []) + SearchFw(l, lo, hi, Complement(axis))
  {
  }

  lemma RightOnly(a: Annotation, l: Tree, r: Tree, lo: MapPoint, hi: MapPoint, axis: Axis)
    requires !(Coord(hi, axis) < CoordOf(a, axis) && l != Nil)
    requires Coord(lo, axis) >= CoordOf(a, axis) && r != Nil
    ensures SearchFw(Node(a, l, r), lo, hi, axis)
            == (if InRect(a.point, lo, hi) then [a] else []) + SearchFw(r, lo, hi, Complement(axis))
  {
  }

  lemma BothSides(a: Annotation, l: Tree, r: Tree, lo: MapPoint, hi: MapPoint, axis: Axis)
    requires !(Coord(hi, axis) < CoordOf(a, axis) && l != Nil)
    requires !(Coord(lo, axis) >= CoordOf(a, axis) && r != Nil)
    ensures SearchFw(Node(a, l, r), lo, hi, axis)
            == (if InRect(a.point, lo, hi) then [a] else [])
               + SearchFw(l, lo, hi, Complement(axis)) + SearchFw(r, lo, hi, Complement(axis))
  {
  }

  /** On a 2-d ordered tree the extra subtrees the fall-through enters hold
      no match: the walk reports exactly the annotations inside the
      rectangle, in pre-order. */
  lemma {:induction false} SearchFwMatchesScan(t: Tree, lo: MapPoint, hi: MapPoint, axis: Axis)
    requires KdOrdered(t, axis)
    ensures SearchFw(t, lo, hi, axis) == Scan(Preorder(t), lo, hi)
  {
    match t
    case Nil =>
    case Node(a, l, r) =>
      SearchFwMatchesScan(l, lo, hi, Complement(axis));
      SearchFwMatchesScan(r, lo, hi, Complement(axis));
      SearchFwNodeStep(a, l, r, lo, hi, axis);
  }

  /** The stack-based walk and the recursive query agree on 2-d ordered
      trees. */
  lemma SearchFwAgrees(t: Tree, lo: MapPoint, hi: MapPoint, axis: Axis)
    requires KdOrdered(t, axis)
    ensures SearchFw(t, lo, hi, axis) == Search(t, lo, hi, axis)
  {
    SearchFwMatchesScan(t, lo, hi, axis);
    SearchMatchesScan(t, lo, hi, axis);
  }

  /** The subtree an entry stands for; the sentinel stands for none. */
  function EntryTree(nodes: seq<Option<KdTreeBuild.PoolNode>>, e: Option<SearchEntry>): Tree
    requires KdTreeBuild.Linked(nodes)
  {
    if e.Some? && e.value.node < |nodes| then KdTreeBuild.Decode(nodes, e.value.node) else Nil
  }

  function EntryAxis(e: Option<SearchEntry>): Axis
  {
    if e.Some? then e.value.axis else X
  }

  /** What the entries still on the stack will report, top first. */
  function Remaining(nodes: seq<Option<KdTreeBuild.PoolNode>>, items: seq<Option<SearchEntry>>,
                     lo: MapPoint, hi: MapPoint): seq<Annotation>
    requires KdTreeBuild.Linked(nodes)
  {
    if |items| == 0 then []
    else
      var e := items[|items| - 1];
      SearchFw(EntryTree(nodes, e), lo, hi, EntryAxis(e)) + Remaining(nodes, items[..|items| - 1], lo, hi)
  }

  /** The number of nodes below the entries still on the stack. */
  function Load(nodes: seq<Option<KdTreeBuild.PoolNode>>, items: seq<Option<SearchEntry>>): nat
    requires KdTreeBuild.Linked(nodes)
  {
    if |items| == 0 then 0
    else Size(EntryTree(nodes, items[|items| - 1])) + Load(nodes, items[..|items| - 1])
  }

  /** The search stack: the sentinel at the bottom, then entries for nodes of
      the pool, each in a slot that leaves room for its whole subtree among
      the `count` search entries, with slots increasing upwards. */
  predicate SearchInv(nodes: seq<Option<KdTreeBuild.PoolNode>>, count: nat, items: seq<Option<SearchEntry>>)
  {
    && KdTreeBuild.Linked(nodes)
    && |items| >= 1 && items[0] == None
    && (forall i :: 1 <= i < |items| ==>
          items[i].Some? && items[i].value.node < |nodes|
          && items[i].value.slot + Size(KdTreeBuild.Decode(nodes, items[i].value.node)) <= count)
    && (forall i, j :: 1 <= i < j < |items| && items[i].Some? && items[j].Some? ==>
          items[i].value.slot < items[j].value.slot)
    && Load(nodes, items) <= count
  }

  /** The entry for a child link in slot `slot`, or nothing for NULL. */
  function ChildEntry(c: Option<nat>, axis: Axis, slot: nat): Option<SearchEntry>
  {
    if c.Some? then Some(SearchEntry(c.value, axis, slot)) else None
  }

  /** The entries one step pushes for the entry `e`: only the favoured child
      when the rectangle lies on one side and that child exists, otherwise
      the right child and then the left child, each when present, in the
      slots above `e`'s. */
  function Expand(nodes: seq<Option<KdTreeBuild.PoolNode>>, e: SearchEntry, lo: MapPoint, hi: MapPoint)
    : seq<Option<SearchEntry>>
    requires KdTreeBuild.Linked(nodes) && e.node < |nodes|
  {
    var pn := nodes[e.node].value;
    var v := CoordOf(pn.annotation, e.axis);
    var c := Complement(e.axis);
    if Coord(hi, e.axis) < v && pn.left.Some? then Listed(ChildEntry(pn.left, c, e.slot + 1))
    else if Coord(lo, e.axis) >= v && pn.right.Some? then Listed(ChildEntry(pn.right, c, e.slot + 1))
    else
      var r := ChildEntry(pn.right, c, e.slot + 1);
      Listed(r) + Listed(ChildEntry(pn.left, c, e.slot + 1 + |Listed(r)|))
  }

  /** The annotation an entry reports when it is inside the rectangle. */
  function Here(nodes: seq<Option<KdTreeBuild.PoolNode>>, e: SearchEntry, lo: MapPoint, hi: MapPoint): seq<Annotation>
    requires KdTreeBuild.Linked(nodes) && e.node < |nodes|
  {
    var a := nodes[e.node].value.annotation;
    if InRect(a.point, lo, hi) then [a] else []
  }

  lemma RemainingAppend(nodes: seq<Option<KdTreeBuild.PoolNode>>, a: seq<Option<SearchEntry>>,
                        b: seq<Option<SearchEntry>>, lo: MapPoint, hi: MapPoint)
    requires KdTreeBuild.Linked(nodes)
    ensures Remaining(nodes, a + b, lo, hi) == Remaining(nodes, b, lo, hi) + Remaining(nodes, a, lo, hi)
    ensures Load(nodes, a + b) == Load(nodes, b) + Load(nodes, a)
  {
    RemainingConcat(nodes, a, b, lo, hi);
    LoadConcat(nodes, a, b);
  }

  /** What is left to report for stacked entries splits at any point of the
      stack: the upper part's share comes first. */
  lemma {:induction false} RemainingConcat(nodes: seq<Option<KdTreeBuild.PoolNode>>, a: seq<Option<SearchEntry>>,
                                           b: seq<Option<SearchEntry>>, lo: MapPoint, hi: MapPoint)
    requires KdTreeBuild.Linked(nodes)
    ensures Remaining(nodes, a + b, lo, hi) == Remaining(nodes, b, lo, hi) + Remaining(nodes, a, lo, hi)
    decreases |b|
  {
    if |b| == 0 {
      assert a + b == a;
    } else {
      var n := |b| - 1;
      assert (a + b)[..|a + b| - 1] == a + b[..n];
      assert (a + b)[|a + b| - 1] == b[n];
      RemainingConcat(nodes, a, b[..n], lo, hi);
      var top := SearchFw(EntryTree(nodes, b[n]), lo, hi, EntryAxis(b[n]));
      ConcatAssoc(top, Remaining(nodes, b[..n], lo, hi), Remaining(nodes, a, lo, hi));
    }
  }

  /** The load of stacked entries is the sum of the loads of any split. */
  lemma {:induction false} LoadConcat(nodes: seq<Option<KdTreeBuild.PoolNode>>, a: seq<Option<SearchEntry>>,
                                      b: seq<Option<SearchEntry>>)
    requires KdTreeBuild.Linked(nodes)
    ensures Load(nodes, a + b) == Load(nodes, b) + Load(nodes, a)
    decreases |b|
  {
    if |b| == 0 {
      assert a + b == a;
    } else {
      var n := |b| - 1;
      assert (a + b)[..|a + b| - 1] == a + b[..n];
      assert (a + b)[|a + b| - 1] == b[n];
      LoadConcat(nodes, a, b[..n]);
    }
  }

  function ChildTree(nodes: seq<Option<KdTreeBuild.PoolNode>>, c: Option<nat>): Tree
    requires KdTreeBuild.Linked(nodes) && (c.Some? ==> c.value < |nodes|)
  {
    if c.Some? then KdTreeBuild.Decode(nodes, c.value) else Nil
  }

  /** A pool node reads back as its annotation over its two child trees. */
  lemma DecodeNode(nodes: seq<Option<KdTreeBuild.PoolNode>>, n: nat)
    requires KdTreeBuild.Linked(nodes) && n < |nodes|
    ensures nodes[n].value.left.Some? ==> nodes[n].value.left.value < |nodes|
    ensures nodes[n].value.right.Some? ==> nodes[n].value.right.value < |nodes|
    ensures KdTreeBuild.Decode(nodes, n)
            == Node(nodes[n].value.annotation, ChildTree(nodes, nodes[n].value.left), ChildTree(nodes, nodes[n].value.right))
  {
  }

  lemma ListedEntry(nodes: seq<Option<KdTreeBuild.PoolNode>>, c: Option<nat>, axis: Axis, slot: nat,
                    lo: MapPoint, hi: MapPoint)
    requires KdTreeBuild.Linked(nodes) && (c.Some? ==> c.value < |nodes|)
    ensures Remaining(nodes, Listed(ChildEntry(c, axis, slot)), lo, hi) == SearchFw(ChildTree(nodes, c), lo, hi, axis)
    ensures Load(nodes, Listed(ChildEntry(c, axis, slot))) == Size(ChildTree(nodes, c))
  {
    if c.Some? {
      var s := Listed(ChildEntry(c, axis, slot));
      assert s[..0] == [];
    }
  }

  /** What the pushed entries report, after the node's own annotation, is
      what the walk reports for the node's subtree; they hold fewer nodes
      than the subtree. */
  lemma ExpandOut(nodes: seq<Option<KdTreeBuild.PoolNode>>, e: SearchEntry, lo: MapPoint, hi: MapPoint)
    requires KdTreeBuild.Linked(nodes) && e.node < |nodes|
    ensures Here(nodes, e, lo, hi) + Remaining(nodes, Expand(nodes, e, lo, hi), lo, hi)
            == SearchFw(KdTreeBuild.Decode(nodes, e.node), lo, hi, e.axis)
    ensures Load(nodes, Expand(nodes, e, lo, hi)) < Size(KdTreeBuild.Decode(nodes, e.node))
  {
    var pn := nodes[e.node].value;
    var v := CoordOf(pn.annotation, e.axis);
    if Coord(hi, e.axis) < v && pn.left.Some? {
      OutLeft(nodes, e, lo, hi);
    } else if Coord(lo, e.axis) >= v && pn.right.Some? {
      OutRight(nodes, e, lo, hi);
    } else {
      OutBoth(nodes, e, lo, hi);
    }
  }

  lemma OutLeft(nodes: seq<Option<KdTreeBuild.PoolNode>>, e: SearchEntry, lo: MapPoint, hi: MapPoint)
    requires KdTreeBuild.Linked(nodes) && e.node < |nodes|
    requires Coord(hi, e.axis) < CoordOf(nodes[e.node].value.annotation, e.axis) && nodes[e.node].value.left.Some?
    ensures Here(nodes, e, lo, hi) + Remaining(nodes, Expand(nodes, e, lo, hi), lo, hi)
            == SearchFw(KdTreeBuild.Decode(nodes, e.node), lo, hi, e.axis)
    ensures Load(nodes, Expand(nodes, e, lo, hi)) < Size(KdTreeBuild.Decode(nodes, e.node))
  {
    var pn := nodes[e.node].value;
    DecodeNode(nodes, e.node);
    ExpandFavoured(nodes, e, pn.left, lo, hi);
    LeftOnly(pn.annotation, ChildTree(nodes, pn.left), ChildTree(nodes, pn.right), lo, hi, e.axis);
  }

  lemma OutRight(nodes: seq<Option<KdTreeBuild.PoolNode>>, e: SearchEntry, lo: MapPoint, hi: MapPoint)
    requires KdTreeBuild.Linked(nodes) && e.node < |nodes|
    requires !(Coord(hi, e.axis) < CoordOf(nodes[e.node].value.annotation, e.axis) && nodes[e.node].value.left.Some?)
    requires Coord(lo, e.axis) >= CoordOf(nodes[e.node].value.annotation, e.axis) && nodes[e.node].value.right.Some?
    ensures Here(nodes, e, lo, hi) + Remaining(nodes, Expand(nodes, e, lo, hi), lo, hi)
            == SearchFw(KdTreeBuild.Decode(nodes, e.node), lo, hi, e.axis)
    ensures Load(nodes, Expand(nodes, e, lo, hi)) < Size(KdTreeBuild.Decode(nodes, e.node))
  {
    var pn := nodes[e.node].value;
    DecodeNode(nodes, e.node);
    ExpandFavoured(nodes, e, pn.right, lo, hi);
    assert ChildTree(nodes, pn.left) != Nil <==> pn.left.Some?;
    RightOnly(pn.annotation, ChildTree(nodes, pn.left), ChildTree(nodes, pn.right), lo, hi, e.axis);
  }

  lemma OutBoth(nodes: seq<Option<KdTreeBuild.PoolNode>>, e: SearchEntry, lo: MapPoint, hi: MapPoint)
    requires KdTreeBuild.Linked(nodes) && e.node < |nodes|
    requires !(Coord(hi, e.axis) < CoordOf(nodes[e.node].value.annotation, e.axis) && nodes[e.node].value.left.Some?)
    requires !(Coord(lo, e.axis) >= CoordOf(nodes[e.node].value.annotation, e.axis) && nodes[e.node].value.right.Some?)
    ensures Here(nodes, e, lo, hi) + Remaining(nodes, Expand(nodes, e, lo, hi), lo, hi)
            == SearchFw(KdTreeBuild.Decode(nodes, e.node), lo, hi, e.axis)
    ensures Load(nodes, Expand(nodes, e, lo, hi)) < Size(KdTreeBuild.Decode(nodes, e.node))
  {
    var pn := nodes[e.node].value;
    var a, l, r, c := pn.annotation, ChildTree(nodes, pn.left), ChildTree(nodes, pn.right), Complement(e.axis);
    DecodeNode(nodes, e.node);
    ExpandBoth(nodes, e, lo, hi);
    assert l != Nil <==> pn.left.Some?;
    assert r != Nil <==> pn.right.Some?;
    BothSides(a, l, r, lo, hi, e.axis);
    var here, sl, sr := Here(nodes, e, lo, hi), SearchFw(l, lo, hi, c), SearchFw(r, lo, hi, c);
    ConcatAssoc(here, sl, sr);
  }

  lemma ConcatAssoc<T>(a: seq<T>, b: seq<T>, c: seq<T>)
    ensures a + (b + c) == a + b + c
  {
  }

  lemma ExpandFavoured(nodes: seq<Option<KdTreeBuild.PoolNode>>, e: SearchEntry, child: Option<nat>,
                       lo: MapPoint, hi: MapPoint)
    requires KdTreeBuild.Linked(nodes) && e.node < |nodes| && child.Some? && child.value < |nodes|
    requires Expand(nodes, e, lo, hi) == Listed(ChildEntry(child, Complement(e.axis), e.slot + 1))
    ensures Remaining(nodes, Expand(nodes, e, lo, hi), lo, hi)
            == SearchFw(ChildTree(nodes, child), lo, hi, Complement(e.axis))
    ensures Load(nodes, Expand(nodes, e, lo, hi)) == Size(ChildTree(nodes, child))
  {
    ListedEntry(nodes, child, Complement(e.axis), e.slot + 1, lo, hi);
  }

  lemma ExpandBoth(nodes: seq<Option<KdTreeBuild.PoolNode>>, e: SearchEntry, lo: MapPoint, hi: MapPoint)
    requires KdTreeBuild.Linked(nodes) && e.node < |nodes|
    requires var pn := nodes[e.node].value;
             !(Coord(hi, e.axis) < CoordOf(pn.annotation, e.axis) && pn.left.Some?)
             && !(Coord(lo, e.axis) >= CoordOf(pn.annotation, e.axis) && pn.right.Some?)
    ensures var pn := nodes[e.node].value;
            Remaining(nodes, Expand(nodes, e, lo, hi), lo, hi)
            == SearchFw(ChildTree(nodes, pn.left), lo, hi, Complement(e.axis))
               + SearchFw(ChildTree(nodes, pn.right), lo, hi, Complement(e.axis))
    ensures var pn := nodes[e.node].value;
            Load(nodes, Expand(nodes, e, lo, hi)) == Size(ChildTree(nodes, pn.left)) + Size(ChildTree(nodes, pn.right))
  {
    var pn := nodes[e.node].value;
    var c := Complement(e.axis);
    DecodeNode(nodes, e.node);
    var re := ChildEntry(pn.right, c, e.slot + 1);
    var le := ChildEntry(pn.left, c, e.slot + 1 + |Listed(re)|);
    assert Expand(nodes, e, lo, hi) == Listed(re) + Listed(le);
    RemainingAppend(nodes, Listed(re), Listed(le), lo, hi);
    ListedEntry(nodes, pn.right, c, e.slot + 1, lo, hi);
    ListedEntry(nodes, pn.left, c, e.slot + 1 + |Listed(re)|, lo, hi);
  }

  /** The pushed entries hold the node's children in consecutive slots above
      the node's, each with room for its subtree. */
  lemma ExpandEntries(nodes: seq<Option<KdTreeBuild.PoolNode>>, count: nat, e: SearchEntry,
                      lo: MapPoint, hi: MapPoint, i: nat)
    requires KdTreeBuild.Linked(nodes) && e.node < |nodes|
    requires e.slot + Size(KdTreeBuild.Decode(nodes, e.node)) <= count
    requires i < |Expand(nodes, e, lo, hi)|
    ensures Expand(nodes, e, lo, hi)[i].Some?
    ensures Expand(nodes, e, lo, hi)[i].value.node < |nodes|
    ensures Expand(nodes, e, lo, hi)[i].value.slot == e.slot + 1 + i
    ensures Expand(nodes, e, lo, hi)[i].value.slot
            + Size(KdTreeBuild.Decode(nodes, Expand(nodes, e, lo, hi)[i].value.node)) <= count
  {
    var pn := nodes[e.node].value;
    DecodeNode(nodes, e.node);
    var l, r := ChildTree(nodes, pn.left), ChildTree(nodes, pn.right);
    assert Size(KdTreeBuild.Decode(nodes, e.node)) == 1 + Size(l) + Size(r);
    assert pn.right.Some? ==> Size(r) >= 1;
  }

  /** Every entry above the sentinel stands for at least one node. */
  lemma {:induction false} LoadAtLeast(nodes: seq<Option<KdTreeBuild.PoolNode>>, items: seq<Option<SearchEntry>>)
    requires KdTreeBuild.Linked(nodes) && |items| >= 1
    requires forall i :: 1 <= i < |items| ==> items[i].Some? && items[i].value.node < |nodes|
    ensures Load(nodes, items) >= |items| - 1
    decreases |items|
  {
    if |items| > 1 {
      var front := items[..|items| - 1];
      assert forall i :: 1 <= i < |front| ==> front[i] == items[i];
      LoadAtLeast(nodes, front);
    }
  }

  /** One iteration of the walk: popping the top entry and pushing what it
      expands to keeps the stack shape, frees at least one node of load,
      stays within the stack's capacity, and moves the node's own report
      from the pending part to the reported part. */
  lemma SearchStep(nodes: seq<Option<KdTreeBuild.PoolNode>>, count: nat, items: seq<Option<SearchEntry>>,
                   lo: MapPoint, hi: MapPoint)
    requires SearchInv(nodes, count, items) && |items| > 1
    ensures items[|items| - 1].Some? && items[|items| - 1].value.node < |nodes|
    ensures SearchInv(nodes, count, items[..|items| - 1] + Expand(nodes, items[|items| - 1].value, lo, hi))
    ensures Load(nodes, items[..|items| - 1] + Expand(nodes, items[|items| - 1].value, lo, hi)) < Load(nodes, items)
    ensures |items[..|items| - 1] + Expand(nodes, items[|items| - 1].value, lo, hi)| <= count
    ensures Here(nodes, items[|items| - 1].value, lo, hi)
            + Remaining(nodes, items[..|items| - 1] + Expand(nodes, items[|items| - 1].value, lo, hi), lo, hi)
            == Remaining(nodes, items, lo, hi)
  {
    StepRemaining(nodes, items, lo, hi);
    StepShape(nodes, count, items, lo, hi);
    StepLoad(nodes, count, items, lo, hi);
  }

  lemma StepShape(nodes: seq<Option<KdTreeBuild.PoolNode>>, count: nat, items: seq<Option<SearchEntry>>,
                  lo: MapPoint, hi: MapPoint)
    requires SearchInv(nodes, count, items) && |items| > 1
    ensures var items2 := items[..|items| - 1] + Expand(nodes, items[|items| - 1].value, lo, hi);
            && |items2| >= 1 && items2[0] == None
            && (forall i :: 1 <= i < |items2| ==>
                  items2[i].Some? && items2[i].value.node < |nodes|
                  && items2[i].value.slot + Size(KdTreeBuild.Decode(nodes, items2[i].value.node)) <= count)
            && (forall i, j :: 1 <= i < j < |items2| && items2[i].Some? && items2[j].Some? ==>
                  items2[i].value.slot < items2[j].value.slot)
  {
    var t := |items| - 1;
    var e := items[t].value;
    var kids := Expand(nodes, e, lo, hi);
    var items2 := items[..t] + kids;
    forall i | 1 <= i < |items2|
      ensures items2[i].Some? && items2[i].value.node < |nodes|
      ensures items2[i].value.slot + Size(KdTreeBuild.Decode(nodes, items2[i].value.node)) <= count
      ensures i >= t ==> items2[i].value.slot == e.slot + 1 + (i - t)
    {
      if i >= t {
        assert items2[i] == kids[i - t];
        ExpandEntries(nodes, count, e, lo, hi, i - t);
      } else {
        assert items2[i] == items[i];
      }
    }
    forall i, j | 1 <= i < j < |items2| && items2[i].Some? && items2[j].Some?
      ensures items2[i].value.slot < items2[j].value.slot
    {
      if j < t {
        assert items2[i] == items[i] && items2[j] == items[j];
      } else if i < t {
        assert items2[i] == items[i];
        assert items[i].value.slot < e.slot;
      }
    }
  }

  lemma StepLoad(nodes: seq<Option<KdTreeBuild.PoolNode>>, count: nat, items: seq<Option<SearchEntry>>,
                 lo: MapPoint, hi: MapPoint)
    requires SearchInv(nodes, count, items) && |items| > 1
    ensures Load(nodes, items[..|items| - 1] + Expand(nodes, items[|items| - 1].value, lo, hi)) < Load(nodes, items)
    ensures |items[..|items| - 1] + Expand(nodes, items[|items| - 1].value, lo, hi)| <= count
  {
    var t := |items| - 1;
    var e := items[t].value;
    var front, kids := items[..t], Expand(nodes, e, lo, hi);
    var items2 := front + kids;
    ExpandOut(nodes, e, lo, hi);
    RemainingAppend(nodes, front, kids, lo, hi);
    assert Load(nodes, items) == Size(KdTreeBuild.Decode(nodes, e.node)) + Load(nodes, front);
    StepShape(nodes, count, items, lo, hi);
    LoadAtLeast(nodes, items2);
  }

  lemma StepRemaining(nodes: seq<Option<KdTreeBuild.PoolNode>>, items: seq<Option<SearchEntry>>,
                      lo: MapPoint, hi: MapPoint)
    requires KdTreeBuild.Linked(nodes) && |items| > 1
    requires items[|items| - 1].Some? && items[|items| - 1].value.node < |nodes|
    ensures Here(nodes, items[|items| - 1].value, lo, hi)
            + Remaining(nodes, items[..|items| - 1] + Expand(nodes, items[|items| - 1].value, lo, hi), lo, hi)
            == Remaining(nodes, items, lo, hi)
  {
    var e := items[|items| - 1].value;
    var front, kids := items[..|items| - 1], Expand(nodes, e, lo, hi);
    var here, rk, rf := Here(nodes, e, lo, hi), Remaining(nodes, kids, lo, hi), Remaining(nodes, front, lo, hi);
    assert Remaining(nodes, items, lo, hi) == SearchFw(KdTreeBuild.Decode(nodes, e.node), lo, hi, e.axis) + rf;
    ExpandOut(nodes, e, lo, hi);
    RemainingAppend(nodes, front, kids, lo, hi);
    ConcatAssoc(here, rk, rf);
  }

  /** Once the sentinel is popped nothing is pending. */
  lemma SearchDone(nodes: seq<Option<KdTreeBuild.PoolNode>>, count: nat, items: seq<Option<SearchEntry>>,
                   lo: MapPoint, hi: MapPoint)
    requires SearchInv(nodes, count, items) && items[|items| - 1].None?
    ensures Remaining(nodes, items, lo, hi) == []
  {
    assert |items| == 1 && items == [None];
    SentinelOnly(nodes, items, lo, hi);
  }

  /** The walk starts with the root entry, axis x, slot 0, on top of the
      sentinel. */
  lemma SearchInit(nodes: seq<Option<KdTreeBuild.PoolNode>>, lo: MapPoint, hi: MapPoint)
    requires KdTreeBuild.Linked(nodes) && |nodes| > 0 && Size(KdTreeBuild.Decode(nodes, 0)) == |nodes|
    ensures SearchInv(nodes, |nodes|, [None, Some(SearchEntry(0, X, 0))])
    ensures Remaining(nodes, [None, Some(SearchEntry(0, X, 0))], lo, hi)
            == SearchFw(KdTreeBuild.Decode(nodes, 0), lo, hi, X)
  {
    var items: seq<Option<SearchEntry>> := [None, Some(SearchEntry(0, X, 0))];
    assert items[..1] == [None];
    SentinelOnly(nodes, [None], lo, hi);
  }

  lemma SentinelOnly(nodes: seq<Option<KdTreeBuild.PoolNode>>, items: seq<Option<SearchEntry>>, lo: MapPoint, hi: MapPoint)
    requires KdTreeBuild.Linked(nodes) && items == [None]
    ensures Remaining(nodes, items, lo, hi) == [] && Load(nodes, items) == 0
  {
    assert items[..0] == [];
  }

  /** Pushes what `Expand` describes, as the walk does: the favoured child
      alone when it exists, otherwise right then left, each when present,
      in slots counted up from the popped entry's. */
  method PushChildren(stack: Stack<Option<SearchEntry>>, nodes: seq<Option<KdTreeBuild.PoolNode>>,
                      e: SearchEntry, lo: MapPoint, hi: MapPoint) returns (s: Stack<Option<SearchEntry>>)
    requires KdTreeBuild.Linked(nodes) && e.node < |nodes|
    requires Valid(stack) && |stack.items| + |Expand(nodes, e, lo, hi)| <= stack.capacity
    ensures Valid(s) && s.capacity == stack.capacity
    ensures s.items == stack.items + Expand(nodes, e, lo, hi)
  {
    var pn := nodes[e.node].value;
    var v := CoordOf(pn.annotation, e.axis);
    var c := Complement(e.axis);
    s := stack;
    if Coord(hi, e.axis) < v && pn.left.Some? {
      assert Expand(nodes, e, lo, hi) == [Some(SearchEntry(pn.left.value, c, e.slot + 1))];
      s := Push(s, Some(SearchEntry(pn.left.value, c, e.slot + 1)));
    } else if Coord(lo, e.axis) >= v && pn.right.Some? {
      assert Expand(nodes, e, lo, hi) == [Some(SearchEntry(pn.right.value, c, e.slot + 1))];
      s := Push(s, Some(SearchEntry(pn.right.value, c, e.slot + 1)));
    } else {
      ghost var r := ChildEntry(pn.right, c, e.slot + 1);
      ghost var l := ChildEntry(pn.left, c, e.slot + 1 + |Listed(r)|);
      assert Expand(nodes, e, lo, hi) == Listed(r) + Listed(l);
      var slot := e.slot;
      if pn.right.Some? {
        slot := slot + 1;
        s := Push(s, Some(SearchEntry(pn.right.value, c, slot)));
      }
      assert s.items == stack.items + Listed(r) && slot == e.slot + |Listed(r)|;
      ghost var mid := s.items;
      if pn.left.Some? {
        slot := slot + 1;
        s := Push(s, Some(SearchEntry(pn.left.value, c, slot)));
      }
      assert s.items == mid + Listed(l);
      ConcatAssoc(stack.items, Listed(r), Listed(l));
    }
  }

  /** One iteration of the walk: reports the popped entry's annotation when
      it lies in the rectangle, pushes what `Expand` describes and pops the
      next entry. What is still to be reported shrinks by exactly the
      popped entry's share. */
  method Visit(nodes: seq<Option<KdTreeBuild.PoolNode>>, count: nat, stack: Stack<Option<SearchEntry>>,
               e: SearchEntry, found: seq<Annotation>, lo: MapPoint, hi: MapPoint)
    returns (stack2: Stack<Option<SearchEntry>>, top2: Option<SearchEntry>, found2: seq<Annotation>)
    requires Valid(stack) && stack.capacity == count
    requires SearchInv(nodes, count, stack.items + [Some(e)])
    ensures Valid(stack2) && stack2.capacity == count
    ensures SearchInv(nodes, count, stack2.items + [top2])
    ensures found2 + Remaining(nodes, stack2.items + [top2], lo, hi)
            == found + Remaining(nodes, stack.items + [Some(e)], lo, hi)
    ensures Load(nodes, stack2.items + [top2]) < Load(nodes, stack.items + [Some(e)])
  {
    ghost var items := stack.items + [Some(e)];
    var a := nodes[e.node].value.annotation;
    SearchStep(nodes, count, items, lo, hi);
    found2 := found;
    if InRect(a.point, lo, hi) {
      found2 := found2 + [a];
    }
    assert found2 == found + Here(nodes, e, lo, hi);
    assert stack.items == items[..|items| - 1];
    var s := PushChildren(stack, nodes, e, lo, hi);
    ghost var items2 := s.items;
    var popped := Pop(s);
    stack2, top2 := popped.0, popped.1;
    assert stack2.items + [top2] == items2;
    ConcatAssoc(found, Here(nodes, e, lo, hi), Remaining(nodes, items2, lo, hi));
  }

  /** The range query of the handle: nothing for an empty handle; otherwise
      the stack is reset, the sentinel pushed, and entries are popped until
      the sentinel comes back. The result is the walk `SearchFw` from the
      root on axis x, whatever the stack held before; the handle keeps its
      tree and can be searched again. */
  method SearchTree(t: Tree2d, lo: MapPoint, hi: MapPoint) returns (found: seq<Annotation>, t2: Tree2d)
    requires WellFormed(t)
    ensures WellFormed(t2) && t2.size == t.size && Root(t2) == Root(t)
    ensures found == SearchFw(Root(t), lo, hi, X)
  {
    found, t2 := [], t;
    if t.size == 0 {
      return;
    }
    var nodes, count := t.nodes, t.size;
    var stack := Reset(t.stack);
    stack := Push(stack, None);
    var top: Option<SearchEntry> := Some(SearchEntry(0, X, 0));
    SearchInit(nodes, lo, hi);
    assert stack.items + [top] == [None, Some(SearchEntry(0, X, 0))];
    while top.Some?
      invariant Valid(stack) && stack.capacity == count
      invariant SearchInv(nodes, count, stack.items + [top])
      invariant found + Remaining(nodes, stack.items + [top], lo, hi) == SearchFw(Root(t), lo, hi, X)
      decreases Load(nodes, stack.items + [top])
    {
      stack, top, found := Visit(nodes, count, stack, top.value, found, lo, hi);
    }
    SearchDone(nodes, count, stack.items + [top], lo, hi);
    t2 := Tree2d(t.size, t.nodes, stack);
  }

  /** Building a handle from distinct annotations and querying it reports
      every annotation in the closed rectangle exactly once and nothing
      else. */
  method CreateAndSearch(xs: seq<Annotation>, ys: seq<Annotation>, lo: MapPoint, hi: MapPoint)
    returns (found: seq<Annotation>)
    requires |xs| <= KdTreeBuild.MaxFrameCount && ValidFrame(Frame(xs, ys, 0))
    ensures forall a :: multiset(found)[a] == if a in xs && InRect(a.point, lo, hi) then 1 else 0
  {
    var t := CreateTree(xs, ys);
    var t2;
    found, t2 := SearchTree(t, lo, hi);
    var f := Frame(xs, ys, 0);
    assert AxisAtLevel(0) == X;
    SearchFwAgrees(Build(f), lo, hi, X);
    forall a ensures multiset(found)[a] == if a in xs && InRect(a.point, lo, hi) then 1 else 0 {
      RangeQueryExact(f, lo, hi, a);
    }
  }
}
