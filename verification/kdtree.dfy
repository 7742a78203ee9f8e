/** The 2-d tree of the annotation index: what a build produces from points
    sorted on both axes, and the recursive range query over it. The iterative
    build and search that the library actually runs are modelled in
    `KdTreeBuild` and `Tree2d` and proved equal to the definitions
    here. */
module KdTree {
  import opened Geometry
  import opened Seqs

  /** An annotation with its projected map point. `id` stands for object
      identity: two annotations are `isEqual:` exactly when their ids are. */
  datatype Annotation = Annotation(id: nat, point: MapPoint)

  function CoordOf(a: Annotation, axis: Axis): int
  {
    Coord(a.point, axis)
  }

  predicate SortedOn(s: seq<Annotation>, axis: Axis)
  {
    forall i, j :: 0 <= i < j < |s| ==> CoordOf(s[i], axis) <= CoordOf(s[j], axis)
  }

  predicate DistinctIds(s: seq<Annotation>)
  {
    forall i, j :: 0 <= i < j < |s| ==> s[i].id != s[j].id
  }

  /** The annotations one build step works on: the same annotations sorted on
      the level's splitting axis (`cur`) and on the complementary axis
      (`comp`). */
  datatype Frame = Frame(cur: seq<Annotation>, comp: seq<Annotation>, level: nat)

  predicate ValidFrame(f: Frame)
  {
    && SortedOn(f.cur, AxisAtLevel(f.level))
    && SortedOn(f.comp, Complement(AxisAtLevel(f.level)))
    && multiset(f.cur) == multiset(f.comp)
    && DistinctIds(f.cur)
    && DistinctIds(f.comp)
  }

  /** Walks from index `i` towards the front while the previous element has
      the same coordinate. */
  function TieWalk(s: seq<Annotation>, axis: Axis, i: nat): (m: nat)
    requires i < |s|
    ensures m <= i
    ensures forall k :: m <= k <= i ==> CoordOf(s[k], axis) == CoordOf(s[i], axis)
    ensures m == 0 || CoordOf(s[m - 1], axis) != CoordOf(s[m], axis)
    decreases i
  {
    if i > 0 && CoordOf(s[i - 1], axis) == CoordOf(s[i], axis) then TieWalk(s, axis, i - 1) else i
  }

  /** The median position: `count >> 1`, moved to the front of its run of
      equal coordinates. */
  function MedianIndex(s: seq<Annotation>, axis: Axis): (m: nat)
    requires |s| > 0 && SortedOn(s, axis)
    ensures m <= |s| / 2
    ensures forall k :: 0 <= k < m ==> CoordOf(s[k], axis) < CoordOf(s[m], axis)
    ensures forall k :: m <= k < |s| ==> CoordOf(s[m], axis) <= CoordOf(s[k], axis)
    ensures m == 0 <==> CoordOf(s[0], axis) == CoordOf(s[|s| / 2], axis)
    ensures CoordOf(s[m], axis) == CoordOf(s[|s| / 2], axis)
  {
    var m := TieWalk(s, axis, |s| / 2);
    assert m > 0 ==> CoordOf(s[m - 1], axis) < CoordOf(s[m], axis);
    m
  }

  /** Which half of a split an annotation is sent to. */
  datatype Side = Below | AtOrAbove

  /** The partition test of one step: the median itself (recognised by
      identity) goes nowhere, the others go below or at-or-above `split`. */
  predicate GoesTo(a: Annotation, skip: nat, axis: Axis, split: int, side: Side)
  {
    a.id != skip && (if side == Below then CoordOf(a, axis) < split else CoordOf(a, axis) >= split)
  }

  /** The stable partition: the annotations of `s` sent to `side`, in the order
      of `s`. */
  function Partition(s: seq<Annotation>, skip: nat, axis: Axis, split: int, side: Side): seq<Annotation>
  {
    Filter(s, Sends(skip, axis, split, side))
  }

  function Sends(skip: nat, axis: Axis, split: int, side: Side): Annotation -> bool
  {
    a => GoesTo(a, skip, axis, split, side)
  }

  lemma {:induction false} FilterSorted(s: seq<Annotation>, keep: Annotation -> bool, axis: Axis)
    requires SortedOn(s, axis)
    ensures SortedOn(Filter(s, keep), axis)
  {
    if |s| > 0 {
      FilterSorted(s[1..], keep, axis);
      var rest := Filter(s[1..], keep);
      forall k | 0 <= k < |rest|
        ensures CoordOf(s[0], axis) <= CoordOf(rest[k], axis)
      {
        FilterMembership(s[1..], keep, rest[k]);
        var j :| 0 <= j < |s[1..]| && s[1..][j] == rest[k];
        assert s[j + 1] == rest[k];
      }
    }
  }

  lemma {:induction false} FilterDistinct(s: seq<Annotation>, keep: Annotation -> bool)
    requires DistinctIds(s)
    ensures DistinctIds(Filter(s, keep))
  {
    if |s| > 0 {
      FilterDistinct(s[1..], keep);
      var rest := Filter(s[1..], keep);
      forall k | 0 <= k < |rest|
        ensures s[0].id != rest[k].id
      {
        FilterMembership(s[1..], keep, rest[k]);
        var j :| 0 <= j < |s[1..]| && s[1..][j] == rest[k];
        assert s[j + 1] == rest[k];
      }
    }
  }

  /** The conditions on `m` that a median index meets: everything before it
      lies strictly below `s[m]`, everything from it on at or above. */
  predicate SplitsAt(s: seq<Annotation>, m: nat, ax: Axis)
    requires m < |s|
  {
    && (forall k :: 0 <= k < m ==> CoordOf(s[k], ax) < CoordOf(s[m], ax))
    && (forall k :: m <= k < |s| ==> CoordOf(s[m], ax) <= CoordOf(s[k], ax))
  }

  /** In a sequence split at `m`, the annotations sent below the split are
      exactly the prefix before `m`. */
  lemma PartitionBelowIsPrefix(s: seq<Annotation>, m: nat, ax: Axis)
    requires m < |s| && DistinctIds(s) && SplitsAt(s, m, ax)
    ensures Filter(s, Sends(s[m].id, ax, CoordOf(s[m], ax), Below)) == s[..m]
  {
    var keep := Sends(s[m].id, ax, CoordOf(s[m], ax), Below);
    FilterSplit(s, m, keep);
    BelowKeepsPrefix(s, m, ax);
    BelowDropsSuffix(s, m, ax);
  }

  lemma BelowKeepsPrefix(s: seq<Annotation>, m: nat, ax: Axis)
    requires m < |s| && DistinctIds(s) && SplitsAt(s, m, ax)
    ensures Filter(s[..m], Sends(s[m].id, ax, CoordOf(s[m], ax), Below)) == s[..m]
  {
    var keep := Sends(s[m].id, ax, CoordOf(s[m], ax), Below);
    forall i | 0 <= i < m ensures keep(s[i]) {
      assert s[i].id != s[m].id;
    }
    FilterPrefixAll(s, m, keep);
  }

  lemma BelowDropsSuffix(s: seq<Annotation>, m: nat, ax: Axis)
    requires m < |s| && SplitsAt(s, m, ax)
    ensures Filter(s[m..], Sends(s[m].id, ax, CoordOf(s[m], ax), Below)) == []
  {
    var keep := Sends(s[m].id, ax, CoordOf(s[m], ax), Below);
    forall i | m <= i < |s| ensures !keep(s[i]) {
      assert CoordOf(s[m], ax) <= CoordOf(s[i], ax);
    }
    FilterSuffixNone(s, m, keep);
  }

  /** Likewise the annotations sent at or above the split are exactly the
      suffix after `m`. */
  lemma PartitionAboveIsSuffix(s: seq<Annotation>, m: nat, ax: Axis)
    requires m < |s| && DistinctIds(s) && SplitsAt(s, m, ax)
    ensures Filter(s, Sends(s[m].id, ax, CoordOf(s[m], ax), AtOrAbove)) == s[m + 1..]
  {
    var keep := Sends(s[m].id, ax, CoordOf(s[m], ax), AtOrAbove);
    FilterSplit(s, m + 1, keep);
    AboveDropsPrefix(s, m, ax);
    AboveKeepsSuffix(s, m, ax);
  }

  lemma AboveDropsPrefix(s: seq<Annotation>, m: nat, ax: Axis)
    requires m < |s| && SplitsAt(s, m, ax)
    ensures Filter(s[..m + 1], Sends(s[m].id, ax, CoordOf(s[m], ax), AtOrAbove)) == []
  {
    var keep := Sends(s[m].id, ax, CoordOf(s[m], ax), AtOrAbove);
    forall i | 0 <= i < m + 1 ensures !keep(s[i]) {
      if i < m {
        assert CoordOf(s[i], ax) < CoordOf(s[m], ax);
      }
    }
    FilterPrefixNone(s, m + 1, keep);
  }

  lemma AboveKeepsSuffix(s: seq<Annotation>, m: nat, ax: Axis)
    requires m < |s| && DistinctIds(s) && SplitsAt(s, m, ax)
    ensures Filter(s[m + 1..], Sends(s[m].id, ax, CoordOf(s[m], ax), AtOrAbove)) == s[m + 1..]
  {
    var keep := Sends(s[m].id, ax, CoordOf(s[m], ax), AtOrAbove);
    forall i | m + 1 <= i < |s| ensures keep(s[i]) {
      assert s[i].id != s[m].id;
      assert CoordOf(s[m], ax) <= CoordOf(s[i], ax);
    }
    FilterSuffixAll(s, m + 1, keep);
  }

  /** The median annotation of a non-empty frame: the annotation its node gets. */
  function Median(f: Frame): Annotation
    requires ValidFrame(f) && |f.cur| > 0
  {
    f.cur[MedianIndex(f.cur, AxisAtLevel(f.level))]
  }

  /** The splitting coordinate of a non-empty frame. */
  function SplitValue(f: Frame): int
    requires ValidFrame(f) && |f.cur| > 0
  {
    CoordOf(Median(f), AxisAtLevel(f.level))
  }

  lemma ChildSorting(f: Frame)
    ensures AxisAtLevel(f.level + 1) == Complement(AxisAtLevel(f.level))
    ensures Complement(AxisAtLevel(f.level + 1)) == AxisAtLevel(f.level)
  {
    AxisAlternates(f.level);
  }

  lemma SliceSorted(s: seq<Annotation>, lo: nat, hi: nat, axis: Axis)
    requires SortedOn(s, axis) && lo <= hi <= |s|
    ensures SortedOn(s[lo..hi], axis)
  {
    var t := s[lo..hi];
    forall i, j | 0 <= i < j < |t|
      ensures CoordOf(t[i], axis) <= CoordOf(t[j], axis)
    {
      assert t[i] == s[lo + i] && t[j] == s[lo + j];
    }
  }

  lemma SliceDistinct(s: seq<Annotation>, lo: nat, hi: nat)
    requires DistinctIds(s) && lo <= hi <= |s|
    ensures DistinctIds(s[lo..hi])
  {
    var t := s[lo..hi];
    forall i, j | 0 <= i < j < |t|
      ensures t[i].id != t[j].id
    {
      assert t[i] == s[lo + i] && t[j] == s[lo + j];
    }
  }

  /** The facts about one child frame built from a partition side and a
      slice of the current-axis order holding the same annotations. */
  lemma ChildFrameValid(f: Frame, keep: Annotation -> bool, lo: nat, hi: nat, slice: seq<Annotation>)
    requires ValidFrame(f) && lo <= hi <= |f.cur| && slice == f.cur[lo..hi]
    requires Filter(f.cur, keep) == slice
    ensures ValidFrame(Frame(Filter(f.comp, keep), slice, f.level + 1))
    ensures |Filter(f.comp, keep)| == |slice|
  {
    var ax := AxisAtLevel(f.level);
    var part := Filter(f.comp, keep);
    ChildSorting(f);
    assert SortedOn(part, AxisAtLevel(f.level + 1)) by {
      FilterSorted(f.comp, keep, Complement(ax));
    }
    assert SortedOn(f.cur[lo..hi], Complement(AxisAtLevel(f.level + 1))) by {
      SliceSorted(f.cur, lo, hi, ax);
    }
    assert multiset(part) == multiset(f.cur[lo..hi]) by {
      FilterPermutation(f.comp, f.cur, keep);
    }
    assert DistinctIds(part) by {
      FilterDistinct(f.comp, keep);
    }
    assert DistinctIds(f.cur[lo..hi]) by {
      SliceDistinct(f.cur, lo, hi);
    }
    assert |part| == |multiset(part)| == |multiset(f.cur[lo..hi])|;
  }

  /** The frame of the left child: the annotations below the split, taken
      from the complementary-axis order (now the current axis) and from the
      front of the current-axis order (now the complementary axis). */
  function LeftFrame(f: Frame): (c: Frame)
    requires ValidFrame(f) && |f.cur| > 0
    ensures c.level == f.level + 1
    ensures |c.cur| == MedianIndex(f.cur, AxisAtLevel(f.level))
  {
    var ax := AxisAtLevel(f.level);
    var m := MedianIndex(f.cur, ax);
    var med := f.cur[m];
    PartitionBelowIsPrefix(f.cur, m, ax);
    ChildFrameValid(f, Sends(med.id, ax, CoordOf(med, ax), Below), 0, m, f.cur[..m]);
    Frame(Partition(f.comp, med.id, ax, CoordOf(med, ax), Below), f.cur[..m], f.level + 1)
  }

  lemma SuffixIsSlice(s: seq<Annotation>, k: nat)
    requires k <= |s|
    ensures s[k..] == s[k..|s|]
  {
  }

  /** The frame of the right child: the annotations at or above the split other
      than the median. */
  function RightFrame(f: Frame): (c: Frame)
    requires ValidFrame(f) && |f.cur| > 0
    ensures c.level == f.level + 1
    ensures |c.cur| == |f.cur| - MedianIndex(f.cur, AxisAtLevel(f.level)) - 1
  {
    var ax := AxisAtLevel(f.level);
    var m := MedianIndex(f.cur, ax);
    var med := f.cur[m];
    PartitionAboveIsSuffix(f.cur, m, ax);
    SuffixIsSlice(f.cur, m + 1);
    ChildFrameValid(f, Sends(med.id, ax, CoordOf(med, ax), AtOrAbove), m + 1, |f.cur|, f.cur[m + 1..]);
    Frame(Partition(f.comp, med.id, ax, CoordOf(med, ax), AtOrAbove), f.cur[m + 1..], f.level + 1)
  }

  /** The left child frame is a frame again, holding the annotations before
      the median. */
  lemma LeftFrameValid(f: Frame)
    requires ValidFrame(f) && |f.cur| > 0
    ensures ValidFrame(LeftFrame(f))
  {
    var ax := AxisAtLevel(f.level);
    var m := MedianIndex(f.cur, ax);
    var med := f.cur[m];
    var keep := Sends(med.id, ax, CoordOf(med, ax), Below);
    var front := f.cur[..m];
    assert Filter(f.cur, keep) == front by {
      PartitionBelowIsPrefix(f.cur, m, ax);
    }
    assert LeftFrame(f) == Frame(Filter(f.comp, keep), front, f.level + 1);
    ChildFrameValid(f, keep, 0, m, front);
  }

  /** The right child frame is a frame again, holding the annotations after
      the median. */
  lemma RightFrameValid(f: Frame)
    requires ValidFrame(f) && |f.cur| > 0
    ensures ValidFrame(RightFrame(f))
  {
    var ax := AxisAtLevel(f.level);
    var m := MedianIndex(f.cur, ax);
    var med := f.cur[m];
    var keep := Sends(med.id, ax, CoordOf(med, ax), AtOrAbove);
    var back := f.cur[m + 1..];
    assert Filter(f.cur, keep) == back && back == f.cur[m + 1..|f.cur|] by {
      PartitionAboveIsSuffix(f.cur, m, ax);
      SuffixIsSlice(f.cur, m + 1);
    }
    assert RightFrame(f) == Frame(Filter(f.comp, keep), back, f.level + 1);
    ChildFrameValid(f, keep, m + 1, |f.cur|, back);
  }

  /** Both child frames are frames again. */
  lemma ChildFramesValid(f: Frame)
    requires ValidFrame(f) && |f.cur| > 0
    ensures ValidFrame(LeftFrame(f)) && ValidFrame(RightFrame(f))
  {
    LeftFrameValid(f);
    RightFrameValid(f);
  }

  /** A tree node holds one annotation; `Nil` is a NULL child. */
  datatype Tree = Nil | Node(annotation: Annotation, left: Tree, right: Tree)

  /** The annotations of a tree, node before left subtree before right
      subtree. */
  function Preorder(t: Tree): (s: seq<Annotation>)
    ensures |s| == Size(t)
  {
    match t
    case Nil => []
    case Node(a, l, r) => [a] + Preorder(l) + Preorder(r)
  }

  function Size(t: Tree): nat
  {
    match t
    case Nil => 0
    case Node(_, l, r) => 1 + Size(l) + Size(r)
  }

  predicate AllBelow(s: seq<Annotation>, axis: Axis, v: int)
  {
    forall i :: 0 <= i < |s| ==> CoordOf(s[i], axis) < v
  }

  predicate AllAtOrAbove(s: seq<Annotation>, axis: Axis, v: int)
  {
    forall i :: 0 <= i < |s| ==> CoordOf(s[i], axis) >= v
  }

  /** The 2-d tree invariant: on the node's axis, the left subtree lies
      strictly below the node and the right subtree at or above it; the
      children split on the complementary axis. */
  predicate KdOrdered(t: Tree, axis: Axis)
  {
    match t
    case Nil => true
    case Node(a, l, r) =>
      && AllBelow(Preorder(l), axis, CoordOf(a, axis))
      && AllAtOrAbove(Preorder(r), axis, CoordOf(a, axis))
      && KdOrdered(l, Complement(axis))
      && KdOrdered(r, Complement(axis))
  }

  lemma BoundsByMultiset(s: seq<Annotation>, t: seq<Annotation>, axis: Axis, v: int)
    requires multiset(s) == multiset(t)
    ensures AllBelow(t, axis, v) ==> AllBelow(s, axis, v)
    ensures AllAtOrAbove(t, axis, v) ==> AllAtOrAbove(s, axis, v)
  {
    forall i | 0 <= i < |s|
      ensures s[i] in t
    {
      assert s[i] in multiset(s);
    }
  }

  lemma MultisetConcat3(a: seq<Annotation>, b: seq<Annotation>, c: seq<Annotation>)
    ensures multiset(a + b + c) == multiset(a) + multiset(b) + multiset(c)
  {
  }

  lemma MultisetOfNode(a: Annotation, lt: Tree, rt: Tree)
    ensures multiset(Preorder(Node(a, lt, rt)))
            == multiset([a]) + multiset(Preorder(lt)) + multiset(Preorder(rt))
  {
    MultisetConcat3([a], Preorder(lt), Preorder(rt));
  }

  /** The median and the two child frames hold exactly the frame's
      annotations. */
  lemma ChildrenCover(f: Frame)
    requires ValidFrame(f) && |f.cur| > 0
    ensures multiset([Median(f)]) + multiset(LeftFrame(f).cur) + multiset(RightFrame(f).cur) == multiset(f.cur)
  {
    var l := LeftFrame(f);
    var r := RightFrame(f);
    assert f.cur == l.comp + [Median(f)] + r.comp by {
      CurAroundMedian(f);
    }
    MultisetConcat3(l.comp, [Median(f)], r.comp);
    ChildFramesValid(f);
  }

  /** In the current-axis order, the left child's annotations come before the
      median and the right child's after it. */
  lemma CurAroundMedian(f: Frame)
    requires ValidFrame(f) && |f.cur| > 0
    ensures f.cur == LeftFrame(f).comp + [Median(f)] + RightFrame(f).comp
  {
    var m := MedianIndex(f.cur, AxisAtLevel(f.level));
    AroundIndex(f.cur, m);
  }

  lemma AroundIndex(s: seq<Annotation>, m: nat)
    requires m < |s|
    ensures s == s[..m] + [s[m]] + s[m + 1..]
  {
    assert s[m..] == [s[m]] + s[m + 1..];
    assert s == s[..m] + s[m..];
  }

  /** On the frame's axis the left child frame lies strictly below the
      split. */
  lemma LeftBelow(f: Frame)
    requires ValidFrame(f) && |f.cur| > 0
    ensures AllBelow(LeftFrame(f).cur, AxisAtLevel(f.level), SplitValue(f))
  {
    var ax := AxisAtLevel(f.level);
    var med := Median(f);
    var below := Sends(med.id, ax, CoordOf(med, ax), Below);
    var l := LeftFrame(f).cur;
    assert l == Filter(f.comp, below);
    forall i | 0 <= i < |l| ensures CoordOf(l[i], ax) < SplitValue(f) {
      FilterMembership(f.comp, below, l[i]);
    }
  }

  /** On the frame's axis the right child frame lies at or above the
      split. */
  lemma RightAtOrAbove(f: Frame)
    requires ValidFrame(f) && |f.cur| > 0
    ensures AllAtOrAbove(RightFrame(f).cur, AxisAtLevel(f.level), SplitValue(f))
  {
    var ax := AxisAtLevel(f.level);
    var med := Median(f);
    var above := Sends(med.id, ax, CoordOf(med, ax), AtOrAbove);
    var r := RightFrame(f).cur;
    assert r == Filter(f.comp, above);
    forall i | 0 <= i < |r| ensures CoordOf(r[i], ax) >= SplitValue(f) {
      FilterMembership(f.comp, above, r[i]);
    }
  }

  lemma KdOrderedNode(a: Annotation, lt: Tree, rt: Tree, ax: Axis)
    requires AllBelow(Preorder(lt), ax, CoordOf(a, ax))
    requires AllAtOrAbove(Preorder(rt), ax, CoordOf(a, ax))
    requires KdOrdered(lt, Complement(ax)) && KdOrdered(rt, Complement(ax))
    ensures KdOrdered(Node(a, lt, rt), ax)
  {
  }

  /** One build step: given 2-d ordered trees holding the annotations of the
      two child frames, the node holding the median holds the whole frame
      and is 2-d ordered on the frame's axis. */
  lemma BuildFrameStep(f: Frame, lt: Tree, rt: Tree)
    requires ValidFrame(f) && |f.cur| > 0
    requires multiset(Preorder(lt)) == multiset(LeftFrame(f).cur)
    requires multiset(Preorder(rt)) == multiset(RightFrame(f).cur)
    requires KdOrdered(lt, AxisAtLevel(LeftFrame(f).level)) && KdOrdered(rt, AxisAtLevel(RightFrame(f).level))
    ensures multiset(Preorder(Node(Median(f), lt, rt))) == multiset(f.cur)
    ensures Size(Node(Median(f), lt, rt)) == |f.cur|
    ensures KdOrdered(Node(Median(f), lt, rt), AxisAtLevel(f.level))
  {
    var ax := AxisAtLevel(f.level);
    var whole := Preorder(Node(Median(f), lt, rt));
    assert multiset(whole) == multiset(f.cur) by {
      MultisetOfNode(Median(f), lt, rt);
      ChildrenCover(f);
    }
    assert |whole| == |multiset(whole)| == |multiset(f.cur)| == |f.cur|;
    assert AllBelow(Preorder(lt), ax, SplitValue(f)) by {
      LeftBelow(f);
      BoundsByMultiset(Preorder(lt), LeftFrame(f).cur, ax, SplitValue(f));
    }
    assert AllAtOrAbove(Preorder(rt), ax, SplitValue(f)) by {
      RightAtOrAbove(f);
      BoundsByMultiset(Preorder(rt), RightFrame(f).cur, ax, SplitValue(f));
    }
    AxisAlternates(f.level);
    KdOrderedNode(Median(f), lt, rt, ax);
  }

  /** The tree a build produces for a frame: the median at the node, the
      annotations below the split in the left subtree and the rest in the
      right subtree, the children splitting on the complementary axis. */
  function Build(f: Frame): (t: Tree)
    requires ValidFrame(f)
    ensures multiset(Preorder(t)) == multiset(f.cur)
    ensures Size(t) == |f.cur|
    ensures KdOrdered(t, AxisAtLevel(f.level))
    decreases |f.cur|
  {
    if |f.cur| == 0 then Nil
    else
      ChildFramesValid(f);
      var lt := Build(LeftFrame(f));
      var rt := Build(RightFrame(f));
      BuildFrameStep(f, lt, rt);
      Node(Median(f), lt, rt)
  }

  /** A non-empty frame builds a node over its two child frames' trees. */
  lemma BuildUnfold(f: Frame)
    requires ValidFrame(f) && |f.cur| > 0
    requires ValidFrame(LeftFrame(f)) && ValidFrame(RightFrame(f))
    ensures Build(f) == Node(Median(f), Build(LeftFrame(f)), Build(RightFrame(f)))
  {
  }

  /** Closed-rectangle containment, inclusive on both axes. */
  predicate InRect(p: MapPoint, lo: MapPoint, hi: MapPoint)
  {
    lo.x <= p.x && lo.y <= p.y && p.x <= hi.x && p.y <= hi.y
  }

  function Inside(lo: MapPoint, hi: MapPoint): Annotation -> bool
  {
    (a: Annotation) => InRect(a.point, lo, hi)
  }

  /** The reference answer of a range query: the annotations of `s` inside
      the rectangle, in the order of `s`. */
  function Scan(s: seq<Annotation>, lo: MapPoint, hi: MapPoint): seq<Annotation>
  {
    Filter(s, Inside(lo, hi))
  }

  /** The recursive range query: report the node when it lies in the
      rectangle, then descend only into the left subtree when the rectangle
      lies wholly below the node on its axis, only into the right subtree when
      it lies wholly at or above, and into both otherwise. */
  function Search(t: Tree, lo: MapPoint, hi: MapPoint, axis: Axis): (r: seq<Annotation>)
    ensures forall i :: 0 <= i < |r| ==> InRect(r[i].point, lo, hi) && r[i] in Preorder(t)
    ensures |r| <= Size(t)
  {
    match t
    case Nil => []
    case Node(a, l, rt) =>
      var here := if InRect(a.point, lo, hi) then [a] else [];
      var v := CoordOf(a, axis);
      var c := Complement(axis);
      if Coord(hi, axis) < v then here + Search(l, lo, hi, c)
      else if Coord(lo, axis) >= v then here + Search(rt, lo, hi, c)
      else here + Search(l, lo, hi, c) + Search(rt, lo, hi, c)
  }

  lemma ScanNode(a: Annotation, l: Tree, r: Tree, lo: MapPoint, hi: MapPoint)
    ensures Scan(Preorder(Node(a, l, r)), lo, hi)
            == (if InRect(a.point, lo, hi) then [a] else [])
               + Scan(Preorder(l), lo, hi) + Scan(Preorder(r), lo, hi)
  {
    FilterAppend([a] + Preorder(l), Preorder(r), Inside(lo, hi));
    FilterAppend([a], Preorder(l), Inside(lo, hi));
  }

  /** Nothing of a subtree lying wholly above the rectangle's far edge is
      inside it. */
  lemma ScanAboveIsEmpty(s: seq<Annotation>, lo: MapPoint, hi: MapPoint, axis: Axis, v: int)
    requires AllAtOrAbove(s, axis, v) && Coord(hi, axis) < v
    ensures Scan(s, lo, hi) == []
  {
    forall i | 0 <= i < |s| ensures !Inside(lo, hi)(s[i]) {
      assert Coord(s[i].point, axis) > Coord(hi, axis);
    }
    FilterKeepsNone(s, Inside(lo, hi));
  }

  /** Nothing of a subtree lying wholly below the rectangle's near edge is
      inside it. */
  lemma ScanBelowIsEmpty(s: seq<Annotation>, lo: MapPoint, hi: MapPoint, axis: Axis, v: int)
    requires AllBelow(s, axis, v) && Coord(lo, axis) >= v
    ensures Scan(s, lo, hi) == []
  {
    forall i | 0 <= i < |s| ensures !Inside(lo, hi)(s[i]) {
      assert Coord(s[i].point, axis) < Coord(lo, axis);
    }
    FilterKeepsNone(s, Inside(lo, hi));
  }

  /** One node of the query: with both subtrees answering as the scan does,
      so does the node. */
  lemma SearchNodeStep(a: Annotation, l: Tree, r: Tree, lo: MapPoint, hi: MapPoint, axis: Axis)
    requires AllBelow(Preorder(l), axis, CoordOf(a, axis))
    requires AllAtOrAbove(Preorder(r), axis, CoordOf(a, axis))
    requires Search(l, lo, hi, Complement(axis)) == Scan(Preorder(l), lo, hi)
    requires Search(r, lo, hi, Complement(axis)) == Scan(Preorder(r), lo, hi)
    ensures Search(Node(a, l, r), lo, hi, axis) == Scan(Preorder(Node(a, l, r)), lo, hi)
  {
    ScanNode(a, l, r, lo, hi);
    var v := CoordOf(a, axis);
    if Coord(hi, axis) < v {
      ScanAboveIsEmpty(Preorder(r), lo, hi, axis, v);
      SearchBelowOnly(a, l, r, lo, hi, axis);
    } else if Coord(lo, axis) >= v {
      ScanBelowIsEmpty(Preorder(l), lo, hi, axis, v);
      SearchAboveOnly(a, l, r, lo, hi, axis);
    } else {
      SearchBothSides(a, l, r, lo, hi, axis);
    }
  }

  /** The node's report, then the reports of the subtrees it descends
      into, in each of the three cases of the query. */
  lemma SearchBelowOnly(a: Annotation, l: Tree, r: Tree, lo: MapPoint, hi: MapPoint, axis: Axis)
    requires Coord(hi, axis) < CoordOf(a, axis)
    requires Scan(Preorder(r), lo, hi) == []
    ensures Search(Node(a, l, r), lo, hi, axis)
            == (if InRect(a.point, lo, hi) then [a] else [])
               + Search(l, lo, hi, Complement(axis)) + Scan(Preorder(r), lo, hi)
  {
    var here := if InRect(a.point, lo, hi) then [a] else [];
    var below := Search(l, lo, hi, Complement(axis));
    assert Search(Node(a, l, r), lo, hi, axis) == here + below;
    AppendEmpty(here + below);
  }

  lemma SearchAboveOnly(a: Annotation, l: Tree, r: Tree, lo: MapPoint, hi: MapPoint, axis: Axis)
    requires Coord(lo, axis) >= CoordOf(a, axis) && Coord(hi, axis) >= CoordOf(a, axis)
    requires Scan(Preorder(l), lo, hi) == []
    ensures Search(Node(a, l, r), lo, hi, axis)
            == (if InRect(a.point, lo, hi) then [a] else [])
               + Scan(Preorder(l), lo, hi) + Search(r, lo, hi, Complement(axis))
  {
    var here := if InRect(a.point, lo, hi) then [a] else [];
    var above := Search(r, lo, hi, Complement(axis));
    assert Search(Node(a, l, r), lo, hi, axis) == here + above;
    AppendEmpty(here);
  }

  lemma AppendEmpty(s: seq<Annotation>)
    ensures s + [] == s
  {
  }

  lemma SearchBothSides(a: Annotation, l: Tree, r: Tree, lo: MapPoint, hi: MapPoint, axis: Axis)
    requires Coord(lo, axis) < CoordOf(a, axis) <= Coord(hi, axis)
    ensures Search(Node(a, l, r), lo, hi, axis)
            == (if InRect(a.point, lo, hi) then [a] else [])
               + Search(l, lo, hi, Complement(axis)) + Search(r, lo, hi, Complement(axis))
  {
  }

  /** The pruning rules only skip subtrees that cannot hold a match: on a
      2-d ordered tree the query returns exactly the annotations inside the
      rectangle, in pre-order. */
  lemma {:induction false} SearchMatchesScan(t: Tree, lo: MapPoint, hi: MapPoint, axis: Axis)
    requires KdOrdered(t, axis)
    ensures Search(t, lo, hi, axis) == Scan(Preorder(t), lo, hi)
  {
    match t
    case Nil =>
    case Node(a, l, r) =>
      SearchMatchesScan(l, lo, hi, Complement(axis));
      SearchMatchesScan(r, lo, hi, Complement(axis));
      SearchNodeStep(a, l, r, lo, hi, axis);
  }

  /** An annotation is reported exactly when it is stored in the tree and
      lies inside the rectangle. */
  lemma SearchMembership(t: Tree, lo: MapPoint, hi: MapPoint, axis: Axis, a: Annotation)
    requires KdOrdered(t, axis)
    ensures a in Search(t, lo, hi, axis) <==> a in Preorder(t) && InRect(a.point, lo, hi)
  {
    SearchMatchesScan(t, lo, hi, axis);
    FilterMembership(Preorder(t), Inside(lo, hi), a);
  }

  /** In a sequence of distinct annotations each occurs at most once. */
  lemma {:induction false} DistinctMultiplicity(s: seq<Annotation>, a: Annotation)
    requires DistinctIds(s)
    ensures multiset(s)[a] == if a in s then 1 else 0
  {
    if |s| > 0 {
      var t := s[1..];
      assert DistinctIds(t) by {
        forall i, j | 0 <= i < j < |t| ensures t[i].id != t[j].id {
          assert t[i] == s[i + 1] && t[j] == s[j + 1];
        }
      }
      DistinctMultiplicity(t, a);
      assert s == [s[0]] + t;
      assert s[0] !in t by {
        forall k | 0 <= k < |t| ensures t[k] != s[0] {
          assert t[k] == s[k + 1];
        }
      }
    }
  }

  /** A range query over the tree built from a frame of distinct annotations
      reports every annotation of the frame that lies in the closed rectangle
      exactly once, and nothing else. */
  lemma RangeQueryExact(f: Frame, lo: MapPoint, hi: MapPoint, a: Annotation)
    requires ValidFrame(f)
    ensures multiset(Search(Build(f), lo, hi, AxisAtLevel(f.level)))[a]
            == if a in f.cur && InRect(a.point, lo, hi) then 1 else 0
  {
    var t := Build(f);
    SearchMatchesScan(t, lo, hi, AxisAtLevel(f.level));
    FilterPermutation(Preorder(t), f.cur, Inside(lo, hi));
    FilterDistinct(f.cur, Inside(lo, hi));
    DistinctMultiplicity(Scan(f.cur, lo, hi), a);
    FilterMembership(f.cur, Inside(lo, hi), a);
  }

  /** When every annotation of a frame has the same coordinate on the frame's
      axis, the tie walk reaches the front and the node gets no left child. */
  lemma TiedFrameHasNoLeftChild(f: Frame)
    requires ValidFrame(f) && |f.cur| > 0
    requires forall i :: 0 <= i < |f.cur| ==> CoordOf(f.cur[i], AxisAtLevel(f.level)) == CoordOf(f.cur[0], AxisAtLevel(f.level))
    ensures Build(f).left == Nil
  {
    assert MedianIndex(f.cur, AxisAtLevel(f.level)) == 0;
    assert |LeftFrame(f).cur| == 0;
    ChildFramesValid(f);
    BuildUnfold(f);
  }

  predicate NoLeftChildren(t: Tree)
  {
    match t
    case Nil => true
    case Node(_, l, r) => l == Nil && NoLeftChildren(r)
  }

  predicate AllAt(s: seq<Annotation>, p: MapPoint)
  {
    forall i :: 0 <= i < |s| ==> s[i].point == p
  }

  lemma AllAtByMultiset(s: seq<Annotation>, t: seq<Annotation>, p: MapPoint)
    requires multiset(s) == multiset(t) && AllAt(t, p)
    ensures AllAt(s, p)
  {
    forall i | 0 <= i < |s| ensures s[i].point == p {
      assert s[i] in multiset(t);
    }
  }

  lemma RightFrameAllAt(f: Frame, p: MapPoint)
    requires ValidFrame(f) && |f.cur| > 0 && AllAt(f.cur, p)
    ensures AllAt(RightFrame(f).cur, p)
  {
    var ax := AxisAtLevel(f.level);
    var med := Median(f);
    var above := Sends(med.id, ax, CoordOf(med, ax), AtOrAbove);
    var r := RightFrame(f).cur;
    assert r == Filter(f.comp, above);
    AllAtByMultiset(f.comp, f.cur, p);
    forall i | 0 <= i < |r| ensures r[i].point == p {
      FilterMembership(f.comp, above, r[i]);
    }
  }

  /** When all annotations share one map point, every split walks to the
      front: the tree is a chain of right children with no left child
      anywhere. */
  lemma {:induction false} CoincidentPointsHaveNoLeftChildren(f: Frame, p: MapPoint)
    requires ValidFrame(f) && AllAt(f.cur, p)
    ensures NoLeftChildren(Build(f))
    decreases |f.cur|
  {
    if |f.cur| > 0 {
      var rf := RightFrame(f);
      ChildFramesValid(f);
      BuildUnfold(f);
      assert Build(f).left == Nil by {
        var ax := AxisAtLevel(f.level);
        forall i | 0 <= i < |f.cur| ensures CoordOf(f.cur[i], ax) == CoordOf(f.cur[0], ax) {
          assert f.cur[i].point == p == f.cur[0].point;
        }
        TiedFrameHasNoLeftChild(f);
      }
      RightFrameAllAt(f, p);
      CoincidentPointsHaveNoLeftChildren(rf, p);
    }
  }
}
