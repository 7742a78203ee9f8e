/** The iterative tree build: one pass over an explicit stack of pending
    frames, filling a pool of nodes handed out in order. Proved to produce,
    read back from the pool, exactly the tree `KdTree.Build` defines. */
module KdTreeBuild {
  import opened Wrappers
  import opened Geometry
  import opened Seqs
  import opened KdTree
  import opened KpStack

  /** The tie walk as the build runs it: start at `count >> 1` and step
      towards the front while the previous element has the same coordinate. */
  method FindMedian(cur: seq<Annotation>, axis: Axis) returns (m: nat)
    requires |cur| > 0 && SortedOn(cur, axis)
    ensures m == MedianIndex(cur, axis)
    ensures m <= |cur| / 2
  {
    m := |cur| / 2;
    while m > 0 && CoordOf(cur[m - 1], axis) == CoordOf(cur[m], axis)
      invariant m <= |cur| / 2
      invariant TieWalk(cur, axis, m) == TieWalk(cur, axis, |cur| / 2)
      decreases m
    {
      m := m - 1;
    }
  }

  /** One backward pass over the complementary-axis order `comp`: every
      annotation except the median (`skip`) is copied, below the split to the
      back of the first `m` slots of `scratch`, at or above it to the back of
      `comp` itself. Writes into `comp` never overtake the read position. */
  method PartitionInPlace(comp: seq<Annotation>, scratch: seq<Annotation>, skip: nat,
                          axis: Axis, split: int, m: nat)
    returns (buf: seq<Annotation>, tmp: seq<Annotation>)
    requires |comp| > 0 && m <= |scratch|
    requires |Partition(comp, skip, axis, split, Below)| == m
    requires |Partition(comp, skip, axis, split, AtOrAbove)| == |comp| - m - 1
    ensures |buf| == |comp| && |tmp| == |scratch|
    ensures tmp[..m] == Partition(comp, skip, axis, split, Below)
    ensures buf[m + 1..] == Partition(comp, skip, axis, split, AtOrAbove)
  {
    buf, tmp := comp, scratch;
    var li: int := m - 1;
    var ri: int := |comp| - 1;
    var idx: nat := |comp|;
    assert PassTotals(comp, m, skip, axis, split);
    PassStart(comp, |scratch|, m, skip, axis, split, scratch);
    while idx > 0
      invariant PassInv(comp, |scratch|, m, skip, axis, split, buf, tmp, li, ri, idx)
      decreases idx
    {
      idx := idx - 1;
      buf, tmp, li, ri := PassStep(comp, |scratch|, m, skip, axis, split, buf, tmp, li, ri, idx);
    }
    PassEnd(comp, |scratch|, m, skip, axis, split, buf, tmp, li, ri);
  }

  /** One iteration of the pass: the annotation at `idx` is copied to the
      side the split sends it to, or skipped when it is the median. */
  method PassStep(comp: seq<Annotation>, scratchLen: nat, m: nat, skip: nat, axis: Axis, split: int,
                  buf: seq<Annotation>, tmp: seq<Annotation>, li: int, ri: int, idx: nat)
    returns (buf2: seq<Annotation>, tmp2: seq<Annotation>, li2: int, ri2: int)
    requires PassInv(comp, scratchLen, m, skip, axis, split, buf, tmp, li, ri, idx + 1)
    requires PassTotals(comp, m, skip, axis, split)
    ensures PassInv(comp, scratchLen, m, skip, axis, split, buf2, tmp2, li2, ri2, idx)
  {
    buf2, tmp2, li2, ri2 := buf, tmp, li, ri;
    PassRead(comp, scratchLen, m, skip, axis, split, buf, tmp, li, ri, idx);
    var a := buf[idx];
    if a.id != skip {
      if CoordOf(a, axis) < split {
        PassBelow(comp, scratchLen, m, skip, axis, split, buf, tmp, li, ri, idx);
        tmp2 := tmp[li := a];
        li2 := li - 1;
      } else {
        PassAbove(comp, scratchLen, m, skip, axis, split, buf, tmp, li, ri, idx);
        buf2 := buf[ri := a];
        ri2 := ri - 1;
      }
    } else {
      PassSkip(comp, scratchLen, m, skip, axis, split, buf, tmp, li, ri, idx);
    }
  }

  /** The state of the backward pass with everything from `idx` on read:
      the below part written at `tmp[li + 1..m]`, the at-or-above part at
      the back of `buf`, and `buf` untouched before `idx`. */
  predicate PassInv(comp: seq<Annotation>, scratchLen: nat, m: nat, skip: nat, axis: Axis, split: int,
                    buf: seq<Annotation>, tmp: seq<Annotation>, li: int, ri: int, idx: nat)
  {
    && idx <= |comp| && |buf| == |comp| && |tmp| == scratchLen && m <= scratchLen
    && li == m - 1 - |Filter(comp[idx..], Sends(skip, axis, split, Below))|
    && ri == |comp| - 1 - |Filter(comp[idx..], Sends(skip, axis, split, AtOrAbove))|
    && -1 <= li && idx - 1 <= ri
    && tmp[li + 1..m] == Filter(comp[idx..], Sends(skip, axis, split, Below))
    && buf[ri + 1..] == Filter(comp[idx..], Sends(skip, axis, split, AtOrAbove))
    && buf[..idx] == comp[..idx]
  }

  /** The totals the pass is given: the sizes of the two partition sides. */
  predicate PassTotals(comp: seq<Annotation>, m: nat, skip: nat, axis: Axis, split: int)
  {
    && |Filter(comp, Sends(skip, axis, split, Below))| == m
    && |Filter(comp, Sends(skip, axis, split, AtOrAbove))| == |comp| - m - 1
  }

  lemma PassStart(comp: seq<Annotation>, scratchLen: nat, m: nat, skip: nat, axis: Axis, split: int,
                  scratch: seq<Annotation>)
    requires m <= scratchLen == |scratch|
    ensures PassInv(comp, scratchLen, m, skip, axis, split, comp, scratch, m - 1, |comp| - 1, |comp|)
  {
    assert comp[|comp|..] == [];
  }

  lemma PassRead(comp: seq<Annotation>, scratchLen: nat, m: nat, skip: nat, axis: Axis, split: int,
                 buf: seq<Annotation>, tmp: seq<Annotation>, li: int, ri: int, idx: nat)
    requires PassInv(comp, scratchLen, m, skip, axis, split, buf, tmp, li, ri, idx + 1)
    ensures idx < |buf| && buf[idx] == comp[idx]
  {
    assert buf[..idx + 1][idx] == comp[..idx + 1][idx];
  }

  /** An annotation below the split goes to `tmp[li]`. */
  lemma PassBelow(comp: seq<Annotation>, scratchLen: nat, m: nat, skip: nat, axis: Axis, split: int,
                  buf: seq<Annotation>, tmp: seq<Annotation>, li: int, ri: int, idx: nat)
    requires PassInv(comp, scratchLen, m, skip, axis, split, buf, tmp, li, ri, idx + 1)
    requires PassTotals(comp, m, skip, axis, split)
    requires idx < |comp| && comp[idx].id != skip && CoordOf(comp[idx], axis) < split
    ensures 0 <= li < |tmp|
    ensures PassInv(comp, scratchLen, m, skip, axis, split, buf, tmp[li := comp[idx]], li - 1, ri, idx)
  {
    var below, above := Sends(skip, axis, split, Below), Sends(skip, axis, split, AtOrAbove);
    BackwardBounds(comp, idx, below, above, m);
    TakeStep(comp, idx, tmp, li, m, below);
    FilterCons(comp, idx, above);
    assert !above(comp[idx]);
    assert buf[..idx] == buf[..idx + 1][..idx];
  }

  /** An annotation at or above the split goes to `buf[ri]`, which lies at or
      after the read position. */
  lemma PassAbove(comp: seq<Annotation>, scratchLen: nat, m: nat, skip: nat, axis: Axis, split: int,
                  buf: seq<Annotation>, tmp: seq<Annotation>, li: int, ri: int, idx: nat)
    requires PassInv(comp, scratchLen, m, skip, axis, split, buf, tmp, li, ri, idx + 1)
    requires PassTotals(comp, m, skip, axis, split)
    requires idx < |comp| && comp[idx].id != skip && CoordOf(comp[idx], axis) >= split
    ensures idx <= ri < |buf|
    ensures PassInv(comp, scratchLen, m, skip, axis, split, buf[ri := comp[idx]], tmp, li, ri - 1, idx)
  {
    var below, above := Sends(skip, axis, split, Below), Sends(skip, axis, split, AtOrAbove);
    BackwardBounds(comp, idx, below, above, m);
    TakeStep(comp, idx, buf, ri, |buf|, above);
    FilterCons(comp, idx, below);
    assert !below(comp[idx]);
    PrefixAfterWrite(buf, ri, idx, comp[idx]);
    assert buf[..idx] == buf[..idx + 1][..idx];
  }

  /** The median itself is not copied. */
  lemma PassSkip(comp: seq<Annotation>, scratchLen: nat, m: nat, skip: nat, axis: Axis, split: int,
                 buf: seq<Annotation>, tmp: seq<Annotation>, li: int, ri: int, idx: nat)
    requires PassInv(comp, scratchLen, m, skip, axis, split, buf, tmp, li, ri, idx + 1)
    requires idx < |comp| && comp[idx].id == skip
    ensures PassInv(comp, scratchLen, m, skip, axis, split, buf, tmp, li, ri, idx)
  {
    var below, above := Sends(skip, axis, split, Below), Sends(skip, axis, split, AtOrAbove);
    FilterCons(comp, idx, below);
    FilterCons(comp, idx, above);
    assert !below(comp[idx]) && !above(comp[idx]);
    assert buf[..idx] == buf[..idx + 1][..idx];
  }

  lemma PassEnd(comp: seq<Annotation>, scratchLen: nat, m: nat, skip: nat, axis: Axis, split: int,
                buf: seq<Annotation>, tmp: seq<Annotation>, li: int, ri: int)
    requires PassInv(comp, scratchLen, m, skip, axis, split, buf, tmp, li, ri, 0)
    requires PassTotals(comp, m, skip, axis, split)
    ensures tmp[..m] == Partition(comp, skip, axis, split, Below)
    ensures buf[m + 1..] == Partition(comp, skip, axis, split, AtOrAbove)
  {
    assert comp[0..] == comp;
  }

  /** The partial counts of a backward pass never exceed the totals, so the
      write positions stay inside their buffers and behind the read
      position. */
  lemma BackwardBounds(comp: seq<Annotation>, idx: nat, below: Annotation -> bool,
                       above: Annotation -> bool, m: nat)
    requires idx < |comp|
    requires |Filter(comp, below)| == m
    requires |Filter(comp, above)| == |comp| - m - 1
    ensures |Filter(comp[idx..], below)| <= m
    ensures |Filter(comp[idx..], above)| <= |comp| - m - 1
    ensures |Filter(comp[idx..], above)| <= |comp| - idx
  {
    FilterSplit(comp, idx, below);
    FilterSplit(comp, idx, above);
  }

  /** A kept element read at `idx` and written just in front of the written
      tail `s[i + 1..hi]` extends the tail to the filter of `comp[idx..]`. */
  lemma TakeStep(comp: seq<Annotation>, idx: nat, s: seq<Annotation>, i: nat, hi: nat,
                 keep: Annotation -> bool)
    requires idx < |comp| && i < hi <= |s|
    requires keep(comp[idx])
    requires s[i + 1..hi] == Filter(comp[idx + 1..], keep)
    ensures s[i := comp[idx]][i..hi] == Filter(comp[idx..], keep)
  {
    FilterCons(comp, idx, keep);
    assert s[i := comp[idx]][i..hi] == [comp[idx]] + s[i + 1..hi];
  }

  lemma PrefixAfterWrite(s: seq<Annotation>, i: nat, idx: nat, a: Annotation)
    requires idx <= i < |s|
    ensures s[i := a][..idx] == s[..idx]
  {
  }

  /** A pool node: the annotation and the pool indices of the children
      (`None` for a NULL child). */
  datatype PoolNode = PoolNode(annotation: Annotation, left: Option<nat>, right: Option<nat>)

  /** A build stack entry: the frame, the temporary storage it may write its
      left part into, the pool index of its node and its slot in the frame
      storage. */
  datatype Info = Info(frame: Frame, scratch: seq<Annotation>, node: nat, slot: nat)

  predicate ChildIn(c: Option<nat>, k: nat, n: nat)
  {
    c.Some? ==> k < c.value < n
  }

  /** Every pool entry is filled and links only to later entries. */
  predicate Linked(pool: seq<Option<PoolNode>>)
  {
    forall k :: 0 <= k < |pool| ==>
      pool[k].Some? && ChildIn(pool[k].value.left, k, |pool|) && ChildIn(pool[k].value.right, k, |pool|)
  }

  /** The tree a pool holds below index `k`. */
  function Decode(pool: seq<Option<PoolNode>>, k: nat): (t: Tree)
    requires Linked(pool) && k < |pool|
    ensures t.Node? && t.annotation == pool[k].value.annotation
    decreases |pool| - k
  {
    var pn := pool[k].value;
    Node(pn.annotation,
         if pn.left.Some? then Decode(pool, pn.left.value) else Nil,
         if pn.right.Some? then Decode(pool, pn.right.value) else Nil)
  }

  predicate Pending(e: Option<Info>)
  {
    e.Some? && ValidFrame(e.value.frame) && |e.value.frame.cur| > 0
  }

  /** The sentinel at the bottom, pending frames above it. */
  predicate StackShape(items: seq<Option<Info>>)
  {
    |items| >= 1 && items[0] == None && forall i :: 1 <= i < |items| ==> Pending(items[i])
  }

  /** Pending entries higher on the stack have larger node indices and larger
      slots. */
  predicate Ascending(items: seq<Option<Info>>)
  {
    forall i, j :: 1 <= i < j < |items| && items[i].Some? && items[j].Some? ==>
      items[i].value.node < items[j].value.node && items[i].value.slot < items[j].value.slot
  }

  /** The number of annotations the pending frames still hold. */
  function Weight(items: seq<Option<Info>>): nat
  {
    if |items| == 0 then 0
    else Weight(items[..|items| - 1]) + (if items[|items| - 1].Some? then |items[|items| - 1].value.frame.cur| else 0)
  }

  function PendingNodes(items: seq<Option<Info>>): set<nat>
  {
    set i | 1 <= i < |items| && items[i].Some? :: items[i].value.node
  }

  predicate OwnedBy(info: Info, pool: seq<Option<PoolNode>>, owner: seq<Frame>, count: nat)
  {
    && info.node < |owner| && info.node < |pool|
    && owner[info.node] == info.frame && pool[info.node].None?
    && info.slot + |info.frame.cur| <= count
    && |info.frame.cur| / 2 <= |info.scratch|
  }

  predicate FrameOk(owner: seq<Frame>, k: nat)
  {
    k < |owner| && ValidFrame(owner[k]) && |owner[k].cur| > 0
  }

  /** A child link agrees with the child frame: NULL exactly when the frame is
      empty, otherwise a later node owned by that frame. */
  predicate ChildOk(c: Option<nat>, child: Frame, k: nat, owner: seq<Frame>)
  {
    if |child.cur| == 0 then c == None else c.Some? && k < c.value < |owner| && owner[c.value] == child
  }

  /** Node `k` is finished: it holds the median of its frame and links to the
      nodes of its child frames. */
  predicate Done(pool: seq<Option<PoolNode>>, owner: seq<Frame>, k: nat)
  {
    && FrameOk(owner, k) && k < |pool| && pool[k].Some?
    && pool[k].value.annotation == Median(owner[k])
    && ChildOk(pool[k].value.left, LeftFrame(owner[k]), k, owner)
    && ChildOk(pool[k].value.right, RightFrame(owner[k]), k, owner)
  }

  /** The build loop invariant, over the stack as it stands before the pop
      (`items`), the pool, the frame that owns each handed-out node, and the
      next free node index. */
  predicate Inv(count: nat, pool: seq<Option<PoolNode>>, owner: seq<Frame>, items: seq<Option<Info>>, next: nat)
  {
    && |pool| == count && |owner| == next && next <= count
    && StackShape(items) && |items| - 1 <= next
    && (forall i :: 1 <= i < |items| ==> OwnedBy(items[i].value, pool, owner, count))
    && Ascending(items)
    && (forall k :: 0 <= k < next ==> FrameOk(owner, k))
    && (forall k :: 0 <= k < next && pool[k].Some? ==> Done(pool, owner, k))
    && (forall k :: 0 <= k < next && pool[k].None? ==> k in PendingNodes(items))
    && (forall k :: next <= k < count ==> pool[k].None?)
    && next + Weight(items) == count + |items| - 1
  }

  /** The entries one step pushes: the right child first, then the left
      child, each only when its frame is not empty. The right child reuses
      the parent's temporary storage (`rs`), the left child the parent's
      complementary-axis storage (`ls`); nodes are handed out from `next` on
      and slots from the parent's slot on. */
  function Kids(info: Info, rs: seq<Annotation>, ls: seq<Annotation>, next: nat): (kids: seq<Option<Info>>)
    requires Pending(Some(info))
    ensures |kids| <= 2
  {
    Listed(RightKid(info, rs, next)) + Listed(LeftKid(info, ls, next))
  }

  /** The right child's entry: the next node and the slot above the
      parent's, or nothing for an empty right frame. */
  function RightKid(info: Info, rs: seq<Annotation>, next: nat): Option<Info>
    requires Pending(Some(info))
  {
    var f := info.frame;
    if |RightFrame(f).cur| > 0 then Some(Info(RightFrame(f), rs, next, info.slot + 1)) else None
  }

  /** The left child's entry, after the right child's when there is one. */
  function LeftKid(info: Info, ls: seq<Annotation>, next: nat): Option<Info>
    requires Pending(Some(info))
  {
    var f := info.frame;
    var r := if |RightFrame(f).cur| > 0 then 1 else 0;
    if |LeftFrame(f).cur| > 0 then Some(Info(LeftFrame(f), ls, next + r, info.slot + 1 + r)) else None
  }

  /** The frames owning the nodes one step hands out, in hand-out order. */
  function NewOwners(f: Frame): (o: seq<Frame>)
    requires ValidFrame(f) && |f.cur| > 0
  {
    (if |RightFrame(f).cur| > 0 then [RightFrame(f)] else [])
    + (if |LeftFrame(f).cur| > 0 then [LeftFrame(f)] else [])
  }

  /** The finished node of a step. */
  function Finished(info: Info, next: nat): PoolNode
    requires Pending(Some(info))
  {
    var f := info.frame;
    var r := |RightFrame(f).cur| > 0;
    PoolNode(Median(f),
             if |LeftFrame(f).cur| > 0 then Some(next + (if r then 1 else 0)) else None,
             if r then Some(next) else None)
  }

  function EntryWeight(e: Option<Info>): nat
  {
    if e.Some? then |e.value.frame.cur| else 0
  }

  lemma WeightLast(s: seq<Option<Info>>)
    requires |s| > 0
    ensures Weight(s) == Weight(s[..|s| - 1]) + EntryWeight(s[|s| - 1])
  {
  }

  lemma {:induction false} WeightAppend(a: seq<Option<Info>>, b: seq<Option<Info>>)
    ensures Weight(a + b) == Weight(a) + Weight(b)
    decreases |b|
  {
    if |b| == 0 {
      assert a + b == a;
    } else {
      var n := |b| - 1;
      assert (a + b)[..|a + b| - 1] == a + b[..n];
      assert (a + b)[|a + b| - 1] == b[n];
      WeightLast(a + b);
      WeightLast(b);
      WeightAppend(a, b[..n]);
    }
  }

  lemma WeightSingle(e: Option<Info>)
    ensures Weight([e]) == EntryWeight(e)
  {
    WeightLast([e]);
    assert [e][..0] == [];
  }

  lemma {:induction false} WeightAtLeast(items: seq<Option<Info>>)
    requires StackShape(items)
    ensures Weight(items) >= |items| - 1
    decreases |items|
  {
    if |items| > 1 {
      var front := items[..|items| - 1];
      assert StackShape(front) by {
        forall i | 1 <= i < |front| ensures Pending(front[i]) {
          assert front[i] == items[i];
        }
      }
      WeightAtLeast(front);
    }
  }

  lemma KidsCount(info: Info, rs: seq<Annotation>, ls: seq<Annotation>, next: nat)
    requires Pending(Some(info))
    ensures |Kids(info, rs, ls, next)| == |NewOwners(info.frame)|
    ensures |Kids(info, rs, ls, next)| <= |info.frame.cur| - 1
    ensures Weight(Kids(info, rs, ls, next)) == |info.frame.cur| - 1
  {
    var f := info.frame;
    var right, left := Listed(RightKid(info, rs, next)), Listed(LeftKid(info, ls, next));
    assert |NewOwners(f)| == |right| + |left|;
    WeightAppend(right, left);
    ListedWeight(RightKid(info, rs, next));
    ListedWeight(LeftKid(info, ls, next));
    assert |RightFrame(f).cur| + |LeftFrame(f).cur| == |f.cur| - 1;
  }

  lemma ListedWeight(e: Option<Info>)
    ensures Weight(Listed(e)) == EntryWeight(e)
  {
    if e.Some? {
      WeightSingle(e);
    }
  }

  /** The pushed entries are pending frames holding the next nodes in order,
      owned by the new frames, in consecutive slots above the parent's. */
  lemma KidsEntries(info: Info, rs: seq<Annotation>, ls: seq<Annotation>, next: nat, i: nat)
    requires Pending(Some(info)) && i < |Kids(info, rs, ls, next)|
    ensures Pending(Kids(info, rs, ls, next)[i])
    ensures Kids(info, rs, ls, next)[i].value.node == next + i
    ensures Kids(info, rs, ls, next)[i].value.slot == info.slot + 1 + i
    ensures i < |NewOwners(info.frame)| && Kids(info, rs, ls, next)[i].value.frame == NewOwners(info.frame)[i]
    ensures Kids(info, rs, ls, next)[i].value.scratch
            == if Kids(info, rs, ls, next)[i].value.frame == RightFrame(info.frame) && i == 0 then rs else ls
  {
    var f := info.frame;
    var r := |RightFrame(f).cur| > 0;
    ChildFramesValid(f);
    if r && i == 0 {
    } else {
      assert |LeftFrame(f).cur| > 0;
    }
  }

  /** There is room for what a step pushes and hands out: the stack never
      holds more than `count` entries and the pool never runs out. */
  lemma StepBounds(count: nat, pool: seq<Option<PoolNode>>, owner: seq<Frame>,
                   items: seq<Option<Info>>, next: nat, rs: seq<Annotation>, ls: seq<Annotation>)
    requires Inv(count, pool, owner, items, next) && |items| > 1
    ensures |items| - 1 + |Kids(items[|items| - 1].value, rs, ls, next)| <= count
    ensures next + |Kids(items[|items| - 1].value, rs, ls, next)| <= count
  {
    var t := |items| - 1;
    var info := items[t].value;
    var front := items[..t];
    assert items == front + [items[t]];
    WeightAppend(front, [items[t]]);
    assert [items[t]][..0] == [];
    assert StackShape(front) by {
      forall i | 1 <= i < |front| ensures Pending(front[i]) {
        assert front[i] == items[i];
      }
    }
    WeightAtLeast(front);
    KidsCount(info, rs, ls, next);
  }

  /** What one step may assume: the invariant, a pending frame on top, and
      the two storages handed down sized as the parent's temporary storage
      and the parent's complementary-axis storage. */
  predicate StepPre(count: nat, pool: seq<Option<PoolNode>>, owner: seq<Frame>,
                    items: seq<Option<Info>>, next: nat, rs: seq<Annotation>, ls: seq<Annotation>)
  {
    && Inv(count, pool, owner, items, next) && |items| > 1
    && |rs| == |items[|items| - 1].value.scratch|
    && |ls| == |items[|items| - 1].value.frame.cur|
  }

  function Top(items: seq<Option<Info>>): Info
    requires StackShape(items) && |items| > 1
  {
    items[|items| - 1].value
  }

  /** The state after one step. */
  function StepPool(pool: seq<Option<PoolNode>>, items: seq<Option<Info>>, next: nat): seq<Option<PoolNode>>
    requires StackShape(items) && |items| > 1
  {
    if Top(items).node < |pool| then pool[Top(items).node := Some(Finished(Top(items), next))] else pool
  }

  function StepItems(items: seq<Option<Info>>, next: nat, rs: seq<Annotation>, ls: seq<Annotation>): seq<Option<Info>>
    requires StackShape(items) && |items| > 1
  {
    items[..|items| - 1] + Kids(Top(items), rs, ls, next)
  }

  function StepOwner(owner: seq<Frame>, items: seq<Option<Info>>): seq<Frame>
    requires StackShape(items) && |items| > 1
  {
    owner + NewOwners(Top(items).frame)
  }

  function StepNext(items: seq<Option<Info>>, next: nat, rs: seq<Annotation>, ls: seq<Annotation>): nat
    requires StackShape(items) && |items| > 1
  {
    next + |Kids(Top(items), rs, ls, next)|
  }

  /** Entries below the top keep their place and their index. */
  lemma StepItemsFront(items: seq<Option<Info>>, next: nat, rs: seq<Annotation>, ls: seq<Annotation>, i: nat)
    requires StackShape(items) && |items| > 1 && i < |items| - 1
    ensures StepItems(items, next, rs, ls)[i] == items[i]
  {
  }

  lemma StepItemsKid(items: seq<Option<Info>>, next: nat, rs: seq<Annotation>, ls: seq<Annotation>, i: nat)
    requires StackShape(items) && |items| > 1 && |items| - 1 <= i < |StepItems(items, next, rs, ls)|
    ensures StepItems(items, next, rs, ls)[i] == Kids(Top(items), rs, ls, next)[i - (|items| - 1)]
  {
  }

  /** Nodes below the top are smaller than the top's node; slots too. */
  lemma BelowTop(items: seq<Option<Info>>, i: nat)
    requires StackShape(items) && Ascending(items) && 1 <= i < |items| - 1
    ensures items[i].value.node < Top(items).node && items[i].value.slot < Top(items).slot
  {
  }

  lemma StepSizes(count: nat, pool: seq<Option<PoolNode>>, owner: seq<Frame>,
                  items: seq<Option<Info>>, next: nat, rs: seq<Annotation>, ls: seq<Annotation>)
    requires StepPre(count, pool, owner, items, next, rs, ls)
    ensures |StepPool(pool, items, next)| == count
    ensures |StepOwner(owner, items)| == StepNext(items, next, rs, ls) <= count
    ensures StackShape(StepItems(items, next, rs, ls))
    ensures |StepItems(items, next, rs, ls)| - 1 <= StepNext(items, next, rs, ls)
    ensures |StepItems(items, next, rs, ls)| <= count
  {
    var info := Top(items);
    StepBounds(count, pool, owner, items, next, rs, ls);
    KidsCount(info, rs, ls, next);
    var items2 := StepItems(items, next, rs, ls);
    forall i | 1 <= i < |items2| ensures Pending(items2[i]) {
      if i < |items| - 1 {
        StepItemsFront(items, next, rs, ls, i);
      } else {
        StepItemsKid(items, next, rs, ls, i);
        KidsEntries(info, rs, ls, next, i - (|items| - 1));
      }
    }
  }

  /** An entry that keeps its place stays owned: its node is not the one
      being finished and the owner list only grows. */
  lemma FrontOwned(count: nat, pool: seq<Option<PoolNode>>, owner: seq<Frame>, e: Info,
                   n: nat, pn: PoolNode, more: seq<Frame>)
    requires OwnedBy(e, pool, owner, count) && e.node != n && n < |pool|
    ensures OwnedBy(e, pool[n := Some(pn)], owner + more, count)
  {
  }

  /** A pushed entry is owned by its new frame. */
  lemma KidOwned(count: nat, pool: seq<Option<PoolNode>>, owner: seq<Frame>, info: Info,
                 next: nat, rs: seq<Annotation>, ls: seq<Annotation>, j: nat)
    requires Pending(Some(info)) && OwnedBy(info, pool, owner, count)
    requires |owner| == next && |pool| == count && next + |Kids(info, rs, ls, next)| <= count
    requires forall k :: next <= k < count ==> pool[k].None?
    requires |rs| == |info.scratch| && |ls| == |info.frame.cur|
    requires j < |Kids(info, rs, ls, next)|
    ensures OwnedBy(Kids(info, rs, ls, next)[j].value,
                    pool[info.node := Some(Finished(info, next))], owner + NewOwners(info.frame), count)
  {
    var f := info.frame;
    KidsEntries(info, rs, ls, next, j);
    KidsCount(info, rs, ls, next);
    var kid := Kids(info, rs, ls, next)[j].value;
    assert (owner + NewOwners(f))[next + j] == NewOwners(f)[j];
    assert pool[next + j].None?;
    assert |RightFrame(f).cur| + |LeftFrame(f).cur| == |f.cur| - 1;
  }

  lemma StepOwned(count: nat, pool: seq<Option<PoolNode>>, owner: seq<Frame>,
                  items: seq<Option<Info>>, next: nat, rs: seq<Annotation>, ls: seq<Annotation>, i: nat)
    requires StepPre(count, pool, owner, items, next, rs, ls)
    requires 1 <= i < |StepItems(items, next, rs, ls)|
    ensures StackShape(StepItems(items, next, rs, ls))
    ensures OwnedBy(StepItems(items, next, rs, ls)[i].value, StepPool(pool, items, next), StepOwner(owner, items), count)
  {
    StepSizes(count, pool, owner, items, next, rs, ls);
    var info := Top(items);
    assert OwnedBy(info, pool, owner, count);
    if i < |items| - 1 {
      StepItemsFront(items, next, rs, ls, i);
      BelowTop(items, i);
      FrontOwned(count, pool, owner, items[i].value, info.node, Finished(info, next), NewOwners(info.frame));
    } else {
      StepItemsKid(items, next, rs, ls, i);
      StepBounds(count, pool, owner, items, next, rs, ls);
      KidOwned(count, pool, owner, info, next, rs, ls, i - (|items| - 1));
    }
  }

  lemma StepAscendingPair(count: nat, pool: seq<Option<PoolNode>>, owner: seq<Frame>,
                          items: seq<Option<Info>>, next: nat, rs: seq<Annotation>, ls: seq<Annotation>, i: nat, j: nat)
    requires StepPre(count, pool, owner, items, next, rs, ls)
    requires 1 <= i < j < |StepItems(items, next, rs, ls)|
    ensures StepItems(items, next, rs, ls)[i].Some? && StepItems(items, next, rs, ls)[j].Some?
    ensures StepItems(items, next, rs, ls)[i].value.node < StepItems(items, next, rs, ls)[j].value.node
    ensures StepItems(items, next, rs, ls)[i].value.slot < StepItems(items, next, rs, ls)[j].value.slot
  {
    var info := Top(items);
    var t := |items| - 1;
    assert OwnedBy(info, pool, owner, count);
    if j < t {
      StepItemsFront(items, next, rs, ls, i);
      StepItemsFront(items, next, rs, ls, j);
    } else if i < t {
      StepItemsFront(items, next, rs, ls, i);
      BelowTop(items, i);
      StepItemsKid(items, next, rs, ls, j);
      KidsEntries(info, rs, ls, next, j - t);
    } else {
      StepItemsKid(items, next, rs, ls, i);
      StepItemsKid(items, next, rs, ls, j);
      KidsEntries(info, rs, ls, next, i - t);
      KidsEntries(info, rs, ls, next, j - t);
    }
  }

  lemma StepAscending(count: nat, pool: seq<Option<PoolNode>>, owner: seq<Frame>,
                      items: seq<Option<Info>>, next: nat, rs: seq<Annotation>, ls: seq<Annotation>)
    requires StepPre(count, pool, owner, items, next, rs, ls)
    ensures Ascending(StepItems(items, next, rs, ls))
  {
    var items2 := StepItems(items, next, rs, ls);
    forall i, j | 1 <= i < j < |items2| && items2[i].Some? && items2[j].Some?
      ensures items2[i].value.node < items2[j].value.node && items2[i].value.slot < items2[j].value.slot
    {
      StepAscendingPair(count, pool, owner, items, next, rs, ls, i, j);
    }
  }

  lemma StepFrames(count: nat, pool: seq<Option<PoolNode>>, owner: seq<Frame>,
                   items: seq<Option<Info>>, next: nat, rs: seq<Annotation>, ls: seq<Annotation>, k: nat)
    requires StepPre(count, pool, owner, items, next, rs, ls)
    requires k < StepNext(items, next, rs, ls)
    ensures FrameOk(StepOwner(owner, items), k)
  {
    var info := Top(items);
    KidsCount(info, rs, ls, next);
    assert k < next ==> FrameOk(owner, k);
    FramesExtend(owner, info.frame, k);
  }

  /** Appending the frames of a step's children keeps every owner frame
      valid and non-empty. */
  lemma FramesExtend(owner: seq<Frame>, f: Frame, k: nat)
    requires ValidFrame(f) && |f.cur| > 0 && k < |owner| + |NewOwners(f)|
    requires k < |owner| ==> FrameOk(owner, k)
    ensures FrameOk(owner + NewOwners(f), k)
  {
    if k >= |owner| {
      assert (owner + NewOwners(f))[k] == NewOwners(f)[k - |owner|];
      NewOwnerValid(f, k - |owner|);
    } else {
      assert (owner + NewOwners(f))[k] == owner[k];
    }
  }

  lemma NewOwnerValid(f: Frame, j: nat)
    requires ValidFrame(f) && |f.cur| > 0 && j < |NewOwners(f)|
    ensures ValidFrame(NewOwners(f)[j]) && |NewOwners(f)[j].cur| > 0
  {
    ChildFramesValid(f);
    if |RightFrame(f).cur| > 0 && j == 0 {
      assert NewOwners(f)[j] == RightFrame(f);
    } else {
      assert NewOwners(f)[j] == LeftFrame(f);
    }
  }

  lemma StepFresh(count: nat, pool: seq<Option<PoolNode>>, owner: seq<Frame>,
                  items: seq<Option<Info>>, next: nat, rs: seq<Annotation>, ls: seq<Annotation>, k: nat)
    requires StepPre(count, pool, owner, items, next, rs, ls)
    requires StepNext(items, next, rs, ls) <= k < count
    ensures StepPool(pool, items, next)[k].None?
  {
    assert OwnedBy(Top(items), pool, owner, count);
  }

  lemma StepWeight(count: nat, pool: seq<Option<PoolNode>>, owner: seq<Frame>,
                   items: seq<Option<Info>>, next: nat, rs: seq<Annotation>, ls: seq<Annotation>)
    requires StepPre(count, pool, owner, items, next, rs, ls)
    ensures StepNext(items, next, rs, ls) + Weight(StepItems(items, next, rs, ls))
            == count + |StepItems(items, next, rs, ls)| - 1
  {
    var info := Top(items);
    var t := |items| - 1;
    KidsCount(info, rs, ls, next);
    WeightLast(items);
    WeightAppend(items[..t], Kids(info, rs, ls, next));
  }

  /** A finished node stays finished when another node is filled and more
      owners are appended. */
  lemma DoneKept(pool: seq<Option<PoolNode>>, owner: seq<Frame>, k: nat, n: nat, pn: PoolNode, more: seq<Frame>)
    requires Done(pool, owner, k) && k != n && n < |pool|
    ensures Done(pool[n := Some(pn)], owner + more, k)
  {
    var owner2 := owner + more;
    assert owner2[k] == owner[k];
    var c := pool[k].value;
    if c.left.Some? {
      assert owner2[c.left.value] == owner[c.left.value];
    }
    if c.right.Some? {
      assert owner2[c.right.value] == owner[c.right.value];
    }
  }

  /** The node a step fills is finished. */
  lemma TopDone(count: nat, pool: seq<Option<PoolNode>>, owner: seq<Frame>,
                items: seq<Option<Info>>, next: nat, rs: seq<Annotation>, ls: seq<Annotation>)
    requires StepPre(count, pool, owner, items, next, rs, ls)
    ensures Done(StepPool(pool, items, next), StepOwner(owner, items), Top(items).node)
  {
    var info := Top(items);
    assert OwnedBy(info, pool, owner, count);
    FinishedDone(info, next, StepPool(pool, items, next), owner);
  }

  /** A finished node whose child frames own the nodes handed out right
      after `next` is finished in the sense of the invariant. */
  lemma FinishedDone(info: Info, next: nat, pool: seq<Option<PoolNode>>, owner: seq<Frame>)
    requires Pending(Some(info)) && info.node < next == |owner| && owner[info.node] == info.frame
    requires info.node < |pool| && pool[info.node] == Some(Finished(info, next))
    ensures Done(pool, owner + NewOwners(info.frame), info.node)
  {
    var f := info.frame;
    var owner2 := owner + NewOwners(f);
    assert owner2[info.node] == f;
    var r := |RightFrame(f).cur| > 0;
    if r {
      assert owner2[next] == RightFrame(f);
    }
    if |LeftFrame(f).cur| > 0 {
      var li := next + (if r then 1 else 0);
      assert owner2[li] == NewOwners(f)[li - next] == LeftFrame(f);
    }
  }

  lemma StepDone(count: nat, pool: seq<Option<PoolNode>>, owner: seq<Frame>,
                 items: seq<Option<Info>>, next: nat, rs: seq<Annotation>, ls: seq<Annotation>, k: nat)
    requires StepPre(count, pool, owner, items, next, rs, ls)
    requires k < StepNext(items, next, rs, ls) && k < |pool| && StepPool(pool, items, next)[k].Some?
    ensures Done(StepPool(pool, items, next), StepOwner(owner, items), k)
  {
    var info := Top(items);
    assert OwnedBy(info, pool, owner, count);
    if k == info.node {
      TopDone(count, pool, owner, items, next, rs, ls);
    } else {
      assert k < next;
      DoneKept(pool, owner, k, info.node, Finished(info, next), NewOwners(info.frame));
    }
  }

  lemma StepCovered(count: nat, pool: seq<Option<PoolNode>>, owner: seq<Frame>,
                    items: seq<Option<Info>>, next: nat, rs: seq<Annotation>, ls: seq<Annotation>, k: nat)
    requires StepPre(count, pool, owner, items, next, rs, ls)
    requires k < StepNext(items, next, rs, ls) && k < |pool| && StepPool(pool, items, next)[k].None?
    ensures k in PendingNodes(StepItems(items, next, rs, ls))
  {
    if k >= next {
      CoveredByKid(items, next, rs, ls, k);
    } else {
      CoveredBelow(count, pool, owner, items, next, rs, ls, k);
    }
  }

  lemma CoveredByKid(items: seq<Option<Info>>, next: nat, rs: seq<Annotation>, ls: seq<Annotation>, k: nat)
    requires StackShape(items) && |items| > 1
    requires next <= k < StepNext(items, next, rs, ls)
    ensures k in PendingNodes(StepItems(items, next, rs, ls))
  {
    assert Pending(items[|items| - 1]);
    KidPending(items, next, rs, ls, k - next);
  }

  /** The `j`-th child pushed by a step is pending on the new stack. */
  lemma KidPending(items: seq<Option<Info>>, next: nat, rs: seq<Annotation>, ls: seq<Annotation>, j: nat)
    requires StackShape(items) && |items| > 1 && Pending(Some(Top(items)))
    requires j < |Kids(Top(items), rs, ls, next)|
    ensures next + j in PendingNodes(StepItems(items, next, rs, ls))
  {
    var t, kids := |items| - 1, Kids(Top(items), rs, ls, next);
    KidsEntries(Top(items), rs, ls, next, j);
    PendingAt(items[..t] + kids, t + j);
  }

  lemma PendingAt(items: seq<Option<Info>>, i: nat)
    requires 1 <= i < |items| && items[i].Some?
    ensures items[i].value.node in PendingNodes(items)
  {
  }

  lemma CoveredBelow(count: nat, pool: seq<Option<PoolNode>>, owner: seq<Frame>,
                     items: seq<Option<Info>>, next: nat, rs: seq<Annotation>, ls: seq<Annotation>, k: nat)
    requires StepPre(count, pool, owner, items, next, rs, ls)
    requires k < next && k < |pool| && StepPool(pool, items, next)[k].None?
    ensures k in PendingNodes(StepItems(items, next, rs, ls))
  {
    var info := Top(items);
    var t := |items| - 1;
    var items2 := StepItems(items, next, rs, ls);
    assert OwnedBy(info, pool, owner, count);
    assert k in PendingNodes(items);
    var i :| 1 <= i < |items| && items[i].Some? && items[i].value.node == k;
    assert i != t;
    StepItemsFront(items, next, rs, ls, i);
    assert items2[i].value.node == k;
  }

  /** One iteration of the build loop preserves the invariant. */
  lemma StepInv(count: nat, pool: seq<Option<PoolNode>>, owner: seq<Frame>,
                items: seq<Option<Info>>, next: nat, rs: seq<Annotation>, ls: seq<Annotation>)
    requires StepPre(count, pool, owner, items, next, rs, ls)
    ensures Inv(count, StepPool(pool, items, next), StepOwner(owner, items),
                StepItems(items, next, rs, ls), StepNext(items, next, rs, ls))
  {
    var pool2, owner2 := StepPool(pool, items, next), StepOwner(owner, items);
    var items2, next2 := StepItems(items, next, rs, ls), StepNext(items, next, rs, ls);
    StepSizes(count, pool, owner, items, next, rs, ls);
    forall i | 1 <= i < |items2| ensures OwnedBy(items2[i].value, pool2, owner2, count) {
      StepOwned(count, pool, owner, items, next, rs, ls, i);
    }
    StepAscending(count, pool, owner, items, next, rs, ls);
    forall k | 0 <= k < next2 ensures FrameOk(owner2, k) {
      StepFrames(count, pool, owner, items, next, rs, ls, k);
    }
    forall k | 0 <= k < next2 && pool2[k].Some? ensures Done(pool2, owner2, k) {
      StepDone(count, pool, owner, items, next, rs, ls, k);
    }
    forall k | 0 <= k < next2 && pool2[k].None? ensures k in PendingNodes(items2) {
      StepCovered(count, pool, owner, items, next, rs, ls, k);
    }
    forall k | next2 <= k < count ensures pool2[k].None? {
      StepFresh(count, pool, owner, items, next, rs, ls, k);
    }
    StepWeight(count, pool, owner, items, next, rs, ls);
  }

  /** The invariant after a step, for the state as the loop holds it. */
  lemma StepInvAt(count: nat, pool: seq<Option<PoolNode>>, owner: seq<Frame>,
                  items: seq<Option<Info>>, next: nat, rs: seq<Annotation>, ls: seq<Annotation>,
                  pool2: seq<Option<PoolNode>>, items2: seq<Option<Info>>, next2: nat)
    requires StepPre(count, pool, owner, items, next, rs, ls)
    requires Top(items).node < |pool| && pool2 == pool[Top(items).node := Some(Finished(Top(items), next))]
    requires items2 == items[..|items| - 1] + (Listed(RightKid(Top(items), rs, next)) + Listed(LeftKid(Top(items), ls, next)))
    requires next2 == next + |Listed(RightKid(Top(items), rs, next)) + Listed(LeftKid(Top(items), ls, next))|
    ensures Inv(count, pool2, StepOwner(owner, items), items2, next2)
  {
    StepInv(count, pool, owner, items, next, rs, ls);
  }

  /** The state before the first iteration: the root frame on top of the
      sentinel, owning node 0. */
  lemma InitInv(count: nat, root: Frame, scratch: seq<Annotation>)
    requires ValidFrame(root) && |root.cur| == count > 0 && |scratch| == count / 2
    ensures Inv(count, seq(count, _ => None), [root], [None, Some(Info(root, scratch, 0, 0))], 1)
  {
    var items := [None, Some(Info(root, scratch, 0, 0))];
    assert items[1].value.node in PendingNodes(items);
    WeightLast(items);
    WeightSingle(None);
    assert items[..1] == [None];
  }

  /** When only the sentinel is left, every node has been handed out and
      finished. */
  lemma FinalInv(count: nat, pool: seq<Option<PoolNode>>, owner: seq<Frame>, next: nat)
    requires Inv(count, pool, owner, [None], next)
    ensures next == count && |owner| == |pool| == count
    ensures forall k :: 0 <= k < count ==> Done(pool, owner, k)
  {
    WeightSingle(None);
    forall k | 0 <= k < count ensures Done(pool, owner, k) {
      assert k !in PendingNodes([None]);
    }
  }

  /** When only the sentinel is left, the pool reads back from node 0 as
      the tree of the frame owning node 0. */
  lemma FinalTree(count: nat, pool: seq<Option<PoolNode>>, owner: seq<Frame>, items: seq<Option<Info>>,
                  next: nat, root: Frame)
    requires Inv(count, pool, owner, items, next) && items[|items| - 1].None?
    requires |owner| > 0 && owner[0] == root && ValidFrame(root)
    ensures next == count && |pool| == count
    ensures Linked(pool) && Decode(pool, 0) == Build(root)
  {
    assert items == [None];
    FinalInv(count, pool, owner, next);
    FinishedLinked(pool, owner);
    assert Done(pool, owner, 0);
    DecodeIsBuild(pool, owner, 0);
  }

  lemma FinishedLinked(pool: seq<Option<PoolNode>>, owner: seq<Frame>)
    requires |owner| == |pool| && forall k :: 0 <= k < |pool| ==> Done(pool, owner, k)
    ensures Linked(pool)
  {
    forall k | 0 <= k < |pool|
      ensures pool[k].Some? && ChildIn(pool[k].value.left, k, |pool|) && ChildIn(pool[k].value.right, k, |pool|)
    {
      assert Done(pool, owner, k);
    }
  }

  /** One node of the read-back: a finished node whose children read back as
      the trees of its child frames reads back as the tree of its frame. */
  lemma DecodeStep(pool: seq<Option<PoolNode>>, owner: seq<Frame>, k: nat)
    requires Linked(pool) && k < |pool| && Done(pool, owner, k)
    requires pool[k].value.left.Some? ==> FrameOk(owner, pool[k].value.left.value)
    requires pool[k].value.left.Some? ==> Decode(pool, pool[k].value.left.value) == Build(owner[pool[k].value.left.value])
    requires pool[k].value.right.Some? ==> FrameOk(owner, pool[k].value.right.value)
    requires pool[k].value.right.Some? ==> Decode(pool, pool[k].value.right.value) == Build(owner[pool[k].value.right.value])
    ensures Decode(pool, k) == Build(owner[k])
  {
    ChildFramesValid(owner[k]);
    BuildUnfold(owner[k]);
  }

  /** Read back from a pool of finished nodes, each node holds the tree its
      frame defines. */
  lemma {:induction false} DecodeIsBuild(pool: seq<Option<PoolNode>>, owner: seq<Frame>, k: nat)
    requires |owner| == |pool| && forall k :: 0 <= k < |pool| ==> Done(pool, owner, k)
    requires Linked(pool) && k < |pool| && Done(pool, owner, k)
    ensures Decode(pool, k) == Build(owner[k])
    decreases |pool| - k
  {
    var pn := pool[k].value;
    if pn.left.Some? {
      DecodeIsBuild(pool, owner, pn.left.value);
    }
    if pn.right.Some? {
      DecodeIsBuild(pool, owner, pn.right.value);
    }
    DecodeStep(pool, owner, k);
  }

  lemma TopOwned(count: nat, pool: seq<Option<PoolNode>>, owner: seq<Frame>, items: seq<Option<Info>>, next: nat)
    requires Inv(count, pool, owner, items, next) && |items| > 1
    ensures Pending(items[|items| - 1]) && OwnedBy(Top(items), pool, owner, count)
  {
  }

  lemma ChildSizes(f: Frame)
    requires ValidFrame(f) && |f.cur| > 0
    ensures |f.comp| == |f.cur|
    ensures |Partition(f.comp, Median(f).id, AxisAtLevel(f.level), SplitValue(f), Below)|
            == MedianIndex(f.cur, AxisAtLevel(f.level))
    ensures |Partition(f.comp, Median(f).id, AxisAtLevel(f.level), SplitValue(f), AtOrAbove)|
            == |f.cur| - MedianIndex(f.cur, AxisAtLevel(f.level)) - 1
  {
    assert |f.comp| == |multiset(f.comp)| == |f.cur|;
    assert LeftFrame(f).cur == Partition(f.comp, Median(f).id, AxisAtLevel(f.level), SplitValue(f), Below);
    assert RightFrame(f).cur == Partition(f.comp, Median(f).id, AxisAtLevel(f.level), SplitValue(f), AtOrAbove);
  }

  /** After the pass, the child frames are read from the two storages: the
      left child's current-axis order from the front of the temporary
      storage, the right child's from the back of the complementary-axis
      storage. */
  lemma PassFrames(f: Frame, m: nat, buf: seq<Annotation>, tmp: seq<Annotation>)
    requires ValidFrame(f) && |f.cur| > 0 && m == MedianIndex(f.cur, AxisAtLevel(f.level))
    requires m <= |tmp| && m + 1 <= |buf|
    requires tmp[..m] == Partition(f.comp, Median(f).id, AxisAtLevel(f.level), SplitValue(f), Below)
    requires buf[m + 1..] == Partition(f.comp, Median(f).id, AxisAtLevel(f.level), SplitValue(f), AtOrAbove)
    ensures LeftFrame(f) == Frame(tmp[..m], f.cur[..m], f.level + 1)
    ensures RightFrame(f) == Frame(buf[m + 1..], f.cur[m + 1..], f.level + 1)
    ensures |LeftFrame(f).cur| == m && |RightFrame(f).cur| == |f.cur| - m - 1
  {
  }

  /** The median and the partition of one iteration: afterwards the two
      child frames can be read from the storages. */
  method SplitFrame(f: Frame, scratch: seq<Annotation>) returns (m: nat, buf: seq<Annotation>, tmp: seq<Annotation>)
    requires ValidFrame(f) && |f.cur| > 0 && |f.cur| / 2 <= |scratch|
    ensures m == MedianIndex(f.cur, AxisAtLevel(f.level))
    ensures |tmp| == |scratch| && |buf| == |f.cur|
    ensures LeftFrame(f) == Frame(tmp[..m], f.cur[..m], f.level + 1)
    ensures RightFrame(f) == Frame(buf[m + 1..], f.cur[m + 1..], f.level + 1)
    ensures |LeftFrame(f).cur| == m && |RightFrame(f).cur| == |f.cur| - m - 1
  {
    AxisAtLevelParity(f.level);
    var axis := if f.level % 2 == 0 then X else Y;
    m := FindMedian(f.cur, axis);
    var med := f.cur[m];
    ChildSizes(f);
    buf, tmp := PartitionInPlace(f.comp, scratch, med.id, axis, CoordOf(med, axis), m);
    PassFrames(f, m, buf, tmp);
  }

  /** The body of one build iteration: pick the median, partition the
      complementary-axis order, and prepare the node and the entries for the
      non-empty children (right first, then left), handing out nodes from
      `next` on. Returns the two storages after the partition. */
  method ProcessFrame(info: Info, next: nat)
    returns (pn: PoolNode, right: Option<Info>, left: Option<Info>, buf: seq<Annotation>, tmp: seq<Annotation>)
    requires Pending(Some(info)) && |info.frame.cur| / 2 <= |info.scratch|
    ensures |tmp| == |info.scratch| && |buf| == |info.frame.cur|
    ensures pn == Finished(info, next)
    ensures right == RightKid(info, tmp, next) && left == LeftKid(info, buf, next)
  {
    var f := info.frame;
    var m;
    m, buf, tmp := SplitFrame(f, info.scratch);
    var hasRight := |f.cur| - m - 1 > 0;
    var slot := info.slot;
    var nextFree := next;
    right, left := None, None;
    var r, l: Option<nat> := None, None;
    if hasRight {
      slot := slot + 1;
      right := Some(Info(Frame(buf[m + 1..], f.cur[m + 1..], f.level + 1), tmp, nextFree, slot));
      r := Some(nextFree);
      nextFree := nextFree + 1;
    }
    if m > 0 {
      slot := slot + 1;
      left := Some(Info(Frame(tmp[..m], f.cur[..m], f.level + 1), buf, nextFree, slot));
      l := Some(nextFree);
      nextFree := nextFree + 1;
    }
    pn := PoolNode(f.cur[m], l, r);
    KidsAt(info, next, m, buf, tmp);
  }

  /** The entries and the node of one iteration, in terms of the median
      index and the two storages after the pass. */
  lemma KidsAt(info: Info, next: nat, m: nat, buf: seq<Annotation>, tmp: seq<Annotation>)
    requires Pending(Some(info))
    requires m == MedianIndex(info.frame.cur, AxisAtLevel(info.frame.level))
    requires m <= |tmp| && m + 1 <= |buf|
    requires LeftFrame(info.frame) == Frame(tmp[..m], info.frame.cur[..m], info.frame.level + 1)
    requires RightFrame(info.frame) == Frame(buf[m + 1..], info.frame.cur[m + 1..], info.frame.level + 1)
    requires |LeftFrame(info.frame).cur| == m && |RightFrame(info.frame).cur| == |info.frame.cur| - m - 1
    ensures RightKid(info, tmp, next)
            == if |info.frame.cur| - m - 1 > 0
               then Some(Info(Frame(buf[m + 1..], info.frame.cur[m + 1..], info.frame.level + 1), tmp, next, info.slot + 1))
               else None
    ensures LeftKid(info, buf, next)
            == var r := if |info.frame.cur| - m - 1 > 0 then 1 else 0;
               if m > 0
               then Some(Info(Frame(tmp[..m], info.frame.cur[..m], info.frame.level + 1), buf, next + r, info.slot + 1 + r))
               else None
    ensures Finished(info, next)
            == var r := |info.frame.cur| - m - 1 > 0;
               PoolNode(info.frame.cur[m],
                        if m > 0 then Some(next + (if r then 1 else 0)) else None,
                        if r then Some(next) else None)
  {
  }

  /** A frame stores its annotation count in 32 bits; larger inputs would be
      truncated. */
  const MaxFrameCount: nat := 0xFFFF_FFFF

  /** Pushes the right child's entry, then the left child's, each only when
      there is one. */
  method PushKids(stack: Stack<Option<Info>>, right: Option<Info>, left: Option<Info>)
    returns (s: Stack<Option<Info>>, pushed: nat)
    requires Valid(stack) && Depth(stack) + |Listed(right) + Listed(left)| <= stack.capacity
    ensures Valid(s) && s.capacity == stack.capacity
    ensures s.items == stack.items + (Listed(right) + Listed(left))
    ensures pushed == |Listed(right) + Listed(left)|
  {
    s, pushed := stack, 0;
    if right.Some? {
      s := Push(s, right);
      pushed := pushed + 1;
    }
    if left.Some? {
      s := Push(s, left);
      pushed := pushed + 1;
    }
  }

  /** One iteration of the build loop: the popped frame is processed, its
      node filled, its children pushed and the next entry popped. The
      invariant is kept, and the root keeps its node. */
  method BuildIteration(count: nat, stack: Stack<Option<Info>>, info: Info, pool: seq<Option<PoolNode>>,
                        next: nat, ghost owner: seq<Frame>)
    returns (stack2: Stack<Option<Info>>, top2: Option<Info>, pool2: seq<Option<PoolNode>>,
             next2: nat, ghost owner2: seq<Frame>)
    requires Valid(stack) && stack.capacity == count
    requires Inv(count, pool, owner, stack.items + [Some(info)], next)
    requires |owner| > 0
    ensures Valid(stack2) && stack2.capacity == count
    ensures Inv(count, pool2, owner2, stack2.items + [top2], next2)
    ensures |owner2| > 0 && owner2[0] == owner[0]
    ensures count - next2 + |stack2.items| < count - next + |stack.items|
  {
    ghost var items := stack.items + [Some(info)];
    TopOwned(count, pool, owner, items, next);
    var pn, right, left, buf, tmp := ProcessFrame(info, next);
    StepBounds(count, pool, owner, items, next, tmp, buf);
    KidsCount(info, tmp, buf, next);
    assert stack.items == items[..|items| - 1];
    var s, pushed := PushKids(stack, right, left);
    next2 := next + pushed;
    pool2 := pool[info.node := Some(pn)];
    StepInvAt(count, pool, owner, items, next, tmp, buf, pool2, s.items, next2);
    owner2 := StepOwner(owner, items);
    var popped := Pop(s);
    stack2, top2 := popped.0, popped.1;
  }

  /** The build: nodes come from a pool of `count` entries handed out in
      order, pending frames from an explicit stack with a NULL sentinel and
      capacity `count`. Requires a non-empty input (index `count >> 1` is read
      at once) of at most `MaxFrameCount` annotations, sorted on x (`xs`) and
      on y (`ys`). Every node is used, and the
      pool read back from node 0 is the tree `Build` defines. */
  method Create(xs: seq<Annotation>, ys: seq<Annotation>) returns (pool: seq<Option<PoolNode>>, used: nat)
    requires 0 < |xs| <= MaxFrameCount && ValidFrame(Frame(xs, ys, 0))
    ensures |pool| == |xs| && used == |xs|
    ensures Linked(pool) && Decode(pool, 0) == Build(Frame(xs, ys, 0))
  {
    var count := |xs|;
    var root := Frame(xs, ys, 0);
    pool := seq(count, _ => None);
    var stack := KpStack.Create<Option<Info>>(count);
    stack := Push(stack, None);
    // Fresh temporary storage of count / 2 entries; nothing in it is read
    // before it is written.
    var top := Some(Info(root, seq(count / 2, _ => xs[0]), 0, 0));
    var next := 1;
    ghost var owner := [root];
    InitInv(count, root, top.value.scratch);
    assert stack.items + [top] == [None, Some(Info(root, seq(count / 2, _ => xs[0]), 0, 0))];
    while top.Some?
      invariant Valid(stack) && stack.capacity == count
      invariant Inv(count, pool, owner, stack.items + [top], next)
      invariant |owner| > 0 && owner[0] == root
      decreases count - next + |stack.items|
    {
      stack, top, pool, next, owner := BuildIteration(count, stack, top.value, pool, next, owner);
    }
    FinalTree(count, pool, owner, stack.items + [top], next, root);
    used := next;
  }
}
