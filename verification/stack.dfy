/** The fixed-capacity pointer stack the tree build and search use for their
    explicit recursion: storage for `capacity` entries and a top that moves
    up on push and down on pop. Neither operation checks its bound; the
    preconditions say what callers must ensure. */
module KpStack {

  /** `items` holds the live entries, bottom first; its length is the distance
      from the storage start to the top. */
  datatype Stack<T> = Stack(capacity: nat, items: seq<T>)

  predicate Valid<T>(s: Stack<T>)
  {
    |s.items| <= s.capacity
  }

  function Depth<T>(s: Stack<T>): nat
  {
    |s.items|
  }

  /** A fresh stack: top equals storage. */
  function Create<T>(capacity: nat): (s: Stack<T>)
    ensures Valid(s) && s.capacity == capacity
    ensures Depth(s) == 0
  {
    Stack(capacity, [])
  }

  /** Writes at the top and moves it up; the caller guarantees room. */
  function Push<T>(s: Stack<T>, e: T): (r: Stack<T>)
    requires Valid(s) && Depth(s) < s.capacity
    ensures Valid(r) && r.capacity == s.capacity
    ensures Depth(r) == Depth(s) + 1
    ensures r.items == s.items + [e]
  {
    Stack(s.capacity, s.items + [e])
  }

  /** Moves the top down and returns the entry found there; the caller
      guarantees the stack is not empty. */
  function Pop<T>(s: Stack<T>): (r: (Stack<T>, T))
    requires Valid(s) && Depth(s) > 0
    ensures Valid(r.0) && r.0.capacity == s.capacity
    ensures Depth(r.0) == Depth(s) - 1
    ensures s.items == r.0.items + [r.1]
  {
    (Stack(s.capacity, s.items[..|s.items| - 1]), s.items[|s.items| - 1])
  }

  /** Moves the top back to the storage start. */
  function Reset<T>(s: Stack<T>): (r: Stack<T>)
    ensures Valid(r) && r.capacity == s.capacity
    ensures Depth(r) == 0
  {
    Stack(s.capacity, [])
  }

  /** A pop right after a push returns the pushed entry and the stack as it
      was. */
  lemma PopAfterPush<T>(s: Stack<T>, e: T)
    requires Valid(s) && Depth(s) < s.capacity
    ensures Pop(Push(s, e)) == (s, e)
  {
    var r := Pop(Push(s, e));
    assert r.0.items + [r.1] == s.items + [e];
    assert r.0.items == (r.0.items + [r.1])[..|s.items|];
  }

  /** A reset stack is indistinguishable from a fresh one of the same
      capacity, whatever was left on it. */
  lemma ResetIsFresh<T>(s: Stack<T>)
    ensures Reset(s) == Create(s.capacity)
  {
  }

  /** The entries of `s`, last first. */
  function Reverse<T>(s: seq<T>): (r: seq<T>)
    ensures |r| == |s|
    ensures forall i :: 0 <= i < |s| ==> r[i] == s[|s| - 1 - i]
  {
    if |s| == 0 then [] else [s[|s| - 1]] + Reverse(s[..|s| - 1])
  }

  /** Pushes the entries of `es` in order. */
  function PushAll<T>(s: Stack<T>, es: seq<T>): (r: Stack<T>)
    requires Valid(s) && Depth(s) + |es| <= s.capacity
    ensures Valid(r) && r.capacity == s.capacity
    ensures r.items == s.items + es
    decreases |es|
  {
    if |es| == 0 then s
    else
      var r := PushAll(Push(s, es[0]), es[1..]);
      assert s.items + es == s.items + [es[0]] + es[1..];
      r
  }

  /** Pops `n` entries, returning them in the order they came off. */
  function PopMany<T>(s: Stack<T>, n: nat): (r: (Stack<T>, seq<T>))
    requires Valid(s) && n <= Depth(s)
    ensures Valid(r.0) && r.0.capacity == s.capacity
    ensures |r.1| == n && Depth(r.0) == Depth(s) - n
    decreases n
  {
    if n == 0 then (s, [])
    else
      var (t, e) := Pop(s);
      var (u, es) := PopMany(t, n - 1);
      (u, [e] + es)
  }

  /** Last in, first out: popping everything just pushed returns it in
      reverse order and leaves the stack as it was. */
  lemma {:induction false} PushAllPopMany<T>(s: Stack<T>, es: seq<T>)
    requires Valid(s) && Depth(s) + |es| <= s.capacity
    ensures PopMany(PushAll(s, es), |es|) == (s, Reverse(es))
    decreases |es|
  {
    if |es| > 0 {
      var n := |es| - 1;
      var front := es[..n];
      assert PushAll(s, es).items == PushAll(s, front).items + [es[n]];
      PushAllAppend(s, front, es[n]);
      PopAfterPush(PushAll(s, front), es[n]);
      PushAllPopMany(s, front);
    }
  }

  lemma PushAllAppend<T>(s: Stack<T>, front: seq<T>, e: T)
    requires Valid(s) && Depth(s) + |front| + 1 <= s.capacity
    ensures PushAll(s, front + [e]) == Push(PushAll(s, front), e)
  {
  }
}
