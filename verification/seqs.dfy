/** Order-preserving filtering of sequences and the facts about it that the
    partition step of the tree build relies on. */
module Seqs {

  /** The elements of `s` that satisfy `keep`, in their original order. */
  function Filter<T>(s: seq<T>, keep: T -> bool): (r: seq<T>)
    ensures |r| <= |s|
  {
    if |s| == 0 then [] else (if keep(s[0]) then [s[0]] else []) + Filter(s[1..], keep)
  }

  lemma {:induction false} FilterMembership<T>(s: seq<T>, keep: T -> bool, x: T)
    ensures x in Filter(s, keep) <==> x in s && keep(x)
  {
    if |s| > 0 {
      FilterMembership(s[1..], keep, x);
      assert s == [s[0]] + s[1..];
    }
  }

  lemma {:induction false} FilterAppend<T>(s: seq<T>, t: seq<T>, keep: T -> bool)
    ensures Filter(s + t, keep) == Filter(s, keep) + Filter(t, keep)
  {
    if |s| == 0 {
      assert s + t == t;
    } else {
      var head := if keep(s[0]) then [s[0]] else [];
      assert (s + t)[0] == s[0];
      assert (s + t)[1..] == s[1..] + t;
      assert Filter(s + t, keep) == head + Filter(s[1..] + t, keep);
      FilterAppend(s[1..], t, keep);
      assert Filter(s, keep) == head + Filter(s[1..], keep);
    }
  }

  lemma FilterSplit<T>(s: seq<T>, m: nat, keep: T -> bool)
    requires m <= |s|
    ensures Filter(s, keep) == Filter(s[..m], keep) + Filter(s[m..], keep)
  {
    assert s == s[..m] + s[m..];
    FilterAppend(s[..m], s[m..], keep);
  }

  lemma FilterPrefixAll<T>(s: seq<T>, m: nat, keep: T -> bool)
    requires m <= |s|
    requires forall i :: 0 <= i < m ==> keep(s[i])
    ensures Filter(s[..m], keep) == s[..m]
  {
    var t := s[..m];
    assert forall i :: 0 <= i < |t| ==> t[i] == s[i];
    FilterKeepsAll(t, keep);
  }

  lemma FilterPrefixNone<T>(s: seq<T>, m: nat, keep: T -> bool)
    requires m <= |s|
    requires forall i :: 0 <= i < m ==> !keep(s[i])
    ensures Filter(s[..m], keep) == []
  {
    var t := s[..m];
    assert forall i :: 0 <= i < |t| ==> t[i] == s[i];
    FilterKeepsNone(t, keep);
  }

  lemma FilterSuffixAll<T>(s: seq<T>, m: nat, keep: T -> bool)
    requires m <= |s|
    requires forall i :: m <= i < |s| ==> keep(s[i])
    ensures Filter(s[m..], keep) == s[m..]
  {
    var t := s[m..];
    assert forall i :: 0 <= i < |t| ==> t[i] == s[m + i];
    FilterKeepsAll(t, keep);
  }

  lemma FilterSuffixNone<T>(s: seq<T>, m: nat, keep: T -> bool)
    requires m <= |s|
    requires forall i :: m <= i < |s| ==> !keep(s[i])
    ensures Filter(s[m..], keep) == []
  {
    var t := s[m..];
    assert forall i :: 0 <= i < |t| ==> t[i] == s[m + i];
    FilterKeepsNone(t, keep);
  }

  /** Filtering one more element at the front. */
  lemma FilterCons<T>(s: seq<T>, i: nat, keep: T -> bool)
    requires i < |s|
    ensures Filter(s[i..], keep) == (if keep(s[i]) then [s[i]] else []) + Filter(s[i + 1..], keep)
  {
    assert s[i..][1..] == s[i + 1..];
  }

  lemma {:induction false} FilterCount<T>(s: seq<T>, keep: T -> bool, x: T)
    ensures multiset(Filter(s, keep))[x] == if keep(x) then multiset(s)[x] else 0
  {
    if |s| > 0 {
      FilterCount(s[1..], keep, x);
      assert s == [s[0]] + s[1..];
    }
  }

  /** What a filter keeps depends only on the multiset it filters, not on the
      order of the elements. */
  lemma FilterPermutation<T>(s: seq<T>, t: seq<T>, keep: T -> bool)
    requires multiset(s) == multiset(t)
    ensures multiset(Filter(s, keep)) == multiset(Filter(t, keep))
  {
    var a := multiset(Filter(s, keep));
    var b := multiset(Filter(t, keep));
    forall x
      ensures a[x] == b[x]
    {
      FilterCount(s, keep, x);
      FilterCount(t, keep, x);
    }
    MultisetExtensionality(a, b);
  }

  lemma MultisetExtensionality<T>(a: multiset<T>, b: multiset<T>)
    requires forall x :: a[x] == b[x]
    ensures a == b
  {
  }

  lemma {:induction false} FilterKeepsAll<T>(s: seq<T>, keep: T -> bool)
    requires forall i :: 0 <= i < |s| ==> keep(s[i])
    ensures Filter(s, keep) == s
  {
    if |s| > 0 {
      FilterKeepsAll(s[1..], keep);
      assert s == [s[0]] + s[1..];
    }
  }

  lemma {:induction false} FilterKeepsNone<T>(s: seq<T>, keep: T -> bool)
    requires forall i :: 0 <= i < |s| ==> !keep(s[i])
    ensures Filter(s, keep) == []
  {
    if |s| > 0 {
      FilterKeepsNone(s[1..], keep);
    }
  }
}
