/** Two helpers of the test suite: the Fisher–Yates shuffle used to feed
    annotations in random order, and the duplicate check by hash value. The
    random draws and the elements' hash are parameters. */
module TestHelpers {
  import opened Wrappers

  /** `s` with the entries at `a` and `b` exchanged. */
  function Swap<T>(s: seq<T>, a: nat, b: nat): (r: seq<T>)
    requires a < |s| && b < |s|
    ensures |r| == |s| && r[a] == s[b] && r[b] == s[a]
    ensures forall k :: 0 <= k < |s| && k != a && k != b ==> r[k] == s[k]
  {
    s[a := s[b]][b := s[a]]
  }

  /** An exchange inside the first `i` entries permutes that prefix and
      leaves the rest alone. */
  lemma SwapInPrefix<T>(s: seq<T>, a: nat, b: nat, i: nat)
    requires a < i && b < i && i <= |s|
    ensures multiset(Swap(s, a, b)[..i]) == multiset(s[..i])
    ensures Swap(s, a, b)[i..] == s[i..]
    ensures multiset(Swap(s, a, b)) == multiset(s)
  {
    var r := Swap(s, a, b);
    assert r[..i] == s[..i][a := s[b]][b := s[a]];
    assert r == r[..i] + r[i..] && s == s[..i] + s[i..];
  }

  /** The draws a run of the shuffle can make on `i` remaining entries: the
      first draw is below `i`, the next below `i - 1`, and so on. */
  predicate ValidPicks(picks: seq<nat>, i: nat)
    decreases i
  {
    |picks| == i && (i == 0 || (picks[0] < i && ValidPicks(picks[1..], i - 1)))
  }

  /** The shuffle with `i` entries still to place: the draw exchanges an
      entry below `i` with the last unplaced one, which is then final. */
  function ShuffleFrom<T>(s: seq<T>, i: nat, picks: seq<nat>): (r: seq<T>)
    requires i <= |s| && ValidPicks(picks, i)
    ensures |r| == |s| && multiset(r) == multiset(s)
    ensures r[i..] == s[i..]
    decreases i
  {
    if i == 0 then s
    else
      var s2 := Swap(s, picks[0], i - 1);
      SwapInPrefix(s, picks[0], i - 1, i);
      var r := ShuffleFrom(s2, i - 1, picks[1..]);
      SuffixShrinks(r, s2, i);
      r
  }

  /** Agreement from `i - 1` on implies agreement from `i` on. */
  lemma SuffixShrinks<T>(r: seq<T>, s: seq<T>, i: nat)
    requires 0 < i <= |r| == |s| && r[i - 1..] == s[i - 1..]
    ensures r[i..] == s[i..]
  {
    assert r[i..] == r[i - 1..][1..];
    assert s[i..] == s[i - 1..][1..];
  }

  /** One step of the shuffle, with the first of the remaining draws. */
  lemma AdvanceShuffle<T>(s: seq<T>, i: nat, rest: seq<nat>)
    requires 0 < i <= |s| && ValidPicks(rest, i)
    ensures rest[0] < i && ValidPicks(rest[1..], i - 1)
    ensures ShuffleFrom(s, i, rest) == ShuffleFrom(Swap(s, rest[0], i - 1), i - 1, rest[1..])
  {
  }

  /** One step of the shuffle with draw `k`. */
  lemma ShuffleStep<T>(s: seq<T>, i: nat, k: nat, rest: seq<nat>)
    requires 0 < i <= |s| && k < i && ValidPicks(rest, i - 1)
    ensures ValidPicks([k] + rest, i)
    ensures ShuffleFrom(s, i, [k] + rest) == ShuffleFrom(Swap(s, k, i - 1), i - 1, rest)
  {
    var picks := [k] + rest;
    assert picks[0] == k && picks[1..] == rest;
    AdvanceShuffle(s, i, picks);
  }

  /** The shuffle: a copy of `input` in which, for `i` counting down from
      the length, the entry at a random index below `i` is exchanged with
      the one at `i - 1`. `picks` are the random draws in the order they are
      made, each below the number of entries still to place. The input sequence is a value and stays as it was. */
  method Shuffle<T>(input: seq<T>, picks: seq<nat>) returns (shuffled: seq<T>)
    requires ValidPicks(picks, |input|)
    ensures |shuffled| == |input| && multiset(shuffled) == multiset(input)
    ensures shuffled == ShuffleFrom(input, |input|, picks)
  {
    var i: nat := |input|;
    var draws := picks;
    shuffled := input;
    while i > 0
      invariant i <= |input| && |shuffled| == |input|
      invariant ValidPicks(draws, i)
      invariant ShuffleFrom(shuffled, i, draws) == ShuffleFrom(input, |input|, picks)
    {
      var randomIndex := draws[0];
      AdvanceShuffle(shuffled, i, draws);
      shuffled := Swap(shuffled, randomIndex, i - 1);
      draws := draws[1..];
      i := i - 1;
    }
  }

  /** Every arrangement of the entries is the outcome of some draws: given
      a target that agrees with `s` from `i` on and holds the same entries
      below `i`, draws for the remaining steps produce it. */
  lemma {:induction false} Reachable<T>(s: seq<T>, t: seq<T>, i: nat) returns (picks: seq<nat>)
    requires i <= |s| == |t|
    requires multiset(s[..i]) == multiset(t[..i]) && s[i..] == t[i..]
    ensures ValidPicks(picks, i) && ShuffleFrom(s, i, picks) == t
    decreases i
  {
    if i == 0 {
      assert s == s[i..] && t == t[i..];
      picks := [];
    } else {
      var k := PlaceLast(s, t, i);
      var rest := Reachable(Swap(s, k, i - 1), t, i - 1);
      ShuffleStep(s, i, k, rest);
      picks := [k] + rest;
    }
  }

  /** The draw that puts the target's entry `i - 1` in place, and what the
      exchange leaves for the remaining steps. */
  lemma PlaceLast<T>(s: seq<T>, t: seq<T>, i: nat) returns (k: nat)
    requires 0 < i <= |s| == |t|
    requires multiset(s[..i]) == multiset(t[..i]) && s[i..] == t[i..]
    ensures k < i
    ensures multiset(Swap(s, k, i - 1)[..i - 1]) == multiset(t[..i - 1])
    ensures Swap(s, k, i - 1)[i - 1..] == t[i - 1..]
  {
    assert t[..i] == t[..i - 1] + [t[i - 1]];
    k := IndexOf(s[..i], t[i - 1]);
    var s2 := Swap(s, k, i - 1);
    SwapInPrefix(s, k, i - 1, i);
    DropLast(s2[..i], t[..i]);
    assert s2[..i][..i - 1] == s2[..i - 1] && t[..i][..i - 1] == t[..i - 1];
    SuffixGrows(s2, t, i);
  }

  /** A position at which an entry of `s` occurs. */
  lemma IndexOf<T>(s: seq<T>, x: T) returns (k: nat)
    requires x in multiset(s)
    ensures k < |s| && s[k] == x
  {
    assert x in s;
    k :| 0 <= k < |s| && s[k] == x;
  }

  /** Two sequences holding the same entries and ending in the same entry
      hold the same entries without it. */
  lemma DropLast<T>(a: seq<T>, b: seq<T>)
    requires 0 < |a| == |b| && multiset(a) == multiset(b) && a[|a| - 1] == b[|b| - 1]
    ensures multiset(a[..|a| - 1]) == multiset(b[..|b| - 1])
  {
    var x := a[|a| - 1];
    assert a == a[..|a| - 1] + [x] && b == b[..|b| - 1] + [x];
    MultisetCancel(multiset(a[..|a| - 1]), multiset(b[..|b| - 1]), x);
  }

  /** Agreement from `i` on and at `i - 1` is agreement from `i - 1` on. */
  lemma SuffixGrows<T>(r: seq<T>, s: seq<T>, i: nat)
    requires 0 < i <= |r| == |s| && r[i..] == s[i..] && r[i - 1] == s[i - 1]
    ensures r[i - 1..] == s[i - 1..]
  {
    assert r[i - 1..] == [r[i - 1]] + r[i..];
    assert s[i - 1..] == [s[i - 1]] + s[i..];
  }

  lemma MultisetCancel<T>(a: multiset<T>, b: multiset<T>, x: T)
    requires a + multiset{x} == b + multiset{x}
    ensures a == b
  {
    assert forall y :: a[y] == (a + multiset{x})[y] - multiset{x}[y];
    assert forall y :: b[y] == (b + multiset{x})[y] - multiset{x}[y];
  }

  /** Any reordering of the input is a possible result of the shuffle. */
  lemma ShuffleReachesEveryPermutation<T>(input: seq<T>, t: seq<T>) returns (picks: seq<nat>)
    requires |t| == |input| && multiset(t) == multiset(input)
    ensures ValidPicks(picks, |input|) && ShuffleFrom(input, |input|, picks) == t
  {
    assert input[..|input|] == input && t[..|t|] == t;
    picks := Reachable(input, t, |input|);
  }

  /** No two entries share a hash value. */
  predicate HashesDistinct<T>(s: seq<T>, hash: T -> int)
  {
    forall i, j :: 0 <= i < j < |s| ==> hash(s[i]) != hash(s[j])
  }

  /** The duplicate check: walks the entries, remembering the first entry
      seen under each hash, and stops at the first entry whose hash is
      already known. `logged` is the pair it reports then: the remembered
      entry and the new one. */
  method HasDuplicates<T>(input: seq<T>, hash: T -> int) returns (dup: bool, logged: Option<(T, T)>)
    ensures dup <==> !HashesDistinct(input, hash)
    ensures dup <==> logged.Some?
    ensures logged.Some? ==>
              exists i, j :: 0 <= i < j < |input| && logged.value == (input[i], input[j])
                             && hash(input[i]) == hash(input[j]) && HashesDistinct(input[..j], hash)
  {
    var registry: map<int, T> := map[];
    ghost var first: map<int, nat> := map[];
    var k := 0;
    while k < |input|
      invariant k <= |input| && HashesDistinct(input[..k], hash)
      invariant registry.Keys == first.Keys
      invariant forall h :: h in first ==> first[h] < k && hash(input[first[h]]) == h && registry[h] == input[first[h]]
      invariant forall m :: 0 <= m < k ==> hash(input[m]) in registry
    {
      var element := input[k];
      var elementHash := hash(element);
      if elementHash !in registry {
        registry := registry[elementHash := element];
        first := first[elementHash := k];
        forall i, j | 0 <= i < j < k + 1
          ensures hash(input[i]) != hash(input[j])
        {
          if j < k {
            assert input[..k][i] == input[i] && input[..k][j] == input[j];
          }
        }
      } else {
        var i := first[elementHash];
        assert hash(input[i]) == hash(input[k]);
        return true, Some((registry[elementHash], element));
      }
      k := k + 1;
    }
    assert input[..k] == input;
    return false, None;
  }

  /** Arrays of at most one entry have no duplicates. */
  lemma ShortArraysHaveNoDuplicates<T>(input: seq<T>, hash: T -> int)
    requires |input| <= 1
    ensures HashesDistinct(input, hash)
  {
  }
}
