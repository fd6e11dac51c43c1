/** Index sequences: picking elements by position, the positions a filter keeps, and
    permutations of `0..n-1` with their inverses. */
module Sequences {

  /** `[s[i] for i in idx]`. */
  function Pick<T>(s: seq<T>, idx: seq<int>): (r: seq<T>)
    requires InRange(idx, |s|)
    ensures |r| == |idx|
    ensures forall k :: 0 <= k < |idx| ==> r[k] == s[idx[k]]
  {
    seq(|idx|, k requires 0 <= k < |idx| => s[idx[k]])
  }

  /** `list(range(n))`. */
  function Range(n: nat): (r: seq<int>)
    ensures |r| == n && forall k :: 0 <= k < n ==> r[k] == k
  {
    seq(n, k => k)
  }

  predicate InRange(p: seq<int>, n: int) {
    forall k :: 0 <= k < |p| ==> 0 <= p[k] < n
  }

  predicate Distinct(p: seq<int>) {
    forall a, b :: 0 <= a < b < |p| ==> p[a] != p[b]
  }

  predicate Increasing(p: seq<int>) {
    forall a, b :: 0 <= a < b < |p| ==> p[a] < p[b]
  }

  /** `p` lists each of `0..n-1` once. */
  predicate IsPermutation(p: seq<int>, n: int) {
    |p| == n && InRange(p, n) && Distinct(p)
  }

  /** The positions of `s` whose element `keep` accepts, in increasing order: the rows a
      boolean mask selects. */
  function Positions<T>(s: seq<T>, keep: T -> bool): (pos: seq<int>)
    ensures InRange(pos, |s|) && |pos| <= |s|
    decreases |s|
  {
    if s == [] then []
    else
      var pre := Positions(s[..|s| - 1], keep);
      if keep(s[|s| - 1]) then pre + [|s| - 1] else pre
  }

  /** The kept positions come in increasing order. */
  lemma {:induction false} PositionsIncreasing<T>(s: seq<T>, keep: T -> bool)
    ensures Increasing(Positions(s, keep))
    decreases |s|
  {
    if s != [] {
      var n := |s| - 1;
      PositionsIncreasing(s[..n], keep);
      var pre := Positions(s[..n], keep);
      if keep(s[n]) {
        var pos := pre + [n];
        forall a, b | 0 <= a < b < |pos| ensures pos[a] < pos[b] {
          if b == |pre| {
            assert pos[a] == pre[a] < n;
          }
        }
      }
    }
  }

  /** Every kept position holds an element the mask accepts. */
  lemma {:induction false} PositionsKept<T>(s: seq<T>, keep: T -> bool)
    ensures forall k :: 0 <= k < |Positions(s, keep)| ==> keep(s[Positions(s, keep)[k]])
    decreases |s|
  {
    if s != [] {
      var n := |s| - 1;
      PositionsKept(s[..n], keep);
      var pre := Positions(s[..n], keep);
      var pos := Positions(s, keep);
      assert pos == if keep(s[n]) then pre + [n] else pre;
      forall k | 0 <= k < |pos| ensures keep(s[pos[k]]) {
        if k < |pre| {
          assert pos[k] == pre[k] && s[..n][pre[k]] == s[pre[k]];
        }
      }
    }
  }

  /** Every position whose element the mask accepts is kept. */
  lemma {:induction false} PositionsComplete<T>(s: seq<T>, keep: T -> bool)
    ensures forall i :: 0 <= i < |s| && keep(s[i]) ==> i in Positions(s, keep)
    decreases |s|
  {
    if s != [] {
      var n := |s| - 1;
      PositionsComplete(s[..n], keep);
      var pre := Positions(s[..n], keep);
      var pos := Positions(s, keep);
      forall i | 0 <= i < |s| && keep(s[i]) ensures i in pos {
        if i < n {
          assert s[..n][i] == s[i];
          assert i in pre;
        }
      }
    }
  }

  /** The mask keeps exactly the positions it accepts, each once, in increasing order. */
  lemma PositionsSpec<T>(s: seq<T>, keep: T -> bool)
    ensures var pos := Positions(s, keep);
      Increasing(pos)
      && (forall k :: 0 <= k < |pos| ==> keep(s[pos[k]]))
      && (forall i :: 0 <= i < |s| && keep(s[i]) ==> i in pos)
  {
    PositionsIncreasing(s, keep);
    PositionsKept(s, keep);
    PositionsComplete(s, keep);
  }

  /** Two masks that agree on every element of `s` keep the same positions. */
  lemma {:induction false} PositionsCongruent<T>(s: seq<T>, f: T -> bool, g: T -> bool)
    requires forall i :: 0 <= i < |s| ==> f(s[i]) == g(s[i])
    ensures Positions(s, f) == Positions(s, g)
    decreases |s|
  {
    if s != [] {
      PositionsCongruent(s[..|s| - 1], f, g);
    }
  }

  lemma {:induction false} DistinctCardinality(p: seq<int>)
    requires Distinct(p)
    ensures |set x | x in p| == |p|
  {
    if p != [] {
      var q := p[..|p| - 1];
      DistinctCardinality(q);
      assert (set x | x in p) == (set x | x in q) + {p[|p| - 1]};
    }
  }

  lemma {:induction false} SubsetCardinality(a: set<int>, b: set<int>)
    requires a <= b
    ensures |a| <= |b|
  {
    assert b == a + (b - a);
    assert a * (b - a) == {};
  }

  /** A permutation of `0..n-1` reaches every index (pigeonhole). */
  lemma PermutationOnto(p: seq<int>, n: int, k: int)
    requires IsPermutation(p, n) && 0 <= k < n
    ensures k in p
  {
    if k !in p {
      var image := set x | x in p;
      var all := set j | j in Range(n);
      var others := all - {k};
      DistinctCardinality(p);
      DistinctCardinality(Range(n));
      assert Range(n)[k] == k;
      assert |others| == n - 1;
      forall x | x in image ensures x in others {
        assert Range(n)[x] == x;
      }
      SubsetCardinality(image, others);
    }
  }

  /** Where `k` sits in `p` (`p.index(k)`). */
  function IndexOf(p: seq<int>, k: int): (i: int)
    requires k in p
    ensures 0 <= i < |p| && p[i] == k
  {
    if p[0] == k then 0 else 1 + IndexOf(p[1..], k)
  }

  /** The inverse permutation: `Inverse(p)[p[i]] == i`. */
  function Inverse(p: seq<int>): (q: seq<int>)
    requires IsPermutation(p, |p|)
    ensures IsPermutation(q, |p|)
    ensures forall k :: 0 <= k < |p| ==> p[q[k]] == k
    ensures forall i :: 0 <= i < |p| ==> q[p[i]] == i
  {
    var q := seq(|p|, k requires 0 <= k < |p| => PermutationOnto(p, |p|, k); IndexOf(p, k));
    assert forall a, b :: 0 <= a < b < |p| ==> p[q[a]] != p[q[b]];
    q
  }

  /** Picking by `p` and then by its inverse gives back the original. */
  lemma PickInverse<T>(s: seq<T>, p: seq<int>)
    requires IsPermutation(p, |s|)
    ensures Pick(Pick(s, p), Inverse(p)) == s
  {
    var q := Inverse(p);
    forall k | 0 <= k < |s|
      ensures Pick(Pick(s, p), q)[k] == s[k]
    {
      assert p[q[k]] == k;
    }
  }

  /** Removing the entry `n` from a permutation of `0..n` leaves a permutation of `0..n-1`,
      and the entries on either side of it lie in `0..n-1`. */
  lemma RemoveLargest(p: seq<int>, n: nat, j: int)
    requires IsPermutation(p, n + 1) && 0 <= j < |p| && p[j] == n
    ensures IsPermutation(p[..j] + p[j + 1..], n)
    ensures InRange(p[..j], n) && InRange(p[j + 1..], n)
  {
    var q := p[..j] + p[j + 1..];
    forall a | 0 <= a < |q| ensures 0 <= q[a] < n {
      var ia := if a < j then a else a + 1;
      assert q[a] == p[ia] && ia != j;
    }
    forall a, b | 0 <= a < b < |q| ensures q[a] != q[b] {
      var ia := if a < j then a else a + 1;
      var ib := if b < j then b else b + 1;
      assert q[a] == p[ia] && q[b] == p[ib] && ia < ib;
    }
  }

  /** Picking by a concatenation of index lists concatenates the picks. */
  lemma PickConcat<T>(s: seq<T>, a: seq<int>, b: seq<int>)
    requires InRange(a, |s|) && InRange(b, |s|)
    ensures InRange(a + b, |s|) && Pick(s, a + b) == Pick(s, a) + Pick(s, b)
  {
    assert InRange(a + b, |s|) by {
      forall k | 0 <= k < |a + b| ensures 0 <= (a + b)[k] < |s| {
        if k >= |a| {
          assert (a + b)[k] == b[k - |a|];
        }
      }
    }
  }

  /** Picking from `s` by `p` splits where `p` picks the last element of `s`. */
  lemma PickSplit<T>(s: seq<T>, p: seq<int>, j: int)
    requires s != [] && |p| == |s| && InRange(p, |s|) && 0 <= j < |p| && p[j] == |s| - 1
    requires InRange(p[..j], |s| - 1) && InRange(p[j + 1..], |s| - 1)
    ensures Pick(s, p) == Pick(s[..|s| - 1], p[..j]) + [s[|s| - 1]] + Pick(s[..|s| - 1], p[j + 1..])
  {
    var n := |s| - 1;
    var left, right := Pick(s[..n], p[..j]), Pick(s[..n], p[j + 1..]);
    var whole := left + [s[n]] + right;
    forall k | 0 <= k < |p| ensures Pick(s, p)[k] == whole[k] {
      if k > j {
        assert whole[k] == right[k - j - 1];
      }
    }
  }

  /** Taking one element out of the middle of a sequence takes it out of its multiset. */
  lemma MultisetMiddle<T>(left: seq<T>, e: T, right: seq<T>)
    ensures multiset(left + [e] + right) == multiset(left + right) + multiset{e}
  {
  }

  /** Picking by `p` is picking all but the last element by `p` without its entry for
      that element, plus that element once. */
  lemma PickDropLast<T>(s: seq<T>, p: seq<int>, j: int)
    requires s != [] && IsPermutation(p, |s|) && 0 <= j < |p| && p[j] == |s| - 1
    ensures IsPermutation(p[..j] + p[j + 1..], |s| - 1)
    ensures multiset(Pick(s, p))
         == multiset(Pick(s[..|s| - 1], p[..j] + p[j + 1..])) + multiset{s[|s| - 1]}
  {
    var n := |s| - 1;
    var init := s[..n];
    RemoveLargest(p, n, j);
    PickConcat(init, p[..j], p[j + 1..]);
    PickSplit(s, p, j);
    MultisetMiddle(Pick(init, p[..j]), s[n], Pick(init, p[j + 1..]));
  }

  /** Picking by a permutation rearranges the elements and keeps every one of them. */
  lemma {:induction false} PickPermutationMultiset<T>(s: seq<T>, p: seq<int>)
    requires IsPermutation(p, |s|)
    ensures multiset(Pick(s, p)) == multiset(s)
    decreases |s|
  {
    if s != [] {
      var n := |s| - 1;
      PermutationOnto(p, |s|, n);
      var j := IndexOf(p, n);
      PickDropLast(s, p, j);
      PickPermutationMultiset(s[..n], p[..j] + p[j + 1..]);
      assert s == s[..n] + [s[n]];
    }
  }
}
