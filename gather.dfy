/**
 * Reading a sequence through a list of positions. When the positions are
 * distinct and there are as many as elements, the result is a rearrangement
 * of the sequence: the same multiset of elements.
 */
module Gathering {

  /** Every position is an index of a sequence of length `n`. */
  ghost predicate InBounds(idx: seq<int>, n: int)
  {
    forall j :: 0 <= j < |idx| ==> 0 <= idx[j] < n
  }

  /** No position occurs twice. */
  ghost predicate Distinct(idx: seq<int>)
  {
    forall a, b :: 0 <= a < b < |idx| ==> idx[a] != idx[b]
  }

  /** The elements of `p` at the positions `idx`, in that order. */
  function Gather<T>(p: seq<T>, idx: seq<int>): (q: seq<T>)
    requires InBounds(idx, |p|)
    ensures |q| == |idx|
    ensures forall j :: 0 <= j < |idx| ==> q[j] == p[idx[j]]
  {
    seq(|idx|, j requires 0 <= j < |idx| => p[idx[j]])
  }

  /** Positions above `k` move down by one once element `k` is taken out. */
  function Close(idx: seq<int>, k: int): (r: seq<int>)
    ensures |r| == |idx|
  {
    seq(|idx|, j requires 0 <= j < |idx| => if idx[j] < k then idx[j] else idx[j] - 1)
  }

  /** Distinct positions that avoid `k` stay distinct and in bounds once `k` is closed up. */
  lemma CloseKeeps(idx: seq<int>, n: int, k: int)
    requires InBounds(idx, n) && Distinct(idx) && 0 <= k < n
    requires forall j :: 0 <= j < |idx| ==> idx[j] != k
    ensures InBounds(Close(idx, k), n - 1) && Distinct(Close(idx, k))
  {
    var r := Close(idx, k);
    forall a, b | 0 <= a < b < |r|
      ensures r[a] != r[b]
    {
      assert idx[a] != idx[b];
    }
  }

  /** Gathering around a removed element reads the same elements as before. */
  lemma GatherAround<T>(p: seq<T>, idx: seq<int>, k: int)
    requires 0 <= k < |p| && InBounds(idx, |p|)
    requires forall j :: 0 <= j < |idx| ==> idx[j] != k
    ensures InBounds(Close(idx, k), |p| - 1)
    ensures Gather(p[..k] + p[k + 1..], Close(idx, k)) == Gather(p, idx)
  {
    var rest := p[..k] + p[k + 1..];
    var moved := Close(idx, k);
    assert InBounds(moved, |rest|);
    forall j | 0 <= j < |idx|
      ensures Gather(rest, moved)[j] == Gather(p, idx)[j]
    {
      if idx[j] < k {
        assert rest[idx[j]] == p[idx[j]];
      } else {
        assert rest[idx[j] - 1] == p[idx[j]];
      }
    }
  }

  /** Taking element `k` out of `p` takes one copy of it out of the multiset. */
  lemma RemoveOne<T>(p: seq<T>, k: int)
    requires 0 <= k < |p|
    ensures multiset(p) == multiset(p[..k] + p[k + 1..]) + multiset{p[k]}
  {
    assert p == p[..k] + [p[k]] + p[k + 1..];
  }

  /** The last position of a distinct list occurs nowhere before it. */
  lemma LastAbsent(idx: seq<int>)
    requires |idx| > 0 && Distinct(idx)
    ensures Distinct(idx[..|idx| - 1])
    ensures forall j :: 0 <= j < |idx| - 1 ==> idx[j] != idx[|idx| - 1]
  {
    var front := idx[..|idx| - 1];
    forall a, b | 0 <= a < b < |front|
      ensures front[a] != front[b]
    {
      assert front[a] == idx[a] && front[b] == idx[b];
    }
  }

  /** Gathering through distinct positions, as many as there are elements, rearranges the elements. */
  lemma {:induction false} GatherPermutes<T>(p: seq<T>, idx: seq<int>)
    requires |idx| == |p| && InBounds(idx, |p|) && Distinct(idx)
    ensures multiset(Gather(p, idx)) == multiset(p)
  {
    if |p| > 0 {
      var n := |p|;
      var k := idx[n - 1];
      var front := idx[..n - 1];
      LastAbsent(idx);
      assert InBounds(front, n);
      assert forall j :: 0 <= j < |front| ==> front[j] != k;
      var rest := p[..k] + p[k + 1..];
      CloseKeeps(front, n, k);
      GatherAround(p, front, k);
      GatherPermutes(rest, Close(front, k));
      assert Gather(p, idx) == Gather(p, front) + [p[k]];
      RemoveOne(p, k);
    }
  }
}
