// Integer partitions as the tableau classes use them: positive parts in
// weakly decreasing order, their size, containment, `Partition(l)` and
// `Partition.add_cell`.

module Partitions {
  import opened Outcomes

  /** Positive parts in weakly decreasing order. */
  predicate IsPartition(p: seq<int>)
  {
    (forall k :: 0 <= k < |p| ==> p[k] > 0) && (forall k :: 0 < k < |p| ==> p[k - 1] >= p[k])
  }

  type Partition = p: seq<int> | IsPartition(p) witness []

  /** The number of boxes. */
  function Size(p: seq<int>): int
  {
    if |p| == 0 then 0 else Size(p[..|p| - 1]) + p[|p| - 1]
  }

  /** `Partition.contains`: every row of `small` fits in the same row of `big`. */
  predicate Contains(big: seq<int>, small: seq<int>)
  {
    |big| >= |small| && forall k :: 0 <= k < |small| ==> big[k] >= small[k]
  }

  lemma {:induction false} SizeConcat(a: seq<int>, b: seq<int>)
    ensures Size(a + b) == Size(a) + Size(b)
    decreases |b|
  {
    if |b| == 0 {
      assert a + b == a;
    } else {
      assert (a + b)[..|a + b| - 1] == a + b[..|b| - 1];
      SizeConcat(a, b[..|b| - 1]);
    }
  }

  lemma SizeUpdate(p: seq<int>, k: nat, v: int)
    requires k < |p|
    ensures Size(p[k := v]) == Size(p) - p[k] + v
  {
    var pre, post := p[..k], p[k + 1..];
    assert p == pre + [p[k]] + post;
    assert p[k := v] == pre + [v] + post;
    SizeConcat(pre + [p[k]], post);
    SizeConcat(pre, [p[k]]);
    SizeConcat(pre + [v], post);
    SizeConcat(pre, [v]);
    assert [p[k]][..0] == [] && [v][..0] == [];
  }

  /** Parts of at least one: at least as many boxes as rows. */
  lemma {:induction false} SizeAtLeastLength(p: seq<int>)
    requires forall k :: 0 <= k < |p| ==> p[k] >= 1
    ensures Size(p) >= |p|
    decreases |p|
  {
    if |p| > 0 {
      SizeAtLeastLength(p[..|p| - 1]);
    }
  }

  /** A row-by-row larger sequence has at least as many boxes, and the same
      number only when it is the same sequence. */
  lemma {:induction false} SizeDominates(big: seq<int>, small: seq<int>)
    requires |big| == |small| && forall k :: 0 <= k < |small| ==> big[k] >= small[k]
    ensures Size(big) >= Size(small)
    ensures Size(big) == Size(small) ==> big == small
    decreases |small|
  {
    if |small| > 0 {
      var n := |small| - 1;
      SizeDominates(big[..n], small[..n]);
      if Size(big) == Size(small) {
        assert big == big[..n] + [big[n]];
        assert small == small[..n] + [small[n]];
      }
    }
  }

  /** A partition list: non-negative, weakly decreasing. */
  predicate IsPartitionList(l: seq<int>)
  {
    (forall k :: 0 <= k < |l| ==> l[k] >= 0) && (forall k :: 0 < k < |l| ==> l[k - 1] >= l[k])
  }

  /** The number of leading positive entries. */
  function PositiveCount(l: seq<int>): (n: nat)
    ensures n <= |l|
  {
    if |l| == 0 || l[0] <= 0 then 0 else 1 + PositiveCount(l[1..])
  }

  lemma {:induction false} PositiveCountSplit(l: seq<int>)
    requires IsPartitionList(l)
    ensures IsPartition(l[..PositiveCount(l)])
    ensures forall k :: PositiveCount(l) <= k < |l| ==> l[k] == 0
  {
    if |l| > 0 && l[0] > 0 {
      PositiveCountSplit(l[1..]);
      var n := PositiveCount(l);
      assert l[..n] == [l[0]] + l[1..][..n - 1];
      forall k | n <= k < |l|
        ensures l[k] == 0
      {
        assert l[k] == l[1..][k - 1];
      }
    } else if |l| > 0 {
      forall k | 0 <= k < |l|
        ensures l[k] == 0
      {
        assert l[0] >= l[k] by {
          DecreasingFrom(l, 0, k);
        }
      }
    }
  }

  lemma {:induction false} DecreasingFrom(l: seq<int>, i: nat, k: nat)
    requires IsPartitionList(l) && i <= k < |l|
    ensures l[i] >= l[k]
    decreases k - i
  {
    if i < k {
      DecreasingFrom(l, i + 1, k);
    }
  }

  /** `Partition(l)`: a non-negative, weakly decreasing list with its trailing
      zeros dropped. Other lists are refused by the Partition class, whose
      messages are not part of this model. */
  function ToPartition(l: seq<int>): (r: Result<Partition>)
    ensures r.Ok? <==> IsPartitionList(l)
    ensures r.Ok? ==> r.value <= l && forall k :: |r.value| <= k < |l| ==> l[k] == 0
  {
    if IsPartitionList(l) then
      PositiveCountSplit(l);
      var p: Partition := l[..PositiveCount(l)];
      Ok(p)
    else Err(ValueError(""))
  }

  /** Row r can take one more box: it is a new row below the last one, or a
      row shorter than the row above it. */
  predicate Addable(p: Partition, r: nat)
  {
    r == |p| || (r < |p| && (r == 0 || p[r - 1] > p[r]))
  }

  /** `Partition.add_cell(r)`. */
  function AddCell(p: Partition, r: nat): (q: Result<Partition>)
    ensures q.Ok? <==> Addable(p, r)
  {
    if r == |p| then
      var q: Partition := p + [1];
      Ok(q)
    else if r < |p| && (r == 0 || p[r - 1] > p[r]) then
      var q: Partition := p[r := p[r] + 1];
      Ok(q)
    else Err(ValueError(""))
  }


  lemma SizeOne(x: int)
    ensures Size([x]) == x
  {
    assert [x][..0] == [];
  }

  lemma {:induction false} PositiveCountIs(l: seq<int>, n: nat)
    requires n <= |l| && (forall k :: 0 <= k < n ==> l[k] > 0) && (n < |l| ==> l[n] <= 0)
    ensures PositiveCount(l) == n
  {
    if n > 0 {
      PositiveCountIs(l[1..], n - 1);
    }
  }

  /** A partition is its own `Partition(...)`. */
  lemma ToPartitionOfPartition(p: Partition)
    ensures ToPartition(p) == Ok(p)
  {
    PositiveCountIs(p, |p|);
    assert p[..|p|] == p;
  }


  /** A list of positive parts is its own partition. */
  lemma PositiveList(l: seq<int>, q: Partition)
    requires ToPartition(l) == Ok(q) && forall k :: 0 <= k < |l| ==> l[k] > 0
    ensures q == l
  {
    PositiveCountIs(l, |l|);
    assert l[..|l|] == l;
  }

  /** The entry at k, or 0 past either end. */
  function At(s: seq<int>, k: int): int
  {
    if 0 <= k < |s| then s[k] else 0
  }

  /** A sequence of positive entries has no zeros from n on only when it
      ends at n. */
  lemma NoRoomAfter(a: seq<int>, n: nat)
    requires n <= |a| && (forall k :: n <= k < |a| ==> a[k] == 0) && (forall k :: 0 <= k < |a| ==> a[k] > 0)
    ensures n == |a|
  {
    assert At(a, n) == 0;
  }

  /** Two partitions agreeing at every row below a bound, both shorter than
      it, are equal. */
  lemma SamePartition(p: Partition, q: Partition, bound: nat)
    requires |p| <= bound && |q| <= bound
    requires forall i :: 0 <= i < bound ==> At(p, i) == At(q, i)
    ensures p == q
  {
    if |p| < bound {
      assert At(q, |p|) == 0;
    }
    if |q| < bound {
      assert At(p, |q|) == 0;
    }
    assert |p| == |q|;
    forall i | 0 <= i < |p|
      ensures p[i] == q[i]
    {
      assert At(p, i) == At(q, i);
    }
  }
}
