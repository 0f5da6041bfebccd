// The Bender--Knuth switch of one row: in a semistandard skew tableau the
// free k's and free k + 1's of a row form one interval, and the switch
// exchanges their numbers inside it.

module SwitchRows {
  import opened Outcomes
  import opened SkewTableaux
  import opened BenderKnuth

  /** The row with cells lo..m-1 set to k and m..hi-1 set to k + 1. */
  function Swapped(row: seq<Entry>, k: int, lo: int, m: int, hi: int): (r: seq<Entry>)
    ensures |r| == |row|
  {
    seq(|row|, j requires 0 <= j < |row| =>
      if lo <= j < m then Some(k) else if m <= j < hi then Some(k + 1) else row[j])
  }

  /** Neither neighbour of cell j holds back a k or a k + 1 there: the cell
      above is below k and the cell below is above k + 1. */
  predicate Clear(prev: seq<Entry>, next: seq<Entry>, k: int, j: int)
    requires 0 <= j < |prev| && j < |next|
  {
    (prev[j].None? || prev[j].value < k) && (next[j].None? || next[j].value > k + 1)
  }

  /** The free k's of the row are the cells lo..mid-1 and its free k + 1's
      the cells mid..hi-1; before lo the cells are at most k, with every k
      held by a k + 1 below, and from hi on at least k + 1, with every k + 1
      held by a k above. */
  predicate Interval(row: seq<Entry>, prev: seq<Entry>, next: seq<Entry>, k: int, lo: int, mid: int, hi: int)
    requires |row| <= |prev| && |row| <= |next|
  {
    0 <= lo <= mid <= hi <= |row|
    && (forall j :: lo <= j < mid ==> row[j] == Some(k) && Clear(prev, next, k, j))
    && (forall j :: mid <= j < hi ==> row[j] == Some(k + 1) && Clear(prev, next, k, j))
    && (forall j :: 0 <= j < lo ==>
          (row[j].None? || row[j].value < k || (row[j].value == k && next[j] == Some(k + 1))))
    && (forall j :: hi <= j < |row| ==>
          (row[j].Some? && (row[j].value > k + 1 || (row[j].value == k + 1 && prev[j] == Some(k)))))
  }

  /** Inside the interval the free cells are exactly the cells lo..hi-1. */
  lemma FreeCells(row: seq<Entry>, prev: seq<Entry>, next: seq<Entry>, k: int, lo: int, mid: int, hi: int, j: int)
    requires |row| <= |prev| && |row| <= |next| && Interval(row, prev, next, k, lo, mid, hi)
    requires 0 <= j < |row|
    ensures LowerFree(row, next, k, j) <==> lo <= j < mid
    ensures UpperFree(row, prev, k, j) <==> mid <= j < hi
  {
  }

  /** Cells outside lo..hi-1 keep their entries. */
  lemma SwappedOutside(row: seq<Entry>, k: int, lo: int, m: int, hi: int, j: int)
    requires 0 <= j < |row| && lo <= m <= hi && !(lo <= j < hi)
    ensures Swapped(row, k, lo, m, hi)[j] == row[j]
  {
  }

  // ---------------------------------------------------------------------
  // The loops on an interval
  // ---------------------------------------------------------------------

  /** The writing loop over non-negative indices sets the cells lo..hi-1. */
  lemma {:induction false} FillRange(row: seq<Entry>, lo: int, hi: int, v: Entry)
    requires 0 <= lo && hi <= |row|
    ensures Fill(row, lo, hi, v) == seq(|row|, j requires 0 <= j < |row| => if lo <= j < hi then v else row[j])
    decreases hi - lo
  {
    if hi > lo {
      FillRange(row, lo, hi - 1, v);
    }
  }

  /** How many of the cells x..y-1 come before n. */
  function Clamp(n: int, x: int, y: int): nat
    requires x <= y
  {
    if n <= x then 0 else if n >= y then y - x else n - x
  }

  /** On an interval the counting loop finds the cells lo..mid-1 and
      mid..hi-1. */
  lemma {:induction false} ScanInterval(row: seq<Entry>, prev: seq<Entry>, next: seq<Entry>, k: int, lo: int, mid: int, hi: int, n: nat)
    requires |row| <= |prev| && |row| <= |next| && Interval(row, prev, next, k, lo, mid, hi)
    requires n <= |row|
    ensures ScanRow(row, prev, next, k, n)
      == Scan(Clamp(n, lo, mid), Clamp(n, mid, hi),
              if n > lo && mid > lo then Some(lo) else None,
              if n > mid && hi > mid then Some(mid) else None)
  {
    if n > 0 {
      ScanInterval(row, prev, next, k, lo, mid, hi, n - 1);
      FreeCells(row, prev, next, k, lo, mid, hi, n - 1);
    }
  }

  /** Writing k + 1 over the cells x..y-1 of the interval's k's. */
  lemma FillUpper(row: seq<Entry>, k: int, lo: int, mid: int, hi: int, x: int)
    requires 0 <= lo <= x <= mid <= hi <= |row|
    requires forall j :: x <= j < mid ==> row[j] == Some(k)
    requires forall j :: lo <= j < x ==> row[j] == Some(k)
    requires forall j :: mid <= j < hi ==> row[j] == Some(k + 1)
    ensures Fill(row, x, mid, Some(k + 1)) == Swapped(row, k, lo, x, hi)
  {
    FillRange(row, x, mid, Some(k + 1));
  }

  /** Writing k over the cells mid..y-1 of the interval's k + 1's. */
  lemma FillLower(row: seq<Entry>, k: int, lo: int, mid: int, hi: int, y: int)
    requires 0 <= lo <= mid <= y <= hi <= |row|
    requires forall j :: lo <= j < mid ==> row[j] == Some(k)
    requires forall j :: mid <= j < hi ==> row[j] == Some(k + 1)
    ensures Fill(row, mid, y, Some(k)) == Swapped(row, k, lo, y, hi)
  {
    FillRange(row, mid, y, Some(k));
  }

  /** On an interval with a k's followed by b k + 1's, the switch writes
      b k's followed by a k + 1's. */
  lemma SwitchInterval(row: seq<Entry>, prev: seq<Entry>, next: seq<Entry>, k: int, lo: int, mid: int, hi: int)
    requires |row| <= |prev| && |row| <= |next| && Interval(row, prev, next, k, lo, mid, hi)
    ensures Switch(row, prev, next, k) == Swapped(row, k, lo, lo + hi - mid, hi)
  {
    ScanInterval(row, prev, next, k, lo, mid, hi, |row|);
    var a, b := mid - lo, hi - mid;
    var m := lo + hi - mid;
    if b > 0 && a > b {
      FillUpper(row, k, lo, mid, hi, m);
    } else if b > 0 && a < b {
      FillLower(row, k, lo, mid, hi, m);
    } else if b == 0 && a > 0 {
      FillUpper(row, k, lo, mid, hi, lo);
    } else {
      assert Swapped(row, k, lo, m, hi) == row;
    }
  }

  /** The switched interval is an interval again, with the numbers of k's
      and k + 1's exchanged, and switching it back restores the row. */
  lemma SwappedInterval(row: seq<Entry>, prev: seq<Entry>, next: seq<Entry>, k: int, lo: int, mid: int, hi: int)
    requires |row| <= |prev| && |row| <= |next| && Interval(row, prev, next, k, lo, mid, hi)
    ensures Interval(Swapped(row, k, lo, lo + hi - mid, hi), prev, next, k, lo, lo + hi - mid, hi)
    ensures Swapped(Swapped(row, k, lo, lo + hi - mid, hi), k, lo, mid, hi) == row
  {
    var m := lo + hi - mid;
    var u := Swapped(row, k, lo, m, hi);
    forall j | 0 <= j < |row|
      ensures Swapped(u, k, lo, mid, hi)[j] == row[j]
    {
    }
  }

  /** Switching a row twice against the same neighbours restores it. */
  lemma SwitchTwice(row: seq<Entry>, prev: seq<Entry>, next: seq<Entry>, k: int, lo: int, mid: int, hi: int)
    requires |row| <= |prev| && |row| <= |next| && Interval(row, prev, next, k, lo, mid, hi)
    ensures Switch(Switch(row, prev, next, k), prev, next, k) == row
  {
    var m := lo + hi - mid;
    var u := Swapped(row, k, lo, m, hi);
    SwitchInterval(row, prev, next, k, lo, mid, hi);
    SwappedInterval(row, prev, next, k, lo, mid, hi);
    SwitchInterval(u, prev, next, k, lo, m, hi);
    assert lo + hi - m == mid;
  }

  /** The interval only depends on the neighbours of the cells holding k or
      k + 1. */
  lemma IntervalTransfer(row: seq<Entry>, prev: seq<Entry>, next: seq<Entry>, prev': seq<Entry>, next': seq<Entry>,
                         k: int, lo: int, mid: int, hi: int)
    requires |row| <= |prev| && |row| <= |next| && |row| <= |prev'| && |row| <= |next'|
    requires Interval(row, prev, next, k, lo, mid, hi)
    requires forall j :: 0 <= j < |row| && (row[j] == Some(k) || row[j] == Some(k + 1)) ==> prev'[j] == prev[j] && next'[j] == next[j]
    ensures Interval(row, prev', next', k, lo, mid, hi)
  {
    forall j | lo <= j < hi
      ensures Clear(prev', next', k, j)
    {
      assert row[j] == Some(k) || row[j] == Some(k + 1);
    }
  }

  // ---------------------------------------------------------------------
  // Where the interval lies
  // ---------------------------------------------------------------------

  /** The entries, filled cells first to the right, weakly increase along
      the first n cells. */
  predicate SortedUpTo(s: seq<Entry>, n: int)
    requires n <= |s|
  {
    forall j, j' :: 0 <= j < j' < n && s[j].Some? && s[j'].Some? ==> s[j].value <= s[j'].value
  }

  /** Among the first n cells, a cell right of a filled cell is filled. */
  predicate FilledRightUpTo(s: seq<Entry>, n: int)
    requires n <= |s|
  {
    forall j, j' :: 0 <= j < j' < n && s[j].Some? ==> s[j'].Some?
  }

  /** A row with the row above and the padded row below, as in a
      semistandard skew tableau: rows weakly increase, columns strictly
      increase, and a filled cell has filled cells below it and to its
      right. */
  predicate Neighbourhood(row: seq<Entry>, prev: seq<Entry>, next: seq<Entry>)
    requires |row| <= |prev| && |row| <= |next|
  {
    SortedUpTo(row, |row|) && FilledRightUpTo(row, |row|)
    && SortedUpTo(prev, |row|) && FilledRightUpTo(prev, |row|)
    && SortedUpTo(next, |row|)
    && (forall j :: 0 <= j < |row| && prev[j].Some? ==> row[j].Some? && prev[j].value < row[j].value)
    && (forall j :: 0 <= j < |row| && row[j].Some? && next[j].Some? ==> row[j].value < next[j].value)
    && (forall j, j' :: 0 <= j < j' < |row| && row[j].Some? && next[j'].Some? ==> next[j].Some?)
  }

  /** The three boundaries of the interval. */
  datatype Bound = Low | Middle | High

  /** Cell j lies before the boundary. */
  predicate Before(b: Bound, row: seq<Entry>, prev: seq<Entry>, next: seq<Entry>, k: int, j: int)
    requires 0 <= j < |row| && |row| <= |prev| && |row| <= |next|
  {
    match b
    case Low => row[j].None? || row[j].value < k || (row[j].value == k && next[j] == Some(k + 1))
    case Middle => row[j].None? || row[j].value <= k
    case High => row[j].None? || row[j].value <= k || (row[j].value == k + 1 && prev[j] != Some(k))
  }

  /** The number of the first n cells that lie before the boundary. */
  function Boundary(b: Bound, row: seq<Entry>, prev: seq<Entry>, next: seq<Entry>, k: int, n: nat): (c: nat)
    requires n <= |row| <= |prev| && |row| <= |next|
    ensures c <= n
  {
    if n == 0 then 0
    else Boundary(b, row, prev, next, k, n - 1) + (if Before(b, row, prev, next, k, n - 1) then 1 else 0)
  }

  /** When the cells before a boundary come first, they are the cells
      before their count. */
  lemma {:induction false} BoundaryPrefix(b: Bound, row: seq<Entry>, prev: seq<Entry>, next: seq<Entry>, k: int, n: nat)
    requires n <= |row| <= |prev| && |row| <= |next|
    requires forall j, j' :: 0 <= j < j' < n && Before(b, row, prev, next, k, j') ==> Before(b, row, prev, next, k, j)
    ensures forall j :: 0 <= j < n ==> (Before(b, row, prev, next, k, j) <==> j < Boundary(b, row, prev, next, k, n))
  {
    if n > 0 {
      BoundaryPrefix(b, row, prev, next, k, n - 1);
    }
  }

  /** In a neighbourhood the cells before each boundary come first. */
  lemma BeforeFirst(b: Bound, row: seq<Entry>, prev: seq<Entry>, next: seq<Entry>, k: int)
    requires |row| <= |prev| && |row| <= |next| && Neighbourhood(row, prev, next)
    ensures forall j, j' :: 0 <= j < j' < |row| && Before(b, row, prev, next, k, j') ==> Before(b, row, prev, next, k, j)
  {
    forall j, j' | 0 <= j < j' < |row| && Before(b, row, prev, next, k, j')
      ensures Before(b, row, prev, next, k, j)
    {
      if row[j].Some? {
        assert row[j'].Some? && row[j].value <= row[j'].value;
        if b == Low && row[j].value == k && row[j'].value == k {
          assert next[j].Some?;
        }
        if b == High && row[j].value == k + 1 && prev[j].Some? {
          assert prev[j'].Some? && prev[j].value <= prev[j'].value;
        }
      }
    }
  }

  /** Where a cell lies relative to the boundaries tells what it holds. */
  lemma CellKind(row: seq<Entry>, prev: seq<Entry>, next: seq<Entry>, k: int, j: int)
    requires |row| <= |prev| && |row| <= |next| && Neighbourhood(row, prev, next) && 0 <= j < |row|
    ensures !Before(Low, row, prev, next, k, j) && Before(Middle, row, prev, next, k, j)
      ==> row[j] == Some(k) && Clear(prev, next, k, j)
    ensures !Before(Middle, row, prev, next, k, j) && Before(High, row, prev, next, k, j)
      ==> row[j] == Some(k + 1) && Clear(prev, next, k, j)
    ensures !Before(High, row, prev, next, k, j)
      ==> row[j].Some? && (row[j].value > k + 1 || (row[j].value == k + 1 && prev[j] == Some(k)))
  {
  }

  /** In a neighbourhood the free cells form an interval, bounded by the
      three boundaries. */
  lemma RowInterval(row: seq<Entry>, prev: seq<Entry>, next: seq<Entry>, k: int)
    requires |row| <= |prev| && |row| <= |next| && Neighbourhood(row, prev, next)
    ensures Interval(row, prev, next, k,
                     Boundary(Low, row, prev, next, k, |row|),
                     Boundary(Middle, row, prev, next, k, |row|),
                     Boundary(High, row, prev, next, k, |row|))
  {
    var n := |row|;
    BeforeFirst(Low, row, prev, next, k);
    BeforeFirst(Middle, row, prev, next, k);
    BeforeFirst(High, row, prev, next, k);
    BoundaryPrefix(Low, row, prev, next, k, n);
    BoundaryPrefix(Middle, row, prev, next, k, n);
    BoundaryPrefix(High, row, prev, next, k, n);
    var lo := Boundary(Low, row, prev, next, k, n);
    var mid := Boundary(Middle, row, prev, next, k, n);
    var hi := Boundary(High, row, prev, next, k, n);
    if mid < lo {
      assert Before(Low, row, prev, next, k, mid);
    }
    if hi < mid {
      assert Before(Middle, row, prev, next, k, hi);
    }
    forall j | 0 <= j < n
      ensures lo <= j < mid ==> row[j] == Some(k) && Clear(prev, next, k, j)
      ensures mid <= j < hi ==> row[j] == Some(k + 1) && Clear(prev, next, k, j)
      ensures hi <= j ==> row[j].Some? && (row[j].value > k + 1 || (row[j].value == k + 1 && prev[j] == Some(k)))
      ensures j < lo ==> (row[j].None? || row[j].value < k || (row[j].value == k && next[j] == Some(k + 1)))
    {
      CellKind(row, prev, next, k, j);
      if j < lo {
        assert Before(Low, row, prev, next, k, j);
      }
    }
  }
}
