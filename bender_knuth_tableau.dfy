// The Bender--Knuth switches on whole semistandard skew tableaux: each
// switch keeps the tableau semistandard and its shape, switches commute,
// and `bender_knuth_involution` is an involution.

module BenderKnuthTableaux {
  import opened Outcomes
  import opened Partitions
  import opened SkewTableaux
  import opened BenderKnuth
  import opened SwitchRows

  // ---------------------------------------------------------------------
  // Semistandard, cell by cell
  // ---------------------------------------------------------------------

  /** A row that weakly increases, with every cell right of a filled cell
      filled. */
  predicate RowOrdered(row: seq<Entry>)
  {
    SortedUpTo(row, |row|) && FilledRightUpTo(row, |row|)
  }

  /** Each filled cell of the upper row has a filled cell below it in the
      lower row, holding a larger entry. */
  predicate Stacked(upper: seq<Entry>, lower: seq<Entry>)
  {
    forall j :: 0 <= j < |lower| && j < |upper| && upper[j].Some?
      ==> lower[j].Some? && upper[j].value < lower[j].value
  }

  /** Rows i - 1 and i are stacked. */
  predicate StackedAt(t: Rows, i: int)
    requires 0 < i < |t|
  {
    Stacked(t[i - 1], t[i])
  }

  /** A skew tableau whose rows weakly increase and whose columns strictly
      increase, cell by cell. */
  predicate Ordered(t: Rows)
  {
    IsSkewShape(t)
    && (forall i :: 0 <= i < |t| ==> RowOrdered(t[i]))
    && (forall i :: 0 < i < |t| ==> StackedAt(t, i))
  }

  /** A semistandard skew tableau is ordered cell by cell. */
  lemma SemistandardOrdered(t: Rows)
    requires IsSkewShape(t) && IsSemistandard(t)
    ensures Ordered(t)
  {
    forall i | 0 <= i < |t|
      ensures RowOrdered(t[i])
    {
      forall j, j' | 0 <= j < j' < |t[i]| && t[i][j].Some?
        ensures t[i][j'].Some? && t[i][j].value <= t[i][j'].value
      {
        RowOrder(t[i], j, j');
      }
    }
    forall i | 0 < i < |t|
      ensures StackedAt(t, i)
    {
      forall j | 0 <= j < |t[i]| && j < |t[i - 1]| && t[i - 1][j].Some?
        ensures t[i][j].Some? && t[i - 1][j].value < t[i][j].value
      {
        assert NoneCounts(t)[i - 1] >= NoneCounts(t)[i];
        assert t[i - 1][j].None? <==> j < NoneCount(t[i - 1]);
        assert t[i][j].None? <==> j < NoneCount(t[i]);
        ColumnOrder(t, i - 1, j);
      }
    }
  }

  /** The row below, padded with None, as the neighbourhood needs it. */
  lemma PaddedBelow(row: seq<Entry>, below: seq<Entry>, next: seq<Entry>)
    requires RowOrdered(below) && Stacked(row, below)
    requires |below| <= |row| && next == below + Nones(|row| - |below|)
    ensures SortedUpTo(next, |row|)
    ensures forall j :: 0 <= j < |row| && row[j].Some? && next[j].Some? ==> row[j].value < next[j].value
    ensures forall j, j' :: 0 <= j < j' < |row| && row[j].Some? && next[j'].Some? ==> next[j].Some?
  {
    forall j | 0 <= j < |row|
      ensures next[j] == if j < |below| then below[j] else None
    {
    }
  }

  /** The row above, as the neighbourhood needs it. */
  lemma PrefixOrdered(row: seq<Entry>, prev: seq<Entry>)
    requires RowOrdered(prev) && |row| <= |prev|
    ensures SortedUpTo(prev, |row|) && FilledRightUpTo(prev, |row|)
  {
  }

  /** An ordered row with its None cells first has weakly increasing
      entries. */
  lemma FilledIncreasing(row: seq<Entry>)
    requires NonesFirst(row) && RowOrdered(row)
    ensures WeaklyIncreasing(Filled(row))
  {
    var m, f := NoneCount(row), Filled(row);
    forall p | 0 <= p < |f| - 1
      ensures f[p] <= f[p + 1]
    {
      FilledAt(row, m + p);
      FilledAt(row, m + p + 1);
    }
  }

  /** Column j of the first n rows of an ordered tableau strictly
      increases; when it is not empty, row n - 1 does not hold a None in
      column j, and its entry there, if any, ends the column. */
  lemma {:induction false} ColumnPrefix(t: Rows, j: int, n: nat)
    requires Ordered(t) && n <= |t|
    ensures StrictlyIncreasing(Column(t[..n], j))
    ensures |Column(t[..n], j)| > 0 ==> 0 < n && NoneCount(t[n - 1]) <= j
    ensures |Column(t[..n], j)| > 0 && j < |t[n - 1]| ==>
      (t[n - 1][j].Some? && Column(t[..n], j)[|Column(t[..n], j)| - 1] == t[n - 1][j].value)
  {
    if n > 0 {
      var i := n - 1;
      ColumnPrefix(t, j, i);
      assert t[..n][..i] == t[..i];
      assert t[..n][i] == t[i];
      var c := Column(t[..i], j);
      assert NonesFirst(t[i]);
      if 0 <= j < |t[i]| && t[i][j].Some? {
        assert Column(t[..n], j) == c + [t[i][j].value];
        if |c| > 0 {
          assert Lengths(t)[i - 1] >= Lengths(t)[i];
          assert NonesFirst(t[i - 1]) && StackedAt(t, i);
        }
      } else {
        assert Column(t[..n], j) == c;
        if |c| > 0 {
          assert NoneCounts(t)[i - 1] >= NoneCounts(t)[i];
        }
      }
    }
  }

  /** An ordered tableau is semistandard. */
  lemma OrderedSemistandard(t: Rows)
    requires Ordered(t)
    ensures IsSemistandard(t)
  {
    forall i | 0 <= i < |t|
      ensures WeaklyIncreasing(Filled(t[i]))
    {
      assert NonesFirst(t[i]) && RowOrdered(t[i]);
      FilledIncreasing(t[i]);
    }
    forall j | 0 <= j < Width(t)
      ensures StrictlyIncreasing(Column(t, j))
    {
      ColumnPrefix(t, j, |t|);
      assert t[..|t|] == t;
    }
  }

  /** In an ordered tableau every row sits in a neighbourhood. */
  lemma OrderedNeighbourhood(t: Rows, r: int)
    requires Ordered(t) && 0 <= r < |t|
    ensures Staircase(t)
    ensures PrevRow(t, r) == (if r == 0 then Nones(|t[r]|) else t[r - 1])
    ensures Neighbourhood(t[r], PrevRow(t, r), NextRow(t, r))
  {
    var row, prev, next := t[r], PrevRow(t, r), NextRow(t, r);
    assert RowOrdered(row);
    if r > 0 {
      assert StackedAt(t, r);
      PrefixOrdered(row, prev);
    }
    if r < |t| - 1 {
      assert Lengths(t)[r] >= Lengths(t)[r + 1];
      assert StackedAt(t, r + 1);
      PaddedBelow(row, t[r + 1], next);
    }
  }

  /** The three boundaries of the interval of row r. */
  function RowBounds(t: Rows, k: int, r: int): (int, int, int)
    requires Staircase(t) && 0 <= r < |t|
  {
    var row, prev, next := t[r], PrevRow(t, r), NextRow(t, r);
    (Boundary(Low, row, prev, next, k, |row|),
     Boundary(Middle, row, prev, next, k, |row|),
     Boundary(High, row, prev, next, k, |row|))
  }

  /** The interval of row r in an ordered tableau. */
  lemma OrderedInterval(t: Rows, k: int, r: int)
    requires Ordered(t) && 0 <= r < |t|
    ensures Staircase(t)
    ensures var b := RowBounds(t, k, r); Interval(t[r], PrevRow(t, r), NextRow(t, r), k, b.0, b.1, b.2)
  {
    OrderedNeighbourhood(t, r);
    RowInterval(t[r], PrevRow(t, r), NextRow(t, r), k);
  }

  /** Row r with its interval swapped: as many k's as there were k + 1's,
      then as many k + 1's as there were k's. */
  function SwappedRowAt(t: Rows, k: int, r: int): seq<Entry>
    requires Staircase(t) && 0 <= r < |t|
  {
    var b := RowBounds(t, k, r);
    Swapped(t[r], k, b.0, b.0 + b.2 - b.1, b.2)
  }

  /** The switch at row r of an ordered tableau swaps the interval of the
      row. */
  lemma SwitchedIsSwap(t: Rows, k: int, r: int)
    requires Ordered(t) && 0 <= r < |t|
    ensures Staircase(t)
    ensures var b := RowBounds(t, k, r); Interval(t[r], PrevRow(t, r), NextRow(t, r), k, b.0, b.1, b.2)
    ensures Switched(t, k, r) == t[r := SwappedRowAt(t, k, r)]
  {
    OrderedInterval(t, k, r);
    var b := RowBounds(t, k, r);
    SwitchInterval(t[r], PrevRow(t, r), NextRow(t, r), k, b.0, b.1, b.2);
  }

  /** The switch at row r of an ordered tableau: the free k's and k + 1's of
      the row are the cells lo..mid-1 and mid..hi-1, and the switch swaps
      their numbers. */
  lemma SwitchedSwaps(t: Rows, k: int, r: int)
    requires Ordered(t) && 0 <= r < |t|
    ensures Staircase(t)
    ensures var b := RowBounds(t, k, r);
      (forall j :: 0 <= j < |t[r]| ==> (LowerFree(t[r], NextRow(t, r), k, j) <==> b.0 <= j < b.1))
      && (forall j :: 0 <= j < |t[r]| ==> (UpperFree(t[r], PrevRow(t, r), k, j) <==> b.1 <= j < b.2))
    ensures Switched(t, k, r) == t[r := SwappedRowAt(t, k, r)]
  {
    OrderedInterval(t, k, r);
    var b := RowBounds(t, k, r);
    SwitchInterval(t[r], PrevRow(t, r), NextRow(t, r), k, b.0, b.1, b.2);
    forall j | 0 <= j < |t[r]|
      ensures LowerFree(t[r], NextRow(t, r), k, j) <==> b.0 <= j < b.1
      ensures UpperFree(t[r], PrevRow(t, r), k, j) <==> b.1 <= j < b.2
    {
      FreeCells(t[r], PrevRow(t, r), NextRow(t, r), k, b.0, b.1, b.2, j);
    }
  }

  /** Switching row r twice restores the tableau. */
  lemma SwitchedTwice(t: Rows, k: int, r: int)
    requires Ordered(t) && 0 <= r < |t|
    ensures Staircase(t) && Switched(Switched(t, k, r), k, r) == t
  {
    OrderedInterval(t, k, r);
    var b := RowBounds(t, k, r);
    var row, prev, next := t[r], PrevRow(t, r), NextRow(t, r);
    var once := Switch(row, prev, next, k);
    var u := t[r := once];
    assert Switched(t, k, r) == u;
    NeighboursAfter(t, r, once, r);
    assert Switched(u, k, r) == u[r := Switch(once, prev, next, k)];
    SwitchTwice(row, prev, next, k, b.0, b.1, b.2);
    assert u[r := row] == t;
  }

  // ---------------------------------------------------------------------
  // A switch keeps the tableau semistandard and its shape
  // ---------------------------------------------------------------------

  /** The swapped row is ordered, has its None cells where the row had
      them, and changes only cells whose neighbours are clear. */
  lemma SwappedRow(row: seq<Entry>, prev: seq<Entry>, next: seq<Entry>, k: int, lo: int, mid: int, hi: int)
    requires |row| <= |prev| && |row| <= |next| && Interval(row, prev, next, k, lo, mid, hi)
    requires RowOrdered(row)
    ensures var row' := Swapped(row, k, lo, lo + hi - mid, hi);
      RowOrdered(row')
      && (forall j :: 0 <= j < |row| ==> (row'[j].None? <==> row[j].None?))
      && (forall j :: 0 <= j < |row| && !(lo <= j < hi) ==> row'[j] == row[j])
      && (forall j :: lo <= j < hi ==>
            (Clear(prev, next, k, j) && row[j].Some? && row'[j].Some? && k <= row'[j].value <= k + 1))
  {
    var row' := Swapped(row, k, lo, lo + hi - mid, hi);
    forall j, j' | 0 <= j < j' < |row| && row'[j].Some?
      ensures row'[j'].Some? && row'[j].value <= row'[j'].value
    {
      if j' < lo || hi <= j {
        assert row'[j] == row[j] && row'[j'] == row[j'];
      } else if j < lo {
        assert row[j].value <= k;
      } else if hi <= j' {
        assert row[j'].value >= k + 1;
      }
    }
  }

  /** Rows above a switched row stay stacked on it. */
  lemma StackedAbove(above: seq<Entry>, row: seq<Entry>, row': seq<Entry>, prev: seq<Entry>, k: int)
    requires Stacked(above, row) && |row'| == |row| <= |prev|
    requires forall j :: 0 <= j < |row| && j < |above| ==> above[j] == prev[j]
    requires forall j :: 0 <= j < |row| && row'[j] != row[j] ==>
      (row'[j].Some? && k <= row'[j].value && (prev[j].None? || prev[j].value < k))
    ensures Stacked(above, row')
  {
  }

  /** A switched row stays stacked on the row below. */
  lemma StackedBelow(row: seq<Entry>, row': seq<Entry>, below: seq<Entry>, next: seq<Entry>, k: int)
    requires Stacked(row, below) && |row'| == |row| <= |next|
    requires forall j :: 0 <= j < |row| && j < |below| ==> below[j] == next[j]
    requires forall j :: 0 <= j < |row| && row'[j] != row[j] ==>
      (row[j].Some? && row'[j].Some? && row'[j].value <= k + 1 && (next[j].None? || next[j].value > k + 1))
    ensures Stacked(row', below)
  {
  }

  /** A row with its None cells where another row has them has as many. */
  lemma SameNones(row: seq<Entry>, row': seq<Entry>)
    requires NonesFirst(row) && |row'| == |row|
    requires forall j :: 0 <= j < |row| ==> (row'[j].None? <==> row[j].None?)
    ensures NonesFirst(row') && NoneCount(row') == NoneCount(row)
  {
    NoneCountIs(row', NoneCount(row));
  }

  /** Replacing row r by a row of the same length with as many None cells,
      first, keeps the shape. */
  lemma ReplaceRowShape(t: Rows, r: int, row': seq<Entry>)
    requires IsSkewShape(t) && 0 <= r < |t| && |row'| == |t[r]|
    requires NonesFirst(row') && NoneCount(row') == NoneCount(t[r])
    ensures IsSkewShape(t[r := row'])
    ensures NoneCounts(t[r := row']) == NoneCounts(t) && Lengths(t[r := row']) == Lengths(t)
  {
    var u := t[r := row'];
    assert NoneCounts(u) == NoneCounts(t);
    assert Lengths(u) == Lengths(t);
  }

  /** Replacing row r by an ordered row of the same length, with as many
      None cells first and stacked between its neighbours, keeps the
      tableau ordered. */
  lemma ReplaceRow(t: Rows, r: int, row': seq<Entry>)
    requires Ordered(t) && 0 <= r < |t| && |row'| == |t[r]|
    requires RowOrdered(row') && NonesFirst(row') && NoneCount(row') == NoneCount(t[r])
    requires r > 0 ==> Stacked(t[r - 1], row')
    requires r < |t| - 1 ==> Stacked(row', t[r + 1])
    ensures Ordered(t[r := row'])
    ensures NoneCounts(t[r := row']) == NoneCounts(t) && Lengths(t[r := row']) == Lengths(t)
  {
    ReplaceRowShape(t, r, row');
    ReplaceRowStacked(t, r, row', t[r := row']);
    ReplaceRowRows(t, r, row', t[r := row']);
  }

  /** Replacing row r keeps the rows stacked when the new row is stacked
      between its neighbours. */
  lemma ReplaceRowStacked(t: Rows, r: int, row': seq<Entry>, u: Rows)
    requires 0 <= r < |t| && u == t[r := row'] && forall i :: 0 < i < |t| ==> StackedAt(t, i)
    requires r > 0 ==> Stacked(t[r - 1], row')
    requires r < |t| - 1 ==> Stacked(row', t[r + 1])
    ensures forall i :: 0 < i < |u| ==> StackedAt(u, i)
  {
    forall i | 0 < i < |t|
      ensures StackedAt(u, i)
    {
      assert StackedAt(t, i);
    }
  }

  /** Replacing row r by an ordered row keeps every row ordered. */
  lemma ReplaceRowRows(t: Rows, r: int, row': seq<Entry>, u: Rows)
    requires 0 <= r < |t| && u == t[r := row']
    requires RowOrdered(row') && forall i :: 0 <= i < |t| ==> RowOrdered(t[i])
    ensures forall i :: 0 <= i < |u| ==> RowOrdered(u[i])
  {
  }

  /** The swapped row r is ordered. */
  lemma SwappedRowOrdered(t: Rows, k: int, r: int)
    requires Ordered(t) && 0 <= r < |t|
    ensures Staircase(t) && RowOrdered(SwappedRowAt(t, k, r))
  {
    OrderedInterval(t, k, r);
    var b := RowBounds(t, k, r);
    assert RowOrdered(t[r]);
    SwappedRow(t[r], PrevRow(t, r), NextRow(t, r), k, b.0, b.1, b.2);
  }

  /** The swapped row r has its None cells where row r has them. */
  lemma SwappedRowNones(t: Rows, k: int, r: int)
    requires Ordered(t) && 0 <= r < |t|
    ensures Staircase(t)
    ensures var row' := SwappedRowAt(t, k, r);
      |row'| == |t[r]| && NonesFirst(row') && NoneCount(row') == NoneCount(t[r])
  {
    OrderedInterval(t, k, r);
    var b := RowBounds(t, k, r);
    var row' := SwappedRowAt(t, k, r);
    assert RowOrdered(t[r]) && NonesFirst(t[r]);
    SwappedRow(t[r], PrevRow(t, r), NextRow(t, r), k, b.0, b.1, b.2);
    assert forall j :: 0 <= j < |t[r]| ==> (row'[j].None? <==> t[r][j].None?);
    SameNones(t[r], row');
  }

  /** The swapped row r stays below row r - 1. */
  lemma SwappedRowAbove(t: Rows, k: int, r: int)
    requires Ordered(t) && 0 < r < |t|
    ensures Staircase(t) && Stacked(t[r - 1], SwappedRowAt(t, k, r))
  {
    OrderedInterval(t, k, r);
    var b := RowBounds(t, k, r);
    var prev := PrevRow(t, r);
    var row' := SwappedRowAt(t, k, r);
    assert RowOrdered(t[r]) && StackedAt(t, r);
    SwappedRow(t[r], prev, NextRow(t, r), k, b.0, b.1, b.2);
    StackedAbove(t[r - 1], t[r], row', prev, k);
  }

  /** The swapped row r stays above row r + 1. */
  lemma SwappedRowBelow(t: Rows, k: int, r: int)
    requires Ordered(t) && 0 <= r < |t| - 1
    ensures Staircase(t) && Stacked(SwappedRowAt(t, k, r), t[r + 1])
  {
    OrderedInterval(t, k, r);
    var b := RowBounds(t, k, r);
    var next := NextRow(t, r);
    var row' := SwappedRowAt(t, k, r);
    assert RowOrdered(t[r]) && StackedAt(t, r + 1);
    assert Lengths(t)[r] >= Lengths(t)[r + 1];
    SwappedRow(t[r], PrevRow(t, r), next, k, b.0, b.1, b.2);
    StackedBelow(t[r], row', t[r + 1], next, k);
  }

  /** The switch at row r keeps the tableau ordered, and keeps both its
      inner and its outer shape. */
  lemma SwitchedOrdered(t: Rows, k: int, r: int)
    requires Ordered(t) && 0 <= r < |t|
    ensures Staircase(t)
    ensures Ordered(Switched(t, k, r))
    ensures NoneCounts(Switched(t, k, r)) == NoneCounts(t) && Lengths(Switched(t, k, r)) == Lengths(t)
  {
    SwitchedIsSwap(t, k, r);
    SwappedRowOrdered(t, k, r);
    SwappedRowNones(t, k, r);
    if r > 0 {
      SwappedRowAbove(t, k, r);
    }
    if r < |t| - 1 {
      SwappedRowBelow(t, k, r);
    }
    ReplaceRow(t, r, SwappedRowAt(t, k, r));
  }

  /** The switch at row r keeps the inner and the outer shape. */
  lemma SwitchedShape(t: Rows, k: int, r: int)
    requires Ordered(t) && 0 <= r < |t|
    ensures Staircase(t)
    ensures IsSkewShape(Switched(t, k, r))
    ensures InnerShape(Switched(t, k, r)) == InnerShape(t) && OuterShape(Switched(t, k, r)) == OuterShape(t)
  {
    SwitchedOrdered(t, k, r);
  }

  // ---------------------------------------------------------------------
  // Switches at different rows commute
  // ---------------------------------------------------------------------

  /** The neighbours of row s after row r is replaced. */
  lemma NeighboursAfter(t: Rows, r: int, row': seq<Entry>, s: int)
    requires Staircase(t) && 0 <= r < |t| && 0 <= s < |t| && |row'| == |t[r]|
    ensures Lengths(t[r := row']) == Lengths(t) && Staircase(t[r := row'])
    ensures s != r + 1 ==> PrevRow(t[r := row'], s) == PrevRow(t, s)
    ensures s != r - 1 ==> NextRow(t[r := row'], s) == NextRow(t, s)
    ensures s == r + 1 ==> PrevRow(t[r := row'], s) == row'
    ensures s == r - 1 ==> NextRow(t[r := row'], s) == row' + Nones(if |t[s]| > |row'| then |t[s]| - |row'| else 0)
  {
    assert Lengths(t[r := row']) == Lengths(t);
  }

  /** Switching a row two or more rows away from a replaced row does not
      see the replacement. */
  lemma SwitchedAway(t: Rows, k: int, r: int, row': seq<Entry>, s: int)
    requires Staircase(t) && 0 <= r < |t| && 0 <= s < |t| && |row'| == |t[r]|
    requires s < r - 1 || r + 1 < s
    ensures Staircase(t[r := row'])
    ensures Switched(t[r := row'], k, s) == Switched(t, k, s)[r := row']
  {
    NeighboursAfter(t, r, row', s);
  }

  /** Switches two or more rows apart commute. */
  lemma SwitchedFar(t: Rows, k: int, r: int, s: int)
    requires Staircase(t) && 0 <= r < |t| && 0 <= s < |t| && (s < r - 1 || r + 1 < s)
    ensures Staircase(Switched(t, k, r)) && Staircase(Switched(t, k, s))
    ensures Switched(Switched(t, k, r), k, s) == Switched(Switched(t, k, s), k, r)
  {
    var x := Switch(t[r], PrevRow(t, r), NextRow(t, r), k);
    var z := Switch(t[s], PrevRow(t, s), NextRow(t, s), k);
    SwitchedAway(t, k, r, x, s);
    SwitchedAway(t, k, s, z, r);
  }

  /** The cells of the row below that hold k or k + 1 sit under cells
      that a swap of the row above leaves alone. */
  lemma HeldBelow(upper: seq<Entry>, prev: seq<Entry>, next: seq<Entry>, lower: seq<Entry>,
                  k: int, lo: int, mid: int, hi: int)
    requires |upper| <= |prev| && |upper| <= |next| && Interval(upper, prev, next, k, lo, mid, hi)
    requires |lower| <= |upper| && forall j :: 0 <= j < |lower| ==> next[j] == lower[j]
    ensures forall j :: (0 <= j < |lower| && (lower[j] == Some(k) || lower[j] == Some(k + 1))
      ==> Swapped(upper, k, lo, lo + hi - mid, hi)[j] == upper[j])
  {
    forall j | 0 <= j < |lower| && (lower[j] == Some(k) || lower[j] == Some(k + 1))
      ensures Swapped(upper, k, lo, lo + hi - mid, hi)[j] == upper[j]
    {
      assert lo <= j < hi ==> Clear(prev, next, k, j);
    }
  }

  /** The cells of the row above that hold k or k + 1 sit over cells that
      a swap of the row below leaves alone. */
  lemma HeldAbove(lower: seq<Entry>, prev: seq<Entry>, next: seq<Entry>, upper: seq<Entry>,
                  k: int, lo: int, mid: int, hi: int)
    requires |lower| <= |prev| && |lower| <= |next| && Interval(lower, prev, next, k, lo, mid, hi)
    requires |lower| <= |upper| && forall j :: 0 <= j < |lower| ==> prev[j] == upper[j]
    ensures forall j :: (0 <= j < |lower| && (upper[j] == Some(k) || upper[j] == Some(k + 1))
      ==> Swapped(lower, k, lo, lo + hi - mid, hi)[j] == lower[j])
  {
    forall j | 0 <= j < |lower| && (upper[j] == Some(k) || upper[j] == Some(k + 1))
      ensures Swapped(lower, k, lo, lo + hi - mid, hi)[j] == lower[j]
    {
      assert lo <= j < hi ==> Clear(prev, next, k, j);
    }
  }

  /** Switching row r + 1 after row r swaps the interval row r + 1 had. */
  lemma LowerAfterUpperRows(t: Rows, k: int, r: int, b: (int, int, int), c: (int, int, int),
                            x: seq<Entry>, y: seq<Entry>)
    requires Staircase(t) && 0 <= r < |t| - 1
    requires Interval(t[r], PrevRow(t, r), NextRow(t, r), k, b.0, b.1, b.2)
    requires Interval(t[r + 1], PrevRow(t, r + 1), NextRow(t, r + 1), k, c.0, c.1, c.2)
    requires x == Swapped(t[r], k, b.0, b.0 + b.2 - b.1, b.2)
    requires y == Swapped(t[r + 1], k, c.0, c.0 + c.2 - c.1, c.2)
    ensures Staircase(t[r := x]) && Switched(t[r := x], k, r + 1) == t[r := x][r + 1 := y]
  {
    IntervalUnderSwap(t, k, r, b, c, x);
    SwitchUnder(t, k, r, c, x, y);
  }

  /** Once row r + 1 keeps its interval under the new row r, its switch is
      the swap of that interval. */
  lemma SwitchUnder(t: Rows, k: int, r: int, c: (int, int, int), x: seq<Entry>, y: seq<Entry>)
    requires Staircase(t) && 0 <= r < |t| - 1 && |x| == |t[r]|
    requires Interval(t[r + 1], x, NextRow(t, r + 1), k, c.0, c.1, c.2)
    requires y == Swapped(t[r + 1], k, c.0, c.0 + c.2 - c.1, c.2)
    ensures Staircase(t[r := x]) && Switched(t[r := x], k, r + 1) == t[r := x][r + 1 := y]
  {
    var u := t[r := x];
    NeighboursAfter(t, r, x, r + 1);
    var row, next := t[r + 1], NextRow(t, r + 1);
    assert Switch(row, x, next, k) == y by {
      SwitchInterval(row, x, next, k, c.0, c.1, c.2);
    }
    assert PrevRow(u, r + 1) == x && NextRow(u, r + 1) == next && u[r + 1] == row;
    SwitchedRow(u, k, r + 1, y);
  }

  /** The switch at a row of the loop replaces just that row. */
  lemma SwitchedRow(t: Rows, k: int, r: int, row: seq<Entry>)
    requires Staircase(t) && 0 <= r < |t|
    requires Switch(t[r], PrevRow(t, r), NextRow(t, r), k) == row
    ensures Switched(t, k, r) == t[r := row]
  {
  }

  /** Swapping row r keeps the interval of row r + 1 under the new row. */
  lemma IntervalUnderSwap(t: Rows, k: int, r: int, b: (int, int, int), c: (int, int, int), x: seq<Entry>)
    requires Staircase(t) && 0 <= r < |t| - 1
    requires Interval(t[r], PrevRow(t, r), NextRow(t, r), k, b.0, b.1, b.2)
    requires Interval(t[r + 1], PrevRow(t, r + 1), NextRow(t, r + 1), k, c.0, c.1, c.2)
    requires x == Swapped(t[r], k, b.0, b.0 + b.2 - b.1, b.2)
    ensures Interval(t[r + 1], x, NextRow(t, r + 1), k, c.0, c.1, c.2)
  {
    var row, prev, next := t[r + 1], PrevRow(t, r + 1), NextRow(t, r + 1);
    assert Lengths(t)[r] >= Lengths(t)[r + 1];
    assert forall j :: 0 <= j < |row| ==> NextRow(t, r)[j] == row[j];
    HeldBelow(t[r], PrevRow(t, r), NextRow(t, r), row, k, b.0, b.1, b.2);
    IntervalTransfer(row, prev, next, x, next, k, c.0, c.1, c.2);
  }

  /** Switching row r after row r + 1 swaps the interval row r had. */
  lemma UpperAfterLowerRows(t: Rows, k: int, r: int, b: (int, int, int), c: (int, int, int),
                            x: seq<Entry>, y: seq<Entry>)
    requires Staircase(t) && 0 <= r < |t| - 1
    requires Interval(t[r], PrevRow(t, r), NextRow(t, r), k, b.0, b.1, b.2)
    requires Interval(t[r + 1], PrevRow(t, r + 1), NextRow(t, r + 1), k, c.0, c.1, c.2)
    requires x == Swapped(t[r], k, b.0, b.0 + b.2 - b.1, b.2)
    requires y == Swapped(t[r + 1], k, c.0, c.0 + c.2 - c.1, c.2)
    ensures Staircase(t[r + 1 := y]) && Switched(t[r + 1 := y], k, r) == t[r + 1 := y][r := x]
  {
    IntervalOverSwap(t, k, r, b, c, y);
    SwitchOver(t, k, r, b, x, y);
  }

  /** Once row r keeps its interval over the new row r + 1, its switch is
      the swap of that interval. */
  lemma SwitchOver(t: Rows, k: int, r: int, b: (int, int, int), x: seq<Entry>, y: seq<Entry>)
    requires Staircase(t) && 0 <= r < |t| - 1 && |y| == |t[r + 1]|
    requires Interval(t[r], PrevRow(t, r), NextRow(t[r + 1 := y], r), k, b.0, b.1, b.2)
    requires x == Swapped(t[r], k, b.0, b.0 + b.2 - b.1, b.2)
    ensures Staircase(t[r + 1 := y]) && Switched(t[r + 1 := y], k, r) == t[r + 1 := y][r := x]
  {
    var u := t[r + 1 := y];
    NeighboursAfter(t, r + 1, y, r);
    var row, prev, next' := t[r], PrevRow(t, r), NextRow(u, r);
    assert Switch(row, prev, next', k) == x by {
      SwitchInterval(row, prev, next', k, b.0, b.1, b.2);
    }
    assert PrevRow(u, r) == prev && u[r] == row;
    SwitchedRow(u, k, r, x);
  }

  /** Swapping row r + 1 keeps the interval of row r over the new row. */
  lemma IntervalOverSwap(t: Rows, k: int, r: int, b: (int, int, int), c: (int, int, int), y: seq<Entry>)
    requires Staircase(t) && 0 <= r < |t| - 1
    requires Interval(t[r], PrevRow(t, r), NextRow(t, r), k, b.0, b.1, b.2)
    requires Interval(t[r + 1], PrevRow(t, r + 1), NextRow(t, r + 1), k, c.0, c.1, c.2)
    requires y == Swapped(t[r + 1], k, c.0, c.0 + c.2 - c.1, c.2)
    ensures Interval(t[r], PrevRow(t, r), NextRow(t[r + 1 := y], r), k, b.0, b.1, b.2)
  {
    var row, prev, next, next' := t[r], PrevRow(t, r), NextRow(t, r), NextRow(t[r + 1 := y], r);
    assert Lengths(t)[r] >= Lengths(t)[r + 1];
    HeldAbove(t[r + 1], PrevRow(t, r + 1), NextRow(t, r + 1), row, k, c.0, c.1, c.2);
    forall j | 0 <= j < |row| && (row[j] == Some(k) || row[j] == Some(k + 1))
      ensures prev[j] == prev[j] && next'[j] == next[j]
    {
    }
    IntervalTransfer(row, prev, next, prev, next', k, b.0, b.1, b.2);
  }

  /** Adjacent switches commute. */
  lemma SwitchedNext(t: Rows, k: int, r: int)
    requires Ordered(t) && 0 <= r < |t| - 1
    ensures Staircase(t) && Staircase(Switched(t, k, r)) && Staircase(Switched(t, k, r + 1))
    ensures Switched(Switched(t, k, r), k, r + 1) == Switched(Switched(t, k, r + 1), k, r)
  {
    SwitchedIsSwap(t, k, r);
    SwitchedIsSwap(t, k, r + 1);
    var b, c := RowBounds(t, k, r), RowBounds(t, k, r + 1);
    var x, y := SwappedRowAt(t, k, r), SwappedRowAt(t, k, r + 1);
    LowerAfterUpperRows(t, k, r, b, c, x, y);
    UpperAfterLowerRows(t, k, r, b, c, x, y);
  }

  /** The switches at two rows of an ordered tableau commute. */
  lemma SwitchedCommute(t: Rows, k: int, r: int, s: int)
    requires Ordered(t) && 0 <= r < |t| && 0 <= s < |t|
    ensures Staircase(t) && Staircase(Switched(t, k, r)) && Staircase(Switched(t, k, s))
    ensures Switched(Switched(t, k, r), k, s) == Switched(Switched(t, k, s), k, r)
  {
    OrderedNeighbourhood(t, r);
    if s == r + 1 {
      SwitchedNext(t, k, r);
    } else if r == s + 1 {
      SwitchedNext(t, k, s);
    } else if r != s {
      SwitchedFar(t, k, r, s);
    }
  }

  // ---------------------------------------------------------------------
  // The involution: the switches at all rows, top to bottom
  // ---------------------------------------------------------------------

  /** The switches at rows 0, 1, ..., n - 1, in that order. */
  function Fold(t: Rows, k: int, n: nat): (u: Rows)
    requires Staircase(t) && n <= |t|
    ensures Lengths(u) == Lengths(t) && |u| == |t| && Staircase(u)
  {
    if n == 0 then t else Switched(Fold(t, k, n - 1), k, n - 1)
  }

  /** The loop over `range(l)` is the fold over the first rows. */
  lemma {:induction false} SwitchAllFold(t: Rows, k: int, n: nat)
    requires Staircase(t) && n <= |t|
    ensures SwitchAll(t, k, seq(n, m => m)) == Ok(Fold(t, k, n))
  {
    if n > 0 {
      var idx := seq(n, m => m);
      assert idx[..n - 1] == seq(n - 1, m => m);
      SwitchAllFold(t, k, n - 1);
      var u := Fold(t, k, n - 1);
      assert SwitchAll(t, k, idx[..n - 1]) == Ok(u);
      assert idx[n - 1] == n - 1 && n - 1 < |u|;
      assert SwitchAt(u, k, n - 1) == Ok(Switched(u, k, n - 1));
    }
  }

  /** The fold keeps the tableau ordered and its shape. */
  lemma {:induction false} FoldOrdered(t: Rows, k: int, n: nat)
    requires Ordered(t) && n <= |t|
    ensures Staircase(t)
    ensures Ordered(Fold(t, k, n)) && NoneCounts(Fold(t, k, n)) == NoneCounts(t)
  {
    if n > 0 {
      FoldOrdered(t, k, n - 1);
      SwitchedOrdered(Fold(t, k, n - 1), k, n - 1);
    }
  }

  /** A switch commutes with the fold. */
  lemma {:induction false} CommuteFold(t: Rows, k: int, r: int, n: nat)
    requires Ordered(t) && 0 <= r < |t| && n <= |t|
    ensures Staircase(t) && Staircase(Switched(t, k, r)) && Staircase(Fold(t, k, n))
    ensures Fold(Switched(t, k, r), k, n) == Switched(Fold(t, k, n), k, r)
  {
    if n > 0 {
      var s := Switched(t, k, r);
      var w := Fold(t, k, n - 1);
      CommuteFold(t, k, r, n - 1);
      FoldOrdered(t, k, n - 1);
      SwitchedCommute(w, k, r, n - 1);
      assert Fold(s, k, n) == Switched(Fold(s, k, n - 1), k, n - 1);
      assert Fold(t, k, n) == Switched(w, k, n - 1);
    }
  }

  /** The fold applied twice restores the tableau. */
  lemma {:induction false} FoldTwice(t: Rows, k: int, n: nat)
    requires Ordered(t) && n <= |t|
    ensures Staircase(t) && Staircase(Fold(t, k, n))
    ensures Fold(Fold(t, k, n), k, n) == t
  {
    if n > 0 {
      var w := Fold(t, k, n - 1);
      FoldTwice(t, k, n - 1);
      FoldOrdered(t, k, n - 1);
      CommuteFold(w, k, n - 1, n - 1);
      SwitchedTwice(t, k, n - 1);
    }
  }

  // ---------------------------------------------------------------------
  // `bender_knuth_involution`
  // ---------------------------------------------------------------------

  /** Row numbers that start at 1, as the method documents them. */
  predicate NumberedFromOne(rows: RowChoice)
  {
    match rows
    case AllRows => true
    case OneRow(n) => n >= 1
    case RowList(ns) => forall m :: 0 <= m < |ns| ==> ns[m] >= 1
  }

  /** With row numbers from 1 on, every index the loop visits is a row or
      past the last row. */
  lemma IndicesFromZero(l: nat, rows: RowChoice)
    requires NumberedFromOne(rows)
    ensures forall m :: 0 <= m < |Indices(l, rows)| ==> Indices(l, rows)[m] >= 0
  {
  }

  /** Switching at indices from 0 on keeps the tableau ordered and its
      shape, and never raises. */
  lemma {:induction false} SwitchAllOrdered(t: Rows, k: int, idx: seq<int>)
    requires Ordered(t) && forall m :: 0 <= m < |idx| ==> idx[m] >= 0
    ensures Staircase(t)
    ensures SwitchAll(t, k, idx).Ok?
    ensures Ordered(SwitchAll(t, k, idx).value)
    ensures NoneCounts(SwitchAll(t, k, idx).value) == NoneCounts(t)
  {
    if |idx| > 0 {
      var n := |idx| - 1;
      SwitchAllOrdered(t, k, idx[..n]);
      var u := SwitchAll(t, k, idx[..n]).value;
      assert |u| == |Lengths(u)| == |t|;
      assert SwitchAll(t, k, idx) == SwitchAt(u, k, idx[n]);
      if idx[n] < |u| {
        SwitchedOrdered(u, k, idx[n]);
        assert SwitchAt(u, k, idx[n]) == Ok(Switched(u, k, idx[n]));
      } else {
        assert SwitchAt(u, k, idx[n]) == Ok(u);
      }
    }
  }

  /** The result is a semistandard skew tableau of the same inner and
      outer shape, so the parent accepts it. */
  lemma BenderKnuthShape(t: Rows, k: int, rows: RowChoice)
    requires IsSkewShape(t) && IsSemistandard(t) && NumberedFromOne(rows)
    ensures BenderKnuthOf(t, k, rows).Ok?
    ensures var u := BenderKnuthOf(t, k, rows).value;
      IsSkewShape(u) && IsSemistandard(u) && InnerShape(u) == InnerShape(t) && OuterShape(u) == OuterShape(t)
  {
    SemistandardOrdered(t);
    IndicesFromZero(|t|, rows);
    SwitchAllOrdered(t, k, Indices(|t|, rows));
    OrderedSemistandard(BenderKnuthOf(t, k, rows).value);
  }

  /** The Bender--Knuth involution is the fold of the switches over all
      rows. */
  lemma AllRowsFold(t: Rows, k: int)
    requires IsSkewShape(t)
    ensures BenderKnuthOf(t, k, AllRows) == Ok(Fold(t, k, |t|))
  {
    assert Indices(|t|, AllRows) == seq(|t|, m => m);
    SwitchAllFold(t, k, |t|);
  }

  /** `bender_knuth_involution(k)` is an involution on semistandard skew
      tableaux. */
  lemma BenderKnuthTwice(t: Rows, k: int)
    requires IsSkewShape(t) && IsSemistandard(t)
    ensures BenderKnuthOf(t, k, AllRows).Ok?
    ensures var u := BenderKnuthOf(t, k, AllRows).value;
      IsSkewShape(u) && BenderKnuthOf(u, k, AllRows) == Ok(t)
  {
    SemistandardOrdered(t);
    BenderKnuthShape(t, k, AllRows);
    AllRowsFold(t, k);
    var u := Fold(t, k, |t|);
    AllRowsFold(u, k);
    FoldTwice(t, k, |t|);
  }

  /** A single switch, `bender_knuth_involution(k, n)`, is one pass of the
      loop at index n - 1. */
  lemma OneRowSwitch(t: Rows, k: int, n: int)
    requires IsSkewShape(t)
    ensures BenderKnuthOf(t, k, OneRow(n)) == SwitchAt(t, k, n - 1)
  {
    var idx := Indices(|t|, OneRow(n));
    assert idx == [n - 1] && idx[..0] == [];
    assert SwitchAll(t, k, idx[..0]) == Ok(t);
  }

  /** `bender_knuth_involution(k, n)` is an involution on semistandard skew
      tableaux. */
  lemma OneSwitchTwice(t: Rows, k: int, n: int)
    requires IsSkewShape(t) && IsSemistandard(t) && n >= 1
    ensures BenderKnuthOf(t, k, OneRow(n)).Ok?
    ensures var u := BenderKnuthOf(t, k, OneRow(n)).value;
      IsSkewShape(u) && BenderKnuthOf(u, k, OneRow(n)) == Ok(t)
  {
    SemistandardOrdered(t);
    BenderKnuthShape(t, k, OneRow(n));
    OneRowSwitch(t, k, n);
    var u := BenderKnuthOf(t, k, OneRow(n)).value;
    OneRowSwitch(u, k, n);
    if n - 1 < |t| {
      SwitchedTwice(t, k, n - 1);
    }
  }

  /** Passes of the loop at two non-negative indices commute. */
  lemma SwitchAtCommute(t: Rows, k: int, i: int, j: int)
    requires Ordered(t) && i >= 0 && j >= 0
    ensures Staircase(t) && SwitchAt(t, k, i).Ok? && SwitchAt(t, k, j).Ok?
    ensures SwitchAt(SwitchAt(t, k, i).value, k, j) == SwitchAt(SwitchAt(t, k, j).value, k, i)
  {
    if i < |t| && j < |t| {
      SwitchedCommute(t, k, i, j);
    }
  }

  /** The switches at two rows commute. */
  lemma SwitchesCommute(t: Rows, k: int, a: int, b: int)
    requires IsSkewShape(t) && IsSemistandard(t) && a >= 1 && b >= 1
    ensures BenderKnuthOf(t, k, OneRow(a)).Ok? && BenderKnuthOf(t, k, OneRow(b)).Ok?
    ensures var u, v := BenderKnuthOf(t, k, OneRow(a)).value, BenderKnuthOf(t, k, OneRow(b)).value;
      IsSkewShape(u) && IsSkewShape(v)
      && BenderKnuthOf(u, k, OneRow(b)) == BenderKnuthOf(v, k, OneRow(a))
  {
    SemistandardOrdered(t);
    BenderKnuthShape(t, k, OneRow(a));
    BenderKnuthShape(t, k, OneRow(b));
    OneRowSwitch(t, k, a);
    OneRowSwitch(t, k, b);
    var u, v := BenderKnuthOf(t, k, OneRow(a)).value, BenderKnuthOf(t, k, OneRow(b)).value;
    OneRowSwitch(u, k, b);
    OneRowSwitch(v, k, a);
    SwitchAtCommute(t, k, a - 1, b - 1);
  }

  /** The loop, one index at a time: a raised error stays raised. */
  lemma SwitchAllSnoc(t: Rows, k: int, s: seq<int>, x: int)
    requires Staircase(t)
    ensures SwitchAll(t, k, s + [x])
      == if SwitchAll(t, k, s).Err? then SwitchAll(t, k, s) else SwitchAt(SwitchAll(t, k, s).value, k, x)
  {
    assert (s + [x])[..|s|] == s;
  }

  /** The loop raises exactly when an index before the last row reaches
      past the first row, and then with an IndexError. */
  lemma {:induction false} SwitchAllOutcome(t: Rows, k: int, idx: seq<int>)
    requires Staircase(t)
    ensures SwitchAll(t, k, idx).Err? <==> exists m :: 0 <= m < |idx| && idx[m] < |t| && idx[m] <= -|t|
    ensures SwitchAll(t, k, idx).Err? ==> SwitchAll(t, k, idx).exc == IndexError
  {
    if |idx| > 0 {
      var n := |idx| - 1;
      var init := idx[..n];
      assert idx == init + [idx[n]];
      SwitchAllSnoc(t, k, init, idx[n]);
      SwitchAllOutcome(t, k, init);
      var prior := SwitchAll(t, k, init);
      if prior.Ok? {
        assert |prior.value| == |Lengths(prior.value)| == |t|;
      }
      OutcomeStep(idx, init, |t|, prior.Err?);
    }
  }

  /** The index condition of SwitchAllOutcome, one index at a time. */
  lemma OutcomeStep(idx: seq<int>, init: seq<int>, l: int, before: bool)
    requires |idx| > 0 && init == idx[..|idx| - 1]
    requires before <==> exists m :: 0 <= m < |init| && init[m] < l && init[m] <= -l
    ensures (before || (idx[|idx| - 1] < l && idx[|idx| - 1] <= -l))
      <==> exists m :: 0 <= m < |idx| && idx[m] < l && idx[m] <= -l
  {
    var n := |idx| - 1;
    if exists m :: 0 <= m < |idx| && idx[m] < l && idx[m] <= -l {
      var m :| 0 <= m < |idx| && idx[m] < l && idx[m] <= -l;
      if m < n {
        assert init[m] == idx[m];
      }
    }
  }

  /** `bender_knuth_involution` raises IndexError exactly when a row number
      reaches before the row above the first. */
  lemma BenderKnuthOutcome(t: Rows, k: int, rows: RowChoice)
    requires IsSkewShape(t)
    ensures var idx := Indices(|t|, rows);
      BenderKnuthOf(t, k, rows).Err? <==> exists m :: 0 <= m < |idx| && idx[m] < |t| && idx[m] <= -|t|
    ensures BenderKnuthOf(t, k, rows).Err? ==> BenderKnuthOf(t, k, rows).exc == IndexError
  {
    SwitchAllOutcome(t, k, Indices(|t|, rows));
  }

  /** No cell of the tableau holds v. */
  predicate Lacks(t: Rows, v: int)
  {
    forall i, j :: 0 <= i < |t| && 0 <= j < |t[i]| ==> t[i][j] != Some(v)
  }

  /** Without k and k + 1 in the row, the counting loop finds nothing. */
  lemma {:induction false} ScanNothing(row: seq<Entry>, prev: seq<Entry>, next: seq<Entry>, k: int, n: nat)
    requires n <= |row| <= |prev| && |row| <= |next|
    requires forall j :: 0 <= j < |row| ==> row[j] != Some(k) && row[j] != Some(k + 1)
    ensures ScanRow(row, prev, next, k, n) == Scan(0, 0, None, None)
  {
    if n > 0 {
      ScanNothing(row, prev, next, k, n - 1);
    }
  }

  /** Without k and k + 1 the switches change nothing. */
  lemma {:induction false} SwitchAllNothing(t: Rows, k: int, idx: seq<int>)
    requires Staircase(t) && Lacks(t, k) && Lacks(t, k + 1)
    ensures SwitchAll(t, k, idx).Ok? ==> SwitchAll(t, k, idx).value == t
  {
    if |idx| > 0 {
      var n := |idx| - 1;
      SwitchAllNothing(t, k, idx[..n]);
      var i := idx[n];
      if SwitchAll(t, k, idx[..n]).Ok? && -|t| < i < |t| {
        var r := PyIndex(|t|, i);
        ScanNothing(t[r], PrevRow(t, i), NextRow(t, i), k, |t[r]|);
      }
    }
  }

  /** `bender_knuth_involution(k)` leaves a tableau without k and k + 1
      alone. */
  lemma BenderKnuthNothing(t: Rows, k: int, rows: RowChoice)
    requires IsSkewShape(t) && Lacks(t, k) && Lacks(t, k + 1)
    ensures BenderKnuthOf(t, k, rows) == Ok(t) || BenderKnuthOf(t, k, rows) == Err(IndexError)
  {
    SwitchAllNothing(t, k, Indices(|t|, rows));
    SwitchAllOutcome(t, k, Indices(|t|, rows));
  }

  /** The indices the loop does not skip, in order. */
  function Kept(idx: seq<int>, l: int): (r: seq<int>)
    ensures |r| <= |idx| && forall m :: 0 <= m < |r| ==> r[m] < l
  {
    if |idx| == 0 then []
    else Kept(idx[..|idx| - 1], l) + (if idx[|idx| - 1] < l then [idx[|idx| - 1]] else [])
  }

  /** Indices past the last row are skipped. */
  lemma {:induction false} SwitchAllKept(t: Rows, k: int, idx: seq<int>)
    requires Staircase(t)
    ensures SwitchAll(t, k, idx) == SwitchAll(t, k, Kept(idx, |t|))
  {
    if |idx| > 0 {
      var n := |idx| - 1;
      var init := idx[..n];
      assert idx == init + [idx[n]];
      SwitchAllSnoc(t, k, init, idx[n]);
      SwitchAllKept(t, k, init);
      var kept := Kept(init, |t|);
      if idx[n] < |t| {
        assert Kept(idx, |t|) == kept + [idx[n]];
        SwitchAllSnoc(t, k, kept, idx[n]);
      } else {
        assert Kept(idx, |t|) == kept;
        var prior := SwitchAll(t, k, init);
        if prior.Ok? {
          assert |prior.value| == |Lengths(prior.value)| == |t|;
        }
      }
    }
  }
}
