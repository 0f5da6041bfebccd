// Restriction of semistandard skew tableaux: `restrict`,
// `restriction_outer_shape`, `restriction_shape` and `to_chain`.

module SkewRestriction {
  import opened Outcomes
  import opened Partitions
  import opened SkewTableaux

  /** A cell survives restriction to n when it is None or holds at most n. */
  predicate Kept(x: Entry, n: int)
  {
    x.None? || x.value <= n
  }

  /** The cells of a row that survive restriction to n, in order. */
  function RestrictRow(row: seq<Entry>, n: int): (r: seq<Entry>)
    ensures |r| <= |row|
  {
    if |row| == 0 then []
    else RestrictRow(row[..|row| - 1], n) + (if Kept(row[|row| - 1], n) then [row[|row| - 1]] else [])
  }

  /** The elements of s that are at most n, in order. */
  function AtMost(s: seq<int>, n: int): (r: seq<int>)
    ensures |r| <= |s|
  {
    if |s| == 0 then []
    else AtMost(s[..|s| - 1], n) + (if s[|s| - 1] <= n then [s[|s| - 1]] else [])
  }

  /** Every row restricted, empty rows included. */
  function RestrictedRows(t: Rows, n: int): (r: Rows)
    ensures |r| == |t| && forall i :: 0 <= i < |t| ==> r[i] == RestrictRow(t[i], n)
  {
    seq(|t|, i requires 0 <= i < |t| => RestrictRow(t[i], n))
  }

  /** The parent drops the rows left empty at the bottom. */
  function TrimEmpty(t: Rows): (r: Rows)
    ensures |r| <= |t| && r == t[..|r|]
    ensures |r| == 0 || |r[|r| - 1]| > 0
    ensures forall i :: |r| <= i < |t| ==> |t[i]| == 0
  {
    if |t| == 0 || |t[|t| - 1]| > 0 then t else TrimEmpty(t[..|t| - 1])
  }

  /** `restrict(n)`: every None cell and every entry at most n. */
  function Restrict(t: Rows, n: int): Rows
  {
    TrimEmpty(RestrictedRows(t, n))
  }

  /** The number of surviving cells in each row. */
  function KeptCounts(t: Rows, n: int): (c: seq<int>)
    ensures |c| == |t| && forall i :: 0 <= i < |t| ==> c[i] == |RestrictRow(t[i], n)|
  {
    seq(|t|, i requires 0 <= i < |t| => |RestrictRow(t[i], n)|)
  }

  /** `restriction_outer_shape(n)`: `Partition` of the surviving counts. */
  function RestrictionOuterShape(t: Rows, n: int): Result<Partition>
  {
    ToPartition(KeptCounts(t, n))
  }

  /** `restriction_shape(n)`: the outer shape of the restriction over the
      inner shape of the tableau. */
  function RestrictionShape(t: Rows, n: int): Result<(Partition, Partition)>
    requires IsSkewShape(t)
  {
    match RestrictionOuterShape(t, n)
    case Err(e) => Err(e)
    case Ok(outer) => Ok((outer, InnerShape(t)))
  }

  /** The `max_entry` `to_chain` uses: the one given, else the largest
      entry, else 0. */
  function ChainTop(t: Rows, maxEntry: Option<int>): int
  {
    match maxEntry
    case Some(m) => m
    case None => if CellCount(t) == 0 then 0 else MaxEntry(Entries(t))
  }

  /** `restriction_outer_shape(k)` for k in `range(count)`; the first
      failure is raised. */
  function ShapesBelow(t: Rows, count: nat): Result<seq<Partition>>
  {
    if count == 0 then Ok([])
    else
      match ShapesBelow(t, count - 1)
      case Err(e) => Err(e)
      case Ok(c) =>
        match RestrictionOuterShape(t, count - 1)
        case Err(e) => Err(e)
        case Ok(p) => Ok(c + [p])
  }

  /** `to_chain(max_entry)`. */
  function ToChain(t: Rows, maxEntry: Option<int>): Result<seq<Partition>>
  {
    var top := ChainTop(t, maxEntry);
    ShapesBelow(t, if top + 1 < 0 then 0 else top + 1)
  }

  // ---------------------------------------------------------------------
  // Rows
  // ---------------------------------------------------------------------

  lemma {:induction false} AtMostConcat(a: seq<int>, b: seq<int>, n: int)
    ensures AtMost(a + b, n) == AtMost(a, n) + AtMost(b, n)
    decreases |b|
  {
    if |b| == 0 {
      assert a + b == a;
    } else {
      assert (a + b)[..|a + b| - 1] == a + b[..|b| - 1];
      AtMostConcat(a, b[..|b| - 1], n);
    }
  }

  /** Restriction keeps the None cells and, in order, the entries at most n. */
  lemma {:induction false} RestrictRowParts(row: seq<Entry>, n: int)
    ensures NoneCount(RestrictRow(row, n)) == NoneCount(row)
    ensures Filled(RestrictRow(row, n)) == AtMost(Filled(row), n)
  {
    if |row| > 0 {
      var init, last := row[..|row| - 1], row[|row| - 1];
      RestrictRowParts(init, n);
      var ri := RestrictRow(init, n);
      var kept := if Kept(last, n) then [last] else [];
      assert RestrictRow(row, n) == ri + kept;
      if last.None? {
        assert Filled(row) == Filled(init);
        EntrySnoc(ri, last);
      } else {
        assert Filled(row) == Filled(init) + [last.value];
        AtMostSnoc(Filled(init), last.value, n);
        if Kept(last, n) {
          EntrySnoc(ri, last);
        } else {
          assert ri + kept == ri;
        }
      }
    }
  }

  /** Appending one entry to a row adds to its None count or to its
      filled entries. */
  lemma EntrySnoc(a: seq<Entry>, e: Entry)
    ensures NoneCount(a + [e]) == NoneCount(a) + (if e.None? then 1 else 0)
    ensures Filled(a + [e]) == Filled(a) + (if e.Some? then [e.value] else [])
  {
    assert (a + [e])[..|a|] == a;
  }

  lemma AtMostSnoc(s: seq<int>, v: int, n: int)
    ensures AtMost(s + [v], n) == AtMost(s, n) + (if v <= n then [v] else [])
  {
    assert (s + [v])[..|s|] == s;
  }

  lemma {:induction false} RestrictRowConcat(a: seq<Entry>, b: seq<Entry>, n: int)
    ensures RestrictRow(a + b, n) == RestrictRow(a, n) + RestrictRow(b, n)
    decreases |b|
  {
    if |b| == 0 {
      assert a + b == a;
    } else {
      assert (a + b)[..|a + b| - 1] == a + b[..|b| - 1];
      RestrictRowConcat(a, b[..|b| - 1], n);
    }
  }

  lemma {:induction false} RestrictNones(m: nat, n: int)
    ensures RestrictRow(Nones(m), n) == Nones(m)
  {
    if m > 0 {
      RestrictNones(m - 1, n);
      assert Nones(m)[..m - 1] == Nones(m - 1);
    }
  }

  lemma {:induction false} RestrictWrap(s: seq<int>, n: int)
    ensures RestrictRow(Wrap(s), n) == Wrap(AtMost(s, n))
  {
    if |s| > 0 {
      var init := s[..|s| - 1];
      RestrictWrap(init, n);
      assert Wrap(s)[..|s| - 1] == Wrap(init);
      if s[|s| - 1] <= n {
        assert Wrap(AtMost(s, n)) == Wrap(AtMost(init, n)) + [Some(s[|s| - 1])];
      }
    }
  }

  /** A restricted row has its None cells first. */
  lemma RestrictRowNonesFirst(row: seq<Entry>, n: int)
    requires NonesFirst(row)
    ensures RestrictRow(row, n) == Nones(NoneCount(row)) + Wrap(AtMost(Filled(row), n))
    ensures NonesFirst(RestrictRow(row, n))
  {
    RowSplit(row);
    RestrictRowConcat(Nones(NoneCount(row)), Wrap(Filled(row)), n);
    RestrictNones(NoneCount(row), n);
    RestrictWrap(Filled(row), n);
    SplitRow(NoneCount(row), AtMost(Filled(row), n));
  }

  // ---------------------------------------------------------------------
  // Semistandard tableaux: the surviving cells start every row
  // ---------------------------------------------------------------------

  /** In a weakly increasing sequence the elements at most n come first. */
  lemma {:induction false} AtMostPrefix(s: seq<int>, n: int)
    requires WeaklyIncreasing(s)
    ensures AtMost(s, n) == s[..|AtMost(s, n)|]
    ensures forall k :: 0 <= k < |s| ==> (s[k] <= n <==> k < |AtMost(s, n)|)
  {
    if |s| > 0 {
      var init, last := s[..|s| - 1], s[|s| - 1];
      assert WeaklyIncreasing(init);
      AtMostPrefix(init, n);
      if last <= n {
        forall k | 0 <= k < |s|
          ensures s[k] <= n
        {
          WeakSorted(s, k, |s| - 1);
        }
        assert AtMost(init, n) == init;
        assert AtMost(s, n) == s;
      }
    }
  }

  lemma SplitPrefix(m: nat, f: seq<int>, c: nat)
    requires c <= |f|
    ensures (Nones(m) + Wrap(f))[..m + c] == Nones(m) + Wrap(f[..c])
  {
  }

  lemma SplitKept(m: nat, f: seq<int>, n: int, c: nat)
    requires c <= |f| && forall k :: 0 <= k < |f| ==> (f[k] <= n <==> k < c)
    ensures forall j :: 0 <= j < m + |f| ==> (Kept((Nones(m) + Wrap(f))[j], n) <==> j < m + c)
  {
    var row := Nones(m) + Wrap(f);
    forall j | 0 <= j < m + |f|
      ensures Kept(row[j], n) <==> j < m + c
    {
      if j >= m {
        assert row[j] == Some(f[j - m]);
      }
    }
  }

  /** In a semistandard row the surviving cells are the first ones. */
  lemma KeptPrefix(row: seq<Entry>, n: int)
    requires NonesFirst(row) && WeaklyIncreasing(Filled(row))
    ensures RestrictRow(row, n) == row[..|RestrictRow(row, n)|]
    ensures forall j :: 0 <= j < |row| ==> (Kept(row[j], n) <==> j < |RestrictRow(row, n)|)
  {
    var m, f := NoneCount(row), Filled(row);
    RestrictRowNonesFirst(row, n);
    RowSplit(row);
    AtMostPrefix(f, n);
    var c := |AtMost(f, n)|;
    SplitPrefix(m, f, c);
    SplitKept(m, f, n, c);
  }

  /** Down a semistandard tableau, fewer cells of each row survive. */
  lemma KeptCountsDecrease(t: Rows, n: int, i: int)
    requires IsSkewShape(t) && IsSemistandard(t) && 0 <= i < |t| - 1
    ensures |RestrictRow(t[i + 1], n)| <= |RestrictRow(t[i], n)|
  {
    var c := |RestrictRow(t[i], n)|;
    KeptPrefix(t[i], n);
    KeptPrefix(t[i + 1], n);
    if c < |t[i + 1]| {
      assert Lengths(t)[i] >= Lengths(t)[i + 1];
      assert NoneCounts(t)[i] >= NoneCounts(t)[i + 1];
      assert t[i][c].Some? && t[i][c].value > n;
      assert t[i + 1][c].Some?;
      ColumnOrder(t, i, c);
      assert !Kept(t[i + 1][c], n);
    }
  }

  /** In a semistandard tableau the surviving counts form a partition list. */
  lemma KeptCountsPartition(t: Rows, n: int)
    requires IsSkewShape(t) && IsSemistandard(t)
    ensures IsPartitionList(KeptCounts(t, n))
  {
    forall i | 0 < i < |t|
      ensures KeptCounts(t, n)[i - 1] >= KeptCounts(t, n)[i]
    {
      KeptCountsDecrease(t, n, i - 1);
    }
  }

  // ---------------------------------------------------------------------
  // The restricted tableau
  // ---------------------------------------------------------------------

  /** The rows `restrict(n)` keeps are non-empty restricted rows, with the
      None cells of the rows they come from. */
  lemma KeptRows(t: Rows, n: int)
    requires IsSkewShape(t) && IsSemistandard(t)
    ensures var r := Restrict(t, n);
      forall i :: 0 <= i < |r| ==> (KeptCounts(t, n)[i] > 0 && r[i] == RestrictRow(t[i], n)
        && NonesFirst(r[i]) && NoneCount(r[i]) == NoneCount(t[i]))
  {
    var r, counts := Restrict(t, n), KeptCounts(t, n);
    KeptCountsPartition(t, n);
    forall i | 0 <= i < |r|
      ensures counts[i] > 0 && r[i] == RestrictRow(t[i], n) && NonesFirst(r[i])
      ensures NoneCount(r[i]) == NoneCount(t[i])
    {
      KeptRow(t, n, r, counts, i);
    }
  }

  /** One row of KeptRows. */
  lemma KeptRow(t: Rows, n: int, r: Rows, counts: seq<int>, i: int)
    requires IsSkewShape(t) && r == Restrict(t, n) && counts == KeptCounts(t, n)
    requires IsPartitionList(counts) && 0 <= i < |r|
    ensures counts[i] > 0 && r[i] == RestrictRow(t[i], n) && NonesFirst(r[i])
    ensures NoneCount(r[i]) == NoneCount(t[i])
  {
    var l := |r|;
    assert r[l - 1] == RestrictRow(t[l - 1], n) && counts[l - 1] == |r[l - 1]| > 0;
    DecreasingFrom(counts, i, l - 1);
    RestrictRowNonesFirst(t[i], n);
    RestrictRowParts(t[i], n);
  }

  lemma RestrictIsSkew(t: Rows, n: int)
    requires IsSkewShape(t) && IsSemistandard(t)
    ensures IsSkewShape(Restrict(t, n))
    ensures Lengths(Restrict(t, n)) == KeptCounts(t, n)[..|Restrict(t, n)|]
  {
    var r := Restrict(t, n);
    RestrictCounts(t, n);
    KeptCountsPartition(t, n);
    assert forall i :: 0 <= i < |r| ==> |r[i]| > 0 && NonesFirst(r[i]);
  }

  lemma RestrictCounts(t: Rows, n: int)
    requires IsSkewShape(t) && IsSemistandard(t)
    ensures Lengths(Restrict(t, n)) == KeptCounts(t, n)[..|Restrict(t, n)|]
    ensures NoneCounts(Restrict(t, n)) == NoneCounts(t)[..|Restrict(t, n)|]
    ensures forall i :: 0 <= i < |Restrict(t, n)| ==> |Restrict(t, n)[i]| > 0 && NonesFirst(Restrict(t, n)[i])
  {
    KeptRows(t, n);
  }

  /** `restrict(n)` of a semistandard skew tableau is a skew tableau, and
      `restriction_outer_shape(n)` is its outer shape. */
  lemma RestrictionOuterShapeIsOuter(t: Rows, n: int)
    requires IsSkewShape(t) && IsSemistandard(t)
    ensures IsSkewShape(Restrict(t, n))
    ensures RestrictionOuterShape(t, n) == Ok(OuterShape(Restrict(t, n)))
  {
    var r := Restrict(t, n);
    var counts := KeptCounts(t, n);
    RestrictIsSkew(t, n);
    KeptRows(t, n);
    KeptCountsPartition(t, n);
    PositiveCountIs(counts, |r|);
    assert OuterShape(r) == counts[..|r|];
  }

  lemma {:induction false} EntriesOfTrimmed(t: Rows)
    ensures Entries(TrimEmpty(t)) == Entries(t)
  {
    if |t| > 0 && |t[|t| - 1]| == 0 {
      var init := t[..|t| - 1];
      EntriesOfTrimmed(init);
      EntriesSnoc(t);
    }
  }

  lemma {:induction false} EntriesOfRestricted(t: Rows, n: int)
    ensures Entries(RestrictedRows(t, n)) == AtMost(Entries(t), n)
  {
    if |t| > 0 {
      var init := t[..|t| - 1];
      EntriesOfRestricted(init, n);
      var rows := RestrictedRows(t, n);
      assert rows[..|t| - 1] == RestrictedRows(init, n);
      EntriesSnoc(rows);
      EntriesSnoc(t);
      RestrictRowParts(t[|t| - 1], n);
      AtMostConcat(Entries(init), Filled(t[|t| - 1]), n);
    }
  }

  /** `restrict(n)` keeps, in reading order, exactly the entries at most n. */
  lemma RestrictEntries(t: Rows, n: int)
    ensures Entries(Restrict(t, n)) == AtMost(Entries(t), n)
  {
    EntriesOfTrimmed(RestrictedRows(t, n));
    EntriesOfRestricted(t, n);
  }

  /** `restrict(n)` keeps every None cell: the inner shape is unchanged. */
  lemma RestrictKeepsInner(t: Rows, n: int)
    requires IsSkewShape(t) && IsSemistandard(t)
    ensures IsSkewShape(Restrict(t, n)) && InnerShape(Restrict(t, n)) == InnerShape(t)
  {
    RestrictionOuterShapeIsOuter(t, n);
    var rows, r := RestrictedRows(t, n), Restrict(t, n);
    forall i | 0 <= i < |t|
      ensures At(InnerShape(r), i) == At(InnerShape(t), i)
    {
      RestrictRowParts(t[i], n);
      if i < |r| {
        assert r[i] == rows[i];
      } else {
        assert |rows[i]| == 0;
      }
    }
    SamePartition(InnerShape(r), InnerShape(t), |t|);
  }

  /** `restriction_shape(n)` is the skew shape of `restrict(n)`, so its
      inner shape lies inside its outer shape. */
  lemma RestrictionShapeOfRestrict(t: Rows, n: int)
    requires IsSkewShape(t) && IsSemistandard(t)
    ensures RestrictionShape(t, n).Ok? && IsSkewShape(Restrict(t, n))
    ensures RestrictionShape(t, n).value == (OuterShape(Restrict(t, n)), InnerShape(Restrict(t, n)))
    ensures Contains(RestrictionShape(t, n).value.0, RestrictionShape(t, n).value.1)
  {
    RestrictionOuterShapeIsOuter(t, n);
    RestrictKeepsInner(t, n);
    InnerInsideOuter(Restrict(t, n));
  }

  // ---------------------------------------------------------------------
  // Chains
  // ---------------------------------------------------------------------

  /** The entries of one row are entries of the tableau. */
  lemma {:induction false} FilledInEntries(t: Rows, i: int)
    requires 0 <= i < |t|
    ensures forall k :: 0 <= k < |Filled(t[i])| ==> Filled(t[i])[k] in Entries(t)
  {
    EntriesSnoc(t);
    if i < |t| - 1 {
      FilledInEntries(t[..|t| - 1], i);
    }
  }

  /** Restriction to n at or above every entry leaves a skew tableau as it is. */
  lemma RestrictAbove(t: Rows, n: int)
    requires IsSkewShape(t) && forall x :: x in Entries(t) ==> x <= n
    ensures RestrictedRows(t, n) == t && Restrict(t, n) == t
  {
    forall i | 0 <= i < |t|
      ensures RestrictRow(t[i], n) == t[i]
    {
      FilledInEntries(t, i);
      AtMostAll(Filled(t[i]), n);
      RestrictRowNonesFirst(t[i], n);
      RowSplit(t[i]);
    }
  }

  lemma {:induction false} AtMostAll(s: seq<int>, n: int)
    requires forall k :: 0 <= k < |s| ==> s[k] <= n
    ensures AtMost(s, n) == s
  {
    if |s| > 0 {
      AtMostAll(s[..|s| - 1], n);
      assert s == s[..|s| - 1] + [s[|s| - 1]];
    }
  }

  lemma {:induction false} AtMostNone(s: seq<int>, n: int)
    requires forall k :: 0 <= k < |s| ==> s[k] > n
    ensures AtMost(s, n) == []
  {
    if |s| > 0 {
      AtMostNone(s[..|s| - 1], n);
    }
  }

  /** Below every entry only the None cells survive: the restriction's outer
      shape is the inner shape. */
  lemma RestrictionBelow(t: Rows, n: int)
    requires IsSkewShape(t) && forall x :: x in Entries(t) ==> x > n
    ensures RestrictionOuterShape(t, n) == Ok(InnerShape(t))
  {
    forall i | 0 <= i < |t|
      ensures KeptCounts(t, n)[i] == NoneCounts(t)[i]
    {
      KeptNones(t, n, i);
    }
    assert KeptCounts(t, n) == NoneCounts(t);
  }

  lemma KeptNones(t: Rows, n: int, i: int)
    requires 0 <= i < |t| && forall x :: x in Entries(t) ==> x > n
    ensures |RestrictRow(t[i], n)| == NoneCount(t[i])
  {
    FilledInEntries(t, i);
    AtMostNone(Filled(t[i]), n);
    RestrictRowParts(t[i], n);
  }

  /** Restriction to n at or above every entry has the outer shape. */
  lemma RestrictionAbove(t: Rows, n: int)
    requires IsSkewShape(t) && forall x :: x in Entries(t) ==> x <= n
    ensures RestrictionOuterShape(t, n) == Ok(OuterShape(t))
  {
    RestrictAbove(t, n);
    assert KeptCounts(t, n) == Lengths(t);
    ToPartitionOfPartition(OuterShape(t));
  }

  /** The entries at most n are among those at most n + 1. */
  lemma {:induction false} AtMostGrows(s: seq<int>, n: int)
    ensures |AtMost(s, n)| <= |AtMost(s, n + 1)|
  {
    if |s| > 0 {
      AtMostGrows(s[..|s| - 1], n);
    }
  }

  /** A partition is contained in another when it is no larger at every row. */
  lemma ContainsByAt(big: Partition, small: Partition)
    requires forall i :: 0 <= i < |small| ==> At(big, i) >= small[i]
    ensures Contains(big, small)
  {
    if |small| > 0 {
      assert At(big, |small| - 1) > 0;
    }
  }

  /** Each shape of the chain lies inside the next one. */
  lemma RestrictionGrows(t: Rows, n: int)
    requires IsSkewShape(t) && IsSemistandard(t)
    ensures RestrictionOuterShape(t, n).Ok? && RestrictionOuterShape(t, n + 1).Ok?
    ensures Contains(RestrictionOuterShape(t, n + 1).value, RestrictionOuterShape(t, n).value)
  {
    KeptCountsPartition(t, n);
    KeptCountsPartition(t, n + 1);
    var small, big := RestrictionOuterShape(t, n).value, RestrictionOuterShape(t, n + 1).value;
    forall i | 0 <= i < |small|
      ensures At(big, i) >= small[i]
    {
      RestrictRowParts(t[i], n);
      RestrictRowParts(t[i], n + 1);
      AtMostGrows(Filled(t[i]), n);
    }
    ContainsByAt(big, small);
  }

  lemma {:induction false} ShapesBelowOk(t: Rows, count: nat)
    requires IsSkewShape(t) && IsSemistandard(t)
    ensures ShapesBelow(t, count).Ok? && |ShapesBelow(t, count).value| == count
    ensures forall k :: 0 <= k < count ==> RestrictionOuterShape(t, k) == Ok(ShapesBelow(t, count).value[k])
  {
    if count > 0 {
      ShapesBelowOk(t, count - 1);
      KeptCountsPartition(t, count - 1);
      var c, p := ShapesBelow(t, count - 1).value, RestrictionOuterShape(t, count - 1).value;
      assert ShapesBelow(t, count) == Ok(c + [p]);
      assert forall k :: 0 <= k < count - 1 ==> (c + [p])[k] == c[k];
    }
  }

  /** `to_chain(max_entry)` of a semistandard skew tableau: one shape for
      each of 0, ..., max_entry, the k-th being `restriction_outer_shape(k)`,
      each inside the next. */
  lemma ToChainShapes(t: Rows, maxEntry: Option<int>)
    requires IsSkewShape(t) && IsSemistandard(t)
    ensures ToChain(t, maxEntry).Ok?
    ensures var c := ToChain(t, maxEntry).value;
      |c| == (if ChainTop(t, maxEntry) < 0 then 0 else ChainTop(t, maxEntry) + 1)
      && (forall k :: 0 <= k < |c| ==> RestrictionOuterShape(t, k) == Ok(c[k]))
      && (forall k :: 0 <= k < |c| - 1 ==> Contains(c[k + 1], c[k]))
  {
    var top := ChainTop(t, maxEntry);
    var count := if top + 1 < 0 then 0 else top + 1;
    ShapesBelowOk(t, count);
    var c := ToChain(t, maxEntry).value;
    forall k | 0 <= k < |c| - 1
      ensures Contains(c[k + 1], c[k])
    {
      RestrictionGrows(t, k);
    }
  }

  /** With the default `max_entry` the chain of a semistandard skew tableau
      with positive entries runs from the inner to the outer shape. */
  lemma ToChainEnds(t: Rows)
    requires IsSkewShape(t) && IsSemistandard(t) && AllPositive(Entries(t))
    ensures ToChain(t, None).Ok? && |ToChain(t, None).value| > 0
    ensures ToChain(t, None).value[0] == InnerShape(t)
    ensures ToChain(t, None).value[|ToChain(t, None).value| - 1] == OuterShape(t)
  {
    ToChainShapes(t, None);
    var top := ChainTop(t, None);
    assert top >= 0 by {
      if CellCount(t) > 0 {
        assert MaxEntry(Entries(t)) in Entries(t);
      }
    }
    RestrictionBelow(t, 0);
    assert forall x :: x in Entries(t) ==> x <= top;
    RestrictionAbove(t, top);
  }

  /** The empty tableau: `to_chain()` is `[[]]` and `to_chain(max_entry=1)`
      is `[[], []]`. */
  lemma EmptyChain()
    ensures ToChain([], None).Ok? && ToChain([], None).value == [[]]
    ensures ToChain([], Some(1)).Ok? && ToChain([], Some(1)).value == [[], []]
  {
    assert Entries([]) == [];
    assert KeptCounts([], 0) == [] && KeptCounts([], 1) == [];
    PositiveCountIs([], 0);
  }
}
