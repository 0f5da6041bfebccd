// Skew tableaux: rows of entries in which the cells of the inner shape hold
// None. Shapes, sizes, the filling and its weight, the row and column
// conditions, ribbons, conjugation, the `expr` form, straight tableaux and
// the reading permutation of a standard skew tableau.

module SkewTableaux {
  import opened Outcomes
  import opened Partitions

  /** A cell holds an entry, or None when it belongs to the inner shape. */
  type Entry = Option<int>

  /** The rows of a skew tableau, top row first. */
  type Rows = seq<seq<Entry>>

  // ---------------------------------------------------------------------
  // Rows and shapes
  // ---------------------------------------------------------------------

  /** `row.count(None)`. */
  function NoneCount(row: seq<Entry>): (n: nat)
    ensures n <= |row|
  {
    if |row| == 0 then 0 else NoneCount(row[..|row| - 1]) + (if row[|row| - 1].None? then 1 else 0)
  }

  /** The entries of a row, left to right, without the None cells. */
  function Filled(row: seq<Entry>): (r: seq<int>)
    ensures |r| + NoneCount(row) == |row|
  {
    if |row| == 0 then [] else Filled(row[..|row| - 1]) + (if row[|row| - 1].Some? then [row[|row| - 1].value] else [])
  }

  /** The None cells of a row come first. */
  predicate NonesFirst(row: seq<Entry>)
  {
    forall j :: 0 <= j < |row| ==> (row[j].None? <==> j < NoneCount(row))
  }

  function Lengths(t: Rows): (l: seq<int>)
    ensures |l| == |t| && forall i :: 0 <= i < |t| ==> l[i] == |t[i]|
  {
    seq(|t|, i requires 0 <= i < |t| => |t[i]|)
  }

  function NoneCounts(t: Rows): (l: seq<int>)
    ensures |l| == |t| && forall i :: 0 <= i < |t| ==> l[i] == NoneCount(t[i])
  {
    seq(|t|, i requires 0 <= i < |t| => NoneCount(t[i]))
  }

  /** The rows of a skew tableau: non-empty, None cells first, row lengths
      and the numbers of None cells both weakly decreasing. The element
      classes take their rows as given; this is what their parents admit. */
  predicate IsSkewShape(t: Rows)
  {
    (forall i :: 0 <= i < |t| ==> |t[i]| > 0 && NonesFirst(t[i]))
    && IsPartitionList(Lengths(t)) && IsPartitionList(NoneCounts(t))
  }

  /** `outer_shape`: the partition of the row lengths. */
  function OuterShape(t: Rows): (p: Partition)
    requires IsSkewShape(t)
    ensures |p| == |t| && forall i :: 0 <= i < |t| ==> p[i] == |t[i]|
  {
    var l := Lengths(t);
    assert IsPartition(l);
    l
  }

  /** `inner_shape`: the partition of the numbers of None cells. */
  function InnerShape(t: Rows): (p: Partition)
    requires IsSkewShape(t)
    ensures |p| <= |t| && forall i :: 0 <= i < |t| ==> At(p, i) == NoneCount(t[i])
  {
    var r := ToPartition(NoneCounts(t));
    r.value
  }

  /** The filling: the entries of every row, without the None cells. */
  function Filling(t: Rows): (f: seq<seq<int>>)
    ensures |f| == |t| && forall i :: 0 <= i < |t| ==> f[i] == Filled(t[i])
  {
    seq(|t|, i requires 0 <= i < |t| => Filled(t[i]))
  }

  /** The rows of a sequence of rows, one after the other. */
  function Flatten<T>(rows: seq<seq<T>>): seq<T>
  {
    if |rows| == 0 then [] else Flatten(rows[..|rows| - 1]) + rows[|rows| - 1]
  }

  /** The entries, row by row from the top, each row from the left. */
  function Entries(t: Rows): seq<int>
  {
    Flatten(Filling(t))
  }

  /** `size`: the number of cells holding an entry. */
  function CellCount(t: Rows): nat
  {
    |Entries(t)|
  }

  // ---------------------------------------------------------------------
  // A row is its None cells followed by its entries
  // ---------------------------------------------------------------------

  function Nones(n: nat): (r: seq<Entry>)
    ensures |r| == n && forall j :: 0 <= j < n ==> r[j] == None
  {
    seq(n, _ => None)
  }

  function Wrap(s: seq<int>): (r: seq<Entry>)
    ensures |r| == |s| && forall j :: 0 <= j < |s| ==> r[j] == Some(s[j])
  {
    seq(|s|, j requires 0 <= j < |s| => Some(s[j]))
  }

  lemma {:induction false} RowSplit(row: seq<Entry>)
    requires NonesFirst(row)
    ensures row == Nones(NoneCount(row)) + Wrap(Filled(row))
  {
    if |row| > 0 {
      var n := |row| - 1;
      var init := row[..n];
      if row[n].None? {
        assert NoneCount(row) == |row|;
        assert Filled(row) == [] by {
          assert |Filled(row)| + NoneCount(row) == |row|;
        }
        assert row == Nones(NoneCount(row)) + Wrap(Filled(row));
      } else {
        assert NoneCount(init) == NoneCount(row);
        assert NonesFirst(init);
        RowSplit(init);
        assert row == init + [row[n]];
      }
    }
  }

  /** The entry in column j of a row whose None cells come first. */
  lemma FilledAt(row: seq<Entry>, j: int)
    requires NonesFirst(row) && NoneCount(row) <= j < |row|
    ensures row[j] == Some(Filled(row)[j - NoneCount(row)])
  {
    RowSplit(row);
  }

  /** A row of None cells and entries has those None cells first. */
  lemma {:induction false} SplitRow(m: nat, s: seq<int>)
    ensures NoneCount(Nones(m) + Wrap(s)) == m && Filled(Nones(m) + Wrap(s)) == s
    ensures NonesFirst(Nones(m) + Wrap(s))
    decreases |s|, m
  {
    var row := Nones(m) + Wrap(s);
    if |s| > 0 {
      var init := Nones(m) + Wrap(s[..|s| - 1]);
      SplitRow(m, s[..|s| - 1]);
      assert row[..|row| - 1] == init;
      assert row[|row| - 1] == Some(s[|s| - 1]);
      assert s == s[..|s| - 1] + [s[|s| - 1]];
    } else if m > 0 {
      SplitRow(m - 1, []);
      assert row[..|row| - 1] == Nones(m - 1) + Wrap([]);
    }
  }

  // ---------------------------------------------------------------------
  // Sizes
  // ---------------------------------------------------------------------

  lemma {:induction false} FlattenConcat<T>(a: seq<seq<T>>, b: seq<seq<T>>)
    ensures Flatten(a + b) == Flatten(a) + Flatten(b)
    decreases |b|
  {
    if |b| == 0 {
      assert a + b == a;
    } else {
      assert (a + b)[..|a + b| - 1] == a + b[..|b| - 1];
      FlattenConcat(a, b[..|b| - 1]);
    }
  }

  /** Dropping trailing zeros does not change a size. */
  lemma {:induction false} SizeOfPrefix(l: seq<int>, n: nat)
    requires n <= |l| && forall k :: n <= k < |l| ==> l[k] == 0
    ensures Size(l[..n]) == Size(l)
    decreases |l| - n
  {
    if n < |l| {
      SizeOfPrefix(l[..|l| - 1], n);
      assert l[..|l| - 1][..n] == l[..n];
      assert Size(l) == Size(l[..|l| - 1]) + l[|l| - 1];
    } else {
      assert l[..n] == l;
    }
  }

  lemma {:induction false} RowSizes(t: Rows)
    ensures Size(Lengths(t)) == Size(NoneCounts(t)) + |Entries(t)|
  {
    if |t| > 0 {
      var n := |t| - 1;
      RowSizes(t[..n]);
      assert Lengths(t)[..n] == Lengths(t[..n]);
      assert NoneCounts(t)[..n] == NoneCounts(t[..n]);
      assert Filling(t)[..n] == Filling(t[..n]);
      assert Size(Lengths(t)) == Size(Lengths(t[..n])) + |t[n]|;
      assert Size(NoneCounts(t)) == Size(NoneCounts(t[..n])) + NoneCount(t[n]);
      assert Entries(t) == Entries(t[..n]) + Filled(t[n]);
    }
  }

  /** The entries of a sequence of rows: those of all but the last row, then
      the last row's. */
  lemma EntriesSnoc(t: Rows)
    requires |t| > 0
    ensures Entries(t) == Entries(t[..|t| - 1]) + Filled(t[|t| - 1])
  {
    assert Filling(t)[..|t| - 1] == Filling(t[..|t| - 1]);
  }

  /** `outer_size` is `inner_size` plus `size`: every cell of the outer
      shape is either a cell of the inner shape or holds an entry. */
  lemma OuterSizeSplits(t: Rows)
    requires IsSkewShape(t)
    ensures Size(OuterShape(t)) == Size(InnerShape(t)) + CellCount(t)
  {
    RowSizes(t);
    PositiveCountSplit(NoneCounts(t));
    SizeOfPrefix(NoneCounts(t), PositiveCount(NoneCounts(t)));
  }

  /** The inner shape lies inside the outer shape. */
  lemma InnerInsideOuter(t: Rows)
    requires IsSkewShape(t)
    ensures Contains(OuterShape(t), InnerShape(t))
  {
    var inner := InnerShape(t);
    forall k | 0 <= k < |inner|
      ensures OuterShape(t)[k] >= inner[k]
    {
      assert At(inner, k) == NoneCount(t[k]);
    }
  }

  // ---------------------------------------------------------------------
  // Weight
  // ---------------------------------------------------------------------

  /** The largest element of a non-empty sequence. */
  function MaxEntry(s: seq<int>): (m: int)
    requires |s| > 0
    ensures m in s && forall x :: x in s ==> x <= m
  {
    if |s| == 1 then s[0]
    else
      assert s == s[..|s| - 1] + [s[|s| - 1]];
      var m := MaxEntry(s[..|s| - 1]);
      if s[|s| - 1] > m then s[|s| - 1] else m
  }

  /** The smallest element of a non-empty sequence. */
  function MinEntry(s: seq<int>): (m: int)
    requires |s| > 0
    ensures m in s && forall x :: x in s ==> m <= x
  {
    if |s| == 1 then s[0]
    else
      assert s == s[..|s| - 1] + [s[|s| - 1]];
      var m := MinEntry(s[..|s| - 1]);
      if s[|s| - 1] < m then s[|s| - 1] else m
  }

  predicate AllPositive(s: seq<int>)
  {
    forall x :: x in s ==> x > 0
  }

  /** How often each of 1, ..., m occurs in s. */
  function Counts(s: seq<int>, m: nat): (c: seq<int>)
    ensures |c| == m && forall k :: 0 <= k < m ==> c[k] == multiset(s)[k + 1]
  {
    seq(m, k => multiset(s)[k + 1])
  }

  /** The evaluation of a word of positive letters: entry k - 1 counts the
      letters k, up to the largest letter; [] for the empty word. */
  function Evaluation(s: seq<int>): (w: seq<int>)
    requires AllPositive(s)
  {
    if |s| == 0 then [] else Counts(s, MaxEntry(s))
  }

  /** `weight`: the evaluation of the entries. Entries below 1 would index
      the list from its end, or fail, in an order that depends on the
      dictionary; they are excluded. */
  function WeightOf(t: Rows): (w: seq<int>)
    requires AllPositive(Entries(t))
  {
    Evaluation(Entries(t))
  }

  lemma {:induction false} ZeroCounts(m: nat)
    ensures Size(Counts([], m)) == 0
  {
    if m > 0 {
      ZeroCounts(m - 1);
      assert Counts([], m)[..m - 1] == Counts([], m - 1);
    }
  }

  /** Counting the letters 1, ..., m of a word made of them counts every letter. */
  lemma {:induction false} CountsSize(s: seq<int>, m: nat)
    requires forall x :: x in s ==> 1 <= x <= m
    ensures Size(Counts(s, m)) == |s|
  {
    if |s| == 0 {
      ZeroCounts(m);
    } else {
      var init, x := s[..|s| - 1], s[|s| - 1];
      assert s == init + [x];
      forall y | y in init
        ensures 1 <= y <= m
      {
        assert y in s;
      }
      assert x in s;
      CountsSize(init, m);
      var c := Counts(init, m);
      forall k | 0 <= k < m
        ensures Counts(s, m)[k] == c[x - 1 := c[x - 1] + 1][k]
      {
        assert multiset(s) == multiset(init) + multiset{x};
      }
      assert Counts(s, m) == c[x - 1 := c[x - 1] + 1];
      SizeUpdate(c, x - 1, c[x - 1] + 1);
    }
  }

  /** The weight adds up to the number of entries, and its last part is
      not zero. */
  lemma WeightSize(t: Rows)
    requires AllPositive(Entries(t))
    ensures Size(WeightOf(t)) == CellCount(t)
    ensures |WeightOf(t)| > 0 ==> WeightOf(t)[|WeightOf(t)| - 1] > 0
  {
    var e := Entries(t);
    if |e| == 0 {
      assert WeightOf(t) == [];
    } else {
      CountsSize(e, MaxEntry(e));
    }
  }

  /** The evaluation depends on the letters only, not on their order: any
      reading order of the entries has the weight of the tableau. */
  lemma EvaluationOfRearranged(s: seq<int>, u: seq<int>)
    requires AllPositive(s) && multiset(s) == multiset(u)
    ensures AllPositive(u) && Evaluation(s) == Evaluation(u)
  {
    forall x | x in u
      ensures x in s
    {
      assert x in multiset(u);
    }
    if |s| > 0 {
      assert |u| > 0 by {
        assert s[0] in multiset(u);
      }
      var a, b := MaxEntry(s), MaxEntry(u);
      assert a in multiset(u) && b in multiset(s);
      assert a in u && b in s;
      assert a == b;
      assert Counts(s, a) == Counts(u, b);
    } else {
      assert multiset(u) == multiset{};
    }
  }

  /** `weight_dict`: every entry with the number of its occurrences. */
  function WeightDict(e: seq<int>): (d: map<int, int>)
    ensures forall k :: k in d <==> k in e
    ensures forall k :: k in d ==> d[k] == multiset(e)[k]
  {
    map k | k in e :: multiset(e)[k]
  }

  /** The weight dictionary is empty exactly when there are no entries. */
  lemma WeightDictEmpty(e: seq<int>)
    ensures |WeightDict(e)| == 0 <==> |e| == 0
  {
    var d := WeightDict(e);
    if |e| > 0 {
      assert e[0] in d.Keys;
      assert d.Keys >= {e[0]};
    } else {
      assert d.Keys == {};
    }
  }

  lemma WeightDictKeys(e: seq<int>)
    requires AllPositive(e) && |e| > 0
    ensures forall k :: k in WeightDict(e) ==> 1 <= k <= MaxEntry(e)
  {
  }

  /** `weight` as written: the weight dictionary, a list of zeros as long
      as its largest key, and every count written at its place. */
  method Weight(t: Rows) returns (w: seq<int>)
    requires AllPositive(Entries(t))
    ensures w == WeightOf(t)
  {
    var entries := Entries(t);
    var d := WeightDict(entries);
    WeightDictEmpty(entries);
    if |d| == 0 {
      return [];
    }
    var m := MaxEntry(entries);
    WeightDictKeys(entries);
    w := FillCounts(d, m);
    WrittenCounts(entries, m, d, w);
  }

  /** The loop of `weight`: a list of m zeros, then each count of the
      dictionary written at the place of its key. */
  method FillCounts(d: map<int, int>, m: nat) returns (w: seq<int>)
    requires forall k :: k in d ==> 1 <= k <= m
    ensures |w| == m && forall i :: 0 <= i < m ==> w[i] == (if i + 1 in d then d[i + 1] else 0)
  {
    var ret := new int[m](_ => 0);
    var keys := d.Keys;
    while keys != {}
      invariant keys <= d.Keys
      invariant forall i :: 0 <= i < m ==> ret[i] == (if i + 1 in d && i + 1 !in keys then d[i + 1] else 0)
      decreases keys
    {
      Inhabited(keys);
      var k :| k in keys;
      ret[k - 1] := d[k];
      keys := keys - {k};
    }
    w := ret[..];
  }

  lemma WrittenCounts(e: seq<int>, m: nat, d: map<int, int>, w: seq<int>)
    requires d == WeightDict(e) && |w| == m
    requires forall i :: 0 <= i < m ==> w[i] == (if i + 1 in d then d[i + 1] else 0)
    ensures w == Counts(e, m)
  {
  }

  // ---------------------------------------------------------------------
  // Row and column conditions
  // ---------------------------------------------------------------------

  predicate WeaklyIncreasing(s: seq<int>)
  {
    forall i :: 0 <= i < |s| - 1 ==> s[i] <= s[i + 1]
  }

  predicate StrictlyIncreasing(s: seq<int>)
  {
    forall i :: 0 <= i < |s| - 1 ==> s[i] < s[i + 1]
  }

  /** The entries of column j, top to bottom. */
  function Column(t: Rows, j: int): seq<int>
  {
    if |t| == 0 then []
    else
      var last := t[|t| - 1];
      Column(t[..|t| - 1], j) + (if 0 <= j < |last| && last[j].Some? then [last[j].value] else [])
  }

  /** The length of the longest row: columns from there on are empty. */
  function Width(t: Rows): (w: nat)
    ensures forall i :: 0 <= i < |t| ==> |t[i]| <= w
  {
    if |t| == 0 then 0
    else
      var w := Width(t[..|t| - 1]);
      if |t[|t| - 1]| > w then |t[|t| - 1]| else w
  }

  predicate IsRowIncreasing(t: Rows)
  {
    forall i :: 0 <= i < |t| ==> WeaklyIncreasing(Filled(t[i]))
  }

  predicate IsRowStrict(t: Rows)
  {
    forall i :: 0 <= i < |t| ==> StrictlyIncreasing(Filled(t[i]))
  }

  predicate IsColumnIncreasing(t: Rows)
  {
    forall j :: 0 <= j < Width(t) ==> WeaklyIncreasing(Column(t, j))
  }

  predicate IsColumnStrict(t: Rows)
  {
    forall j :: 0 <= j < Width(t) ==> StrictlyIncreasing(Column(t, j))
  }

  /** `is_increasing`: row strict and column strict. */
  predicate IsIncreasing(t: Rows)
  {
    IsRowStrict(t) && IsColumnStrict(t)
  }

  /** `is_semistandard`: column strict and weakly increasing along rows. */
  predicate IsSemistandard(t: Rows)
  {
    IsColumnStrict(t) && IsRowIncreasing(t)
  }

  /** 1, 2, ..., n. */
  function OneTo(n: nat): (r: seq<int>)
    ensures |r| == n && forall k :: 0 <= k < n ==> r[k] == k + 1
  {
    seq(n, k => k + 1)
  }

  /** `is_standard`: increasing, and the sorted entries are 1, ..., size,
      that is, the entries are 1, ..., size each once. */
  predicate IsStandard(t: Rows)
  {
    IsIncreasing(t) && multiset(Entries(t)) == multiset(OneTo(CellCount(t)))
  }

  lemma {:induction false} OneToCounts(n: nat)
    ensures forall k :: multiset(OneTo(n))[k] == (if 1 <= k <= n then 1 else 0)
  {
    if n > 0 {
      OneToCounts(n - 1);
      assert OneTo(n) == OneTo(n - 1) + [n];
    }
  }

  /** A standard skew tableau is semistandard. */
  lemma StandardIsSemistandard(t: Rows)
    requires IsStandard(t)
    ensures IsSemistandard(t)
  {
  }

  /** A word using each of 1, ..., n exactly once has evaluation all ones. */
  lemma {:induction false} EvaluationOfOneTo(e: seq<int>)
    requires multiset(e) == multiset(OneTo(|e|))
    ensures AllPositive(e) && Evaluation(e) == seq(|e|, _ => 1)
  {
    var n := |e|;
    OneToCounts(n);
    forall x | x in e
      ensures 1 <= x <= n
    {
      assert x in multiset(e);
    }
    if n > 0 {
      var m := MaxEntry(e);
      assert n in multiset(e);
      assert m in e && n in e;
      assert m == n;
      forall k | 0 <= k < n
        ensures Counts(e, m)[k] == 1
      {
        assert multiset(e)[k + 1] == multiset(OneTo(n))[k + 1];
      }
    }
  }

  /** In a standard skew tableau each of 1, ..., size is an entry exactly
      once: its weight is all ones. */
  lemma StandardWeight(t: Rows)
    requires IsStandard(t)
    ensures AllPositive(Entries(t)) && WeightOf(t) == seq(CellCount(t), _ => 1)
  {
    EvaluationOfOneTo(Entries(t));
  }

  // ---------------------------------------------------------------------
  // Ribbons
  // ---------------------------------------------------------------------

  /** The contents i - j of the cells (i, j) of row i that hold an entry. */
  function RowContents(row: seq<Entry>, i: int): (c: seq<int>)
    ensures |c| == |Filled(row)|
  {
    if |row| == 0 then []
    else RowContents(row[..|row| - 1], i) + (if row[|row| - 1].Some? then [i - (|row| - 1)] else [])
  }

  /** The contents of all cells holding an entry. */
  function Contents(t: Rows): seq<int>
  {
    Flatten(seq(|t|, i requires 0 <= i < |t| => RowContents(t[i], i)))
  }

  lemma {:induction false} ContentsCount(t: Rows)
    ensures |Contents(t)| == CellCount(t)
  {
    if |t| > 0 {
      var n := |t| - 1;
      ContentsCount(t[..n]);
      assert seq(|t|, i requires 0 <= i < |t| => RowContents(t[i], i))[..n]
          == seq(n, i requires 0 <= i < n => RowContents(t[..n][i], i));
      assert Filling(t)[..n] == Filling(t[..n]);
    }
  }

  /** `is_ribbon`: no entries at all, or at most one cell on every diagonal
      and the occupied diagonals consecutive. */
  predicate IsRibbon(t: Rows)
  {
    CellCount(t) == 0 ||
      (ContentsCount(t);
       var c := Contents(t);
       (forall d :: d in c ==> multiset(c)[d] <= 1) && forall d :: MinEntry(c) <= d <= MaxEntry(c) ==> d in c)
  }

  /** Exactly one cell on each of the q diagonals lo, ..., lo + q - 1, and
      none on the others. */
  ghost predicate OnePerDiagonal(c: seq<int>, lo: int, q: nat)
  {
    forall d :: multiset(c)[d] == (if lo <= d < lo + q then 1 else 0)
  }

  /** A ribbon has its cells on q consecutive diagonals, one on each. */
  lemma RibbonOnDiagonals(t: Rows)
    requires IsRibbon(t)
    ensures exists lo: int, q: nat :: OnePerDiagonal(Contents(t), lo, q)
  {
    ContentsCount(t);
    var c := Contents(t);
    if |c| == 0 {
      assert multiset(c) == multiset{};
      assert OnePerDiagonal(c, 0, 0);
    } else {
      var lo, hi := MinEntry(c), MaxEntry(c);
      forall d
        ensures multiset(c)[d] == (if lo <= d < lo + (hi - lo + 1) then 1 else 0)
      {
        if lo <= d <= hi {
          assert d in c;
        } else {
          assert d !in c;
        }
      }
      assert OnePerDiagonal(c, lo, hi - lo + 1);
    }
  }

  /** Cells on q consecutive diagonals, one on each, make a ribbon. */
  lemma DiagonalsMakeRibbon(t: Rows, lo: int, q: nat)
    requires OnePerDiagonal(Contents(t), lo, q)
    ensures IsRibbon(t)
  {
    ContentsCount(t);
    var c := Contents(t);
    if |c| > 0 {
      var a, b := MinEntry(c), MaxEntry(c);
      assert a in multiset(c) && b in multiset(c);
      forall d | a <= d <= b
        ensures d in c
      {
        assert d in multiset(c);
      }
      forall d | d in c
        ensures multiset(c)[d] <= 1
      {
      }
    }
  }

  /** A skew tableau is a ribbon exactly when its cells lie on q consecutive
      diagonals, one on each, for some q >= 0. */
  lemma RibbonIff(t: Rows)
    ensures IsRibbon(t) <==> exists lo: int, q: nat :: OnePerDiagonal(Contents(t), lo, q)
  {
    if IsRibbon(t) {
      RibbonOnDiagonals(t);
    }
    if exists lo: int, q: nat :: OnePerDiagonal(Contents(t), lo, q) {
      var lo: int, q: nat :| OnePerDiagonal(Contents(t), lo, q);
      DiagonalsMakeRibbon(t, lo, q);
    }
  }

  // ---------------------------------------------------------------------
  // Conjugation
  // ---------------------------------------------------------------------

  /** The number of leading parts larger than i: for a partition, the
      length of column i. */
  function ColumnLength(p: seq<int>, i: int): (n: nat)
    ensures n <= |p|
  {
    if |p| == 0 || p[0] <= i then 0 else 1 + ColumnLength(p[1..], i)
  }

  lemma {:induction false} ColumnLengthIff(p: seq<int>, i: int, j: nat)
    requires IsPartitionList(p)
    ensures j < ColumnLength(p, i) <==> j < |p| && p[j] > i
  {
    if |p| > 0 {
      if p[0] <= i {
        if j < |p| {
          DecreasingFrom(p, 0, j);
        }
      } else if j > 0 {
        ColumnLengthIff(p[1..], i, j - 1);
      }
    }
  }

  lemma {:induction false} ColumnLengthShrinks(p: seq<int>, i: int, k: int)
    requires i <= k
    ensures ColumnLength(p, i) >= ColumnLength(p, k)
  {
    if |p| > 0 && p[0] > k {
      ColumnLengthShrinks(p[1..], i, k);
    }
  }

  /** `Partition.conjugate`: part i is the length of column i. */
  function ConjugatePartition(p: Partition): (q: Partition)
    ensures |q| == (if |p| == 0 then 0 else p[0])
    ensures forall i :: 0 <= i < |q| ==> q[i] == ColumnLength(p, i)
  {
    if |p| == 0 then []
    else
      var l := seq(p[0], i => ColumnLength(p, i));
      assert IsPartition(l) by {
        forall i | 0 <= i < |l|
          ensures l[i] > 0
        {
          ColumnLengthIff(p, i, 0);
        }
        forall i | 0 < i < |l|
          ensures l[i - 1] >= l[i]
        {
          ColumnLengthShrinks(p, i - 1, i);
        }
      }
      l
  }

  /** Cell (i, j) is a cell of the partition p. */
  predicate InShape(p: seq<int>, i: int, j: int)
  {
    0 <= i < |p| && 0 <= j < p[i]
  }

  /** Cell (i, j) belongs to the conjugate exactly when cell (j, i) belongs
      to the partition. */
  lemma ConjugateCell(p: Partition, i: nat, j: nat)
    ensures InShape(ConjugatePartition(p), i, j) <==> InShape(p, j, i)
  {
    if |p| > 0 {
      ColumnLengthIff(p, i, j);
      if j < |p| {
        DecreasingFrom(p, 0, j);
      }
    }
  }

  /** Partitions with the same cells are equal. */
  lemma SameCells(p: Partition, q: Partition)
    requires forall i, j :: InShape(p, i, j) <==> InShape(q, i, j)
    ensures p == q
  {
    if |p| > 0 {
      assert InShape(p, |p| - 1, 0);
    }
    if |q| > 0 {
      assert InShape(q, |q| - 1, 0);
    }
    forall i | 0 <= i < |p|
      ensures p[i] == q[i]
    {
      assert InShape(p, i, p[i] - 1);
      assert InShape(q, i, q[i] - 1);
    }
  }

  /** Conjugating a partition twice gives it back. */
  lemma ConjugatePartitionInvolution(p: Partition)
    ensures ConjugatePartition(ConjugatePartition(p)) == p
  {
    var q := ConjugatePartition(p);
    forall i, j
      ensures InShape(ConjugatePartition(q), i, j) <==> InShape(p, i, j)
    {
      if i >= 0 && j >= 0 {
        ConjugateCell(q, i, j);
        ConjugateCell(p, j, i);
      }
    }
    SameCells(ConjugatePartition(q), p);
  }

  /** The rows of the conjugate: row i of the result is column i of t. */
  function ConjugateOf(t: Rows): (c: Rows)
    requires IsSkewShape(t)
    ensures |c| == |ConjugatePartition(OuterShape(t))|
    ensures forall i :: 0 <= i < |c| ==> |c[i]| == ConjugatePartition(OuterShape(t))[i]
    ensures forall i, j :: 0 <= i < |c| && 0 <= j < |c[i]| ==> j < |t| && i < |t[j]| && c[i][j] == t[j][i]
  {
    var lambda := OuterShape(t);
    var cs := ConjugatePartition(lambda);
    assert forall i, j :: 0 <= i < |cs| && 0 <= j < cs[i] ==> j < |t| && i < |t[j]| by {
      forall i, j | 0 <= i < |cs| && 0 <= j < cs[i]
        ensures j < |t| && i < |t[j]|
      {
        ConjugateCell(lambda, i, j);
        assert InShape(lambda, j, i);
      }
    }
    seq(|cs|, i requires 0 <= i < |cs| => seq(cs[i], j requires 0 <= j < cs[i] => t[j][i]))
  }

  /** A row with None exactly in its first m cells has m None cells. */
  lemma {:induction false} NoneCountIs(row: seq<Entry>, m: nat)
    requires m <= |row| && forall j :: 0 <= j < |row| ==> (row[j].None? <==> j < m)
    ensures NoneCount(row) == m
  {
    if |row| > 0 {
      var n := |row| - 1;
      if m == |row| {
        NoneCountIs(row[..n], n);
      } else {
        NoneCountIs(row[..n], m);
      }
    }
  }

  /** Row i of the conjugate has as many None cells as column i of the
      inner shape, and they come first. */
  lemma ConjugateRow(t: Rows, i: int)
    requires IsSkewShape(t) && 0 <= i < |ConjugateOf(t)|
    ensures NoneCount(ConjugateOf(t)[i]) == At(ConjugatePartition(InnerShape(t)), i)
    ensures NonesFirst(ConjugateOf(t)[i])
  {
    var c: Rows := ConjugateOf(t);
    var lambda, mu := OuterShape(t), InnerShape(t);
    var cm := ConjugatePartition(mu);
    var m := At(cm, i);
    forall j | 0 <= j < |c[i]|
      ensures c[i][j].None? <==> j < m
    {
      ConjugateCell(mu, i, j);
      assert At(mu, j) == NoneCount(t[j]);
      assert t[j][i].None? <==> i < NoneCount(t[j]);
    }
    assert m <= |c[i]| by {
      if m > 0 {
        ConjugateCell(mu, i, m - 1);
        ConjugateCell(lambda, i, m - 1);
        assert At(mu, m - 1) == NoneCount(t[m - 1]);
      }
    }
    NoneCountIs(c[i], m);
  }

  /** The conjugate of a skew tableau of shape lambda / mu is a skew tableau
      of shape lambda' / mu'. */
  lemma ConjugateShape(t: Rows)
    requires IsSkewShape(t)
    ensures IsSkewShape(ConjugateOf(t))
    ensures OuterShape(ConjugateOf(t)) == ConjugatePartition(OuterShape(t))
    ensures InnerShape(ConjugateOf(t)) == ConjugatePartition(InnerShape(t))
  {
    var c: Rows := ConjugateOf(t);
    var lambda, mu := OuterShape(t), InnerShape(t);
    var cm := ConjugatePartition(mu);
    InnerInsideOuter(t);
    forall i | 0 <= i < |c|
      ensures NoneCount(c[i]) == At(cm, i) && NonesFirst(c[i])
    {
      ConjugateRow(t, i);
    }
    assert |cm| <= |c| by {
      if |mu| > 0 {
        assert mu[0] <= lambda[0];
      }
    }
    PaddedPartition(cm, NoneCounts(c));
    assert Lengths(c) == ConjugatePartition(lambda);
  }

  /** A partition followed by zeros is a partition list, and `Partition`
      gives the partition back. */
  lemma PaddedPartition(p: Partition, l: seq<int>)
    requires |p| <= |l| && forall i :: 0 <= i < |l| ==> l[i] == At(p, i)
    ensures IsPartitionList(l) && ToPartition(l) == Ok(p)
  {
    forall i | 0 < i < |l|
      ensures l[i - 1] >= l[i]
    {
      if i < |p| {
        assert p[i - 1] >= p[i];
      }
    }
    PositiveCountIs(l, |p|);
    assert l[..|p|] == p;
  }

  /** Conjugating a skew tableau twice gives it back. */
  lemma ConjugateInvolution(t: Rows)
    requires IsSkewShape(t)
    ensures IsSkewShape(ConjugateOf(t)) && ConjugateOf(ConjugateOf(t)) == t
  {
    ConjugateShape(t);
    var c: Rows := ConjugateOf(t);
    var cc := ConjugateOf(c);
    ConjugatePartitionInvolution(OuterShape(t));
    assert |cc| == |t|;
    forall j | 0 <= j < |t|
      ensures cc[j] == t[j]
    {
      assert |cc[j]| == |t[j]|;
    }
  }

  /** `conjugate` as written: rows of None as long as the columns, then
      every cell (i, j) of the result filled from cell (j, i). */
  method Conjugate(t: Rows) returns (conj: Rows)
    requires IsSkewShape(t)
    ensures conj == ConjugateOf(t)
  {
    var cs := ConjugatePartition(OuterShape(t));
    var target := ConjugateOf(t);
    conj := seq(|cs|, i requires 0 <= i < |cs| => Nones(cs[i]));
    var i := 0;
    while i < |conj|
      invariant |conj| == |cs| && 0 <= i <= |cs|
      invariant forall k :: 0 <= k < |cs| ==> |conj[k]| == cs[k]
      invariant forall k :: 0 <= k < i ==> conj[k] == target[k]
      invariant forall k :: i <= k < |cs| ==> conj[k] == Nones(cs[k])
    {
      var j := 0;
      while j < |conj[i]|
        invariant |conj| == |cs| && |conj[i]| == cs[i] && 0 <= j <= cs[i]
        invariant forall k :: 0 <= k < |cs| ==> |conj[k]| == cs[k]
        invariant forall k :: 0 <= k < |cs| && k != i ==> conj[k] == (if k < i then target[k] else Nones(cs[k]))
        invariant conj[i][..j] == target[i][..j]
        invariant forall l :: j <= l < cs[i] ==> conj[i][l] == None
      {
        conj := conj[i := conj[i][j := t[j][i]]];
        j := j + 1;
      }
      assert conj[i] == target[i];
      i := i + 1;
    }
  }

  // ---------------------------------------------------------------------
  // The expr form, straight tableaux, the reading permutation
  // ---------------------------------------------------------------------

  function Reverse<T>(s: seq<T>): (r: seq<T>)
    ensures |r| == |s| && forall i :: 0 <= i < |s| ==> r[i] == s[|s| - 1 - i]
  {
    seq(|s|, i requires 0 <= i < |s| => s[|s| - 1 - i])
  }

  /** `to_expr`: the inner shape, and the rows of the filling from the
      bottom up. */
  function ToExpr(t: Rows): (e: (Partition, seq<seq<int>>))
    requires IsSkewShape(t)
  {
    (InnerShape(t), Reverse(Filling(t)))
  }

  /** `SkewTableau(expr=[inner, rows])`: row i from the top holds inner[i]
      None cells followed by the i-th row of `rows` counted from the end. */
  function FromExpr(inner: Partition, rows: seq<seq<int>>): (t: Rows)
    ensures |t| == |rows|
    ensures forall i :: 0 <= i < |rows| ==> t[i] == Nones(At(inner, i)) + Wrap(rows[|rows| - 1 - i])
  {
    seq(|rows|, i requires 0 <= i < |rows| => Nones(At(inner, i)) + Wrap(rows[|rows| - 1 - i]))
  }

  /** A skew tableau is rebuilt from its expr form. */
  lemma ExprRoundTrip(t: Rows)
    requires IsSkewShape(t)
    ensures FromExpr(ToExpr(t).0, ToExpr(t).1) == t
  {
    var mu, rows := InnerShape(t), Reverse(Filling(t));
    var r := FromExpr(mu, rows);
    forall i | 0 <= i < |t|
      ensures r[i] == t[i]
    {
      ExprRow(t, mu, rows, i);
    }
  }

  lemma ExprRow(t: Rows, mu: Partition, rows: seq<seq<int>>, i: int)
    requires IsSkewShape(t) && mu == InnerShape(t) && rows == Reverse(Filling(t))
    requires 0 <= i < |t|
    ensures FromExpr(mu, rows)[i] == t[i]
  {
    RowSplit(t[i]);
    assert rows[|rows| - 1 - i] == Filled(t[i]);
    assert At(mu, i) == NoneCount(t[i]);
  }

  /** An expr form with no more inner rows than rows, whose rows make a skew
      tableau, is the expr form of that tableau. */
  lemma ExprRoundTripBack(inner: Partition, rows: seq<seq<int>>)
    requires |inner| <= |rows| && IsSkewShape(FromExpr(inner, rows))
    ensures ToExpr(FromExpr(inner, rows)) == (inner, rows)
  {
    var t := FromExpr(inner, rows);
    forall i | 0 <= i < |t|
      ensures NoneCount(t[i]) == At(inner, i) && Filled(t[i]) == rows[|rows| - 1 - i]
    {
      SplitRow(At(inner, i), rows[|rows| - 1 - i]);
    }
    PaddedPartition(inner, NoneCounts(t));
    assert Reverse(Filling(t)) == rows;
  }

  /** The documented expr example: [1, 1] with rows [5], [3, 4], [1, 2]. */
  lemma DocumentedFromExpr()
    ensures FromExpr([1, 1], [[5], [3, 4], [1, 2]])
         == [[None, Some(1), Some(2)], [None, Some(3), Some(4)], [Some(5)]]
  {
    var r := FromExpr([1, 1], [[5], [3, 4], [1, 2]]);
    assert r[0] == Nones(1) + Wrap([1, 2]) == [None, Some(1), Some(2)];
    assert r[1] == Nones(1) + Wrap([3, 4]) == [None, Some(3), Some(4)];
    assert At([1, 1], 2) == 0;
    assert r[2] == Nones(0) + Wrap([5]) == [Some(5)];
  }

  const InnerSizeMessage: string := "the inner size of the skew tableau must be 0"

  /** `to_tableau`: the straight tableau with the same rows, when the inner
      shape is empty; ValueError otherwise. */
  function ToTableau(t: Rows): (r: Result<seq<seq<int>>>)
    requires IsSkewShape(t)
    ensures r.Err? <==> Size(InnerShape(t)) != 0
    ensures r.Err? ==> r.exc == ValueError(InnerSizeMessage)
    ensures r.Ok? ==> |r.value| == |t| && forall i :: 0 <= i < |t| ==> Wrap(r.value[i]) == t[i]
  {
    if Size(InnerShape(t)) != 0 then Err(ValueError(InnerSizeMessage))
    else
      StraightRows(t);
      Ok(Filling(t))
  }

  /** Without inner cells every row is its entries. */
  lemma StraightRows(t: Rows)
    requires IsSkewShape(t) && Size(InnerShape(t)) == 0
    ensures forall i :: 0 <= i < |t| ==> Wrap(Filled(t[i])) == t[i]
  {
    var mu := InnerShape(t);
    if |mu| > 0 {
      SizeAtLeastLength(mu);
    }
    forall i | 0 <= i < |t|
      ensures Wrap(Filled(t[i])) == t[i]
    {
      RowSplit(t[i]);
      assert NoneCount(t[i]) == At(mu, i) == 0;
    }
  }

  /** Reading the rows from the bottom up: `to_word_by_row`, and the
      one-line form of `to_permutation`. */
  function ReadingWord(t: Rows): (w: seq<int>)
  {
    Flatten(Reverse(Filling(t)))
  }

  lemma {:induction false} FlattenReverse<T>(rows: seq<seq<T>>)
    ensures multiset(Flatten(Reverse(rows))) == multiset(Flatten(rows))
  {
    if |rows| > 0 {
      var n := |rows| - 1;
      FlattenReverse(rows[..n]);
      assert Reverse(rows) == [rows[n]] + Reverse(rows[..n]);
      FlattenConcat([rows[n]], Reverse(rows[..n]));
      assert Flatten([rows[n]]) == rows[n] by {
        assert [rows[n]][..0] == [];
      }
    }
  }

  /** The reading word holds the entries of the tableau: a standard skew
      tableau reads as a permutation of 1, ..., size, and the weight is the
      evaluation of the reading word. */
  lemma ReadingWordEntries(t: Rows)
    ensures multiset(ReadingWord(t)) == multiset(Entries(t))
    ensures IsStandard(t) ==> multiset(ReadingWord(t)) == multiset(OneTo(|ReadingWord(t)|))
    ensures AllPositive(Entries(t)) ==> AllPositive(ReadingWord(t)) && Evaluation(ReadingWord(t)) == WeightOf(t)
  {
    FlattenReverse(Filling(t));
    assert |ReadingWord(t)| == |Entries(t)| by {
      assert |multiset(ReadingWord(t))| == |multiset(Entries(t))|;
    }
    if AllPositive(Entries(t)) {
      EvaluationOfRearranged(Entries(t), ReadingWord(t));
    }
  }

  /** Rows given in expr form are read back in the order of the list. */
  lemma ReadingWordOfExpr(inner: Partition, rows: seq<seq<int>>)
    ensures ReadingWord(FromExpr(inner, rows)) == Flatten(rows)
  {
    var t := FromExpr(inner, rows);
    forall i | 0 <= i < |t|
      ensures Filled(t[i]) == rows[|rows| - 1 - i]
    {
      SplitRow(At(inner, i), rows[|rows| - 1 - i]);
    }
    assert Reverse(Filling(t)) == rows;
  }

  const PermutationExample: Rows := [[None, None, Some(2)], [None, Some(3), Some(4)], [None], [Some(1)]]

  lemma PermutationExampleExpr()
    ensures FromExpr([2, 1, 1], [[1], [], [3, 4], [2]]) == PermutationExample
  {
    var t := FromExpr([2, 1, 1], [[1], [], [3, 4], [2]]);
    assert t[0] == Nones(2) + Wrap([2]) == [None, None, Some(2)];
    assert t[1] == Nones(1) + Wrap([3, 4]) == [None, Some(3), Some(4)];
    assert t[2] == Nones(1) + Wrap([]) == [None];
    assert At([2, 1, 1], 3) == 0;
    assert t[3] == Nones(0) + Wrap([1]) == [Some(1)];
  }

  lemma FlattenExample()
    ensures Flatten([[1], [], [3, 4], [2]]) == [1, 3, 4, 2]
  {
    var rows: seq<seq<int>> := [[1], [], [3, 4], [2]];
    assert rows[..1] == [[1]] && rows[..2] == [[1], []] && rows[..3] == [[1], [], [3, 4]];
    assert Flatten(rows[..1]) == [1] by {
      assert rows[..1][..0] == [];
    }
    assert rows[..2][..1] == rows[..1];
    assert Flatten(rows[..2]) == [1];
    assert rows[..3][..2] == rows[..2];
    assert Flatten(rows[..3]) == [1, 3, 4];
  }

  /** The documented permutation of [[None, None, 2], [None, 3, 4], [None], [1]]. */
  lemma DocumentedPermutation()
    ensures ReadingWord(PermutationExample) == [1, 3, 4, 2]
  {
    PermutationExampleExpr();
    ReadingWordOfExpr([2, 1, 1], [[1], [], [3, 4], [2]]);
    FlattenExample();
  }

  // ---------------------------------------------------------------------
  // Semistandard tableaux cell by cell
  // ---------------------------------------------------------------------

  lemma {:induction false} WeakSorted(s: seq<int>, a: nat, b: nat)
    requires WeaklyIncreasing(s) && a <= b < |s|
    ensures s[a] <= s[b]
    decreases b - a
  {
    if a < b {
      WeakSorted(s, a + 1, b);
    }
  }

  /** Along a weakly increasing row, entries further right are no smaller;
      a cell right of an entry holds an entry. */
  lemma RowOrder(row: seq<Entry>, j: int, k: int)
    requires NonesFirst(row) && WeaklyIncreasing(Filled(row))
    requires 0 <= j <= k < |row| && row[j].Some?
    ensures row[k].Some? && row[j].value <= row[k].value
  {
    var m, f := NoneCount(row), Filled(row);
    forall x | m <= x < |row|
      ensures row[x] == Some(f[x - m])
    {
      FilledAt(row, x);
    }
    SortedCells(row, m, f, j, k);
  }

  /** RowOrder for a row given as m None cells followed by the entries f. */
  lemma SortedCells(row: seq<Entry>, m: nat, f: seq<int>, j: int, k: int)
    requires forall x :: 0 <= x < |row| ==> (row[x].None? <==> x < m)
    requires m + |f| == |row| && forall x :: m <= x < |row| ==> row[x] == Some(f[x - m])
    requires WeaklyIncreasing(f)
    requires 0 <= j <= k < |row| && row[j].Some?
    ensures row[k].Some? && row[j].value <= row[k].value
  {
    assert m <= j;
    WeakSorted(f, j - m, k - m);
  }

  lemma {:induction false} ColumnSplit(t: Rows, k: nat, j: int)
    requires k <= |t|
    ensures Column(t, j) == Column(t[..k], j) + Column(t[k..], j)
  {
    if k == |t| {
      assert t[..k] == t;
      assert t[k..] == [];
    } else {
      var n := |t| - 1;
      ColumnSplit(t[..n], k, j);
      assert t[..n][..k] == t[..k];
      assert t[k..][..|t[k..]| - 1] == t[..n][k..];
      assert t[k..][|t[k..]| - 1] == t[n];
    }
  }

  /** Two entries one above the other are neighbours in their column. */
  lemma ColumnNeighbours(t: Rows, i: int, j: int)
    requires 0 <= i < |t| - 1 && 0 <= j < |t[i + 1]| && j < |t[i]|
    requires t[i][j].Some? && t[i + 1][j].Some?
    ensures exists p :: (0 <= p < |Column(t, j)| - 1
      && Column(t, j)[p] == t[i][j].value && Column(t, j)[p + 1] == t[i + 1][j].value)
  {
    ColumnSplit(t, i, j);
    ColumnSplit(t[i..], 2, j);
    var pair := t[i..][..2];
    assert pair[..1][..0] == [];
    assert Column(pair[..1], j) == [t[i][j].value];
    assert Column(pair, j) == [t[i][j].value, t[i + 1][j].value];
    var a, b := t[i][j].value, t[i + 1][j].value;
    var before, after := Column(t[..i], j), Column(t[i..][2..], j);
    assert Column(t, j) == before + ([a, b] + after);
    var p := |before|;
    assert Column(t, j)[p] == a && Column(t, j)[p + 1] == b;
  }

  /** In a column strict tableau an entry is smaller than the entry below it. */
  lemma ColumnOrder(t: Rows, i: int, j: int)
    requires IsColumnStrict(t)
    requires 0 <= i < |t| - 1 && 0 <= j < |t[i + 1]| && j < |t[i]|
    requires t[i][j].Some? && t[i + 1][j].Some?
    ensures t[i][j].value < t[i + 1][j].value
  {
    ColumnNeighbours(t, i, j);
    var p :| 0 <= p < |Column(t, j)| - 1
      && Column(t, j)[p] == t[i][j].value && Column(t, j)[p + 1] == t[i + 1][j].value;
    assert j < Width(t);
  }
}
