// The Bender--Knuth switches on semistandard skew tableaux:
// `bender_knuth_involution(k, rows)`.

module BenderKnuth {
  import opened Outcomes
  import opened Partitions
  import opened SkewTableaux

  /** The `rows` argument: None, an integer, or an iterable of integers,
      numbering the rows from 1. */
  datatype RowChoice = AllRows | OneRow(n: int) | RowList(ns: seq<int>)

  /** The 0-based row indices the switches visit, in order. */
  function Indices(l: nat, rows: RowChoice): seq<int>
  {
    match rows
    case AllRows => seq(l, m => m)
    case OneRow(n) => [n - 1]
    case RowList(ns) => seq(|ns|, m requires 0 <= m < |ns| => ns[m] - 1)
  }

  // ---------------------------------------------------------------------
  // One row
  // ---------------------------------------------------------------------

  /** Cell j holds k and the cell below does not hold k + 1. */
  predicate LowerFree(row: seq<Entry>, next: seq<Entry>, k: int, j: int)
    requires 0 <= j < |row| && j < |next|
  {
    row[j] == Some(k) && next[j] != Some(k + 1)
  }

  /** Cell j holds k + 1 and the cell above does not hold k. */
  predicate UpperFree(row: seq<Entry>, prev: seq<Entry>, k: int, j: int)
    requires 0 <= j < |row| && j < |prev|
  {
    row[j] == Some(k + 1) && prev[j] != Some(k)
  }

  /** What the counting loop has found: the numbers a and b of lower free
      k's and upper free k + 1's, and the first of each. */
  datatype Scan = Scan(a: nat, b: nat, sk: Option<int>, sk1: Option<int>)

  /** The counting loop over the first n cells of the row. */
  function ScanRow(row: seq<Entry>, prev: seq<Entry>, next: seq<Entry>, k: int, n: nat): (s: Scan)
    requires n <= |row| <= |prev| && |row| <= |next|
    ensures s.a + s.b <= n
    ensures s.sk.Some? <==> s.a > 0
    ensures s.sk1.Some? <==> s.b > 0
    ensures s.sk.Some? ==> 0 <= s.sk.value && s.sk.value + s.a <= n && LowerFree(row, next, k, s.sk.value)
    ensures s.sk1.Some? ==> 0 <= s.sk1.value && s.sk1.value + s.b <= n && UpperFree(row, prev, k, s.sk1.value)
  {
    if n == 0 then Scan(0, 0, None, None)
    else
      var s := ScanRow(row, prev, next, k, n - 1);
      var j := n - 1;
      if LowerFree(row, next, k, j) then Scan(s.a + 1, s.b, if s.sk.None? then Some(j) else s.sk, s.sk1)
      else if UpperFree(row, prev, k, j) then Scan(s.a, s.b + 1, s.sk, if s.sk1.None? then Some(j) else s.sk1)
      else s
  }

  /** Python's reading of index i into a list of length l: a negative index
      counts from the end. */
  function PyIndex(l: int, i: int): int
  {
    if i < 0 then i + l else i
  }

  /** `for j in range(lo, hi): row[j] = v`. */
  function Fill(row: seq<Entry>, lo: int, hi: int, v: Entry): (r: seq<Entry>)
    requires -|row| <= lo && hi <= |row|
    ensures |r| == |row|
    decreases hi - lo
  {
    if hi <= lo then row
    else Fill(row, lo, hi - 1, v)[PyIndex(|row|, hi - 1) := v]
  }

  /** The k-th Bender--Knuth switch of one row, given the row above and the
      row below: the counting loop, then the writing loops. */
  function Switch(row: seq<Entry>, prev: seq<Entry>, next: seq<Entry>, k: int): (r: seq<Entry>)
    requires |row| <= |prev| && |row| <= |next|
    ensures |r| == |row|
  {
    var s := ScanRow(row, prev, next, k, |row|);
    if s.sk1.Some? then
      if s.a > s.b then Fill(row, s.sk1.value - (s.a - s.b), s.sk1.value, Some(k + 1))
      else if s.a < s.b then Fill(row, s.sk1.value, s.sk1.value + s.b - s.a, Some(k))
      else row
    else if s.sk.Some? then Fill(row, s.sk.value, s.sk.value + s.a, Some(k + 1))
    else row
  }

  // ---------------------------------------------------------------------
  // The whole tableau
  // ---------------------------------------------------------------------

  /** Row lengths that never grow downwards, as in a skew tableau. */
  predicate Staircase(t: Rows)
  {
    IsPartitionList(Lengths(t))
  }

  /** The row above row i: all None for the top row. */
  function PrevRow(t: Rows, i: int): (p: seq<Entry>)
    requires Staircase(t) && -|t| < i < |t|
    ensures |p| >= |t[PyIndex(|t|, i)]|
  {
    var r := PyIndex(|t|, i);
    if i == 0 then Nones(|t[r]|)
    else
      assert Lengths(t)[r - 1] >= Lengths(t)[r];
      t[PyIndex(|t|, i - 1)]
  }

  /** The row below row i, padded with None to the length of row i: all
      None for the bottom row. */
  function NextRow(t: Rows, i: int): (n: seq<Entry>)
    requires -|t| < i < |t|
    ensures |n| >= |t[PyIndex(|t|, i)]|
  {
    var r := PyIndex(|t|, i);
    if i == |t| - 1 then Nones(|t[r]|)
    else
      var below := t[PyIndex(|t|, i + 1)];
      below + Nones(if |t[r]| > |below| then |t[r]| - |below| else 0)
  }

  /** The switch at row i of the loop, on the tableau as it stands. */
  function Switched(t: Rows, k: int, i: int): (u: Rows)
    requires Staircase(t) && -|t| < i < |t|
    ensures Lengths(u) == Lengths(t)
  {
    var r := PyIndex(|t|, i);
    t[r := Switch(t[r], PrevRow(t, i), NextRow(t, i), k)]
  }

  /** One pass of the loop over `rows`: indices past the last row are
      skipped, and one reaching before the row above the first raises. */
  function SwitchAt(t: Rows, k: int, i: int): (r: Result<Rows>)
    requires Staircase(t)
    ensures r.Ok? ==> Lengths(r.value) == Lengths(t)
  {
    if i >= |t| then Ok(t)
    else if i <= -|t| then Err(IndexError)
    else Ok(Switched(t, k, i))
  }

  /** The loop over the row indices, in order. */
  function SwitchAll(t: Rows, k: int, idx: seq<int>): (r: Result<Rows>)
    requires Staircase(t)
    ensures r.Ok? ==> Lengths(r.value) == Lengths(t)
  {
    if |idx| == 0 then Ok(t)
    else
      match SwitchAll(t, k, idx[..|idx| - 1])
      case Err(e) => Err(e)
      case Ok(u) => SwitchAt(u, k, idx[|idx| - 1])
  }

  /** `bender_knuth_involution(k, rows)`. */
  function BenderKnuthOf(t: Rows, k: int, rows: RowChoice): Result<Rows>
    requires IsSkewShape(t)
  {
    SwitchAll(t, k, Indices(|t|, rows))
  }

  // ---------------------------------------------------------------------
  // The loops
  // ---------------------------------------------------------------------

  /** `bender_knuth_involution(k, rows)`: the switches are written into a
      copy of the rows. */
  method BenderKnuthInvolution(t: Rows, k: int, rows: RowChoice) returns (r: Result<Rows>)
    requires IsSkewShape(t)
    ensures r == BenderKnuthOf(t, k, rows)
  {
    var l := |t|;
    var idx := Indices(l, rows);
    var resultTab := t;
    for m := 0 to |idx|
      invariant Lengths(resultTab) == Lengths(t)
      invariant SwitchAll(t, k, idx[..m]) == Ok(resultTab)
    {
      var pass := SwitchPass(resultTab, k, idx[m]);
      SwitchAllStep(t, k, idx, m, resultTab);
      if pass.Err? {
        ErrorStays(t, k, idx, m + 1);
        return pass;
      }
      resultTab := pass.value;
    }
    assert idx[..|idx|] == idx;
    r := Ok(resultTab);
  }

  /** The loop after pass m + 1 is the pass on the tableau after m. */
  lemma SwitchAllStep(t: Rows, k: int, idx: seq<int>, m: nat, u: Rows)
    requires Staircase(t) && m < |idx| && SwitchAll(t, k, idx[..m]) == Ok(u)
    ensures Staircase(u) && SwitchAll(t, k, idx[..m + 1]) == SwitchAt(u, k, idx[m])
  {
    assert idx[..m + 1][..m] == idx[..m] && idx[..m + 1][m] == idx[m];
  }

  /** One pass of the loop over the rows. */
  method SwitchPass(t: Rows, k: int, i: int) returns (r: Result<Rows>)
    requires Staircase(t)
    ensures r == SwitchAt(t, k, i)
  {
    var l := |t|;
    if i >= l {
      return Ok(t);
    }
    if i <= -l {
      return Err(IndexError);
    }
    var prevRow := PrevRow(t, i);
    var nextRow := NextRow(t, i);
    var row := SwitchRow(t[PyIndex(l, i)], prevRow, nextRow, k);
    r := Ok(t[PyIndex(l, i) := row]);
  }

  /** Once a pass raises, the loop raises. */
  lemma {:induction false} ErrorStays(t: Rows, k: int, idx: seq<int>, m: nat)
    requires Staircase(t) && m <= |idx| && SwitchAll(t, k, idx[..m]).Err?
    ensures SwitchAll(t, k, idx) == SwitchAll(t, k, idx[..m])
    decreases |idx| - m
  {
    if m < |idx| {
      assert idx[..m + 1][..m] == idx[..m];
      ErrorStays(t, k, idx, m + 1);
    } else {
      assert idx[..m] == idx;
    }
  }

  /** The body of the loop over the rows: count, then write. */
  method SwitchRow(row: seq<Entry>, prev: seq<Entry>, next: seq<Entry>, k: int) returns (r: seq<Entry>)
    requires |row| <= |prev| && |row| <= |next|
    ensures r == Switch(row, prev, next, k)
  {
    var s := CountFree(row, prev, next, k);
    r := row;
    if s.sk1.Some? {
      if s.a > s.b {
        r := FillCells(row, s.sk1.value - (s.a - s.b), s.sk1.value, Some(k + 1));
      } else if s.a < s.b {
        r := FillCells(row, s.sk1.value, s.sk1.value + s.b - s.a, Some(k));
      }
    } else if s.sk.Some? {
      r := FillCells(row, s.sk.value, s.sk.value + s.a, Some(k + 1));
    }
  }

  /** The counting loop. */
  method CountFree(row: seq<Entry>, prev: seq<Entry>, next: seq<Entry>, k: int) returns (s: Scan)
    requires |row| <= |prev| && |row| <= |next|
    ensures s == ScanRow(row, prev, next, k, |row|)
  {
    var a, b := 0, 0;
    var sk: Option<int> := None;
    var sk1: Option<int> := None;
    for j := 0 to |row|
      invariant Scan(a, b, sk, sk1) == ScanRow(row, prev, next, k, j)
    {
      var val := row[j];
      if val == Some(k) && next[j] != Some(k + 1) {
        if sk.None? {
          sk := Some(j);
        }
        a := a + 1;
      } else if val == Some(k + 1) && prev[j] != Some(k) {
        if sk1.None? {
          sk1 := Some(j);
        }
        b := b + 1;
      }
    }
    s := Scan(a, b, sk, sk1);
  }

  /** A writing loop. */
  method FillCells(row: seq<Entry>, lo: int, hi: int, v: Entry) returns (r: seq<Entry>)
    requires -|row| <= lo && hi <= |row|
    ensures r == Fill(row, lo, hi, v)
  {
    r := row;
    if hi <= lo {
      return;
    }
    for j := lo to hi
      invariant r == Fill(row, lo, j, v)
    {
      r := r[PyIndex(|row|, j) := v];
    }
  }
}
