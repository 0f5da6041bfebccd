// Jeu de taquin on semistandard skew tableaux: `slide` and `rectify`.

module JeuDeTaquin {
  import opened Outcomes
  import opened Partitions
  import opened SkewTableaux

  type Cell = (int, int)

  // ---------------------------------------------------------------------
  // Corners
  // ---------------------------------------------------------------------

  /** Row r of p ends in a corner: it is the last row or longer than the
      next one. */
  predicate CornerRow(p: seq<int>, r: int)
  {
    0 <= r < |p| && (r == |p| - 1 || p[r] > p[r + 1])
  }

  /** `Partition.corners()` for the rows from r on: the last cell of every
      row ending in a corner, top to bottom. */
  function CornersFrom(p: seq<int>, r: nat): (cs: seq<Cell>)
    ensures forall k :: 0 <= k < |cs| ==> r <= cs[k].0 && CornerRow(p, cs[k].0) && cs[k].1 == p[cs[k].0] - 1
    decreases |p| - r
  {
    if r >= |p| then []
    else (if CornerRow(p, r) then [(r, p[r] - 1)] else []) + CornersFrom(p, r + 1)
  }

  /** `Partition.corners()`. */
  function Corners(p: seq<int>): seq<Cell>
  {
    CornersFrom(p, 0)
  }

  lemma {:induction false} CornersFromIff(p: seq<int>, r: nat, cell: Cell)
    ensures cell in CornersFrom(p, r) <==> r <= cell.0 && CornerRow(p, cell.0) && cell.1 == p[cell.0] - 1
    decreases |p| - r
  {
    if r < |p| {
      CornersFromIff(p, r + 1, cell);
    }
  }

  /** A cell is a corner exactly when it ends a row that is the last row or
      longer than the next. */
  lemma CornerIff(p: seq<int>, cell: Cell)
    ensures cell in Corners(p) <==> CornerRow(p, cell.0) && cell.1 == p[cell.0] - 1
  {
    CornersFromIff(p, 0, cell);
  }

  /** A non-empty partition has a corner: the end of its last row. */
  lemma CornerOfLastRow(p: seq<int>)
    requires |p| > 0
    ensures |Corners(p)| > 0
  {
    CornerIff(p, (|p| - 1, p[|p| - 1] - 1));
  }

  // ---------------------------------------------------------------------
  // Moving the hole
  // ---------------------------------------------------------------------

  /** Python 2 ordering of cells: None is below every integer. */
  predicate Le(a: Entry, b: Entry)
  {
    a.None? || (b.Some? && a.value <= b.value)
  }

  /** Rows of a skew tableau's outer shape, with the hole at one of its cells. */
  predicate Hole(s: Rows, l: int, c: int)
  {
    IsPartitionList(Lengths(s)) && (forall i :: 0 <= i < |s| ==> |s[i]| > 0)
    && 0 <= l < |s| && 0 <= c < |s[l]|
  }

  /** The hole is at the end of a row that is the last row or longer than
      the next: a corner of the outer shape. */
  predicate AtOuterCorner(s: Rows, l: int, c: int)
    requires Hole(s, l, c)
  {
    c == |s[l]| - 1 && (l == |s| - 1 || |s[l + 1]| < |s[l]|)
  }

  lemma OuterCornerIff(s: Rows, l: int, c: int)
    requires Hole(s, l, c)
    ensures (l, c) in Corners(Lengths(s)) <==> AtOuterCorner(s, l, c)
  {
    CornerIff(Lengths(s), (l, c));
  }

  /** The cell below slides up into the hole. */
  function MoveDown(s: Rows, l: int, c: int): (r: Rows)
    requires 0 <= l < |s| - 1 && 0 <= c < |s[l]| && c < |s[l + 1]|
    ensures Lengths(r) == Lengths(s)
  {
    s[l := s[l][c := s[l + 1][c]]][l + 1 := s[l + 1][c := None]]
  }

  /** The cell to the right slides left into the hole. */
  function MoveRight(s: Rows, l: int, c: int): (r: Rows)
    requires 0 <= l < |s| && 0 <= c && c + 1 < |s[l]|
    ensures Lengths(r) == Lengths(s)
  {
    s[l := s[l][c := s[l][c + 1]][c + 1 := None]]
  }

  /** One pass of the loop of `slide`: the hole moves down or right. */
  function Move(s: Rows, l: int, c: int): (r: (Rows, int, int))
    requires Hole(s, l, c) && !AtOuterCorner(s, l, c)
    ensures Lengths(r.0) == Lengths(s) && Hole(r.0, r.1, r.2)
    ensures (r.1 == l + 1 && r.2 == c) || (r.1 == l && r.2 == c + 1)
  {
    assert l + 1 < |s| ==> Lengths(s)[l] >= Lengths(s)[l + 1];
    if c == |s[l]| - 1 then (MoveDown(s, l, c), l + 1, c)
    else if l == |s| - 1 || |s[l + 1]| <= c then (MoveRight(s, l, c), l, c + 1)
    else if Le(s[l + 1][c], s[l][c + 1]) then (MoveDown(s, l, c), l + 1, c)
    else (MoveRight(s, l, c), l, c + 1)
  }

  /** The hole moves until it reaches a corner of the outer shape. */
  function SlidePath(s: Rows, l: int, c: int): (r: (Rows, int, int))
    requires Hole(s, l, c)
    ensures Lengths(r.0) == Lengths(s) && Hole(r.0, r.1, r.2) && AtOuterCorner(r.0, r.1, r.2)
    decreases |s| - l, |s[l]| - c
  {
    if AtOuterCorner(s, l, c) then (s, l, c)
    else
      var m := Move(s, l, c);
      assert |m.0| == |Lengths(m.0)| == |s|;
      assert |m.0[l]| == Lengths(m.0)[l] == |s[l]|;
      SlidePath(m.0, m.1, m.2)
  }

  /** The hole is dropped from the end of its row, and the last row goes
      when that leaves the hole's row empty. */
  function Cleanup(s: Rows, l: int): Rows
    requires 0 <= l < |s| && |s[l]| > 0
  {
    var popped := s[l := s[l][..|s[l]| - 1]];
    if |popped[l]| == 0 then popped[..|popped| - 1] else popped
  }

  const CornerMessage: string := "corner must be an inner corner"

  /** A corner of the inner shape is a cell of the tableau. */
  lemma InnerCornerIsCell(t: Rows, cell: Cell)
    requires IsSkewShape(t) && cell in Corners(InnerShape(t))
    ensures Hole(t, cell.0, cell.1)
  {
    var mu := InnerShape(t);
    CornerIff(mu, cell);
    assert At(mu, cell.0) == NoneCount(t[cell.0]);
  }

  /** The cell `slide` starts from, when there is one. */
  function StartCell(t: Rows, corner: Option<Cell>): Option<Cell>
    requires IsSkewShape(t)
  {
    var inner := Corners(InnerShape(t));
    match corner
    case Some(cell) => if cell in inner then Some(cell) else None
    case None => if |inner| == 0 then None else Some(inner[0])
  }

  /** `slide(corner)`. */
  function SlideOf(t: Rows, corner: Option<Cell>): Result<Rows>
    requires IsSkewShape(t)
  {
    match StartCell(t, corner)
    case None => if corner.Some? then Err(ValueError(CornerMessage)) else Ok(t)
    case Some(cell) =>
      InnerCornerIsCell(t, cell);
      var e := SlidePath(t, cell.0, cell.1);
      Ok(Cleanup(e.0, e.1))
  }

  /** `slide(corner)`: the hole walks over a copy of the rows. */
  method Slide(t: Rows, corner: Option<Cell>) returns (r: Result<Rows>)
    requires IsSkewShape(t)
    ensures r == SlideOf(t, corner)
  {
    var newSt := t;
    var innerCorners := Corners(InnerShape(t));
    var outerCorners := Corners(OuterShape(t));
    var cell: Cell;
    if corner.Some? {
      if corner.value !in innerCorners {
        return Err(ValueError(CornerMessage));
      }
      cell := corner.value;
    } else {
      if |innerCorners| == 0 {
        return Ok(t);
      }
      cell := innerCorners[0];
    }
    assert StartCell(t, corner) == Some(cell);
    InnerCornerIsCell(t, cell);
    assert OuterShape(t) == Lengths(t);
    var spotl, spotc;
    newSt, spotl, spotc := Walk(newSt, cell.0, cell.1, outerCorners);
    newSt := DropHole(newSt, spotl);
    return Ok(newSt);
  }

  /** The end of `slide`: the hole is popped from its row, and an emptied
      row is popped from the rows. */
  method DropHole(s: Rows, l: int) returns (s': Rows)
    requires 0 <= l < |s| && |s[l]| > 0
    ensures s' == Cleanup(s, l)
  {
    s' := s[l := s[l][..|s[l]| - 1]];
    if |s'[l]| == 0 {
      s' := s'[..|s'| - 1];
    }
  }

  /** The body of the loop of `slide`. */
  method MoveHole(s: Rows, l: int, c: int) returns (s': Rows, l': int, c': int)
    requires Hole(s, l, c) && !AtOuterCorner(s, l, c)
    ensures (s', l', c') == Move(s, l, c)
  {
    assert l + 1 < |s| ==> Lengths(s)[l] >= Lengths(s)[l + 1];
    s', l', c' := s, l, c;
    if c == |s'[l]| - 1 {
      s' := s'[l := s'[l][c := s'[l + 1][c]]];
      s' := s'[l + 1 := s'[l + 1][c := None]];
      l' := l + 1;
      assert s' == MoveDown(s, l, c);
    } else if l == |s'| - 1 || |s'[l + 1]| <= c {
      s' := s'[l := s'[l][c := s'[l][c + 1]]];
      s' := s'[l := s'[l][c + 1 := None]];
      c' := c + 1;
      assert s' == MoveRight(s, l, c);
    } else {
      var below := s'[l + 1][c];
      var right := s'[l][c + 1];
      if Le(below, right) {
        s' := s'[l := s'[l][c := s'[l + 1][c]]];
        s' := s'[l + 1 := s'[l + 1][c := None]];
        l' := l + 1;
        assert s' == MoveDown(s, l, c);
      } else {
        s' := s'[l := s'[l][c := s'[l][c + 1]]];
        s' := s'[l := s'[l][c + 1 := None]];
        c' := c + 1;
        assert s' == MoveRight(s, l, c);
      }
    }
  }

  /** The loop of `slide`: the hole walks until it reaches an outer corner. */
  method Walk(s: Rows, l: int, c: int, outerCorners: seq<Cell>) returns (s': Rows, l': int, c': int)
    requires Hole(s, l, c) && outerCorners == Corners(Lengths(s))
    ensures (s', l', c') == SlidePath(s, l, c)
  {
    s', l', c' := s, l, c;
    while (l', c') !in outerCorners
      invariant Hole(s', l', c') && Lengths(s') == Lengths(s)
      invariant SlidePath(s', l', c') == SlidePath(s, l, c)
      decreases |s'| - l', |s'[l']| - c'
    {
      OuterCornerIff(s', l', c');
      s', l', c' := MoveHole(s', l', c');
    }
    OuterCornerIff(s', l', c');
  }

  // ---------------------------------------------------------------------
  // The entries move, none is lost
  // ---------------------------------------------------------------------

  /** All cells of the rows, None cells included, as a multiset. */
  function Bag(s: Rows): multiset<Entry>
  {
    multiset(Flatten(s))
  }

  lemma {:induction false} FilledCount(row: seq<Entry>, x: int)
    ensures multiset(Filled(row))[x] == multiset(row)[Some(x)]
  {
    if |row| > 0 {
      FilledCount(row[..|row| - 1], x);
      assert row == row[..|row| - 1] + [row[|row| - 1]];
    }
  }

  /** Every entry occurs as often as its cell in the bag of cells. */
  lemma {:induction false} BagEntries(s: Rows, x: int)
    ensures multiset(Entries(s))[x] == Bag(s)[Some(x)]
  {
    if |s| > 0 {
      BagEntries(s[..|s| - 1], x);
      EntriesSnoc(s);
      FilledCount(s[|s| - 1], x);
    }
  }

  /** The bag of cells split at row i. */
  lemma BagAround(s: Rows, i: int)
    requires 0 <= i < |s|
    ensures Bag(s) == Bag(s[..i]) + multiset(s[i]) + Bag(s[i + 1..])
  {
    assert s == s[..i] + [s[i]] + s[i + 1..];
    FlattenConcat(s[..i] + [s[i]], s[i + 1..]);
    FlattenConcat(s[..i], [s[i]]);
    assert [s[i]][..0] == [];
  }

  /** Writing v into cell (i, j) trades its old content for v in the bag. */
  lemma BagUpdate(s: Rows, i: int, j: int, v: Entry)
    requires 0 <= i < |s| && 0 <= j < |s[i]|
    ensures Bag(s[i := s[i][j := v]]) == Bag(s) - multiset{s[i][j]} + multiset{v}
  {
    var u := s[i := s[i][j := v]];
    BagAround(s, i);
    BagAround(u, i);
    assert u[..i] == s[..i] && u[i + 1..] == s[i + 1..];
    assert multiset(s[i][j := v]) == multiset(s[i]) - multiset{s[i][j]} + multiset{v};
  }

  /** Trading a for x and then x back for a changes nothing. */
  lemma TradeBack(b: multiset<Entry>, a: Entry, x: Entry)
    requires a in b
    ensures b - multiset{a} + multiset{x} - multiset{x} + multiset{a} == b
  {
    assert b - multiset{a} + multiset{x} - multiset{x} == b - multiset{a};
  }

  lemma CellInBag(s: Rows, i: int, j: int)
    requires 0 <= i < |s| && 0 <= j < |s[i]|
    ensures s[i][j] in Bag(s)
  {
    BagAround(s, i);
    assert s[i][j] in multiset(s[i]);
  }

  lemma MoveDownBag(s: Rows, l: int, c: int)
    requires 0 <= l < |s| - 1 && 0 <= c < |s[l]| && c < |s[l + 1]| && s[l][c].None?
    ensures Bag(MoveDown(s, l, c)) == Bag(s) && MoveDown(s, l, c)[l + 1][c].None?
  {
    var x := s[l + 1][c];
    var u := s[l := s[l][c := x]];
    BagUpdate(s, l, c, x);
    BagUpdate(u, l + 1, c, None);
    CellInBag(s, l, c);
    TradeBack(Bag(s), None, x);
  }

  lemma MoveRightBag(s: Rows, l: int, c: int)
    requires 0 <= l < |s| && 0 <= c && c + 1 < |s[l]| && s[l][c].None?
    ensures Bag(MoveRight(s, l, c)) == Bag(s) && MoveRight(s, l, c)[l][c + 1].None?
  {
    var x := s[l][c + 1];
    var u := s[l := s[l][c := x]];
    BagUpdate(s, l, c, x);
    assert u[l][c + 1] == x;
    BagUpdate(u, l, c + 1, None);
    assert MoveRight(s, l, c) == u[l := u[l][c + 1 := None]];
    CellInBag(s, l, c);
    TradeBack(Bag(s), None, x);
  }

  /** A move of the hole keeps the bag of cells, and the hole empty. */
  lemma MoveBag(s: Rows, l: int, c: int)
    requires Hole(s, l, c) && !AtOuterCorner(s, l, c) && s[l][c].None?
    ensures Bag(Move(s, l, c).0) == Bag(s)
    ensures var m := Move(s, l, c); m.0[m.1][m.2].None?
  {
    assert l + 1 < |s| ==> Lengths(s)[l] >= Lengths(s)[l + 1];
    if c == |s[l]| - 1 || (l < |s| - 1 && c < |s[l + 1]| && Le(s[l + 1][c], s[l][c + 1])) {
      MoveDownBag(s, l, c);
    } else {
      MoveRightBag(s, l, c);
    }
  }

  lemma {:induction false} SlidePathBag(s: Rows, l: int, c: int)
    requires Hole(s, l, c) && s[l][c].None?
    ensures var e := SlidePath(s, l, c); Bag(e.0) == Bag(s) && e.0[e.1][e.2].None?
    decreases |s| - l, |s[l]| - c
  {
    if !AtOuterCorner(s, l, c) {
      MoveBag(s, l, c);
      var m := Move(s, l, c);
      assert |m.0| == |Lengths(m.0)| == |s|;
      assert |m.0[l]| == Lengths(m.0)[l] == |s[l]|;
      SlidePathBag(m.0, m.1, m.2);
    }
  }

  /** Cleaning up drops the hole from the bag. */
  lemma CleanupBag(s: Rows, l: int)
    requires 0 <= l < |s| && |s[l]| > 0 && s[l][|s[l]| - 1].None?
    requires |s[l]| == 1 ==> l == |s| - 1
    ensures Bag(Cleanup(s, l)) == Bag(s) - multiset{None}
  {
    var row := s[l];
    var popped := s[l := row[..|row| - 1]];
    assert row == row[..|row| - 1] + [None];
    BagAround(s, l);
    BagAround(popped, l);
    assert popped[..l] == s[..l] && popped[l + 1..] == s[l + 1..];
    if |row| == 1 {
      assert popped[..|popped| - 1] == s[..l];
      assert s[l + 1..] == [];
    }
  }

  // ---------------------------------------------------------------------
  // The None cells: the inner shape without the corner, and the hole
  // ---------------------------------------------------------------------

  /** The None cells of s are the cells of nu and the hole at (l, c). */
  predicate NoneCells(s: Rows, nu: seq<int>, l: int, c: int)
  {
    forall i, j :: 0 <= i < |s| && 0 <= j < |s[i]| ==> (s[i][j].None? <==> (InShape(nu, i, j) || (i == l && j == c)))
  }

  /** The hole lies to the right of the cells of nu in its row. */
  predicate HoleOutside(nu: seq<int>, l: int, c: int)
  {
    IsPartitionList(nu) && l >= 0 && At(nu, l) <= c
  }

  lemma AtStep(nu: seq<int>, l: int)
    requires IsPartitionList(nu) && l >= 0
    ensures At(nu, l + 1) <= At(nu, l)
  {
  }

  lemma MoveDownCells(s: Rows, nu: seq<int>, l: int, c: int)
    requires 0 <= l < |s| - 1 && 0 <= c < |s[l]| && c < |s[l + 1]|
    requires NoneCells(s, nu, l, c) && HoleOutside(nu, l, c)
    ensures NoneCells(MoveDown(s, l, c), nu, l + 1, c) && HoleOutside(nu, l + 1, c)
  {
    AtStep(nu, l);
    var u: Rows := MoveDown(s, l, c);
    forall i, j | 0 <= i < |u| && 0 <= j < |u[i]|
      ensures u[i][j].None? <==> (InShape(nu, i, j) || (i == l + 1 && j == c))
    {
      if i == l && j == c {
        assert u[i][j] == s[l + 1][c];
      } else if i == l + 1 && j == c {
      } else {
        assert u[i][j] == s[i][j];
      }
    }
  }

  lemma MoveRightCells(s: Rows, nu: seq<int>, l: int, c: int)
    requires 0 <= l < |s| && 0 <= c && c + 1 < |s[l]|
    requires NoneCells(s, nu, l, c) && HoleOutside(nu, l, c)
    ensures NoneCells(MoveRight(s, l, c), nu, l, c + 1) && HoleOutside(nu, l, c + 1)
  {
    var u: Rows := MoveRight(s, l, c);
    forall i, j | 0 <= i < |u| && 0 <= j < |u[i]|
      ensures u[i][j].None? <==> (InShape(nu, i, j) || (i == l && j == c + 1))
    {
      if i == l && j == c {
        assert u[i][j] == s[l][c + 1];
      } else if i == l && j == c + 1 {
      } else {
        assert u[i][j] == s[i][j];
      }
    }
  }

  lemma MoveCells(s: Rows, nu: seq<int>, l: int, c: int)
    requires Hole(s, l, c) && !AtOuterCorner(s, l, c)
    requires NoneCells(s, nu, l, c) && HoleOutside(nu, l, c)
    ensures var m := Move(s, l, c); NoneCells(m.0, nu, m.1, m.2) && HoleOutside(nu, m.1, m.2)
  {
    assert l + 1 < |s| ==> Lengths(s)[l] >= Lengths(s)[l + 1];
    if c == |s[l]| - 1 || (l < |s| - 1 && c < |s[l + 1]| && Le(s[l + 1][c], s[l][c + 1])) {
      MoveDownCells(s, nu, l, c);
    } else {
      MoveRightCells(s, nu, l, c);
    }
  }

  lemma {:induction false} SlidePathCells(s: Rows, nu: seq<int>, l: int, c: int)
    requires Hole(s, l, c) && NoneCells(s, nu, l, c) && HoleOutside(nu, l, c)
    ensures var e := SlidePath(s, l, c); NoneCells(e.0, nu, e.1, e.2) && HoleOutside(nu, e.1, e.2)
    decreases |s| - l, |s[l]| - c
  {
    if !AtOuterCorner(s, l, c) {
      MoveCells(s, nu, l, c);
      var m := Move(s, l, c);
      assert |m.0| == |Lengths(m.0)| == |s|;
      assert |m.0[l]| == Lengths(m.0)[l] == |s[l]|;
      SlidePathCells(m.0, nu, m.1, m.2);
    }
  }

  /** The partition p with one cell taken from row r. */
  function LessOne(p: seq<int>, r: int): (q: seq<int>)
    requires 0 <= r < |p|
    ensures |q| == |p| && forall i :: i >= 0 ==> At(q, i) == At(p, i) - (if i == r then 1 else 0)
  {
    p[r := p[r] - 1]
  }

  /** At the start the None cells are the inner shape: the inner shape
      without the chosen corner, and the corner itself as the hole. */
  lemma StartCells(t: Rows, cell: Cell)
    requires IsSkewShape(t) && cell in Corners(InnerShape(t))
    ensures 0 <= cell.0 < |InnerShape(t)|
    ensures NoneCells(t, LessOne(InnerShape(t), cell.0), cell.0, cell.1)
    ensures HoleOutside(LessOne(InnerShape(t), cell.0), cell.0, cell.1)
  {
    var mu := InnerShape(t);
    CornerIff(mu, cell);
    var r := cell.0;
    var nu := LessOne(mu, r);
    forall i, j | 0 <= i < |t| && 0 <= j < |t[i]|
      ensures t[i][j].None? <==> (InShape(nu, i, j) || (i == r && j == cell.1))
    {
      assert At(mu, i) == NoneCount(t[i]);
      assert t[i][j].None? <==> j < NoneCount(t[i]);
    }
    assert IsPartitionList(nu) by {
      forall k | 0 < k < |nu|
        ensures nu[k - 1] >= nu[k]
      {
        assert mu[k - 1] >= mu[k];
      }
    }
  }

  /** After the clean-up, each remaining row is the row of the walked rows,
      the hole's row one cell shorter. */
  lemma CleanupRows(e: Rows, l: int)
    requires 0 <= l < |e| && Hole(e, l, |e[l]| - 1) && AtOuterCorner(e, l, |e[l]| - 1)
    ensures var r := Cleanup(e, l);
      (|r| == |e| || (|r| == |e| - 1 && l == |e| - 1 && |e[l]| == 1))
      && forall i :: 0 <= i < |r| ==> r[i] == if i == l then e[l][..|e[l]| - 1] else e[i]
  {
  }

  /** The rows left by the clean-up form a skew tableau whose None cells are
      the cells of nu, its outer shape one outer corner less. */
  lemma CleanupShape(e: Rows, nu: seq<int>, l: int)
    requires 0 <= l < |e| && Hole(e, l, |e[l]| - 1) && AtOuterCorner(e, l, |e[l]| - 1)
    requires NoneCells(e, nu, l, |e[l]| - 1) && HoleOutside(nu, l, |e[l]| - 1)
    requires |nu| <= |e| && forall i :: 0 <= i < |nu| ==> nu[i] <= |e[i]|
    ensures IsSkewShape(Cleanup(e, l))
    ensures forall i :: i >= 0 ==> At(InnerShape(Cleanup(e, l)), i) == At(nu, i)
    ensures forall i :: i >= 0 ==> At(OuterShape(Cleanup(e, l)), i) == At(Lengths(e), i) - (if i == l then 1 else 0)
  {
    CleanupSkew(e, nu, l);
  }

  lemma CleanupSkew(e: Rows, nu: seq<int>, l: int)
    requires 0 <= l < |e| && Hole(e, l, |e[l]| - 1) && AtOuterCorner(e, l, |e[l]| - 1)
    requires NoneCells(e, nu, l, |e[l]| - 1) && HoleOutside(nu, l, |e[l]| - 1)
    requires |nu| <= |e| && forall i :: 0 <= i < |nu| ==> nu[i] <= |e[i]|
    ensures var r := Cleanup(e, l);
      IsSkewShape(r)
      && (forall i :: 0 <= i < |r| ==>
            (NoneCount(r[i]) == At(nu, i) && |r[i]| == At(Lengths(e), i) - (if i == l then 1 else 0)))
      && (forall i :: |r| <= i ==> At(nu, i) == 0 && At(Lengths(e), i) - (if i == l then 1 else 0) == 0)
  {
    var r := Cleanup(e, l);
    CleanupRows(e, l);
    forall i | 0 <= i < |r|
      ensures |r[i]| > 0 && NonesFirst(r[i]) && NoneCount(r[i]) == At(nu, i)
      ensures |r[i]| == At(Lengths(e), i) - (if i == l then 1 else 0)
    {
      CleanupRow(e, nu, l, i);
    }
    CleanupLists(e, nu, l);
  }

  lemma CleanupLists(e: Rows, nu: seq<int>, l: int)
    requires 0 <= l < |e| && Hole(e, l, |e[l]| - 1) && AtOuterCorner(e, l, |e[l]| - 1)
    requires HoleOutside(nu, l, |e[l]| - 1)
    requires forall i :: 0 <= i < |Cleanup(e, l)| ==> NoneCount(Cleanup(e, l)[i]) == At(nu, i)
    ensures IsPartitionList(Lengths(Cleanup(e, l))) && IsPartitionList(NoneCounts(Cleanup(e, l)))
  {
    var r := Cleanup(e, l);
    CleanupRows(e, l);
    var lengths := Lengths(r);
    forall k | 0 < k < |r|
      ensures lengths[k - 1] >= lengths[k]
    {
      assert Lengths(e)[k - 1] >= Lengths(e)[k];
    }
    forall k | 0 < k < |r|
      ensures NoneCounts(r)[k - 1] >= NoneCounts(r)[k]
    {
      AtStep(nu, k - 1);
    }
  }

  lemma CleanupRow(e: Rows, nu: seq<int>, l: int, i: int)
    requires 0 <= l < |e| && Hole(e, l, |e[l]| - 1) && AtOuterCorner(e, l, |e[l]| - 1)
    requires NoneCells(e, nu, l, |e[l]| - 1) && HoleOutside(nu, l, |e[l]| - 1)
    requires |nu| <= |e| && forall i :: 0 <= i < |nu| ==> nu[i] <= |e[i]|
    requires 0 <= i < |Cleanup(e, l)|
    ensures var r := Cleanup(e, l);
      |r[i]| > 0 && NonesFirst(r[i]) && NoneCount(r[i]) == At(nu, i)
      && |r[i]| == At(Lengths(e), i) - (if i == l then 1 else 0)
  {
    var r := Cleanup(e, l);
    CleanupRows(e, l);
    var row := r[i];
    assert At(nu, i) <= |row|;
    forall j | 0 <= j < |row|
      ensures row[j].None? <==> j < At(nu, i)
    {
      assert row[j] == e[i][j];
    }
    NoneCountIs(row, At(nu, i));
  }

  // ---------------------------------------------------------------------
  // What a slide does to the shapes and the entries
  // ---------------------------------------------------------------------

  /** The inner shape without one of its corners fits in the rows. */
  lemma LessOneFits(t: Rows, cell: Cell)
    requires IsSkewShape(t) && cell in Corners(InnerShape(t))
    ensures 0 <= cell.0 < |InnerShape(t)|
    ensures var nu := LessOne(InnerShape(t), cell.0);
      |nu| <= |t| && forall i :: 0 <= i < |nu| ==> nu[i] <= |t[i]|
  {
    var mu := InnerShape(t);
    CornerIff(mu, cell);
    var nu := LessOne(mu, cell.0);
    forall i | 0 <= i < |nu|
      ensures nu[i] <= |t[i]|
    {
      assert At(nu, i) <= At(mu, i) == NoneCount(t[i]);
    }
  }

  /** After the walk from an inner corner, the None cells are the inner
      shape without that corner, and the hole sits at an outer corner. */
  lemma WalkCells(t: Rows, cell: Cell, e: (Rows, int, int), nu: seq<int>)
    requires IsSkewShape(t) && cell in Corners(InnerShape(t))
    requires Hole(t, cell.0, cell.1) && 0 <= cell.0 < |InnerShape(t)|
    requires e == SlidePath(t, cell.0, cell.1) && nu == LessOne(InnerShape(t), cell.0)
    ensures Lengths(e.0) == Lengths(t) && e.2 == |e.0[e.1]| - 1
    ensures NoneCells(e.0, nu, e.1, e.2) && HoleOutside(nu, e.1, e.2)
    ensures |nu| <= |e.0| && (forall i :: 0 <= i < |nu| ==> nu[i] <= |e.0[i]|)
    ensures CornerRow(Lengths(t), e.1)
  {
    StartCells(t, cell);
    SlidePathCells(t, nu, cell.0, cell.1);
    LessOneFits(t, cell);
    forall i | 0 <= i < |nu|
      ensures nu[i] <= |e.0[i]|
    {
      assert |e.0[i]| == Lengths(e.0)[i] == |t[i]|;
    }
  }

  /** The rows a slide from an inner corner leaves. */
  lemma SlideFrom(t: Rows, cell: Cell)
    requires IsSkewShape(t) && cell in Corners(InnerShape(t))
    ensures Hole(t, cell.0, cell.1)
    ensures var e := SlidePath(t, cell.0, cell.1); var r := Cleanup(e.0, e.1);
      IsSkewShape(r)
      && (forall i :: i >= 0 ==> At(InnerShape(r), i) == At(InnerShape(t), i) - (if i == cell.0 then 1 else 0))
      && CornerRow(OuterShape(t), e.1)
      && (forall i :: i >= 0 ==> At(OuterShape(r), i) == At(OuterShape(t), i) - (if i == e.1 then 1 else 0))
  {
    InnerCornerIsCell(t, cell);
    LessOneFits(t, cell);
    var e := SlidePath(t, cell.0, cell.1);
    var nu := LessOne(InnerShape(t), cell.0);
    WalkCells(t, cell, e, nu);
    CleanupShape(e.0, nu, e.1);
    assert OuterShape(t) == Lengths(t);
  }

  /** A slide into an inner corner gives a skew tableau whose inner shape
      has lost that corner and whose outer shape has lost one of its own
      corners. */
  lemma SlideShape(t: Rows, corner: Option<Cell>)
    requires IsSkewShape(t) && StartCell(t, corner).Some?
    ensures SlideOf(t, corner).Ok? && IsSkewShape(SlideOf(t, corner).value)
    ensures var cell := StartCell(t, corner).value; var r := SlideOf(t, corner).value;
      cell in Corners(InnerShape(t))
      && forall i :: i >= 0 ==> At(InnerShape(r), i) == At(InnerShape(t), i) - (if i == cell.0 then 1 else 0)
    ensures var r := SlideOf(t, corner).value;
      exists l :: CornerRow(OuterShape(t), l)
        && forall i :: i >= 0 ==> At(OuterShape(r), i) == At(OuterShape(t), i) - (if i == l then 1 else 0)
  {
    var cell := StartCell(t, corner).value;
    SlideFrom(t, cell);
    var e := SlidePath(t, cell.0, cell.1);
    var r := Cleanup(e.0, e.1);
    assert SlideOf(t, corner) == Ok(r);
    assert CornerRow(OuterShape(t), e.1);
  }

  /** The walk from an inner corner carries the hole, a None cell, to the
      cell the clean-up drops. */
  lemma SlideFromBag(t: Rows, cell: Cell)
    requires IsSkewShape(t) && cell in Corners(InnerShape(t))
    ensures Hole(t, cell.0, cell.1)
    ensures var e := SlidePath(t, cell.0, cell.1); Bag(Cleanup(e.0, e.1)) == Bag(t) - multiset{None}
  {
    InnerCornerIsCell(t, cell);
    StartCells(t, cell);
    assert t[cell.0][cell.1].None?;
    SlidePathBag(t, cell.0, cell.1);
    var e := SlidePath(t, cell.0, cell.1);
    OuterCornerLast(e.0, e.1, e.2);
    CleanupBag(e.0, e.1);
  }

  /** A hole at an outer corner in a row of one cell is in the last row. */
  lemma OuterCornerLast(s: Rows, l: int, c: int)
    requires Hole(s, l, c) && AtOuterCorner(s, l, c)
    ensures |s[l]| > 0 && c == |s[l]| - 1
    ensures |s[l]| == 1 ==> l == |s| - 1
  {
  }

  /** Rows whose cells agree apart from None cells have the same entries. */
  lemma SameEntries(s: Rows, u: Rows)
    requires Bag(s) == Bag(u) - multiset{None}
    ensures multiset(Entries(s)) == multiset(Entries(u))
  {
    forall x
      ensures multiset(Entries(s))[x] == multiset(Entries(u))[x]
    {
      SameEntryCount(s, u, x);
    }
  }

  lemma SameEntryCount(s: Rows, u: Rows, x: int)
    requires Bag(s) == Bag(u) - multiset{None}
    ensures multiset(Entries(s))[x] == multiset(Entries(u))[x]
  {
    BagEntries(s, x);
    BagEntries(u, x);
    assert Bag(s)[Some(x)] == Bag(u)[Some(x)];
  }

  /** A slide moves the entries and loses none. */
  lemma SlideEntries(t: Rows, corner: Option<Cell>)
    requires IsSkewShape(t) && SlideOf(t, corner).Ok?
    ensures multiset(Entries(SlideOf(t, corner).value)) == multiset(Entries(t))
  {
    if StartCell(t, corner).Some? {
      var cell := StartCell(t, corner).value;
      SlideFromBag(t, cell);
      var e := SlidePath(t, cell.0, cell.1);
      assert SlideOf(t, corner) == Ok(Cleanup(e.0, e.1));
      SameEntries(Cleanup(e.0, e.1), t);
    }
  }

  /** Taking one cell from row r of a partition takes one from its size. */
  lemma SizeLessOne(p: Partition, q: Partition, r: int)
    requires 0 <= r < |p|
    requires forall i :: i >= 0 ==> At(q, i) == At(p, i) - (if i == r then 1 else 0)
    ensures Size(q) == Size(p) - 1
  {
    var less := LessOne(p, r);
    SizeUpdate(p, r, p[r] - 1);
    assert At(q, |p|) == 0;
    assert q == less[..|q|] by {
      forall i | 0 <= i < |q|
        ensures q[i] == less[i]
      {
        assert At(q, i) == At(less, i);
      }
    }
    forall k | |q| <= k < |less|
      ensures less[k] == 0
    {
      assert At(less, k) == At(q, k) == 0;
    }
    SizeOfPrefix(less, |q|);
  }

  /** A slide into an inner corner shrinks both shapes by one cell. */
  lemma SlideSize(t: Rows, corner: Option<Cell>)
    requires IsSkewShape(t) && StartCell(t, corner).Some?
    ensures SlideOf(t, corner).Ok? && IsSkewShape(SlideOf(t, corner).value)
    ensures Size(InnerShape(SlideOf(t, corner).value)) == Size(InnerShape(t)) - 1
    ensures Size(OuterShape(SlideOf(t, corner).value)) == Size(OuterShape(t)) - 1
  {
    SlideShape(t, corner);
    var cell := StartCell(t, corner).value;
    var r := SlideOf(t, corner).value;
    CornerIff(InnerShape(t), cell);
    SizeLessOne(InnerShape(t), InnerShape(r), cell.0);
    var l :| CornerRow(OuterShape(t), l)
      && forall i :: i >= 0 ==> At(OuterShape(r), i) == At(OuterShape(t), i) - (if i == l then 1 else 0);
    SizeLessOne(OuterShape(t), OuterShape(r), l);
  }

  /** `slide` raises ValueError exactly for a corner that is not an inner
      corner; without a corner it returns the tableau unchanged exactly
      when the inner shape is empty. */
  lemma SlideOutcome(t: Rows, corner: Option<Cell>)
    requires IsSkewShape(t)
    ensures SlideOf(t, corner).Err? <==> corner.Some? && corner.value !in Corners(InnerShape(t))
    ensures SlideOf(t, corner).Err? ==> SlideOf(t, corner).exc == ValueError(CornerMessage)
    ensures corner.None? ==> (SlideOf(t, corner) == Ok(t) <==> |InnerShape(t)| == 0)
  {
    if corner.None? && |InnerShape(t)| > 0 {
      CornerOfLastRow(InnerShape(t));
      SlideSize(t, corner);
    }
  }

  // ---------------------------------------------------------------------
  // Rectification
  // ---------------------------------------------------------------------

  /** `rectify`: slide into the first inner corner until there is none,
      then `to_tableau`. */
  function RectifyOf(t: Rows): Result<seq<seq<int>>>
    requires IsSkewShape(t)
    decreases Size(InnerShape(t))
  {
    if |Corners(InnerShape(t))| == 0 then ToTableau(t)
    else
      SlideShrinks(t);
      RectifyOf(SlideOf(t, None).value)
  }

  /** A slide into the first inner corner succeeds, keeps a skew shape and
      leaves a smaller, still non-negative, inner size. */
  lemma SlideShrinks(t: Rows)
    requires IsSkewShape(t) && |Corners(InnerShape(t))| > 0
    ensures SlideOf(t, None).Ok? && IsSkewShape(SlideOf(t, None).value)
    ensures 0 <= Size(InnerShape(SlideOf(t, None).value)) < Size(InnerShape(t))
  {
    SlideSize(t, None);
    SizeAtLeastLength(InnerShape(SlideOf(t, None).value));
  }

  /** `rectify`: the loop over the inner corners. */
  method Rectify(t: Rows) returns (r: Result<seq<seq<int>>>)
    requires IsSkewShape(t)
    ensures r == RectifyOf(t)
  {
    var rect := t;
    var innerCorners := Corners(InnerShape(rect));
    while |innerCorners| > 0
      invariant IsSkewShape(rect) && innerCorners == Corners(InnerShape(rect))
      invariant RectifyOf(rect) == RectifyOf(t)
      decreases Size(InnerShape(rect))
    {
      RectifyStep(rect);
      var slid := Slide(rect, None);
      rect := slid.value;
      innerCorners := Corners(InnerShape(rect));
    }
    r := ToTableau(rect);
  }

  /** Rows of a straight tableau: their lengths form a partition. */
  predicate StraightShape(rows: seq<seq<int>>)
  {
    IsPartition(seq(|rows|, i requires 0 <= i < |rows| => |rows[i]|))
  }

  /** Without inner corners the inner shape is empty, and `to_tableau`
      returns the entries row by row. */
  lemma StraightResult(t: Rows)
    requires IsSkewShape(t) && |Corners(InnerShape(t))| == 0
    ensures RectifyOf(t) == Ok(Filling(t)) && StraightShape(Filling(t))
    ensures multiset(Flatten(RectifyOf(t).value)) == multiset(Entries(t))
  {
    if |InnerShape(t)| > 0 {
      CornerOfLastRow(InnerShape(t));
    }
    var rows := Filling(t);
    StraightRows(t);
    forall i | 0 <= i < |rows|
      ensures |rows[i]| == |t[i]|
    {
      assert Wrap(rows[i]) == t[i];
    }
    assert seq(|rows|, i requires 0 <= i < |rows| => |rows[i]|) == OuterShape(t);
  }

  /** One round of `rectify`: a slide into the first inner corner, which
      keeps the entries and shrinks the inner shape. */
  lemma RectifyStep(t: Rows)
    requires IsSkewShape(t) && |Corners(InnerShape(t))| > 0
    ensures StartCell(t, None).Some? && SlideOf(t, None).Ok?
    ensures var s := SlideOf(t, None).value;
      IsSkewShape(s) && 0 <= Size(InnerShape(s)) < Size(InnerShape(t))
      && RectifyOf(t) == RectifyOf(s) && multiset(Entries(s)) == multiset(Entries(t))
  {
    SlideSize(t, None);
    SizeAtLeastLength(InnerShape(SlideOf(t, None).value));
    SlideEntries(t, None);
  }

  /** Rectification always succeeds, and the rows it returns hold the
      entries of the skew tableau, in rows whose lengths form a partition. */
  lemma {:induction false} RectifyResult(t: Rows)
    requires IsSkewShape(t)
    ensures RectifyOf(t).Ok? && StraightShape(RectifyOf(t).value)
    ensures multiset(Flatten(RectifyOf(t).value)) == multiset(Entries(t))
    decreases Size(InnerShape(t))
  {
    if |Corners(InnerShape(t))| == 0 {
      StraightResult(t);
    } else {
      RectifyStep(t);
      RectifyResult(SlideOf(t, None).value);
    }
  }
}
