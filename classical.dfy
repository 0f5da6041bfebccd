/** The Fourier-expansion indices of classical Jacobi forms
    (src/sage/modular/jacobi/classical.py): the pairs (n, r) that
    `classical_jacobi_fe_indices(m, prec, reduced)` generates for a Jacobi
    form of index m, first the positive definite ones (4mn - r^2 > 0), then
    the indefinite ones (4mn - r^2 == 0). The generator is modelled as the
    sequence of the pairs it yields. */
module JacobiIndices {
  import opened Outcomes

  type Index = (int, int)

  // ---------------------------------------------------------------------
  // Integer square root

  /** `isqrt(x)`: the largest r with r * r <= x. */
  function Isqrt(x: nat): (r: nat)
    ensures r * r <= x < (r + 1) * (r + 1)
  {
    RootFrom(x, 0, 0)
  }

  /** The root of x, searched upwards from r, with sq == r * r. */
  function RootFrom(x: nat, r: nat, sq: nat): (s: nat)
    requires sq == r * r && sq <= x
    ensures s * s <= x < (s + 1) * (s + 1)
    decreases x - sq
  {
    var next := sq + 2 * r + 1;
    assert next == (r + 1) * (r + 1);
    if next > x then r else RootFrom(x, r + 1, next)
  }

  lemma MulMonotone(c: nat, a: int, b: int)
    requires a <= b
    ensures c * a <= c * b
  {
    assert c * (b - a) >= 0;
    assert c * b - c * a == c * (b - a);
  }

  lemma SquareMonotone(a: nat, b: nat)
    requires a <= b
    ensures a * a <= b * b
  {
    MulMonotone(a, a, b);
    MulMonotone(b, a, b);
  }

  /** s is the integer square root of x: r <= s exactly when r * r <= x. */
  lemma RootOrder(r: nat, s: nat, x: nat)
    requires s * s <= x < (s + 1) * (s + 1)
    ensures r <= s <==> r * r <= x
  {
    if r <= s {
      SquareMonotone(r, s);
    } else {
      SquareMonotone(s + 1, r);
    }
  }

  /** For r >= 0, r lies below the integer square root of x exactly when
      its square lies below x. */
  lemma BelowIsqrt(r: nat, x: nat)
    ensures r <= Isqrt(x) <==> r * r <= x
  {
    RootOrder(r, Isqrt(x), x);
  }

  /** `x.is_square()` for x >= 0. */
  predicate IsSquare(x: nat) {
    Isqrt(x) * Isqrt(x) == x
  }

  lemma IsSquareIff(x: nat, r: nat)
    ensures r * r == x ==> IsSquare(x) && Isqrt(x) == r
  {
    if r * r == x {
      assert (r + 1) * (r + 1) == r * r + 2 * r + 1;
      RootOrder(Isqrt(x), r, x);
      BelowIsqrt(r, x);
    }
  }

  /** 4mn, which is at least 4 for positive m and n. */
  function FourMN(m: nat, n: nat): (r: nat)
    ensures m >= 1 && n >= 1 ==> r >= 4
  {
    if n == 0 then 0
    else
      MulMonotone(4 * m, 1, n);
      4 * m * n
  }

  function Min(a: int, b: int): int {
    if a <= b then a else b
  }

  // ---------------------------------------------------------------------
  // Reduced mode: 0 <= r <= m

  /** `for r in range(min(m + 1, isqrt(4mn - 1) + 1)): yield (n, r)`. */
  function ReducedRow(m: nat, n: nat): (row: seq<Index>)
    requires m >= 1 && n >= 1
  {
    seq(Min(m + 1, Isqrt(FourMN(m, n) - 1) + 1), r => (n, r))
  }

  /** The positive definite rows for n = lo, ..., hi - 1. */
  function ReducedRows(m: nat, lo: nat, hi: int): seq<Index>
    requires m >= 1 && lo >= 1
    decreases hi - lo
  {
    if lo >= hi then [] else ReducedRow(m, lo) + ReducedRows(m, lo + 1, hi)
  }

  /** The indefinite indices for r = lo, ..., hi - 1: (r^2 / 4m, r)
      whenever 4m divides r^2. */
  function ReducedSquares(m: nat, lo: nat, hi: int): seq<Index>
    requires m >= 1
    decreases hi - lo
  {
    if lo >= hi then []
    else
      var rest := ReducedSquares(m, lo + 1, hi);
      if (lo * lo) % (4 * m) == 0 then [((lo * lo) / (4 * m), lo)] + rest else rest
  }

  /** `classical_jacobi_fe_indices(m, prec, True)` as written: for
      prec == 0 the bound of the indefinite loop is `isqrt(-4m)`, which
      raises. */
  function ReducedAsWritten(m: nat, prec: nat): (r: Result<seq<Index>>)
    requires m >= 1
    ensures prec == 0 <==> r.Err?
  {
    if prec == 0 then Err(ValueError("square root of negative integer not defined"))
    else Ok(Reduced(m, prec))
  }

  /** With prec == 0, the reduced generator raises where the full one
      yields nothing. */
  lemma ReducedAsWrittenCounterexample()
    ensures ReducedAsWritten(1, 0).Err? && Full(1, 0) == []
  {
  }

  /** `classical_jacobi_fe_indices(m, prec, True)`, with no indefinite
      index when prec == 0. */
  function Reduced(m: nat, prec: nat): seq<Index>
    requires m >= 1
  {
    var squares := if prec == 0 then [] else ReducedSquares(m, 0, Min(m + 1, Isqrt((prec - 1) * 4 * m) + 1));
    ReducedRows(m, 1, prec) + squares
  }

  lemma {:induction false} ReducedRowsMembers(m: nat, lo: nat, hi: int, p: Index)
    requires m >= 1 && lo >= 1
    ensures p in ReducedRows(m, lo, hi) <==> lo <= p.0 < hi && 0 <= p.1 <= m && p.1 * p.1 < 4 * m * p.0
    decreases hi - lo
  {
    if lo < hi {
      ReducedRowsMembers(m, lo + 1, hi, p);
      if p.0 == lo && 0 <= p.1 {
        BelowIsqrt(p.1, FourMN(m, lo) - 1);
        if p.1 <= m && p.1 * p.1 < 4 * m * p.0 {
          assert ReducedRow(m, lo)[p.1] == p;
        }
      }
    }
  }

  lemma {:induction false} ReducedSquaresMembers(m: nat, lo: nat, hi: int, p: Index)
    requires m >= 1
    ensures p in ReducedSquares(m, lo, hi) <==> lo <= p.1 < hi && p.1 * p.1 == 4 * m * p.0
    decreases hi - lo
  {
    if lo < hi {
      ReducedSquaresMembers(m, lo + 1, hi, p);
      DivisionByFourM(m, lo, p.0);
    }
  }

  /** (n, r) with r^2 == 4mn is exactly (r^2 / 4m, r) with 4m | r^2. */
  lemma DivisionByFourM(m: nat, r: nat, n: int)
    requires m >= 1
    ensures (r * r) % (4 * m) == 0 && n == (r * r) / (4 * m) <==> r * r == 4 * m * n
  {
    var d := 4 * m;
    if r * r == d * n {
      assert (d * n) / d == n && (d * n) % d == 0 by {
        MulDivExact(d, n);
      }
    }
  }

  lemma MulDivExact(d: int, n: int)
    requires d > 0
    ensures (d * n) / d == n && (d * n) % d == 0
  {
    var a := d * n;
    var q, s := a / d, a % d;
    assert a == d * q + s && 0 <= s < d;
    assert d * (n - q) == s by {
      assert d * n - d * q == d * (n - q);
    }
    if n - q >= 1 {
      MulMonotone(d, 1, n - q);
    } else if n - q <= -1 {
      MulMonotone(d, n - q, -1);
    }
  }

  /** Multiplying by c >= 1 keeps the order both ways. */
  lemma ScaleOrder(c: nat, a: int, b: int)
    requires c >= 1
    ensures c * a <= c * b <==> a <= b
  {
    if a <= b {
      MulMonotone(c, a, b);
    } else {
      MulMonotone(c, b + 1, a);
      MulMonotone(c, 0, 1);
      assert c * (b + 1) == c * b + c;
    }
  }

  /** An indefinite index (n, r), r^2 == 4mn, has n >= 0, and lies below
      the bound 4m(prec - 1) exactly when n < prec. */
  lemma SquareCase(m: nat, prec: nat, r: nat, n: int)
    requires m >= 1 && prec >= 1 && r * r == 4 * m * n
    ensures n >= 0
    ensures r * r <= (prec - 1) * 4 * m <==> n < prec
  {
    assert (prec - 1) * 4 * m == 4 * m * (prec - 1);
    ScaleOrder(4 * m, n, prec - 1);
    assert r * r >= 0;
    ScaleOrder(4 * m, 0, n);
  }

  /** The reduced indices are exactly the (n, r) with 0 <= n < prec,
      0 <= r <= m and 4mn - r^2 >= 0: the positive definite ones from the
      rows, the indefinite ones from the squares. */
  lemma ReducedMembers(m: nat, prec: nat, p: Index)
    requires m >= 1
    ensures p in Reduced(m, prec) <==> 0 <= p.0 < prec && 0 <= p.1 <= m && p.1 * p.1 <= 4 * m * p.0
  {
    ReducedRowsMembers(m, 1, prec, p);
    NonPositiveSquare(p.1);
    ScaleOrder(4 * m, 1, p.0);
    if prec > 0 {
      var bound := (prec - 1) * 4 * m;
      var hi := Min(m + 1, Isqrt(bound) + 1);
      ReducedSquaresMembers(m, 0, hi, p);
      if 0 <= p.1 {
        BelowIsqrt(p.1, bound);
        if p.1 * p.1 == 4 * m * p.0 {
          SquareCase(m, prec, p.1, p.0);
        }
      }
    }
    if p.0 <= 0 && p.1 * p.1 <= 4 * m * p.0 {
      ScaleOrder(4 * m, p.0, 0);
    }
  }

  lemma NonPositiveSquare(r: int)
    ensures r * r >= 0 && (r * r <= 0 ==> r == 0)
  {
    if r != 0 {
      if r > 0 {
        assert r * r >= r;
      } else {
        assert r * r == (-r) * (-r) >= -r;
      }
    }
  }

  // ---------------------------------------------------------------------
  // Full mode: every r

  /** (n, r), (n, -r) for r = lo, ..., hi. */
  function PlusMinus(n: int, lo: nat, hi: int): seq<Index>
    decreases hi - lo
  {
    var r: int := lo;
    if lo > hi then [] else [(n, r), (n, -r)] + PlusMinus(n, lo + 1, hi)
  }

  /** The row for n: (n, 0), then (n, r), (n, -r) for 1 <= r <= isqrt(4mn - 1). */
  function FullRow(m: nat, n: nat): seq<Index>
    requires m >= 1 && n >= 1
  {
    [(n, 0)] + PlusMinus(n, 1, Isqrt(FourMN(m, n) - 1))
  }

  function FullRows(m: nat, lo: nat, hi: int): seq<Index>
    requires m >= 1 && lo >= 1
    decreases hi - lo
  {
    if lo >= hi then [] else FullRow(m, lo) + FullRows(m, lo + 1, hi)
  }

  /** (n, isqrt(4mn)), (n, -isqrt(4mn)) for every n = lo, ..., hi - 1
      where 4mn is a square. */
  function FullSquares(m: nat, lo: nat, hi: int): seq<Index>
    requires m >= 1
    decreases hi - lo
  {
    if lo >= hi then [] else SquareRoots(m, lo) + FullSquares(m, lo + 1, hi)
  }

  /** (n, isqrt(4mn)), (n, -isqrt(4mn)) when 4mn is a square, else nothing. */
  function SquareRoots(m: nat, n: nat): seq<Index>
    requires m >= 1
  {
    var root: int := Isqrt(FourMN(m, n));
    if IsSquare(FourMN(m, n)) then [(n, root), (n, -root)] else []
  }

  lemma SquareRootsMembers(m: nat, n: nat, p: Index)
    requires m >= 1
    ensures p in SquareRoots(m, n) <==> p.0 == n && p.1 * p.1 == 4 * m * n
  {
    var x := FourMN(m, n);
    assert x == 4 * m * n;
    if p.0 == n {
      var a: nat := if p.1 < 0 then -p.1 else p.1;
      assert a * a == p.1 * p.1;
      IsSquareIff(x, a);
    }
  }

  /** `classical_jacobi_fe_indices(m, prec, False)`. */
  function Full(m: nat, prec: nat): seq<Index>
    requires m >= 1
  {
    FullRows(m, 1, prec) + (if prec > 0 then [(0, 0)] else []) + FullSquares(m, 1, prec)
  }

  lemma {:induction false} PlusMinusMembers(n: int, lo: nat, hi: int, p: Index)
    ensures p in PlusMinus(n, lo, hi) <==> p.0 == n && lo <= (if p.1 < 0 then -p.1 else p.1) <= hi
    decreases hi - lo
  {
    if lo <= hi {
      PlusMinusMembers(n, lo + 1, hi, p);
    }
  }

  lemma {:induction false} FullRowsMembers(m: nat, lo: nat, hi: int, p: Index)
    requires m >= 1 && lo >= 1
    ensures p in FullRows(m, lo, hi) <==> lo <= p.0 < hi && p.1 * p.1 < 4 * m * p.0
    decreases hi - lo
  {
    if lo < hi {
      FullRowsMembers(m, lo + 1, hi, p);
      PlusMinusMembers(lo, 1, Isqrt(FourMN(m, lo) - 1), p);
      var a: nat := if p.1 < 0 then -p.1 else p.1;
      assert a * a == p.1 * p.1;
      BelowIsqrt(a, FourMN(m, lo) - 1);
    }
  }

  lemma {:induction false} FullSquaresMembers(m: nat, lo: nat, hi: int, p: Index)
    requires m >= 1
    ensures p in FullSquares(m, lo, hi) <==> lo <= p.0 < hi && p.1 * p.1 == 4 * m * p.0
    decreases hi - lo
  {
    if lo < hi {
      FullSquaresMembers(m, lo + 1, hi, p);
      SquareRootsMembers(m, lo, p);
    }
  }

  /** The full indices are exactly the (n, r) with 0 <= n < prec and
      4mn - r^2 >= 0. */
  lemma FullMembers(m: nat, prec: nat, p: Index)
    requires m >= 1
    ensures p in Full(m, prec) <==> 0 <= p.0 < prec && p.1 * p.1 <= 4 * m * p.0
  {
    FullRowsMembers(m, 1, prec, p);
    FullSquaresMembers(m, 1, prec, p);
    NonPositiveSquare(p.1);
    if p.0 < 0 {
      assert 4 * m * p.0 < 0;
    }
  }

  /** Every index generated in either mode has a non-negative
      discriminant 4mn - r^2. */
  lemma Discriminant(m: nat, prec: nat, p: Index)
    requires m >= 1
    ensures p in Reduced(m, prec) ==> 4 * m * p.0 - p.1 * p.1 >= 0
    ensures p in Full(m, prec) ==> 4 * m * p.0 - p.1 * p.1 >= 0
  {
    ReducedMembers(m, prec, p);
    FullMembers(m, prec, p);
  }

  /** The reduced indices are the full ones with 0 <= r <= m. */
  lemma ReducedInFull(m: nat, prec: nat, p: Index)
    requires m >= 1
    ensures p in Reduced(m, prec) <==> p in Full(m, prec) && 0 <= p.1 <= m
  {
    ReducedMembers(m, prec, p);
    FullMembers(m, prec, p);
  }

  /** The documented reduced list for m = 2 and prec = 3. */
  lemma DocumentedReduced()
    ensures Reduced(2, 3) == [(1, 0), (1, 1), (1, 2), (2, 0), (2, 1), (2, 2), (0, 0)]
  {
    assert FourMN(2, 1) == 8 && FourMN(2, 2) == 16;
    IsqrtOf(7, 2);
    IsqrtOf(15, 3);
    IsqrtOf(8, 2);
    assert ReducedRow(2, 1) == [(1, 0), (1, 1), (1, 2)];
    assert ReducedRow(2, 2) == [(2, 0), (2, 1), (2, 2)];
    assert ReducedRows(2, 1, 3) == ReducedRow(2, 1) + ReducedRow(2, 2);
    assert ReducedSquares(2, 0, 3) == [(0, 0)];
  }

  /** The documented full list for m = 2 and prec = 3. */
  lemma DocumentedFull()
    ensures Full(2, 3) == [(1, 0), (1, 1), (1, -1), (1, 2), (1, -2), (2, 0), (2, 1), (2, -1), (2, 2), (2, -2),
                           (2, 3), (2, -3), (0, 0), (2, 4), (2, -4)]
  {
    DocumentedFullRows();
    DocumentedFullSquares();
  }

  lemma DocumentedFullRows()
    ensures FullRows(2, 1, 3) == [(1, 0), (1, 1), (1, -1), (1, 2), (1, -2), (2, 0), (2, 1), (2, -1), (2, 2), (2, -2),
                                  (2, 3), (2, -3)]
  {
    assert FourMN(2, 1) == 8 && FourMN(2, 2) == 16;
    IsqrtOf(7, 2);
    IsqrtOf(15, 3);
    assert FullRow(2, 1) == [(1, 0), (1, 1), (1, -1), (1, 2), (1, -2)];
    assert FullRow(2, 2) == [(2, 0), (2, 1), (2, -1), (2, 2), (2, -2), (2, 3), (2, -3)];
    assert FullRows(2, 1, 3) == FullRow(2, 1) + FullRow(2, 2);
  }

  lemma DocumentedFullSquares()
    ensures FullSquares(2, 1, 3) == [(2, 4), (2, -4)]
  {
    assert FourMN(2, 1) == 8 && FourMN(2, 2) == 16;
    IsqrtOf(16, 4);
    IsqrtOf(8, 2);
  }

  lemma IsqrtOf(x: nat, r: nat)
    requires r * r <= x < (r + 1) * (r + 1)
    ensures Isqrt(x) == r
  {
    BelowIsqrt(r, x);
    BelowIsqrt(r + 1, x);
  }
}
