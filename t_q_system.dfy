/** T-systems and Q-systems of a finite Cartan type: the boundary cases of the
    generators, the two Jacobi-Trudy matrix layouts, the index arithmetic of
    the recurrences and the loop that keeps products square-free.

    The algebras themselves (polynomials, determinants, substitution) are not
    modelled: a generator that the source expands is returned as a tag naming
    the expansion, and a matrix is returned as its entries. */
module TQSystem {
  import opened Outcomes

  /** The Cartan data a system is built over: the rank r (index set 1..r),
      the restriction level (None when unrestricted) and whether the type is A. */
  datatype CartanData = CartanData(rank: nat, level: Option<int>, typeA: bool)

  predicate InIndexSet(c: CartanData, a: int)
  {
    1 <= a <= c.rank
  }

  /** The indices at which a generator is formally the unit: level 0, the
      restriction level, and the two ends a = 0 and a = r+1 of the diagram. */
  predicate Boundary(c: CartanData, a: int, m: int)
  {
    m == 0 || c.level == Some(m) || a == 0 || a == c.rank + 1
  }

  /** An element of a T-system as far as the generator code produces it:
      the unit, zero, a single generator T^(a)_m(u), or a tag for the
      expansion of T^(a)_m(u) by the Jacobi-Trudy determinant or by the
      reduction into generators with m = 1. */
  datatype TValue =
    | One
    | Zero
    | Monomial(a: int, m: int, u: real)
    | JacobiTrudy(a: int, m: int, u: real)
    | Reduced(a: int, m: int, u: real)

  // ---------------------------------------------------------------------
  // TSystem.gen

  /** `TSystem.gen(a, m, u)`: the boundary indices give the unit, m = 1 a
      generator, indices outside the index set and negative levels zero, and
      every other generator is expanded (by Jacobi-Trudy in unrestricted
      type A, by reduction otherwise). */
  function TGen(c: CartanData, a: int, m: int, u: real): (r: TValue)
    ensures r == One <==> Boundary(c, a, m)
    ensures r == Zero <==> !Boundary(c, a, m) && m != 1 && (!InIndexSet(c, a) || m < 0)
    ensures r.Monomial? <==> !Boundary(c, a, m) && m == 1
    ensures r.Monomial? ==> r == Monomial(a, 1, u)
    ensures r.JacobiTrudy? || r.Reduced? ==>
              InIndexSet(c, a) && m >= 2 && c.level != Some(m) && r.a == a && r.m == m && r.u == u
    ensures r.JacobiTrudy? <==> !Boundary(c, a, m) && InIndexSet(c, a) && m >= 2 && c.typeA && c.level == None
  {
    if Boundary(c, a, m) then One
    else if m == 1 then Monomial(a, m, u)
    else if !InIndexSet(c, a) || m < 0 then Zero
    else if c.typeA && c.level == None then JacobiTrudy(a, m, u)
    else Reduced(a, m, u)
  }

  /** The three "formally defined" generators listed in the documentation of
      `gen`, as the code computes them: T^(0)_1 is the unit (the documentation
      prints 0), T^(1)_0 is the unit and T^(1)_{-5} is zero. */
  lemma TGenFormalGenerators(u: real)
    ensures TGen(CartanData(4, None, true), 0, 1, u) == One
    ensures TGen(CartanData(4, None, true), 1, 0, u) == One
    ensures TGen(CartanData(4, None, true), 1, -5, u) == Zero
  {
  }

  // ---------------------------------------------------------------------
  // TSystem._jacobi_trudy

  /** Entry (i, j), counted from 1, of the m x m Jacobi-Trudy matrix of
      T^(a)_m(u): with b = a - i + j it is zero outside 0..r+1, the unit at
      b = 0 and b = r+1, and T^(b)_1(u + i + j - m - 1) otherwise. */
  function TEntry(c: CartanData, a: int, m: int, i: int, j: int, u: real): TValue
  {
    var b := a - i + j;
    if b < 0 || b > c.rank + 1 then Zero
    else if b == 0 || b == c.rank + 1 then One
    else TGen(c, b, 1, u + (i + j - m - 1) as real)
  }

  /** A square matrix of the given size whose entry (i, j) is `entry(i+1, j+1)`. */
  ghost predicate IsLayout(mat: seq<seq<TValue>>, size: int, entry: (int, int) -> TValue)
  {
    |mat| == (if size > 0 then size else 0) &&
    (forall i :: 0 <= i < |mat| ==> |mat[i]| == |mat|) &&
    (forall i, j :: 0 <= i < |mat| && 0 <= j < |mat| ==> mat[i][j] == entry(i + 1, j + 1))
  }

  /** `TSystem._jacobi_trudy(a, m, u)` up to the determinant: builds the matrix
      row by row. */
  method JacobiTrudyMatrix(c: CartanData, a: int, m: int, u: real) returns (mat: seq<seq<TValue>>)
    ensures IsLayout(mat, m, (i, j) => TEntry(c, a, m, i, j, u))
  {
    mat := [];
    var r := c.rank;
    var i := 1;
    while i < m + 1
      invariant 1 <= i <= if m >= 0 then m + 1 else 1
      invariant |mat| == i - 1
      invariant forall p :: 0 <= p < |mat| ==> |mat[p]| == if m > 0 then m else 0
      invariant forall p, q :: 0 <= p < |mat| && 0 <= q < |mat[p]| ==>
                  mat[p][q] == TEntry(c, a, m, p + 1, q + 1, u)
    {
      var row: seq<TValue> := [];
      var j := 1;
      while j < m + 1
        invariant 1 <= j <= m + 1
        invariant |row| == j - 1
        invariant forall q :: 0 <= q < |row| ==> row[q] == TEntry(c, a, m, i, q + 1, u)
      {
        var b := a - i + j;
        if b < 0 || b > r + 1 {
          row := row + [Zero];
        } else if b == 0 || b == r + 1 {
          row := row + [One];
        } else {
          row := row + [TGen(c, b, 1, u + (i + j - m - 1) as real)];
        }
        j := j + 1;
      }
      mat := mat + [row];
      i := i + 1;
    }
    assert |mat| == if m > 0 then m else 0;
  }

  /** In an unrestricted system every entry of the layout is zero, the unit,
      or a generator T^(b)_1 of the index set: the determinant expresses
      T^(a)_m in generators with m = 1 only. */
  lemma JacobiTrudyEntries(c: CartanData, a: int, m: int, i: int, j: int, u: real)
    requires c.level == None
    ensures var e := TEntry(c, a, m, i, j, u);
            e == Zero || e == One ||
            (e.Monomial? && e.m == 1 && InIndexSet(c, e.a) && e.a == a - i + j &&
             e.u == u + (i + j - m - 1) as real)
  {
  }

  /** The diagonal of the layout of an honest generator holds T^(a)_1 at the
      spectral parameters u - m + 1, u - m + 3, ..., u + m - 1. */
  lemma JacobiTrudyDiagonal(c: CartanData, a: int, m: int, i: int, u: real)
    requires InIndexSet(c, a) && c.level == None
    ensures TEntry(c, a, m, i, i, u) == Monomial(a, 1, u + (2 * i - m - 1) as real)
  {
  }

  /** The layout is banded: entries more than a places below the diagonal or
      more than r + 1 - a places above it are zero. */
  lemma JacobiTrudyBand(c: CartanData, a: int, m: int, i: int, j: int, u: real)
    ensures j - i < -a || j - i > c.rank + 1 - a ==> TEntry(c, a, m, i, j, u) == Zero
    ensures -a <= j - i <= c.rank + 1 - a ==> TEntry(c, a, m, i, j, u) != Zero
  {
  }

  /** Reflection of the spectral parameter of a generator around u. */
  function ReflectAround(e: TValue, u: real): TValue
  {
    match e
    case Monomial(b, k, v) => Monomial(b, k, 2.0 * u - v)
    case _ => e
  }

  /** Entry (i, j) and entry (m+1-j, m+1-i) carry the same generator with
      spectral parameters mirrored around u: the layout is persymmetric up to
      u -> -u. */
  lemma JacobiTrudyPersymmetric(c: CartanData, a: int, m: int, i: int, j: int, u: real)
    requires c.level == None
    ensures TEntry(c, a, m, m + 1 - j, m + 1 - i, u) == ReflectAround(TEntry(c, a, m, i, j, u), u)
  {
  }

  /** The documented example T^(1)_3(u) in type A_2: the layout whose
      determinant is 1 + T1(u-2) T1(u) T1(u+2) - T1(u+2) T2(u-1) - T1(u-2) T2(u+1). */
  lemma JacobiTrudyDocumented(c: CartanData, u: real, mat: seq<seq<TValue>>)
    requires c == CartanData(2, None, true)
    requires IsLayout(mat, 3, (i, j) => TEntry(c, 1, 3, i, j, u))
    ensures mat == [[Monomial(1, 1, u - 2.0), Monomial(2, 1, u - 1.0), One],
                    [One, Monomial(1, 1, u), Monomial(2, 1, u + 1.0)],
                    [Zero, One, Monomial(1, 1, u + 2.0)]]
  {
    assert mat[0] == [Monomial(1, 1, u - 2.0), Monomial(2, 1, u - 1.0), One];
    assert mat[1] == [One, Monomial(1, 1, u), Monomial(2, 1, u + 1.0)];
    assert mat[2] == [Zero, One, Monomial(1, 1, u + 2.0)];
  }

  // ---------------------------------------------------------------------
  // TSystemAlternate

  /** `TSystemAlternate.gen(a, m, u)`: as `TSystem.gen`, except that a = 1
      always gives the generator, and only unrestricted type A is expanded;
      every other honest generator raises NotImplementedError. */
  function AltGen(c: CartanData, a: int, m: int, u: real): (r: Result<TValue>)
    ensures r == Ok(One) <==> Boundary(c, a, m)
    ensures r.Ok? && r.value.Monomial? <==> !Boundary(c, a, m) && a == 1
    ensures r.Ok? && r.value.Monomial? ==> r.value == Monomial(1, m, u)
    ensures r == Ok(Zero) <==> !Boundary(c, a, m) && a != 1 && !InIndexSet(c, a)
    ensures r.Err? <==> !Boundary(c, a, m) && a != 1 && InIndexSet(c, a) && !(c.typeA && c.level == None)
    ensures r.Err? ==> r.exc.NotImplementedError?
  {
    if Boundary(c, a, m) then Ok(One)
    else if a == 1 then Ok(Monomial(a, m, u))
    else if !InIndexSet(c, a) then Ok(Zero)
    else if c.typeA && c.level == None then Ok(JacobiTrudy(a, m, u))
    else Err(NotImplementedError("TODO: Implement the algorithm to reduce to T^(1)[k](v)"))
  }

  /** Entry (i, j), counted from 1, of the a x a Jacobi-Trudy matrix of
      T^(a)_m(u) in the alternate system: with k = m - i + j it is zero for
      k < 0, the unit for k = 0 and T^(1)_k(u + i + j - a - 1) otherwise. */
  function AltEntry(c: CartanData, a: int, m: int, i: int, j: int, u: real): TValue
  {
    var k := m - i + j;
    if k < 0 then Zero
    else if k == 0 then One
    else AltGen(c, 1, k, u + (i + j - a - 1) as real).value
  }

  /** `TSystemAlternate._jacobi_trudy(a, m, u)` up to the determinant. */
  method AltJacobiTrudyMatrix(c: CartanData, a: int, m: int, u: real) returns (mat: seq<seq<TValue>>)
    ensures IsLayout(mat, a, (i, j) => AltEntry(c, a, m, i, j, u))
  {
    mat := [];
    var i := 1;
    while i < a + 1
      invariant 1 <= i <= if a >= 0 then a + 1 else 1
      invariant |mat| == i - 1
      invariant forall p :: 0 <= p < |mat| ==> |mat[p]| == if a > 0 then a else 0
      invariant forall p, q :: 0 <= p < |mat| && 0 <= q < |mat[p]| ==>
                  mat[p][q] == AltEntry(c, a, m, p + 1, q + 1, u)
    {
      var row: seq<TValue> := [];
      var j := 1;
      while j < a + 1
        invariant 1 <= j <= a + 1
        invariant |row| == j - 1
        invariant forall q :: 0 <= q < |row| ==> row[q] == AltEntry(c, a, m, i, q + 1, u)
      {
        var k := m - i + j;
        if k < 0 {
          row := row + [Zero];
        } else if k == 0 {
          row := row + [One];
        } else {
          var g := AltGen(c, 1, k, u + (i + j - a - 1) as real);
          row := row + [g.value];
        }
        j := j + 1;
      }
      mat := mat + [row];
      i := i + 1;
    }
    assert |mat| == if a > 0 then a else 0;
  }

  /** Exchanges the roles of the two indices of a generator. */
  function Conjugate(e: TValue): TValue
  {
    match e
    case Monomial(b, k, v) => Monomial(k, b, v)
    case _ => e
  }

  /** The two layouts are conjugate: when the rank is large enough that no
      entry reaches the upper end of the diagram, the alternate a x a matrix
      of T^(a)_m is the m-indexed a x a layout of the first system with every
      T^(b)_1 replaced by T^(1)_b. */
  lemma AltIsConjugateLayout(c: CartanData, a: int, m: int, i: int, j: int, u: real)
    requires c.level == None && a >= 1 && m >= 1 && c.rank >= m + a - 1
    requires 1 <= i <= a && 1 <= j <= a
    ensures AltEntry(c, a, m, i, j, u) == Conjugate(TEntry(c, m, a, i, j, u))
  {
  }

  // ---------------------------------------------------------------------
  // Floor division and Hermite's identity

  /** Python's `x // y`: the floor of x / y, also for a negative divisor
      (Dafny's `/` rounds so that the remainder is non-negative, which is the
      floor only when the divisor is positive). */
  function PyFloorDiv(x: int, y: int): int
    requires y != 0
  {
    if y > 0 then x / y else (-x) / (-y)
  }

  /** The quotient is the floor: y q <= x < y (q + 1) for y > 0, and the
      mirrored bounds for y < 0. */
  lemma PyFloorDivIsFloor(x: int, y: int)
    requires y != 0
    ensures var q := PyFloorDiv(x, y);
            (y > 0 ==> y * q <= x < y * q + y) && (y < 0 ==> y * q + y < x <= y * q)
  {
    if y < 0 {
      var q := (-x) / (-y);
      assert (-y) * q <= -x < (-y) * q + (-y);
    }
  }

  /** (n + 0) / c + (n + 1) / c + ... + (n + count - 1) / c, with floor division. */
  function FloorSum(n: int, c: int, count: nat): int
    requires c >= 1
    decreases count
  {
    if count == 0 then 0 else n / c + FloorSum(n + 1, c, count - 1)
  }

  lemma {:induction false} FloorSumLast(n: int, c: int, count: nat)
    requires c >= 1 && count >= 1
    ensures FloorSum(n, c, count) == FloorSum(n, c, count - 1) + (n + count - 1) / c
    decreases count
  {
    if count > 1 {
      FloorSumLast(n + 1, c, count - 1);
    }
  }

  lemma {:induction false} FloorSumShift(n: int, c: int, count: nat)
    requires c >= 1
    ensures FloorSum(n + 1, c, count) == FloorSum(n, c, count) - n / c + (n + count) / c
    decreases count
  {
    if count > 0 {
      FloorSumShift(n + 1, c, count - 1);
    }
  }

  lemma {:induction false} FloorSumSmall(c: int, start: nat, count: nat)
    requires c >= 1 && start + count <= c
    ensures FloorSum(start, c, count) == 0
    decreases count
  {
    if count > 0 {
      FloorSumSmall(c, start + 1, count - 1);
    }
  }

  lemma MulAtLeast(k: int, c: int)
    requires k >= 1 && c >= 1
    ensures k * c >= c
  {
    assert k * c == (k - 1) * c + c;
  }

  lemma MulDifference(q: int, q': int, c: int)
    ensures (q - q') * c == q * c - q' * c
  {
  }

  lemma DivUnique(x: int, c: int, q: int, r: int)
    requires c >= 1 && x == q * c + r && 0 <= r < c
    ensures x / c == q
  {
    var q', r' := x / c, x % c;
    assert x == q' * c + r';
    if q' < q {
      MulAtLeast(q - q', c);
      MulDifference(q, q', c);
    } else if q < q' {
      MulAtLeast(q' - q, c);
      MulDifference(q', q, c);
    }
  }

  lemma StepByDivisor(x: int, c: int)
    requires c >= 1
    ensures (x + c) / c == x / c + 1
  {
    var q, r := x / c, x % c;
    assert x + c == (q + 1) * c + r;
    DivUnique(x + c, c, q + 1, r);
  }

  /** Hermite's identity: the c floors (n + k) / c for k = 0..c-1 add up to n. */
  lemma {:induction false} Hermite(n: int, c: int)
    requires c >= 1
    ensures FloorSum(n, c, c) == n
    decreases if n >= 0 then n else -n
  {
    if n == 0 {
      FloorSumSmall(c, 0, c);
    } else if n > 0 {
      Hermite(n - 1, c);
      FloorSumShift(n - 1, c, c);
      StepByDivisor(n - 1, c);
    } else {
      Hermite(n + 1, c);
      FloorSumShift(n, c, c);
      StepByDivisor(n, c);
    }
  }

  // ---------------------------------------------------------------------
  // TSystem._reduce_gen_one_step

  /** A generator index T^(a)_m(u). */
  datatype TIndex = TIndex(a: int, m: int, u: real)

  /** The symmetrised Cartan diagonal: a positive integer for each index,
      defined at `a` and at its neighbours. */
  predicate DiagonalCovers(d: map<int, int>, a: int, nbrs: seq<int>)
  {
    a in d && d[a] >= 1 && forall b :: b in nbrs ==> b in d && d[b] >= 1
  }

  /** The generators contributed by neighbour b when d_a = 1, for k = 1..count:
      T^(b)_{1 + (m-1-k) // d_b}(u + (2k - m + ((m-1-k) // d_b) d_b) / t). */
  function PerK(d: map<int, int>, t: int, b: int, m: int, u: real, count: nat): seq<TIndex>
    requires b in d && d[b] >= 1 && t >= 1
  {
    if count == 0 then []
    else
      var k := count;
      var q := (m - 1 - k) / d[b];
      PerK(d, t, b, m, u, count - 1) + [TIndex(b, 1 + q, u + (2 * k - m + q * d[b]) as real / t as real)]
  }

  /** The neighbour part of one reduction step, neighbour by neighbour. */
  function NeighbourStep(d: map<int, int>, t: int, da: int, nbrs: seq<int>, m: int, u: real): seq<TIndex>
    requires t >= 1 && forall b :: b in nbrs ==> b in d && d[b] >= 1
    decreases |nbrs|
  {
    if |nbrs| == 0 then []
    else
      var b := nbrs[|nbrs| - 1];
      NeighbourStep(d, t, da, nbrs[..|nbrs| - 1], m, u) +
      (if da > 1 then [TIndex(b, da * (m - 1) / d[b], u)] else PerK(d, t, b, m, u, d[b]))
  }

  /** `_reduce_gen_one_step(a, m, u)`: nothing for m = 1; otherwise the pair
      T^(a)_{m-1}(u -+ d_a / t) and the product over the neighbours. */
  function ReduceGenOneStep(d: map<int, int>, t: int, nbrs: seq<int>, a: int, m: int, u: real): (r: seq<seq<TIndex>>)
    requires DiagonalCovers(d, a, nbrs) && t >= 1
    ensures m == 1 <==> r == []
    ensures m != 1 ==> |r| == 2 && |r[0]| == 2
    ensures m != 1 ==> forall e :: e in r[0] ==> e.a == a && e.m == m - 1
    ensures m != 1 ==> r[0][0].u + r[0][1].u == 2.0 * u && r[0][0].u < u < r[0][1].u
  {
    if m == 1 then []
    else
      var plus := [TIndex(a, m - 1, u - d[a] as real / t as real), TIndex(a, m - 1, u + d[a] as real / t as real)];
      [plus, NeighbourStep(d, t, d[a], nbrs, m, u)]
  }

  function ConstantDiagonal(d: map<int, int>): bool
  {
    forall b :: b in d ==> d[b] == 1
  }

  /** For a simply-laced diagram (d = 1 everywhere, t = 1) one step is the
      T-system relation T_m(u) T_{m-2}(u) = T_{m-1}(u-1) T_{m-1}(u+1) -
      prod over neighbours b of T^(b)_{m-1}(u). */
  lemma {:induction false} ReduceStepSimplyLaced(d: map<int, int>, nbrs: seq<int>, a: int, m: int, u: real)
    requires DiagonalCovers(d, a, nbrs) && ConstantDiagonal(d) && m != 1
    ensures ReduceGenOneStep(d, 1, nbrs, a, m, u) ==
            [[TIndex(a, m - 1, u - 1.0), TIndex(a, m - 1, u + 1.0)], seq(|nbrs|, i requires 0 <= i < |nbrs| => TIndex(nbrs[i], m - 1, u))]
  {
    NeighbourStepSimplyLaced(d, nbrs, m, u);
  }

  lemma {:induction false} NeighbourStepSimplyLaced(d: map<int, int>, nbrs: seq<int>, m: int, u: real)
    requires (forall b :: b in nbrs ==> b in d && d[b] >= 1) && ConstantDiagonal(d)
    ensures NeighbourStep(d, 1, 1, nbrs, m, u) == seq(|nbrs|, i requires 0 <= i < |nbrs| => TIndex(nbrs[i], m - 1, u))
    decreases |nbrs|
  {
    if |nbrs| > 0 {
      var b := nbrs[|nbrs| - 1];
      NeighbourStepSimplyLaced(d, nbrs[..|nbrs| - 1], m, u);
      assert PerK(d, 1, b, m, u, 1) == [TIndex(b, m - 1, u)];
    }
  }

  function TLevelSum(s: seq<TIndex>): int
  {
    if |s| == 0 then 0 else TLevelSum(s[..|s| - 1]) + s[|s| - 1].m
  }

  lemma {:induction false} PerKLevels(d: map<int, int>, t: int, b: int, m: int, u: real, count: nat)
    requires b in d && d[b] >= 1 && t >= 1
    ensures TLevelSum(PerK(d, t, b, m, u, count)) == count + FloorSum(m - 1 - count, d[b], count)
    decreases count
  {
    if count > 0 {
      var s := PerK(d, t, b, m, u, count);
      assert s[..|s| - 1] == PerK(d, t, b, m, u, count - 1);
      PerKLevels(d, t, b, m, u, count - 1);
    }
  }

  /** When d_a = 1 the d_b generators contributed by neighbour b have levels
      adding up to m - 1, the level of the pair. */
  lemma PerKLevelSum(d: map<int, int>, t: int, b: int, m: int, u: real)
    requires b in d && d[b] >= 1 && t >= 1
    ensures TLevelSum(PerK(d, t, b, m, u, d[b])) == m - 1
  {
    PerKLevels(d, t, b, m, u, d[b]);
    Hermite(m - 1 - d[b], d[b]);
  }

  // ---------------------------------------------------------------------
  // QSystem.Fundamental: gen and the index rule of _Q_poly

  /** A generator index Q^(a)_m. */
  datatype QIndex = QIndex(a: int, m: int)

  /** An element of a Q-system as far as the generator code produces it: the
      unit, a basis monomial Q^(a)_m, or the polynomial in the Q^(b)_1 that
      `_Q_poly(a, m)` builds. */
  datatype QValue = QOne | QMonomial(a: int, m: int) | QPolynomial(a: int, m: int)

  /** `Fundamental.gen(a, m)`: the unit at level 0 and at the restriction
      level, the generator for m = 1 (whatever a is), an AssertionError for an
      index outside the index set, and the polynomial otherwise. */
  function FundamentalGen(c: CartanData, a: int, m: int): (r: Result<QValue>)
    ensures r == Ok(QOne) <==> m == 0 || c.level == Some(m)
    ensures r == Ok(QMonomial(a, 1)) <==> m != 0 && c.level != Some(m) && m == 1
    ensures r.Err? <==> m != 0 && c.level != Some(m) && m != 1 && !InIndexSet(c, a)
    ensures r.Err? ==> r.exc == AssertionError
    ensures r.Ok? && r.value.QPolynomial? ==> InIndexSet(c, a) && m != 1 && r.value == QPolynomial(a, m)
  {
    if m == 0 || c.level == Some(m) then Ok(QOne)
    else if m == 1 then Ok(QMonomial(a, 1))
    else if !InIndexSet(c, a) then Err(AssertionError)
    else Ok(QPolynomial(a, m))
  }

  /** A neighbour b of a with the Cartan entries C_ab (`cm[i,j]`) and C_ba
      (`cm[j,i]`). */
  datatype QNeighbour = QNeighbour(b: int, cab: int, cba: int)

  /** The factors Q^(b)_{(m C_ba - k) // C_ab} for k = 0..count-1. */
  function NeighbourFactors(n: QNeighbour, m: int, count: nat): seq<QIndex>
    requires n.cab < 0
  {
    if count == 0 then []
    else NeighbourFactors(n, m, count - 1) + [QIndex(n.b, PyFloorDiv(m * n.cba - (count - 1), n.cab))]
  }

  /** The factors one neighbour contributes: `range(-C_ab)` is empty unless
      C_ab < 0. */
  function FactorsOf(n: QNeighbour, m: int): seq<QIndex>
  {
    if n.cab < 0 then NeighbourFactors(n, m, -n.cab) else []
  }

  /** Every factor of the product in `_Q_poly`, neighbour by neighbour. */
  function QFactors(nbrs: seq<QNeighbour>, m: int): seq<QIndex>
    decreases |nbrs|
  {
    if |nbrs| == 0 then [] else QFactors(nbrs[..|nbrs| - 1], m) + FactorsOf(nbrs[|nbrs| - 1], m)
  }

  /** The loop of `_Q_poly` that multiplies `ret` by one factor per neighbour
      and per k; `m` is the already decremented level. */
  method QPolyFactors(nbrs: seq<QNeighbour>, m: int) returns (ret: seq<QIndex>)
    ensures ret == QFactors(nbrs, m)
  {
    ret := [];
    var p := 0;
    while p < |nbrs|
      invariant 0 <= p <= |nbrs|
      invariant ret == QFactors(nbrs[..p], m)
    {
      var n := nbrs[p];
      ghost var before := ret;
      var k := 0;
      while k < -n.cab
        invariant 0 <= k && (n.cab < 0 ==> k <= -n.cab)
        invariant n.cab >= 0 ==> ret == before
        invariant n.cab < 0 ==> ret == before + NeighbourFactors(n, m, k)
      {
        ret := ret + [QIndex(n.b, PyFloorDiv(m * n.cba - k, n.cab))];
        k := k + 1;
      }
      assert ret == before + FactorsOf(n, m);
      assert nbrs[..p + 1][..p] == nbrs[..p];
      p := p + 1;
    }
    assert nbrs[..|nbrs|] == nbrs;
  }

  /** The shape of `_Q_poly(a, m)`: the unit, the generator q_a, or
      (Q^(a)_{m-1}^2 - product of the factors) divided by Q^(a)_{m-2}, where
      the division happens only when m - 1 > 1. */
  datatype QPolyShape =
    | PolyOne
    | PolyGenerator(a: int)
    | PolyRecurrence(square: QIndex, factors: seq<QIndex>, divisor: Option<QIndex>)

  function QPoly(c: CartanData, nbrs: seq<QNeighbour>, a: int, m: int): (r: QPolyShape)
    ensures r.PolyRecurrence? <==> m != 0 && c.level != Some(m) && m != 1
    ensures r.PolyRecurrence? ==> r.square == QIndex(a, m - 1) && (r.divisor.Some? <==> m > 2)
    ensures r.PolyRecurrence? && m > 2 ==> r.divisor == Some(QIndex(a, m - 2))
  {
    if m == 0 || c.level == Some(m) then PolyOne
    else if m == 1 then PolyGenerator(a)
    else
      var m' := m - 1;
      PolyRecurrence(QIndex(a, m'), QFactors(nbrs, m'), if m' > 1 then Some(QIndex(a, m' - 1)) else None)
  }

  function QLevelSum(s: seq<QIndex>): int
  {
    if |s| == 0 then 0 else QLevelSum(s[..|s| - 1]) + s[|s| - 1].m
  }

  lemma {:induction false} NeighbourFactorLevels(n: QNeighbour, m: int, count: nat)
    requires n.cab < 0
    ensures QLevelSum(NeighbourFactors(n, m, count)) == FloorSum(-(m * n.cba), -n.cab, count)
    decreases count
  {
    if count > 0 {
      var s := NeighbourFactors(n, m, count);
      assert s[..|s| - 1] == NeighbourFactors(n, m, count - 1);
      NeighbourFactorLevels(n, m, count - 1);
      FloorSumLast(-(m * n.cba), -n.cab, count);
    }
  }

  /** The -C_ab factors a neighbour contributes to the recurrence have levels
      adding up to m |C_ba| (Hermite's identity). */
  lemma FactorLevelSum(n: QNeighbour, m: int)
    requires n.cab < 0
    ensures QLevelSum(FactorsOf(n, m)) == -(m * n.cba)
  {
    NeighbourFactorLevels(n, m, -n.cab);
    Hermite(-(m * n.cba), -n.cab);
  }

  /** For simply-laced neighbours (C_ab = C_ba = -1) the recurrence is the
      Q-system relation Q_m Q_{m-2} = Q_{m-1}^2 - prod over b of Q^(b)_{m-1}. */
  lemma {:induction false} QFactorsSimplyLaced(nbrs: seq<QNeighbour>, m: int)
    requires forall n :: n in nbrs ==> n.cab == -1 && n.cba == -1
    ensures QFactors(nbrs, m) == seq(|nbrs|, i requires 0 <= i < |nbrs| => QIndex(nbrs[i].b, m))
    decreases |nbrs|
  {
    if |nbrs| > 0 {
      var n := nbrs[|nbrs| - 1];
      QFactorsSimplyLaced(nbrs[..|nbrs| - 1], m);
      assert m * n.cba - 0 == -m;
      assert PyFloorDiv(-m, -1) == m;
      assert NeighbourFactors(n, m, 0) == [];
      assert NeighbourFactors(n, m, 1) == [QIndex(n.b, PyFloorDiv(m * n.cba - 0, n.cab))];
      assert FactorsOf(n, m) == NeighbourFactors(n, m, 1);
    }
  }

  // ---------------------------------------------------------------------
  // QSystem.SquareFree: gen and _reduce_square_free

  /** `SquareFree.gen(a, m)`: the unit at level 0 and at the restriction
      level, otherwise an AssertionError outside the index set and the basis
      monomial Q^(a)_m inside it. */
  function SquareFreeGen(c: CartanData, a: int, m: int): (r: Result<QValue>)
    ensures r == Ok(QOne) <==> m == 0 || c.level == Some(m)
    ensures r.Err? <==> m != 0 && c.level != Some(m) && !InIndexSet(c, a)
    ensures r.Err? ==> r.exc == AssertionError
    ensures r.Ok? && r != Ok(QOne) ==> r.value == QMonomial(a, m)
  {
    if m == 0 || c.level == Some(m) then Ok(QOne)
    else if !InIndexSet(c, a) then Err(AssertionError)
    else Ok(QMonomial(a, m))
  }

  /** The relation (Q^(a)_m)^2 = Q^(a)_{m-1} Q^(a)_{m+1} + product of
      `product`, as its indices. */
  datatype SquareRelation = SquareRelation(lower: QIndex, upper: QIndex, product: seq<QIndex>)

  /** The factors neighbour b contributes when d_a = 1: Q^(b)_{1 + (m-k) // d_b}
      for k = 1..count. */
  function SquarePerK(d: map<int, int>, b: int, m: int, count: nat): seq<QIndex>
    requires b in d && d[b] >= 1
  {
    if count == 0 then [] else SquarePerK(d, b, m, count - 1) + [QIndex(b, 1 + (m - count) / d[b])]
  }

  function SquareNeighbours(d: map<int, int>, da: int, nbrs: seq<int>, m: int): seq<QIndex>
    requires forall b :: b in nbrs ==> b in d && d[b] >= 1
    decreases |nbrs|
  {
    if |nbrs| == 0 then []
    else
      var b := nbrs[|nbrs| - 1];
      SquareNeighbours(d, da, nbrs[..|nbrs| - 1], m) +
      (if da > 1 then [QIndex(b, da * m / d[b])] else SquarePerK(d, b, m, d[b]))
  }

  /** `_reduce_square_free(a, m)`. */
  function ReduceSquareFree(d: map<int, int>, nbrs: seq<int>, a: int, m: int): (r: SquareRelation)
    requires DiagonalCovers(d, a, nbrs)
    ensures r.lower == QIndex(a, m - 1) && r.upper == QIndex(a, m + 1)
  {
    SquareRelation(QIndex(a, m - 1), QIndex(a, m + 1), SquareNeighbours(d, d[a], nbrs, m))
  }

  lemma {:induction false} SquarePerKLevels(d: map<int, int>, b: int, m: int, count: nat)
    requires b in d && d[b] >= 1
    ensures QLevelSum(SquarePerK(d, b, m, count)) == count + FloorSum(m - count, d[b], count)
    decreases count
  {
    if count > 0 {
      var s := SquarePerK(d, b, m, count);
      assert s[..|s| - 1] == SquarePerK(d, b, m, count - 1);
      SquarePerKLevels(d, b, m, count - 1);
    }
  }

  /** When d_a = 1 the d_b factors neighbour b contributes to the square
      relation have levels adding up to m. */
  lemma SquarePerKLevelSum(d: map<int, int>, b: int, m: int)
    requires b in d && d[b] >= 1
    ensures QLevelSum(SquarePerK(d, b, m, d[b])) == m
  {
    SquarePerKLevels(d, b, m, d[b]);
    Hermite(m - d[b], d[b]);
  }

  /** In a simply-laced diagram the square relation and the recurrence of the
      fundamental basis one level up use the same neighbour factors. */
  lemma SquareFreeAgreesWithRecurrence(c: CartanData, d: map<int, int>, nbrs: seq<int>, qn: seq<QNeighbour>, a: int, m: int)
    requires DiagonalCovers(d, a, nbrs) && ConstantDiagonal(d) && c.level == None && m >= 1
    requires |qn| == |nbrs| && forall i :: 0 <= i < |qn| ==> qn[i] == QNeighbour(nbrs[i], -1, -1)
    ensures ReduceSquareFree(d, nbrs, a, m).product == QFactors(qn, m)
    ensures QPoly(c, qn, a, m + 1) ==
            PolyRecurrence(QIndex(a, m), ReduceSquareFree(d, nbrs, a, m).product, if m > 1 then Some(QIndex(a, m - 1)) else None)
  {
    SquareNeighboursSimplyLaced(d, nbrs, m);
    QFactorsSimplyLaced(qn, m);
  }

  lemma {:induction false} SquareNeighboursSimplyLaced(d: map<int, int>, nbrs: seq<int>, m: int)
    requires (forall b :: b in nbrs ==> b in d && d[b] >= 1) && ConstantDiagonal(d)
    ensures SquareNeighbours(d, 1, nbrs, m) == seq(|nbrs|, i requires 0 <= i < |nbrs| => QIndex(nbrs[i], m))
    decreases |nbrs|
  {
    if |nbrs| > 0 {
      var b := nbrs[|nbrs| - 1];
      SquareNeighboursSimplyLaced(d, nbrs[..|nbrs| - 1], m);
      assert SquarePerK(d, b, m, 1) == [QIndex(b, m)];
    }
  }

  // ---------------------------------------------------------------------
  // SquareFree.Element._mul_

  /** A monomial of the square-free basis as its sorted items: the indices
      with their exponents. */
  type Monomial = seq<(QIndex, nat)>

  predicate IndexLess(x: QIndex, y: QIndex)
  {
    x.a < y.a || (x.a == y.a && x.m < y.m)
  }

  /** The product of two monomials: the sorted items merged, exponents of a
      common index added. */
  function MonoMul(x: Monomial, y: Monomial): Monomial
    decreases |x| + |y|
  {
    if |x| == 0 then y
    else if |y| == 0 then x
    else if IndexLess(x[0].0, y[0].0) then [x[0]] + MonoMul(x[1..], y)
    else if IndexLess(y[0].0, x[0].0) then [y[0]] + MonoMul(x, y[1..])
    else [(x[0].0, x[0].1 + y[0].1)] + MonoMul(x[1..], y[1..])
  }

  /** The exponent of index g in a monomial. */
  function Exp(x: Monomial, g: QIndex): nat
  {
    if |x| == 0 then 0 else (if x[0].0 == g then x[0].1 else 0) + Exp(x[1..], g)
  }

  /** Multiplying monomials adds exponents, index by index. */
  lemma {:induction false} MonoMulExp(x: Monomial, y: Monomial, g: QIndex)
    ensures Exp(MonoMul(x, y), g) == Exp(x, g) + Exp(y, g)
    decreases |x| + |y|
  {
    if |x| == 0 || |y| == 0 {
    } else if IndexLess(x[0].0, y[0].0) {
      MonoMulExp(x[1..], y, g);
    } else if IndexLess(y[0].0, x[0].0) {
      MonoMulExp(x, y[1..], g);
    } else {
      MonoMulExp(x[1..], y[1..], g);
      assert x[0].0 == y[0].0;
    }
  }

  predicate SquareFreeMonomial(x: Monomial)
  {
    forall i :: 0 <= i < |x| ==> x[i].1 <= 1
  }

  /** The product of two square-free monomials has no exponent above 2. */
  lemma {:induction false} MonoMulAtMostSquare(x: Monomial, y: Monomial)
    requires SquareFreeMonomial(x) && SquareFreeMonomial(y)
    ensures forall i :: 0 <= i < |MonoMul(x, y)| ==> MonoMul(x, y)[i].1 <= 2
    decreases |x| + |y|
  {
    if |x| == 0 || |y| == 0 {
    } else if IndexLess(x[0].0, y[0].0) {
      MonoMulAtMostSquare(x[1..], y);
    } else if IndexLess(y[0].0, x[0].0) {
      MonoMulAtMostSquare(x, y[1..]);
    } else {
      MonoMulAtMostSquare(x[1..], y[1..]);
    }
  }

  /** A term of an element: a monomial and its coefficient. */
  datatype Term = Term(mono: Monomial, coef: real)

  /** An element as the terms of its coefficient dictionary, in dictionary
      order. */
  type Element = seq<Term>

  /** Distinct monomials with non-zero coefficients. */
  predicate ValidElement(e: Element)
  {
    (forall i :: 0 <= i < |e| ==> e[i].coef != 0.0) &&
    (forall i, j :: 0 <= i < j < |e| ==> e[i].mono != e[j].mono)
  }

  /** The coefficient of a monomial: the sum of the coefficients of the terms
      carrying it. */
  function Coef(e: Element, x: Monomial): real
  {
    if |e| == 0 then 0.0 else (if e[0].mono == x then e[0].coef else 0.0) + Coef(e[1..], x)
  }

  lemma {:induction false} CoefAppend(e: Element, f: Element, x: Monomial)
    ensures Coef(e + f, x) == Coef(e, x) + Coef(f, x)
    decreases |e|
  {
    if |e| == 0 {
      assert e + f == f;
    } else {
      assert (e + f)[1..] == e[1..] + f;
      CoefAppend(e[1..], f, x);
    }
  }

  function IndexOf(e: Element, x: Monomial): (r: Option<nat>)
    ensures r.Some? ==> r.value < |e| && e[r.value].mono == x
    ensures r.None? ==> forall i :: 0 <= i < |e| ==> e[i].mono != x
  {
    if |e| == 0 then None
    else if e[|e| - 1].mono == x then Some(|e| - 1)
    else IndexOf(e[..|e| - 1], x)
  }

  /** Adding one term to a coefficient dictionary: an existing coefficient is
      updated in place and the entry deleted if it becomes zero; a new
      monomial is appended. */
  function AddTerm(e: Element, x: Monomial, c: real): Element
  {
    match IndexOf(e, x)
    case Some(i) =>
      var s := e[i].coef + c;
      if s == 0.0 then e[..i] + e[i + 1..] else e[..i] + [Term(x, s)] + e[i + 1..]
    case None =>
      if c == 0.0 then e else e + [Term(x, c)]
  }

  function TermCoef(t: Term, y: Monomial): real
  {
    if t.mono == y then t.coef else 0.0
  }

  lemma Split(e: Element, i: nat, y: Monomial)
    requires i < |e|
    ensures Coef(e, y) == Coef(e[..i], y) + TermCoef(e[i], y) + Coef(e[i + 1..], y)
  {
    assert e == e[..i] + ([e[i]] + e[i + 1..]);
    CoefAppend(e[..i], [e[i]] + e[i + 1..], y);
    CoefAppend([e[i]], e[i + 1..], y);
  }

  lemma CoefRemove(e: Element, i: nat, y: Monomial)
    requires i < |e|
    ensures Coef(e[..i] + e[i + 1..], y) == Coef(e, y) - TermCoef(e[i], y)
  {
    Split(e, i, y);
    CoefAppend(e[..i], e[i + 1..], y);
  }

  lemma CoefReplace(e: Element, i: nat, t: Term, y: Monomial)
    requires i < |e|
    ensures Coef(e[..i] + [t] + e[i + 1..], y) == Coef(e, y) - TermCoef(e[i], y) + TermCoef(t, y)
  {
    var r := e[..i] + [t] + e[i + 1..];
    assert r[..i] == e[..i] && r[i] == t && r[i + 1..] == e[i + 1..];
    Split(e, i, y);
    Split(r, i, y);
  }

  /** Adding a term adds its coefficient to its own monomial only. */
  lemma AddTermCoef(e: Element, x: Monomial, c: real, y: Monomial)
    ensures Coef(AddTerm(e, x, c), y) == Coef(e, y) + (if x == y then c else 0.0)
  {
    match IndexOf(e, x)
    case Some(i) =>
      if e[i].coef + c == 0.0 {
        CoefRemove(e, i, y);
      } else {
        CoefReplace(e, i, Term(x, e[i].coef + c), y);
      }
    case None =>
      CoefAppend(e, [Term(x, c)], y);
  }

  lemma RemoveValid(e: Element, i: nat)
    requires ValidElement(e) && i < |e|
    ensures ValidElement(e[..i] + e[i + 1..])
    ensures forall t :: t in e[..i] + e[i + 1..] ==> t in e
  {
    var r := e[..i] + e[i + 1..];
    assert forall p :: 0 <= p < |r| ==> r[p] == e[if p < i then p else p + 1];
  }

  lemma ReplaceValid(e: Element, i: nat, t: Term)
    requires ValidElement(e) && i < |e| && t.mono == e[i].mono && t.coef != 0.0
    ensures ValidElement(e[..i] + [t] + e[i + 1..])
    ensures forall p :: p in e[..i] + [t] + e[i + 1..] ==> p in e || p == t
  {
    var r := e[..i] + [t] + e[i + 1..];
    assert forall p :: 0 <= p < |r| ==> r[p] == if p == i then t else e[p];
  }

  lemma AddTermValid(e: Element, x: Monomial, c: real)
    requires ValidElement(e)
    ensures ValidElement(AddTerm(e, x, c))
    ensures forall t :: t in AddTerm(e, x, c) ==> t in e || t.mono == x
  {
    match IndexOf(e, x)
    case Some(i) =>
      if e[i].coef + c == 0.0 {
        RemoveValid(e, i);
      } else {
        ReplaceValid(e, i, Term(x, e[i].coef + c));
      }
    case None =>
  }

  /** Dictionary addition: the terms of f added one by one into e. */
  function AddElement(e: Element, f: Element): Element
    decreases |f|
  {
    if |f| == 0 then e else AddElement(AddTerm(e, f[0].mono, f[0].coef), f[1..])
  }

  /** Addition adds coefficients monomial by monomial. */
  lemma {:induction false} AddElementCoef(e: Element, f: Element, y: Monomial)
    ensures Coef(AddElement(e, f), y) == Coef(e, y) + Coef(f, y)
    decreases |f|
  {
    if |f| > 0 {
      AddTermCoef(e, f[0].mono, f[0].coef, y);
      AddElementCoef(AddTerm(e, f[0].mono, f[0].coef), f[1..], y);
    }
  }

  /** Addition keeps distinct monomials and non-zero coefficients, and every
      monomial of the sum comes from one of the summands. */
  lemma {:induction false} AddElementValid(e: Element, f: Element)
    requires ValidElement(e)
    ensures ValidElement(AddElement(e, f))
    ensures forall t :: t in AddElement(e, f) ==>
              (exists p :: p in e && p.mono == t.mono) || (exists p :: p in f && p.mono == t.mono)
    decreases |f|
  {
    if |f| > 0 {
      var e' := AddTerm(e, f[0].mono, f[0].coef);
      AddTermValid(e, f[0].mono, f[0].coef);
      AddElementValid(e', f[1..]);
      forall t | t in AddElement(e, f)
        ensures (exists p :: p in e && p.mono == t.mono) || (exists p :: p in f && p.mono == t.mono)
      {
        if exists p :: p in e' && p.mono == t.mono {
          var p :| p in e' && p.mono == t.mono;
          if p !in e {
            assert f[0] in f;
          }
        } else {
          var p :| p in f[1..] && p.mono == t.mono;
          assert p in f;
        }
      }
    }
  }

  /** `c * e` for a non-zero scalar c. */
  function Scale(c: real, e: Element): Element
  {
    if |e| == 0 then [] else [Term(e[0].mono, c * e[0].coef)] + Scale(c, e[1..])
  }

  lemma {:induction false} ScaleCoef(c: real, e: Element, y: Monomial)
    ensures Coef(Scale(c, e), y) == c * Coef(e, y)
    decreases |e|
  {
    if |e| > 0 {
      ScaleCoef(c, e[1..], y);
      assert Scale(c, e)[1..] == Scale(c, e[1..]);
    }
  }

  /** The terms (tl tr, cl cr) for tl, cl in x for tr, cr in y, in that order. */
  function ProductTerms(x: Element, y: Element): Element
    decreases |x|
  {
    if |x| == 0 then []
    else seq(|y|, j requires 0 <= j < |y| => Term(MonoMul(x[0].mono, y[j].mono), x[0].coef * y[j].coef)) + ProductTerms(x[1..], y)
  }

  /** `sum_of_terms`: the terms added one by one into the zero element. */
  function SumOfTerms(ts: Element): Element
  {
    AddElement([], ts)
  }

  /** An element is square-free when every monomial is. */
  predicate SquareFreeElement(e: Element)
  {
    forall i :: 0 <= i < |e| ==> SquareFreeMonomial(e[i].mono)
  }

  /** The position of the first term whose monomial is not square-free. */
  function FirstSquare(e: Element): (r: Option<nat>)
    ensures r.Some? ==> r.value < |e|
  {
    if |e| == 0 then None
    else match FirstSquare(e[..|e| - 1])
      case Some(i) => Some(i)
      case None => if SquareFreeMonomial(e[|e| - 1].mono) then None else Some(|e| - 1)
  }

  /** FirstSquare finds the least position of a monomial with a square, and
      nothing exactly when the element is square-free. */
  lemma {:induction false} FirstSquareSpec(e: Element)
    ensures FirstSquare(e).None? <==> SquareFreeElement(e)
    ensures FirstSquare(e).Some? ==>
              FirstSquare(e).value < |e| && !SquareFreeMonomial(e[FirstSquare(e).value].mono) &&
              forall j :: 0 <= j < FirstSquare(e).value ==> SquareFreeMonomial(e[j].mono)
    decreases |e|
  {
    if |e| > 0 {
      var e' := e[..|e| - 1];
      FirstSquareSpec(e');
      assert forall j :: 0 <= j < |e'| ==> e'[j] == e[j];
    }
  }

  lemma FirstSquareAt(e: Element, i: nat)
    requires i < |e| && !SquareFreeMonomial(e[i].mono)
    requires forall j :: 0 <= j < i ==> SquareFreeMonomial(e[j].mono)
    ensures FirstSquare(e) == Some(i)
  {
    FirstSquareSpec(e);
  }

  /** A factor of the rewritten term: the generator Q^(a)_m itself, or the
      square (Q^(a)_m)^2 rewritten by `_reduce_square_free(a, m)`. */
  datatype Factor = Keep(g: QIndex) | Reduce(g: QIndex)

  function FactorOf(item: (QIndex, nat)): Factor
  {
    if item.1 > 1 then Reduce(item.0) else Keep(item.0)
  }

  /** The list `ret` one pass builds from a monomial's sorted items, or the
      AssertionError "larger than square" of an exponent above 2. */
  function PassFactors(x: Monomial): Result<seq<Factor>>
  {
    if |x| == 0 then Ok([])
    else if x[0].1 > 2 then Err(AssertionError)
    else match PassFactors(x[1..])
      case Err(e) => Err(e)
      case Ok(rest) => Ok([FactorOf(x[0])] + rest)
  }

  /** A pass raises exactly when some exponent exceeds 2; otherwise `ret` has
      one factor per item, the rewritten square for an exponent 2. */
  lemma {:induction false} PassFactorsSpec(x: Monomial)
    ensures PassFactors(x).Err? <==> exists i :: 0 <= i < |x| && x[i].1 > 2
    ensures PassFactors(x).Err? ==> PassFactors(x).exc == AssertionError
    ensures PassFactors(x).Ok? ==> PassFactors(x).value == seq(|x|, i requires 0 <= i < |x| => FactorOf(x[i]))
    decreases |x|
  {
    if |x| > 0 {
      PassFactorsSpec(x[1..]);
      if x[0].1 <= 2 && PassFactors(x[1..]).Ok? {
        assert forall i :: 1 <= i < |x| ==> x[1..][i - 1] == x[i];
      }
      if exists i :: 0 <= i < |x| && x[i].1 > 2 {
        var i :| 0 <= i < |x| && x[i].1 > 2;
        if i > 0 {
          assert x[1..][i - 1] == x[i];
        }
      }
    }
  }

  /** What the multiplication loop ends with: a square-free element, the
      exception of a pass, or (when the bound on passes runs out) the
      element reached so far. */
  datatype MulOutcome = Done(value: Element) | Raised(exc: Exception) | OutOfPasses(value: Element)

  /** One pass on the term t = (x, c): `cur += c * P.prod(ret) - {x: c}`,
      where `expanded` is the product of the factors. */
  function Rewrite(cur: Element, t: Term, expanded: Element): Element
  {
    AddElement(cur, AddTerm(Scale(t.coef, expanded), t.mono, -t.coef))
  }

  /** The while loop of `_mul_`, allowed `passes` rewriting passes after the
      first. `product` stands for `P.prod`, the product of the factors in the
      algebra. */
  function MulLoop(cur: Element, product: seq<Factor> -> Element, passes: nat): MulOutcome
    decreases passes
  {
    match FirstSquare(cur)
    case None => Done(cur)
    case Some(i) =>
      match PassFactors(cur[i].mono)
      case Err(e) => Raised(e)
      case Ok(fs) =>
        var next := Rewrite(cur, cur[i], product(fs));
        if passes == 0 then OutOfPasses(next) else MulLoop(next, product, passes - 1)
  }

  lemma MulLoopRewrites(cur: Element, product: seq<Factor> -> Element, passes: nat, i: nat, fs: seq<Factor>)
    requires FirstSquare(cur) == Some(i) && PassFactors(cur[i].mono) == Ok(fs)
    ensures MulLoop(cur, product, passes) ==
            if passes == 0 then OutOfPasses(Rewrite(cur, cur[i], product(fs)))
            else MulLoop(Rewrite(cur, cur[i], product(fs)), product, passes - 1)
  {
  }

  /** The inner loop of one pass over the sorted items of a monomial: builds
      `ret`, notes whether a square was seen, and stops at an exponent above 2. */
  method PassOver(mono: Monomial) returns (ret: Result<seq<Factor>>, isSquareFree: bool)
    ensures ret == PassFactors(mono)
    ensures isSquareFree <==> SquareFreeMonomial(mono)
  {
    PassFactorsSpec(mono);
    var fs: seq<Factor> := [];
    isSquareFree := true;
    var p := 0;
    while p < |mono|
      invariant 0 <= p <= |mono|
      invariant forall q :: 0 <= q < p ==> mono[q].1 <= 2
      invariant isSquareFree <==> forall q :: 0 <= q < p ==> mono[q].1 <= 1
      invariant fs == seq(p, q requires 0 <= q < p => FactorOf(mono[q]))
    {
      var g, exp := mono[p].0, mono[p].1;
      if exp > 1 {
        if exp != 2 {
          return Err(AssertionError), false;
        }
        fs := fs + [Reduce(g)];
        isSquareFree := false;
      } else {
        fs := fs + [Keep(g)];
      }
      p := p + 1;
    }
    ret := Ok(fs);
  }

  /** The `for m, c in cur` loop of one pass: finds the first term with a
      square and the factors `ret` built for it. */
  method FirstSquareTerm(cur: Element) returns (found: bool, i: nat, ret: Result<seq<Factor>>)
    ensures found <==> FirstSquare(cur).Some?
    ensures found ==> FirstSquare(cur) == Some(i) && ret == PassFactors(cur[i].mono)
  {
    i := 0;
    while i < |cur|
      invariant 0 <= i <= |cur|
      invariant forall j :: 0 <= j < i ==> SquareFreeMonomial(cur[j].mono)
    {
      var squareFree;
      ret, squareFree := PassOver(cur[i].mono);
      if !squareFree {
        FirstSquareAt(cur, i);
        return true, i, ret;
      }
      i := i + 1;
    }
    FirstSquareSpec(cur);
    return false, 0, Ok([]);
  }

  /** `SquareFree.Element._mul_(x, y)`: the product of the terms, then passes
      rewriting the first term with a square until none is left. */
  method SquareFreeMul(x: Element, y: Element, product: seq<Factor> -> Element, passes: nat) returns (r: MulOutcome)
    ensures r == MulLoop(SumOfTerms(ProductTerms(x, y)), product, passes)
  {
    var cur := SumOfTerms(ProductTerms(x, y));
    ghost var target := MulLoop(cur, product, passes);
    var left := passes;
    var isSquareFree := false;
    while !isSquareFree
      invariant MulLoop(cur, product, left) == target
      invariant isSquareFree ==> FirstSquare(cur).None?
      decreases left, if isSquareFree then 0 else 1
    {
      var found, i, ret := FirstSquareTerm(cur);
      isSquareFree := !found;
      if found {
        if ret.Err? {
          return Raised(ret.exc);
        }
        MulLoopRewrites(cur, product, left, i, ret.value);
        var next := Rewrite(cur, cur[i], product(ret.value));
        if left == 0 {
          return OutOfPasses(next);
        }
        cur := next;
        left := left - 1;
      }
    }
    return Done(cur);
  }

  /** A finished product is square-free. */
  lemma {:induction false} MulLoopSquareFree(cur: Element, product: seq<Factor> -> Element, passes: nat)
    ensures MulLoop(cur, product, passes).Done? ==> SquareFreeElement(MulLoop(cur, product, passes).value)
    decreases passes
  {
    FirstSquareSpec(cur);
    match FirstSquare(cur)
    case None =>
    case Some(i) =>
      match PassFactors(cur[i].mono)
      case Err(e) =>
      case Ok(fs) =>
        var next := Rewrite(cur, cur[i], product(fs));
        MulLoopRewrites(cur, product, passes, i, fs);
        if passes > 0 {
          MulLoopSquareFree(next, product, passes - 1);
        }
  }

  /** Every pass keeps the coefficient dictionary valid (distinct monomials,
      non-zero coefficients), so a finished product is valid. */
  lemma MulLoopValid(cur: Element, product: seq<Factor> -> Element, passes: nat)
    requires ValidElement(cur)
    ensures MulLoop(cur, product, passes).Done? ==> ValidElement(MulLoop(cur, product, passes).value)
  {
    forall e: Element, t: Term, expanded: Element | ValidElement(e)
      ensures ValidElement(Rewrite(e, t, expanded))
    {
      RewriteValid(e, t, expanded);
    }
    MulLoopKeeps(cur, product, passes, ValidElement);
  }

  /** Any property of elements that every rewrite keeps holds of a finished
      product whose starting element has it. */
  lemma {:induction false} MulLoopKeeps(cur: Element, product: seq<Factor> -> Element, passes: nat, inv: Element -> bool)
    requires inv(cur)
    requires forall e: Element, t: Term, expanded: Element :: inv(e) ==> inv(Rewrite(e, t, expanded))
    ensures MulLoop(cur, product, passes).Done? ==> inv(MulLoop(cur, product, passes).value)
    decreases passes, 1
  {
    match FirstSquare(cur)
    case None =>
    case Some(i) =>
      match PassFactors(cur[i].mono)
      case Err(e) =>
      case Ok(fs) => MulLoopKeepsPass(cur, product, passes, inv, i, fs);
  }

  /** The case of `MulLoopKeeps` where a pass rewrites term `i`. */
  lemma {:induction false} MulLoopKeepsPass(cur: Element, product: seq<Factor> -> Element, passes: nat, inv: Element -> bool,
                                            i: nat, fs: seq<Factor>)
    requires FirstSquare(cur) == Some(i) && PassFactors(cur[i].mono) == Ok(fs)
    requires inv(cur)
    requires forall e: Element, t: Term, expanded: Element :: inv(e) ==> inv(Rewrite(e, t, expanded))
    ensures MulLoop(cur, product, passes).Done? ==> inv(MulLoop(cur, product, passes).value)
    decreases passes, 0
  {
    MulLoopRewrites(cur, product, passes, i, fs);
    if passes > 0 {
      MulLoopKeeps(Rewrite(cur, cur[i], product(fs)), product, passes - 1, inv);
    }
  }

  lemma RewriteValid(cur: Element, t: Term, expanded: Element)
    requires ValidElement(cur)
    ensures ValidElement(Rewrite(cur, t, expanded))
  {
    AddElementValid(cur, AddTerm(Scale(t.coef, expanded), t.mono, -t.coef));
  }

  /** A square-free element is returned as it is, without a pass. */
  lemma MulLoopSquareFreeInput(cur: Element, product: seq<Factor> -> Element, passes: nat)
    requires SquareFreeElement(cur)
    ensures MulLoop(cur, product, passes) == Done(cur)
  {
    FirstSquareSpec(cur);
  }

  /** The bound on passes only cuts runs short: a run that finishes or raises
      within n passes ends the same way with more. */
  lemma {:induction false} MulLoopMorePasses(cur: Element, product: seq<Factor> -> Element, passes: nat, more: nat)
    requires !MulLoop(cur, product, passes).OutOfPasses?
    requires passes <= more
    ensures MulLoop(cur, product, more) == MulLoop(cur, product, passes)
    decreases passes
  {
    match FirstSquare(cur)
    case None =>
    case Some(i) =>
      match PassFactors(cur[i].mono)
      case Err(e) =>
      case Ok(fs) =>
        MulLoopMorePasses(Rewrite(cur, cur[i], product(fs)), product, passes - 1, more - 1);
  }

  lemma RemoveTermCoef(e: Element, x: Monomial, c: real, y: Monomial)
    ensures Coef(AddTerm(e, x, -c), y) == Coef(e, y) + (if x == y then -c else 0.0)
  {
    AddTermCoef(e, x, -c, y);
  }

  lemma RewritePlainCoef(cur: Element, p: Element, c: real, x: Monomial, y: Monomial)
    ensures Coef(AddElement(cur, AddTerm(Scale(c, p), x, -c)), y) == Coef(cur, y) + c * Coef(p, y) - (if x == y then c else 0.0)
  {
    var scaled := Scale(c, p);
    AddElementCoef(cur, AddTerm(scaled, x, -c), y);
    RemoveTermCoef(scaled, x, c, y);
    ScaleCoef(c, p, y);
  }

  /** One pass removes the rewritten term and adds c times the product of its
      factors: coefficients change by c * prod(ret) - c {x}. */
  lemma RewriteCoef(cur: Element, t: Term, expanded: Element, y: Monomial)
    ensures Coef(Rewrite(cur, t, expanded), y) ==
            Coef(cur, y) + t.coef * Coef(expanded, y) - (if t.mono == y then t.coef else 0.0)
  {
    RewritePlainCoef(cur, expanded, t.coef, t.mono, y);
  }

  /** The product starts from a valid element whose coefficients are those of
      the raw terms. */
  lemma ProductStart(x: Element, y: Element, z: Monomial)
    ensures ValidElement(SumOfTerms(ProductTerms(x, y)))
    ensures Coef(SumOfTerms(ProductTerms(x, y)), z) == Coef(ProductTerms(x, y), z)
  {
    AddElementValid([], ProductTerms(x, y));
    AddElementCoef([], ProductTerms(x, y), z);
  }

  lemma {:induction false} ProductTermsAtMostSquare(x: Element, y: Element)
    requires SquareFreeElement(x) && SquareFreeElement(y)
    ensures forall t :: t in ProductTerms(x, y) ==> forall i :: 0 <= i < |t.mono| ==> t.mono[i].1 <= 2
    decreases |x|
  {
    if |x| > 0 {
      ProductTermsAtMostSquare(x[1..], y);
      forall j | 0 <= j < |y| {
        MonoMulAtMostSquare(x[0].mono, y[j].mono);
      }
    }
  }

  /** Multiplying two square-free elements never trips the assertion in the
      first pass: every exponent of the raw product is at most 2. */
  lemma FirstPassOfSquareFree(x: Element, y: Element, product: seq<Factor> -> Element)
    requires SquareFreeElement(x) && SquareFreeElement(y)
    ensures !MulLoop(SumOfTerms(ProductTerms(x, y)), product, 0).Raised?
  {
    var cur := SumOfTerms(ProductTerms(x, y));
    AddElementValid([], ProductTerms(x, y));
    ProductTermsAtMostSquare(x, y);
    FirstSquareSpec(cur);
    match FirstSquare(cur)
    case None =>
    case Some(i) =>
      assert cur[i] in cur;
      var p :| p in ProductTerms(x, y) && p.mono == cur[i].mono;
      PassFactorsSpec(cur[i].mono);
  }
}
