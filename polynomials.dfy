/** Polynomials with integer coefficients, listed from the constant term up,
    with no trailing zero coefficient (the zero polynomial is the empty list).
    They stand in for the polynomials over the p-adic ring that an OM-tree
    frame expands; division is only ever by a monic polynomial. */
module Polynomials {

  /** No trailing zero coefficient. */
  predicate Normal(p: seq<int>) {
    |p| == 0 || p[|p| - 1] != 0
  }

  type Poly = p: seq<int> | Normal(p)

  /** Leading coefficient 1 and degree at least 1. */
  predicate MonicNonConstant(g: Poly) {
    |g| >= 2 && g[|g| - 1] == 1
  }

  function Degree(p: Poly): int {
    |p| - 1
  }

  function Coeff(p: seq<int>, i: int): int {
    if 0 <= i < |p| then p[i] else 0
  }

  function Pow(x: int, n: nat): int {
    if n == 0 then 1 else x * Pow(x, n - 1)
  }

  /** The value of p at x (Horner's rule from the constant term). */
  function Eval(p: seq<int>, x: int): int {
    if |p| == 0 then 0 else p[0] + x * Eval(p[1..], x)
  }

  /** p without its trailing zero coefficients. */
  function Trim(p: seq<int>): (r: Poly)
    ensures |r| <= |p| && r == p[..|r|]
    ensures forall i :: |r| <= i < |p| ==> p[i] == 0
  {
    if |p| == 0 then []
    else if p[|p| - 1] == 0 then Trim(p[..|p| - 1])
    else p
  }

  function Zeros(k: nat): (r: seq<int>)
    ensures |r| == k && forall i :: 0 <= i < k ==> r[i] == 0
  {
    seq(k, i => 0)
  }

  function Sub(f: seq<int>, g: seq<int>): (r: seq<int>)
    ensures |r| == if |f| >= |g| then |f| else |g|
    ensures forall i :: 0 <= i < |r| ==> r[i] == Coeff(f, i) - Coeff(g, i)
  {
    seq(if |f| >= |g| then |f| else |g|, i => Coeff(f, i) - Coeff(g, i))
  }

  function Add(f: seq<int>, g: seq<int>): (r: seq<int>)
    ensures |r| == if |f| >= |g| then |f| else |g|
    ensures forall i :: 0 <= i < |r| ==> r[i] == Coeff(f, i) + Coeff(g, i)
  {
    seq(if |f| >= |g| then |f| else |g|, i => Coeff(f, i) + Coeff(g, i))
  }

  /** c * g. */
  function Scale(c: int, g: seq<int>): (r: seq<int>)
    ensures |r| == |g| && forall i :: 0 <= i < |g| ==> r[i] == c * g[i]
  {
    seq(|g|, i requires 0 <= i < |g| => c * g[i])
  }

  /** c * x^k * g. */
  function ShiftScale(c: int, k: nat, g: seq<int>): (r: seq<int>)
    ensures |r| == k + |g|
  {
    Zeros(k) + Scale(c, g)
  }

  // ---------------------------------------------------------------------
  // Evaluation

  lemma {:induction false} EvalSnocZero(p: seq<int>, x: int)
    ensures Eval(p + [0], x) == Eval(p, x)
    decreases |p|
  {
    if |p| > 0 {
      assert (p + [0])[1..] == p[1..] + [0];
      EvalSnocZero(p[1..], x);
    }
  }

  lemma {:induction false} EvalTrim(p: seq<int>, x: int)
    ensures Eval(Trim(p), x) == Eval(p, x)
    decreases |p|
  {
    if |p| > 0 && p[|p| - 1] == 0 {
      var init := p[..|p| - 1];
      assert p == init + [0];
      EvalSnocZero(init, x);
      EvalTrim(init, x);
    }
  }

  lemma Rearrange(a: int, b: int, c: int)
    ensures a * (b * c) == b * (a * c) == (a * b) * c == (b * a) * c
  {
  }

  lemma Distribute(x: int, a: int, b: int)
    ensures x * (a - b) == x * a - x * b && x * (a + b) == x * a + x * b
  {
  }

  lemma {:induction false} EvalSub(f: seq<int>, g: seq<int>, x: int)
    ensures Eval(Sub(f, g), x) == Eval(f, x) - Eval(g, x)
    decreases |f| + |g|
  {
    var s := Sub(f, g);
    if |s| > 0 {
      var f', g' := if |f| > 0 then f[1..] else [], if |g| > 0 then g[1..] else [];
      assert s[1..] == Sub(f', g');
      EvalSub(f', g', x);
      var a, b := Eval(f', x), Eval(g', x);
      assert Eval(s, x) == s[0] + x * Eval(s[1..], x);
      assert Eval(f, x) == Coeff(f, 0) + x * a;
      assert Eval(g, x) == Coeff(g, 0) + x * b;
      Distribute(x, a, b);
    }
  }

  lemma {:induction false} EvalAdd(f: seq<int>, g: seq<int>, x: int)
    ensures Eval(Add(f, g), x) == Eval(f, x) + Eval(g, x)
    decreases |f| + |g|
  {
    var s := Add(f, g);
    if |s| > 0 {
      var f', g' := if |f| > 0 then f[1..] else [], if |g| > 0 then g[1..] else [];
      assert s[1..] == Add(f', g');
      EvalAdd(f', g', x);
      var a, b := Eval(f', x), Eval(g', x);
      assert Eval(s, x) == s[0] + x * Eval(s[1..], x);
      assert Eval(f, x) == Coeff(f, 0) + x * a;
      assert Eval(g, x) == Coeff(g, 0) + x * b;
      Distribute(x, a, b);
    }
  }

  lemma {:induction false} EvalScale(c: int, g: seq<int>, x: int)
    ensures Eval(Scale(c, g), x) == c * Eval(g, x)
    decreases |g|
  {
    if |g| > 0 {
      assert Scale(c, g)[1..] == Scale(c, g[1..]);
      EvalScale(c, g[1..], x);
      Rearrange(x, c, Eval(g[1..], x));
    }
  }

  lemma {:induction false} EvalShift(k: nat, h: seq<int>, x: int)
    ensures Eval(Zeros(k) + h, x) == Pow(x, k) * Eval(h, x)
    decreases k
  {
    if k == 0 {
      assert Zeros(k) + h == h;
    } else {
      assert (Zeros(k) + h)[1..] == Zeros(k - 1) + h;
      EvalShift(k - 1, h, x);
      Rearrange(x, Pow(x, k - 1), Eval(h, x));
    }
  }

  lemma EvalShiftScale(c: int, k: nat, g: seq<int>, x: int)
    ensures Eval(ShiftScale(c, k, g), x) == (c * Pow(x, k)) * Eval(g, x)
  {
    EvalShift(k, Scale(c, g), x);
    EvalScale(c, g, x);
    Rearrange(Pow(x, k), c, Eval(g, x));
  }

  // ---------------------------------------------------------------------
  // Division by a monic polynomial

  /** The remainder of cancelling the leading term of f. */
  function Reduced(f: Poly, g: Poly): Poly
    requires MonicNonConstant(g) && |f| >= |g|
  {
    Trim(Sub(f, ShiftScale(f[|f| - 1], |f| - |g|, g)))
  }

  /** Subtracting c * x^k * g, with c the leading coefficient of f and k the
      difference of degrees, cancels the leading term of f. */
  lemma LeadingCancels(f: Poly, g: Poly)
    requires MonicNonConstant(g) && |f| >= |g|
    ensures |Reduced(f, g)| < |f|
  {
    var k, c := |f| - |g|, f[|f| - 1];
    var d := Sub(f, ShiftScale(c, k, g));
    assert ShiftScale(c, k, g)[|f| - 1] == Scale(c, g)[|g| - 1] == c;
    assert d[|f| - 1] == 0;
  }

  /** Long division of f by the monic g: each step cancels the leading term
      of f with a multiple c * x^k * g. */
  function QuoRem(f: Poly, g: Poly): (qr: (Poly, Poly))
    requires MonicNonConstant(g)
    ensures |qr.1| < |g|
    ensures |f| < |g| ==> qr.0 == [] && qr.1 == f
    ensures |f| >= |g| ==> |qr.0| == |f| - |g| + 1
    decreases |f|
  {
    if |f| < |g| then ([], f)
    else
      LeadingCancels(f, g);
      var (q', r) := QuoRem(Reduced(f, g), g);
      (Trim(Add(q', ShiftScale(f[|f| - 1], |f| - |g|, [1]))), r)
  }

  /** One step of the long division removes c * x^k * g from the dividend. */
  lemma DividendStep(f: seq<int>, g: seq<int>, c: int, k: nat, x: int)
    ensures Eval(Trim(Sub(f, ShiftScale(c, k, g))), x) == Eval(f, x) - (c * Pow(x, k)) * Eval(g, x)
  {
    EvalTrim(Sub(f, ShiftScale(c, k, g)), x);
    EvalSub(f, ShiftScale(c, k, g), x);
    EvalShiftScale(c, k, g, x);
  }

  /** ... and adds c * x^k to the quotient. */
  lemma QuotientStep(q: seq<int>, c: int, k: nat, x: int)
    ensures Eval(Trim(Add(q, ShiftScale(c, k, [1]))), x) == Eval(q, x) + c * Pow(x, k)
  {
    EvalTrim(Add(q, ShiftScale(c, k, [1])), x);
    EvalAdd(q, ShiftScale(c, k, [1]), x);
    EvalShiftScale(c, k, [1], x);
    assert Eval([1], x) == 1;
  }

  lemma Recombine(e: int, d: int, cp: int, ge: int, qe: int, qn: int, re: int)
    requires d == e - cp * ge && d == qe * ge + re && qn == qe + cp
    ensures e == qn * ge + re
  {
  }

  ghost predicate Recombines(f: Poly, g: Poly, x: int)
    requires MonicNonConstant(g)
  {
    Eval(f, x) == Eval(QuoRem(f, g).0, x) * Eval(g, x) + Eval(QuoRem(f, g).1, x)
  }

  lemma QuoRemStep(f: Poly, g: Poly, x: int)
    requires MonicNonConstant(g) && |f| >= |g|
    requires Recombines(Reduced(f, g), g, x)
    ensures Recombines(f, g, x)
  {
    var k := |f| - |g|;
    var c := f[|f| - 1];
    var f' := Reduced(f, g);
    var (q', r) := QuoRem(f', g);
    var q := Trim(Add(q', ShiftScale(c, k, [1])));
    assert QuoRem(f, g) == (q, r);
    DividendStep(f, g, c, k, x);
    QuotientStep(q', c, k, x);
    Recombine(Eval(f, x), Eval(f', x), c * Pow(x, k), Eval(g, x), Eval(q', x), Eval(q, x), Eval(r, x));
  }

  /** The quotient and remainder of QuoRem recombine to the dividend. */
  lemma {:induction false} QuoRemIdentity(f: Poly, g: Poly, x: int)
    requires MonicNonConstant(g)
    ensures Eval(f, x) == Eval(QuoRem(f, g).0, x) * Eval(g, x) + Eval(QuoRem(f, g).1, x)
    decreases |f|
  {
    if |f| >= |g| {
      LeadingCancels(f, g);
      QuoRemIdentity(Reduced(f, g), g, x);
      QuoRemStep(f, g, x);
    }
  }
}
