/** Weierstrass coefficient changes and Vélu's codomain formulas
    (src/sage/schemes/elliptic_curves/ell_curve_isogeny_new.py) over a field
    of characteristic other than 2, with field elements as exact `real`s.
    A curve is given by its a-invariants (a1, a2, a3, a4, a6), that is by
    y^2 + a1 x y + a3 y = x^3 + a2 x^2 + a4 x + a6; a change of variables
    (u, r, s, t) is x = u^2 x' + r, y = u^3 y' + s u^2 x' + t.

    Every formula on field elements is a function on plain reals; the
    identities between them are proved once, on plain reals, and the
    statements about curves follow from them. */
module Isogeny {
  import opened Outcomes

  datatype AInvariants = AInvariants(a1: real, a2: real, a3: real, a4: real, a6: real)

  datatype Urst = Urst(u: real, r: real, s: real, t: real)

  // ---------------------------------------------------------------------
  // Formulas on field elements

  /** The five in-place updates of `change_elliptic_coef`. They run a6
      first, so each one reads the original lower invariants. */
  function ShiftA1(a1: real, s: real): real { a1 + 2.0 * s }
  function ShiftA2(a1: real, a2: real, r: real, s: real): real { a2 - s * a1 + 3.0 * r - s * s }
  function ShiftA3(a1: real, a3: real, r: real, t: real): real { a3 + r * a1 + 2.0 * t }
  function ShiftA4(a1: real, a2: real, a3: real, a4: real, r: real, s: real, t: real): real {
    a4 - s * a3 + 2.0 * r * a2 - (t + r * s) * a1 + 3.0 * r * r - 2.0 * s * t
  }
  function ShiftA6(a1: real, a2: real, a3: real, a4: real, a6: real, r: real, t: real): real {
    a6 + r * (a4 + r * (a2 + r)) - t * (a3 + r * a1 + t)
  }

  /** x v^k, for the weights k of the a-invariants and the coordinates. */
  function Weight(x: real, v: real, k: nat): real
    requires k in {1, 2, 3, 4, 6}
  {
    if k == 1 then x * v
    else if k == 2 then x * (v * v)
    else if k == 3 then x * (v * v * v)
    else if k == 4 then x * (v * v * v * v)
    else x * (v * v * v * v * v * v)
  }

  /** The left side minus the right side of the Weierstrass equation. */
  function Weierstrass(a1: real, a2: real, a3: real, a4: real, a6: real, x: real, y: real): real {
    y * y + a1 * x * y + a3 * y - x * x * x - a2 * x * x - a4 * x - a6
  }

  // ---------------------------------------------------------------------
  // Change of variables

  /** The shift part of a change of variables, (1, r, s, t). */
  function Shift(a: AInvariants, r: real, s: real, t: real): AInvariants {
    AInvariants(ShiftA1(a.a1, s), ShiftA2(a.a1, a.a2, r, s), ShiftA3(a.a1, a.a3, r, t),
      ShiftA4(a.a1, a.a2, a.a3, a.a4, r, s, t), ShiftA6(a.a1, a.a2, a.a3, a.a4, a.a6, r, t))
  }

  /** The final scaling of `change_elliptic_coef`: a_k v^k. */
  function Scale(a: AInvariants, v: real): AInvariants {
    AInvariants(Weight(a.a1, v, 1), Weight(a.a2, v, 2), Weight(a.a3, v, 3), Weight(a.a4, v, 4), Weight(a.a6, v, 6))
  }

  /** The equation of the curve a at (x, y): zero exactly on the curve. */
  function Equation(a: AInvariants, x: real, y: real): real {
    Weierstrass(a.a1, a.a2, a.a3, a.a4, a.a6, x, y)
  }

  /** `change_elliptic_coef(ainvs, urst)`: ZeroDivisionError when u has
      no inverse, otherwise the shifted invariants scaled by 1/u. */
  function ChangeCoef(a: AInvariants, w: Urst): (r: Result<AInvariants>)
    ensures r.Err? <==> w.u == 0.0
    ensures r.Err? ==> r.exc == ZeroDivisionError("u coefficient must be invertible.")
  {
    if w.u == 0.0 then Err(ZeroDivisionError("u coefficient must be invertible."))
    else Ok(Scale(Shift(a, w.r, w.s, w.t), 1.0 / w.u))
  }

  const Identity := Urst(1.0, 0.0, 0.0, 0.0)

  /** `urst_inv`: (1/u, -r/u^2, -s/u, (rs - t)/u^3). */
  function UrstInv(w: Urst): Urst
    requires w.u != 0.0
  {
    Urst(1.0 / w.u, -w.r / (w.u * w.u), -w.s / w.u, (w.r * w.s - w.t) / (w.u * w.u * w.u))
  }

  lemma ShiftZero(a: AInvariants)
    ensures Shift(a, 0.0, 0.0, 0.0) == a
  {
  }

  lemma WeightOne(x: real, k: nat)
    requires k in {1, 2, 3, 4, 6}
    ensures Weight(x, 1.0, k) == x
  {
  }

  lemma ScaleOne(a: AInvariants)
    ensures Scale(a, 1.0) == a
  {
    WeightOne(a.a1, 1);
    WeightOne(a.a2, 2);
    WeightOne(a.a3, 3);
    WeightOne(a.a4, 4);
    WeightOne(a.a6, 6);
  }

  /** The identity change of variables leaves every invariant alone. */
  lemma ChangeIdentity(a: AInvariants)
    ensures ChangeCoef(a, Identity) == Ok(a)
  {
    ShiftZero(a);
    ScaleOne(a);
  }

  /** The documented values of `change_elliptic_coef`. */
  lemma ChangeDocumented()
    ensures ChangeCoef(AInvariants(1.0, 2.0, 3.0, 4.0, 5.0), Urst(1.0, 0.0, 0.0, 5.0))
         == Ok(AInvariants(1.0, 2.0, 13.0, -1.0, -35.0))
    ensures ChangeCoef(AInvariants(1.0, 2.0, 3.0, 4.0, 5.0), Urst(6.0, -1.0, 2.0, 5.0))
         == Ok(AInvariants(5.0 / 6.0, -7.0 / 36.0, 1.0 / 18.0, -13.0 / 648.0, -11.0 / 15552.0))
    ensures ChangeCoef(AInvariants(1.0, 2.0, 3.0, 4.0, 5.0), Urst(1.0, 0.0, 3.0, 5.0))
         == Ok(AInvariants(7.0, -10.0, 13.0, -40.0, -35.0))
  {
    ScaleOne(Shift(AInvariants(1.0, 2.0, 3.0, 4.0, 5.0), 0.0, 0.0, 5.0));
    ScaleOne(Shift(AInvariants(1.0, 2.0, 3.0, 4.0, 5.0), 0.0, 3.0, 5.0));
  }

  // ---------------------------------------------------------------------
  // Changes of variables form a group

  /** Two changes with u = 1 compose: (1, r, s, t) then (1, r', s', t') is
      (1, r + r', s + s', t + s r' + t'). */
  lemma ShiftCompose(a: AInvariants, r: real, s: real, t: real, r': real, s': real, t': real)
    ensures Shift(Shift(a, r, s, t), r', s', t') == Shift(a, r + r', s + s', t + s * r' + t')
  {
    ShiftComposeLow(a.a1, a.a2, a.a3, r, s, t, r', s', t');
    ShiftComposeA4(a.a1, a.a2, a.a3, a.a4, r, s, t, r', s', t');
    ShiftComposeA6(a.a1, a.a2, a.a3, a.a4, a.a6, r, s, t, r', s', t');
  }

  lemma ShiftComposeLow(a1: real, a2: real, a3: real, r: real, s: real, t: real, r': real, s': real, t': real)
    ensures ShiftA1(ShiftA1(a1, s), s') == ShiftA1(a1, s + s')
    ensures ShiftA2(ShiftA1(a1, s), ShiftA2(a1, a2, r, s), r', s') == ShiftA2(a1, a2, r + r', s + s')
    ensures ShiftA3(ShiftA1(a1, s), ShiftA3(a1, a3, r, t), r', t') == ShiftA3(a1, a3, r + r', t + s * r' + t')
  {
  }

  lemma ShiftComposeA4(a1: real, a2: real, a3: real, a4: real, r: real, s: real, t: real, r': real, s': real, t': real)
    ensures ShiftA4(ShiftA1(a1, s), ShiftA2(a1, a2, r, s), ShiftA3(a1, a3, r, t), ShiftA4(a1, a2, a3, a4, r, s, t), r', s', t')
         == ShiftA4(a1, a2, a3, a4, r + r', s + s', t + s * r' + t')
  {
  }

  lemma ShiftComposeA6(a1: real, a2: real, a3: real, a4: real, a6: real, r: real, s: real, t: real, r': real, s': real, t': real)
    ensures ShiftA6(ShiftA1(a1, s), ShiftA2(a1, a2, r, s), ShiftA3(a1, a3, r, t), ShiftA4(a1, a2, a3, a4, r, s, t),
                    ShiftA6(a1, a2, a3, a4, a6, r, t), r', t')
         == ShiftA6(a1, a2, a3, a4, a6, r + r', t + s * r' + t')
  {
    var b1, b2, b3 := ShiftA1(a1, s), ShiftA2(a1, a2, r, s), ShiftA3(a1, a3, r, t);
    var b4, b6 := ShiftA4(a1, a2, a3, a4, r, s, t), ShiftA6(a1, a2, a3, a4, a6, r, t);
    ShiftA6Equation(b1, b2, b3, b4, b6, r', t');
    ShiftEquation(a1, a2, a3, a4, a6, r, s, t, r', t');
    SamePoint(a1, a2, a3, a4, a6, r' + r, ShiftY(s, t, r', t'), r + r', t + s * r' + t');
    ShiftA6Equation(a1, a2, a3, a4, a6, r + r', t + s * r' + t');
  }

  /** a6 after the shift is minus the equation at (r, t). */
  lemma ShiftA6Equation(a1: real, a2: real, a3: real, a4: real, a6: real, r: real, t: real)
    ensures ShiftA6(a1, a2, a3, a4, a6, r, t) == -Weierstrass(a1, a2, a3, a4, a6, r, t)
  {
  }

  lemma SamePoint(a1: real, a2: real, a3: real, a4: real, a6: real, x: real, y: real, x': real, y': real)
    requires x == x' && y == y'
    ensures Weierstrass(a1, a2, a3, a4, a6, x, y) == Weierstrass(a1, a2, a3, a4, a6, x', y')
  {
  }

  /** Scaling by v and then by u is scaling by v u. */
  lemma ScaleCompose(a: AInvariants, v: real, u: real)
    ensures Scale(Scale(a, v), u) == Scale(a, v * u)
  {
    WeightCompose(a.a1, v, u, 1);
    WeightCompose(a.a2, v, u, 2);
    WeightCompose(a.a3, v, u, 3);
    WeightCompose(a.a4, v, u, 4);
    WeightCompose(a.a6, v, u, 6);
  }

  lemma WeightCompose(x: real, v: real, u: real, k: nat)
    requires k in {1, 2, 3, 4, 6}
    ensures Weight(Weight(x, v, k), u, k) == Weight(x, v * u, k)
  {
    WeightComposeAlgebra(x, v, u, Weight(x, v, k));
  }

  lemma WeightComposeAlgebra(x: real, v: real, u: real, w: real)
    ensures w == x * v ==> w * u == x * (v * u)
    ensures w == x * (v * v) ==> w * (u * u) == x * ((v * u) * (v * u))
    ensures w == x * (v * v * v) ==> w * (u * u * u) == x * ((v * u) * (v * u) * (v * u))
    ensures w == x * (v * v * v * v) ==> w * (u * u * u * u) == x * ((v * u) * (v * u) * (v * u) * (v * u))
    ensures w == x * (v * v * v * v * v * v) ==>
              w * (u * u * u * u * u * u) == x * ((v * u) * (v * u) * (v * u) * (v * u) * (v * u) * (v * u))
  {
  }

  /** A shift of a scaled curve is the scaling of a shift by the same
      amounts of matching weight: (1, R v^2, S v, T v^3) after scaling by v
      is (1, R, S, T) before it. */
  lemma ShiftScale(b: AInvariants, v: real, r: real, s: real, t: real)
    ensures Shift(Scale(b, v), Weight(r, v, 2), Weight(s, v, 1), Weight(t, v, 3)) == Scale(Shift(b, r, s, t), v)
  {
    ShiftScaleWeights(b.a1, b.a2, b.a3, b.a4, b.a6, v, r, s, t);
  }

  lemma ShiftScaleWeights(b1: real, b2: real, b3: real, b4: real, b6: real, v: real, r: real, s: real, t: real)
    ensures var c1, c2, c3, c4, c6 := Weight(b1, v, 1), Weight(b2, v, 2), Weight(b3, v, 3), Weight(b4, v, 4), Weight(b6, v, 6);
      var r', s', t' := Weight(r, v, 2), Weight(s, v, 1), Weight(t, v, 3);
      && ShiftA1(c1, s') == Weight(ShiftA1(b1, s), v, 1)
      && ShiftA2(c1, c2, r', s') == Weight(ShiftA2(b1, b2, r, s), v, 2)
      && ShiftA3(c1, c3, r', t') == Weight(ShiftA3(b1, b3, r, t), v, 3)
      && ShiftA4(c1, c2, c3, c4, r', s', t') == Weight(ShiftA4(b1, b2, b3, b4, r, s, t), v, 4)
      && ShiftA6(c1, c2, c3, c4, c6, r', t') == Weight(ShiftA6(b1, b2, b3, b4, b6, r, t), v, 6)
  {
    ShiftScaleAlgebra(b1, b2, b3, v, r, s, t);
    ShiftScaleA4(b1, b2, b3, b4, v, r, s, t);
    ShiftScaleA6(b1, b2, b3, b4, b6, v, r, t);
  }

  lemma ShiftScaleAlgebra(b1: real, b2: real, b3: real, v: real, r: real, s: real, t: real)
    ensures ShiftA1(b1 * v, s * v) == ShiftA1(b1, s) * v
    ensures ShiftA2(b1 * v, b2 * (v * v), r * (v * v), s * v) == ShiftA2(b1, b2, r, s) * (v * v)
    ensures ShiftA3(b1 * v, b3 * (v * v * v), r * (v * v), t * (v * v * v)) == ShiftA3(b1, b3, r, t) * (v * v * v)
  {
  }

  lemma ShiftScaleA4(b1: real, b2: real, b3: real, b4: real, v: real, r: real, s: real, t: real)
    ensures ShiftA4(b1 * v, b2 * (v * v), b3 * (v * v * v), b4 * (v * v * v * v), r * (v * v), s * v, t * (v * v * v))
         == ShiftA4(b1, b2, b3, b4, r, s, t) * (v * v * v * v)
  {
  }

  lemma ShiftScaleA6(b1: real, b2: real, b3: real, b4: real, b6: real, v: real, r: real, t: real)
    ensures ShiftA6(b1 * v, b2 * (v * v), b3 * (v * v * v), b4 * (v * v * v * v), b6 * (v * v * v * v * v * v),
                    r * (v * v), t * (v * v * v))
         == ShiftA6(b1, b2, b3, b4, b6, r, t) * (v * v * v * v * v * v)
  {
    var v2, v3, v4, v6 := v * v, v * v * v, v * v * v * v, v * v * v * v * v * v;
    var x := b2 + r;
    assert b2 * v2 + r * v2 == x * v2;
    assert (r * v2) * (x * v2) == (r * x) * v4;
    var y := b4 + r * x;
    assert b4 * v4 + (r * x) * v4 == y * v4;
    assert (r * v2) * (y * v4) == (r * y) * v6;
    var z := b3 + r * b1 + t;
    assert b3 * v3 + (r * v2) * (b1 * v) + t * v3 == z * v3;
    assert (t * v3) * (z * v3) == (t * z) * v6;
  }

  /** `urst_inv` has the weights of a change of variables by 1/u:
      -r/u^2, -s/u and (rs - t)/u^3 are -r, -s and rs - t weighted by 1/u. */
  lemma UrstInvWeights(w: Urst)
    requires w.u != 0.0
    ensures var i := UrstInv(w);
      && i.u != 0.0 && i.u * w.u == 1.0 && 1.0 / i.u == w.u
      && i.r == Weight(-w.r, i.u, 2) && i.s == Weight(-w.s, i.u, 1) && i.t == Weight(w.r * w.s - w.t, i.u, 3)
  {
    InverseAlgebra(w.u, w.r, w.s, w.t, 1.0 / w.u);
  }

  lemma InverseAlgebra(u: real, r: real, s: real, t: real, v: real)
    requires u != 0.0 && v == 1.0 / u
    ensures v != 0.0 && v * u == 1.0 && 1.0 / v == u
    ensures -r / (u * u) == -r * (v * v)
    ensures -s / u == -s * v
    ensures (r * s - t) / (u * u * u) == (r * s - t) * (v * v * v)
  {
  }

  /** The change by `urst_inv` undoes the change by `urst`. */
  lemma ChangeInverse(a: AInvariants, w: Urst)
    requires w.u != 0.0
    ensures ChangeCoef(a, w).Ok?
    ensures ChangeCoef(ChangeCoef(a, w).value, UrstInv(w)) == Ok(a)
  {
    var i := UrstInv(w);
    var v := i.u;
    UrstInvWeights(w);
    var b := Shift(a, w.r, w.s, w.t);
    var c := ChangeCoef(a, w).value;
    assert c == Scale(b, v);
    ShiftScale(b, v, -w.r, -w.s, w.r * w.s - w.t);
    assert Shift(c, i.r, i.s, i.t) == Scale(Shift(b, -w.r, -w.s, w.r * w.s - w.t), v);
    ShiftInverse(a, w);
    assert Shift(c, i.r, i.s, i.t) == Scale(a, v);
    ScaleInverse(a, v, w.u);
    assert ChangeCoef(c, i) == Ok(Scale(Scale(a, v), w.u));
  }

  /** The shift (1, -r, -s, rs - t) undoes the shift (1, r, s, t). */
  lemma ShiftInverse(a: AInvariants, w: Urst)
    ensures Shift(Shift(a, w.r, w.s, w.t), -w.r, -w.s, w.r * w.s - w.t) == a
  {
    var r, s, t := w.r, w.s, w.t;
    ShiftInverseLow(a.a1, a.a2, a.a3, r, s, t);
    ShiftInverseA4(a.a1, a.a2, a.a3, a.a4, r, s, t);
    ShiftInverseA6(a.a1, a.a2, a.a3, a.a4, a.a6, r, s, t);
  }

  lemma ShiftInverseLow(a1: real, a2: real, a3: real, r: real, s: real, t: real)
    ensures ShiftA1(ShiftA1(a1, s), -s) == a1
    ensures ShiftA2(ShiftA1(a1, s), ShiftA2(a1, a2, r, s), -r, -s) == a2
    ensures ShiftA3(ShiftA1(a1, s), ShiftA3(a1, a3, r, t), -r, r * s - t) == a3
  {
  }

  lemma ShiftInverseA4(a1: real, a2: real, a3: real, a4: real, r: real, s: real, t: real)
    ensures ShiftA4(ShiftA1(a1, s), ShiftA2(a1, a2, r, s), ShiftA3(a1, a3, r, t), ShiftA4(a1, a2, a3, a4, r, s, t),
                    -r, -s, r * s - t) == a4
  {
  }

  lemma ShiftInverseA6(a1: real, a2: real, a3: real, a4: real, a6: real, r: real, s: real, t: real)
    ensures ShiftA6(ShiftA1(a1, s), ShiftA2(a1, a2, r, s), ShiftA3(a1, a3, r, t), ShiftA4(a1, a2, a3, a4, r, s, t),
                    ShiftA6(a1, a2, a3, a4, a6, r, t), -r, r * s - t) == a6
  {
    ShiftComposeA6(a1, a2, a3, a4, a6, r, s, t, -r, -s, r * s - t);
    ZeroShiftA6(a1, a2, a3, a4, a6, r + -r, t + s * -r + (r * s - t));
  }

  lemma ZeroShiftA6(a1: real, a2: real, a3: real, a4: real, a6: real, r: real, t: real)
    requires r == 0.0 && t == 0.0
    ensures ShiftA6(a1, a2, a3, a4, a6, r, t) == a6
  {
  }

  /** Scaling by v and then by its reciprocal u gives back the curve. */
  lemma ScaleInverse(a: AInvariants, v: real, u: real)
    requires v * u == 1.0
    ensures Scale(Scale(a, v), u) == a
  {
    ScaleCompose(a, v, u);
    ScaleOne(a);
  }

  // ---------------------------------------------------------------------
  // The change of variables on points

  /** y + s x + t: the y-part of the shift (1, r, s, t). */
  function ShiftY(s: real, t: real, x: real, y: real): real { y + s * x + t }

  /** The point (u^2 x + r, u^3 y + s u^2 x + t) of the old curve that
      the change (u, r, s, t) sends to (x, y). */
  function ChangePoint(w: Urst, x: real, y: real): (real, real) {
    (Weight(x, w.u, 2) + w.r, ShiftY(w.s, w.t, Weight(x, w.u, 2), Weight(y, w.u, 3)))
  }

  /** The substituted equation of the old curve is u^6 times the
      equation of the new one; so, for invertible u, the change of
      variables maps the points of one curve onto the points of the
      other. */
  lemma ChangeEquation(a: AInvariants, w: Urst, x: real, y: real)
    requires w.u != 0.0
    ensures var (x0, y0) := ChangePoint(w, x, y);
      Equation(a, x0, y0) == Weight(Equation(ChangeCoef(a, w).value, x, y), w.u, 6)
  {
    var c := ChangeCoef(a, w).value;
    var b := Shift(a, w.r, w.s, w.t);
    var x1, y1 := Weight(x, w.u, 2), Weight(y, w.u, 3);
    ShiftEquation(a.a1, a.a2, a.a3, a.a4, a.a6, w.r, w.s, w.t, x1, y1);
    assert Equation(a, x1 + w.r, ShiftY(w.s, w.t, x1, y1)) == Equation(b, x1, y1);
    ScaleReciprocal(b, w.u);
    assert Scale(c, w.u) == b;
    ScaleEquation(c.a1, c.a2, c.a3, c.a4, c.a6, w.u, x, y);
  }

  lemma ShiftEquation(a1: real, a2: real, a3: real, a4: real, a6: real, r: real, s: real, t: real, x: real, y: real)
    ensures Weierstrass(a1, a2, a3, a4, a6, x + r, ShiftY(s, t, x, y))
         == Weierstrass(ShiftA1(a1, s), ShiftA2(a1, a2, r, s), ShiftA3(a1, a3, r, t),
                        ShiftA4(a1, a2, a3, a4, r, s, t), ShiftA6(a1, a2, a3, a4, a6, r, t), x, y)
  {
    ShiftExpanded(a1, a2, a3, a4, a6, r, s, t, x, y);
    ShiftRegrouped(a1, a2, a3, a4, a6, r, s, t, x, y);
    var b1, b2, b3 := ShiftA1(a1, s), ShiftA2(a1, a2, r, s), ShiftA3(a1, a3, r, t);
    var b4, b6 := ShiftA4(a1, a2, a3, a4, r, s, t), ShiftA6(a1, a2, a3, a4, a6, r, t);
    ShiftRight(a1, a2, a3, a4, a6, r, s, t, x, y, b1, b2, b3, b4, b6);
    ShiftCollected(a1, a2, a3, a4, a6, r, s, t, x, y, b1, b2, b3, b4, b6);
  }

  /** The shifted equation, each product multiplied out. */
  function ShiftExpansion(a1: real, a2: real, a3: real, a4: real, a6: real,
                          r: real, s: real, t: real, x: real, y: real): real
  {
    (y * y + 2.0 * s * x * y + 2.0 * t * y + s * s * x * x + 2.0 * s * t * x + t * t)
    + (a1 * x * y + a1 * s * x * x + a1 * t * x + a1 * r * y + a1 * r * s * x + a1 * r * t)
    + (a3 * y + a3 * s * x + a3 * t)
    - (x * x * x + 3.0 * r * x * x + 3.0 * r * r * x + r * r * r)
    - (a2 * x * x + 2.0 * a2 * r * x + a2 * r * r)
    - (a4 * x + a4 * r)
    - a6
  }

  /** The same terms, collected by monomial in x and y. */
  function ShiftCollection(a1: real, a2: real, a3: real, a4: real, a6: real,
                           r: real, s: real, t: real, x: real, y: real): real
  {
    y * y
    + (a1 * x * y + 2.0 * s * x * y)
    + (a3 * y + a1 * r * y + 2.0 * t * y)
    - x * x * x
    - (a2 * x * x - a1 * s * x * x + 3.0 * r * x * x - s * s * x * x)
    - (a4 * x - a3 * s * x + 2.0 * a2 * r * x - a1 * t * x - a1 * r * s * x + 3.0 * r * r * x - 2.0 * s * t * x)
    - (a6 + a4 * r + a2 * r * r + r * r * r - a3 * t - a1 * r * t - t * t)
  }

  lemma ShiftExpanded(a1: real, a2: real, a3: real, a4: real, a6: real, r: real, s: real, t: real, x: real, y: real)
    ensures Weierstrass(a1, a2, a3, a4, a6, x + r, ShiftY(s, t, x, y))
         == ShiftExpansion(a1, a2, a3, a4, a6, r, s, t, x, y)
  {
    ShiftSquare(s, t, x, y);
    ShiftCross(a1, r, s, t, x, y);
    ShiftCube(r, x);
    ShiftQuadratic(a2, r, x);
    ShiftLinear(a3, a4, r, s, t, x, y);
  }

  lemma ShiftRegrouped(a1: real, a2: real, a3: real, a4: real, a6: real, r: real, s: real, t: real, x: real, y: real)
    ensures ShiftExpansion(a1, a2, a3, a4, a6, r, s, t, x, y) == ShiftCollection(a1, a2, a3, a4, a6, r, s, t, x, y)
  {
    Regroup(y * y, 2.0 * s * x * y, 2.0 * t * y, s * s * x * x, 2.0 * s * t * x, t * t,
            a1 * x * y, a1 * s * x * x, a1 * t * x, a1 * r * y, a1 * r * s * x, a1 * r * t,
            a3 * y, a3 * s * x, a3 * t,
            x * x * x, 3.0 * r * x * x, 3.0 * r * r * x, r * r * r,
            a2 * x * x, 2.0 * a2 * r * x, a2 * r * r,
            a4 * x, a4 * r, a6);
  }

  /** The shifted a-invariants b times the monomials they multiply,
      multiplied out. */
  lemma ShiftRight(a1: real, a2: real, a3: real, a4: real, a6: real, r: real, s: real, t: real, x: real, y: real,
                   b1: real, b2: real, b3: real, b4: real, b6: real)
    requires b1 == ShiftA1(a1, s) && b2 == ShiftA2(a1, a2, r, s) && b3 == ShiftA3(a1, a3, r, t)
    requires b4 == ShiftA4(a1, a2, a3, a4, r, s, t) && b6 == ShiftA6(a1, a2, a3, a4, a6, r, t)
    ensures b1 * x * y == a1 * x * y + 2.0 * s * x * y
    ensures b2 * x * x == a2 * x * x - a1 * s * x * x + 3.0 * r * x * x - s * s * x * x
    ensures b3 * y == a3 * y + a1 * r * y + 2.0 * t * y
    ensures b4 * x == a4 * x - a3 * s * x + 2.0 * a2 * r * x - a1 * t * x - a1 * r * s * x + 3.0 * r * r * x - 2.0 * s * t * x
    ensures b6 == a6 + a4 * r + a2 * r * r + r * r * r - a3 * t - a1 * r * t - t * t
  {}

  lemma ShiftCollected(a1: real, a2: real, a3: real, a4: real, a6: real, r: real, s: real, t: real, x: real, y: real,
                       b1: real, b2: real, b3: real, b4: real, b6: real)
    requires b1 * x * y == a1 * x * y + 2.0 * s * x * y
    requires b2 * x * x == a2 * x * x - a1 * s * x * x + 3.0 * r * x * x - s * s * x * x
    requires b3 * y == a3 * y + a1 * r * y + 2.0 * t * y
    requires b4 * x == a4 * x - a3 * s * x + 2.0 * a2 * r * x - a1 * t * x - a1 * r * s * x + 3.0 * r * r * x - 2.0 * s * t * x
    requires b6 == a6 + a4 * r + a2 * r * r + r * r * r - a3 * t - a1 * r * t - t * t
    ensures ShiftCollection(a1, a2, a3, a4, a6, r, s, t, x, y) == Weierstrass(b1, b2, b3, b4, b6, x, y)
  {
    Collect(b1, b2, b3, b4, b6, x, y,
            a1 * x * y + 2.0 * s * x * y,
            a3 * y + a1 * r * y + 2.0 * t * y,
            a2 * x * x - a1 * s * x * x + 3.0 * r * x * x - s * s * x * x,
            a4 * x - a3 * s * x + 2.0 * a2 * r * x - a1 * t * x - a1 * r * s * x + 3.0 * r * r * x - 2.0 * s * t * x,
            a6 + a4 * r + a2 * r * r + r * r * r - a3 * t - a1 * r * t - t * t);
  }

  /** The last step: each term of the equation replaced by the collected
      polynomial it equals. */
  lemma Collect(b1: real, b2: real, b3: real, b4: real, b6: real, x: real, y: real,
                g1: real, g3: real, g2: real, g4: real, g6: real)
    requires b1 * x * y == g1 && b3 * y == g3 && b2 * x * x == g2 && b4 * x == g4 && b6 == g6
    ensures Weierstrass(b1, b2, b3, b4, b6, x, y) == y * y + (g1) + (g3) - x * x * x - (g2) - (g4) - (g6)
  {}

  /** The linear step of the change of variables: the expanded terms of
      the shifted equation, collected by monomial in x and y. */
  lemma Regroup(yy: real, sxy: real, ty: real, ssxx: real, stx: real, tt: real,
                a1xy: real, a1sxx: real, a1tx: real, a1ry: real, a1rsx: real, a1rt: real,
                a3y: real, a3sx: real, a3t: real, xxx: real, rxx: real, rrx: real, rrr: real,
                a2xx: real, a2rx: real, a2rr: real, a4x: real, a4r: real, a6: real)
    ensures (yy + sxy + ty + ssxx + stx + tt) + (a1xy + a1sxx + a1tx + a1ry + a1rsx + a1rt) + (a3y + a3sx + a3t)
            - (xxx + rxx + rrx + rrr) - (a2xx + a2rx + a2rr) - (a4x + a4r) - a6
         == yy + (a1xy + sxy) + (a3y + a1ry + ty) - xxx - (a2xx - a1sxx + rxx - ssxx)
            - (a4x - a3sx + a2rx - a1tx - a1rsx + rrx - stx) - (a6 + a4r + a2rr + rrr - a3t - a1rt - tt)
  {}

  lemma ShiftSquare(s: real, t: real, x: real, y: real)
    ensures (y + s * x + t) * (y + s * x + t)
         == y * y + 2.0 * s * x * y + 2.0 * t * y + s * s * x * x + 2.0 * s * t * x + t * t
  {}

  lemma ShiftCross(a1: real, r: real, s: real, t: real, x: real, y: real)
    ensures a1 * (x + r) * (y + s * x + t)
         == a1 * x * y + a1 * s * x * x + a1 * t * x + a1 * r * y + a1 * r * s * x + a1 * r * t
  {}

  lemma ShiftCube(r: real, x: real)
    ensures (x + r) * (x + r) * (x + r) == x * x * x + 3.0 * r * x * x + 3.0 * r * r * x + r * r * r
  {}

  lemma ShiftQuadratic(a2: real, r: real, x: real)
    ensures a2 * (x + r) * (x + r) == a2 * x * x + 2.0 * a2 * r * x + a2 * r * r
  {}

  lemma ShiftLinear(a3: real, a4: real, r: real, s: real, t: real, x: real, y: real)
    ensures a3 * (y + s * x + t) == a3 * y + a3 * s * x + a3 * t
    ensures a4 * (x + r) == a4 * x + a4 * r
  {}

  lemma ScaleEquation(c1: real, c2: real, c3: real, c4: real, c6: real, u: real, x: real, y: real)
    ensures Weierstrass(Weight(c1, u, 1), Weight(c2, u, 2), Weight(c3, u, 3), Weight(c4, u, 4), Weight(c6, u, 6),
                        Weight(x, u, 2), Weight(y, u, 3))
         == Weight(Weierstrass(c1, c2, c3, c4, c6, x, y), u, 6)
  {
    ScaleMonomialsY(c1, c3, u, x, y);
    ScaleMonomialsX(c2, c4, u, x);
    WeightAdd(y * y, c1 * x * y, u);
    WeightAdd(y * y + c1 * x * y, c3 * y, u);
    WeightSub(y * y + c1 * x * y + c3 * y, x * x * x, u);
    WeightSub(y * y + c1 * x * y + c3 * y - x * x * x, c2 * x * x, u);
    WeightSub(y * y + c1 * x * y + c3 * y - x * x * x - c2 * x * x, c4 * x, u);
    WeightSub(y * y + c1 * x * y + c3 * y - x * x * x - c2 * x * x - c4 * x, c6, u);
  }


  lemma WeightAdd(a: real, b: real, u: real)
    ensures Weight(a + b, u, 6) == Weight(a, u, 6) + Weight(b, u, 6)
  {
  }

  lemma WeightSub(a: real, b: real, u: real)
    ensures Weight(a - b, u, 6) == Weight(a, u, 6) - Weight(b, u, 6)
  {
  }

  lemma ScaleMonomialsY(c1: real, c3: real, u: real, x: real, y: real)
    ensures Weight(y, u, 3) * Weight(y, u, 3) == Weight(y * y, u, 6)
    ensures Weight(c1, u, 1) * Weight(x, u, 2) * Weight(y, u, 3) == Weight(c1 * x * y, u, 6)
    ensures Weight(c3, u, 3) * Weight(y, u, 3) == Weight(c3 * y, u, 6)
  {
  }

  lemma ScaleMonomialsX(c2: real, c4: real, u: real, x: real)
    ensures Weight(x, u, 2) * Weight(x, u, 2) * Weight(x, u, 2) == Weight(x * x * x, u, 6)
    ensures Weight(c2, u, 2) * Weight(x, u, 2) * Weight(x, u, 2) == Weight(c2 * x * x, u, 6)
    ensures Weight(c4, u, 4) * Weight(x, u, 2) == Weight(c4 * x, u, 6)
  {
  }

  lemma ScaleReciprocal(a: AInvariants, u: real)
    requires u != 0.0
    ensures Scale(Scale(a, 1.0 / u), u) == a
  {
    ScaleInverse(a, 1.0 / u, u);
  }

  // ---------------------------------------------------------------------
  // Pre-reduction to a1 = a3 = 0

  /** b2, b4 and b6 of the curve. */
  function B2(a1: real, a2: real): real { a1 * a1 + 4.0 * a2 }
  function B4(a1: real, a3: real, a4: real): real { 2.0 * a4 + a1 * a3 }
  function B6(a3: real, a6: real): real { a3 * a3 + 4.0 * a6 }

  /** b8 and the discriminant of the curve. */
  function B8(a1: real, a2: real, a3: real, a4: real, a6: real): real {
    a1 * a1 * a6 + 4.0 * a2 * a6 - a1 * a3 * a4 + a2 * a3 * a3 - a4 * a4
  }

  function DiscriminantOf(b2: real, b4: real, b6: real, b8: real): real {
    -b2 * b2 * b8 - 8.0 * b4 * b4 * b4 - 27.0 * b6 * b6 + 9.0 * b2 * b4 * b6
  }

  function Discriminant(a: AInvariants): real {
    DiscriminantOf(B2(a.a1, a.a2), B4(a.a1, a.a3, a.a4), B6(a.a3, a.a6), B8(a.a1, a.a2, a.a3, a.a4, a.a6))
  }

  /** `EllipticCurve(ainvs)` refuses invariants of a singular curve. */
  const SingularCurve: string := "invariants define a singular curve"

  /** The start of `_init_via_kernel_polynomial`: `_pre_urst` and the
      invariants of the reduced domain. A curve with a1 or a3 non-zero
      raises in characteristic 2, where 2 has no inverse. */
  function PreReduce(a: AInvariants, charTwo: bool): (r: Result<(Urst, AInvariants)>)
    ensures r.Err? <==> (a.a1 != 0.0 || a.a3 != 0.0) && charTwo
    ensures r.Err? ==> r.exc == NotImplementedError("The characteristic 2 is not supported")
    ensures r.Ok? ==> r.value.0.u == 1.0 && r.value.1.a1 == 0.0 && r.value.1.a3 == 0.0
  {
    if a.a1 != 0.0 || a.a3 != 0.0 then
      if charTwo then Err(NotImplementedError("The characteristic 2 is not supported"))
      else Ok((Urst(1.0, 0.0, a.a1 / 2.0, a.a3 / 2.0),
               AInvariants(0.0, B2(a.a1, a.a2) / 4.0, 0.0, B4(a.a1, a.a3, a.a4) / 2.0, B6(a.a3, a.a6) / 4.0)))
    else Ok((Identity, a))
  }

  /** The change (1, 0, -a1/2, -a3/2) that completes the square in y. */
  function Reduction(a: AInvariants): Urst {
    Urst(1.0, 0.0, -a.a1 / 2.0, -a.a3 / 2.0)
  }

  /** Outside characteristic 2 the reduced domain is the curve changed by
      `Reduction`, and `_pre_urst` is the inverse change; so changing the
      reduced curve by `_pre_urst` gives back the domain. */
  lemma PreReduceIsChange(a: AInvariants)
    ensures var w := Reduction(a);
      && PreReduce(a, false) == Ok((UrstInv(w), ChangeCoef(a, w).value))
      && ChangeCoef(ChangeCoef(a, w).value, UrstInv(w)) == Ok(a)
  {
    var w := Reduction(a);
    ChangeInverse(a, w);
    assert UrstInv(w) == Urst(1.0, 0.0, a.a1 / 2.0, a.a3 / 2.0);
    ReductionAlgebra(a.a1, a.a2, a.a3, a.a4, a.a6);
    ScaleOne(Shift(a, 0.0, -a.a1 / 2.0, -a.a3 / 2.0));
    if a.a1 == 0.0 && a.a3 == 0.0 {
      assert UrstInv(w) == Identity;
    }
  }

  lemma ReductionAlgebra(a1: real, a2: real, a3: real, a4: real, a6: real)
    ensures ShiftA1(a1, -a1 / 2.0) == 0.0
    ensures ShiftA2(a1, a2, 0.0, -a1 / 2.0) == B2(a1, a2) / 4.0
    ensures ShiftA3(a1, a3, 0.0, -a3 / 2.0) == 0.0
    ensures ShiftA4(a1, a2, a3, a4, 0.0, -a1 / 2.0, -a3 / 2.0) == B4(a1, a3, a4) / 2.0
    ensures ShiftA6(a1, a2, a3, a4, a6, 0.0, -a3 / 2.0) == B6(a3, a6) / 4.0
  {
  }

  // ---------------------------------------------------------------------
  // Power sums of the roots of the kernel polynomial

  /** Polynomials over the field, coefficients from the constant term
      up; like Sage's, they never end in a zero coefficient. */
  type Poly = h: seq<real> | |h| == 0 || h[|h| - 1] != 0.0

  /** `h[k]`: zero outside the coefficient list. */
  function Coef(h: Poly, k: int): real {
    if 0 <= k < |h| then h[k] else 0.0
  }

  /** `h.degree()`: -1 for the zero polynomial. */
  function PolyDegree(h: Poly): int {
    |h| - 1
  }

  datatype Sums = Sums(s1: real, s2: real, s3: real)

  function PowerSum2(c1: real, c2: real): real { c1 * c1 - 2.0 * c2 }
  function PowerSum3(c1: real, c2: real, c3: real): real { -(c1 * c1 * c1) + 3.0 * c1 * c2 - 3.0 * c3 }

  /** s1, s2 and s3 as `_init_via_kernel_polynomial` reads them off the
      three coefficients c1, c2, c3 below the leading one of h. */
  function PowerSums(h: Poly): Sums {
    var n := PolyDegree(h);
    CoefficientSums(Coef(h, n - 1), Coef(h, n - 2), Coef(h, n - 3))
  }

  /** s1 = -c1, s2 = c1^2 - 2 c2 and s3 = -c1^3 + 3 c1 c2 - 3 c3. */
  function CoefficientSums(c1: real, c2: real, c3: real): Sums {
    Sums(-c1, PowerSum2(c1, c2), PowerSum3(c1, c2, c3))
  }

  /** x - a y. */
  function MulSub(x: real, a: real, y: real): real { x - a * y }

  /** h times (x - a): the coefficient of x^k is h[k-1] - a h[k]. */
  function MulLinear(h: Poly, a: real): Poly {
    if |h| == 0 then []
    else
      var r := seq(|h| + 1, k => MulSub(Coef(h, k - 1), a, Coef(h, k)));
      LeadingNonZero(h[|h| - 1], a);
      r
  }

  lemma LeadingNonZero(c: real, a: real)
    requires c != 0.0
    ensures MulSub(c, a, 0.0) != 0.0
  {
  }

  /** The monic polynomial with roots xs (with multiplicity): the kernel
      polynomial of a finite subgroup when xs lists the abscissae of its
      non-zero points, each 2-torsion point once and each other abscissa
      twice, as the a b^2 of `__init__` does. */
  function FromRoots(xs: seq<real>): (h: Poly)
    ensures |h| == |xs| + 1
    decreases |xs|
  {
    if |xs| == 0 then [1.0] else MulLinear(FromRoots(xs[..|xs| - 1]), xs[|xs| - 1])
  }

  /** The coefficient j places below the last one of the list. */
  function Top(h: Poly, j: int): real {
    Coef(h, |h| - 1 - j)
  }

  /** Multiplying by (x - a) moves every coefficient up one place and
      subtracts a times the one below. */
  lemma TopMulLinear(h: Poly, a: real, i: int, j: int)
    requires i + 1 == j
    ensures Top(MulLinear(h, a), j) == MulSub(Top(h, j), a, Top(h, i))
  {
    if |h| == 0 {
      MulSubZero(a);
    } else {
      MulLinearCoef(h, a, |h| - j);
    }
  }

  lemma MulLinearCoef(h: Poly, a: real, k: int)
    ensures Coef(MulLinear(h, a), k) == MulSub(Coef(h, k - 1), a, Coef(h, k))
  {
    if |h| == 0 || k < 0 || |h| < k {
      MulSubZero(a);
    } else {
      MulLinearCoefInside(h, a, k);
    }
  }

  lemma MulLinearCoefInside(h: Poly, a: real, k: int)
    requires |h| > 0 && 0 <= k <= |h|
    ensures Coef(MulLinear(h, a), k) == MulSub(Coef(h, k - 1), a, Coef(h, k))
  {
    var r := seq(|h| + 1, i => MulSub(Coef(h, i - 1), a, Coef(h, i)));
    assert MulLinear(h, a) == r;
    assert r[k] == MulSub(Coef(h, k - 1), a, Coef(h, k));
  }

  lemma MulSubZero(a: real)
    ensures MulSub(0.0, a, 0.0) == 0.0
  {
  }

  datatype Elementary = Elementary(e1: real, e2: real, e3: real)

  function MulAdd(x: real, a: real, y: real): real { x + a * y }
  function Sq(a: real): real { a * a }
  function Cube(a: real): real { a * a * a }

  /** The elementary symmetric functions e1, e2, e3 of xs. */
  function ElementaryOf(xs: seq<real>): Elementary
    decreases |xs|
  {
    if |xs| == 0 then Elementary(0.0, 0.0, 0.0)
    else
      var e := ElementaryOf(xs[..|xs| - 1]);
      var a := xs[|xs| - 1];
      Elementary(e.e1 + a, MulAdd(e.e2, a, e.e1), MulAdd(e.e3, a, e.e2))
  }

  /** The sums of x, x^2 and x^3 over xs. */
  function Powers(xs: seq<real>): Sums
    decreases |xs|
  {
    if |xs| == 0 then Sums(0.0, 0.0, 0.0)
    else
      var p := Powers(xs[..|xs| - 1]);
      var a := xs[|xs| - 1];
      Sums(p.s1 + a, p.s2 + Sq(a), p.s3 + Cube(a))
  }

  /** The polynomial with roots xs is monic, and its three coefficients
      below the leading one are -e1, e2 and -e3. */
  lemma {:induction false} TopCoefficients(xs: seq<real>)
    ensures var h, e := FromRoots(xs), ElementaryOf(xs);
      && Top(h, -1) == 0.0 && Top(h, 0) == 1.0
      && Top(h, 1) == -e.e1 && Top(h, 2) == e.e2 && Top(h, 3) == -e.e3
    decreases |xs|
  {
    if |xs| > 0 {
      var ys, a := xs[..|xs| - 1], xs[|xs| - 1];
      var h := FromRoots(ys);
      TopCoefficients(ys);
      var e := ElementaryOf(ys);
      TopMulLinear(h, a, -1, 0);
      TopMulLinear(h, a, 0, 1);
      TopMulLinear(h, a, 1, 2);
      TopMulLinear(h, a, 2, 3);
      TopStep(Top(h, -1), Top(h, 0), Top(h, 1), Top(h, 2), Top(h, 3), e.e1, e.e2, e.e3, a);
    }
  }

  lemma TopStep(z: real, c0: real, c1: real, c2: real, c3: real, e1: real, e2: real, e3: real, a: real)
    requires z == 0.0 && c0 == 1.0 && c1 == -e1 && c2 == e2 && c3 == -e3
    ensures MulSub(c0, a, z) == 1.0
    ensures MulSub(c1, a, c0) == -(e1 + a)
    ensures MulSub(c2, a, c1) == MulAdd(e2, a, e1)
    ensures MulSub(c3, a, c2) == -MulAdd(e3, a, e2)
  {
  }

  /** For a polynomial whose last listed coefficient is 1, the degree is
      its length less one and the power sums read the three coefficients
      below it. */
  lemma MonicPowerSums(h: Poly)
    requires |h| > 0 && Top(h, 0) == 1.0
    ensures PowerSums(h) == CoefficientSums(Top(h, 1), Top(h, 2), Top(h, 3))
  {
  }

  /** Newton's identities up to the third power. */
  lemma {:induction false} Newton(xs: seq<real>)
    ensures Powers(xs) == NewtonSums(ElementaryOf(xs))
    decreases |xs|
  {
    if |xs| > 0 {
      var ys := xs[..|xs| - 1];
      Newton(ys);
      var e := ElementaryOf(ys);
      NewtonStep(Powers(ys), e, xs[|xs| - 1]);
    }
  }

  /** The power sums Newton's identities give from e1, e2 and e3. */
  function NewtonSums(e: Elementary): Sums {
    CoefficientSums(-e.e1, e.e2, -e.e3)
  }

  lemma NewtonStep(p: Sums, e: Elementary, a: real)
    requires p == NewtonSums(e)
    ensures Sums(p.s1 + a, p.s2 + Sq(a), p.s3 + Cube(a))
         == NewtonSums(Elementary(e.e1 + a, MulAdd(e.e2, a, e.e1), MulAdd(e.e3, a, e.e2)))
  {
  }

  /** The power sums `_init_via_kernel_polynomial` reads off a monic
      kernel polynomial are the sums of x, x^2 and x^3 over its roots. */
  lemma PowerSumsOfRoots(xs: seq<real>)
    ensures PowerSums(FromRoots(xs)) == Powers(xs)
  {
    var h, e := FromRoots(xs), ElementaryOf(xs);
    TopCoefficients(xs);
    MonicPowerSums(h);
    Newton(xs);
    SignedCoefficients(PowerSums(h), Powers(xs), Top(h, 1), Top(h, 2), Top(h, 3), e);
  }

  lemma SignedCoefficients(p: Sums, q: Sums, c1: real, c2: real, c3: real, e: Elementary)
    requires c1 == -e.e1 && c2 == e.e2 && c3 == -e.e3
    requires p == CoefficientSums(c1, c2, c3) && q == NewtonSums(e)
    ensures p == q
  {
  }

  // ---------------------------------------------------------------------
  // Vélu's formulas

  function VeluT(a2: real, a4: real, n: real, s1: real, s2: real): real {
    3.0 * s2 + 2.0 * a2 * s1 + n * a4
  }

  function VeluW(a2: real, a4: real, a6: real, n: real, s1: real, s2: real, s3: real): real {
    5.0 * s3 + 4.0 * a2 * s2 + 3.0 * a4 * s1 + 2.0 * n * a6
  }

  function VeluA6(a2: real, a6: real, t: real, w: real): real {
    a6 - 4.0 * a2 * t - 7.0 * w
  }

  /** The Vélu step on the reduced curve, for a kernel polynomial of
      degree n with power sums s: t and w, then a4 - 5t and
      a6 - 4 a2 t - 7w. */
  function Velu(a: AInvariants, n: int, s: Sums): (r: AInvariants)
    ensures r.a1 == a.a1 && r.a2 == a.a2 && r.a3 == a.a3
  {
    VeluCurve(a, VeluPair(VeluT(a.a2, a.a4, n as real, s.s1, s.s2), VeluW(a.a2, a.a4, a.a6, n as real, s.s1, s.s2, s.s3)))
  }

  /** The curve Vélu's formulas give from t and w: a4 - 5t and
      a6 - 4 a2 t - 7w. */
  function VeluCurve(a: AInvariants, v: VeluPair): AInvariants {
    AInvariants(a.a1, a.a2, a.a3, a.a4 - 5.0 * v.t, VeluA6(a.a2, a.a6, v.t, v.w))
  }

  /** f(x) = x^3 + a2 x^2 + a4 x + a6, its derivative, and Vélu's
      per-abscissa contribution x f'(x) + 2 f(x) to w. */
  function Cubic(a2: real, a4: real, a6: real, x: real): real {
    x * x * x + a2 * x * x + a4 * x + a6
  }

  function Slope(a2: real, a4: real, x: real): real {
    3.0 * x * x + 2.0 * a2 * x + a4
  }

  function PointW(a2: real, a4: real, a6: real, x: real): real {
    x * Slope(a2, a4, x) + 2.0 * Cubic(a2, a4, a6, x)
  }

  datatype VeluPair = VeluPair(t: real, w: real)

  /** Vélu's sums over the roots xs of the kernel polynomial: t adds up
      f'(x) and w adds up x f'(x) + 2 f(x). A 2-torsion abscissa occurs
      once and gives t_Q = f'(x_Q), u_Q = 0; any other abscissa occurs
      twice and gives t_Q = 2 f'(x_Q), u_Q = 4 f(x_Q); so these are
      Vélu's t and w = sum of u_Q + x_Q t_Q on y^2 = f(x). */
  function VeluSums(a: AInvariants, xs: seq<real>): VeluPair
    decreases |xs|
  {
    if |xs| == 0 then VeluPair(0.0, 0.0)
    else
      var v := VeluSums(a, xs[..|xs| - 1]);
      var x := xs[|xs| - 1];
      VeluPair(v.t + Slope(a.a2, a.a4, x), v.w + PointW(a.a2, a.a4, a.a6, x))
  }

  /** The t and w computed from the power sums are Vélu's sums over the
      roots. */
  lemma {:induction false} VeluSumsArePowerSums(a: AInvariants, xs: seq<real>)
    ensures var p, n := Powers(xs), |xs| as real;
      VeluSums(a, xs) == VeluPair(VeluT(a.a2, a.a4, n, p.s1, p.s2), VeluW(a.a2, a.a4, a.a6, n, p.s1, p.s2, p.s3))
    decreases |xs|
  {
    if |xs| > 0 {
      var ys := xs[..|xs| - 1];
      VeluSumsArePowerSums(a, ys);
      var p, q := Powers(ys), Powers(xs);
      VeluStep(a.a2, a.a4, a.a6, |ys| as real, |xs| as real, p.s1, p.s2, p.s3, q.s1, q.s2, q.s3, xs[|xs| - 1]);
    }
  }

  lemma VeluStep(a2: real, a4: real, a6: real, n: real, m: real, s1: real, s2: real, s3: real,
                 s1': real, s2': real, s3': real, x: real)
    requires m == n + 1.0 && s1' == s1 + x && s2' == s2 + Sq(x) && s3' == s3 + Cube(x)
    ensures VeluT(a2, a4, m, s1', s2') == VeluT(a2, a4, n, s1, s2) + Slope(a2, a4, x)
    ensures VeluW(a2, a4, a6, m, s1', s2', s3') == VeluW(a2, a4, a6, n, s1, s2, s3) + PointW(a2, a4, a6, x)
  {
  }

  /** On the kernel polynomial of a subgroup, the step of
      `_init_via_kernel_polynomial` is Vélu's formula summed over the
      points of the kernel. */
  lemma VeluOnRoots(a: AInvariants, xs: seq<real>)
    ensures var h, v := FromRoots(xs), VeluSums(a, xs);
      Velu(a, PolyDegree(h), PowerSums(h)) == VeluCurve(a, v)
  {
    PowerSumsOfRoots(xs);
    VeluSumsArePowerSums(a, xs);
  }

  /** For a kernel of order 2 generated by (x0, 0), the step gives the
      classical 2-isogeny: t = f'(x0) and w = x0 f'(x0). */
  lemma VeluTwoTorsion(a: AInvariants, x0: real)
    requires Cubic(a.a2, a.a4, a.a6, x0) == 0.0
    ensures var t := Slope(a.a2, a.a4, x0);
      && PointW(a.a2, a.a4, a.a6, x0) == x0 * t
      && Velu(a, 1, PowerSums(FromRoots([x0]))) == VeluCurve(a, VeluPair(t, x0 * t))
  {
    VeluOnRoots(a, [x0]);
    assert [x0][..0] == [];
    PowerSumsOfRoots([x0]);
  }

  // ---------------------------------------------------------------------
  // The isogeny

  /** The state `_init_via_kernel_polynomial` leaves: the kernel
      polynomial h, `_pre_urst`, the codomain, `urst` and `urst_inv`. */
  datatype EllipticIsogeny = EllipticIsogeny(h: Poly, preUrst: Urst, codomain: AInvariants, urst: Urst, urstInv: Urst)

  /** The curve Vélu's formulas give, changed back by `_pre_urst`. */
  function NormalizedCodomain(pre: Urst, reduced: AInvariants, h: Poly): AInvariants
    requires pre.u == 1.0
  {
    ChangeCoef(Velu(reduced, PolyDegree(h), PowerSums(h)), pre).value
  }

  /** The default `urst` (1, 0, 0, 0) is its own `urst_inv`. */
  lemma IdentityInverse()
    ensures UrstInv(Identity) == Identity
  {
  }

  /** `_init_via_kernel_polynomial` without a `codomain` argument: the
      pre-reduction may raise, a given `urst` whose u has no inverse
      raises when the codomain is changed by it, and `EllipticCurve`
      raises when the codomain it is given is singular. */
  function InitViaKernel(a: AInvariants, h: Poly, urst: Option<Urst>, charTwo: bool): (r: Result<EllipticIsogeny>)
    ensures PreReduce(a, charTwo).Err? ==> r == Err(NotImplementedError("The characteristic 2 is not supported"))
  {
    match PreReduce(a, charTwo)
    case Err(e) => Err(e)
    case Ok((pre, reduced)) =>
      var back := NormalizedCodomain(pre, reduced, h);
      match urst
      case None =>
        if Discriminant(back) == 0.0 then Err(ArithmeticError(SingularCurve))
        else Ok(EllipticIsogeny(h, pre, back, Identity, Identity))
      case Some(w) =>
        match ChangeCoef(back, w)
        case Err(e) => Err(e)
        case Ok(c) =>
          if Discriminant(c) == 0.0 then Err(ArithmeticError(SingularCurve))
          else Ok(EllipticIsogeny(h, pre, c, w, UrstInv(w)))
  }

  /** The codomain `_init_via_kernel_polynomial` hands to `EllipticCurve`:
      the normalized Vélu curve, changed by `urst` when one is given. */
  function GivenCodomain(a: AInvariants, h: Poly, urst: Option<Urst>): AInvariants
    requires urst.Some? ==> urst.value.u != 0.0
  {
    var p := PreReduce(a, false).value;
    var back := NormalizedCodomain(p.0, p.1, h);
    if urst.Some? then ChangeCoef(back, urst.value).value else back
  }

  /** The errors, in the order the source raises them: characteristic 2,
      then a u with no inverse, then a singular codomain. */
  lemma InitErrors(a: AInvariants, h: Poly, urst: Option<Urst>, charTwo: bool)
    ensures var r := InitViaKernel(a, h, urst, charTwo);
      var reduces, invertible := PreReduce(a, charTwo).Ok?, urst.None? || urst.value.u != 0.0;
      && (r.Err? <==> !reduces || !invertible || Discriminant(GivenCodomain(a, h, urst)) == 0.0)
      && (reduces && !invertible ==> r == Err(ZeroDivisionError("u coefficient must be invertible.")))
      && (reduces && invertible && Discriminant(GivenCodomain(a, h, urst)) == 0.0 ==> r == Err(ArithmeticError(SingularCurve)))
  {
    if PreReduce(a, charTwo).Ok? {
      assert PreReduce(a, charTwo) == PreReduce(a, false);
    }
  }

  /** A kernel polynomial that is not the kernel of a subgroup can give a
      singular codomain: x + 2 on y^2 = x^3 - 15x - 350/13 gives y^2 = x^3,
      and the construction raises. */
  lemma SingularCodomain(a: AInvariants, h: Poly)
    requires a == AInvariants(0.0, 0.0, 0.0, -15.0, -350.0 / 13.0) && h == [2.0, 1.0]
    ensures Discriminant(a) != 0.0
    ensures NormalizedCodomain(Identity, a, h) == AInvariants(0.0, 0.0, 0.0, 0.0, 0.0)
    ensures InitViaKernel(a, h, None, false) == Err(ArithmeticError(SingularCurve))
  {
    assert PreReduce(a, false) == Ok((Identity, a));
    SingularNormalized(a, h);
    SingularDiscriminants(a, AInvariants(0.0, 0.0, 0.0, 0.0, 0.0));
    InitDefault(a, h, false);
  }

  lemma SingularNormalized(a: AInvariants, h: Poly)
    requires a == AInvariants(0.0, 0.0, 0.0, -15.0, -350.0 / 13.0) && h == [2.0, 1.0]
    ensures NormalizedCodomain(Identity, a, h) == AInvariants(0.0, 0.0, 0.0, 0.0, 0.0)
  {
    SingularPowerSums(h);
    SingularVelu(a, Sums(-2.0, 4.0, -8.0));
    ChangeIdentity(AInvariants(0.0, 0.0, 0.0, 0.0, 0.0));
  }

  lemma SingularPowerSums(h: Poly)
    requires h == [2.0, 1.0]
    ensures PolyDegree(h) == 1 && PowerSums(h) == Sums(-2.0, 4.0, -8.0)
  {
    assert Coef(h, 0) == 2.0 && Coef(h, -1) == 0.0 && Coef(h, -2) == 0.0;
  }

  lemma SingularVelu(a: AInvariants, p: Sums)
    requires a == AInvariants(0.0, 0.0, 0.0, -15.0, -350.0 / 13.0) && p == Sums(-2.0, 4.0, -8.0)
    ensures Velu(a, 1, p) == AInvariants(0.0, 0.0, 0.0, 0.0, 0.0)
  {
  }

  lemma SingularDiscriminants(a: AInvariants, c: AInvariants)
    requires a == AInvariants(0.0, 0.0, 0.0, -15.0, -350.0 / 13.0) && c == AInvariants(0.0, 0.0, 0.0, 0.0, 0.0)
    ensures Discriminant(a) != 0.0 && Discriminant(c) == 0.0
  {
  }

  /** `degree`: one more than the degree of the kernel polynomial. */
  function Degree(phi: EllipticIsogeny): int {
    PolyDegree(phi.h) + 1
  }

  /** `is_normalized`. */
  predicate IsNormalized(phi: EllipticIsogeny) {
    phi.urst.u == 1.0
  }

  /** Without a `urst` argument, when Vélu's curve changed back by
      `_pre_urst` is not singular, the isogeny keeps h and `_pre_urst`,
      has the identity as `urst` and `urst_inv`, and that curve is its
      codomain. */
  lemma InitDefault(a: AInvariants, h: Poly, charTwo: bool)
    requires PreReduce(a, charTwo).Ok?
    ensures var p := PreReduce(a, charTwo).value; var back := NormalizedCodomain(p.0, p.1, h);
      InitViaKernel(a, h, None, charTwo)
      == if Discriminant(back) == 0.0 then Err(ArithmeticError(SingularCurve))
         else Ok(EllipticIsogeny(h, p.0, back, Identity, Identity))
  {
  }

  /** Whenever the pre-reduction succeeds, the isogeny built without a
      `urst` argument exists exactly when its codomain is not singular,
      and then has degree deg h + 1, is normalized, and its `urst_inv` is
      the identity. */
  lemma DefaultIsogeny(a: AInvariants, h: Poly, charTwo: bool)
    requires PreReduce(a, charTwo).Ok?
    ensures var phi, p := InitViaKernel(a, h, None, charTwo), PreReduce(a, charTwo).value;
      && (phi.Ok? <==> Discriminant(NormalizedCodomain(p.0, p.1, h)) != 0.0)
      && (phi.Ok? ==> Degree(phi.value) == |h| && IsNormalized(phi.value) && phi.value.urstInv == Identity)
  {
    InitDefault(a, h, charTwo);
    var p := PreReduce(a, charTwo).value;
    var phi := EllipticIsogeny(h, p.0, NormalizedCodomain(p.0, p.1, h), Identity, Identity);
    assert Degree(phi) == |h| && IsNormalized(phi);
  }

  /** For the kernel polynomial of a subgroup whose non-zero points have
      abscissae xs, the default codomain, changed by the reduction, is
      the curve Vélu's sums over xs give from the reduced domain. */
  lemma DefaultCodomain(a: AInvariants, xs: seq<real>)
    ensures var phi := InitViaKernel(a, FromRoots(xs), None, false);
      var w := Reduction(a);
      var reduced := ChangeCoef(a, w).value;
      var v := VeluSums(reduced, xs);
      && PreReduce(a, false) == Ok((UrstInv(w), reduced))
      && ChangeCoef(NormalizedCodomain(UrstInv(w), reduced, FromRoots(xs)), w) == Ok(VeluCurve(reduced, v))
      && (phi.Ok? ==> phi.value.preUrst == UrstInv(w)
                      && phi.value.codomain == NormalizedCodomain(UrstInv(w), reduced, FromRoots(xs)))
  {
    var h := FromRoots(xs);
    var w := Reduction(a);
    var reduced := ChangeCoef(a, w).value;
    PreReduceIsChange(a);
    InitDefault(a, h, false);
    var vc := Velu(reduced, PolyDegree(h), PowerSums(h));
    VeluOnRoots(reduced, xs);
    CodomainBack(vc, w);
    assert NormalizedCodomain(UrstInv(w), reduced, h) == ChangeCoef(vc, UrstInv(w)).value;
  }

  /** Changing `NormalizedCodomain` by the reduction undoes `_pre_urst`. */
  lemma CodomainBack(c: AInvariants, w: Urst)
    requires w.u == 1.0
    ensures ChangeCoef(ChangeCoef(c, UrstInv(w)).value, w) == Ok(c)
  {
    var pre := UrstInv(w);
    assert UrstInv(pre) == w;
    ChangeInverse(c, pre);
  }

  /** The trivial kernel, h = 1, gives the identity isogeny: the codomain
      is the domain itself, an elliptic curve. */
  lemma TrivialKernel(a: AInvariants)
    requires Discriminant(a) != 0.0
    ensures InitViaKernel(a, [1.0], None, false) == Ok(EllipticIsogeny([1.0], UrstInv(Reduction(a)), a, Identity, Identity))
  {
    var w := Reduction(a);
    var reduced := ChangeCoef(a, w).value;
    var back := NormalizedCodomain(UrstInv(w), reduced, [1.0]);
    DefaultCodomain(a, []);
    PreReduceIsChange(a);
    InitDefault(a, [1.0], false);
    assert ChangeCoef(back, w) == Ok(reduced);
    ChangeInverse(back, w);
    assert back == a;
  }

  /** With a `urst` argument w: the isogeny is normalized exactly when u
      is 1, and `urst_inv` maps its codomain back to the codomain of the
      isogeny built without w. */
  lemma GivenUrst(a: AInvariants, h: Poly, w: Urst, charTwo: bool)
    requires InitViaKernel(a, h, Some(w), charTwo).Ok?
    ensures var phi := InitViaKernel(a, h, Some(w), charTwo).value;
      && phi.urst == w && phi.urstInv == UrstInv(w)
      && (IsNormalized(phi) <==> w.u == 1.0)
      && ChangeCoef(phi.codomain, phi.urstInv) == Ok(NormalizedCodomain(PreReduce(a, charTwo).value.0, PreReduce(a, charTwo).value.1, h))
  {
    var pre := PreReduce(a, charTwo).value;
    ChangeInverse(NormalizedCodomain(pre.0, pre.1, h), w);
  }

  /** The documented 2-isogeny from y^2 = x^3 + x with kernel (0, 0): its
      kernel polynomial is x, the degree 2 and the codomain y^2 = x^3 - 4x. */
  lemma TwoIsogenyDocumented(a: AInvariants, h: Poly)
    requires a == AInvariants(0.0, 0.0, 0.0, 1.0, 0.0) && h == [0.0, 1.0]
    ensures var phi := InitViaKernel(a, h, None, false);
      && phi.Ok? && Degree(phi.value) == 2
      && phi.value.codomain == AInvariants(0.0, 0.0, 0.0, -4.0, 0.0)
  {
    assert PreReduce(a, false) == Ok((Identity, a));
    TwoIsogenyCodomain(a, h);
    A4Discriminant(-4.0);
    InitDefault(a, h, false);
  }

  lemma TwoIsogenyCodomain(a: AInvariants, h: Poly)
    requires a == AInvariants(0.0, 0.0, 0.0, 1.0, 0.0) && h == [0.0, 1.0]
    ensures NormalizedCodomain(Identity, a, h) == AInvariants(0.0, 0.0, 0.0, -4.0, 0.0)
  {
    XPowerSums();
    TwoIsogenyVelu();
    ChangeIdentity(AInvariants(0.0, 0.0, 0.0, -4.0, 0.0));
  }

  lemma TwoIsogenyVelu()
    ensures Velu(AInvariants(0.0, 0.0, 0.0, 1.0, 0.0), 1, Sums(0.0, 0.0, 0.0)) == AInvariants(0.0, 0.0, 0.0, -4.0, 0.0)
  {
  }

  lemma XPowerSums()
    ensures PolyDegree([0.0, 1.0]) == 1 && PowerSums([0.0, 1.0]) == Sums(0.0, 0.0, 0.0)
  {
    var h: Poly := [0.0, 1.0];
    assert Coef(h, 0) == 0.0 && Coef(h, -1) == 0.0 && Coef(h, -2) == 0.0;
  }

  /** The documented degree: h = x^3 + x gives an isogeny of degree 4. */
  lemma DegreeDocumented(a: AInvariants, h: Poly)
    requires a == AInvariants(0.0, 0.0, 0.0, 1.0, 0.0) && h == [0.0, 1.0, 0.0, 1.0]
    ensures InitViaKernel(a, h, None, false).Ok? && Degree(InitViaKernel(a, h, None, false).value) == 4
  {
    assert PreReduce(a, false) == Ok((Identity, a));
    DegreeFourCodomain(a, h);
    A4Discriminant(16.0);
    DefaultIsogeny(a, h, false);
  }

  lemma DegreeFourCodomain(a: AInvariants, h: Poly)
    requires a == AInvariants(0.0, 0.0, 0.0, 1.0, 0.0) && h == [0.0, 1.0, 0.0, 1.0]
    ensures NormalizedCodomain(Identity, a, h) == AInvariants(0.0, 0.0, 0.0, 16.0, 0.0)
  {
    DegreeFourPowerSums(h);
    DegreeFourVelu(a, Sums(0.0, -2.0, 0.0));
    ChangeIdentity(AInvariants(0.0, 0.0, 0.0, 16.0, 0.0));
  }

  lemma DegreeFourPowerSums(h: Poly)
    requires h == [0.0, 1.0, 0.0, 1.0]
    ensures PolyDegree(h) == 3 && PowerSums(h) == Sums(0.0, -2.0, 0.0)
  {
    assert Coef(h, 2) == 0.0 && Coef(h, 1) == 1.0 && Coef(h, 0) == 0.0;
  }

  lemma DegreeFourVelu(a: AInvariants, p: Sums)
    requires a == AInvariants(0.0, 0.0, 0.0, 1.0, 0.0) && p == Sums(0.0, -2.0, 0.0)
    ensures Velu(a, 3, p) == AInvariants(0.0, 0.0, 0.0, 16.0, 0.0)
  {
  }

  /** The curve y^2 = x^3 + a4 x has discriminant -64 a4^3. */
  lemma A4Discriminant(a4: real)
    ensures Discriminant(AInvariants(0.0, 0.0, 0.0, a4, 0.0)) == -64.0 * (a4 * a4 * a4)
  {
  }

  /** The documented normalizations: with kernel polynomial x the
      isogeny is normalized by default and not with urst = (3, 0, 0, 0). */
  lemma NormalizationDocumented(a: AInvariants, h: Poly, w: Urst)
    requires a == AInvariants(0.0, 0.0, 0.0, 1.0, 0.0) && h == [0.0, 1.0] && w == Urst(3.0, 0.0, 0.0, 0.0)
    ensures InitViaKernel(a, h, None, false).Ok? && IsNormalized(InitViaKernel(a, h, None, false).value)
    ensures InitViaKernel(a, h, Some(w), false).Ok? && !IsNormalized(InitViaKernel(a, h, Some(w), false).value)
  {
    DefaultNormalized(a, h);
    GivenNotNormalized(a, h, w);
  }

  lemma DefaultNormalized(a: AInvariants, h: Poly)
    requires a == AInvariants(0.0, 0.0, 0.0, 1.0, 0.0) && h == [0.0, 1.0]
    ensures InitViaKernel(a, h, None, false).Ok? && IsNormalized(InitViaKernel(a, h, None, false).value)
  {
    TwoIsogenyDocumented(a, h);
    assert PreReduce(a, false).Ok?;
    DefaultIsogeny(a, h, false);
  }

  lemma GivenNotNormalized(a: AInvariants, h: Poly, w: Urst)
    requires a == AInvariants(0.0, 0.0, 0.0, 1.0, 0.0) && h == [0.0, 1.0] && w == Urst(3.0, 0.0, 0.0, 0.0)
    ensures InitViaKernel(a, h, Some(w), false).Ok? && !IsNormalized(InitViaKernel(a, h, Some(w), false).value)
  {
    assert PreReduce(a, false) == Ok((Identity, a));
    TwoIsogenyCodomain(a, h);
    var c, c' := AInvariants(0.0, 0.0, 0.0, -4.0, 0.0), AInvariants(0.0, 0.0, 0.0, -4.0 / 81.0, 0.0);
    ScaledByThree(c, w);
    A4Discriminant(-4.0 / 81.0);
    InitGiven(a, h, w, c, c');
  }

  /** With a `urst` argument w and a non-singular changed codomain c', the
      isogeny has codomain c', `urst` w and `urst_inv` its inverse. */
  lemma InitGiven(a: AInvariants, h: Poly, w: Urst, c: AInvariants, c': AInvariants)
    requires PreReduce(a, false) == Ok((Identity, a)) && NormalizedCodomain(Identity, a, h) == c
    requires ChangeCoef(c, w) == Ok(c') && Discriminant(c') != 0.0
    ensures InitViaKernel(a, h, Some(w), false) == Ok(EllipticIsogeny(h, Identity, c', w, UrstInv(w)))
  {
  }

  lemma ScaledByThree(c: AInvariants, w: Urst)
    requires c == AInvariants(0.0, 0.0, 0.0, -4.0, 0.0) && w == Urst(3.0, 0.0, 0.0, 0.0)
    ensures ChangeCoef(c, w) == Ok(AInvariants(0.0, 0.0, 0.0, -4.0 / 81.0, 0.0))
  {
    ShiftZero(c);
  }
}
