/** A node of an OM tree (frame.py `Frame`): its place in the tree with the
    ramification and inertia degrees accumulated along the path from the root,
    the search for an element of prescribed valuation (`find_psi`), and the
    seeding of a frame with an approximation phi: the phi-expansion of Phi,
    its Newton polygon of higher order, and the loop of single-factor lifting.
    The p-adic coefficient arithmetic is left abstract: coefficients are exact
    integers, and valuations of expansion coefficients are supplied by the
    caller. */
module OmFrame {
  import opened Outcomes
  import opened Polynomials
  import NewtonPolygon

  // ---------------------------------------------------------------------
  // Rationals, as Sage's `Rational` presents them

  /** A fraction with positive denominator, not necessarily in lowest terms. */
  datatype Rat = Rat(num: int, den: int)

  predicate WellFormed(r: Rat) {
    r.den > 0
  }

  function RealOf(r: Rat): real
    requires WellFormed(r)
  {
    (r.num as real) / (r.den as real)
  }

  function Abs(n: int): nat {
    if n < 0 then -n else n
  }

  function Gcd(a: nat, b: nat): nat
    decreases b
  {
    if b == 0 then a else Gcd(b, a % b)
  }

  /** A nonzero multiple of m is at least m in absolute value. */
  lemma {:induction false} MulBounds(j: int, m: int)
    requires m > 0
    ensures j >= 1 ==> j * m >= m
    ensures j <= -1 ==> j * m <= -m
  {
    if j >= 1 {
      assert j * m - m == (j - 1) * m;
    } else if j <= -1 {
      assert j * m + m == (j + 1) * m;
    }
  }

  lemma {:induction false} MultipleMod(a: int, k: int, m: int)
    requires m > 0 && a == k * m
    ensures a % m == 0
  {
    var q, r := a / m, a % m;
    assert a == q * m + r;
    assert (k - q) * m == r;
    MulBounds(k - q, m);
  }

  /** The greatest common divisor divides both arguments and is positive when
      one of them is. */
  lemma {:induction false} GcdDivides(a: nat, b: nat)
    ensures Gcd(a, b) > 0 <==> a > 0 || b > 0
    ensures Gcd(a, b) > 0 ==> a % Gcd(a, b) == 0 && b % Gcd(a, b) == 0
    decreases b
  {
    if b > 0 {
      GcdDivides(b, a % b);
      GcdStep(a, b, Gcd(b, a % b));
    }
  }

  lemma {:induction false} GcdStep(a: nat, b: nat, g: nat)
    requires b > 0 && g > 0 && b % g == 0 && (a % b) % g == 0
    ensures a % g == 0
  {
    var m, n, t := b / g, (a % b) / g, a / b;
    assert b == m * g && a % b == n * g;
    assert a == t * b + a % b;
    assert a == (t * m + n) * g;
    MultipleMod(a, t * m + n, g);
  }

  /** The denominator of r in lowest terms (Sage `denom()`). */
  function Denom(r: Rat): (d: nat)
    requires WellFormed(r)
    ensures d >= 1
  {
    GcdDivides(Abs(r.num), r.den);
    var g := Gcd(Abs(r.num), r.den);
    assert r.den == (r.den / g) * g;
    MulBounds(r.den / g, g);
    r.den / g
  }

  /** The numerator of r in lowest terms (Sage `numer()`). */
  function Numer(r: Rat): int
    requires WellFormed(r)
  {
    GcdDivides(Abs(r.num), r.den);
    r.num / Gcd(Abs(r.num), r.den)
  }

  lemma {:induction false} DenomOfZero(r: Rat)
    requires WellFormed(r) && r.num == 0
    ensures Denom(r) == 1
  {
    assert Gcd(0, r.den) == Gcd(r.den, 0) == r.den;
  }

  function IntRat(n: int): Rat {
    Rat(n, 1)
  }

  function Times(a: Rat, n: int): (r: Rat)
    requires WellFormed(a)
    ensures WellFormed(r) && RealOf(r) == RealOf(a) * (n as real)
  {
    Rat(a.num * n, a.den)
  }

  /** a - s * b. */
  function MinusMultiple(a: Rat, s: int, b: Rat): (r: Rat)
    requires WellFormed(a) && WellFormed(b)
    ensures WellFormed(r)
  {
    Rat(a.num * b.den - s * b.num * a.den, a.den * b.den)
  }

  lemma {:induction false} MinusMultipleValue(a: Rat, s: int, b: Rat)
    requires WellFormed(a) && WellFormed(b)
    ensures RealOf(MinusMultiple(a, s, b)) == RealOf(a) - (s as real) * RealOf(b)
  {
    var an, ad, bn, bd := a.num as real, a.den as real, b.num as real, b.den as real;
    assert RealOf(MinusMultiple(a, s, b)) == (an * bd - (s as real) * bn * ad) / (ad * bd);
    assert (an * bd) / (ad * bd) == an / ad;
    assert ((s as real) * bn * ad) / (ad * bd) == (s as real) * (bn / bd);
  }

  /** a / b, with the sign moved to the numerator. */
  function Quotient(a: Rat, b: Rat): (r: Rat)
    requires WellFormed(a) && WellFormed(b) && b.num != 0
    ensures WellFormed(r) && RealOf(r) * RealOf(b) == RealOf(a)
  {
    QuotientValue(a, b);
    if b.num > 0 then Rat(a.num * b.den, a.den * b.num)
    else Rat(-a.num * b.den, a.den * -b.num)
  }

  /** The least t in [from, m) with d * t = 1 modulo m. */
  function InverseModFrom(d: int, m: nat, from: nat): (t: Option<nat>)
    requires m >= 2
    ensures t.Some? ==> from <= t.value < m && (d * t.value) % m == 1
    ensures t.None? ==> forall u :: from <= u < m ==> (d * u) % m != 1
    decreases m - from
  {
    if from >= m then None
    else if (d * from) % m == 1 then Some(from)
    else InverseModFrom(d, m, from + 1)
  }

  /** Sage `Rational.__mod__` by an integer m >= 2: the residue of the
      numerator times the inverse of the denominator, or ZeroDivisionError
      when the denominator has no inverse modulo m. */
  function RatMod(x: Rat, m: nat): (r: Result<nat>)
    requires WellFormed(x) && m >= 2
    ensures r.Ok? ==> r.value < m
  {
    match InverseModFrom(Denom(x) % m, m, 0)
    case None => Err(ZeroDivisionError("inverse does not exist"))
    case Some(t) => Ok((Numer(x) % m * t) % m)
  }

  /** x mod m is the residue s with s * denominator = numerator modulo m, and
      it is an error exactly when the denominator has no inverse modulo m. */
  lemma {:induction false} RatModSound(x: Rat, m: nat)
    requires WellFormed(x) && m >= 2
    ensures RatMod(x, m).Ok? ==> (RatMod(x, m).value * Denom(x) - Numer(x)) % m == 0
    ensures RatMod(x, m).Err? <==> forall u :: 0 <= u < m ==> (Denom(x) % m * u) % m != 1
  {
    match InverseModFrom(Denom(x) % m, m, 0)
    case None =>
    case Some(t) =>
      ModInverseResidue(Numer(x), Denom(x), m, t);
  }

  /** With d * t = 1 modulo m, s = (n mod m) * t mod m solves s * d = n
      modulo m. */
  lemma {:induction false} ModInverseResidue(n: int, d: int, m: nat, t: nat)
    requires m >= 2 && ((d % m) * t) % m == 1
    ensures ((((n % m) * t) % m) * d - n) % m == 0
  {
    var s := ((n % m) * t) % m;
    var a, b := n % m, d % m;
    assert n == (n / m) * m + a;
    assert d == (d / m) * m + b;
    var k1 := (a * t) / m;
    assert s == a * t - k1 * m;
    var k2 := (b * t) / m;
    assert b * t == k2 * m + 1;
    calc {
      s * d - n;
      (a * t - k1 * m) * ((d / m) * m + b) - ((n / m) * m + a);
      a * t * (d / m) * m + a * (b * t) - k1 * m * ((d / m) * m + b) - (n / m) * m - a;
      a * t * (d / m) * m + a * (k2 * m + 1) - k1 * m * ((d / m) * m + b) - (n / m) * m - a;
      (a * t * (d / m) + a * k2 - k1 * ((d / m) * m + b) - n / m) * m;
    }
    MultipleMod(s * d - n, a * t * (d / m) + a * k2 - k1 * ((d / m) * m + b) - n / m, m);
  }

  lemma {:induction false} QuotientValue(a: Rat, b: Rat)
    requires WellFormed(a) && WellFormed(b) && b.num != 0
    ensures b.num > 0 ==> RealOf(Rat(a.num * b.den, a.den * b.num)) * RealOf(b) == RealOf(a)
    ensures b.num < 0 ==> RealOf(Rat(-a.num * b.den, a.den * -b.num)) * RealOf(b) == RealOf(a)
  {
    var an, ad, bn, bd := a.num as real, a.den as real, b.num as real, b.den as real;
    assert (an * bd) / (ad * bn) * (bn / bd) == an / ad;
    assert (-an * bd) / (ad * -bn) == (an * bd) / (ad * bn);
  }

  /** A rational with positive denominator. */
  type Q = r: Rat | WellFormed(r) witness Rat(0, 1)

  // ---------------------------------------------------------------------
  // The OM tree

  /** What a frame knows of the associated factor it was created from
      (frame.py `prev`): the frame of its segment, the segment's slope and
      ramification increment `Eplus`, and the factor's inertia increment
      `Fplus`. */
  datatype Link = Link(parent: Node, slope: Q, eplus: int, fplus: int)

  /** The tree bookkeeping of a frame: the link to its parent (None at a
      root), the ramification index E, the inertia degree F, the depth in
      the tree and the iteration counter. */
  datatype Node = Node(prev: Option<Link>, e: int, f: int, depth: int, iteration: int)

  /** frame.py `Frame.__init__`: a root has E = F = 1 and depth 0; a child
      multiplies its parent's E by Eplus and F by Fplus and is one level
      deeper. */
  function NewNode(prev: Option<Link>, iterationCount: int): (n: Node)
    ensures n.prev == prev && n.iteration == iterationCount + 1
  {
    match prev
    case None => Node(None, 1, 1, 0, iterationCount + 1)
    case Some(l) => Node(prev, l.parent.e * l.eplus, l.parent.f * l.fplus, l.parent.depth + 1, iterationCount + 1)
  }

  /** Every node on the path to the root was made by NewNode. */
  predicate Built(n: Node)
    decreases n
  {
    n == NewNode(n.prev, n.iteration - 1) &&
    (n.prev.Some? ==> Built(n.prev.value.parent))
  }

  /** frame.py `is_first`. */
  function IsFirst(n: Node): (r: bool)
    ensures r <==> n.prev.None?
  {
    n.prev.None?
  }

  /** frame.py `prev_frame`: the frame of the segment of the associated
      factor, or None at a root. */
  function PrevFrame(n: Node): (r: Option<Node>)
    ensures r.None? <==> IsFirst(n)
    ensures r.Some? ==> r.value.prev == n.prev.value.parent.prev
    ensures r.Some? ==> r.value < n
  {
    match n.prev
    case None => None
    case Some(l) => Some(l.parent)
  }

  /** frame.py `root`. */
  function Root(n: Node): (r: Node)
    ensures IsFirst(r)
    decreases n
  {
    if IsFirst(n) then n else Root(PrevFrame(n).value)
  }

  /** The links from n up to its root, nearest first. */
  function Links(n: Node): seq<Link>
    decreases n
  {
    match n.prev
    case None => []
    case Some(l) => [l] + Links(l.parent)
  }

  function ProductOf(xs: seq<int>): int {
    if |xs| == 0 then 1 else xs[0] * ProductOf(xs[1..])
  }

  function Eplus(ls: seq<Link>): seq<int> {
    seq(|ls|, i requires 0 <= i < |ls| => ls[i].eplus)
  }

  function Fplus(ls: seq<Link>): seq<int> {
    seq(|ls|, i requires 0 <= i < |ls| => ls[i].fplus)
  }

  /** The k-th ancestor of n, for k no larger than the number of links. */
  function Ancestor(n: Node, k: nat): Node
    requires k <= |Links(n)|
    decreases k
  {
    if k == 0 then n else Ancestor(n.prev.value.parent, k - 1)
  }

  /** In a tree made by NewNode, E and F are the products of the increments
      along the path from the root and the depth is the length of the path. */
  lemma {:induction false} BuiltDegrees(n: Node)
    requires Built(n)
    ensures n.e == ProductOf(Eplus(Links(n)))
    ensures n.f == ProductOf(Fplus(Links(n)))
    ensures n.depth == |Links(n)|
    decreases n
  {
    match n.prev
    case None =>
    case Some(l) =>
      BuiltDegrees(l.parent);
      assert Eplus(Links(n))[1..] == Eplus(Links(l.parent));
      assert Fplus(Links(n))[1..] == Fplus(Links(l.parent));
      assert n.e == l.parent.e * l.eplus;
  }

  /** The root is the ancestor as many levels up as there are links, and in
      a tree made by NewNode it has E = F = 1 and depth 0. */
  lemma {:induction false} RootIsTop(n: Node)
    ensures Root(n) == Ancestor(n, |Links(n)|)
    ensures Built(n) ==> Root(n).e == 1 && Root(n).f == 1 && Root(n).depth == 0
    decreases n
  {
    if n.prev.Some? {
      RootIsTop(n.prev.value.parent);
    }
  }

  // ---------------------------------------------------------------------
  // find_psi

  /** The element find_psi builds: at a root, the constant of valuation
      `val`; below a root, the parent's element times phi^exponent. */
  datatype Psi = Base(val: Q) | Term(coefficient: Psi, exponent: nat)

  /** The psimod of frame.py `find_psi` below link l: the denominator of
      slope * E(parent). */
  function PsiMod(l: Link): (m: nat)
    ensures m >= 1
  {
    Denom(Times(l.slope, l.parent.e))
  }

  /** The exponent of phi that find_psi chooses below link l: 0 when psimod
      is 1, otherwise (val * E(parent)) / (slope * E(parent)) mod psimod. */
  function Exponent(l: Link, val: Q): (r: Result<nat>)
    ensures r.Ok? ==> r.value < PsiMod(l) && (PsiMod(l) == 1 ==> r.value == 0)
  {
    var e := Times(l.slope, l.parent.e);
    if Denom(e) == 1 then Ok(0)
    else
      DenomNonZero(e);
      RatMod(Quotient(Times(val, l.parent.e), e), Denom(e))
  }

  /** The valuation find_psi asks the parent for: val itself when psimod is
      1, val - s * slope otherwise. */
  function Lowered(l: Link, val: Q, s: nat): (r: Q)
    requires PsiMod(l) == 1 ==> s == 0
    ensures RealOf(r) == RealOf(val) - (s as real) * RealOf(l.slope)
  {
    if PsiMod(l) == 1 then val
    else
      MinusMultipleValue(val, s, l.slope);
      MinusMultiple(val, s, l.slope)
  }

  /** The exponent chosen at one level and the valuation passed up. */
  datatype Step = Step(exponent: nat, lowered: Q)

  /** One level of frame.py `find_psi` below link l: the exponent s and the
      valuation val - s * slope that the parent is asked for. */
  function Descend(l: Link, val: Q): (r: Result<Step>)
    ensures r.Ok? ==> r.value.exponent < PsiMod(l) && (PsiMod(l) == 1 ==> r.value.exponent == 0)
    ensures r.Ok? ==> RealOf(r.value.lowered) == RealOf(val) - (r.value.exponent as real) * RealOf(l.slope)
  {
    match Exponent(l, val)
    case Err(x) => Err(x)
    case Ok(s) => Ok(Step(s, Lowered(l, val, s)))
  }

  /** frame.py `find_psi`: the denominator of `val` must divide E; a root
      returns the constant of valuation `val`; below a root the exponent s is
      chosen and the parent is asked for the lowered valuation. */
  function FindPsi(n: Node, val: Q): (r: Result<Psi>)
    decreases n
  {
    if n.e % Denom(val) != 0 then Err(ValueError("Denominator of given valuation does not divide E"))
    else match n.prev
      case None => Ok(Base(val))
      case Some(l) =>
        match Descend(l, val)
        case Err(x) => Err(x)
        case Ok(Step(s, val')) =>
          match FindPsi(l.parent, val')
          case Err(x) => Err(x)
          case Ok(c) => Ok(Term(c, s))
  }

  lemma {:induction false} DenomNonZero(r: Rat)
    requires WellFormed(r) && Denom(r) != 1
    ensures r.num != 0
  {
    if r.num == 0 {
      DenomOfZero(r);
    }
  }

  /** The valuation of a find_psi element at node n: the valuation at the
      root plus, at every level, the exponent times the slope of the link. */
  function ValuationOf(n: Node, psi: Psi): real
    decreases psi
  {
    match psi
    case Base(v) => RealOf(v)
    case Term(c, s) =>
      if n.prev.None? then 0.0
      else (s as real) * RealOf(n.prev.value.slope) + ValuationOf(n.prev.value.parent, c)
  }

  /** psi has one level per link from n to its root, and each exponent lies
      in [0, psimod) and is 0 when psimod is 1. */
  predicate Shaped(n: Node, psi: Psi)
    decreases psi
  {
    match psi
    case Base(_) => n.prev.None?
    case Term(c, s) =>
      n.prev.Some? &&
      var l := n.prev.value;
      s < PsiMod(l) && (PsiMod(l) == 1 ==> s == 0) && Shaped(l.parent, c)
  }

  function Levels(psi: Psi): nat {
    match psi
    case Base(_) => 0
    case Term(c, _) => 1 + Levels(c)
  }

  /** What find_psi returns has the requested valuation. */
  lemma {:induction false} FindPsiValuation(n: Node, val: Q)
    requires FindPsi(n, val).Ok?
    ensures ValuationOf(n, FindPsi(n, val).value) == RealOf(val)
    decreases n
  {
    if n.prev.Some? {
      var s, val', c := FindPsiStep(n, val);
      FindPsiValuation(n.prev.value.parent, val');
      ValuationStep(n, n.prev.value, val, s, val', c);
    }
  }

  lemma {:induction false} DescendValue(l: Link, val: Q, s: nat, val': Q)
    requires Descend(l, val) == Ok(Step(s, val'))
    ensures RealOf(val') == RealOf(val) - (s as real) * RealOf(l.slope)
  {
  }

  lemma {:induction false} ValuationStep(n: Node, l: Link, val: Q, s: nat, val': Q, c: Psi)
    requires n.prev == Some(l) && Descend(l, val) == Ok(Step(s, val'))
    requires ValuationOf(l.parent, c) == RealOf(val')
    ensures ValuationOf(n, Term(c, s)) == RealOf(val)
  {
    DescendValue(l, val, s, val');
    ValuationAdd(n, c, s, val, val');
  }

  lemma {:induction false} ValuationAdd(n: Node, c: Psi, s: nat, val: Q, val': Q)
    requires n.prev.Some?
    requires ValuationOf(n.prev.value.parent, c) == RealOf(val')
    requires RealOf(val') == RealOf(val) - (s as real) * RealOf(n.prev.value.slope)
    ensures ValuationOf(n, Term(c, s)) == RealOf(val)
  {
  }

  /** What find_psi returns has one level per link to the root and
      exponents reduced modulo psimod. */
  lemma {:induction false} FindPsiShaped(n: Node, val: Q)
    requires FindPsi(n, val).Ok?
    ensures Shaped(n, FindPsi(n, val).value)
    ensures Levels(FindPsi(n, val).value) == |Links(n)|
    decreases n
  {
    if n.prev.Some? {
      var s, val', c := FindPsiStep(n, val);
      FindPsiShaped(n.prev.value.parent, val');
    }
  }

  /** One level of a successful find_psi below a root. */
  lemma {:induction false} FindPsiStep(n: Node, val: Q) returns (s: nat, val': Q, c: Psi)
    requires n.prev.Some? && FindPsi(n, val).Ok?
    ensures var l := n.prev.value;
            Descend(l, val) == Ok(Step(s, val')) && FindPsi(l.parent, val') == Ok(c) &&
            FindPsi(n, val) == Ok(Term(c, s))
  {
    var l := n.prev.value;
    s, val' := Descend(l, val).value.exponent, Descend(l, val).value.lowered;
    c := FindPsi(l.parent, val').value;
  }

  /** find_psi rejects a valuation whose denominator does not divide E, and
      at a root returns the constant of valuation `val`. */
  lemma {:induction false} FindPsiRoot(n: Node, val: Q)
    ensures n.e % Denom(val) != 0 ==> FindPsi(n, val) == Err(ValueError("Denominator of given valuation does not divide E"))
    ensures n.prev.None? && n.e % Denom(val) == 0 ==> FindPsi(n, val) == Ok(Base(val))
  {
  }

  /** A root and, below it through a segment of slope 1/4 with Eplus = 4, a
      child with E = 4. */
  function ExampleLink(): Link {
    Link(NewNode(None, 0), Rat(1, 4), 4, 1)
  }

  function ExampleChild(): (n: Node)
    ensures n.e == 4 && n.prev == Some(ExampleLink())
  {
    NewNode(Some(ExampleLink()), 0)
  }

  lemma {:induction false} ExampleDescend()
    ensures Descend(ExampleLink(), Rat(7, 4)) == Ok(Step(3, Rat(16, 16)))
  {
    assert Gcd(1, 4) == 1 && Denom(Rat(1, 4)) == 4;
    assert Gcd(28, 4) == 4 && Denom(Rat(28, 4)) == 1 && Numer(Rat(28, 4)) == 7;
    assert RatMod(Rat(28, 4), 4) == Ok(3);
  }

  /** Valuation 7/4 at the child is the root constant of valuation 1 times
      phi^3. */
  lemma {:induction false} FindPsiExample()
    ensures FindPsi(ExampleChild(), Rat(7, 4)) == Ok(Term(Base(Rat(16, 16)), 3))
    ensures RealOf(Rat(16, 16)) == 1.0
  {
    var n, l := ExampleChild(), ExampleLink();
    assert Gcd(7, 4) == 1 && Denom(Rat(7, 4)) == 4;
    assert n.e % Denom(Rat(7, 4)) == 0;
    ExampleDescend();
    assert FindPsi(l.parent, Rat(16, 16)) == Ok(Base(Rat(16, 16))) by {
      assert Gcd(16, 16) == 16 && Denom(Rat(16, 16)) == 1;
      assert l.parent.prev == None;
    }
    assert FindPsi(n, Rat(7, 4)) == Ok(Term(Base(Rat(16, 16)), 3));
  }

  /** Valuation 3/8 at the child is refused: 8 does not divide E = 4. */
  lemma {:induction false} FindPsiRefused()
    ensures FindPsi(ExampleChild(), Rat(3, 8)) == Err(ValueError("Denominator of given valuation does not divide E"))
  {
    assert Gcd(3, 8) == 1 && Denom(Rat(3, 8)) == 8;
  }

  // ---------------------------------------------------------------------
  // The phi-expansion of Phi

  /** The value at x of the expansion es in powers of phi, where y is the
      value of phi at x: es[0](x) + es[1](x) * y + es[2](x) * y^2 + ... */
  function Recompose(es: seq<Poly>, y: int, x: int): int {
    if |es| == 0 then 0 else Eval(es[0], x) + y * Recompose(es[1..], y, x)
  }

  lemma {:induction false} RecomposeSnoc(es: seq<Poly>, r: Poly, y: int, x: int)
    ensures Recompose(es + [r], y, x) == Recompose(es, y, x) + Pow(y, |es|) * Eval(r, x)
    decreases |es|
  {
    if |es| == 0 {
      assert Recompose([r], y, x) == Eval(r, x) + y * Recompose([], y, x);
    } else {
      assert (es + [r])[1..] == es[1..] + [r];
      RecomposeSnoc(es[1..], r, y, x);
      SnocAlgebra(Eval(es[0], x), y, Recompose(es[1..], y, x), Pow(y, |es| - 1), Eval(r, x));
    }
  }

  lemma SnocAlgebra(e: int, y: int, a: int, p: int, b: int)
    ensures e + y * (a + p * b) == (e + y * a) + (y * p) * b
  {
    assert y * (a + p * b) == y * a + y * (p * b);
    assert y * (p * b) == (y * p) * b;
  }

  /** E = R + p * (a * y + b) is E = (R + p * b) + (y * p) * a. */
  lemma StepAlgebra(e: int, rc: int, p: int, q: int, a: int, y: int, b: int)
    requires e == rc + p * q && q == a * y + b
    ensures e == (rc + p * b) + (y * p) * a
  {
    assert p * q == p * (a * y) + p * b;
    assert p * (a * y) == (y * p) * a;
  }

  /** The loop of frame.py `seed`: while the quotient is nonzero and fewer
      than `length` coefficients are known (None standing for infinity),
      divide the quotient by phi and append the remainder. Returns the
      coefficients and the quotient left over. */
  function ExpansionLoop(q: Poly, phi: Poly, acc: seq<Poly>, length: Option<nat>): (r: (seq<Poly>, Poly))
    requires MonicNonConstant(phi)
    ensures |r.0| >= |acc| && r.0[..|acc|] == acc
    decreases |q|
  {
    if q != [] && (length.None? || length.value > |acc|) then
      var (q', rem) := QuoRem(q, phi);
      ExpansionLoop(q', phi, acc + [rem], length)
    else (acc, q)
  }

  /** The phi-expansion that `seed` computes: the remainder of Phi by phi,
      then the loop. */
  function Expansion(Phi: Poly, phi: Poly, length: Option<nat>): (seq<Poly>, Poly)
    requires MonicNonConstant(phi)
  {
    var (q, r) := QuoRem(Phi, phi);
    ExpansionLoop(q, phi, [r], length)
  }

  /** Dividing q = q' * phi + r once more extends the expansion by r. */
  lemma {:induction false} ExpansionStep(Phi: Poly, phi: Poly, acc: seq<Poly>, q: Poly, x: int)
    requires MonicNonConstant(phi)
    requires Eval(Phi, x) == Recompose(acc, Eval(phi, x), x) + Pow(Eval(phi, x), |acc|) * Eval(q, x)
    ensures var (q', r) := QuoRem(q, phi);
            Eval(Phi, x) == Recompose(acc + [r], Eval(phi, x), x) + Pow(Eval(phi, x), |acc + [r]|) * Eval(q', x)
  {
    var (q', r) := QuoRem(q, phi);
    var y := Eval(phi, x);
    QuoRemIdentity(q, phi, x);
    RecomposeSnoc(acc, r, y, x);
    StepAlgebra(Eval(Phi, x), Recompose(acc, y, x), Pow(y, |acc|), Eval(q, x), Eval(q', x), y, Eval(r, x));
    assert Pow(y, |acc + [r]|) == y * Pow(y, |acc|);
  }

  lemma {:induction false} ExpansionLoopIdentity(Phi: Poly, phi: Poly, q: Poly, acc: seq<Poly>, length: Option<nat>, x: int)
    requires MonicNonConstant(phi)
    requires Eval(Phi, x) == Recompose(acc, Eval(phi, x), x) + Pow(Eval(phi, x), |acc|) * Eval(q, x)
    requires forall i :: 0 <= i < |acc| ==> |acc[i]| < |phi|
    ensures var (es, rest) := ExpansionLoop(q, phi, acc, length);
            Eval(Phi, x) == Recompose(es, Eval(phi, x), x) + Pow(Eval(phi, x), |es|) * Eval(rest, x)
    ensures var (es, rest) := ExpansionLoop(q, phi, acc, length);
            forall i :: 0 <= i < |es| ==> |es[i]| < |phi|
    ensures var (es, rest) := ExpansionLoop(q, phi, acc, length);
            rest == [] || (length.Some? && |es| >= length.value)
    decreases |q|
  {
    if q != [] && (length.None? || length.value > |acc|) {
      var (q', r) := QuoRem(q, phi);
      ExpansionStep(Phi, phi, acc, q, x);
      ExpansionLoopIdentity(Phi, phi, q', acc + [r], length, x);
    }
  }

  lemma {:induction false} ExpansionStart(Phi: Poly, phi: Poly, x: int)
    requires MonicNonConstant(phi)
    ensures Eval(Phi, x) == Recompose([QuoRem(Phi, phi).1], Eval(phi, x), x) + Pow(Eval(phi, x), 1) * Eval(QuoRem(Phi, phi).0, x)
  {
    var q, r := QuoRem(Phi, phi).0, QuoRem(Phi, phi).1;
    var y := Eval(phi, x);
    QuoRemIdentity(Phi, phi, x);
    assert Recompose([r], y, x) == Eval(r, x) + y * Recompose([], y, x);
    StartAlgebra(Eval(Phi, x), Eval(q, x), y, Eval(r, x), Recompose([], y, x), Pow(y, 0));
  }

  lemma StartAlgebra(e: int, q: int, y: int, r: int, z: int, one: int)
    requires e == q * y + r && z == 0 && one == 1
    ensures e == (r + y * z) + (y * one) * q
  {
  }

  /** The phi-expansion recombines to Phi with the quotient left over, every
      coefficient has degree below that of phi, the first is the remainder of
      Phi by phi, and something is left over only when `length` cut the loop
      short. */
  lemma {:induction false} ExpansionIdentity(Phi: Poly, phi: Poly, length: Option<nat>, x: int)
    requires MonicNonConstant(phi)
    ensures var es, rest := Expansion(Phi, phi, length).0, Expansion(Phi, phi, length).1;
            Eval(Phi, x) == Recompose(es, Eval(phi, x), x) + Pow(Eval(phi, x), |es|) * Eval(rest, x)
    ensures var es := Expansion(Phi, phi, length).0;
            |es| >= 1 && es[0] == QuoRem(Phi, phi).1 && forall i :: 0 <= i < |es| ==> |es[i]| < |phi|
    ensures var es, rest := Expansion(Phi, phi, length).0, Expansion(Phi, phi, length).1;
            rest == [] || (length.Some? && |es| >= length.value)
  {
    var q, r := QuoRem(Phi, phi).0, QuoRem(Phi, phi).1;
    assert Expansion(Phi, phi, length) == ExpansionLoop(q, phi, [r], length);
    ExpansionStart(Phi, phi, x);
    ExpansionLoopIdentity(Phi, phi, q, [r], length, x);
    assert Expansion(Phi, phi, length).0[..1] == [r];
  }

  /** With `length` infinite the expansion is exact:
      Phi = es[0] + es[1] * phi + es[2] * phi^2 + ... */
  lemma {:induction false} ExpansionExact(Phi: Poly, phi: Poly, x: int)
    requires MonicNonConstant(phi)
    ensures Eval(Phi, x) == Recompose(Expansion(Phi, phi, None).0, Eval(phi, x), x)
  {
    ExpansionIdentity(Phi, phi, None, x);
    var es, rest := Expansion(Phi, phi, None).0, Expansion(Phi, phi, None).1;
    assert Eval(rest, x) == 0;
    MulZero(Pow(Eval(phi, x), |es|), Eval(rest, x));
  }

  lemma MulZero(a: int, b: int)
    requires b == 0
    ensures a * b == 0
  {
  }

  /** Stopping at `length` coefficients leaves no more than `length` of them
      (and always at least the first). */
  lemma {:induction false} ExpansionLength(q: Poly, phi: Poly, acc: seq<Poly>, n: nat)
    requires MonicNonConstant(phi) && |acc| <= n
    ensures |ExpansionLoop(q, phi, acc, Some(n)).0| <= n
    decreases |q|
  {
    if q != [] && n > |acc| {
      var (q', r) := QuoRem(q, phi);
      ExpansionLength(q', phi, acc + [r], n);
    }
  }

  /** frame.py `seed` as written: when phi has larger degree than Phi, the
      list starts with Phi before the remainder (which is Phi again) is
      appended. */
  function ExpansionAsWritten(Phi: Poly, phi: Poly, length: Option<nat>): (seq<Poly>, Poly)
    requires MonicNonConstant(phi)
  {
    var start: seq<Poly> := if |phi| > |Phi| then [Phi] else [];
    var (q, r) := QuoRem(Phi, phi);
    ExpansionLoop(q, phi, start + [r], length)
  }

  /** The expansion as written agrees with the phi-expansion unless phi has
      larger degree than Phi; then it is exactly [Phi, Phi], since the
      division leaves quotient zero and remainder Phi. */
  lemma {:induction false} ExpansionAsWrittenAgrees(Phi: Poly, phi: Poly, length: Option<nat>)
    requires MonicNonConstant(phi)
    ensures |phi| <= |Phi| ==> ExpansionAsWritten(Phi, phi, length) == Expansion(Phi, phi, length)
    ensures |phi| > |Phi| ==> ExpansionAsWritten(Phi, phi, length) == ([Phi, Phi], [])
  {
    var q, r := QuoRem(Phi, phi).0, QuoRem(Phi, phi).1;
    if |phi| > |Phi| {
      assert [Phi] + [r] == [Phi, Phi];
      assert ExpansionLoop(q, phi, [Phi, Phi], length) == ([Phi, Phi], []);
    } else {
      assert [] + [r] == [r];
    }
  }

  /** For Phi = 1 and phi = x the expansion as written is [1, 1], which
      recombines to 1 + x, not to Phi; the expansion without the extra
      leading Phi is [1]. */
  lemma {:induction false} ExpansionAsWrittenCounterexample()
    ensures ExpansionAsWritten([1], [0, 1], None) == ([[1], [1]], [])
    ensures Recompose([[1], [1]], Eval([0, 1], 1), 1) == 2 != Eval([1], 1)
    ensures Expansion([1], [0, 1], None) == ([[1]], [])
  {
    assert QuoRem([1], [0, 1]) == ([], [1]);
    var start: seq<Poly> := [[1]];
    assert start + [[1]] == [[1], [1]];
    assert ExpansionLoop([], [0, 1], [[1], [1]], None) == ([[1], [1]], []);
    assert ExpansionLoop([], [0, 1], [[1]], None) == ([[1]], []);
    assert Eval([1], 1) == 1 + 1 * Eval([], 1) == 1;
    assert Eval([0, 1], 1) == 0 + 1 * Eval([1], 1) == 1;
    assert Recompose([[1], [1]], 1, 1) == Eval([1], 1) + 1 * Recompose([[1]], 1, 1);
    assert Recompose([[1]], 1, 1) == Eval([1], 1) + 1 * Recompose([], 1, 1);
  }

  // ---------------------------------------------------------------------
  // The frame

  /** A frame of an OM tree for Phi: its tree bookkeeping, and once seeded
      with an approximation phi, the phi-expansion of Phi and its Newton
      polygon of higher order (or the error computing it raised). */
  class Frame {
    const Phi: Poly
    const node: Node
    /** The precision cap of the coefficient ring. */
    const cap: nat
    var phi: Option<Poly>
    var expansion: seq<Poly>
    var polygon: Result<seq<NewtonPolygon.Segment>>

    /** Once seeded, phi is monic of positive degree and the expansion starts
        with the remainder of Phi by phi. */
    ghost predicate Valid()
      reads this
    {
      phi.Some? ==>
        MonicNonConstant(phi.value) && |expansion| >= 1 &&
        expansion[0] == QuoRem(Phi, phi.value).1 &&
        forall i :: 0 <= i < |expansion| ==> |expansion[i]| < |phi.value|
    }

    /** frame.py `Frame.__init__`: an unseeded frame with the tree
        bookkeeping of NewNode. */
    constructor (Phi: Poly, prev: Option<Link>, iterationCount: int, cap: nat)
      ensures this.Phi == Phi && this.cap == cap && node == NewNode(prev, iterationCount)
      ensures phi.None? && expansion == [] && polygon == Err(AttributeError)
      ensures Valid()
    {
      this.Phi := Phi;
      this.cap := cap;
      node := NewNode(prev, iterationCount);
      phi := None;
      expansion := [];
      polygon := Err(AttributeError);
    }

    /** frame.py `seed`, as written: the phi-expansion of Phi, cut at
        `length` coefficients when that is finite, and [Phi, Phi] when phi
        has larger degree than Phi; then the Newton polygon of the
        valuations of its coefficients, with the leading segment of slope
        +infinity when the first coefficient is zero. */
    method Seed(newPhi: Poly, length: Option<nat>, valuation: Poly -> real)
      requires MonicNonConstant(newPhi)
      modifies this
      ensures phi == Some(newPhi) && expansion == ExpansionAsWritten(Phi, newPhi, length).0
      ensures polygon == NewtonPolygon.PolygonOf(NewtonPolygon.HullOf(Valuations(expansion, valuation)), expansion[0] == [], cap as real)
      ensures Valid()
    {
      var es: seq<Poly> := [];
      if |newPhi| > |Phi| {
        es := [Phi];
      }
      var q := QuoRem(Phi, newPhi).0;
      es := es + [QuoRem(Phi, newPhi).1];
      while q != [] && (length.None? || length.value > |es|)
        invariant ExpansionLoop(q, newPhi, es, length) == ExpansionAsWritten(Phi, newPhi, length)
        decreases |q|
      {
        es := es + [QuoRem(q, newPhi).1];
        q := QuoRem(q, newPhi).0;
      }
      assert ExpansionLoop(q, newPhi, es, length) == (es, q);
      ExpansionAsWrittenAgrees(Phi, newPhi, length);
      ExpansionIdentity(Phi, newPhi, length, 0);
      var a := Valuations(es, valuation);
      var poly := NewtonPolygon.ComputePolygon(a, es[0] == [], cap as real);
      phi, expansion, polygon := Some(newPhi), es, poly;
    }

    /** frame.py `phi_divides_Phi`: whether the first coefficient of the
        expansion is zero; an unseeded frame has no expansion. */
    function PhiDividesPhi(): (r: Result<bool>)
      reads this
      requires Valid()
      ensures phi.None? <==> r == Err(AttributeError)
      ensures phi.Some? ==> (r == Ok(true) <==> QuoRem(Phi, phi.value).1 == [])
    {
      if phi.None? then Err(AttributeError) else Ok(expansion[0] == [])
    }

    /** The control flow of frame.py `single_factor_lift`: phi itself when it
        divides Phi; otherwise the first two expansion coefficients must
        exist, a first correction `correct` is applied, and then Newton passes
        `improve` run with h = 2, 4, 8, ... while h is below the precision
        cap and the last pass changed phi. Returns the lifted factor and the
        number of passes. */
    method SingleFactorLift(correct: Poly -> Poly, improve: Poly -> Poly) returns (r: Result<Poly>, passes: nat)
      requires Valid()
      ensures phi.None? ==> r == Err(AttributeError) && passes == 0
      ensures phi.Some? && expansion[0] == [] ==> r == Ok(phi.value) && passes == 0
      ensures phi.Some? && expansion[0] != [] && |expansion| < 2 ==>
                r == Err(ValueError("need more than 1 value to unpack")) && passes == 0
      ensures phi.Some? && expansion[0] != [] && |expansion| >= 2 ==>
                && r == Ok(Iterate(improve, correct(phi.value), passes))
                && (passes == 0 || Pow2(passes) < cap)
                && (Pow2(passes + 1) >= cap ||
                    (passes >= 1 && Iterate(improve, correct(phi.value), passes) == Iterate(improve, correct(phi.value), passes - 1)))
                && forall k :: 1 <= k < passes ==>
                     Iterate(improve, correct(phi.value), k) != Iterate(improve, correct(phi.value), k - 1)
    {
      var divides := PhiDividesPhi();
      if divides.Err? {
        return Err(divides.exc), 0;
      }
      if divides.value {
        return Ok(phi.value), 0;
      }
      if |expansion| < 2 {
        return Err(ValueError("need more than 1 value to unpack")), 0;
      }
      var start := correct(phi.value);
      var cur := start;
      var h: nat := 2;
      var prior: Option<Poly> := None;
      passes := 0;
      while h < cap && Some(cur) != prior
        invariant h == Pow2(passes + 1)
        invariant cur == Iterate(improve, start, passes)
        invariant passes == 0 <==> prior.None?
        invariant passes >= 1 ==> prior == Some(Iterate(improve, start, passes - 1)) && Pow2(passes) < cap
        invariant forall k :: 1 <= k < passes ==> Iterate(improve, start, k) != Iterate(improve, start, k - 1)
        decreases cap - h
      {
        prior := Some(cur);
        cur := improve(cur);
        h := 2 * h;
        passes := passes + 1;
      }
      r := Ok(cur);
    }
  }

  /** The valuations of the coefficients of an expansion. */
  function Valuations(es: seq<Poly>, valuation: Poly -> real): (a: seq<real>)
    ensures |a| == |es| && forall i :: 0 <= i < |es| ==> a[i] == valuation(es[i])
  {
    seq(|es|, i requires 0 <= i < |es| => valuation(es[i]))
  }

  /** When the remainder of Phi by phi is zero, phi divides Phi: Phi is the
      quotient times phi everywhere. */
  lemma DividesWhenRemainderZero(Phi: Poly, phi: Poly, x: int)
    requires MonicNonConstant(phi) && QuoRem(Phi, phi).1 == []
    ensures Eval(Phi, x) == Eval(QuoRem(Phi, phi).0, x) * Eval(phi, x)
  {
    QuoRemIdentity(Phi, phi, x);
  }

  /** f applied k times to x. */
  function Iterate(f: Poly -> Poly, x: Poly, k: nat): Poly
  {
    if k == 0 then x else f(Iterate(f, x, k - 1))
  }

  function Pow2(k: nat): (p: nat)
    ensures p >= 1
  {
    if k == 0 then 1 else 2 * Pow2(k - 1)
  }

  /** The least k with 2^k >= n. */
  function CeilLog2(n: nat): (k: nat)
    ensures Pow2(k) >= n
    ensures n >= 2 ==> k >= 1 && Pow2(k - 1) < n
    decreases n
  {
    if n <= 1 then 0 else 1 + CeilLog2((n + 1) / 2)
  }

  lemma {:induction false} Pow2Monotone(j: nat, k: nat)
    requires j <= k
    ensures Pow2(j) <= Pow2(k)
    decreases k
  {
    if j < k {
      Pow2Monotone(j, k - 1);
    }
  }

  /** Every pass of the lifting loop runs with 2^passes below the cap, so
      there are fewer than ceil(log2 cap) of them. */
  lemma LiftPassBound(passes: nat, cap: nat)
    requires passes == 0 || Pow2(passes) < cap
    ensures passes <= CeilLog2(cap)
    ensures passes >= 1 ==> passes < CeilLog2(cap)
  {
    if passes >= 1 && passes >= CeilLog2(cap) {
      Pow2Monotone(CeilLog2(cap), passes);
    }
  }
}
