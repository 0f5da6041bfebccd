/** The dictionary arithmetic of the Poisson vertex algebra of a quotient
    (src/sage/algebras/vertex_algebras/poisson_vertex_algebra.py): an
    element is a dictionary from conformal weight to a dictionary from Li
    filtration degree to an element of that graded part; `partmultiply`
    adds exponent vectors of partitions position by position. A graded part
    element is modelled by an integer coefficient. */
module PoissonVertex {
  import opened Outcomes

  // ---------------------------------------------------------------------
  // partmultiply

  /** A partition as its exponent vector: e[i] is the number of parts equal
      to i + 1. */
  type Exp = seq<nat>

  /** The number of parts equal to i + 1. */
  function Mult(e: Exp, i: nat): nat {
    if i < |e| then e[i] else 0
  }

  /** The size of the partition: the sum of its parts. */
  function Size(e: Exp): nat
    decreases |e|
  {
    if |e| == 0 then 0 else Size(e[..|e| - 1]) + |e| * e[|e| - 1]
  }

  /** `to_exp(m)`: the exponent vector padded with zeros to length m. */
  function Padded(e: Exp, m: nat): (r: Exp)
    requires |e| <= m
    ensures |r| == m && forall i :: 0 <= i < m ==> r[i] == Mult(e, i)
  {
    e + seq(m - |e|, _ => 0)
  }

  /** `Partition(exp=...)`: trailing zero multiplicities do not count. */
  function Trim(e: Exp): (r: Exp)
    ensures |r| <= |e| && forall i: nat :: Mult(r, i) == Mult(e, i)
    ensures |r| == 0 || r[|r| - 1] != 0
    decreases |e|
  {
    if |e| == 0 then e
    else if e[|e| - 1] == 0 then
      var r := Trim(e[..|e| - 1]);
      assert forall i: nat :: Mult(e, i) == Mult(e[..|e| - 1], i);
      r
    else e
  }

  function Max(a: nat, b: nat): nat {
    if a < b then b else a
  }

  /** Position by position sum of the two exponent vectors. */
  function PartMultiplyOne(e1: Exp, e2: Exp): (r: Exp)
    ensures forall i: nat :: Mult(r, i) == Mult(e1, i) + Mult(e2, i)
    ensures |r| == 0 || r[|r| - 1] != 0
  {
    var m := Max(|e1|, |e2|);
    var l1, l2 := Padded(e1, m), Padded(e2, m);
    var r := Trim(seq(m, i requires 0 <= i < m => l1[i] + l2[i]));
    assert forall i: nat :: i >= m ==> Mult(e1, i) == 0 && Mult(e2, i) == 0;
    r
  }

  /** `partmultiply(p1, p2)`: for every position of p1 the product of the
      partitions there; p2 shorter than p1 runs off its end. */
  function PartMultiply(p1: seq<Exp>, p2: seq<Exp>): (r: Result<seq<Exp>>)
    ensures r.Ok? <==> |p2| >= |p1|
    ensures r.Err? ==> r.exc == IndexError
    ensures r.Ok? ==> |r.value| == |p1|
    ensures r.Ok? ==> forall j, i: nat :: 0 <= j < |p1| ==>
                        Mult(r.value[j], i) == Mult(p1[j], i) + Mult(p2[j], i)
  {
    if |p2| < |p1| then Err(IndexError)
    else Ok(seq(|p1|, j requires 0 <= j < |p1| => PartMultiplyOne(p1[j], p2[j])))
  }

  /** `partmultiply` as the source runs it: a list of len(p1) slots filled
      position by position, p2[j] read at each position j. */
  method PartMultiplyInto(p1: seq<Exp>, p2: seq<Exp>) returns (r: Result<seq<Exp>>)
    ensures r == PartMultiply(p1, p2)
  {
    var ret := new Exp[|p1|](_ => []);
    for j := 0 to |p1|
      invariant j <= |p2|
      invariant forall i :: 0 <= i < j ==> ret[i] == PartMultiplyOne(p1[i], p2[i])
    {
      if j == |p2| {
        return Err(IndexError);
      }
      ret[j] := PartMultiplyOne(p1[j], p2[j]);
    }
    r := Ok(ret[..]);
    assert r.value == PartMultiply(p1, p2).value;
  }

  lemma {:induction false} SizeByMult(e: Exp, f: Exp)
    requires forall i: nat :: Mult(e, i) == Mult(f, i)
    requires |e| == |f|
    ensures Size(e) == Size(f)
  {
    assert forall i :: 0 <= i < |e| ==> e[i] == Mult(e, i) == Mult(f, i) == f[i];
    assert e == f;
  }

  /** The size of a partition does not depend on trailing zeros. */
  lemma {:induction false} SizeTrailing(e: Exp, m: nat)
    requires |e| <= m
    ensures Size(Padded(e, m)) == Size(e)
    decreases m
  {
    if m > |e| {
      var p := Padded(e, m);
      assert p[..m - 1] == Padded(e, m - 1);
      SizeTrailing(e, m - 1);
    } else {
      assert Padded(e, m) == e;
    }
  }

  /** Size of the entrywise sum of two vectors of equal length. */
  lemma {:induction false} SizeSum(a: Exp, b: Exp, c: Exp)
    requires |a| == |b| == |c| && forall i :: 0 <= i < |c| ==> c[i] == a[i] + b[i]
    ensures Size(c) == Size(a) + Size(b)
    decreases |c|
  {
    if |c| > 0 {
      var n := |c|;
      SizeSum(a[..n - 1], b[..n - 1], c[..n - 1]);
      assert n * c[n - 1] == n * a[n - 1] + n * b[n - 1];
    }
  }

  /** Multiplying partitions adds their sizes: the product partition has the
      parts of both. */
  lemma PartMultiplySize(e1: Exp, e2: Exp)
    ensures Size(PartMultiplyOne(e1, e2)) == Size(e1) + Size(e2)
  {
    var m := Max(|e1|, |e2|);
    var l1, l2 := Padded(e1, m), Padded(e2, m);
    var s := seq(m, i requires 0 <= i < m => l1[i] + l2[i]);
    var r := PartMultiplyOne(e1, e2);
    SizeSum(l1, l2, s);
    SizeTrailing(e1, m);
    SizeTrailing(e2, m);
    SizeTrailing(r, m);
    SizeTrailing(s, m);
    assert Padded(r, m) == Padded(s, m);
  }

  /** partmultiply is commutative on sequences of the same length. */
  lemma PartMultiplyCommutes(p1: seq<Exp>, p2: seq<Exp>)
    requires |p1| == |p2|
    ensures PartMultiply(p1, p2) == PartMultiply(p2, p1)
  {
    var r, s := PartMultiply(p1, p2).value, PartMultiply(p2, p1).value;
    forall j | 0 <= j < |p1|
      ensures r[j] == s[j]
    {
      assert r[j] == PartMultiplyOne(p1[j], p2[j]) && s[j] == PartMultiplyOne(p2[j], p1[j]);
      TrimmedEqual(r[j], s[j]);
    }
    assert r == s;
  }

  /** Two exponent vectors without trailing zeros and with the same
      multiplicities are equal. */
  lemma TrimmedEqual(e: Exp, f: Exp)
    requires |e| == 0 || e[|e| - 1] != 0
    requires |f| == 0 || f[|f| - 1] != 0
    requires forall i: nat :: Mult(e, i) == Mult(f, i)
    ensures e == f
  {
    if |e| > 0 {
      assert Mult(e, |e| - 1) == Mult(f, |e| - 1);
    }
    if |f| > 0 {
      assert Mult(e, |f| - 1) == Mult(f, |f| - 1);
    }
    assert forall i :: 0 <= i < |e| ==> e[i] == Mult(e, i) == Mult(f, i) == f[i];
  }

  // ---------------------------------------------------------------------
  // Elements of the quotient

  /** Li filtration degree to graded part element. */
  type Inner = map<int, int>
  /** Conformal weight to inner dictionary. */
  type Element = map<int, Inner>

  function Get(d: Inner, k: int): int {
    if k in d then d[k] else 0
  }

  function GetInner(a: Element, k: int): Inner {
    if k in a then a[k] else map[]
  }

  /** The coefficient of degree (k, j). */
  function Coef(a: Element, k: int, j: int): int {
    Get(GetInner(a, k), j)
  }

  /** `sumdict`: sums that vanish are dropped; entries only in d2 are
      copied. */
  function SumDict(d1: Inner, d2: Inner): (r: Inner)
    ensures forall j :: Get(r, j) == Get(d1, j) + Get(d2, j)
    ensures r.Keys <= d1.Keys + d2.Keys
  {
    (map k | k in d1 && d1[k] + Get(d2, k) != 0 :: d1[k] + Get(d2, k))
      + (map k | k in d2 && k !in d1 :: d2[k])
  }

  /** `subdict`: like `sumdict`, with entries only in d2 negated. */
  function SubDict(d1: Inner, d2: Inner): (r: Inner)
    ensures forall j :: Get(r, j) == Get(d1, j) - Get(d2, j)
    ensures r.Keys <= d1.Keys + d2.Keys
  {
    (map k | k in d1 && d1[k] - Get(d2, k) != 0 :: d1[k] - Get(d2, k))
      + (map k | k in d2 && k !in d1 :: -d2[k])
  }

  /** `_add_`: weights of self whose merged dictionary is empty are dropped;
      weights only in other are copied. */
  function Add(a: Element, b: Element): (r: Element)
  {
    (map k | k in a && SumDict(a[k], GetInner(b, k)) != map[] :: SumDict(a[k], GetInner(b, k)))
      + (map k | k in b && k !in a :: b[k])
  }

  /** `_sub_`: like `_add_`, with the dictionaries only in other negated
      (and kept even when empty). */
  function Sub(a: Element, b: Element): (r: Element)
  {
    (map k | k in a && SubDict(a[k], GetInner(b, k)) != map[] :: SubDict(a[k], GetInner(b, k)))
      + (map k | k in b && k !in a :: SubDict(map[], b[k]))
  }

  /** `_acted_upon_`: a zero scalar gives the zero element, otherwise every
      value is scaled and the keys are kept. */
  function Act(c: int, a: Element): (r: Element)
    ensures c == 0 ==> r == map[]
    ensures c != 0 ==> r.Keys == a.Keys && forall k :: k in a ==> r[k].Keys == a[k].Keys
  {
    if c == 0 then map[]
    else map k | k in a :: (map l | l in a[k] :: c * a[k][l])
  }

  /** Addition adds coefficients. */
  lemma AddCoef(a: Element, b: Element, k: int, j: int)
    ensures Coef(Add(a, b), k, j) == Coef(a, k, j) + Coef(b, k, j)
  {
    if k in a {
      var s := SumDict(a[k], GetInner(b, k));
      if s == map[] {
        assert Get(s, j) == 0;
      }
    }
  }

  /** Subtraction subtracts coefficients. */
  lemma SubCoef(a: Element, b: Element, k: int, j: int)
    ensures Coef(Sub(a, b), k, j) == Coef(a, k, j) - Coef(b, k, j)
  {
    if k in a {
      var s := SubDict(a[k], GetInner(b, k));
      if s == map[] {
        assert Get(s, j) == 0;
      }
    } else if k in b {
      assert Get(SubDict(map[], b[k]), j) == 0 - Get(b[k], j);
    }
  }

  /** Scaling scales coefficients. */
  lemma ActCoef(c: int, a: Element, k: int, j: int)
    ensures Coef(Act(c, a), k, j) == c * Coef(a, k, j)
  {
  }

  lemma SomeKey(d: Inner) returns (j: int)
    requires d.Keys != {}
    ensures j in d
  {
    Inhabited(d.Keys);
    j :| j in d.Keys;
  }

  /** No stored zero and no empty inner dictionary. */
  predicate Clean(a: Element) {
    forall k :: k in a ==> a[k].Keys != {} && forall j :: j in a[k] ==> a[k][j] != 0
  }

  /** Two clean elements with the same coefficients are the same
      dictionary. */
  lemma {:induction false} CleanUnique(a: Element, b: Element)
    requires Clean(a) && Clean(b)
    requires forall k, j :: Coef(a, k, j) == Coef(b, k, j)
    ensures a == b
  {
    forall k | k in a
      ensures k in b && a[k] == b[k]
    {
      var j := SomeKey(a[k]);
      assert Coef(a, k, j) != 0;
      forall j | j in a[k] || (k in b && j in b[k])
        ensures j in a[k] && k in b && j in b[k] && a[k][j] == b[k][j]
      {
        assert Coef(a, k, j) == Coef(b, k, j);
      }
      assert a[k].Keys == b[k].Keys;
    }
    forall k | k in b
      ensures k in a
    {
      var j := SomeKey(b[k]);
      assert Coef(b, k, j) != 0 == Coef(a, k, j) || k in a;
    }
  }

  /** Merging into a dictionary without zeros stores no zero. */
  lemma SumDictNonZero(d1: Inner, d2: Inner)
    requires forall j :: j in d2 ==> d2[j] != 0
    ensures forall j :: j in SumDict(d1, d2) ==> SumDict(d1, d2)[j] != 0
  {
  }

  /** Adding clean elements gives a clean element. */
  lemma AddClean(a: Element, b: Element)
    requires Clean(a) && Clean(b)
    ensures Clean(Add(a, b))
  {
    var r := Add(a, b);
    forall k | k in r
      ensures r[k].Keys != {} && forall j :: j in r[k] ==> r[k][j] != 0
    {
      if k in a {
        var s := SumDict(a[k], GetInner(b, k));
        SumDictNonZero(a[k], GetInner(b, k));
        assert r[k] == s && s != map[];
      }
    }
  }

  /** On clean elements addition is commutative. */
  lemma AddCommutes(a: Element, b: Element)
    requires Clean(a) && Clean(b)
    ensures Add(a, b) == Add(b, a)
  {
    AddClean(a, b);
    AddClean(b, a);
    forall k, j
      ensures Coef(Add(a, b), k, j) == Coef(Add(b, a), k, j)
    {
      AddCoef(a, b, k, j);
      AddCoef(b, a, k, j);
    }
    CleanUnique(Add(a, b), Add(b, a));
  }

  /** a - a is the zero element when a is clean. */
  lemma SubSelf(a: Element)
    requires Clean(a)
    ensures Sub(a, a) == map[]
  {
    forall k | k in a
      ensures SubDict(a[k], a[k]) == map[]
    {
      SubDictSelf(a[k]);
    }
  }

  lemma SubDictSelf(d: Inner)
    requires forall j :: j in d ==> d[j] != 0
    ensures SubDict(d, d) == map[]
  {
    var s := SubDict(d, d);
    assert forall j :: j !in s;
  }

  // ---------------------------------------------------------------------
  // Degree accessors

  /** The key of a dictionary with exactly one key. */
  function OnlyKey<V>(m: map<int, V>): (r: Option<int>)
    ensures r.Some? <==> |m| == 1
    ensures r.Some? ==> m.Keys == {r.value}
  {
    if |m| != 1 then None
    else
      assert |m.Keys| == 1;
      Inhabited(m.Keys);
      var k :| k in m.Keys;
      assert |m.Keys - {k}| == 0;
      Some(k)
  }

  /** `weight`: the only conformal weight of a homogeneous element. */
  function Weight(a: Element): (r: Result<int>)
    ensures r.Ok? <==> |a| == 1
    ensures r.Ok? ==> a.Keys == {r.value}
    ensures r.Err? ==> r.exc == ValueError("not homogeneous")
  {
    match OnlyKey(a)
    case None => Err(ValueError("not homogeneous"))
    case Some(k) => Ok(k)
  }

  /** Every Li filtration degree that occurs. */
  function Degrees(a: Element): set<int> {
    set k, j | k in a && j in a[k] :: j
  }

  /** `li_filtration_degree`: the common degree of all entries; no entry at
      all indexes an empty list. */
  function LiFiltrationDegree(a: Element): (r: Result<int>)
    ensures Degrees(a) == {} <==> r == Err(IndexError)
    ensures r.Ok? <==> exists d :: Degrees(a) == {d}
    ensures r.Ok? ==> Degrees(a) == {r.value}
    ensures r.Err? && Degrees(a) != {} ==> r.exc == ValueError("not homogeneous")
  {
    var ds := Degrees(a);
    if ds == {} then Err(IndexError)
    else
      var d :| d in ds;
      if ds == {d} then Ok(d)
      else
        Err(ValueError("not homogeneous"))
  }

  /** `_bidegree`: (0, 0) for zero, the single (weight, degree) of a
      monomial, otherwise an error. */
  function Bidegree(a: Element): (r: Result<(int, int)>)
    ensures a == map[] ==> r == Ok((0, 0))
    ensures a != map[] ==> (r.Ok? <==> exists k, j :: a.Keys == {k} && a[k].Keys == {j})
    ensures a != map[] && r.Ok? ==> a.Keys == {r.value.0} && a[r.value.0].Keys == {r.value.1}
    ensures r.Err? ==> r.exc == ValueError("not a monomial")
  {
    if a == map[] then Ok((0, 0))
    else match OnlyKey(a)
      case None => Err(ValueError("not a monomial"))
      case Some(k) =>
        match OnlyKey(a[k])
          case None => Err(ValueError("not a monomial"))
          case Some(j) => Ok((k, j))
  }

  /** `_get_bigraded_term(m, n)`: the single entry of degree (m, n), or zero
      when it is absent or zero. */
  function BigradedTerm(a: Element, m: int, n: int): (r: Element)
    ensures forall k, j :: Coef(r, k, j) == if k == m && j == n then Coef(a, m, n) else 0
    ensures Clean(r)
  {
    var v := Coef(a, m, n);
    if v == 0 then map[]
    else
      var r := map[m := map[n := v]];
      assert r[m].Keys == {n};
      r
  }
}
