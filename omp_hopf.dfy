/** The Hopf algebra of ordered multiset partitions into sets and its dual
    (src/sage/combinat/chas/omp_hopf_algebras.py): normalisation of the
    parent's arguments, the grading, the product on basis elements, the
    commutativity test, the change of basis between the dual powersum and
    monomial bases (descent factoring and the gluing of adjacent blocks) and
    the symmetry test.

    A basis element is indexed by an ordered multiset partition into sets: a
    sequence of non-empty finite sets of positive integers. */
module OmpHopf {
  import opened Outcomes

  /** A block of an ordered multiset partition into sets. */
  type Block = set<int>

  /** An ordered multiset partition into sets: a sequence of blocks. */
  type Omp = seq<Block>

  /** Every block is non-empty, as for an OrderedMultisetPartitionIntoSets. */
  predicate ValidOmp(A: Omp)
  {
    forall i :: 0 <= i < |A| ==> A[i] != {}
  }

  // ---------------------------------------------------------------------
  // Minimum, sum, order and size
  // ---------------------------------------------------------------------

  lemma EmptyIfNoMember(s: set<int>)
    requires forall x :: x !in s
    ensures s == {}
  {
    assert forall x :: x in s <==> x in {};
  }

  lemma NonEmptyHasMember(s: set<int>)
    requires s != {}
    ensures exists x :: x in s
  {
    if forall x :: x !in s {
      EmptyIfNoMember(s);
      assert false;
    }
  }

  /** m is the least element of s. */
  predicate IsMinOf(m: int, s: set<int>)
  {
    m in s && forall y :: y in s ==> m <= y
  }

  lemma {:induction false} HasMin(s: set<int>)
    requires s != {}
    ensures exists m :: IsMinOf(m, s)
    decreases s
  {
    NonEmptyHasMember(s);
    var x :| x in s;
    if s != {x} {
      HasMin(s - {x});
      var m :| IsMinOf(m, s - {x});
      var least := if x < m then x else m;
      forall y | y in s
        ensures least <= y
      {
        if y != x {
          assert y in s - {x};
        }
      }
      assert IsMinOf(least, s);
    } else {
      assert IsMinOf(x, s);
    }
  }

  /** `min(A1)` of a non-empty block; `MinIsLeast` states that it is the least element. */
  function Min(s: set<int>): (m: int)
    requires s != {}
    ensures m in s
  {
    HasMin(s);
    var m :| IsMinOf(m, s);
    m
  }

  lemma MinIsLeast(s: set<int>)
    requires s != {}
    ensures IsMinOf(Min(s), s)
  {
  }

  /** The sum of the elements of a finite set of integers. */
  function SetSum(s: set<int>): int
    decreases s
  {
    if s == {} then 0 else Min(s) + SetSum(s - {Min(s)})
  }

  /** The sum does not depend on which element is taken out first. */
  lemma {:induction false} SetSumRemove(s: set<int>, x: int)
    requires x in s
    ensures SetSum(s) == x + SetSum(s - {x})
    decreases s
  {
    var m := Min(s);
    if x != m {
      SetSumRemove(s - {m}, x);
      SetSumRemove(s - {x}, m);
      assert s - {m} - {x} == s - {x} - {m};
    }
  }

  /** The sum of a disjoint union is the sum of the sums. */
  lemma {:induction false} SetSumUnion(a: set<int>, b: set<int>)
    requires a * b == {}
    ensures SetSum(a + b) == SetSum(a) + SetSum(b)
    decreases b
  {
    if b != {} {
      var y := Min(b);
      SetSumRemove(a + b, y);
      SetSumRemove(b, y);
      assert a + b - {y} == a + (b - {y});
      SetSumUnion(a, b - {y});
    } else {
      assert a + b == a;
    }
  }

  /** `A.order()`: the number of letters of A, counted with multiplicity. */
  function Order(A: Omp): nat
  {
    if |A| == 0 then 0 else Order(A[..|A| - 1]) + |A[|A| - 1]|
  }

  /** `A.size()`: the sum of the letters of A, counted with multiplicity. */
  function Size(A: Omp): int
  {
    if |A| == 0 then 0 else Size(A[..|A| - 1]) + SetSum(A[|A| - 1])
  }

  lemma {:induction false} OrderConcat(A: Omp, B: Omp)
    ensures Order(A + B) == Order(A) + Order(B)
    decreases |B|
  {
    if |B| == 0 {
      assert A + B == A;
    } else {
      assert (A + B)[..|A + B| - 1] == A + B[..|B| - 1];
      OrderConcat(A, B[..|B| - 1]);
    }
  }

  lemma {:induction false} SizeConcat(A: Omp, B: Omp)
    ensures Size(A + B) == Size(A) + Size(B)
    decreases |B|
  {
    if |B| == 0 {
      assert A + B == A;
    } else {
      assert (A + B)[..|A + B| - 1] == A + B[..|B| - 1];
      SizeConcat(A, B[..|B| - 1]);
    }
  }

  // ---------------------------------------------------------------------
  // Parents: OMPNonCommutativeSymmetricFunctions and OMPQuasiSymmetricFunctions
  // ---------------------------------------------------------------------

  /** The two algebras: OMPSym and its graded dual OMPQSym. */
  datatype Algebra = OMPSym | OMPQSym

  /** The base ring, seen through what the parent asks of it. */
  datatype Ring = Ring(repr: string, commutative: bool, zero: bool)

  /** The `alphabet` argument: absent (all positive integers), an integer n
      (the letters 1..n) or an iterable of integers. */
  datatype AlphabetArg = AllPositive | UpTo(n: int) | Letters(letters: seq<int>)

  /** A normalised parent; `alphabet == None` stands for all positive integers. */
  datatype Parent = Parent(algebra: Algebra, ring: Ring, alphabet: Option<set<int>>, orderGrading: bool)

  /** `range(1, n + 1)`. */
  function Range(n: int): (r: seq<int>)
    ensures forall x :: x in r <==> 1 <= x <= n
    decreases n
  {
    if n < 1 then [] else Range(n - 1) + [n]
  }

  /** The set of letters an alphabet argument names. */
  function AlphabetSet(arg: AlphabetArg): (r: set<int>)
    requires !arg.AllPositive?
    ensures arg.UpTo? ==> forall x :: x in r <==> 1 <= x <= arg.n
    ensures arg.Letters? ==> forall x :: x in r <==> x in arg.letters
  {
    match arg
    case UpTo(n) => set x | x in Range(n)
    case Letters(ls) => set x | x in ls
  }

  /** `__classcall_private__` of either algebra: the ring must be
      commutative, an alphabet must name at least one letter, and order
      grading defaults to whether an alphabet was given. */
  function Normalize(algebra: Algebra, ring: Ring, alphabet: AlphabetArg, orderGrading: Option<bool>): (r: Result<Parent>)
    ensures !ring.commutative ==>
              r == Err(ValueError("argument R (=" + ring.repr + ") must be a commutative ring"))
    ensures ring.commutative && !alphabet.AllPositive? && AlphabetSet(alphabet) == {} ==>
              r == Err(ValueError("keyword alphabet (={}) must be a nonempty set of positive integers"))
    ensures r.Ok? <==> ring.commutative && (alphabet.AllPositive? || AlphabetSet(alphabet) != {})
    ensures r.Ok? ==>
              && r.value.algebra == algebra && r.value.ring == ring
              && (alphabet.AllPositive? <==> r.value.alphabet.None?)
              && (r.value.alphabet.Some? ==> r.value.alphabet.value == AlphabetSet(alphabet) != {})
              && r.value.orderGrading == (if orderGrading.Some? then orderGrading.value else !alphabet.AllPositive?)
  {
    if !ring.commutative then
      Err(ValueError("argument R (=" + ring.repr + ") must be a commutative ring"))
    else if alphabet.AllPositive? then
      Ok(Parent(algebra, ring, None, if orderGrading.Some? then orderGrading.value else false))
    else
      var letters := AlphabetSet(alphabet);
      if letters == {} then
        Err(ValueError("keyword alphabet (={}) must be a nonempty set of positive integers"))
      else
        Ok(Parent(algebra, ring, Some(letters), if orderGrading.Some? then orderGrading.value else true))
  }

  /** The normalisation is the same for both algebras. */
  lemma NormalizeAlgebraIndependent(ring: Ring, alphabet: AlphabetArg, orderGrading: Option<bool>)
    ensures Normalize(OMPSym, ring, alphabet, orderGrading).Ok? == Normalize(OMPQSym, ring, alphabet, orderGrading).Ok?
    ensures Normalize(OMPSym, ring, alphabet, orderGrading).Ok? ==>
              Normalize(OMPSym, ring, alphabet, orderGrading).value ==
              Normalize(OMPQSym, ring, alphabet, orderGrading).value.(algebra := OMPSym)
  {
  }

  /** The letters are only checked to be integers, which they always are, so
      zero and negative letters are accepted although the error message asks
      for positive integers. */
  lemma NormalizeAcceptsNonPositive(ring: Ring)
    requires ring.commutative
    ensures Normalize(OMPSym, ring, Letters([0, -1]), None) == Ok(Parent(OMPSym, ring, Some({0, -1}), true))
    ensures Normalize(OMPSym, ring, UpTo(0), None).Err?
  {
    assert AlphabetSet(Letters([0, -1])) == {0, -1};
    assert AlphabetSet(UpTo(0)) == {};
  }

  // ---------------------------------------------------------------------
  // Grading and product
  // ---------------------------------------------------------------------

  /** `degree_on_basis`: the order under order grading, the size otherwise. */
  function Degree(P: Parent, A: Omp): (d: int)
    ensures P.orderGrading ==> d == Order(A)
    ensures !P.orderGrading ==> d == Size(A)
  {
    if P.orderGrading then Order(A) else Size(A)
  }

  /** `product_on_basis` of the H and P bases: the concatenation A + B. */
  function Product(A: Omp, B: Omp): (r: Omp)
    ensures |r| == |A| + |B| && r[..|A|] == A && r[|A|..] == B
  {
    A + B
  }

  /** The product is graded: degrees add. */
  lemma DegreeProduct(P: Parent, A: Omp, B: Omp)
    ensures Degree(P, Product(A, B)) == Degree(P, A) + Degree(P, B)
  {
    OrderConcat(A, B);
    SizeConcat(A, B);
  }

  /** The empty partition is a two-sided unit, and the product is associative. */
  lemma ProductUnitAssociative(A: Omp, B: Omp, C: Omp)
    ensures Product([], A) == A == Product(A, [])
    ensures Product(Product(A, B), C) == Product(A, Product(B, C))
  {
    assert [] + A == A;
    assert A + [] == A;
    assert (A + B) + C == A + (B + C);
  }

  /** The documented degrees of [{1,2}, {1,4}]: size 8, order 4. */
  lemma DegreeDocumented(P: Parent)
    ensures Degree(P, [{1, 2}, {1, 4}]) == if P.orderGrading then 4 else 8
  {
    SetSumRemove({1, 2}, 1);
    assert {1, 2} - {1} == {2};
    SetSumRemove({2}, 2);
    assert {2} - {2} == {};
    SetSumRemove({1, 4}, 1);
    assert {1, 4} - {1} == {4};
    SetSumRemove({4}, 4);
    assert {4} - {4} == {};
    assert SetSum({1, 2}) == 3 && SetSum({1, 4}) == 5;
    assert |{1, 2}| == 2 && |{1, 4}| == 2;
    var A: Omp := [{1, 2}, {1, 4}];
    assert A[..1] == [{1, 2}] && A[..1][..0] == [];
    assert Size(A[..1]) == 3 && Order(A[..1]) == 2;
    assert Size(A) == 8 && Order(A) == 4;
  }

  // ---------------------------------------------------------------------
  // Commutativity
  // ---------------------------------------------------------------------

  /** `is_commutative`: an OMPSym basis is commutative exactly when the
      base ring is zero or the alphabet has one letter; OMPQSym always is. */
  function IsCommutative(P: Parent): (b: bool)
    ensures P.algebra.OMPQSym? ==> b
    ensures P.algebra.OMPSym? ==> (b <==> P.ring.zero || (P.alphabet.Some? && |P.alphabet.value| == 1))
  {
    match P.algebra
    case OMPQSym => true
    case OMPSym => P.ring.zero || (P.alphabet.Some? && |P.alphabet.value| == 1)
  }

  /** A basis element over the alphabet (None: all positive integers). */
  predicate Over(A: Omp, alphabet: Option<set<int>>)
  {
    ValidOmp(A) &&
    forall i :: 0 <= i < |A| ==> if alphabet.Some? then A[i] <= alphabet.value else forall x :: x in A[i] ==> x >= 1
  }

  lemma SingleLetterBlocks(A: Omp, a: int)
    requires Over(A, Some({a}))
    ensures A == seq(|A|, _ => {a})
  {
    forall i | 0 <= i < |A|
      ensures A[i] == {a}
    {
      NonEmptyHasMember(A[i]);
      var x :| x in A[i];
      assert A[i] <= {a};
      assert x == a;
      assert forall z :: z in A[i] <==> z in {a};
    }
  }

  lemma SingletonOfCardOne(s: set<int>, a: int)
    requires a in s && |s| == 1
    ensures s == {a}
  {
    var rest := s - {a};
    assert s == rest + {a} && rest * {a} == {};
    assert rest == {};
    assert forall z :: z in s ==> z == a || z in rest;
    assert forall z :: z in s <==> z in {a};
  }

  lemma OtherMember(s: set<int>, a: int)
    requires a in s && |s| != 1
    ensures exists b :: b in s && b != a
  {
    var rest := s - {a};
    assert s == rest + {a} && rest * {a} == {};
    assert rest != {};
    NonEmptyHasMember(rest);
  }

  /** The concatenation product on basis elements over the alphabet commutes
      exactly when the alphabet has one letter, which is the second case of
      `IsCommutative`. */
  lemma ProductCommutesIff(alphabet: Option<set<int>>)
    requires alphabet != Some({})
    ensures (forall A: Omp, B: Omp :: Over(A, alphabet) && Over(B, alphabet) ==> Product(A, B) == Product(B, A))
            <==> (alphabet.Some? && |alphabet.value| == 1)
  {
    if alphabet.Some? && |alphabet.value| == 1 {
      NonEmptyHasMember(alphabet.value);
      var a :| a in alphabet.value;
      SingletonOfCardOne(alphabet.value, a);
      forall A: Omp, B: Omp | Over(A, alphabet) && Over(B, alphabet)
        ensures Product(A, B) == Product(B, A)
      {
        SingleLetterBlocks(A, a);
        SingleLetterBlocks(B, a);
      }
    } else {
      var a, b;
      if alphabet.None? {
        a, b := 1, 2;
      } else {
        NonEmptyHasMember(alphabet.value);
        a :| a in alphabet.value;
        OtherMember(alphabet.value, a);
        b :| b in alphabet.value && b != a;
      }
      var A: Omp, B: Omp := [{a}], [{b}];
      assert Over(A, alphabet) && Over(B, alphabet);
      assert Product(A, B)[0] == {a} && Product(B, A)[0] == {b};
      assert a !in {b};
    }
  }

  // ---------------------------------------------------------------------
  // Descent factoring in `_Pd_to_M`
  // ---------------------------------------------------------------------

  /** The descents of A at or after `from`: every d with min(A[d-1]) >= min(A[d]). */
  function DescentsFrom(A: Omp, from: nat): (r: seq<nat>)
    requires ValidOmp(A)
    ensures forall k :: 0 <= k < |r| ==> from < r[k] < |A|
    ensures forall k, l :: 0 <= k < l < |r| ==> r[k] < r[l]
    ensures forall d :: d in r <==> from < d < |A| && Min(A[d - 1]) >= Min(A[d])
    decreases |A| - from
  {
    if from + 1 >= |A| then []
    else (if Min(A[from]) >= Min(A[from + 1]) then [from + 1] else []) + DescentsFrom(A, from + 1)
  }

  /** The cut points `[0] + descents + [len(A)]`. */
  function Cuts(A: Omp): (r: seq<nat>)
    requires ValidOmp(A)
  {
    [0] + DescentsFrom(A, 0) + [|A|]
  }

  lemma CutsShape(A: Omp)
    requires ValidOmp(A) && |A| >= 1
    ensures var c := Cuts(A);
      && 2 <= |c| && c[0] == 0 && c[|c| - 1] == |A|
      && (forall k, l :: 0 <= k < l < |c| ==> c[k] < c[l])
      && (forall d :: d in c[1..|c| - 1] <==> 0 < d < |A| && Min(A[d - 1]) >= Min(A[d]))
  {
    var c := Cuts(A);
    var ds := DescentsFrom(A, 0);
    assert c[1..|c| - 1] == ds;
  }

  /** `factored_A`: the slices of A between consecutive cut points. */
  function Factored(A: Omp): (r: seq<Omp>)
    requires ValidOmp(A) && |A| >= 1
    ensures |r| == |Cuts(A)| - 1
  {
    var c := Cuts(A);
    CutsShape(A);
    seq(|c| - 1, k requires 0 <= k < |c| - 1 => A[c[k]..c[k + 1]])
  }

  /** The concatenation of a sequence of partitions (`sum` of the pieces). */
  function Flatten(s: seq<Omp>): Omp
  {
    if |s| == 0 then [] else s[0] + Flatten(s[1..])
  }

  lemma {:induction false} FlattenSlices(A: Omp, c: seq<nat>)
    requires 1 <= |c| && c[|c| - 1] <= |A|
    requires forall k, l :: 0 <= k < l < |c| ==> c[k] < c[l]
    ensures Flatten(seq(|c| - 1, k requires 0 <= k < |c| - 1 => A[c[k]..c[k + 1]])) == A[c[0]..c[|c| - 1]]
    decreases |c|
  {
    var s := seq(|c| - 1, k requires 0 <= k < |c| - 1 => A[c[k]..c[k + 1]]);
    if |c| > 1 {
      var c' := c[1..];
      var s' := seq(|c'| - 1, k requires 0 <= k < |c'| - 1 => A[c'[k]..c'[k + 1]]);
      assert s[1..] == s';
      FlattenSlices(A, c');
      assert A[c[0]..c[1]] + A[c[1]..c[|c| - 1]] == A[c[0]..c[|c| - 1]];
    }
  }

  /** The factors concatenate back to A. */
  lemma FactoredFlatten(A: Omp)
    requires ValidOmp(A) && |A| >= 1
    ensures Flatten(Factored(A)) == A
  {
    var c := Cuts(A);
    CutsShape(A);
    FlattenSlices(A, c);
    assert A[0..|A|] == A;
  }

  lemma FactorIsSlice(A: Omp, k: nat)
    requires ValidOmp(A) && |A| >= 1 && k < |Factored(A)|
    ensures k + 1 < |Cuts(A)| && Cuts(A)[k] < Cuts(A)[k + 1] <= |A|
    ensures Factored(A)[k] == A[Cuts(A)[k]..Cuts(A)[k + 1]]
  {
    CutsShape(A);
  }

  lemma FactorIncreasing(A: Omp, k: nat)
    requires ValidOmp(A) && |A| >= 1 && k < |Factored(A)|
    ensures Factored(A)[k] != [] && ValidOmp(Factored(A)[k])
    ensures forall p :: 0 <= p < |Factored(A)[k]| - 1 ==> Min(Factored(A)[k][p]) < Min(Factored(A)[k][p + 1])
  {
    FactorIsSlice(A, k);
    CutsShape(A);
    var c := Cuts(A);
    var f := Factored(A)[k];
    forall p | 0 <= p < |f| - 1
      ensures Min(f[p]) < Min(f[p + 1])
    {
      var d := c[k] + p + 1;
      assert f[p] == A[d - 1] && f[p + 1] == A[d];
      NotACut(c, k, d);
      assert d !in c[1..|c| - 1];
    }
  }

  lemma FactorBoundary(A: Omp, k: nat)
    requires ValidOmp(A) && |A| >= 1 && 0 < k < |Factored(A)|
    ensures Factored(A)[k - 1] != [] && Factored(A)[k] != []
    ensures Min(Factored(A)[k - 1][|Factored(A)[k - 1]| - 1]) >= Min(Factored(A)[k][0])
  {
    FactorIsSlice(A, k - 1);
    FactorIsSlice(A, k);
    var c := Cuts(A);
    var d := c[k];
    assert Factored(A)[k - 1][|Factored(A)[k - 1]| - 1] == A[d - 1] && Factored(A)[k][0] == A[d];
    CutIsDescent(A, k);
  }

  lemma CutIsDescent(A: Omp, k: nat)
    requires ValidOmp(A) && |A| >= 1 && 0 < k < |Cuts(A)| - 1
    ensures 0 < Cuts(A)[k] < |A| && Min(A[Cuts(A)[k] - 1]) >= Min(A[Cuts(A)[k]])
  {
    CutsShape(A);
    var c := Cuts(A);
    assert c[k] == c[1..|c| - 1][k - 1];
  }

  /** A position strictly between two consecutive cut points is not a cut point. */
  lemma NotACut(c: seq<nat>, k: nat, d: nat)
    requires forall a, b :: 0 <= a < b < |c| ==> c[a] < c[b]
    requires k + 1 < |c| && c[k] < d < c[k + 1]
    ensures d !in c
  {
    forall j | 0 <= j < |c|
      ensures c[j] != d
    {
      if j <= k {
        assert c[j] <= c[k];
      } else {
        assert c[k + 1] <= c[j];
      }
    }
  }

  // ---------------------------------------------------------------------
  // Gluing adjacent blocks
  // ---------------------------------------------------------------------

  /** Blocks i and i + 1 may be glued: their minima are in order and the
      blocks are disjoint. */
  predicate Mergeable(A: Omp, i: nat)
  {
    && i + 1 < |A| && A[i] != {} && A[i + 1] != {}
    && Min(A[i]) < Min(A[i + 1])
    && |A[i]| + |A[i + 1]| == |A[i] + A[i + 1]|
  }

  /** `[b for b in B if b]`: the non-empty blocks of B, in order. */
  function NonEmptyBlocks(B: Omp): (r: Omp)
    ensures ValidOmp(r) && |r| <= |B|
    ensures ValidOmp(B) ==> r == B
  {
    if |B| == 0 then []
    else (if B[0] == {} then [] else [B[0]]) + NonEmptyBlocks(B[1..])
  }

  /** The partition with blocks i and i + 1 replaced by their union. */
  function Merge(A: Omp, i: nat): (r: Omp)
    requires i + 1 < |A|
  {
    NonEmptyBlocks(A[..i] + [A[i] + A[i + 1]] + A[i + 2..])
  }

  lemma MergeShape(A: Omp, i: nat)
    requires ValidOmp(A) && Mergeable(A, i)
    ensures Merge(A, i) == A[..i] + [A[i] + A[i + 1]] + A[i + 2..]
    ensures ValidOmp(Merge(A, i)) && |Merge(A, i)| == |A| - 1
  {
    var B := A[..i] + [A[i] + A[i + 1]] + A[i + 2..];
    assert ValidOmp(B) by {
      forall j | 0 <= j < |B| ensures B[j] != {} {
        if j < i {
          assert B[j] == A[j];
        } else if j > i {
          assert B[j] == A[j + 1];
        }
      }
    }
  }

  /** Every partition obtained from A by gluing adjacent blocks, any number of
      times: A itself and what each allowed gluing leads to. */
  function Reach(A: Omp): set<Omp>
    decreases |A|, 1
  {
    {A} + ReachFrom(A, 0)
  }

  /** What the gluings at positions `from` and later lead to. */
  function ReachFrom(A: Omp, from: nat): set<Omp>
    decreases |A|, 0, |A| - from
  {
    if from + 1 >= |A| then {}
    else (if Mergeable(A, from) then Reach(Merge(A, from)) else {}) + ReachFrom(A, from + 1)
  }

  lemma {:induction false} ReachFromMember(A: Omp, from: nat, B: Omp)
    requires B in ReachFrom(A, from)
    ensures exists i :: from <= i && Mergeable(A, i) && B in Reach(Merge(A, i))
    decreases |A| - from
  {
    if !(Mergeable(A, from) && B in Reach(Merge(A, from))) {
      ReachFromMember(A, from + 1, B);
    }
  }

  lemma {:induction false} ReachFromContains(A: Omp, from: nat, i: nat)
    requires from <= i && Mergeable(A, i)
    ensures Reach(Merge(A, i)) <= ReachFrom(A, from)
    decreases i - from
  {
    assert from + 1 < |A|;
    var here := if Mergeable(A, from) then Reach(Merge(A, from)) else {};
    assert ReachFrom(A, from) == here + ReachFrom(A, from + 1);
    if from < i {
      ReachFromContains(A, from + 1, i);
    }
  }

  /** A gluing of A is reachable from A. */
  lemma MergeInReach(A: Omp, i: nat)
    requires Mergeable(A, i)
    ensures Merge(A, i) in Reach(A) && Reach(Merge(A, i)) <= Reach(A)
  {
    ReachFromContains(A, 0, i);
  }

  /** Reachability is transitive. */
  lemma {:induction false} ReachTransitive(A: Omp, B: Omp)
    requires B in Reach(A)
    ensures Reach(B) <= Reach(A)
    decreases |A|
  {
    if B != A {
      ReachFromMember(A, 0, B);
      var i :| Mergeable(A, i) && B in Reach(Merge(A, i));
      ReachTransitive(Merge(A, i), B);
      MergeInReach(A, i);
    }
  }

  /** The set of partitions reachable from a member of S is inside S whenever
      S is closed under gluing. */
  lemma {:induction false} ReachInClosed(A: Omp, S: set<Omp>)
    requires A in S
    requires forall B, i :: B in S && Mergeable(B, i) ==> Merge(B, i) in S
    ensures Reach(A) <= S
    decreases |A|
  {
    forall B | B in Reach(A)
      ensures B in S
    {
      if B != A {
        ReachFromMember(A, 0, B);
        var i :| Mergeable(A, i) && B in Reach(Merge(A, i));
        ReachInClosed(Merge(A, i), S);
      }
    }
  }

  // ---------------------------------------------------------------------
  // The `glueings` worklist
  // ---------------------------------------------------------------------

  /** A bound on the worklist entries a partition with L blocks gives rise to:
      itself, and at most L - 1 gluings with L - 1 blocks each. */
  function Tree(L: nat): nat
  {
    if L <= 1 then 1 else 1 + (L - 1) * Tree(L - 1)
  }

  /** The bound for a sequence of partitions still to be processed. */
  function Potential(s: seq<Omp>): nat
  {
    if |s| == 0 then 0 else Tree(|s[0]|) + Potential(s[1..])
  }

  /** The bound for the gluings at positions i and later of a partition with
      L blocks. */
  function Remaining(L: nat, i: nat): nat
  {
    if i + 1 >= L then 0 else Times(L - 1 - i, Tree(L - 1))
  }

  function Times(a: nat, b: nat): nat
  {
    a * b
  }

  lemma {:induction false} PotentialAppend(s: seq<Omp>, x: Omp)
    ensures Potential(s + [x]) == Potential(s) + Tree(|x|)
    decreases |s|
  {
    if |s| == 0 {
      assert [] + [x] == [x];
      assert [x][1..] == [];
    } else {
      assert (s + [x])[1..] == s[1..] + [x];
      PotentialAppend(s[1..], x);
    }
  }

  lemma RemainingStart(L: nat)
    ensures Tree(L) == 1 + Remaining(L, 0)
  {
  }

  lemma RemainingStep(L: nat, i: nat)
    requires i + 1 < L
    ensures Remaining(L, i) == Tree(L - 1) + Remaining(L, i + 1)
  {
    var n := L - 2 - i;
    assert (n + 1) * Tree(L - 1) == Tree(L - 1) + n * Tree(L - 1);
  }

  /** `glueings(tupl_of_sets)`: a worklist that starts from the partition,
      appends every allowed gluing of each entry it visits, and returns the
      set of entries. Every entry has one block fewer than the one it came
      from, which bounds the worklist. */
  method Glueings(A0: Omp) returns (r: set<Omp>)
    requires ValidOmp(A0)
    ensures r == Reach(A0)
  {
    var terms := [A0];
    var k := 0;
    while k < |terms|
      invariant 0 <= k <= |terms| && 1 <= |terms| && terms[0] == A0
      invariant WithinReach(terms, A0)
      invariant Explored(terms, k)
      decreases Potential(terms[k..])
    {
      ReachTransitive(A0, terms[k]);
      var terms' := GlueEntry(terms, k);
      VisitStep(A0, terms, terms', k);
      terms := terms';
      k := k + 1;
    }
    r := set B | B in terms;
    FinishedWorklist(A0, terms);
  }

  /** Every worklist entry is a valid partition reachable from A0. */
  ghost predicate WithinReach(terms: seq<Omp>, A0: Omp)
  {
    forall j :: 0 <= j < |terms| ==> ValidOmp(terms[j]) && terms[j] in Reach(A0)
  }

  /** The gluings of the first k entries are in the worklist. */
  ghost predicate Explored(terms: seq<Omp>, k: nat)
  {
    forall j, i :: 0 <= j < k <= |terms| && Mergeable(terms[j], i) ==> Merge(terms[j], i) in terms
  }

  /** The gluings of A at positions below i are in the worklist. */
  ghost predicate GluedBelow(terms: seq<Omp>, A: Omp, i: nat)
  {
    forall i' :: 0 <= i' < i && Mergeable(A, i') ==> Merge(A, i') in terms
  }

  /** B is obtained from A by one gluing. */
  ghost predicate IsGluingOf(B: Omp, A: Omp)
  {
    exists i :: Mergeable(A, i) && B == Merge(A, i)
  }

  /** The entries after position n are gluings of A. */
  ghost predicate AddedGluings(terms: seq<Omp>, n: nat, A: Omp)
  {
    forall j :: n <= j < |terms| ==> IsGluingOf(terms[j], A)
  }

  lemma VisitStep(A0: Omp, terms: seq<Omp>, terms': seq<Omp>, k: nat)
    requires k < |terms| && terms[k] in Reach(A0)
    requires WithinReach(terms, A0) && Explored(terms, k)
    requires |terms| <= |terms'| && terms'[..|terms|] == terms
    requires AddedGluings(terms', |terms|, terms[k])
    requires forall i :: Mergeable(terms[k], i) ==> Merge(terms[k], i) in terms'
    ensures WithinReach(terms', A0) && Explored(terms', k + 1) && terms'[0] == terms[0]
  {
    ReachTransitive(A0, terms[k]);
    assert forall j :: 0 <= j < |terms| ==> terms'[j] == terms[j];
    forall j | |terms| <= j < |terms'|
      ensures ValidOmp(terms'[j]) && terms'[j] in Reach(A0)
    {
      var i :| Mergeable(terms[k], i) && terms'[j] == Merge(terms[k], i);
      MergeShape(terms[k], i);
      MergeInReach(terms[k], i);
    }
    forall j, i | 0 <= j < k + 1 <= |terms'| && Mergeable(terms'[j], i)
      ensures Merge(terms'[j], i) in terms'
    {
      if j < k {
        assert Merge(terms[j], i) in terms;
      }
    }
  }

  /** One visit of the `glueings` worklist: the gluings of entry k, in order
      of position, are appended. */
  method GlueEntry(terms: seq<Omp>, k: nat) returns (terms': seq<Omp>)
    requires k < |terms| && ValidOmp(terms[k])
    ensures |terms| <= |terms'| && terms'[..|terms|] == terms
    ensures AddedGluings(terms', |terms|, terms[k])
    ensures forall i :: Mergeable(terms[k], i) ==> Merge(terms[k], i) in terms'
    ensures Potential(terms'[k + 1..]) < Potential(terms[k..])
  {
    var A := terms[k];
    assert Potential(terms[k..]) == Tree(|A|) + Potential(terms[k + 1..]) by {
      assert terms[k..][1..] == terms[k + 1..];
    }
    RemainingStart(|A|);
    terms' := terms;
    var i := 0;
    while i < |A| - 1
      invariant 0 <= i <= if |A| >= 1 then |A| - 1 else 0
      invariant |terms| <= |terms'| && terms'[..|terms|] == terms
      invariant AddedGluings(terms', |terms|, A) && GluedBelow(terms', A, i)
      invariant Potential(terms'[k + 1..]) + Remaining(|A|, i) < Potential(terms[k..])
    {
      var A1, A2 := A[i], A[i + 1];
      if Min(A1) < Min(A2) && |A1| + |A2| == |A1 + A2| {
        var B := A[..i] + [A1 + A2] + A[i + 2..];
        var glued := NonEmptyBlocks(B);
        assert glued == Merge(A, i);
        AppendGluing(terms, terms', k, i);
        terms' := terms' + [glued];
      } else {
        assert GluedBelow(terms', A, i + 1);
      }
      RemainingStep(|A|, i);
      i := i + 1;
    }
    assert forall i: nat :: Mergeable(A, i) ==> i < |A| - 1;
  }

  lemma AppendGluing(terms: seq<Omp>, terms': seq<Omp>, k: nat, i: nat)
    requires k < |terms| && ValidOmp(terms[k]) && Mergeable(terms[k], i)
    requires |terms| <= |terms'| && terms'[..|terms|] == terms
    requires AddedGluings(terms', |terms|, terms[k]) && GluedBelow(terms', terms[k], i)
    ensures var t := terms' + [Merge(terms[k], i)];
      && |terms| <= |t| && t[..|terms|] == terms
      && AddedGluings(t, |terms|, terms[k]) && GluedBelow(t, terms[k], i + 1)
      && Potential(t[k + 1..]) == Potential(terms'[k + 1..]) + Tree(|terms[k]| - 1)
  {
    var A := terms[k];
    var glued := Merge(A, i);
    var t := terms' + [glued];
    MergeShape(A, i);
    assert IsGluingOf(glued, A);
    assert t[..|terms|] == terms by {
      assert t[..|terms'|] == terms';
    }
    assert t[k + 1..] == terms'[k + 1..] + [glued];
    PotentialAppend(terms'[k + 1..], glued);
  }

  // ---------------------------------------------------------------------
  // `_M_to_Pd`: the signed worklist
  // ---------------------------------------------------------------------

  /** (-1)^n. */
  function Sign(n: int): int
  {
    if n % 2 == 0 then 1 else -1
  }

  lemma SignStep(n: int)
    ensures Sign(n + 1) == -Sign(n)
  {
  }

  /** The sum of the partitions of S, each with coefficient (-1)^(n - length). */
  function AlternatingSum(S: set<Omp>, n: nat): (m: map<Omp, int>)
    ensures m.Keys == S && forall B :: B in m ==> m[B] == Sign(n - |B|)
  {
    map B | B in S :: Sign(n - |B|)
  }

  /** keys lists the partitions of the terms, in order. */
  ghost predicate KeysOf(keys: seq<Omp>, terms: seq<(Omp, int)>)
  {
    |keys| == |terms| && forall j :: 0 <= j < |terms| ==> keys[j] == terms[j].0
  }

  /** `sum_of_terms(terms, distinct=True)`: the terms are stored in a
      dictionary one after the other, so a later coefficient for the same
      partition replaces an earlier one. */
  function SumOfDistinctTerms(terms: seq<(Omp, int)>): (r: map<Omp, int>)
    ensures r.Keys == set j | 0 <= j < |terms| :: terms[j].0
  {
    if |terms| == 0 then map[]
    else SumOfDistinctTerms(terms[..|terms| - 1])[terms[|terms| - 1].0 := terms[|terms| - 1].1]
  }

  /** When every term carries the coefficient its partition's length
      dictates, so does the dictionary. */
  lemma {:induction false} SumOfSignedTerms(terms: seq<(Omp, int)>, n: nat)
    requires forall j :: 0 <= j < |terms| ==> terms[j].1 == Sign(n - |terms[j].0|)
    ensures forall B :: B in SumOfDistinctTerms(terms) ==> SumOfDistinctTerms(terms)[B] == Sign(n - |B|)
    decreases |terms|
  {
    if |terms| > 0 {
      SumOfSignedTerms(terms[..|terms| - 1], n);
    }
  }

  /** The coefficient of every term is (-1) to the number of gluings made. */
  ghost predicate Signed(terms: seq<(Omp, int)>, A0: Omp)
  {
    forall j :: 0 <= j < |terms| ==> terms[j].1 == Sign(|A0| - |terms[j].0|)
  }

  /** `_M_to_Pd(A)`: M_A in the dual powersum basis. A partition with at
      most one block maps to itself; otherwise a worklist of signed terms
      starts from (A, 1) and appends every allowed gluing of each entry with
      the opposite sign. The result is the sum over all partitions reachable
      by gluing, each with coefficient (-1)^(number of gluings). */
  method MToPd(A0: Omp) returns (r: map<Omp, int>)
    requires ValidOmp(A0)
    ensures r == AlternatingSum(Reach(A0), |A0|)
  {
    if |A0| <= 1 {
      assert Reach(A0) == {A0};
      r := map[A0 := 1];
      assert r == AlternatingSum(Reach(A0), |A0|);
      return;
    }
    var terms := [(A0, 1)];
    ghost var keys := [A0];
    var k := 0;
    while k < |terms|
      invariant 0 <= k <= |terms| && 1 <= |terms| && terms[0].0 == A0 && KeysOf(keys, terms)
      invariant WithinReach(keys, A0) && Explored(keys, k) && Signed(terms, A0)
      decreases Potential(keys[k..])
    {
      ReachTransitive(A0, keys[k]);
      ReachShorter(A0, keys[k]);
      var terms';
      ghost var keys';
      terms', keys' := SignedEntry(A0, terms, keys, k);
      VisitStep(A0, keys, keys', k);
      terms, keys := terms', keys';
      k := k + 1;
    }
    r := SumOfDistinctTerms(terms);
    FinishedWorklist(A0, keys);
    SignedWorklistSum(terms, keys, Reach(A0), |A0|);
  }

  /** A finished signed worklist sums to the signed sum over the partitions
      reachable from A0. */
  lemma SignedWorklistSum(terms: seq<(Omp, int)>, keys: seq<Omp>, S: set<Omp>, n: nat)
    requires KeysOf(keys, terms) && (set B | B in keys) == S
    requires forall j :: 0 <= j < |terms| ==> terms[j].1 == Sign(n - |terms[j].0|)
    ensures SumOfDistinctTerms(terms) == AlternatingSum(S, n)
  {
    SumOfSignedTerms(terms, n);
    SumKeys(terms, keys);
    SignedMap(SumOfDistinctTerms(terms), S, n);
  }

  lemma SumKeys(terms: seq<(Omp, int)>, keys: seq<Omp>)
    requires KeysOf(keys, terms)
    ensures SumOfDistinctTerms(terms).Keys == set B | B in keys
  {
    assert forall B :: B in keys <==> exists j :: 0 <= j < |terms| && terms[j].0 == B;
  }

  lemma SignedMap(r: map<Omp, int>, S: set<Omp>, n: nat)
    requires r.Keys == S && forall B :: B in r ==> r[B] == Sign(n - |B|)
    ensures r == AlternatingSum(S, n)
  {
  }

  /** A finished worklist holds exactly the partitions reachable from A0. */
  lemma FinishedWorklist(A0: Omp, keys: seq<Omp>)
    requires 1 <= |keys| && keys[0] == A0
    requires WithinReach(keys, A0) && Explored(keys, |keys|)
    ensures (set B | B in keys) == Reach(A0)
  {
    var S := set B | B in keys;
    forall B, i | B in S && Mergeable(B, i)
      ensures Merge(B, i) in S
    {
      var j :| 0 <= j < |keys| && keys[j] == B;
      assert Merge(keys[j], i) in keys;
    }
    ReachInClosed(A0, S);
  }

  /** Gluing only shortens. */
  lemma {:induction false} ReachShorter(A: Omp, B: Omp)
    requires B in Reach(A)
    ensures |B| <= |A|
    decreases |A|
  {
    if B != A {
      ReachFromMember(A, 0, B);
      var i :| Mergeable(A, i) && B in Reach(Merge(A, i));
      ReachShorter(Merge(A, i), B);
    }
  }

  /** One visit of the `_M_to_Pd` worklist: the gluings of entry k are
      appended with the negated coefficient. */
  method SignedEntry(ghost A0: Omp, terms: seq<(Omp, int)>, ghost keys: seq<Omp>, k: nat)
    returns (terms': seq<(Omp, int)>, ghost keys': seq<Omp>)
    requires k < |terms| && KeysOf(keys, terms) && ValidOmp(keys[k]) && |keys[k]| <= |A0| && Signed(terms, A0)
    ensures |terms| <= |terms'| && terms'[..|terms|] == terms && Signed(terms', A0)
    ensures KeysOf(keys', terms') && |keys| <= |keys'| && keys'[..|keys|] == keys
    ensures AddedGluings(keys', |keys|, keys[k])
    ensures forall i :: Mergeable(keys[k], i) ==> Merge(keys[k], i) in keys'
    ensures Potential(keys'[k + 1..]) < Potential(keys[k..])
  {
    var (A, c) := terms[k];
    assert Potential(keys[k..]) == Tree(|A|) + Potential(keys[k + 1..]) by {
      assert keys[k..][1..] == keys[k + 1..];
    }
    RemainingStart(|A|);
    terms', keys' := terms, keys;
    var i := 0;
    while i < |A| - 1
      invariant 0 <= i <= if |A| >= 1 then |A| - 1 else 0
      invariant |terms| <= |terms'| && terms'[..|terms|] == terms && Signed(terms', A0)
      invariant KeysOf(keys', terms') && |keys| <= |keys'| && keys'[..|keys|] == keys
      invariant AddedGluings(keys', |keys|, A) && GluedBelow(keys', A, i)
      invariant Potential(keys'[k + 1..]) + Remaining(|A|, i) < Potential(keys[k..])
    {
      var A1, A2 := A[i], A[i + 1];
      if Min(A1) < Min(A2) && |A1| + |A2| == |A1 + A2| {
        var B := A[..i] + [A1 + A2] + A[i + 2..];
        var glued := NonEmptyBlocks(B);
        assert glued == Merge(A, i);
        AppendGluing(keys, keys', k, i);
        AppendSignedTerm(A0, terms', keys', A, c, i);
        terms', keys' := terms' + [(glued, -c)], keys' + [glued];
      } else {
        assert GluedBelow(keys', A, i + 1);
      }
      RemainingStep(|A|, i);
      i := i + 1;
    }
    assert forall i: nat :: Mergeable(A, i) ==> i < |A| - 1;
  }

  lemma AppendSignedTerm(A0: Omp, terms: seq<(Omp, int)>, keys: seq<Omp>, A: Omp, c: int, i: nat)
    requires ValidOmp(A) && Mergeable(A, i) && |A| <= |A0| && c == Sign(|A0| - |A|)
    requires Signed(terms, A0) && KeysOf(keys, terms)
    ensures Signed(terms + [(Merge(A, i), -c)], A0)
    ensures KeysOf(keys + [Merge(A, i)], terms + [(Merge(A, i), -c)])
  {
    MergeShape(A, i);
    SignStep(|A0| - |A|);
  }

  // ---------------------------------------------------------------------
  // Letters of a partition, kept by gluing
  // ---------------------------------------------------------------------

  /** The letters of A with multiplicity: the union of its blocks as multisets. */
  function Elems(A: Omp): multiset<int>
  {
    if |A| == 0 then multiset{} else Elems(A[..|A| - 1]) + multiset(A[|A| - 1])
  }

  lemma {:induction false} ElemsConcat(A: Omp, B: Omp)
    ensures Elems(A + B) == Elems(A) + Elems(B)
    decreases |B|
  {
    if |B| == 0 {
      assert A + B == A;
    } else {
      assert (A + B)[..|A + B| - 1] == A + B[..|B| - 1];
      ElemsConcat(A, B[..|B| - 1]);
    }
  }

  /** Every block holds at least one letter. */
  lemma {:induction false} ElemsAtLeastLength(A: Omp)
    requires ValidOmp(A)
    ensures |Elems(A)| >= |A|
    decreases |A|
  {
    if |A| > 0 {
      ElemsAtLeastLength(A[..|A| - 1]);
    }
  }

  /** Blocks with |a| + |b| == |a + b| are disjoint, so their union adds up
      letters, lengths and sums. */
  lemma DisjointUnion(a: set<int>, b: set<int>)
    requires |a| + |b| == |a + b|
    ensures a * b == {}
    ensures multiset(a + b) == multiset(a) + multiset(b)
    ensures SetSum(a + b) == SetSum(a) + SetSum(b)
  {
    assert |a * b| == 0;
    SetSumUnion(a, b);
  }

  /** B has the same letters, order and size as A. */
  predicate SameContent(B: Omp, A: Omp)
  {
    Elems(B) == Elems(A) && Order(B) == Order(A) && Size(B) == Size(A)
  }

  /** A gluing keeps the letters, hence the order and the size. */
  lemma MergeContent(A: Omp, i: nat)
    requires ValidOmp(A) && Mergeable(A, i)
    ensures SameContent(Merge(A, i), A)
  {
    MergeShape(A, i);
    var pre, post := A[..i], A[i + 2..];
    var a, b := A[i], A[i + 1];
    DisjointUnion(a, b);
    assert A == pre + [a] + [b] + post;
    assert Merge(A, i) == pre + [a + b] + post;
    ElemsConcat(pre + [a] + [b], post);
    ElemsConcat(pre + [a], [b]);
    ElemsConcat(pre, [a]);
    ElemsConcat(pre + [a + b], post);
    ElemsConcat(pre, [a + b]);
    OrderConcat(pre + [a] + [b], post);
    OrderConcat(pre + [a], [b]);
    OrderConcat(pre, [a]);
    OrderConcat(pre + [a + b], post);
    OrderConcat(pre, [a + b]);
    SizeConcat(pre + [a] + [b], post);
    SizeConcat(pre + [a], [b]);
    SizeConcat(pre, [a]);
    SizeConcat(pre + [a + b], post);
    SizeConcat(pre, [a + b]);
    assert [a][..0] == [] && [b][..0] == [] && [a + b][..0] == [];
  }

  /** Everything reachable by gluing is a valid partition with the same
      letters, order and size. */
  lemma {:induction false} ReachContent(A: Omp, B: Omp)
    requires ValidOmp(A) && B in Reach(A)
    ensures ValidOmp(B) && SameContent(B, A)
    decreases |A|
  {
    if B != A {
      ReachFromMember(A, 0, B);
      var i :| Mergeable(A, i) && B in Reach(Merge(A, i));
      MergeShape(A, i);
      MergeContent(A, i);
      ReachContent(Merge(A, i), B);
    }
  }

  /** The change of basis `_M_to_Pd` is homogeneous for either grading. */
  lemma MToPdHomogeneous(P: Parent, A0: Omp, B: Omp)
    requires ValidOmp(A0) && B in AlternatingSum(Reach(A0), |A0|)
    ensures Degree(P, B) == Degree(P, A0) && Elems(B) == Elems(A0)
  {
    ReachContent(A0, B);
  }

  /** The leading term of `_M_to_Pd(A)` is A itself, with coefficient 1, and
      every other term has fewer blocks. */
  lemma MToPdTriangular(A0: Omp, B: Omp)
    requires ValidOmp(A0)
    ensures A0 in AlternatingSum(Reach(A0), |A0|) && AlternatingSum(Reach(A0), |A0|)[A0] == 1
    ensures B in AlternatingSum(Reach(A0), |A0|) && B != A0 ==> |B| < |A0|
  {
    if B in Reach(A0) && B != A0 {
      ReachFromMember(A0, 0, B);
      var i :| Mergeable(A0, i) && B in Reach(Merge(A0, i));
      MergeShape(A0, i);
      ReachShorter(Merge(A0, i), B);
    }
  }

  // ---------------------------------------------------------------------
  // `_Pd_to_M`: the sum over the gluings of each factor
  // ---------------------------------------------------------------------

  /** `cartesian_product` of a list of sets, as its set of tuples. */
  function Tuples(gs: seq<set<Omp>>): set<seq<Omp>>
    decreases |gs|
  {
    if |gs| == 0 then {[]}
    else set x, t | x in gs[0] && t in Tuples(gs[1..]) :: [x] + t
  }

  lemma TuplesMember(gs: seq<set<Omp>>, t: seq<Omp>)
    requires t in Tuples(gs)
    ensures |t| == |gs|
    ensures |gs| > 0 ==> t[0] in gs[0] && t[1..] in Tuples(gs[1..])
    decreases |gs|
  {
    if |gs| > 0 {
      var x, rest :| x in gs[0] && rest in Tuples(gs[1..]) && t == [x] + rest;
      TuplesMember(gs[1..], rest);
      assert t[1..] == rest;
    }
  }

  /** The sets `glueings(ll)` for each factor ll of A. */
  function GlueSets(A: Omp): (gs: seq<set<Omp>>)
    requires ValidOmp(A) && |A| >= 1
    ensures |gs| == |Factored(A)|
  {
    var F := Factored(A);
    seq(|F|, k requires 0 <= k < |F| => Reach(F[k]))
  }

  /** `_Pd_to_M(A)`: Pd_A in the monomial basis. A partition with at most one
      block maps to itself. Otherwise the sum, over every choice of one gluing
      of each factor, of the monomial indexed by their concatenation: the
      coefficient of B is the number of choices that concatenate to B. */
  function PdToM(A: Omp): (r: map<Omp, nat>)
    requires ValidOmp(A)
  {
    if |A| <= 1 then map[A := 1]
    else
      var T := Tuples(GlueSets(A));
      map B | B in Concats(T) :: |Choices(T, B)|
  }

  /** The partitions obtained by concatenating a tuple. */
  function Concats(T: set<seq<Omp>>): set<Omp>
  {
    set t | t in T :: Flatten(t)
  }

  /** The tuples that concatenate to B. */
  function Choices(T: set<seq<Omp>>, B: Omp): set<seq<Omp>>
  {
    set t | t in T && Flatten(t) == B
  }

  /** Every member of each set is valid and has the given letters. */
  ghost predicate SameLetters(gs: seq<set<Omp>>, F: seq<Omp>)
  {
    |gs| == |F| && forall k, g :: 0 <= k < |gs| && g in gs[k] ==> ValidOmp(g) && SameContent(g, F[k])
  }

  lemma SameLettersAt(gs: seq<set<Omp>>, F: seq<Omp>, k: nat, g: Omp)
    requires SameLetters(gs, F) && k < |gs| && g in gs[k]
    ensures ValidOmp(g) && SameContent(g, F[k])
  {
  }

  lemma GlueSetsLetters(A: Omp)
    requires ValidOmp(A) && |A| >= 1
    ensures SameLetters(GlueSets(A), Factored(A))
  {
    var F := Factored(A);
    forall k, g | 0 <= k < |F| && g in GlueSets(A)[k]
      ensures ValidOmp(g) && SameContent(g, F[k])
    {
      FactorIncreasing(A, k);
      ReachContent(F[k], g);
    }
  }

  /** A prefix of a concatenation. */
  lemma PrefixSplit(x1: Omp, r1: Omp, x2: Omp, r2: Omp)
    requires x1 + r1 == x2 + r2 && |x1| <= |x2|
    ensures x2 == x1 + x2[|x1|..]
  {
    assert x2[..|x1|] == (x2 + r2)[..|x1|];
    assert (x1 + r1)[..|x1|] == x1;
  }

  /** A suffix of a valid partition is valid. */
  lemma SuffixValid(x: Omp, n: nat)
    requires ValidOmp(x) && n <= |x|
    ensures ValidOmp(x[n..])
  {
    forall j | 0 <= j < |x| - n
      ensures x[n..][j] != {}
    {
      assert x[n..][j] == x[n + j];
    }
  }

  /** Appending valid blocks adds letters. */
  lemma NoExtraLetters(x: Omp, h: Omp)
    requires ValidOmp(h) && Elems(x + h) == Elems(x)
    ensures h == []
  {
    ElemsConcat(x, h);
    assert |Elems(x + h)| == |Elems(x)| + |Elems(h)|;
    ElemsAtLeastLength(h);
  }

  /** If x1 + r1 == x2 + r2 and the prefixes have the same letters, they are
      the same prefix. */
  lemma PrefixCancel(x1: Omp, r1: Omp, x2: Omp, r2: Omp)
    requires x1 + r1 == x2 + r2 && ValidOmp(x2) && Elems(x1) == Elems(x2) && |x1| <= |x2|
    ensures x1 == x2 && r1 == r2
  {
    PrefixSplit(x1, r1, x2, r2);
    SuffixValid(x2, |x1|);
    NoExtraLetters(x1, x2[|x1|..]);
    assert x1 == x2;
    assert r1 == (x1 + r1)[|x1|..];
  }

  /** Different choices of gluings concatenate to different partitions. */
  lemma {:induction false} TuplesInjective(gs: seq<set<Omp>>, F: seq<Omp>, t1: seq<Omp>, t2: seq<Omp>)
    requires SameLetters(gs, F) && t1 in Tuples(gs) && t2 in Tuples(gs)
    requires Flatten(t1) == Flatten(t2)
    ensures t1 == t2
    decreases |gs|
  {
    TuplesMember(gs, t1);
    TuplesMember(gs, t2);
    if |gs| > 0 {
      assert Flatten(t1) == t1[0] + Flatten(t1[1..]);
      assert Flatten(t2) == t2[0] + Flatten(t2[1..]);
      assert ValidOmp(t1[0]) && SameContent(t1[0], F[0]);
      assert ValidOmp(t2[0]) && SameContent(t2[0], F[0]);
      if |t1[0]| <= |t2[0]| {
        PrefixCancel(t1[0], Flatten(t1[1..]), t2[0], Flatten(t2[1..]));
      } else {
        PrefixCancel(t2[0], Flatten(t2[1..]), t1[0], Flatten(t1[1..]));
      }
      assert SameLetters(gs[1..], F[1..]);
      TuplesInjective(gs[1..], F[1..], t1[1..], t2[1..]);
      assert t1 == [t1[0]] + t1[1..];
      assert t2 == [t2[0]] + t2[1..];
    }
  }

  /** A set whose members are all equal to one of them is a singleton. */
  lemma AllEqualSingleton(C: set<seq<Omp>>, t0: seq<Omp>)
    requires t0 in C && forall t :: t in C ==> t == t0
    ensures |C| == 1
  {
    assert C == {t0};
  }

  /** Every coefficient of `_Pd_to_M(A)` is 1: distinct choices of gluings
      never concatenate to the same partition. */
  lemma PdToMCoefficients(A: Omp)
    requires ValidOmp(A)
    ensures forall B :: B in PdToM(A) ==> PdToM(A)[B] == 1
  {
    if |A| > 1 {
      var gs := GlueSets(A);
      var T := Tuples(gs);
      GlueSetsLetters(A);
      forall B | B in PdToM(A)
        ensures PdToM(A)[B] == 1
      {
        var C := Choices(T, B);
        var t0 :| t0 in T && Flatten(t0) == B;
        forall t | t in C
          ensures t == t0
        {
          TuplesInjective(gs, Factored(A), t, t0);
        }
        AllEqualSingleton(C, t0);
      }
    }
  }

  /** Concatenating one member of each set gives the letters, order and size
      of the concatenated factors. */
  lemma {:induction false} FlattenContent(gs: seq<set<Omp>>, F: seq<Omp>, t: seq<Omp>)
    requires SameLetters(gs, F) && t in Tuples(gs)
    ensures SameContent(Flatten(t), Flatten(F))
    decreases |gs|
  {
    TuplesMember(gs, t);
    if |gs| > 0 {
      assert SameLetters(gs[1..], F[1..]);
      FlattenContent(gs[1..], F[1..], t[1..]);
      SameLettersAt(gs, F, 0, t[0]);
      assert Flatten(t) == t[0] + Flatten(t[1..]);
      assert Flatten(F) == F[0] + Flatten(F[1..]);
      ElemsConcat(t[0], Flatten(t[1..]));
      ElemsConcat(F[0], Flatten(F[1..]));
      OrderConcat(t[0], Flatten(t[1..]));
      OrderConcat(F[0], Flatten(F[1..]));
      SizeConcat(t[0], Flatten(t[1..]));
      SizeConcat(F[0], Flatten(F[1..]));
    }
  }

  /** `_Pd_to_M` is homogeneous for either grading: every term has the
      letters of A. */
  lemma PdToMHomogeneous(P: Parent, A: Omp, B: Omp)
    requires ValidOmp(A) && B in PdToM(A)
    ensures Degree(P, B) == Degree(P, A) && Elems(B) == Elems(A)
  {
    if |A| > 1 {
      var gs := GlueSets(A);
      var t :| t in Tuples(gs) && Flatten(t) == B;
      GlueSetsLetters(A);
      FlattenContent(gs, Factored(A), t);
      FactoredFlatten(A);
    }
  }

  /** The factors themselves are one choice: M_A appears in `_Pd_to_M(A)`. */
  lemma PdToMLeading(A: Omp)
    requires ValidOmp(A)
    ensures A in PdToM(A) && PdToM(A)[A] == 1
  {
    PdToMCoefficients(A);
    if |A| > 1 {
      var F := Factored(A);
      FactoredTuple(GlueSets(A), F);
      FactoredFlatten(A);
    }
  }

  lemma {:induction false} FactoredTuple(gs: seq<set<Omp>>, F: seq<Omp>)
    requires |gs| == |F| && forall k :: 0 <= k < |F| ==> F[k] in gs[k]
    ensures F in Tuples(gs)
    decreases |gs|
  {
    if |gs| > 0 {
      FactoredTuple(gs[1..], F[1..]);
      assert F == [F[0]] + F[1..];
    }
  }
}
