// The symmetry test of OMPQSym elements in the monomial basis.

module OmpSymmetric {
  import opened OmpHopf

  /** The class of A: its blocks as a multiset, which is what sorting the
      blocks of A determines. */
  function Class(A: Omp): multiset<Block>
  {
    multiset(A)
  }

  /** An element of OMPQSym in the M basis: its support with the coefficients. */
  type Terms<C> = seq<(Omp, C)>

  /** The classes met in the support. */
  function Classes<C>(terms: Terms<C>): set<multiset<Block>>
  {
    set i | 0 <= i < |terms| :: Class(terms[i].0)
  }

  /** How many terms of the support fall in class la. */
  function CountClass<C>(terms: Terms<C>, la: multiset<Block>): nat
  {
    if |terms| == 0 then 0
    else CountClass(terms[..|terms| - 1], la) + (if Class(terms[|terms| - 1].0) == la then 1 else 0)
  }

  /** Terms of the same class carry the same coefficient. */
  predicate CoefsAgree<C(==)>(terms: Terms<C>)
  {
    forall i, j :: 0 <= i < j < |terms| && Class(terms[i].0) == Class(terms[j].0) ==> terms[i].1 == terms[j].1
  }

  /** Symmetric: same coefficient within a class, and as many terms in each
      class as its blocks have distinct orderings. */
  ghost predicate Symmetric<C>(terms: Terms<C>)
  {
    CoefsAgree(terms) && forall la :: la in Classes(terms) ==> CountClass(terms, la) == Arrangements(la)
  }

  // ---------------------------------------------------------------------
  // The number of distinct orderings of a class
  // ---------------------------------------------------------------------

  function Factorial(n: nat): (f: nat)
    ensures f >= 1
  {
    if n == 0 then 1 else n * Factorial(n - 1)
  }

  /** The product of m! over the multiplicities m of the blocks of la: the
      number of ways to reorder equal blocks among themselves. It takes the
      blocks one copy at a time, each copy contributing its multiplicity
      at that point. */
  ghost function Repeats(la: multiset<Block>): (p: nat)
    ensures p >= 1
    decreases |la|
  {
    if la == multiset{} then 1
    else var b :| b in la; Positive(la[b], Repeats(la - multiset{b})); la[b] * Repeats(la - multiset{b})
  }

  lemma Positive(p: nat, q: nat)
    requires p >= 1 && q >= 1
    ensures p * q >= 1
  {}

  /** The number of distinct orderings of the blocks of la (what
      `Permutations_mset(la).cardinality()` counts): |la|! over the product
      of the factorials of the multiplicities. */
  ghost function Arrangements(la: multiset<Block>): nat
  {
    Factorial(|la|) / Repeats(la)
  }

  lemma Commute(p: nat, q: nat, r: nat)
    ensures p * (q * r) == q * (p * r)
  {}

  /** Repeats does not depend on which block is taken first. */
  lemma {:induction false} RepeatsAny(la: multiset<Block>, c: Block)
    requires c in la
    ensures Repeats(la) == la[c] * Repeats(la - multiset{c})
    decreases |la|
  {
    var b :| b in la && Repeats(la) == la[b] * Repeats(la - multiset{b});
    if b != c {
      var rest := la - multiset{b} - multiset{c};
      assert la - multiset{c} - multiset{b} == rest;
      assert (la - multiset{b})[c] == la[c] && (la - multiset{c})[b] == la[b];
      RepeatsAny(la - multiset{b}, c);
      RepeatsAny(la - multiset{c}, b);
      Commute(la[b], la[c], Repeats(rest));
    }
  }

  /** Blocks that are pairwise different: no reordering among equal blocks. */
  lemma {:induction false} RepeatsDistinct(la: multiset<Block>)
    requires forall b :: la[b] <= 1
    ensures Repeats(la) == 1
    decreases |la|
  {
    if la != multiset{} {
      var b :| b in la && Repeats(la) == la[b] * Repeats(la - multiset{b});
      RepeatsDistinct(la - multiset{b});
    }
  }

  /** n copies of the block c. */
  function Copies(c: Block, n: nat): (la: multiset<Block>)
    ensures la[c] == n && |la| == n && forall b :: b != c ==> la[b] == 0
  {
    if n == 0 then multiset{} else Copies(c, n - 1) + multiset{c}
  }

  /** A class of n equal blocks: all n! reorderings coincide. */
  lemma {:induction false} RepeatsCopies(c: Block, n: nat)
    ensures Repeats(Copies(c, n)) == Factorial(n)
  {
    if n > 0 {
      RepeatsAny(Copies(c, n), c);
      assert Copies(c, n) - multiset{c} == Copies(c, n - 1);
      RepeatsCopies(c, n - 1);
    }
  }

  /** Pairwise different blocks have |la|! arrangements. */
  lemma ArrangementsDistinct(la: multiset<Block>)
    requires forall b :: la[b] <= 1
    ensures Arrangements(la) == Factorial(|la|)
  {
    RepeatsDistinct(la);
  }

  /** n equal blocks have a single arrangement. */
  lemma ArrangementsCopies(c: Block, n: nat)
    ensures Arrangements(Copies(c, n)) == 1
  {
    RepeatsCopies(c, n);
  }

  /** `Permutations_mset(la).cardinality()`: |la|! divided by the product
      of the multiplicities' factorials, accumulated one block at a time. */
  method CountArrangements(la: multiset<Block>) returns (n: nat)
    ensures n == Arrangements(la)
  {
    var rest: multiset<Block>, rep: nat := la, 1;
    while rest != multiset{}
      invariant rep >= 1 && rep * Repeats(rest) == Repeats(la)
      decreases |rest|
    {
      var b :| b in rest;
      RepeatsStep(rest, b, rep);
      rep := rep * rest[b];
      rest := rest - multiset{b};
    }
    n := Quotient(Factorial(|la|), rep);
  }

  function Quotient(a: nat, b: nat): nat
    requires b >= 1
  {
    a / b
  }

  /** Taking one copy of b out of the blocks still to be counted. */
  lemma RepeatsStep(rest: multiset<Block>, b: Block, rep: nat)
    requires b in rest && rep >= 1
    ensures rep * rest[b] >= 1
    ensures (rep * rest[b]) * Repeats(rest - multiset{b}) == rep * Repeats(rest)
  {
    RepeatsAny(rest, b);
    Positive(rep, rest[b]);
    Associate(rep, rest[b], Repeats(rest - multiset{b}));
  }

  lemma Associate(p: nat, q: nat, r: nat)
    ensures p * (q * r) == (p * q) * r
  {}

  /** Every term of class la has coefficient c. */
  ghost predicate ClassCoef<C>(terms: Terms<C>, la: multiset<Block>, c: C)
  {
    forall i :: 0 <= i < |terms| && Class(terms[i].0) == la ==> terms[i].1 == c
  }

  lemma ClassesStep<C>(terms: Terms<C>, k: nat)
    requires k < |terms|
    ensures Classes(terms[..k + 1]) == Classes(terms[..k]) + {Class(terms[k].0)}
  {
    var pre, next := terms[..k], terms[..k + 1];
    forall la | la in Classes(next)
      ensures la in Classes(pre) + {Class(terms[k].0)}
    {
      var i :| 0 <= i < |next| && Class(next[i].0) == la;
      if i < k {
        assert pre[i] == next[i];
      }
    }
    forall la | la in Classes(pre)
      ensures la in Classes(next)
    {
      var i :| 0 <= i < |pre| && Class(pre[i].0) == la;
      assert next[i] == pre[i];
    }
    assert next[k] == terms[k];
  }

  /** The table `d` after reading `terms`: per class, the coefficient and the
      number of terms. */
  ghost predicate Table<C>(terms: Terms<C>, d: map<multiset<Block>, (C, nat)>)
  {
    d.Keys == Classes(terms) &&
    forall la :: la in d ==> d[la].1 == CountClass(terms, la) && ClassCoef(terms, la, d[la].0)
  }

  /** The table entry a term leaves for its class. */
  function Entry<C>(d: map<multiset<Block>, (C, nat)>, A: Omp, coeff: C): (C, nat)
  {
    (coeff, (if Class(A) in d then d[Class(A)].1 else 0) + 1)
  }

  lemma CountStep<C>(terms: Terms<C>, k: nat, la: multiset<Block>)
    requires k < |terms|
    ensures CountClass(terms[..k + 1], la) == CountClass(terms[..k], la) + (if Class(terms[k].0) == la then 1 else 0)
  {
    assert terms[..k + 1][..k] == terms[..k];
  }

  lemma CountAbsent<C>(terms: Terms<C>, la: multiset<Block>)
    requires la !in Classes(terms)
    ensures CountClass(terms, la) == 0
  {
    if |terms| > 0 {
      var pre := terms[..|terms| - 1];
      assert Classes(pre) <= Classes(terms) by {
        forall l | l in Classes(pre) ensures l in Classes(terms) {
          var i :| 0 <= i < |pre| && Class(pre[i].0) == l;
          assert pre[i] == terms[i];
        }
      }
      CountAbsent(pre, la);
    }
  }

  lemma AbsentCoef<C>(terms: Terms<C>, la: multiset<Block>, c: C)
    requires la !in Classes(terms)
    ensures ClassCoef(terms, la, c)
  {
    forall i | 0 <= i < |terms|
      ensures Class(terms[i].0) != la
    {
      assert Class(terms[i].0) in Classes(terms);
    }
  }

  /** Reading a term whose coefficient agrees with its class's keeps the
      table up to date. */
  lemma TableStep<C>(terms: Terms<C>, k: nat, d: map<multiset<Block>, (C, nat)>)
    requires k < |terms| && Table(terms[..k], d)
    requires Class(terms[k].0) in d ==> d[Class(terms[k].0)].0 == terms[k].1
    ensures Table(terms[..k + 1], d[Class(terms[k].0) := Entry(d, terms[k].0, terms[k].1)])
  {
    var la, c := Class(terms[k].0), terms[k].1;
    var d' := d[la := Entry(d, terms[k].0, c)];
    var pre, next := terms[..k], terms[..k + 1];
    ClassesStep(terms, k);
    forall l | l in d'
      ensures d'[l].1 == CountClass(next, l) && ClassCoef(next, l, d'[l].0)
    {
      CountStep(terms, k, l);
      if l == la && la !in d {
        CountAbsent(pre, la);
      }
      forall i | 0 <= i < |next| && Class(next[i].0) == l
        ensures next[i].1 == d'[l].0
      {
        if i < k {
          assert next[i] == pre[i];
        }
      }
    }
  }

  /** The same step keeps the coefficients of the prefix in agreement. */
  lemma AgreeStep<C>(terms: Terms<C>, k: nat, c: C)
    requires k < |terms| && CoefsAgree(terms[..k]) && ClassCoef(terms[..k], Class(terms[k].0), terms[k].1)
    ensures CoefsAgree(terms[..k + 1])
  {
    var pre, next := terms[..k], terms[..k + 1];
    forall i, j | 0 <= i < j < |next| && Class(next[i].0) == Class(next[j].0)
      ensures next[i].1 == next[j].1
    {
      assert next[i] == terms[i] && next[j] == terms[j];
      if j < k {
        assert pre[i] == terms[i] && pre[j] == terms[j];
      } else {
        assert pre[i] == terms[i];
      }
    }
  }

  /** `is_symmetric`: one pass over the support recording, per class, the
      first coefficient met and how many terms were met; False on the first
      coefficient that differs from its class's, otherwise whether every class
      count equals the number of arrangements of its blocks. */
  method IsSymmetric<C(==)>(terms: Terms<C>) returns (b: bool)
    ensures b <==> Symmetric(terms)
  {
    var d: map<multiset<Block>, (C, nat)> := map[];
    for k := 0 to |terms|
      invariant CoefsAgree(terms[..k]) && Table(terms[..k], d)
    {
      var A, coeff := terms[k].0, terms[k].1;
      var la := Class(A);
      if la in d && d[la].0 != coeff {
        var i :| 0 <= i < k && Class(terms[..k][i].0) == la;
        assert terms[..k][i] == terms[i];
        assert !CoefsAgree(terms);
        return false;
      }
      TableStep(terms, k, d);
      if la !in d {
        CountAbsent(terms[..k], la);
        AbsentCoef(terms[..k], la, coeff);
      }
      AgreeStep(terms, k, coeff);
      d := d[la := Entry(d, A, coeff)];
    }
    assert terms[..|terms|] == terms;
    var keys := d.Keys;
    while keys != {}
      invariant keys <= d.Keys
      invariant forall la :: la in d.Keys - keys ==> d[la].1 == Arrangements(la)
      decreases |keys|
    {
      var la :| la in keys;
      var n := CountArrangements(la);
      if d[la].1 != n {
        return false;
      }
      keys := keys - {la};
    }
    return true;
  }

  // ---------------------------------------------------------------------
  // The documented examples
  // ---------------------------------------------------------------------

  /** The six orderings of three blocks, each with coefficient 1. */
  function Orderings(a: Block, b: Block, c: Block): Terms<int>
  {
    seq(6, i requires 0 <= i < 6 => (Perms(a, b, c)[i], 1))
  }

  function Perms(a: Block, b: Block, c: Block): seq<Omp>
  {
    [[a, b, c], [a, c, b], [b, a, c], [b, c, a], [c, a, b], [c, b, a]]
  }

  lemma ClassOfThree(x: Block, y: Block, z: Block)
    ensures Class([x, y, z]) == multiset{x} + multiset{y} + multiset{z}
  {
    assert [x, y, z] == [x, y] + [z];
    assert [x, y] == [x] + [y];
  }

  lemma ClassOfTwo(x: Block, y: Block)
    ensures Class([x, y]) == multiset{x} + multiset{y}
  {
    assert [x, y] == [x] + [y];
  }

  lemma Swaps(a: multiset<Block>, b: multiset<Block>, c: multiset<Block>)
    ensures a + b + c == a + c + b == b + a + c
  {
  }

  /** Swapping the first two or the last two of three blocks keeps the class. */
  lemma ClassSwaps(x: Block, y: Block, z: Block)
    ensures Class([y, x, z]) == Class([x, y, z]) && Class([x, z, y]) == Class([x, y, z])
  {
    ClassOfThree(x, y, z);
    ClassOfThree(y, x, z);
    ClassOfThree(x, z, y);
    Swaps(multiset{x}, multiset{y}, multiset{z});
  }

  lemma {:induction false} OneClass<C>(terms: Terms<C>, la: multiset<Block>)
    requires forall i :: 0 <= i < |terms| ==> Class(terms[i].0) == la
    ensures CountClass(terms, la) == |terms|
    ensures |terms| > 0 ==> Classes(terms) == {la}
  {
    if |terms| > 0 {
      OneClass(terms[..|terms| - 1], la);
      assert Class(terms[0].0) == la;
    }
  }

  lemma Append<C>(terms: Terms<C>, x: (Omp, C))
    ensures Classes(terms + [x]) == Classes(terms) + {Class(x.0)}
    ensures forall la :: CountClass(terms + [x], la) == CountClass(terms, la) + (if Class(x.0) == la then 1 else 0)
    ensures ClassCoef(terms, Class(x.0), x.1) ==> ClassCoef(terms + [x], Class(x.0), x.1)
    ensures CoefsAgree(terms) && ClassCoef(terms, Class(x.0), x.1) ==> CoefsAgree(terms + [x])
  {
    var t := terms + [x];
    assert t[..|terms|] == terms;
    ClassesStep(t, |terms|);
    assert t[..|terms| + 1] == t;
    if ClassCoef(terms, Class(x.0), x.1) {
      forall i | 0 <= i < |t| && Class(t[i].0) == Class(x.0)
        ensures t[i].1 == x.1
      {
        if i < |terms| {
          assert t[i] == terms[i];
        }
      }
      if CoefsAgree(terms) {
        AgreeStep(t, |terms|, x.1);
      }
    }
  }

  /** A term of a class not met so far. */
  lemma AppendNew<C>(terms: Terms<C>, x: (Omp, C))
    requires CoefsAgree(terms) && Class(x.0) !in Classes(terms)
    ensures CoefsAgree(terms + [x]) && ClassCoef(terms + [x], Class(x.0), x.1)
    ensures Classes(terms + [x]) == Classes(terms) + {Class(x.0)}
    ensures CountClass(terms + [x], Class(x.0)) == 1
    ensures forall la :: la != Class(x.0) ==> CountClass(terms + [x], la) == CountClass(terms, la)
  {
    AbsentCoef(terms, Class(x.0), x.1);
    CountAbsent(terms, Class(x.0));
    Append(terms, x);
  }

  /** A term of a class already met, with that class's coefficient. */
  lemma AppendOld<C>(terms: Terms<C>, x: (Omp, C))
    requires CoefsAgree(terms) && ClassCoef(terms, Class(x.0), x.1)
    ensures CoefsAgree(terms + [x]) && ClassCoef(terms + [x], Class(x.0), x.1)
    ensures Classes(terms + [x]) == Classes(terms) + {Class(x.0)}
    ensures CountClass(terms + [x], Class(x.0)) == CountClass(terms, Class(x.0)) + 1
    ensures forall la :: la != Class(x.0) ==> CountClass(terms + [x], la) == CountClass(terms, la)
  {
    Append(terms, x);
  }

  lemma PermClass(a: Block, b: Block, c: Block, i: nat)
    requires i < 6
    ensures Class(Perms(a, b, c)[i]) == Class([a, b, c])
  {
    var ps := Perms(a, b, c);
    if i == 0 {
      assert ps[i] == [a, b, c];
    } else if i == 1 {
      assert ps[i] == [a, c, b];
      ClassSwaps(a, b, c);
    } else if i == 2 {
      assert ps[i] == [b, a, c];
      ClassSwaps(a, b, c);
    } else if i == 3 {
      assert ps[i] == [b, c, a];
      ClassSwaps(a, b, c);
      ClassSwaps(b, a, c);
    } else if i == 4 {
      assert ps[i] == [c, a, b];
      ClassSwaps(a, b, c);
      ClassSwaps(a, c, b);
    } else {
      assert ps[i] == [c, b, a];
      ClassSwaps(a, b, c);
      ClassSwaps(a, c, b);
      ClassSwaps(c, a, b);
    }
  }

  lemma OrderingsOneClass(a: Block, b: Block, c: Block)
    ensures CoefsAgree(Orderings(a, b, c))
    ensures Classes(Orderings(a, b, c)) == {Class([a, b, c])}
    ensures CountClass(Orderings(a, b, c), Class([a, b, c])) == 6
  {
    var D := Orderings(a, b, c);
    forall i | 0 <= i < 6
      ensures Class(Perms(a, b, c)[i]) == Class([a, b, c])
    {
      PermClass(a, b, c, i);
    }
    assert forall i :: 0 <= i < |D| ==> D[i].0 == Perms(a, b, c)[i];
    OneClass(D, Class([a, b, c]));
  }

  /** The classes of the examples below are pairwise different. */
  lemma ExampleClasses(a: Block, b: Block, c: Block)
    requires a != b && b != c && a != c
    ensures Class([a, b, c]) != Class([c, c]) && Class([a, b, c]) != Class([a, b]) && Class([c, c]) != Class([a, b])
    ensures Class([b, a]) == Class([a, b])
  {
    assert |Class([a, b, c])| == 3 && |Class([c, c])| == 2 && |Class([a, b])| == 2;
    ClassOfTwo(c, c);
    ClassOfTwo(a, b);
    ClassOfTwo(b, a);
  }

  /** The arrangements of the classes met in the examples below. */
  lemma ExampleArrangements(a: Block, b: Block, c: Block)
    requires a != b && b != c && a != c
    ensures Arrangements(Class([a, b, c])) == 6
    ensures Arrangements(Class([c, c])) == 1
    ensures Arrangements(Class([a, b])) == 2
  {
    ClassOfThree(a, b, c);
    ArrangementsDistinct(Class([a, b, c]));
    ClassOfTwo(c, c);
    assert Class([c, c]) == Copies(c, 2);
    ArrangementsCopies(c, 2);
    ClassOfTwo(a, b);
    ArrangementsDistinct(Class([a, b]));
  }

  /** The examples of `is_symmetric` for three distinct blocks a, b, c:
      the six orderings are symmetric, and so is the result of subtracting
      3*M[c,c]. */
  lemma SymmetricOrderings(a: Block, b: Block, c: Block)
    requires a != b && b != c && a != c
    ensures Symmetric(Orderings(a, b, c))
    ensures Symmetric(Orderings(a, b, c) + [([c, c], -3)])
  {
    OrderingsOneClass(a, b, c);
    ExampleClasses(a, b, c);
    ExampleArrangements(a, b, c);
    AddToOneClass(Orderings(a, b, c), Class([a, b, c]), ([c, c], -3));
  }

  /** Adding a term of a new class with one arrangement to a symmetric
      element with one class. */
  lemma AddToOneClass(D: Terms<int>, K: multiset<Block>, x: (Omp, int))
    requires CoefsAgree(D) && Classes(D) == {K} && CountClass(D, K) == Arrangements(K)
    requires Class(x.0) != K && Arrangements(Class(x.0)) == 1
    ensures Symmetric(D) && Symmetric(D + [x])
    ensures Classes(D + [x]) == {K, Class(x.0)}
  {
    AppendNew(D, x);
    forall la | la in Classes(D)
      ensures CountClass(D, la) == Arrangements(la)
    {
      assert la == K;
    }
    forall la | la in Classes(D + [x])
      ensures CountClass(D + [x], la) == Arrangements(la)
    {
      assert la == K || la == Class(x.0);
    }
  }

  /** Adding M[a,b] alone to a symmetric element without that class breaks
      symmetry when [a,b] has two arrangements, and adding M[b,a] restores it. */
  lemma AddPair(E: Terms<int>, x2: (Omp, int), x3: (Omp, int))
    requires Symmetric(E) && Class(x2.0) !in Classes(E)
    requires Class(x3.0) == Class(x2.0) && x3.1 == x2.1 && Arrangements(Class(x2.0)) == 2
    ensures !Symmetric(E + [x2])
    ensures Symmetric(E + [x2, x3])
  {
    AppendNew(E, x2);
    AppendOld(E + [x2], x3);
    assert E + [x2] + [x3] == E + [x2, x3];
  }

  /** Adding M[a,b] alone breaks symmetry, and adding M[b,a] restores it. */
  lemma SymmetryBrokenAndRestored(a: Block, b: Block, c: Block)
    requires a != b && b != c && a != c
    ensures !Symmetric(Orderings(a, b, c) + [([c, c], -3), ([a, b], 1)])
    ensures Symmetric(Orderings(a, b, c) + [([c, c], -3), ([a, b], 1), ([b, a], 1)])
  {
    OrderingsOneClass(a, b, c);
    ExampleClasses(a, b, c);
    ExampleArrangements(a, b, c);
    AddNewThenPair(Orderings(a, b, c), Class([a, b, c]), ([c, c], -3), ([a, b], 1), ([b, a], 1));
  }

  lemma AddNewThenPair(D: Terms<int>, K: multiset<Block>, x1: (Omp, int), x2: (Omp, int), x3: (Omp, int))
    requires CoefsAgree(D) && Classes(D) == {K} && CountClass(D, K) == Arrangements(K)
    requires Class(x1.0) != K && Arrangements(Class(x1.0)) == 1
    requires Class(x2.0) != K && Class(x2.0) != Class(x1.0)
    requires Class(x3.0) == Class(x2.0) && x3.1 == x2.1 && Arrangements(Class(x2.0)) == 2
    ensures !Symmetric(D + [x1, x2])
    ensures Symmetric(D + [x1, x2, x3])
  {
    AddToOneClass(D, K, x1);
    AddPair(D + [x1], x2, x3);
    assert D + [x1] + [x2] == D + [x1, x2];
    assert D + [x1] + [x2, x3] == D + [x1, x2, x3];
  }

  /** The examples of `is_symmetric` with the blocks [2], [2,3], [1], and the
      test that M[[]] is symmetric. */
  lemma IsSymmetricDocumented()
    ensures Symmetric(Orderings({2}, {2, 3}, {1}) + [([{1}, {1}], -3)])
    ensures !Symmetric(Orderings({2}, {2, 3}, {1}) + [([{1}, {1}], -3), ([{2}, {2, 3}], 1)])
    ensures Symmetric(Orderings({2}, {2, 3}, {1}) + [([{1}, {1}], -3), ([{2}, {2, 3}], 1), ([{2, 3}, {2}], 1)])
    ensures Symmetric([([], 1)])
  {
    var a, b, c: Block := {2}, {2, 3}, {1};
    assert 3 in b && 2 !in c;
    SymmetricOrderings(a, b, c);
    SymmetryBrokenAndRestored(a, b, c);
    OneClass([([], 1)], Class([]));
    ArrangementsCopies(a, 0);
    assert Class([]) == Copies(a, 0);
  }
}
