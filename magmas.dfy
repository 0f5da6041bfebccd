/** Cayley-graph successors in a finitely generated magma
    (src/sage/categories/finitely_generated_magmas.py): the successor
    function `succ_generators` and the right ideal of the generators that
    `__iter__` enumerates. The magma is a type with a binary operation. */
module Magmas {

  /** The products g * x for every generator g, in generator order. */
  function LeftProducts<T>(gens: seq<T>, mul: (T, T) -> T, x: T): (r: seq<T>)
    ensures |r| == |gens| && forall i :: 0 <= i < |gens| ==> r[i] == mul(gens[i], x)
  {
    seq(|gens|, i requires 0 <= i < |gens| => mul(gens[i], x))
  }

  /** The products x * g for every generator g, in generator order. */
  function RightProducts<T>(gens: seq<T>, mul: (T, T) -> T, x: T): (r: seq<T>)
    ensures |r| == |gens| && forall i :: 0 <= i < |gens| ==> r[i] == mul(x, gens[i])
  {
    seq(|gens|, i requires 0 <= i < |gens| => mul(x, gens[i]))
  }

  /** `succ_generators(side)(x)`: the products of x by each generator on the
      left, on the right, or the left ones followed by the right ones; any
      other side string gives no successors. */
  function SuccGenerators<T>(side: string, gens: seq<T>, mul: (T, T) -> T, x: T): (r: seq<T>)
    ensures side == "left" ==> |r| == |gens| && forall i :: 0 <= i < |gens| ==> r[i] == mul(gens[i], x)
    ensures side == "right" ==> |r| == |gens| && forall i :: 0 <= i < |gens| ==> r[i] == mul(x, gens[i])
    ensures side == "twosided" ==>
              && |r| == 2 * |gens|
              && (forall i :: 0 <= i < |gens| ==> r[i] == mul(gens[i], x))
              && (forall i :: 0 <= i < |gens| ==> r[|gens| + i] == mul(x, gens[i]))
    ensures side !in {"left", "right", "twosided"} ==> r == []
  {
    var left := side == "left" || side == "twosided";
    var right := side == "right" || side == "twosided";
    (if left then LeftProducts(gens, mul, x) else []) + (if right then RightProducts(gens, mul, x) else [])
  }

  /** The two-sided successors are the left ones followed by the right ones. */
  lemma TwosidedIsLeftThenRight<T>(gens: seq<T>, mul: (T, T) -> T, x: T)
    ensures SuccGenerators("twosided", gens, mul, x)
         == SuccGenerators("left", gens, mul, x) + SuccGenerators("right", gens, mul, x)
  {
    var l, r := SuccGenerators("left", gens, mul, x), SuccGenerators("right", gens, mul, x);
    var t := SuccGenerators("twosided", gens, mul, x);
    assert |t| == |l + r|;
    forall i | 0 <= i < |t|
      ensures t[i] == (l + r)[i]
    {
      if i >= |gens| {
        assert t[|gens| + (i - |gens|)] == mul(x, gens[i - |gens|]);
      }
    }
  }

  /** One round of a successor function applied to every element of
      prev. */
  function Successors<T(==)>(succ: T -> seq<T>, prev: set<T>): set<T>
  {
    set x, i | x in prev && 0 <= i < |succ(x)| :: succ(x)[i]
  }

  /** One round of the enumeration: what was reached so far together with
      its successors, so nothing reached is ever lost. */
  function Round<T(==)>(succ: T -> seq<T>, prev: set<T>): (r: set<T>)
    ensures prev <= r
  {
    prev + Successors(succ, prev)
  }

  /** `TransitiveIdeal(succ, seeds)` cut after n rounds: the elements
      reachable from `seeds` in at most n steps of `succ`. */
  function Within<T(==)>(succ: T -> seq<T>, seeds: set<T>, n: nat): (s: set<T>)
    ensures seeds <= s
    decreases n
  {
    if n == 0 then seeds
    else Round(succ, Within(succ, seeds, n - 1))
  }

  /** `ideal(gens, side)` cut after n rounds. */
  function Ideal<T(==)>(side: string, gens: seq<T>, mul: (T, T) -> T, seeds: set<T>, n: nat): set<T>
  {
    Within(SuccFunction(side, gens, mul), seeds, n)
  }

  /** `succ_generators(side)` as a function value. */
  function SuccFunction<T>(side: string, gens: seq<T>, mul: (T, T) -> T): T -> seq<T>
  {
    x => SuccGenerators(side, gens, mul, x)
  }

  lemma RightSuccessor<T>(gens: seq<T>, mul: (T, T) -> T, prev: set<T>, x: T, i: int)
    requires x in prev && 0 <= i < |gens|
    ensures mul(x, gens[i]) in Successors(SuccFunction("right", gens, mul), prev)
  {
    var succ := SuccFunction("right", gens, mul);
    assert succ(x) == SuccGenerators("right", gens, mul, x);
    assert succ(x)[i] == mul(x, gens[i]);
  }

  lemma RightPredecessor<T>(gens: seq<T>, mul: (T, T) -> T, prev: set<T>, y: T) returns (x: T, i: int)
    requires y in Successors(SuccFunction("right", gens, mul), prev)
    ensures x in prev && 0 <= i < |gens| && y == mul(x, gens[i])
  {
    var succ := SuccFunction("right", gens, mul);
    x, i :| x in prev && 0 <= i < |succ(x)| && y == succ(x)[i];
    assert succ(x) == SuccGenerators("right", gens, mul, x);
  }

  /** `__iter__`: the right ideal of the generators, up to n rounds. */
  function Elements<T(==)>(gens: seq<T>, mul: (T, T) -> T, n: nat): set<T>
  {
    Ideal("right", gens, mul, (set g | g in gens), n)
  }

  /** The left-nested product w[0] * w[1] * ... * w[|w|-1]. */
  function Product<T>(w: seq<T>, mul: (T, T) -> T): T
    requires |w| >= 1
  {
    if |w| == 1 then w[0] else mul(Product(w[..|w| - 1], mul), w[|w| - 1])
  }

  /** A non-empty word over the generators. */
  predicate IsWord<T(==)>(w: seq<T>, gens: seq<T>)
  {
    |w| >= 1 && forall i :: 0 <= i < |w| ==> w[i] in gens
  }

  /** A later round holds everything an earlier one does. */
  lemma {:induction false} WithinMonotone<T>(succ: T -> seq<T>, seeds: set<T>, m: nat, n: nat)
    requires m <= n
    ensures Within(succ, seeds, m) <= Within(succ, seeds, n)
    decreases n
  {
    if m < n {
      WithinMonotone(succ, seeds, m, n - 1);
      SubsetTransitive(Within(succ, seeds, m), Within(succ, seeds, n - 1), Within(succ, seeds, n));
    }
  }

  lemma SubsetTransitive<T>(a: set<T>, b: set<T>, c: set<T>)
    requires a <= b && b <= c
    ensures a <= c
  {
  }

  /** Every element of the first n rounds of `__iter__` is a product of at
      most n + 1 generators; the lemma returns such a word. */
  lemma {:induction false} ElementsAreProducts<T>(gens: seq<T>, mul: (T, T) -> T, n: nat, y: T) returns (w: seq<T>)
    requires y in Elements(gens, mul, n)
    ensures IsWord(w, gens) && |w| <= n + 1 && Product(w, mul) == y
    decreases n
  {
    if n == 0 {
      w := [y];
    } else {
      var earlier, x, i := Origin(gens, mul, n, y);
      if earlier {
        w := ElementsAreProducts(gens, mul, n - 1, y);
      } else {
        var u := ElementsAreProducts(gens, mul, n - 1, x);
        w := ExtendWord(gens, mul, u, i);
      }
    }
  }

  /** An element of round n was already there in the round before, or is
      an element of the round before times a generator. */
  lemma Origin<T>(gens: seq<T>, mul: (T, T) -> T, n: nat, y: T) returns (earlier: bool, x: T, i: int)
    requires n > 0 && y in Elements(gens, mul, n)
    ensures earlier ==> y in Elements(gens, mul, n - 1)
    ensures !earlier ==> x in Elements(gens, mul, n - 1) && 0 <= i < |gens| && y == mul(x, gens[i])
  {
    var prev := Elements(gens, mul, n - 1);
    assert Elements(gens, mul, n) == Round(SuccFunction("right", gens, mul), prev);
    earlier, x, i := true, y, 0;
    if y !in prev {
      earlier := false;
      x, i := RightPredecessor(gens, mul, prev, y);
    }
  }

  /** A word followed by one more generator is a word whose product is
      the old product times that generator. */
  lemma ExtendWord<T>(gens: seq<T>, mul: (T, T) -> T, w: seq<T>, i: int) returns (w': seq<T>)
    requires IsWord(w, gens) && 0 <= i < |gens|
    ensures w' == w + [gens[i]] && |w'| == |w| + 1
    ensures IsWord(w', gens) && Product(w', mul) == mul(Product(w, mul), gens[i])
  {
    w' := w + [gens[i]];
    assert w'[..|w'| - 1] == w && w'[|w'| - 1] == gens[i];
    forall j | 0 <= j < |w'|
      ensures w'[j] in gens
    {
      if j < |w| {
        assert w'[j] == w[j];
      }
    }
  }

  /** Conversely every product of at most n + 1 generators appears in the
      first n rounds of `__iter__`. */
  lemma {:induction false} ProductsAreElements<T>(gens: seq<T>, mul: (T, T) -> T, n: nat, w: seq<T>)
    requires IsWord(w, gens) && |w| <= n + 1
    ensures Product(w, mul) in Elements(gens, mul, n)
    decreases n
  {
    var seeds := set g | g in gens;
    if |w| == 1 {
      assert w[0] in gens;
      WithinMonotone(SuccFunction("right", gens, mul), seeds, 0, n);
    } else {
      var u := w[..|w| - 1];
      assert IsWord(u, gens);
      ProductsAreElements(gens, mul, n - 1, u);
      var x := Product(u, mul);
      var g := w[|w| - 1];
      var i :| 0 <= i < |gens| && gens[i] == g;
      RightSuccessor(gens, mul, Elements(gens, mul, n - 1), x, i);
    }
  }
}
