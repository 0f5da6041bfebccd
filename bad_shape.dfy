// Tableaux of bad shape: finitely many cells of Z^2, each carrying an entry.
// The tableau is the dictionary from cells to entries and nothing else.

module BadShape {
  import opened Outcomes

  /** A cell (row, column); both coordinates are arbitrary integers. */
  type Cell = (int, int)

  /** `BadShapeTableau(dct)` keeps a copy of the dictionary `dct`, so the
      tableau is a value: later changes to `dct` do not reach it. */
  datatype BadShapeTableau<V> = BadShapeTableau(dict: map<Cell, V>)

  /** The cells of the tableau. */
  function Cells<V>(t: BadShapeTableau<V>): set<Cell>
  {
    t.dict.Keys
  }

  /** `filter_by_cells(predicate)`: the entries whose cell (i, j) satisfies
      `predicate(i, j)`. */
  function FilterByCells<V>(t: BadShapeTableau<V>, keep: (int, int) -> bool): (r: BadShapeTableau<V>)
    ensures forall c :: c in Cells(r) <==> c in Cells(t) && keep(c.0, c.1)
    ensures forall c :: c in Cells(r) ==> r.dict[c] == t.dict[c]
  {
    BadShapeTableau(map c | c in t.dict && keep(c.0, c.1) :: t.dict[c])
  }

  /** `filter_by_values(predicate)`: the entries satisfying `predicate`. */
  function FilterByValues<V>(t: BadShapeTableau<V>, keep: V -> bool): (r: BadShapeTableau<V>)
    ensures forall c :: c in Cells(r) <==> c in Cells(t) && keep(t.dict[c])
    ensures forall c :: c in Cells(r) ==> r.dict[c] == t.dict[c]
  {
    BadShapeTableau(map c | c in t.dict && keep(t.dict[c]) :: t.dict[c])
  }

  /** The entries kept by a filter and those it drops make up the tableau. */
  lemma FilterByCellsSplits<V>(t: BadShapeTableau<V>, keep: (int, int) -> bool)
    ensures Cells(FilterByCells(t, keep)) !! Cells(FilterByCells(t, (i, j) => !keep(i, j)))
    ensures FilterByCells(t, keep).dict + FilterByCells(t, (i, j) => !keep(i, j)).dict == t.dict
  {
    var keep, drop := FilterByCells(t, keep), FilterByCells(t, (i, j) => !keep(i, j));
    assert (keep.dict + drop.dict).Keys == t.dict.Keys;
  }

  lemma FilterByValuesSplits<V>(t: BadShapeTableau<V>, keep: V -> bool)
    ensures Cells(FilterByValues(t, keep)) !! Cells(FilterByValues(t, v => !keep(v)))
    ensures FilterByValues(t, keep).dict + FilterByValues(t, v => !keep(v)).dict == t.dict
  {
    var keep, drop := FilterByValues(t, keep), FilterByValues(t, v => !keep(v));
    assert (keep.dict + drop.dict).Keys == t.dict.Keys;
  }

  /** Filtering twice by the same keep changes nothing more, and two
      filters by cells and by values may be applied in either order. */
  lemma FilterIdempotent<V>(t: BadShapeTableau<V>, p: (int, int) -> bool, q: V -> bool)
    ensures FilterByCells(FilterByCells(t, p), p) == FilterByCells(t, p)
    ensures FilterByValues(FilterByValues(t, q), q) == FilterByValues(t, q)
    ensures FilterByCells(FilterByValues(t, q), p) == FilterByValues(FilterByCells(t, p), q)
  {
    assert FilterByCells(FilterByCells(t, p), p).dict == FilterByCells(t, p).dict;
    assert FilterByValues(FilterByValues(t, q), q).dict == FilterByValues(t, q).dict;
    assert FilterByCells(FilterByValues(t, q), p).dict == FilterByValues(FilterByCells(t, p), q).dict;
  }

  /** The tableau read across its main diagonal: cell (x, y) carries the
      entry of cell (y, x). This is what `conjugate` is documented to return. */
  function Transposed<V>(t: BadShapeTableau<V>): (r: BadShapeTableau<V>)
    ensures forall x, y :: (x, y) in Cells(r) <==> (y, x) in Cells(t)
    ensures forall x, y :: (x, y) in Cells(r) ==> r.dict[(x, y)] == t.dict[(y, x)]
  {
    BadShapeTableau(map c | c in t.dict :: (c.1, c.0) := t.dict[c])
  }

  /** Conjugating twice gives the tableau back. */
  lemma TransposedInvolution<V>(t: BadShapeTableau<V>)
    ensures Transposed(Transposed(t)) == t
  {
    var r := Transposed(Transposed(t));
    forall c | c in r.dict
      ensures c in t.dict && r.dict[c] == t.dict[c]
    {
      assert (c.1, c.0) in Cells(Transposed(t));
    }
    forall c | c in t.dict
      ensures c in r.dict
    {
      assert (c.1, c.0) in Cells(Transposed(t));
    }
    assert r.dict == t.dict;
  }

  /** Conjugation commutes with filtering by values. */
  lemma TransposedFilterByValues<V>(t: BadShapeTableau<V>, q: V -> bool)
    ensures Transposed(FilterByValues(t, q)) == FilterByValues(Transposed(t), q)
  {
    var a, b := Transposed(FilterByValues(t, q)), FilterByValues(Transposed(t), q);
    forall c | c in a.dict
      ensures c in b.dict
    {
      assert (c.1, c.0) in Cells(FilterByValues(t, q));
    }
    assert a.dict == b.dict;
  }

  /** Conjugation turns a filter by cells into the filter by the mirrored
      predicate. */
  lemma TransposedFilterByCells<V>(t: BadShapeTableau<V>, p: (int, int) -> bool)
    ensures Transposed(FilterByCells(t, (i, j) => p(j, i))) == FilterByCells(Transposed(t), p)
  {
    var mirrored := (i, j) => p(j, i);
    var e, f := Transposed(FilterByCells(t, mirrored)), FilterByCells(Transposed(t), p);
    forall c | c in e.dict
      ensures c in f.dict
    {
      assert (c.1, c.0) in Cells(FilterByCells(t, mirrored));
    }
    forall c | c in f.dict
      ensures c in e.dict
    {
      assert (c.1, c.0) in Cells(t);
      assert mirrored(c.1, c.0);
    }
    assert e.dict == f.dict;
  }

  /** `conjugate` as written iterates over the dictionary itself, which
      yields its keys: each key (x, y) is unpacked into `k = x` and `v = y`,
      and `k[1]` on the integer x raises TypeError. Only the empty tableau
      gets through, to the empty tableau. */
  function ConjugateAsWritten<V>(t: BadShapeTableau<V>): (r: Result<BadShapeTableau<V>>)
    ensures r.Ok? <==> Cells(t) == {}
    ensures r.Err? ==> r.exc == TypeError
  {
    if t.dict == map[] then Ok(BadShapeTableau(map[])) else Err(TypeError)
  }

  /** Where `conjugate` as written returns at all, it returns the transposed
      tableau; it fails on every tableau with a cell. */
  lemma ConjugateAsWrittenFails<V>(t: BadShapeTableau<V>)
    ensures ConjugateAsWritten(t).Ok? ==> ConjugateAsWritten(t) == Ok(Transposed(t))
    ensures ConjugateAsWritten(t) == Ok(Transposed(t)) <==> Cells(t) == {}
  {
    if t.dict != map[] {
      var c :| c in t.dict;
      assert (c.1, c.0) in Cells(Transposed(t));
    } else {
      assert Transposed(t).dict == map[];
    }
  }

  /** The one-cell tableau {(0, 1): 5}: its conjugate is {(1, 0): 5}, which
      `conjugate` as written does not produce. */
  lemma ConjugateOneCell()
    ensures Transposed(BadShapeTableau(map[(0, 1) := 5])) == BadShapeTableau(map[(1, 0) := 5])
    ensures ConjugateAsWritten(BadShapeTableau(map[(0, 1) := 5])).Err?
  {
    var t := BadShapeTableau(map[(0, 1) := 5]);
    assert (0, 1) in t.dict;
    assert Transposed(t).dict == map[(1, 0) := 5];
  }
}
