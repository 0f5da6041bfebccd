// Oscillating (up-down) tableaux: sequences of partitions in which each step
// adds or removes one box, with their words, validation, descents and the
// local rule.

module Oscillating {
  import opened Outcomes
  import opened PyStrings
  import opened Partitions

  // ---------------------------------------------------------------------
  // Words
  // ---------------------------------------------------------------------

  /** One letter of a word: a > 0 adds a box to row a - 1; a < 0 takes one
      from row -a - 1, which must exist. */
  function Step(p: Partition, a: int): Result<Partition>
    requires a != 0
  {
    if a > 0 then AddCell(p, a - 1)
    else if -a - 1 >= |p| then Err(IndexError)
    else ToPartition(p[-a - 1 := p[-a - 1] - 1])
  }

  predicate NoZero(word: seq<int>)
  {
    forall k :: 0 <= k < |word| ==> word[k] != 0
  }

  /** The tableau of the empty word. */
  const EmptyWalk: seq<Partition> := [[]]

  /** The partitions visited by a word, starting from the empty partition. */
  function Walk(word: seq<int>): (r: Result<seq<Partition>>)
    requires NoZero(word)
    ensures r.Ok? ==> |r.value| == |word| + 1 && r.value[0] == []
  {
    if |word| == 0 then Ok(EmptyWalk)
    else
      match Walk(word[..|word| - 1])
      case Err(e) => Err(e)
      case Ok(w) =>
        match Step(w[|w| - 1], word[|word| - 1])
        case Err(e) => Err(e)
        case Ok(q) => Ok(w + [q])
  }

  /** The tableau of a word: refused when it holds a zero, otherwise its walk. */
  function WordTableau(word: seq<int>): Result<seq<Partition>>
  {
    if !NoZero(word) then Err(ValueError("list may not contain zero")) else Walk(word)
  }

  /** One more letter extends the walk, or ends it with the step's error. */
  lemma WalkStep(word: seq<int>, i: nat, w: seq<Partition>)
    requires NoZero(word) && i < |word| && Walk(word[..i]) == Ok(w)
    ensures Walk(word[..i + 1]) == match Step(w[|w| - 1], word[i])
                                   case Err(e) => Err(e)
                                   case Ok(q) => Ok(w + [q])
  {
    assert word[..i + 1][..i] == word[..i];
  }

  /** An error in a prefix of the walk is the error of the whole walk. */
  lemma {:induction false} WalkErrPersists(word: seq<int>, i: nat, e: Exception)
    requires NoZero(word) && i <= |word| && Walk(word[..i]) == Err(e)
    ensures Walk(word) == Err(e)
    decreases |word| - i
  {
    if i == |word| {
      assert word[..i] == word;
    } else {
      assert word[..i + 1][..i] == word[..i];
      WalkErrPersists(word, i + 1, e);
    }
  }

  /** The body of the word loop: `add_cell(a - 1)` for a > 0, otherwise one
      box less in row -a - 1 of a copy of the list, made a partition again. */
  method ApplyLetter(p: Partition, a: int) returns (next: Result<Partition>)
    requires a != 0
    ensures next == Step(p, a)
  {
    if a > 0 {
      next := AddCell(p, a - 1);
    } else {
      var pt: seq<int> := p;
      if -a - 1 >= |pt| {
        return Err(IndexError);
      }
      pt := pt[-a - 1 := pt[-a - 1] - 1];
      next := ToPartition(pt);
    }
  }

  /** The word input of `OscillatingTableau`: a zero is refused first, then
      the partitions are filled in one step per letter. */
  method FromWord(word: seq<int>) returns (r: Result<seq<Partition>>)
    ensures r == WordTableau(word)
  {
    if exists k :: 0 <= k < |word| && word[k] == 0 {
      return Err(ValueError("list may not contain zero"));
    }
    var w: seq<Partition> := seq(|word| + 1, _ => []);
    assert word[..0] == [] && w[..1] == [[]];
    for i := 0 to |word|
      invariant |w| == |word| + 1
      invariant Walk(word[..i]) == Ok(w[..i + 1])
    {
      var next := ApplyLetter(w[i], word[i]);
      assert w[..i + 1][i] == w[i];
      WalkStep(word, i, w[..i + 1]);
      if next.Err? {
        WalkErrPersists(word, i + 1, next.exc);
        return Err(next.exc);
      }
      assert w[..i + 1] + [next.value] == w[i + 1 := next.value][..i + 2];
      w := w[i + 1 := next.value];
    }
    assert word[..|word|] == word && w[..|word| + 1] == w;
    r := Ok(w);
  }

  // ---------------------------------------------------------------------
  // Validation
  // ---------------------------------------------------------------------

  /** One step adds a box to, or removes a box from, the partition. */
  predicate OneBoxStep(h: Partition, t: Partition)
  {
    (Size(t) == Size(h) + 1 && Contains(t, h)) || (Size(h) == Size(t) + 1 && Contains(h, t))
  }

  predicate ValidSteps(T: seq<Partition>)
  {
    forall i :: 0 <= i < |T| - 1 ==> OneBoxStep(T[i], T[i + 1])
  }

  /** The complaint `check` raises about one step, if any. */
  function StepError(h: Partition, t: Partition): (e: Option<Exception>)
    ensures e.None? <==> OneBoxStep(h, t)
  {
    if Size(t) - Size(h) != 1 && Size(h) - Size(t) != 1 then
      Some(ValueError("adjacent partitions differ by more than one box"))
    else if Size(t) == Size(h) + 1 && !Contains(t, h) then
      Some(ValueError("next partition is not obtained by adding a cell"))
    else if Size(h) == Size(t) + 1 && !Contains(h, t) then
      Some(ValueError("next partition is not obtained by removing a cell"))
    else None
  }

  /** The first complaint about the steps from position i on. */
  function CheckFrom(T: seq<Partition>, i: nat): Option<Exception>
    decreases |T| - i
  {
    if i + 1 >= |T| then None
    else if StepError(T[i], T[i + 1]).Some? then StepError(T[i], T[i + 1])
    else CheckFrom(T, i + 1)
  }

  /** A step that adds or removes one box passes the check on to the next
      position. */
  lemma CheckSkips(T: seq<Partition>, i: nat)
    requires i + 1 < |T| && OneBoxStep(T[i], T[i + 1])
    ensures CheckFrom(T, i) == CheckFrom(T, i + 1)
  {
  }

  /** `check` complains exactly when some step does not add or remove one box. */
  lemma {:induction false} CheckIff(T: seq<Partition>, i: nat)
    ensures CheckFrom(T, i) == None <==> forall j :: i <= j < |T| - 1 ==> OneBoxStep(T[j], T[j + 1])
    decreases |T| - i
  {
    if i + 1 < |T| {
      CheckIff(T, i + 1);
    }
  }

  /** `check`: the steps in order, stopping at the first complaint. */
  method Check(T: seq<Partition>) returns (e: Option<Exception>)
    ensures e == CheckFrom(T, 0)
  {
    var n := |T|;
    var i := 0;
    while i < n - 1
      invariant 0 <= i && (n > 0 ==> i <= n - 1)
      invariant CheckFrom(T, 0) == CheckFrom(T, i)
    {
      var h, t := T[i], T[i + 1];
      if Size(t) - Size(h) != 1 && Size(h) - Size(t) != 1 {
        return Some(ValueError("adjacent partitions differ by more than one box"));
      }
      if Size(t) == Size(h) + 1 {
        if !Contains(t, h) {
          return Some(ValueError("next partition is not obtained by adding a cell"));
        }
      }
      if Size(h) == Size(t) + 1 {
        if !Contains(h, t) {
          return Some(ValueError("next partition is not obtained by removing a cell"));
        }
      }
      i := i + 1;
    }
    return None;
  }

  // ---------------------------------------------------------------------
  // From a tableau to its word
  // ---------------------------------------------------------------------

  /** The signed row number of the first row in which t differs from h, or 0. */
  function FirstDiff(h: seq<int>, t: seq<int>, j: nat): int
    requires |h| <= |t|
    decreases |h| - j
  {
    if j >= |h| then 0
    else if t[j] - h[j] != 0 then (j + 1) * (t[j] - h[j])
    else FirstDiff(h, t, j + 1)
  }

  lemma {:induction false} FirstDiffAt(h: seq<int>, t: seq<int>, j: nat, r: nat)
    requires |h| <= |t| && j <= r < |h| && t[r] != h[r]
    requires forall k :: j <= k < r ==> t[k] == h[k]
    ensures FirstDiff(h, t, j) == (r + 1) * (t[r] - h[r])
    ensures t[r] == h[r] + 1 ==> FirstDiff(h, t, j) == r + 1
    ensures t[r] == h[r] - 1 ==> FirstDiff(h, t, j) == -(r + 1)
    decreases r - j
  {
    if j < r {
      FirstDiffAt(h, t, j + 1, r);
    }
  }

  /** The letter of one step: minus the old number of rows when a row goes,
      the new number of rows when a row appears, otherwise the signed row
      number of the first change. */
  function Letter(h: Partition, t: Partition): int
  {
    if |h| > |t| then -|h|
    else if |h| < |t| then |t|
    else FirstDiff(h, t, 0)
  }

  /** The word of a tableau, one letter per step. */
  function WordOf(T: seq<Partition>): (w: seq<int>)
    ensures |w| == if |T| == 0 then 0 else |T| - 1
  {
    seq(if |T| == 0 then 0 else |T| - 1, i requires 0 <= i < |T| - 1 => Letter(T[i], T[i + 1]))
  }

  /** The scan of `to_word` over rows of equal count: the first nonzero
      difference, times its row number. */
  method RowChange(h: Partition, t: Partition) returns (letter: int)
    requires |h| == |t|
    ensures letter == FirstDiff(h, t, 0)
  {
    for j := 0 to |h|
      invariant FirstDiff(h, t, 0) == FirstDiff(h, t, j)
    {
      var d := t[j] - h[j];
      if d != 0 {
        return (j + 1) * d;
      }
    }
    return 0;
  }

  /** `to_word`: the letters filled in step by step; a step that keeps the
      number of rows scans the rows for the first change. */
  method ToWord(T: seq<Partition>) returns (result: seq<int>)
    ensures result == WordOf(T)
  {
    var n := |T|;
    result := seq(if n == 0 then 0 else n - 1, _ => 0);
    var l := seq(n, k requires 0 <= k < n => |T[k]|);
    var i := 0;
    while i < n - 1
      invariant |result| == (if n == 0 then 0 else n - 1) && 0 <= i <= |result|
      invariant forall k :: 0 <= k < i ==> result[k] == Letter(T[k], T[k + 1])
      invariant forall k :: i <= k < |result| ==> result[k] == 0
    {
      if l[i] > l[i + 1] {
        result := result[i := -l[i]];
      } else if l[i] < l[i + 1] {
        result := result[i := l[i + 1]];
      } else {
        var letter := RowChange(T[i], T[i + 1]);
        result := result[i := letter];
      }
      i := i + 1;
    }
  }

  // ---------------------------------------------------------------------
  // Words and tableaux are inverse
  // ---------------------------------------------------------------------

  /** Adding a box in row r: one box more, containing the old partition,
      and the letter r + 1. */
  lemma AddCellStep(p: Partition, r: nat, q: Partition)
    requires AddCell(p, r) == Ok(q)
    ensures OneBoxStep(p, q) && Letter(p, q) == r + 1
  {
    if r == |p| {
      assert q[..|q| - 1] == p;
    } else {
      SizeUpdate(p, r, p[r] + 1);
      FirstDiffAt(p, q, 0, r);
    }
  }

  /** Taking the only box of row r leaves the rows above it, and r is the last row. */
  lemma RemoveLastBox(p: Partition, r: nat, q: Partition)
    requires r < |p| && p[r] == 1 && ToPartition(p[r := 0]) == Ok(q)
    ensures r == |p| - 1 && q == p[..r]
  {
    var pt := p[r := 0];
    forall k | r + 1 <= k < |p|
      ensures p[k] == 0
    {
      DecreasingFrom(pt, r, k);
    }
    NoRoomAfter(p, r + 1);
    PositiveCountIs(pt, r);
    assert pt[..r] == p[..r];
  }

  /** Removing one box from a row of two or more. */
  lemma ShortenRow(p: Partition, r: nat, q: Partition)
    requires r < |p| && p[r] > 1 && ToPartition(p[r := p[r] - 1]) == Ok(q)
    ensures q == p[r := p[r] - 1] && Size(p) == Size(q) + 1 && Contains(p, q)
    ensures FirstDiff(p, q, 0) == -(r + 1)
  {
    PositiveList(p[r := p[r] - 1], q);
    SizeUpdate(p, r, p[r] - 1);
    FirstDiffAt(p, q, 0, r);
  }

  /** Removing a box from row r: one box fewer, contained in the old
      partition, and the letter -(r + 1). */
  lemma RemoveStep(p: Partition, r: nat, q: Partition)
    requires r < |p| && ToPartition(p[r := p[r] - 1]) == Ok(q)
    ensures OneBoxStep(p, q) && Letter(p, q) == -(r + 1)
  {
    if p[r] > 1 {
      ShortenRow(p, r, q);
      assert |p| == |q|;
    } else {
      DropRow(p, r, q);
    }
  }

  /** Taking the only box of a row drops the last row. */
  lemma DropRow(p: Partition, r: nat, q: Partition)
    requires r < |p| && p[r] == 1 && ToPartition(p[r := 0]) == Ok(q)
    ensures Size(p) == Size(q) + 1 && Contains(p, q) && |p| == r + 1 && |q| == r
  {
    RemoveLastBox(p, r, q);
    assert p == q + [1];
    SizeConcat(q, [1]);
    SizeOne(1);
  }

  /** Every letter step adds or removes one box and is read back as its letter. */
  lemma StepLetter(p: Partition, a: int, q: Partition)
    requires a != 0 && Step(p, a) == Ok(q)
    ensures OneBoxStep(p, q) && Letter(p, q) == a
  {
    if a > 0 {
      AddCellStep(p, a - 1, q);
    } else {
      RemoveStep(p, -a - 1, q);
    }
  }

  /** The only way to add one box without shrinking any row is to grow a
      single row by one. */
  lemma {:induction false} GrowOneRow(h: seq<int>, t: seq<int>) returns (k0: nat)
    requires |h| == |t| && (forall k :: 0 <= k < |h| ==> t[k] >= h[k]) && Size(t) == Size(h) + 1
    ensures k0 < |h| && t == h[k0 := h[k0] + 1]
    decreases |h|
  {
    var n := |h| - 1;
    var h', t' := h[..n], t[..n];
    assert Size(t) == Size(t') + t[n] && Size(h) == Size(h') + h[n];
    SizeDominates(t', h');
    if t[n] == h[n] {
      k0 := GrowOneRow(h', t');
      forall k | 0 <= k < |t|
        ensures t[k] == h[k0 := h[k0] + 1][k]
      {
        if k < n {
          assert t[k] == t'[k] && h[k] == h'[k];
        }
      }
    } else {
      k0 := n;
      forall k | 0 <= k < n
        ensures t[k] == h[k]
      {
        assert t[k] == t'[k] && h[k] == h'[k];
      }
    }
  }

  /** Adding one box that makes a new row: the new row is [1]. */
  lemma NewRow(h: Partition, t: Partition)
    requires Contains(t, h) && |t| > |h| && Size(t) == Size(h) + 1
    ensures t == h + [1]
  {
    var t1, t2 := t[..|h|], t[|h|..];
    assert t == t1 + t2;
    SizeConcat(t1, t2);
    SizeDominates(t1, h);
    SizeAtLeastLength(t2);
    assert t1 == h;
    assert t2 == [t2[0]];
    SizeOne(t2[0]);
  }

  /** A step that adds one box is the letter it is read as. */
  lemma AddedBoxLetter(h: Partition, t: Partition)
    requires Size(t) == Size(h) + 1 && Contains(t, h)
    ensures Letter(h, t) > 0 && Step(h, Letter(h, t)) == Ok(t)
  {
    if |t| > |h| {
      NewRow(h, t);
    } else {
      var k0 := GrowOneRow(h, t);
      FirstDiffAt(h, t, 0, k0);
      assert k0 > 0 ==> t[k0 - 1] >= t[k0];
    }
  }

  /** A step that removes one box is the letter it is read as. */
  /** Dropping the last row's single box is the letter -|h|. */
  lemma DropRowLetter(h: Partition, t: Partition)
    requires h == t + [1]
    ensures Step(h, -|h|) == Ok(t)
  {
    var pt := h[|h| - 1 := 0];
    assert pt == t + [0];
    PositiveCountIs(pt, |t|);
    assert pt[..|t|] == t;
  }

  /** Shrinking row k0 by one is the letter -(k0 + 1). */
  lemma ShrinkRowLetter(h: Partition, t: Partition, k0: nat)
    requires k0 < |h| == |t| && h == t[k0 := t[k0] + 1]
    ensures Letter(h, t) == -(k0 + 1) && Step(h, -(k0 + 1)) == Ok(t)
  {
    FirstDiffAt(h, t, 0, k0);
    assert h[k0 := h[k0] - 1] == t;
    ToPartitionOfPartition(t);
  }

  /** A step that removes one box is the letter it is read as. */
  lemma RemovedBoxLetter(h: Partition, t: Partition)
    requires Size(h) == Size(t) + 1 && Contains(h, t)
    ensures Letter(h, t) < 0 && Step(h, Letter(h, t)) == Ok(t)
  {
    if |h| > |t| {
      NewRow(t, h);
      DropRowLetter(h, t);
    } else {
      var k0 := GrowOneRow(t, h);
      ShrinkRowLetter(h, t, k0);
    }
  }

  lemma OneBoxLetter(h: Partition, t: Partition)
    requires OneBoxStep(h, t)
    ensures Letter(h, t) != 0 && Step(h, Letter(h, t)) == Ok(t)
  {
    if Size(t) == Size(h) + 1 && Contains(t, h) {
      AddedBoxLetter(h, t);
    } else {
      RemovedBoxLetter(h, t);
    }
  }

  lemma WordOfAppend(T: seq<Partition>, q: Partition)
    requires |T| >= 1
    ensures WordOf(T + [q]) == WordOf(T) + [Letter(T[|T| - 1], q)]
  {
  }

  /** One more successful step extends the walk. */
  lemma WalkExtend(word: seq<int>, a: int, w: seq<Partition>, q: Partition)
    requires NoZero(word) && a != 0 && Walk(word) == Ok(w) && Step(w[|w| - 1], a) == Ok(q)
    ensures NoZero(word + [a]) && Walk(word + [a]) == Ok(w + [q])
  {
    assert (word + [a])[..|word|] == word;
  }

  /** The tableau of a word steps one box at a time and reads back as that word. */
  lemma {:induction false} WordRoundTrip(word: seq<int>)
    requires WordTableau(word).Ok?
    ensures ValidSteps(WordTableau(word).value)
    ensures WordOf(WordTableau(word).value) == word
    decreases |word|
  {
    if |word| > 0 {
      var n := |word| - 1;
      var pre := word[..n];
      assert NoZero(pre);
      var w := Walk(pre).value;
      WordRoundTrip(pre);
      var q := Walk(word).value[n + 1];
      assert Step(w[n], word[n]) == Ok(q);
      StepLetter(w[n], word[n], q);
      WordOfAppend(w, q);
      assert word == pre + [word[n]];
    }
  }

  /** The last step of a valid tableau, undone by its word. */
  lemma {:induction false} TableauRoundTrip(T: seq<Partition>)
    requires |T| >= 1 && T[0] == [] && ValidSteps(T)
    ensures NoZero(WordOf(T)) && Walk(WordOf(T)) == Ok(T)
    decreases |T|
  {
    if |T| > 1 {
      var n := |T| - 1;
      var pre := T[..n];
      assert ValidSteps(pre);
      TableauRoundTrip(pre);
      OneBoxLetter(T[n - 1], T[n]);
      WordOfAppend(pre, T[n]);
      assert T == pre + [T[n]];
      WalkExtend(WordOf(pre), Letter(T[n - 1], T[n]), pre, T[n]);
    } else {
      assert T == EmptyWalk;
      assert WordOf(T) == [];
    }
  }

  // ---------------------------------------------------------------------
  // The constructor
  // ---------------------------------------------------------------------

  /** An entry of a list given to `OscillatingTableau`: an integer or a list. */
  datatype Item = Num(n: int) | Row(parts: seq<int>)

  /** What `OscillatingTableau(ot)` is given: a tableau already built, a
      list of entries, or anything else, which is known only by its `str`. */
  datatype Input = Existing(tableau: seq<Partition>) | Items(items: seq<Item>) | Other(repr: string)

  /** `tuple([Partition(a) for a in ot])`: a list that is not a partition
      raises; an integer raises TypeError, which the constructor catches, and
      leaves no partitions (None). */
  function PartitionsOf(items: seq<Item>): (r: Result<Option<seq<Partition>>>)
    ensures r.Ok? && r.value.Some? ==>
      |r.value.value| == |items| &&
      forall k :: 0 <= k < |items| ==> items[k].Row? && ToPartition(items[k].parts) == Ok(r.value.value[k])
    ensures r == Ok(None) ==> exists k :: 0 <= k < |items| && items[k].Num?
  {
    if |items| == 0 then
      var none: seq<Partition> := [];
      Ok(Some(none))
    else match items[0]
      case Num(_) => Ok(None)
      case Row(l) =>
        match ToPartition(l)
        case Err(e) => Err(e)
        case Ok(p) =>
          match PartitionsOf(items[1..])
          case Err(e) => Err(e)
          case Ok(None) => Ok(None)
          case Ok(Some(ps)) =>
            var all: seq<Partition> := [p] + ps;
            Ok(Some(all))
  }

  predicate AllNums(items: seq<Item>)
  {
    forall k :: 0 <= k < |items| ==> items[k].Num?
  }

  /** `tuple([Integer(a) for a in ot])` when every entry is an integer. */
  function Letters(items: seq<Item>): (word: seq<int>)
    requires AllNums(items)
    ensures |word| == |items| && forall k :: 0 <= k < |items| ==> items[k] == Num(word[k])
  {
    seq(|items|, k requires 0 <= k < |items| => items[k].n)
  }

  /** `str` of a list of integers. */
  function ListRepr(l: seq<int>): string
  {
    "[" + Join(seq(|l|, k requires 0 <= k < |l| => IntRepr(l[k])), ", ") + "]"
  }

  function ItemRepr(x: Item): string
  {
    match x
    case Num(n) => IntRepr(n)
    case Row(l) => ListRepr(l)
  }

  /** `str` of the list given to the constructor. */
  function ItemsRepr(items: seq<Item>): string
  {
    "[" + Join(seq(|items|, k requires 0 <= k < |items| => ItemRepr(items[k])), ", ") + "]"
  }

  /** `OscillatingTableaux()(w)`: the partitions, if `check` accepts them. */
  function Checked(T: seq<Partition>): (r: Result<seq<Partition>>)
    ensures r.Ok? <==> ValidSteps(T)
    ensures r.Ok? ==> r.value == T
  {
    CheckIff(T, 0);
    if CheckFrom(T, 0).Some? then Err(CheckFrom(T, 0).value) else Ok(T)
  }

  /** `OscillatingTableau(ot)` for a tableau, a list of lists, a word, or
      anything else. A list of integers is read as a word, which overrides
      the partitions read from an empty list; a list mixing both is invalid. */
  function Construct(inp: Input): Result<seq<Partition>>
  {
    match inp
    case Existing(T) => Ok(T)
    case Other(repr) => Err(ValueError("invalid input " + repr))
    case Items(items) =>
      match PartitionsOf(items)
      case Err(e) => Err(e)
      case Ok(w) =>
        if AllNums(items) then
          match WordTableau(Letters(items))
          case Err(e) => Err(e)
          case Ok(T) => Checked(T)
        else if w.None? then Err(ValueError("invalid input " + ItemsRepr(items)))
        else Checked(w.value)
  }

  /** `OscillatingTableau(ot)`: the word is walked by the word loop and the
      result is validated by `check`. */
  method Create(inp: Input) returns (r: Result<seq<Partition>>)
    ensures r == Construct(inp)
  {
    match inp {
      case Existing(T) =>
        return Ok(T);
      case Other(repr) =>
        return Err(ValueError("invalid input " + repr));
      case Items(items) =>
        var w := PartitionsOf(items);
        if w.Err? {
          return Err(w.exc);
        }
        var T: seq<Partition>;
        if AllNums(items) {
          var walked := FromWord(Letters(items));
          if walked.Err? {
            return walked;
          }
          T := walked.value;
        } else if w.value.None? {
          return Err(ValueError("invalid input " + ItemsRepr(items)));
        } else {
          T := w.value.value;
        }
        var e := Check(T);
        CheckIff(T, 0);
        if e.Some? {
          return Err(e.value);
        }
        return Ok(T);
    }
  }

  /** The list of integers of a word. */
  function NumsOf(word: seq<int>): (items: seq<Item>)
    ensures AllNums(items) && Letters(items) == word
  {
    seq(|word|, k requires 0 <= k < |word| => Num(word[k]))
  }

  /** The list of rows of a tableau. */
  function RowsOf(T: seq<Partition>): seq<Item>
  {
    seq(|T|, k requires 0 <= k < |T| => Row(T[k]))
  }

  /** A word is read exactly as its walk: `check` never refuses a word's tableau. */
  lemma ConstructWord(word: seq<int>)
    ensures Construct(Items(NumsOf(word))) == WordTableau(word)
  {
    var items := NumsOf(word);
    if WordTableau(word).Ok? {
      WordRoundTrip(word);
    }
    if |word| > 0 {
      assert PartitionsOf(items) == Ok(None);
    }
  }

  lemma {:induction false} PartitionsOfRows(T: seq<Partition>)
    ensures PartitionsOf(RowsOf(T)) == Ok(Some(T))
    decreases |T|
  {
    if |T| > 0 {
      ToPartitionOfPartition(T[0]);
      PartitionsOfRows(T[1..]);
      assert RowsOf(T)[1..] == RowsOf(T[1..]);
      assert [T[0]] + T[1..] == T;
    }
  }

  /** A non-empty list of partitions is accepted exactly when `check` is, and
      is kept as given; the empty list is the word of length zero. */
  lemma ConstructRows(T: seq<Partition>)
    ensures |T| > 0 ==> Construct(Items(RowsOf(T))) == Checked(T)
    ensures |T| == 0 ==> Construct(Items(RowsOf(T))) == Ok(EmptyWalk)
  {
    PartitionsOfRows(T);
    if |T| > 0 {
      assert !AllNums(RowsOf(T)) by {
        assert RowsOf(T)[0].Row?;
      }
    } else {
      assert Letters(RowsOf(T)) == [];
      assert NoZero([]);
      assert ValidSteps(EmptyWalk);
    }
  }

  /** A list of integers that holds a list is invalid input, unless a list
      before it fails to be a partition. */
  lemma ConstructMixed(items: seq<Item>, j: nat, k: nat)
    requires j < |items| && k < |items| && items[j].Num? && items[k].Row?
    requires PartitionsOf(items).Ok?
    ensures Construct(Items(items)) == Err(ValueError("invalid input " + ItemsRepr(items)))
  {
    assert PartitionsOf(items).value == None;
    assert !AllNums(items);
  }

  /** A tableau's word constructs the tableau again. */
  lemma WordConstructsTableau(T: seq<Partition>)
    requires |T| >= 1 && T[0] == [] && ValidSteps(T)
    ensures WordTableau(WordOf(T)) == Ok(T)
    ensures Construct(Items(NumsOf(WordOf(T)))) == Ok(T)
  {
    TableauRoundTrip(T);
    ConstructWord(WordOf(T));
  }

  // ---------------------------------------------------------------------
  // Descents
  // ---------------------------------------------------------------------

  /** Position i of a word is a descent: an added box followed by a removed
      one, two added boxes in increasing rows, or two removed boxes in rows
      going up. */
  predicate IsDescent(w: seq<int>, i: nat)
    requires 1 <= i < |w|
  {
    (w[i - 1] > 0 && w[i] < 0) || (0 < w[i - 1] < w[i]) || (w[i - 1] < w[i] < 0)
  }

  function DescentSet(w: seq<int>): (d: set<nat>)
    ensures forall i :: i in d ==> 1 <= i < |w|
  {
    set i: nat | 1 <= i < |w| && IsDescent(w, i)
  }

  /** The place of a letter in the alphabet 1 < 2 < ... < n < -n < ... < -1. */
  function Rank(a: int, n: nat): int
  {
    if a > 0 then a else 2 * n + 1 + a
  }

  /** The descents of a word with letters in 1..n and -n..-1 are its ascents
      in the order 1 < 2 < ... < n < -n < ... < -1. */
  lemma DescentsAreAscents(w: seq<int>, n: nat)
    requires NoZero(w) && forall k :: 0 <= k < |w| ==> -(n as int) <= w[k] <= n
    ensures forall i :: 1 <= i < |w| ==> (i in DescentSet(w) <==> Rank(w[i - 1], n) < Rank(w[i], n))
  {
  }

  /** `descents`: the word of the tableau, scanned once. */
  method Descents(T: seq<Partition>) returns (result: set<nat>)
    ensures result == DescentSet(WordOf(T))
  {
    result := {};
    var w := ToWord(T);
    var i := 1;
    while i < |w|
      invariant 1 <= i && (i <= |w| || |w| == 0)
      invariant result == set j: nat | 1 <= j < i && j < |w| && IsDescent(w, j)
    {
      if w[i - 1] > 0 && w[i] < 0 {
        result := result + {i};
      }
      if 0 < w[i - 1] < w[i] {
        result := result + {i};
      }
      if w[i - 1] < w[i] < 0 {
        result := result + {i};
      }
      i := i + 1;
    }
    assert result == DescentSet(w);
  }

  // ---------------------------------------------------------------------
  // The local rule
  // ---------------------------------------------------------------------

  predicate SortedDesc(s: seq<int>)
  {
    forall i, j :: 0 <= i < j < |s| ==> s[i] >= s[j]
  }

  function Insert(x: int, s: seq<int>): (r: seq<int>)
    requires SortedDesc(s)
    ensures SortedDesc(r) && multiset(r) == multiset(s) + multiset{x}
  {
    if |s| == 0 then [x]
    else if x >= s[0] then
      assert forall y :: y in multiset(s) ==> y <= x by {
        forall y | y in multiset(s)
          ensures y <= x
        {
          HeadIsMax(s, y);
        }
      }
      ConsSorted(x, s);
      [x] + s
    else
      SortedTail(s);
      var rest := Insert(x, s[1..]);
      assert s == [s[0]] + s[1..];
      HeadBounds(s);
      ConsSorted(s[0], rest);
      [s[0]] + rest
  }

  lemma HeadBounds(s: seq<int>)
    requires SortedDesc(s) && |s| > 0
    ensures forall y :: y in multiset(s[1..]) ==> y <= s[0]
  {
    forall y | y in multiset(s[1..])
      ensures y <= s[0]
    {
      var k :| 0 <= k < |s[1..]| && s[1..][k] == y;
      assert s[k + 1] == y;
    }
  }

  lemma ConsSorted(h: int, t: seq<int>)
    requires SortedDesc(t) && forall y :: y in multiset(t) ==> y <= h
    ensures SortedDesc([h] + t)
  {
    forall i, j | 0 <= i < j < |t| + 1
      ensures ([h] + t)[i] >= ([h] + t)[j]
    {
      assert t[j - 1] in multiset(t);
    }
  }

  /** `sort(reverse=True)`: decreasing, and the same entries. */
  function SortDesc(s: seq<int>): (r: seq<int>)
    ensures SortedDesc(r) && multiset(r) == multiset(s)
  {
    if |s| == 0 then []
    else
      assert s == [s[0]] + s[1..];
      Insert(s[0], SortDesc(s[1..]))
  }

  /** The first entry of a decreasing sequence is its largest. */
  lemma HeadIsMax(a: seq<int>, x: int)
    requires SortedDesc(a) && x in multiset(a)
    ensures |a| > 0 && x <= a[0]
  {
    var k :| 0 <= k < |a| && a[k] == x;
  }

  lemma SortedTail(a: seq<int>)
    requires SortedDesc(a) && |a| > 0
    ensures SortedDesc(a[1..])
  {
    forall i, j | 0 <= i < j < |a| - 1
      ensures a[1..][i] >= a[1..][j]
    {
      assert a[1..][i] == a[i + 1] && a[1..][j] == a[j + 1];
    }
  }

  /** Two decreasing sequences with the same entries are equal. */
  lemma {:induction false} SortedUnique(a: seq<int>, b: seq<int>)
    requires SortedDesc(a) && SortedDesc(b) && multiset(a) == multiset(b)
    ensures a == b
    decreases |a|
  {
    assert |a| == |multiset(a)| == |multiset(b)| == |b|;
    if |a| > 0 {
      HeadIsMax(b, a[0]);
      HeadIsMax(a, b[0]);
      assert a == [a[0]] + a[1..] && b == [b[0]] + b[1..];
      assert multiset(a[1..]) == multiset(a) - multiset{a[0]};
      assert multiset(b[1..]) == multiset(b) - multiset{b[0]};
      assert a[0] == b[0];
      assert multiset(a[1..]) == multiset(b[1..]);
      SortedTail(a);
      SortedTail(b);
      SortedUnique(a[1..], b[1..]);
    }
  }

  function Abs(x: int): nat
  {
    if x < 0 then -x else x
  }

  function Max(a: int, b: int): int
  {
    if a >= b then a else b
  }

  /** `[abs(i - j + k) for i, j, k in zip_longest(lam, mu, nu, fillvalue=0)]`. */
  function RuleValues(lam: seq<int>, mu: seq<int>, nu: seq<int>): (v: seq<nat>)
  {
    seq(Max(|lam|, Max(|mu|, |nu|)), k => Abs(At(lam, k) - At(mu, k) + At(nu, k)))
  }

  lemma NonNegativeSorted(v: seq<nat>)
    ensures IsPartitionList(SortDesc(v))
  {
    var r := SortDesc(v);
    forall k | 0 <= k < |r|
      ensures r[k] >= 0
    {
      assert r[k] in multiset(v);
    }
  }

  /** `_rule`: the values of the three partitions sorted and made a
      partition; its parts are the nonzero values. */
  function RuleShape(lam: seq<int>, mu: seq<int>, nu: seq<int>): (r: Partition)
    ensures forall x :: x != 0 ==> multiset(r)[x] == multiset(RuleValues(lam, mu, nu))[x]
  {
    var v := RuleValues(lam, mu, nu);
    NonNegativeSorted(v);
    var sorted := SortDesc(v);
    var l := ToPartition(sorted).value;
    assert sorted == l + sorted[|l|..];
    ZerosMultiset(sorted[|l|..]);
    l
  }

  lemma {:induction false} ZerosMultiset(z: seq<int>)
    requires forall k :: 0 <= k < |z| ==> z[k] == 0
    ensures forall x :: x != 0 ==> multiset(z)[x] == 0
  {
    if |z| > 0 {
      ZerosMultiset(z[1..]);
      assert z == [0] + z[1..];
    }
  }

  /** A partition followed by zeros is sorted already and made back into the
      partition. */
  lemma PaddedShape(p: Partition, v: seq<nat>)
    requires |v| >= |p| && forall k :: 0 <= k < |v| ==> v[k] == At(p, k)
    ensures ToPartition(SortDesc(v)) == Ok(p)
  {
    PaddedSorted(p, v);
    SortedUnique(SortDesc(v), v);
    PaddedPartition(p, v);
  }

  lemma PaddedPartition(p: Partition, v: seq<int>)
    requires |v| >= |p| && forall k :: 0 <= k < |v| ==> v[k] == At(p, k)
    ensures ToPartition(v) == Ok(p)
  {
    PositiveCountIs(v, |p|);
    assert v[..|p|] == p;
    assert IsPartitionList(v) by {
      PaddedSorted(p, v);
    }
  }

  lemma PaddedSorted(p: Partition, v: seq<int>)
    requires |v| >= |p| && forall k :: 0 <= k < |v| ==> v[k] == At(p, k)
    ensures SortedDesc(v)
  {
    forall i, j | 0 <= i < j < |v|
      ensures v[i] >= v[j]
    {
      if j < |p| {
        DecreasingFrom(p, i, j);
      }
    }
  }

  /** With the middle partition equal to the first, the rule gives the third. */
  lemma RuleFromEqual(mu: Partition, nu: Partition)
    ensures RuleShape(mu, mu, nu) == nu
  {
    var v := RuleValues(mu, mu, nu);
    forall k | 0 <= k < |v|
      ensures v[k] == At(nu, k)
    {
    }
    PaddedShape(nu, v);
  }

  /** With the middle partition equal to the third, the rule gives the first. */
  lemma RuleToEqual(lam: Partition, mu: Partition)
    ensures RuleShape(lam, mu, mu) == lam
  {
    var v := RuleValues(lam, mu, mu);
    forall k | 0 <= k < |v|
      ensures v[k] == At(lam, k)
    {
    }
    PaddedShape(lam, v);
  }

  function InvalidPosition(i: int): Exception
  {
    ValueError(IntRepr(i) + " is not a valid integer")
  }

  /** Unpacking the pairs of a two-partition slice into three names. */
  const UnpackError: Exception := ValueError("not enough values to unpack (expected 3, got 2)")

  /** `_local_rule(i)` as written: the guard admits the last position, where
      the slice `self[i-1:i+2]` holds two partitions and unpacking their
      pairs into three names fails, unless both are empty. */
  function LocalRuleAsWritten(T: seq<Partition>, i: int): (r: Result<seq<Partition>>)
  {
    if !(0 < i < |T|) then Err(InvalidPosition(i))
    else if i == |T| - 1 then
      if |T[i - 1]| == 0 && |T[i]| == 0 then Checked(T[i := []]) else Err(UnpackError)
    else Checked(T[i := RuleShape(T[i - 1], T[i], T[i + 1])])
  }

  /** `_local_rule(i)` with the guard the rule needs, 0 < i < len - 1: the
      copy has position i replaced by the rule of its neighbours and nothing
      else changed, and is kept if `check` accepts it. */
  function LocalRuleAt(T: seq<Partition>, i: int): (r: Result<seq<Partition>>)
    ensures r.Err? <==> !(0 < i < |T| - 1) || !ValidSteps(T[i := RuleShape(T[i - 1], T[i], T[i + 1])])
    ensures r.Ok? ==>
      |r.value| == |T| && r.value[i] == RuleShape(T[i - 1], T[i], T[i + 1]) &&
      (forall j :: 0 <= j < |T| && j != i ==> r.value[j] == T[j]) && ValidSteps(r.value)
    ensures !(0 < i < |T| - 1) ==> r == Err(InvalidPosition(i))
  {
    if !(0 < i < |T| - 1) then Err(InvalidPosition(i))
    else Checked(T[i := RuleShape(T[i - 1], T[i], T[i + 1])])
  }

  /** `_local_rule(i)`: a clone edited at position i, checked when the edit ends. */
  method LocalRule(T: seq<Partition>, i: int) returns (r: Result<seq<Partition>>)
    ensures r == LocalRuleAt(T, i)
  {
    if !(0 < i < |T| - 1) {
      return Err(InvalidPosition(i));
    }
    var result := T;
    result := result[i := RuleShape(T[i - 1], T[i], T[i + 1])];
    var e := Check(result);
    CheckIff(result, 0);
    if e.Some? {
      return Err(e.value);
    }
    return Ok(result);
  }

  /** The guard as written lets the last position through, and the rule then
      fails to unpack, where the intended guard refuses the position. */
  lemma LastPositionAsWritten(T: seq<Partition>)
    requires |T| >= 2 && (T[|T| - 2] != [] || T[|T| - 1] != [])
    ensures LocalRuleAsWritten(T, |T| - 1) == Err(UnpackError)
    ensures LocalRuleAt(T, |T| - 1) == Err(InvalidPosition(|T| - 1))
  {
  }

  /** Away from the last position the two guards agree. */
  lemma LocalRuleAgrees(T: seq<Partition>, i: int)
    requires i != |T| - 1
    ensures LocalRuleAsWritten(T, i) == LocalRuleAt(T, i)
  {
  }

  /** The tableau [[], [1], [2]] at its last position. */
  lemma LocalRuleLastExample()
    ensures LocalRuleAsWritten([[], [1], [2]], 2) == Err(UnpackError)
  {
    var T: seq<Partition> := [[], [1], [2]];
    LastPositionAsWritten(T);
  }

  // ---------------------------------------------------------------------
  // Statistics
  // ---------------------------------------------------------------------

  /** `max` of an empty sequence. */
  const EmptyMax: Exception := ValueError("max() arg is an empty sequence")

  /** `max(xs)` of a non-empty list: an upper bound that is one of its entries. */
  function MaxOf(xs: seq<int>): (m: int)
    requires |xs| > 0
    ensures forall k :: 0 <= k < |xs| ==> xs[k] <= m
    ensures exists k :: 0 <= k < |xs| && xs[k] == m
  {
    if |xs| == 1 then xs[0] else Max(MaxOf(xs[..|xs| - 1]), xs[|xs| - 1])
  }

  /** `is_skew`: the first partition is not empty. */
  function IsSkew(T: seq<Partition>): Result<bool>
  {
    if |T| == 0 then Err(IndexError) else Ok(T[0] != [])
  }

  /** A tableau built from a word is never skew. */
  lemma WordTableauNotSkew(word: seq<int>)
    requires WordTableau(word).Ok?
    ensures IsSkew(WordTableau(word).value) == Ok(false)
  {
  }

  function Lengths(T: seq<Partition>): (l: seq<int>)
    ensures |l| == |T| && forall k :: 0 <= k < |T| ==> l[k] == |T[k]|
  {
    seq(|T|, k requires 0 <= k < |T| => |T[k]|)
  }

  /** `crossing_number`: the largest number of rows. */
  function CrossingNumber(T: seq<Partition>): (r: Result<int>)
    ensures r.Err? <==> |T| == 0
    ensures r.Ok? ==> (forall k :: 0 <= k < |T| ==> |T[k]| <= r.value) && exists k :: 0 <= k < |T| && |T[k]| == r.value
  {
    if |T| == 0 then Err(EmptyMax) else Ok(MaxOf(Lengths(T)))
  }

  /** The first parts of the non-empty partitions, in order. */
  function FirstParts(T: seq<Partition>): (f: seq<int>)
    ensures forall x :: x in f <==> exists k :: 0 <= k < |T| && T[k] != [] && T[k][0] == x
    ensures |f| == 0 <==> forall k :: 0 <= k < |T| ==> T[k] == []
  {
    if |T| == 0 then []
    else
      var n := |T| - 1;
      var rest := FirstParts(T[..n]);
      assert forall k :: 0 <= k < n ==> T[..n][k] == T[k];
      if T[n] != [] then rest + [T[n][0]] else rest
  }

  /** `nesting_number` as written: the generator it builds is never `None`,
      so a tableau of empty partitions reaches `max` of nothing. */
  function NestingNumberAsWritten(T: seq<Partition>): (r: Result<int>)
    ensures r.Err? <==> forall k :: 0 <= k < |T| ==> T[k] == []
  {
    var f := FirstParts(T);
    if |f| == 0 then Err(EmptyMax) else Ok(MaxOf(f))
  }

  /** `nesting_number` with the evidently intended 0 when every partition is
      empty: the largest first part. */
  function NestingNumber(T: seq<Partition>): (r: int)
    ensures r >= 0
    ensures forall k :: 0 <= k < |T| && T[k] != [] ==> T[k][0] <= r
    ensures r == 0 || exists k :: 0 <= k < |T| && T[k] != [] && T[k][0] == r
    ensures (forall k :: 0 <= k < |T| ==> T[k] == []) ==> r == 0
  {
    var f := FirstParts(T);
    if |f| == 0 then 0
    else
      var m := MaxOf(f);
      assert forall k :: 0 <= k < |T| && T[k] != [] ==> T[k][0] in f;
      var j :| 0 <= j < |f| && f[j] == m;
      assert f[j] in f;
      m
  }

  /** The tableau of the empty word makes `nesting_number` raise. */
  lemma NestingOfEmptyWalk()
    ensures NestingNumberAsWritten(EmptyWalk) == Err(EmptyMax)
    ensures NestingNumber(EmptyWalk) == 0
  {
  }

  /** Where some partition is non-empty, the two agree. */
  lemma NestingAgrees(T: seq<Partition>, k: nat)
    requires k < |T| && T[k] != []
    ensures NestingNumberAsWritten(T) == Ok(NestingNumber(T))
  {
  }

  /** A partition fits in the rectangle of its rows and its first row. */
  lemma {:induction false} SizeInRectangle(p: Partition)
    ensures |p| > 0 ==> Size(p) <= |p| * p[0]
    decreases |p|
  {
    if |p| > 1 {
      var n := |p| - 1;
      var q: Partition := p[..n];
      SizeInRectangle(q);
      DecreasingFrom(p, 0, n);
      assert Size(p) == Size(q) + p[n];
      assert |p| * p[0] == n * p[0] + p[0];
    } else if |p| == 1 {
      SizeOne(p[0]);
    }
  }

  lemma MulMono(a: nat, b: nat, c: nat, d: nat)
    requires a <= c && b <= d
    ensures a * b <= c * d
  {
    assert a * b <= c * b;
    assert c * b <= c * d;
  }

  /** Every partition of a tableau fits in the crossing number times the
      nesting number boxes. */
  lemma SizeBound(T: seq<Partition>, j: nat)
    requires j < |T|
    ensures CrossingNumber(T).Ok? && Size(T[j]) <= CrossingNumber(T).value * NestingNumber(T)
  {
    var p := T[j];
    var c, n := CrossingNumber(T).value, NestingNumber(T);
    SizeInRectangle(p);
    assert c >= 0 && |p| <= c;
    if |p| > 0 {
      MulMono(|p|, p[0], c, n);
    } else {
      MulMono(0, 0, c, n);
    }
  }

  // ---------------------------------------------------------------------
  // Documented examples
  // ---------------------------------------------------------------------

  const DocTableau: seq<Partition> := [[], [1], [2], [1], []]
  const TwoRows: seq<Partition> := [[], [1], [1, 1], [1], []]
  const OneBox: seq<Partition> := [[], [1], []]

  lemma DocumentedWords()
    ensures WordOf(DocTableau) == [1, 1, -1, -1]
  {
  }

  lemma DocumentedWordsTwoRows()
    ensures WordOf(TwoRows) == [1, 2, -2, -1]
  {
  }

  lemma DocumentedWordSameRows()
    ensures WordOf([[2, 1], [2, 2]]) == [2]
  {
    FirstDiffAt([2, 1], [2, 2], 0, 1);
  }

  lemma SmallSizes()
    ensures Size([1]) == 1 && Size([2]) == 2 && Size([3]) == 3 && Size([4]) == 4
    ensures Size([1, 1]) == 2 && Size([2, 1]) == 3
  {
    SizeOne(1);
    SizeOne(2);
    SizeOne(3);
    SizeOne(4);
    SizeConcat([1], [1]);
    SizeConcat([2], [1]);
  }

  /** The single steps of the documented tableaux. */
  lemma BasicSteps()
    ensures OneBoxStep([], [1]) && OneBoxStep([1], []) && OneBoxStep([1], [2]) && OneBoxStep([2], [1])
    ensures OneBoxStep([1], [1, 1]) && OneBoxStep([1, 1], [1])
  {
    SmallSizes();
  }

  lemma OneBoxValid()
    ensures ValidSteps(OneBox) && WordOf(OneBox) == [1, -1]
  {
    BasicSteps();
    assert forall i :: 0 <= i < 2 ==> OneBoxStep(OneBox[i], OneBox[i + 1]);
  }

  lemma TwoRowsValid()
    ensures ValidSteps(TwoRows)
  {
    BasicSteps();
    assert forall i :: 0 <= i < 4 ==> OneBoxStep(TwoRows[i], TwoRows[i + 1]);
  }

  /** The word [1, -1] adds a box and takes it away. */
  lemma DocumentedWordOneBox()
    ensures WordTableau([1, -1]) == Ok(OneBox)
  {
    OneBoxValid();
    WordConstructsTableau(OneBox);
  }

  /** `OscillatingTableau([1, -1])`. */
  lemma DocumentedConstructOneBox()
    ensures Construct(Items([Num(1), Num(-1)])) == Ok(OneBox)
  {
    DocumentedWordOneBox();
    var w: seq<int> := [1, -1];
    ConstructWord(w);
    assert NumsOf(w) == [Num(1), Num(-1)];
  }

  lemma DocumentedWordTwoRows()
    ensures WordTableau([1, 2, -2, -1]) == Ok(TwoRows)
  {
    TwoRowsValid();
    DocumentedWordsTwoRows();
    WordConstructsTableau(TwoRows);
  }

  lemma DocumentedZeroLetter()
    ensures WordTableau([1, 0, -1]) == Err(ValueError("list may not contain zero"))
  {
    assert [1, 0, -1][1] == 0;
  }

  lemma DocumentedDescents()
    ensures DescentSet(WordOf(DocTableau)) == {2}
  {
    DocumentedWords();
    var w: seq<int> := [1, 1, -1, -1];
    assert IsDescent(w, 2) && !IsDescent(w, 1) && !IsDescent(w, 3);
    assert DescentSet(w) == {2};
  }

  lemma DocumentedCrossing()
    ensures CrossingNumber(DocTableau) == Ok(1)
    ensures IsSkew(DocTableau) == Ok(false)
  {
    var T := DocTableau;
    assert |T[1]| == 1;
    assert forall k :: 0 <= k < |T| ==> |T[k]| <= 1;
  }

  lemma DocumentedNesting()
    ensures NestingNumberAsWritten(DocTableau) == Ok(2)
    ensures NestingNumber(DocTableau) == 2
  {
    var T := DocTableau;
    assert T[2][0] == 2;
    assert forall k :: 0 <= k < |T| && T[k] != [] ==> T[k][0] <= 2;
    NestingAgrees(T, 1);
  }

  lemma DocumentedCheckValid()
    ensures CheckFrom([[], [1], [2], [1], [], [1], []], 0) == None
  {
    var T: seq<Partition> := [[], [1], [2], [1], [], [1], []];
    BasicSteps();
    assert forall i :: 0 <= i < 6 ==> OneBoxStep(T[i], T[i + 1]);
    CheckIff(T, 0);
  }

  lemma DocumentedCheckTooFar()
    ensures CheckFrom([[], [1], [3], [1], [], [1], []], 0) == Some(ValueError("adjacent partitions differ by more than one box"))
  {
    var T: seq<Partition> := [[], [1], [3], [1], [], [1], []];
    SmallSizes();
    assert CheckFrom(T, 1) == StepError([1], [3]);
  }

  lemma DocumentedCheckNotAdded()
    ensures CheckFrom([[], [1], [2], [2, 1], [4]], 0) == Some(ValueError("next partition is not obtained by adding a cell"))
  {
    var T: seq<Partition> := [[], [1], [2], [2, 1], [4]];
    SmallSizes();
    assert CheckFrom(T, 3) == StepError([2, 1], [4]);
    assert CheckFrom(T, 0) == CheckFrom(T, 3);
  }

  /** The steps of the tableau whose last step does not remove a cell. */
  lemma NotRemovedSteps()
    ensures OneBoxStep([2], [3])
    ensures StepError([3], [1, 1]) == Some(ValueError("next partition is not obtained by removing a cell"))
  {
    SmallSizes();
    assert !Contains([3], [1, 1]);
  }

  /** A tableau whose last step takes away a row instead of a cell. */
  const NotRemoved: seq<Partition> := [[], [1], [2], [3], [1, 1]]

  lemma DocumentedCheckNotRemoved()
    ensures CheckFrom(NotRemoved, 0) == Some(ValueError("next partition is not obtained by removing a cell"))
  {
    var T := NotRemoved;
    BasicSteps();
    NotRemovedSteps();
    CheckSkips(T, 0);
    CheckSkips(T, 1);
    CheckSkips(T, 2);
    assert CheckFrom(T, 3) == StepError([3], [1, 1]);
  }
}
