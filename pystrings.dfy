/** Python 2 byte-string primitives used by the parsers: `find`, slicing
    with negative indices, `split`, `join`, `rstrip`, `split()` on
    whitespace and `splitlines`. */
module PyStrings {
  /** p occurs in s at index i. */
  predicate OccursAt(s: string, p: string, i: int) {
    0 <= i && i + |p| <= |s| && s[i..i + |p|] == p
  }

  predicate StartsWith(s: string, p: string) {
    OccursAt(s, p, 0)
  }

  /** `s.find(p, start)`: the first index at or after start where p occurs,
      or -1. */
  function Find(s: string, p: string, start: nat): (r: int)
    requires |p| > 0
    ensures r == -1 || (start <= r && OccursAt(s, p, r))
    ensures r == -1 ==> forall i :: start <= i ==> !OccursAt(s, p, i)
    ensures r != -1 ==> forall i :: start <= i < r ==> !OccursAt(s, p, i)
    decreases |s| - start
  {
    if start + |p| > |s| then -1
    else if s[start..start + |p|] == p then start
    else Find(s, p, start + 1)
  }

  /** Find returns the first occurrence: the index where p occurs with no
      occurrence between start and it. */
  lemma {:induction false} FindIs(s: string, p: string, start: nat, k: int)
    requires |p| > 0 && start <= k && OccursAt(s, p, k)
    requires forall i :: start <= i < k ==> !OccursAt(s, p, i)
    ensures Find(s, p, start) == k
  {
    var r := Find(s, p, start);
  }

  /** A Python index into a sequence of length n, negative ones counting
      from the end, clamped to [0, n]. */
  function SliceIndex(i: int, n: nat): (r: nat)
    ensures r <= n
  {
    if i < 0 then (if i + n < 0 then 0 else i + n) else if i > n then n else i
  }

  /** `s[a:b]` with Python's negative indices and clamping. */
  function Slice(s: string, a: int, b: int): (r: string)
    ensures |r| <= |s|
    ensures var i, j := SliceIndex(a, |s|), SliceIndex(b, |s|);
            if i < j then r == s[i..j] else r == []
  {
    var i, j := SliceIndex(a, |s|), SliceIndex(b, |s|);
    if i < j then s[i..j] else []
  }

  /** `s.split(sep)` for a non-empty separator. */
  function Split(s: string, sep: string): (pieces: seq<string>)
    requires |sep| > 0
    ensures |pieces| >= 1
    decreases |s|
  {
    var i := Find(s, sep, 0);
    if i == -1 then [s] else [s[..i]] + Split(s[i + |sep|..], sep)
  }

  /** `sep.join(pieces)`. */
  function Join(pieces: seq<string>, sep: string): string
    decreases |pieces|
  {
    if |pieces| == 0 then []
    else if |pieces| == 1 then pieces[0]
    else pieces[0] + sep + Join(pieces[1..], sep)
  }

  /** Splitting and joining with the same separator gives back the string. */
  lemma {:induction false} JoinSplit(s: string, sep: string)
    requires |sep| > 0
    ensures Join(Split(s, sep), sep) == s
    decreases |s|
  {
    var i := Find(s, sep, 0);
    if i != -1 {
      JoinSplit(s[i + |sep|..], sep);
      JoinSplitStep(s, sep, i);
    }
  }

  lemma JoinSplitStep(s: string, sep: string, i: int)
    requires |sep| > 0 && i == Find(s, sep, 0) && i != -1
    requires Join(Split(s[i + |sep|..], sep), sep) == s[i + |sep|..]
    ensures Join(Split(s, sep), sep) == s
  {
    var rest := s[i + |sep|..];
    assert Split(s, sep) == [s[..i]] + Split(rest, sep);
    JoinCons(s[..i], Split(rest, sep), sep);
    assert s == s[..i] + sep + rest;
  }

  /** Joining a piece in front of at least one other puts sep between. */
  lemma JoinCons(a: string, rest: seq<string>, sep: string)
    requires |rest| >= 1
    ensures Join([a] + rest, sep) == a + sep + Join(rest, sep)
  {
    assert ([a] + rest)[1..] == rest;
  }

  /** No piece of a split contains the separator. */
  lemma {:induction false} SplitPiecesAvoid(s: string, sep: string)
    requires |sep| > 0
    ensures forall k, i :: 0 <= k < |Split(s, sep)| ==> !OccursAt(Split(s, sep)[k], sep, i)
    decreases |s|
  {
    var i := Find(s, sep, 0);
    if i != -1 {
      var rest := s[i + |sep|..];
      SplitPiecesAvoid(rest, sep);
      PrefixAvoids(s, sep, i);
      assert Split(s, sep)[1..] == Split(rest, sep);
    }
  }

  /** A prefix of s before the first occurrence of sep holds none. */
  lemma PrefixAvoids(s: string, sep: string, i: nat)
    requires |sep| > 0 && i <= |s| && forall j :: 0 <= j < i ==> !OccursAt(s, sep, j)
    ensures forall j :: !OccursAt(s[..i], sep, j)
  {
    forall j
      ensures !OccursAt(s[..i], sep, j)
    {
      if 0 <= j && j + |sep| <= i {
        assert !OccursAt(s, sep, j);
        assert s[..i][j..j + |sep|] == s[j..j + |sep|];
      }
    }
  }

  function Last<T>(xs: seq<T>): T
    requires |xs| > 0
  {
    xs[|xs| - 1]
  }

  /** `s.replace(a, b)` for single characters. */
  function ReplaceChar(s: string, a: char, b: char): (r: string)
    ensures |r| == |s| && forall i :: 0 <= i < |s| ==> r[i] == if s[i] == a then b else s[i]
  {
    seq(|s|, i requires 0 <= i < |s| => if s[i] == a then b else s[i])
  }

  /** Whitespace of Python 2 byte strings. */
  predicate IsSpace(c: char) {
    c == ' ' || c == '\t' || c == '\n' || c == '\r' || c == '\U{0B}' || c == '\U{0C}'
  }

  predicate IsDigit(c: char) {
    '0' <= c <= '9'
  }

  /** `s.rstrip()`. */
  function RStrip(s: string): (r: string)
    ensures |r| <= |s| && r == s[..|r|]
    ensures r == [] || !IsSpace(r[|r| - 1])
    ensures forall i :: |r| <= i < |s| ==> IsSpace(s[i])
    decreases |s|
  {
    if |s| > 0 && IsSpace(s[|s| - 1]) then RStrip(s[..|s| - 1]) else s
  }

  /** The length of the run of non-space characters starting s. */
  function WordLength(s: string): (n: nat)
    ensures n <= |s| && forall i :: 0 <= i < n ==> !IsSpace(s[i])
    ensures n == |s| || IsSpace(s[n])
    decreases |s|
  {
    if |s| == 0 || IsSpace(s[0]) then 0 else 1 + WordLength(s[1..])
  }

  /** `s.split()`: the maximal runs of non-space characters. */
  function Words(s: string): (ws: seq<string>)
    ensures forall k :: 0 <= k < |ws| ==> ws[k] != [] && forall i :: 0 <= i < |ws[k]| ==> !IsSpace(ws[k][i])
    ensures ws == [] <==> forall i :: 0 <= i < |s| ==> IsSpace(s[i])
    decreases |s|
  {
    if |s| == 0 then []
    else if IsSpace(s[0]) then
      var ws := Words(s[1..]);
      assert forall i :: 1 <= i < |s| ==> s[i] == s[1..][i - 1];
      ws
    else
      var n := WordLength(s);
      var ws := [s[..n]] + Words(s[n..]);
      assert forall k :: 1 <= k < |ws| ==> ws[k] == Words(s[n..])[k - 1];
      ws
  }

  /** Python 2 `str.splitlines()`: lines end at "\n", "\r" or "\r\n"; a final
      line break starts no further line. */
  function SplitLines(s: string): (lines: seq<string>)
    ensures forall k, i :: 0 <= k < |lines| && 0 <= i < |lines[k]| ==> lines[k][i] != '\n' && lines[k][i] != '\r'
    decreases |s|
  {
    if |s| == 0 then []
    else
      var i := LineLength(s);
      if i == |s| then [s]
      else
        var skip := if s[i] == '\r' && i + 1 < |s| && s[i + 1] == '\n' then 2 else 1;
        var rest := SplitLines(s[i + skip..]);
        assert forall k :: 1 <= k < |[s[..i]] + rest| ==> ([s[..i]] + rest)[k] == rest[k - 1];
        [s[..i]] + rest
  }

  /** The index of the first line break of s, or |s|. */
  function LineLength(s: string): (n: nat)
    ensures n <= |s| && forall i :: 0 <= i < n ==> s[i] != '\n' && s[i] != '\r'
    ensures n == |s| || s[n] == '\n' || s[n] == '\r'
    decreases |s|
  {
    if |s| == 0 || s[0] == '\n' || s[0] == '\r' then 0 else 1 + LineLength(s[1..])
  }

  /** Find of a single character: the first position at or after start
      holding it. */
  lemma {:induction false} FindCharIs(s: string, c: char, start: nat, k: nat)
    requires start <= k < |s| && s[k] == c
    requires forall i :: start <= i < k ==> s[i] != c
    ensures Find(s, [c], start) == k
  {
    forall i | start <= i < k
      ensures !OccursAt(s, [c], i)
    {
      assert s[i..i + 1] == [s[i]];
    }
    assert s[k..k + 1] == [c];
    FindIs(s, [c], start, k);
  }

  /** The length of the longest prefix of s whose characters satisfy p. */
  function Span(s: string, p: char -> bool): (n: nat)
    ensures n <= |s| && forall i :: 0 <= i < n ==> p(s[i])
    ensures n == |s| || !p(s[n])
    decreases |s|
  {
    if |s| == 0 || !p(s[0]) then 0 else 1 + Span(s[1..], p)
  }

  /** Span is the length of any prefix of p-characters followed by a
      character that is not one. */
  lemma {:induction false} SpanIs(s: string, p: char -> bool, n: nat)
    requires n <= |s| && forall i :: 0 <= i < n ==> p(s[i])
    requires n == |s| || !p(s[n])
    ensures Span(s, p) == n
    decreases n
  {
    if n > 0 {
      assert forall i :: 0 <= i < n - 1 ==> s[1..][i] == s[i + 1];
      SpanIs(s[1..], p, n - 1);
    }
  }

  /** Splitting lines joined by "\n" gives them back when none is empty or
      holds a line break. */
  lemma {:induction false} SplitLinesJoin(lines: seq<string>)
    requires forall k :: 0 <= k < |lines| ==> lines[k] != []
    requires forall k, i :: 0 <= k < |lines| && 0 <= i < |lines[k]| ==> lines[k][i] != '\n' && lines[k][i] != '\r'
    ensures SplitLines(Join(lines, "\n")) == lines
    decreases |lines|
  {
    if |lines| == 1 {
      LineLengthIs(lines[0], |lines[0]|);
    } else if |lines| > 1 {
      var a, t := lines[0], Join(lines[1..], "\n");
      var s := a + "\n" + t;
      LineLengthIs(s, |a|);
      assert s[|a|] == '\n' && s[..|a|] == a;
      assert s[|a| + 1..] == t;
      SplitLinesJoin(lines[1..]);
      assert [a] + lines[1..] == lines;
    }
  }

  lemma {:induction false} LineLengthIs(s: string, n: nat)
    requires n <= |s| && forall i :: 0 <= i < n ==> s[i] != '\n' && s[i] != '\r'
    requires n == |s| || s[n] == '\n' || s[n] == '\r'
    ensures LineLength(s) == n
    decreases n
  {
    if n > 0 {
      LineLengthIs(s[1..], n - 1);
    }
  }

  /** `s.find(c, start)` for a single character: the first position at or
      after start holding c, or -1. */
  function FindChar(s: string, c: char, start: nat): (r: int)
    ensures r == -1 || (start <= r < |s| && s[r] == c)
    decreases |s| - start
  {
    if start >= |s| then -1
    else if s[start] == c then start
    else FindChar(s, c, start + 1)
  }

  /** The single-character search is the general one. */
  lemma {:induction false} FindCharIsFind(s: string, c: char, start: nat)
    ensures FindChar(s, c, start) == Find(s, [c], start)
    decreases |s| - start
  {
    if start < |s| {
      assert s[start..start + 1] == [s[start]];
      if s[start] != c {
        FindCharIsFind(s, c, start + 1);
      }
    }
  }

  /** FindChar stops at the first c at or after start. */
  lemma {:induction false} FindCharAt(s: string, c: char, start: nat, k: nat)
    requires start <= k < |s| && s[k] == c
    requires forall i :: start <= i < k ==> s[i] != c
    ensures FindChar(s, c, start) == k
    decreases k - start
  {
    if start < k {
      FindCharAt(s, c, start + 1, k);
    }
  }

  /** FindChar gives -1 when no c follows start. */
  lemma {:induction false} FindCharAbsent(s: string, c: char, start: nat)
    requires forall i :: start <= i < |s| ==> s[i] != c
    ensures FindChar(s, c, start) == -1
    decreases |s| - start
  {
    if start < |s| {
      FindCharAbsent(s, c, start + 1);
    }
  }

  predicate AllDigits(s: string) {
    forall i :: 0 <= i < |s| ==> IsDigit(s[i])
  }

  /** The value of a digit. */
  function DigitValue(c: char): (v: nat)
    requires IsDigit(c)
    ensures v < 10
  {
    c as int - '0' as int
  }

  function DigitChar(v: nat): (c: char)
    requires v < 10
    ensures IsDigit(c) && DigitValue(c) == v
  {
    ('0' as int + v) as char
  }

  /** The number a run of decimal digits denotes. */
  function DecimalValue(d: string): nat
    requires AllDigits(d)
    decreases |d|
  {
    if |d| == 0 then 0 else 10 * DecimalValue(d[..|d| - 1]) + DigitValue(d[|d| - 1])
  }

  /** The decimal rendering of n, without leading zeros. */
  function Decimal(n: nat): (d: string)
    ensures |d| >= 1 && AllDigits(d)
    ensures |d| > 1 ==> d[0] != '0'
  {
    if n < 10 then [DigitChar(n)] else Decimal(n / 10) + [DigitChar(n % 10)]
  }

  lemma {:induction false} DecimalRoundTrip(n: nat)
    ensures DecimalValue(Decimal(n)) == n
  {
    if n >= 10 {
      var d := Decimal(n);
      assert d[..|d| - 1] == Decimal(n / 10);
      DecimalRoundTrip(n / 10);
    }
  }

  /** `str(i)` (and `"%d" % i`) for an integer. */
  function IntRepr(i: int): (d: string)
    ensures |d| >= 1
  {
    if i < 0 then "-" + Decimal(-i) else Decimal(i)
  }
}
