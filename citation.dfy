/** The profiler-output parsers of src/sage/misc/citation.py: turning a
    cProfile statistics key into a dotted function name, and extracting the
    Cython functions from a gperftools text report. Strings are Python 2
    byte strings, modelled as sequences of characters. */
module Citation {
  import opened Outcomes
  import opened PyStrings

  // ---------------------------------------------------------------------
  // cProfile keys

  /** `_cprofile_stat_to_function_string((file, line, name))`. */
  function CprofileStatToFunctionString(file: string, line: int, name: string): (r: string)
  {
    var (modulePart, functionPart) :=
      if file == "~" then
        if StartsWith(name, "<method ") then BuiltinMethodParts(name)
        else ([], Slice(name, 1, -1))
      else
        (ReplaceChar(Split(Last(Split(file, "site-packages/")), ".")[0], '/', '.'), name);
    if modulePart != [] then modulePart + "." + functionPart else functionPart
  }

  /** The object and method names of a builtin-method key: the text after
      "of '" and after "method '", each up to the next quote. */
  function BuiltinMethodParts(name: string): (string, string) {
    var objectStart := Find(name, "of '", 0) + |"of '"|;
    var objectEnd := Find(name, "'", objectStart);
    var functionStart := Find(name, "method '", 0) + |"method '"|;
    var functionEnd := Find(name, "'", functionStart);
    (Slice(name, objectStart, objectEnd), Slice(name, functionStart, functionEnd))
  }

  /** A file key: the module is the path after the last "site-packages/",
      up to its first dot, with slashes turned into dots. */
  lemma FileKey(file: string, line: int, name: string)
    requires file != "~"
    ensures var path := Last(Split(file, "site-packages/"));
            var stem := Split(path, ".")[0];
            && (forall i :: !OccursAt(path, "site-packages/", i))
            && StartsWith(path + "\0", stem)
            && (forall i :: 0 <= i < |stem| ==> stem[i] != '.')
            && CprofileStatToFunctionString(file, line, name)
               == (if stem == [] then name else ReplaceChar(stem, '/', '.') + "." + name)
  {
    var ps := Split(file, "site-packages/");
    SplitPiecesAvoid(file, "site-packages/");
    assert forall i :: !OccursAt(Last(ps), "site-packages/", i);
    var path := Last(ps);
    var qs := Split(path, ".");
    JoinSplit(path, ".");
    SplitPiecesAvoid(path, ".");
    var stem := qs[0];
    forall i | 0 <= i < |stem|
      ensures stem[i] != '.'
    {
      assert !OccursAt(stem, ".", i);
    }
    if |qs| == 1 {
      assert path == stem;
    } else {
      assert path == stem + "." + Join(qs[1..], ".");
    }
    assert (path + "\0")[..|stem|] == stem;
  }

  /** The builtin-method key for method f of class o. */
  function MethodName(f: string, o: string): string {
    "<method '" + f + "' of '" + o + "' objects>"
  }

  /** The layout of a builtin-method key, character by character. */
  lemma MethodNameLayout(f: string, o: string)
    ensures var name, n := MethodName(f, o), |f|;
            && |name| == 25 + n + |o|
            && name[..9] == "<method '"
            && (forall i :: 0 <= i < n ==> name[9 + i] == f[i])
            && name[9 + n..15 + n] == "' of '"
            && (forall i :: 0 <= i < |o| ==> name[15 + n + i] == o[i])
            && name[15 + n + |o|] == '\''
  {
    var name, n := MethodName(f, o), |f|;
    assert name == "<method '" + f + "' of '" + o + "' objects>";
    assert name[9 + n..15 + n] == "' of '";
  }

  /** Find of a quote: the first quote at or after start. */
  lemma {:induction false} QuoteAt(s: string, start: nat, k: nat)
    requires start <= k < |s| && s[k] == '\''
    requires forall i :: start <= i < k ==> s[i] != '\''
    ensures Find(s, "'", start) == k
  {
    FindCharIs(s, '\'', start, k);
  }

  lemma MethodKeyFunctionStart(f: string, o: string)
    ensures Find(MethodName(f, o), "method '", 0) == 1
  {
    var name := MethodName(f, o);
    MethodNameLayout(f, o);
    assert name[1..9] == "method '";
    assert !OccursAt(name, "method '", 0) by { assert name[0] == '<'; }
    FindIs(name, "method '", 0, 1);
  }

  /** An occurrence of "of '" is those four characters. */
  lemma OfQuoteChars(s: string, i: int)
    ensures OccursAt(s, "of '", i) ==>
              s[i] == 'o' && s[i + 1] == 'f' && s[i + 2] == ' ' && s[i + 3] == '\''
  {
    if OccursAt(s, "of '", i) {
      assert s[i..i + 4][3] == s[i + 3];
    }
  }

  lemma MethodKeyObjectStart(f: string, o: string)
    requires forall i :: 0 <= i < |f| ==> f[i] != '\'' && f[i] != ' '
    ensures Find(MethodName(f, o), "of '", 0) == 11 + |f|
  {
    var name, n := MethodName(f, o), |f|;
    MethodNameLayout(f, o);
    assert name[11 + n..15 + n] == "of '";
    forall i | 0 <= i < 11 + n
      ensures !OccursAt(name, "of '", i)
    {
      OfQuoteChars(name, i);
      if i + 3 < 8 {
        assert name[i + 3] == "<method '"[i + 3];
      } else if i + 3 == 8 {
        assert name[i + 1] == 'd';
      } else if i + 3 < 9 + n {
        assert name[i + 3] == f[i + 3 - 9];
      } else if i + 3 == 9 + n {
        if n > 0 {
          assert name[i + 2] == f[n - 1];
        } else {
          assert name[i + 2] == "<method '"[8];
        }
      } else {
        assert name[i + 3] == "' of '"[i + 3 - 9 - n];
      }
    }
    FindIs(name, "of '", 0, 11 + n);
  }

  /** A builtin-method key `<method 'f' of 'o' objects>` with names free of
      quotes and f free of spaces gives `o.f`. */
  lemma MethodKey(f: string, o: string, line: int)
    requires forall i :: 0 <= i < |f| ==> f[i] != '\'' && f[i] != ' '
    requires forall i :: 0 <= i < |o| ==> o[i] != '\''
    requires o != []
    ensures CprofileStatToFunctionString("~", line, MethodName(f, o)) == o + "." + f
  {
    var name := MethodName(f, o);
    MethodNameLayout(f, o);
    assert StartsWith(name, "<method ") by { assert name[..8] == "<method "; }
    MethodKeyParts(f, o);
  }

  /** The parts of a builtin-method key are its object and method names. */
  lemma MethodKeyParts(f: string, o: string)
    requires forall i :: 0 <= i < |f| ==> f[i] != '\'' && f[i] != ' '
    requires forall i :: 0 <= i < |o| ==> o[i] != '\''
    ensures BuiltinMethodParts(MethodName(f, o)) == (o, f)
  {
    var name, n := MethodName(f, o), |f|;
    MethodNameLayout(f, o);
    MethodKeyFunctionStart(f, o);
    MethodKeyObjectStart(f, o);
    QuoteAt(name, 9, 9 + n);
    QuoteAt(name, 15 + n, 15 + n + |o|);
    assert name[15 + n..15 + n + |o|] == o;
    assert name[9..9 + n] == f;
  }

  /** Any other '~' key loses its first and last characters and gets no
      module prefix. */
  lemma OtherTildeKey(name: string, line: int)
    requires !StartsWith(name, "<method ")
    ensures |name| >= 2 ==> CprofileStatToFunctionString("~", line, name) == name[1..|name| - 1]
    ensures |name| < 2 ==> CprofileStatToFunctionString("~", line, name) == []
  {
  }

  /** The builtin-function example of the documentation. */
  lemma PosixExample()
    ensures CprofileStatToFunctionString("~", 0, "<posix.WIFEXITED>") == "posix.WIFEXITED"
  {
    assert !StartsWith("<posix.WIFEXITED>", "<method ") by {
      assert "<posix.WIFEXITED>"[1] == 'p';
    }
    OtherTildeKey("<posix.WIFEXITED>", 0);
  }

  // ---------------------------------------------------------------------
  // gperftools reports

  /** The regular expression `_[0123456789]+` matches at i. */
  predicate MatchAt(s: string, i: int) {
    0 <= i && i + 1 < |s| && s[i] == '_' && IsDigit(s[i + 1])
  }

  /** The length of the run of digits starting s. */
  function DigitRun(s: string): (n: nat)
    ensures n <= |s| && forall i :: 0 <= i < n ==> IsDigit(s[i])
    ensures n == |s| || !IsDigit(s[n])
    decreases |s|
  {
    if |s| == 0 || !IsDigit(s[0]) then 0 else 1 + DigitRun(s[1..])
  }

  /** The end of the match at i: past its underscore and its whole run of
      digits. */
  function MatchEnd(s: string, i: nat): (e: nat)
    requires MatchAt(s, i)
    ensures i + 2 <= e <= |s| && (e == |s| || !IsDigit(s[e]))
    ensures forall j :: i + 1 <= j < e ==> IsDigit(s[j])
  {
    var n := DigitRun(s[i + 1..]);
    assert forall j :: i + 1 <= j < i + 1 + n ==> s[j] == s[i + 1..][j - i - 1];
    i + 1 + n
  }

  /** The first match at or after `from`, or |s|. */
  function FirstMatch(s: string, from: nat): (i: nat)
    requires from <= |s|
    ensures from <= i <= |s| && (i == |s| || MatchAt(s, i))
    ensures forall j :: from <= j < i ==> !MatchAt(s, j)
    decreases |s| - from
  {
    if from == |s| then from else if MatchAt(s, from) then from else FirstMatch(s, from + 1)
  }

  /** `re.split("_[0123456789]+", s)`: the pieces between the leftmost
      longest matches. */
  function ReSplit(s: string): (pieces: seq<string>)
    ensures |pieces| >= 1
    decreases |s|
  {
    var i := FirstMatch(s, 0);
    if i == |s| then [s]
    else
      [s[..i]] + ReSplit(s[MatchEnd(s, i)..])
  }

  /** A prefix of s before its first match holds no match. */
  lemma PrefixNoMatch(s: string, i: nat)
    requires i <= |s| && forall j :: 0 <= j < i ==> !MatchAt(s, j)
    ensures forall j :: !MatchAt(s[..i], j)
  {
    forall j
      ensures !MatchAt(s[..i], j)
    {
      if 0 <= j && j + 1 < i {
        assert !MatchAt(s, j);
        assert s[..i][j] == s[j] && s[..i][j + 1] == s[j + 1];
      }
    }
  }

  /** No piece contains a match, and no piece after the first starts with a
      digit (the digit run of a match is taken whole). */
  lemma {:induction false} ReSplitPieces(s: string)
    ensures forall k, j :: 0 <= k < |ReSplit(s)| ==> !MatchAt(ReSplit(s)[k], j)
    ensures forall k :: 1 <= k < |ReSplit(s)| ==> ReSplit(s)[k] == [] || !IsDigit(ReSplit(s)[k][0])
    decreases |s|
  {
    var i := FirstMatch(s, 0);
    if i < |s| {
      var e := MatchEnd(s, i);
      var rest := ReSplit(s[e..]);
      ReSplitPieces(s[e..]);
      ReSplitUnfold(s, i, e);
      PrefixNoMatch(s, i);
      ReSplitHead(s[e..]);
      if |rest[0]| > 0 {
        assert rest[0][0] == s[e..][0] == s[e];
      }
      ConsPieces(s[..i], rest, ReSplit(s));
    }
  }

  /** ReSplit cuts at the first match and goes on after its digit run. */
  lemma ReSplitUnfold(s: string, i: nat, e: nat)
    requires i == FirstMatch(s, 0) && i < |s|
    requires e == MatchEnd(s, i)
    ensures ReSplit(s) == [s[..i]] + ReSplit(s[e..])
  {
  }

  /** The first piece of ReSplit is the text before the first match. */
  lemma ReSplitHead(s: string)
    ensures ReSplit(s)[0] == s[..FirstMatch(s, 0)]
  {
  }

  /** Putting a piece without a match in front of pieces without one, the
      second of which does not start with a digit. */
  lemma ConsPieces(first: string, rest: seq<string>, pieces: seq<string>)
    requires pieces == [first] + rest && |rest| >= 1
    requires forall j :: !MatchAt(first, j)
    requires rest[0] == [] || !IsDigit(rest[0][0])
    requires forall k, j :: 0 <= k < |rest| ==> !MatchAt(rest[k], j)
    requires forall k :: 1 <= k < |rest| ==> rest[k] == [] || !IsDigit(rest[k][0])
    ensures forall k, j :: 0 <= k < |pieces| ==> !MatchAt(pieces[k], j)
    ensures forall k :: 1 <= k < |pieces| ==> pieces[k] == [] || !IsDigit(pieces[k][0])
  {
    assert forall k :: 1 <= k < |pieces| ==> pieces[k] == rest[k - 1];
  }

  /** Joining such pieces with dots creates no match. */
  lemma {:induction false} JoinNoMatch(pieces: seq<string>)
    requires forall k, j :: 0 <= k < |pieces| ==> !MatchAt(pieces[k], j)
    ensures forall j :: !MatchAt(Join(pieces, "."), j)
    decreases |pieces|
  {
    if |pieces| >= 2 {
      JoinNoMatch(pieces[1..]);
      var a, t := pieces[0], Join(pieces[1..], ".");
      var s := a + "." + t;
      forall j | MatchAt(s, j)
        ensures false
      {
        if j + 1 < |a| {
          assert MatchAt(a, j);
        } else if j >= |a| + 1 {
          assert MatchAt(t, j - |a| - 1);
        }
      }
    }
  }

  /** The function name of a `__pyx` symbol: the pieces after the first,
      joined with dots. */
  function PyxName(token: string): string {
    Join(ReSplit(token)[1..], ".")
  }

  /** FirstMatch skips a stretch without a match and stops at the next one. */
  lemma {:induction false} FirstMatchAt(s: string, from: nat, i: nat)
    requires from <= i < |s| && MatchAt(s, i)
    requires forall j :: from <= j < i ==> !MatchAt(s, j)
    ensures FirstMatch(s, from) == i
    decreases i - from
  {
    if from < i {
      FirstMatchAt(s, from + 1, i);
    }
  }

  /** A run made only of digits, followed by a non-digit or the end. */
  lemma {:induction false} DigitRunOf(d: string, rest: string)
    requires forall k :: 0 <= k < |d| ==> IsDigit(d[k])
    requires rest == [] || !IsDigit(rest[0])
    ensures DigitRun(d + rest) == |d|
    decreases |d|
  {
    if |d| > 0 {
      assert (d + rest)[1..] == d[1..] + rest;
      DigitRunOf(d[1..], rest);
    }
  }

  /** Splitting at a match whose left side holds none. */
  lemma ReSplitCons(a: string, d: string, rest: string, s: string)
    requires s == a + "_" + d + rest
    requires forall j :: !MatchAt(a, j)
    requires |d| >= 1 && (forall k :: 0 <= k < |d| ==> IsDigit(d[k])) && (rest == [] || !IsDigit(rest[0]))
    ensures ReSplit(s) == [a] + ReSplit(rest)
  {
    var i := |a|;
    assert MatchAt(s, i) by {
      assert s[i] == '_' && s[i + 1] == d[0];
    }
    forall j | 0 <= j < i
      ensures !MatchAt(s, j)
    {
      if j + 1 < i {
        assert s[j] == a[j] && s[j + 1] == a[j + 1];
        assert !MatchAt(a, j);
      } else {
        assert s[j + 1] == '_';
      }
    }
    FirstMatchAt(s, 0, i);
    assert s[i + 1..] == d + rest;
    DigitRunOf(d, rest);
    assert s[..i] == a && s[i + 1 + |d|..] == rest;
    ReSplitUnfold(s, i, MatchEnd(s, i));
  }

  /** A string without a match is one piece. */
  lemma ReSplitWhole(s: string)
    requires forall j :: !MatchAt(s, j)
    ensures ReSplit(s) == [s]
  {
  }

  ghost predicate NoMatch(s: string) {
    forall j :: !MatchAt(s, j)
  }

  /** A piece after a match: no match in it, and not starting with a digit. */
  ghost predicate Tail(s: string) {
    NoMatch(s) && |s| >= 1 && !IsDigit(s[0])
  }

  predicate Digits(d: string) {
    |d| >= 1 && forall i :: 0 <= i < |d| ==> IsDigit(d[i])
  }

  lemma JoinFour(a: string, b: string, c: string, e: string)
    ensures Join([a, b, c, e], ".") == a + "." + (b + "." + (c + "." + e))
  {
    assert [c, e][1..] == [e];
    assert Join([c, e], ".") == c + "." + e;
    assert [b, c, e][1..] == [c, e];
    assert Join([b, c, e], ".") == b + "." + (c + "." + e);
    assert [a, b, c, e][1..] == [b, c, e];
  }

  /** Three pieces separated by numbered underscores split into those
      pieces. */
  lemma ReSplitThree(a2: string, a3: string, a4: string, d2: string, d3: string, s3: string, s2: string)
    requires Tail(a2) && Tail(a3) && Tail(a4) && Digits(d2) && Digits(d3)
    requires s3 == a3 + "_" + d3 + a4 && s2 == a2 + "_" + d2 + s3
    ensures ReSplit(s2) == [a2, a3, a4] && s2[0] == a2[0]
  {
    ReSplitWhole(a4);
    ReSplitCons(a3, d3, a4, s3);
    assert s3[0] == a3[0];
    ReSplitCons(a2, d2, s3, s2);
  }

  /** Five pieces separated by numbered underscores split into those
      pieces. */
  lemma ReSplitFive(a0: string, a1: string, a2: string, a3: string, a4: string,
                    d0: string, d1: string, d2: string, d3: string, s1: string, s0: string)
    requires NoMatch(a0) && Tail(a1) && Tail(a2) && Tail(a3) && Tail(a4)
    requires Digits(d0) && Digits(d1) && Digits(d2) && Digits(d3)
    requires s1 == a1 + "_" + d1 + (a2 + "_" + d2 + (a3 + "_" + d3 + a4)) && s0 == a0 + "_" + d0 + s1
    ensures ReSplit(s0) == [a0, a1, a2, a3, a4]
  {
    var s2 := a2 + "_" + d2 + (a3 + "_" + d3 + a4);
    ReSplitThree(a2, a3, a4, d2, d3, a3 + "_" + d3 + a4, s2);
    ReSplitCons(a1, d1, s2, s1);
    assert s1[0] == a1[0];
    ReSplitCons(a0, d0, s1, s0);
  }

  /** A symbol made of five pieces separated by numbered underscores: its
      name is the last four joined with dots. */
  lemma PyxNameOfPieces(a0: string, a1: string, a2: string, a3: string, a4: string,
                        d0: string, d1: string, d2: string, d3: string)
    requires NoMatch(a0) && Tail(a1) && Tail(a2) && Tail(a3) && Tail(a4)
    requires Digits(d0) && Digits(d1) && Digits(d2) && Digits(d3)
    ensures PyxName(a0 + "_" + d0 + (a1 + "_" + d1 + (a2 + "_" + d2 + (a3 + "_" + d3 + a4))))
         == a1 + "." + (a2 + "." + (a3 + "." + a4))
  {
    var s1 := a1 + "_" + d1 + (a2 + "_" + d2 + (a3 + "_" + d3 + a4));
    ReSplitFive(a0, a1, a2, a3, a4, d0, d1, d2, d3, s1, a0 + "_" + d0 + s1);
    assert [a0, a1, a2, a3, a4][1..] == [a1, a2, a3, a4];
    JoinFour(a1, a2, a3, a4);
  }

  /** The name recovered from the first `__pyx` symbol of the documented
      report, `__pyx_f_4sage_9structure_10parent_old_6Parent__generic_convert_map`. */
  lemma PyxNameDocumented()
    ensures PyxName("__pyx_f" + "_" + "4" + ("sage" + "_" + "9" + ("structure" + "_" + "10"
                    + ("parent_old" + "_" + "6" + "Parent__generic_convert_map"))))
         == "sage" + "." + ("structure" + "." + ("parent_old" + "." + "Parent__generic_convert_map"))
  {
    PyxNameOfPieces("__pyx_f", "sage", "structure", "parent_old", "Parent__generic_convert_map", "4", "9", "10", "6");
  }

  /** The name recovered from the second `__pyx` symbol of the documented
      report, `__pyx_f_4sage_9structure_11coerce_maps_24DefaultConvertMap_unique__call_`. */
  lemma PyxNameCoerceMaps()
    ensures PyxName("__pyx_f" + "_" + "4" + ("sage" + "_" + "9" + ("structure" + "_" + "11"
                    + ("coerce_maps" + "_" + "24" + "DefaultConvertMap_unique__call_"))))
         == "sage" + "." + ("structure" + "." + ("coerce_maps" + "." + "DefaultConvertMap_unique__call_"))
  {
    PyxNameOfPieces("__pyx_f", "sage", "structure", "coerce_maps", "DefaultConvertMap_unique__call_", "4", "9", "11", "24");
  }

  /** The name recovered from the third `__pyx` symbol of the documented
      report, `__pyx_f_4sage_9structure_6coerce_24CoercionModel_cache_maps_bin_op`. */
  lemma PyxNameCoerce()
    ensures PyxName("__pyx_f" + "_" + "4" + ("sage" + "_" + "9" + ("structure" + "_" + "6"
                    + ("coerce" + "_" + "24" + "CoercionModel_cache_maps_bin_op"))))
         == "sage" + "." + ("structure" + "." + ("coerce" + "." + "CoercionModel_cache_maps_bin_op"))
  {
    PyxNameOfPieces("__pyx_f", "sage", "structure", "coerce", "CoercionModel_cache_maps_bin_op", "4", "9", "6", "24");
  }

  /** The last word of every line; a blank line has none. */
  function LastWords(lines: seq<string>): (r: Result<seq<string>>)
    ensures r.Ok? <==> forall k :: 0 <= k < |lines| ==> Words(RStrip(lines[k])) != []
    ensures r.Err? ==> r.exc == IndexError
    ensures r.Ok? ==> |r.value| == |lines|
    ensures r.Ok? ==> forall k :: 0 <= k < |lines| ==> r.value[k] == Last(Words(RStrip(lines[k])))
    decreases |lines|
  {
    if |lines| == 0 then Ok([])
    else
      var ws := Words(RStrip(lines[0]));
      if ws == [] then Err(IndexError)
      else match LastWords(lines[1..])
        case Err(e) => Err(e)
        case Ok(rest) => Ok([Last(ws)] + rest)
  }

  /** The `__pyx` symbols among the tokens, turned into function names, in
      order. */
  function PyxNames(tokens: seq<string>): (names: seq<string>)
    decreases |tokens|
  {
    if |tokens| == 0 then []
    else if StartsWith(tokens[0], "__pyx") then [PyxName(tokens[0])] + PyxNames(tokens[1..])
    else PyxNames(tokens[1..])
  }

  /** `_gperftools_top_to_functions(top)`. */
  function GperftoolsTopToFunctions(top: string): (r: Result<seq<string>>)
    ensures r.Err? <==> exists k :: 0 <= k < |SplitLines(top)| && Words(RStrip(SplitLines(top)[k])) == []
  {
    match LastWords(SplitLines(top))
    case Err(e) => Err(e)
    case Ok(tokens) => Ok(PyxNames(tokens))
  }

  /** The number of `__pyx` tokens. */
  function CountPyx(tokens: seq<string>): nat
    decreases |tokens|
  {
    if |tokens| == 0 then 0 else (if StartsWith(tokens[0], "__pyx") then 1 else 0) + CountPyx(tokens[1..])
  }

  /** One name per `__pyx` token, none containing an underscore followed by
      a digit. */
  lemma {:induction false} PyxNamesShape(tokens: seq<string>)
    ensures |PyxNames(tokens)| == CountPyx(tokens)
    ensures forall k, j :: 0 <= k < |PyxNames(tokens)| ==> !MatchAt(PyxNames(tokens)[k], j)
    decreases |tokens|
  {
    if |tokens| > 0 {
      PyxNamesShape(tokens[1..]);
      if StartsWith(tokens[0], "__pyx") {
        ReSplitPieces(tokens[0]);
        var ps := ReSplit(tokens[0]);
        assert forall k, j :: 0 <= k < |ps[1..]| ==> !MatchAt(ps[1..][k], j);
        JoinNoMatch(ps[1..]);
        assert PyxNames(tokens)[1..] == PyxNames(tokens[1..]);
      }
    }
  }

  /** A token not starting with `__pyx` is dropped, one that does is kept,
      in order. */
  lemma {:induction false} PyxNamesConcat(a: seq<string>, b: seq<string>)
    ensures PyxNames(a + b) == PyxNames(a) + PyxNames(b)
    decreases |a|
  {
    if |a| == 0 {
      assert a + b == b;
    } else {
      assert (a + b)[0] == a[0];
      assert (a + b)[1..] == a[1..] + b;
      PyxNamesConcat(a[1..], b);
    }
  }
}
