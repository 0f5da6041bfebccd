/** Git object files as the Sage package manager reads them
    (build/manager/sage_pkg/git/blob.py): the header of a decompressed
    object, the dispatch on its type, the tree a commit names, and the
    listing of a tree object. Objects are Python 2 byte strings; reading
    and decompressing the file is not modelled, the decompressed bytes are
    the input. */
module GitBlob {
  import opened Outcomes
  import opened PyStrings

  /** A byte string: every character below 256. */
  type Bytes = s: string | forall i :: 0 <= i < |s| ==> s[i] as int < 256

  predicate IsLowerLetter(c: char) {
    'a' <= c <= 'z'
  }

  predicate AllLower(s: string) {
    forall i :: 0 <= i < |s| ==> IsLowerLetter(s[i])
  }

  // ---------------------------------------------------------------------
  // The object header

  /** The three groups of the header expression: the type, the size and
      the content. */
  datatype Header = Header(typ: string, size: string, content: string)

  /** `BLOB_RE.match`: a run of lower-case letters, a space, a run of
      digits, a NUL byte and everything after it. Both runs are maximal,
      so the expression cannot match any other way. */
  function MatchHeader(blob: string): (r: Option<Header>)
    ensures r.Some? ==> blob == r.value.typ + " " + r.value.size + "\0" + r.value.content
    ensures r.Some? ==> AllLower(r.value.typ) && AllDigits(r.value.size)
  {
    var t := Span(blob, IsLowerLetter);
    if t < |blob| && blob[t] == ' ' then
      var rest := blob[t + 1..];
      var d := Span(rest, IsDigit);
      if d < |rest| && rest[d] == '\0' then
        assert blob == blob[..t] + " " + rest[..d] + "\0" + rest[d + 1..];
        Some(Header(blob[..t], rest[..d], rest[d + 1..]))
      else None
    else None
  }

  /** Every string of the header's shape matches, with exactly its parts. */
  lemma {:induction false} MatchHeaderComplete(typ: string, size: string, content: string)
    requires AllLower(typ) && AllDigits(size)
    ensures MatchHeader(typ + " " + size + "\0" + content) == Some(Header(typ, size, content))
  {
    var blob := typ + " " + size + "\0" + content;
    SpanIs(blob, IsLowerLetter, |typ|);
    var rest := blob[|typ| + 1..];
    assert rest == size + "\0" + content;
    SpanIs(rest, IsDigit, |size|);
    assert blob[..|typ|] == typ;
    assert rest[..|size|] == size && rest[|size| + 1..] == content;
  }

  /** `int(size)` on the size group: a run of digits read in base 10; the
      empty run is refused. */
  function ParseSize(d: string): (r: Result<nat>)
    requires AllDigits(d)
    ensures r.Err? <==> d == []
    ensures r.Ok? ==> r.value == DecimalValue(d)
  {
    if d == [] then Err(ValueError("invalid literal for int() with base 10: ''"))
    else Ok(DecimalValue(d))
  }

  // ---------------------------------------------------------------------
  // Loading an object

  /** The three object classes. */
  datatype Kind = Commit | Tree | File

  /** The header type written for each kind of object. */
  function TypeName(k: Kind): string {
    match k
    case Commit => "commit"
    case Tree => "tree"
    case File => "blob"
  }

  function ClassName(k: Kind): string {
    match k
    case Commit => "BlobCommit"
    case Tree => "BlobTree"
    case File => "BlobFile"
  }

  /** A loaded object: its class, the `_type`, `_size` and `_content`
      attributes. */
  datatype GitObject = GitObject(kind: Kind, typ: string, size: nat, content: string)

  /** The kind chosen from the first bytes of the object, tried in the
      order commit, tree, blob. */
  function KindOf(blob: string): Option<Kind> {
    if StartsWith(blob, "commit") then Some(Commit)
    else if StartsWith(blob, "tree") then Some(Tree)
    else if StartsWith(blob, "blob") then Some(File)
    else None
  }

  /** Bytes that start with a type name are of that kind: no type name
      starts another. */
  lemma KindOfNamed(k: Kind, blob: string)
    requires StartsWith(blob, TypeName(k))
    ensures KindOf(blob) == Some(k)
  {
    var t := TypeName(k);
    assert blob[0] == blob[..|t|][0] == t[0];
    match k
    case Commit =>
    case Tree =>
      assert |blob| < 6 || blob[..6][0] != "commit"[0];
    case File =>
      assert |blob| < 6 || blob[..6][0] != "commit"[0];
      assert blob[..4][0] != "tree"[0];
  }

  /** `repr` of the bytes, quoted; escapes are not modelled. */
  function QuotedRepr(s: string): string {
    "'" + s + "'"
  }

  /** `Blob(filename)` on the decompressed bytes: the header must match,
      the class is chosen by the bytes the object starts with, and the
      constructor reads the size. */
  function Load(blob: string): (r: Result<GitObject>)
    ensures MatchHeader(blob).None? ==> r == Err(ValueError("file is not a git object"))
    ensures MatchHeader(blob).Some? && KindOf(blob).None? ==> r == Err(ValueError("unsupported blob: " + QuotedRepr(blob)))
    ensures r.Ok? ==> Some(r.value.kind) == KindOf(blob) && StartsWith(blob, TypeName(r.value.kind))
    ensures r.Ok? ==> MatchHeader(blob) == Some(Header(r.value.typ, MatchHeader(blob).value.size, r.value.content))
  {
    match MatchHeader(blob)
    case None => Err(ValueError("file is not a git object"))
    case Some(h) =>
      match KindOf(blob)
      case None => Err(ValueError("unsupported blob: " + QuotedRepr(blob)))
      case Some(k) =>
        match ParseSize(h.size)
        case Err(e) => Err(e)
        case Ok(n) => Ok(GitObject(k, h.typ, n, h.content))
  }

  /** A git object file: the type name, a space, the size in decimal, a NUL
      byte and the content. */
  function Render(k: Kind, content: string): string {
    TypeName(k) + " " + Decimal(|content|) + "\0" + content
  }

  /** Loading a rendered object gives back its kind, type, size and
      content. */
  lemma LoadRender(k: Kind, content: string)
    ensures Load(Render(k, content)) == Ok(GitObject(k, TypeName(k), |content|, content))
  {
    var blob := Render(k, content);
    MatchHeaderComplete(TypeName(k), Decimal(|content|), content);
    DecimalRoundTrip(|content|);
    assert blob[..|TypeName(k)|] == TypeName(k);
    KindOfNamed(k, blob);
    assert ParseSize(Decimal(|content|)) == Ok(|content|);
  }

  /** A size group with no digits passes the header but not the
      constructor. */
  lemma EmptySizeRefused(k: Kind, content: string)
    ensures Load(TypeName(k) + " " + "" + "\0" + content).Err?
  {
    var blob := TypeName(k) + " " + "" + "\0" + content;
    MatchHeaderComplete(TypeName(k), "", content);
    assert blob[..|TypeName(k)|] == TypeName(k);
  }

  // ---------------------------------------------------------------------
  // The generic repr

  /** A line `strip` empties. */
  predicate Blank(line: string) {
    forall i :: 0 <= i < |line| ==> IsSpace(line[i])
  }

  predicate NoBreaks(s: string) {
    forall i :: 0 <= i < |s| ==> s[i] != '\n' && s[i] != '\r'
  }

  /** Only a blank line right-strips to nothing. */
  lemma StrippedAway(line: string)
    ensures RStrip(line) == [] ==> Blank(line)
  {
  }

  /** The repr lines for the content lines: every line that is not blank,
      right-stripped and indented by four spaces. */
  function ReprLines(lines: seq<string>): (r: seq<string>)
    ensures |r| <= |lines|
    ensures forall k :: 0 <= k < |r| ==> |r[k]| > 4 && r[k][..4] == "    "
    ensures (forall k :: 0 <= k < |lines| ==> NoBreaks(lines[k])) ==> forall k :: 0 <= k < |r| ==> NoBreaks(r[k])
    decreases |lines|
  {
    if |lines| == 0 then []
    else
      var rest := ReprLines(lines[1..]);
      if Blank(lines[0]) then rest
      else
        var line := "    " + RStrip(lines[0]);
        assert RStrip(lines[0]) != [] by {
          StrippedAway(lines[0]);
        }
        assert forall k :: 1 <= k < |[line] + rest| ==> ([line] + rest)[k] == rest[k - 1];
        [line] + rest
  }

  /** `BlobABC.__repr__`: the class name and a colon, then the repr lines
      of the content, joined by newlines. */
  function Repr(o: GitObject): string {
    Join([ClassName(o.kind) + ":"] + ReprLines(SplitLines(o.content)), "\n")
  }

  /** The repr reads back, line by line, as the class name followed by
      the non-blank content lines. */
  lemma ReprReadsBack(o: GitObject)
    ensures SplitLines(Repr(o)) == [ClassName(o.kind) + ":"] + ReprLines(SplitLines(o.content))
  {
    var lines := [ClassName(o.kind) + ":"] + ReprLines(SplitLines(o.content));
    forall k | 0 <= k < |lines|
      ensures lines[k] != [] && NoBreaks(lines[k])
    {
      if k == 0 {
        assert ClassName(o.kind)[0] != '\n' && ClassName(o.kind)[0] != '\r';
      }
    }
    SplitLinesJoin(lines);
  }

  // ---------------------------------------------------------------------
  // The tree of a commit

  predicate IsHexDigit(c: char) {
    '0' <= c <= '9' || 'a' <= c <= 'f'
  }

  predicate AllHex(s: string) {
    forall i :: 0 <= i < |s| ==> IsHexDigit(s[i])
  }

  /** `BlobCommit.tree`: the 40 hexadecimal digits after "tree " at the
      start of the content; the match is None otherwise and reading its
      group raises AttributeError. */
  function TreeOf(content: string): (r: Result<string>)
    ensures r.Ok? ==> |r.value| == 40 && AllHex(r.value) && StartsWith(content, "tree " + r.value)
    ensures r.Err? ==> r.exc == AttributeError
  {
    if StartsWith(content, "tree ") && |content| >= 45 && AllHex(content[5..45]) then
      assert content[..45] == "tree " + content[5..45];
      Ok(content[5..45])
    else Err(AttributeError)
  }

  /** A commit that starts with "tree " and a sha1 names that sha1. */
  lemma TreeOfCommit(sha1: string, rest: string)
    requires |sha1| == 40 && AllHex(sha1)
    ensures TreeOf("tree " + sha1 + rest) == Ok(sha1)
  {
    var c := "tree " + sha1 + rest;
    assert c[..5] == "tree " && c[5..45] == sha1;
  }

  /** A sha1 shorter than 40 digits, or a non-digit among them, is
      refused. */
  lemma TreeOfRefused(content: string)
    requires |content| < 45 || !StartsWith(content, "tree ") || !AllHex(content[5..45])
    ensures TreeOf(content) == Err(AttributeError)
  {
  }

  // ---------------------------------------------------------------------
  // Hexadecimal sha1s

  function HexValue(c: char): (v: nat)
    requires IsHexDigit(c)
    ensures v < 16
  {
    if c <= '9' then c as int - '0' as int else c as int - 'a' as int + 10
  }

  /** A lower-case hexadecimal digit. */
  function HexDigit(v: nat): (c: char)
    requires v < 16
    ensures IsHexDigit(c) && HexValue(c) == v
  {
    if v < 10 then ('0' as int + v) as char else ('a' as int + v - 10) as char
  }

  /** `''.join('{0:02x}'.format(ord(c)) for c in b)`: two lower-case
      hexadecimal digits per byte, the high one first. */
  function Hex(b: string): (h: string)
    ensures |h| == 2 * |b|
    decreases |b|
  {
    if |b| == 0 then [] else HexPair(b[0]) + Hex(b[1..])
  }

  function HexPair(c: char): (h: string)
    ensures |h| == 2
  {
    [HexDigit((c as int / 16) % 16), HexDigit(c as int % 16)]
  }

  /** The bytes a string of hexadecimal digit pairs spells. */
  function Unhex(h: string): (b: Bytes)
    requires |h| % 2 == 0 && AllHex(h)
    ensures |b| == |h| / 2
    decreases |h|
  {
    if |h| == 0 then []
    else [(16 * HexValue(h[0]) + HexValue(h[1])) as char] + Unhex(h[2..])
  }

  lemma {:induction false} HexIsHex(b: string)
    ensures AllHex(Hex(b))
    decreases |b|
  {
    if |b| > 0 {
      HexIsHex(b[1..]);
      var h, p := Hex(b), HexPair(b[0]);
      assert forall i :: 2 <= i < |h| ==> h[i] == Hex(b[1..])[i - 2];
    }
  }

  /** Reading the hexadecimal digits back gives the bytes. */
  lemma {:induction false} UnhexHex(b: Bytes)
    ensures AllHex(Hex(b)) && Unhex(Hex(b)) == b
    decreases |b|
  {
    HexIsHex(b);
    if |b| > 0 {
      var h, p := Hex(b), HexPair(b[0]);
      UnhexHex(b[1..]);
      assert h == p + Hex(b[1..]);
      assert h[2..] == Hex(b[1..]);
      assert 16 * HexValue(p[0]) + HexValue(p[1]) == b[0] as int;
    }
  }

  // ---------------------------------------------------------------------
  // Listing a tree

  /** One tree entry: the mode, the name and the 20 raw bytes of the
      sha1. `ls` yields the mode, the name and the sha1 in hexadecimal. */
  datatype Entry = Entry(mode: string, name: string, sha1Binary: string)

  /** The sha1 `ls` yields for an entry. */
  function Sha1(e: Entry): string {
    Hex(e.sha1Binary)
  }

  /** One pass of the loop of `ls` from position pos: the entry it reads
      and the position it moves to. The searches and slices are Python's,
      so a missing space or NUL byte (position -1) still yields an entry. */
  function EntryAt(content: string, pos: nat): (r: (Entry, nat))
  {
    var posSpace := FindChar(content, ' ', pos + 1);
    var mode := Slice(content, pos, posSpace);
    var posZero := FindChar(content, '\0', posSpace + 1);
    var name := Slice(content, posSpace + 1, posZero);
    var sha1Binary := Slice(content, posZero + 1, posZero + 21);
    (Entry(mode, name, sha1Binary), posZero + 21)
  }

  /** The entries `ls` yields from position pos, at most fuel of them, and
      whether the generator has stopped by then. */
  function Listing(content: string, pos: nat, fuel: nat): (r: (seq<Entry>, bool))
    ensures |r.0| <= fuel
    ensures !r.1 ==> |r.0| == fuel
    decreases fuel
  {
    if pos >= |content| then ([], true)
    else if fuel == 0 then ([], false)
    else
      var step := EntryAt(content, pos);
      var rest := Listing(content, step.1, fuel - 1);
      ([step.0] + rest.0, rest.1)
  }

  /** `BlobTree.ls`, run until the generator stops or has yielded limit
      entries; ended tells which. */
  method Ls(content: string, limit: nat) returns (entries: seq<Entry>, ended: bool)
    ensures (entries, ended) == Listing(content, 0, limit)
  {
    ghost var all := Listing(content, 0, limit);
    var pos: nat := 0;
    entries := [];
    assert entries + all.0 == all.0;
    while pos < |content| && |entries| < limit
      invariant LsInvariant(content, limit, all, entries, pos)
      decreases limit - |entries|
    {
      var e, next := ReadEntry(content, pos);
      LsStep(content, limit, all, entries, pos);
      entries := entries + [e];
      pos := next;
    }
    ListingDone(content, pos, limit - |entries|, entries);
    ended := pos >= |content|;
  }

  lemma ListingDone(content: string, pos: nat, fuel: nat, before: seq<Entry>)
    requires pos >= |content| || fuel == 0
    ensures before + Listing(content, pos, fuel).0 == before
    ensures Listing(content, pos, fuel).1 == (pos >= |content|)
  {
    assert before + [] == before;
  }

  /** The body of the loop of `ls`: the two searches and three slices
      that read one entry. */
  method ReadEntry(content: string, pos: nat) returns (e: Entry, next: nat)
    ensures (e, next) == EntryAt(content, pos)
  {
    var posSpace := FindChar(content, ' ', pos + 1);
    var mode := Slice(content, pos, posSpace);
    var posZero := FindChar(content, '\0', posSpace + 1);
    var name := Slice(content, posSpace + 1, posZero);
    var sha1Binary := Slice(content, posZero + 1, posZero + 21);
    e, next := Entry(mode, name, sha1Binary), posZero + 21;
  }

  /** The loop invariant of `Ls`: the entries so far followed by the rest
      of the listing from pos make up the whole listing. */
  ghost predicate LsInvariant(content: string, limit: nat, all: (seq<Entry>, bool), entries: seq<Entry>, pos: nat) {
    && |entries| <= limit
    && all.0 == entries + Listing(content, pos, limit - |entries|).0
    && all.1 == Listing(content, pos, limit - |entries|).1
  }

  lemma LsStep(content: string, limit: nat, all: (seq<Entry>, bool), entries: seq<Entry>, pos: nat)
    requires LsInvariant(content, limit, all, entries, pos) && pos < |content| && |entries| < limit
    ensures LsInvariant(content, limit, all, entries + [EntryAt(content, pos).0], EntryAt(content, pos).1)
  {
    var e, next := EntryAt(content, pos).0, EntryAt(content, pos).1;
    var fuel := limit - |entries|;
    ListingStep(content, pos, fuel, entries);
    assert limit - |entries + [e]| == fuel - 1;
    assert all.0 == (entries + [e]) + Listing(content, next, fuel - 1).0;
    assert all.1 == Listing(content, next, fuel - 1).1;
    assert |entries + [e]| <= limit;
    assert LsInvariant(content, limit, all, entries + [e], next);
  }

  lemma ListingStep(content: string, pos: nat, fuel: nat, before: seq<Entry>)
    requires pos < |content| && fuel > 0
    ensures before + Listing(content, pos, fuel).0
         == (before + [EntryAt(content, pos).0]) + Listing(content, EntryAt(content, pos).1, fuel - 1).0
    ensures Listing(content, pos, fuel).1 == Listing(content, EntryAt(content, pos).1, fuel - 1).1
  {
    var rest := Listing(content, EntryAt(content, pos).1, fuel - 1).0;
    assert before + ([EntryAt(content, pos).0] + rest) == (before + [EntryAt(content, pos).0]) + rest;
  }

  /** An entry `ls` can read back: a mode of at least one byte and no
      space, a name with no NUL byte, a sha1 of 20 bytes. */
  predicate WellFormed(e: Entry) {
    && |e.mode| >= 1
    && (forall i :: 0 <= i < |e.mode| ==> e.mode[i] != ' ')
    && (forall i :: 0 <= i < |e.name| ==> e.name[i] != '\0')
    && |e.sha1Binary| == 20
  }

  /** A tree entry as git stores it: the mode, a space, the name, a NUL
      byte and the binary sha1. */
  function EncodeEntry(e: Entry): string {
    e.mode + " " + e.name + "\0" + e.sha1Binary
  }

  /** The content of a tree object. */
  function Encode(es: seq<Entry>): string
    decreases |es|
  {
    if |es| == 0 then [] else EncodeEntry(es[0]) + Encode(es[1..])
  }

  /** The searches and slices of one pass of `ls` over an encoded entry
      find its parts. */
  lemma EncodedReads(content: string, pos: nat, e: Entry)
    requires WellFormed(e)
    requires pos + |EncodeEntry(e)| <= |content| && content[pos..pos + |EncodeEntry(e)|] == EncodeEntry(e)
    ensures ReadsAs(content, pos, e)
  {
    FindSpace(content, pos, e);
    FindNul(content, pos, e);
    EncodedSlices(content, pos, e);
  }

  /** The searches and slices of one pass of `ls` from pos find the parts
      of e. */
  ghost predicate ReadsAs(content: string, pos: nat, e: Entry) {
    var m, n := |e.mode|, |e.name|;
    && FindChar(content, ' ', pos + 1) == pos + m
    && FindChar(content, '\0', pos + m + 1) == pos + m + 1 + n
    && Slice(content, pos, pos + m) == e.mode
    && Slice(content, pos + m + 1, pos + m + 1 + n) == e.name
    && Slice(content, pos + m + n + 2, pos + m + n + 22) == e.sha1Binary
  }

  lemma EntryAtReads(content: string, pos: nat, e: Entry)
    requires ReadsAs(content, pos, e)
    ensures EntryAt(content, pos) == (e, pos + |e.mode| + |e.name| + 22)
  {
    var m, n := |e.mode|, |e.name|;
    var posSpace, posZero := pos + m, pos + m + 1 + n;
    EntryAtIs(content, pos, posSpace, posZero);
    assert Slice(content, pos, posSpace) == e.mode;
    assert Slice(content, posSpace + 1, posZero) == e.name;
    assert posZero + 1 == pos + m + n + 2 && posZero + 21 == pos + m + n + 22;
    assert Slice(content, posZero + 1, posZero + 21) == e.sha1Binary;
  }

  /** The three slices of `ls` over an encoded entry are its parts. */
  lemma EncodedSlices(content: string, pos: nat, e: Entry)
    requires pos + |EncodeEntry(e)| <= |content| && content[pos..pos + |EncodeEntry(e)|] == EncodeEntry(e)
    requires |e.sha1Binary| == 20
    ensures var m, n := |e.mode|, |e.name|;
      && Slice(content, pos, pos + m) == e.mode
      && Slice(content, pos + m + 1, pos + m + 1 + n) == e.name
      && Slice(content, pos + m + n + 2, pos + m + n + 22) == e.sha1Binary
  {
    var c := EncodeEntry(e);
    var m, n := |e.mode|, |e.name|;
    EncodeEntryParts(e);
    SlicePart(content, pos, c, 0, m);
    SlicePart(content, pos, c, m + 1, m + 1 + n);
    SlicePart(content, pos, c, m + n + 2, |c|);
  }

  /** A Python slice inside a stretch of the content that holds c is the
      matching slice of c. */
  lemma SlicePart(content: string, pos: nat, c: string, a: nat, b: nat)
    requires pos + |c| <= |content| && content[pos..pos + |c|] == c && a <= b <= |c|
    ensures Slice(content, pos + a, pos + b) == c[a..b]
  {
    SliceIs(content, pos + a, pos + b);
    Within(content, pos, c, a, b);
  }

  /** The search for the space of an encoded entry stops at it. */
  lemma FindSpace(content: string, pos: nat, e: Entry)
    requires WellFormed(e)
    requires pos + |EncodeEntry(e)| <= |content| && content[pos..pos + |EncodeEntry(e)|] == EncodeEntry(e)
    ensures FindChar(content, ' ', pos + 1) == pos + |e.mode|
  {
    var c := EncodeEntry(e);
    var m := |e.mode|;
    EncodeEntryParts(e);
    Within(content, pos, c, 0, m);
    assert content[pos + m] == c[m];
    assert forall i :: pos + 1 <= i < pos + m ==> content[i] == content[pos..pos + m][i - pos];
    FindCharAt(content, ' ', pos + 1, pos + m);
  }

  /** The search for the NUL byte of an encoded entry stops at it. */
  lemma FindNul(content: string, pos: nat, e: Entry)
    requires WellFormed(e)
    requires pos + |EncodeEntry(e)| <= |content| && content[pos..pos + |EncodeEntry(e)|] == EncodeEntry(e)
    ensures FindChar(content, '\0', pos + |e.mode| + 1) == pos + |e.mode| + 1 + |e.name|
  {
    var c := EncodeEntry(e);
    var m, n := |e.mode|, |e.name|;
    EncodeEntryParts(e);
    Within(content, pos, c, m + 1, m + 1 + n);
    assert content[pos + m + 1 + n] == c[m + 1 + n];
    assert forall i :: pos + m + 1 <= i < pos + m + 1 + n ==> content[i] == content[pos + m + 1..pos + m + 1 + n][i - (pos + m + 1)];
    FindCharAt(content, '\0', pos + m + 1, pos + m + 1 + n);
  }

  /** Where the parts of an encoded entry sit. */
  lemma EncodeEntryParts(e: Entry)
    ensures var c, m, n := EncodeEntry(e), |e.mode|, |e.name|;
      && |c| == m + n + 2 + |e.sha1Binary|
      && c[..m] == e.mode && c[m] == ' '
      && c[m + 1..m + 1 + n] == e.name && c[m + 1 + n] == '\0'
      && c[m + n + 2..] == e.sha1Binary
  {
  }

  /** A piece of a string that sits inside another at pos. */
  lemma Within(c: string, pos: nat, e: string, a: nat, b: nat)
    requires pos + |e| <= |c| && c[pos..pos + |e|] == e && a <= b <= |e|
    ensures c[pos + a..pos + b] == e[a..b]
  {
    forall i | 0 <= i < b - a
      ensures c[pos + a..pos + b][i] == e[a..b][i]
    {
      assert c[pos + a..pos + b][i] == c[pos..pos + |e|][a + i];
    }
  }

  /** One pass of `ls` once its two searches are known. */
  lemma EntryAtIs(content: string, pos: nat, posSpace: int, posZero: int)
    requires FindChar(content, ' ', pos + 1) == posSpace
    requires posSpace >= -1 && FindChar(content, '\0', posSpace + 1) == posZero
    ensures posZero >= -1
    ensures EntryAt(content, pos).0 == Entry(Slice(content, pos, posSpace), Slice(content, posSpace + 1, posZero), Slice(content, posZero + 1, posZero + 21))
    ensures EntryAt(content, pos).1 == posZero + 21
  {
  }

  lemma SliceIs(s: string, a: nat, b: nat)
    requires a <= b <= |s|
    ensures Slice(s, a, b) == s[a..b]
  {
  }

  /** `Listing` with the pass that reads one entry left abstract: the
      entries a generator built on step yields from pos, at most fuel of
      them, and whether it has stopped by then. */
  function Generate(step: (string, nat) -> (Entry, nat), content: string, pos: nat, fuel: nat): (r: (seq<Entry>, bool))
    ensures |r.0| <= fuel
    decreases fuel
  {
    if pos >= |content| then ([], true)
    else if fuel == 0 then ([], false)
    else
      var s := step(content, pos);
      var rest := Generate(step, content, s.1, fuel - 1);
      ([s.0] + rest.0, rest.1)
  }

  /** `ls` is the generator built on the pass `EntryAt`. */
  lemma {:induction false} ListingIsGenerate(content: string, pos: nat, fuel: nat)
    ensures Listing(content, pos, fuel) == Generate(EntryAt, content, pos, fuel)
    decreases fuel
  {
    if pos < |content| && fuel > 0 {
      var step := EntryAt(content, pos);
      ListingIsGenerate(content, step.1, fuel - 1);
      var rest := Generate(EntryAt, content, step.1, fuel - 1);
      assert Generate(EntryAt, content, pos, fuel) == ([step.0] + rest.0, rest.1);
    }
  }

  /** Where entry k of es starts in the content of a tree object written
      from es. */
  function Offset(es: seq<Entry>, k: nat): nat
    requires k <= |es|
    decreases k
  {
    if k == 0 then 0 else |EncodeEntry(es[0])| + Offset(es[1..], k - 1)
  }

  lemma {:induction false} EncodeAt(es: seq<Entry>, k: nat)
    requires k < |es|
    ensures Offset(es, k + 1) == Offset(es, k) + |EncodeEntry(es[k])|
    ensures Offset(es, k + 1) <= |Encode(es)|
    ensures Encode(es)[Offset(es, k)..Offset(es, k + 1)] == EncodeEntry(es[k])
    decreases k
  {
    var c := EncodeEntry(es[0]);
    if k > 0 {
      EncodeAt(es[1..], k - 1);
      assert es[1..][k - 1] == es[k];
      var i, j := Offset(es[1..], k - 1), Offset(es[1..], k);
      assert Encode(es)[|c| + i..|c| + j] == Encode(es[1..])[i..j];
    }
  }

  lemma {:induction false} EncodeSize(es: seq<Entry>)
    ensures |Encode(es)| == Offset(es, |es|)
    decreases |es|
  {
    if |es| > 0 {
      EncodeSize(es[1..]);
    }
  }

  lemma EncodedReadsAt(es: seq<Entry>, k: nat)
    requires k < |es| && WellFormed(es[k])
    ensures Offset(es, k) < |Encode(es)|
    ensures Offset(es, k + 1) == Offset(es, k) + |es[k].mode| + |es[k].name| + 22
    ensures ReadsAs(Encode(es), Offset(es, k), es[k])
  {
    EncodeAt(es, k);
    EncodeEntryParts(es[k]);
    EncodedReads(Encode(es), Offset(es, k), es[k]);
  }

  /** Pass k of `ls` over a tree object written from well-formed entries
      reads entry k and moves to the start of entry k + 1. */
  lemma EntryAtOffset(es: seq<Entry>, k: nat)
    requires k < |es| && WellFormed(es[k])
    ensures Offset(es, k) < |Encode(es)|
    ensures EntryAt(Encode(es), Offset(es, k)) == (es[k], Offset(es, k + 1))
  {
    EncodedReadsAt(es, k);
    EntryAtReads(Encode(es), Offset(es, k), es[k]);
  }

  /** Reading from pos, step yields es one pass after another, each pass
      consuming the encoded size of its entry, and then reaches the end of
      the content. */
  ghost predicate Decodes(step: (string, nat) -> (Entry, nat), content: string, pos: nat, es: seq<Entry>)
  {
    && pos + Offset(es, |es|) >= |content|
    && forall k :: 0 <= k < |es| ==>
         && pos + Offset(es, k) < |content|
         && step(content, pos + Offset(es, k)) == (es[k], pos + Offset(es, k + 1))
  }

  lemma DecodesTail(step: (string, nat) -> (Entry, nat), content: string, pos: nat, es: seq<Entry>)
    requires Decodes(step, content, pos, es) && |es| > 0
    ensures Decodes(step, content, pos + |EncodeEntry(es[0])|, es[1..])
  {
    var next := pos + |EncodeEntry(es[0])|;
    assert Offset(es, |es|) == |EncodeEntry(es[0])| + Offset(es[1..], |es| - 1);
    forall k | 0 <= k < |es| - 1
      ensures next + Offset(es[1..], k) < |content|
      ensures step(content, next + Offset(es[1..], k)) == (es[1..][k], next + Offset(es[1..], k + 1))
    {
      assert Offset(es, k + 1) == |EncodeEntry(es[0])| + Offset(es[1..], k);
      assert Offset(es, k + 2) == |EncodeEntry(es[0])| + Offset(es[1..], k + 1);
      assert es[1..][k] == es[k + 1];
    }
  }

  lemma {:induction false} GenerateDecodes(step: (string, nat) -> (Entry, nat), content: string, pos: nat, es: seq<Entry>, fuel: nat)
    requires Decodes(step, content, pos, es) && |es| <= fuel
    ensures Generate(step, content, pos, fuel) == (es, true)
    decreases |es|
  {
    if |es| > 0 {
      assert Offset(es, 1) == |EncodeEntry(es[0])| + Offset(es[1..], 0);
      assert pos + Offset(es, 0) < |content|;
      DecodesTail(step, content, pos, es);
      GenerateDecodes(step, content, pos + |EncodeEntry(es[0])|, es[1..], fuel - 1);
      assert [es[0]] + es[1..] == es;
    }
  }

  /** `ls` reads back every entry of a tree object written from
      well-formed entries, in order, and then stops. */
  lemma LsEncoded(es: seq<Entry>, fuel: nat)
    requires forall k :: 0 <= k < |es| ==> WellFormed(es[k])
    requires |es| <= fuel
    ensures Listing(Encode(es), 0, fuel) == (es, true)
  {
    EncodeSize(es);
    forall k | 0 <= k < |es|
      ensures 0 + Offset(es, k) < |Encode(es)|
      ensures EntryAt(Encode(es), 0 + Offset(es, k)) == (es[k], 0 + Offset(es, k + 1))
    {
      EntryAtOffset(es, k);
    }
    GenerateDecodes(EntryAt, Encode(es), 0, es, fuel);
    ListingIsGenerate(Encode(es), 0, fuel);
  }

  /** Content with no NUL byte that is longer than 20 bytes keeps `ls`
      returning to position 20: the generator never stops. */
  lemma LsNeverStops(content: string, fuel: nat)
    requires |content| > 20 && forall i :: 0 <= i < |content| ==> content[i] != '\0'
    ensures !Listing(content, 0, fuel).1
  {
    NoNulReturns(content, 0);
    if fuel > 0 {
      StuckAtTwenty(content, fuel - 1);
    }
  }

  lemma NoNulReturns(content: string, pos: nat)
    requires forall i :: 0 <= i < |content| ==> content[i] != '\0'
    ensures EntryAt(content, pos).1 == 20
  {
    var posSpace := FindChar(content, ' ', pos + 1);
    FindCharAbsent(content, '\0', (posSpace + 1) as nat);
  }

  lemma {:induction false} StuckAtTwenty(content: string, fuel: nat)
    requires |content| > 20 && forall i :: 0 <= i < |content| ==> content[i] != '\0'
    ensures !Listing(content, 20, fuel).1
    decreases fuel
  {
    if fuel > 0 {
      NoNulReturns(content, 20);
      StuckAtTwenty(content, fuel - 1);
    }
  }

  // ---------------------------------------------------------------------
  // Sub-trees and look-up

  /** `BlobTree.MODE_DIR`. */
  const ModeDir: string := "40000"

  /** The entries `ls_dirs` keeps: those whose mode is the directory
      mode, in order. */
  function Dirs(es: seq<Entry>): (r: seq<Entry>)
    ensures forall k :: 0 <= k < |r| ==> r[k] in es && r[k].mode == ModeDir
    ensures forall k :: 0 <= k < |es| && es[k].mode == ModeDir ==> es[k] in r
    decreases |es|
  {
    if |es| == 0 then []
    else
      var rest := Dirs(es[1..]);
      assert forall e :: e in es[1..] ==> e in es;
      if es[0].mode == ModeDir then [es[0]] + rest else rest
  }

  /** Filtering keeps the order: the directories of two listings one after
      the other are those of the first, then those of the second. */
  lemma {:induction false} DirsConcat(a: seq<Entry>, b: seq<Entry>)
    ensures Dirs(a + b) == Dirs(a) + Dirs(b)
    decreases |a|
  {
    if |a| > 0 {
      assert (a + b)[1..] == a[1..] + b;
      DirsConcat(a[1..], b);
    } else {
      assert a + b == b;
    }
  }

  /** `BlobTree.ls_dirs` over the first limit entries of `ls`. */
  function LsDirs(content: string, limit: nat): (r: (seq<Entry>, bool))
    ensures r.1 == Listing(content, 0, limit).1
    ensures forall k :: 0 <= k < |r.0| ==> r.0[k] in Listing(content, 0, limit).0 && r.0[k].mode == ModeDir
    ensures forall e :: e in Listing(content, 0, limit).0 && e.mode == ModeDir ==> e in r.0
  {
    var l := Listing(content, 0, limit);
    (Dirs(l.0), l.1)
  }

  /** `BlobTree.ls_dirs`: the loop over `ls` that yields the sub-trees. */
  method SubTrees(content: string, limit: nat) returns (dirs: seq<Entry>, ended: bool)
    ensures (dirs, ended) == LsDirs(content, limit)
  {
    var entries;
    entries, ended := Ls(content, limit);
    dirs := [];
    var i := 0;
    while i < |entries|
      invariant 0 <= i <= |entries|
      invariant dirs == Dirs(entries[..i])
    {
      assert entries[..i + 1] == entries[..i] + [entries[i]];
      DirsConcat(entries[..i], [entries[i]]);
      if entries[i].mode == ModeDir {
        dirs := dirs + [entries[i]];
      }
      i := i + 1;
    }
    assert entries[..i] == entries;
    assert dirs == Dirs(entries);
  }

  /** The position of the first entry with the given name. */
  function FirstNamed(es: seq<Entry>, filename: string): (r: Option<nat>)
    ensures r.Some? ==> r.value < |es| && es[r.value].name == filename
    ensures r.Some? ==> forall k :: 0 <= k < r.value ==> es[k].name != filename
    ensures r.None? ==> forall k :: 0 <= k < |es| ==> es[k].name != filename
    decreases |es|
  {
    if |es| == 0 then None
    else if es[0].name == filename then Some(0)
    else match FirstNamed(es[1..], filename)
      case None => None
      case Some(k) => Some(k + 1)
  }

  /** `BlobTree.get` over the first limit entries of `ls`: the sha1 of the
      first entry with that name; the ValueError once the listing has
      stopped without one; None while the listing has not stopped within
      limit entries. */
  function Get(content: string, filename: string, limit: nat): (r: Option<Result<string>>)
  {
    var l := Listing(content, 0, limit);
    match FirstNamed(l.0, filename)
    case Some(k) => Some(Ok(Sha1(l.0[k])))
    case None => if l.1 then Some(Err(ValueError("file is not in the tree"))) else None
  }

  /** `get` finds a sha1 exactly when some listed entry has the name, and
      its only error is the missing name. */
  lemma GetFinds(content: string, filename: string, limit: nat)
    ensures var r := Get(content, filename, limit);
      r.Some? && r.value.Ok? <==> exists k :: 0 <= k < |Listing(content, 0, limit).0| && Listing(content, 0, limit).0[k].name == filename
    ensures var r := Get(content, filename, limit);
      r.Some? && r.value.Err? ==> r.value.exc == ValueError("file is not in the tree")
  {
    var es := Listing(content, 0, limit).0;
    var f := FirstNamed(es, filename);
    if f.Some? {
      assert es[f.value].name == filename;
    }
  }

  /** The search for the first entry of the name: the loop of `get`. */
  method FindNamed(entries: seq<Entry>, filename: string) returns (found: Option<nat>)
    ensures found == FirstNamed(entries, filename)
  {
    var i := 0;
    while i < |entries|
      invariant 0 <= i <= |entries|
      invariant forall j :: 0 <= j < i ==> entries[j].name != filename
    {
      if entries[i].name == filename {
        FirstNamedAt(entries, filename, i);
        return Some(i);
      }
      i := i + 1;
    }
    found := None;
  }

  /** The first entry of the name is the one no earlier entry shares it with. */
  lemma FirstNamedAt(es: seq<Entry>, filename: string, i: nat)
    requires i < |es| && es[i].name == filename
    requires forall j :: 0 <= j < i ==> es[j].name != filename
    ensures FirstNamed(es, filename) == Some(i)
  {
  }

  /** `BlobTree.get`: the loop over `ls` that returns the sha1 of the
      first entry with the name. */
  method LookUp(content: string, filename: string, limit: nat) returns (r: Option<Result<string>>)
    ensures r == Get(content, filename, limit)
  {
    var entries, ended := Ls(content, limit);
    var found := FindNamed(entries, filename);
    match found
    case Some(k) =>
      r := Some(Ok(Sha1(entries[k])));
    case None =>
      r := if ended then Some(Err(ValueError("file is not in the tree"))) else None;
  }

  /** In a tree written from well-formed entries, `get` finds the first
      entry of that name, and reports a missing name as an error. */
  lemma GetEncoded(es: seq<Entry>, filename: string, limit: nat)
    requires forall k :: 0 <= k < |es| ==> WellFormed(es[k])
    requires |es| <= limit
    ensures forall k :: 0 <= k < |es| && es[k].name == filename && (forall j :: 0 <= j < k ==> es[j].name != filename) ==>
              Get(Encode(es), filename, limit) == Some(Ok(Sha1(es[k])))
    ensures (forall k :: 0 <= k < |es| ==> es[k].name != filename) ==>
              Get(Encode(es), filename, limit) == Some(Err(ValueError("file is not in the tree")))
  {
    LsEncoded(es, limit);
    forall k | 0 <= k < |es| && es[k].name == filename && (forall j :: 0 <= j < k ==> es[j].name != filename)
      ensures Get(Encode(es), filename, limit) == Some(Ok(Sha1(es[k])))
    {
      FirstNamedAt(es, filename, k);
    }
  }

  // ---------------------------------------------------------------------
  // The tree repr

  /** `'{0:>6}'.format(s)`: s right-aligned in a field of six. */
  function PadLeft(s: string, width: nat): (r: string)
    ensures |r| == if |s| < width then width else |s|
    ensures r[|r| - |s|..] == s && forall i :: 0 <= i < |r| - |s| ==> r[i] == ' '
  {
    if |s| < width then seq(width - |s|, _ => ' ') + s else s
  }

  /** One listing line of `BlobTree.__repr__`: the mode right-aligned to
      six, the sha1, then the name. */
  function TreeLine(e: Entry): string {
    "    " + PadLeft(e.mode, 6) + " " + Sha1(e) + " " + e.name
  }

  function TreeLines(es: seq<Entry>): (r: seq<string>)
    ensures |r| == |es| && forall k :: 0 <= k < |es| ==> r[k] == TreeLine(es[k])
  {
    seq(|es|, k requires 0 <= k < |es| => TreeLine(es[k]))
  }

  /** `BlobTree.__repr__` over the first limit entries of `ls`; None when
      the listing has not stopped within them. */
  function TreeRepr(content: string, limit: nat): Option<string> {
    var l := Listing(content, 0, limit);
    if l.1 then Some(Join(["BlobTree:"] + TreeLines(l.0), "\n")) else None
  }

  /** Joining two strings without line breaks gives none. */
  lemma NoBreaksConcat(a: string, b: string)
    requires NoBreaks(a) && NoBreaks(b)
    ensures NoBreaks(a + b)
  {
    forall i | 0 <= i < |a + b|
      ensures (a + b)[i] != '\n' && (a + b)[i] != '\r'
    {
      if i >= |a| {
        assert (a + b)[i] == b[i - |a|];
      }
    }
  }

  /** A tree line holds no line break when the mode and name hold none. */
  lemma TreeLineNoBreaks(e: Entry)
    requires NoBreaks(e.mode) && NoBreaks(e.name)
    ensures TreeLine(e) != [] && NoBreaks(TreeLine(e))
  {
    var pad := PadLeft(e.mode, 6);
    var sha1 := Sha1(e);
    HexIsHex(e.sha1Binary);
    assert NoBreaks(sha1) by {
      forall i | 0 <= i < |sha1|
        ensures sha1[i] != '\n' && sha1[i] != '\r'
      {
        assert IsHexDigit(sha1[i]);
      }
    }
    assert NoBreaks(pad) by {
      forall i | 0 <= i < |pad|
        ensures pad[i] != '\n' && pad[i] != '\r'
      {
        if i >= |pad| - |e.mode| {
          assert pad[i] == pad[|pad| - |e.mode|..][i - (|pad| - |e.mode|)];
        }
      }
    }
    NoBreaksConcat("    ", pad);
    NoBreaksConcat("    " + pad, " ");
    NoBreaksConcat("    " + pad + " ", sha1);
    NoBreaksConcat("    " + pad + " " + sha1, " ");
    NoBreaksConcat("    " + pad + " " + sha1 + " ", e.name);
  }

  /** When no mode or name holds a line break, the tree repr reads back as
      one line per entry after the class name. */
  lemma TreeReprReadsBack(content: string, limit: nat)
    requires TreeRepr(content, limit).Some?
    requires forall e :: e in Listing(content, 0, limit).0 ==> NoBreaks(e.mode) && NoBreaks(e.name)
    ensures SplitLines(TreeRepr(content, limit).value) == ["BlobTree:"] + TreeLines(Listing(content, 0, limit).0)
  {
    var es := Listing(content, 0, limit).0;
    var lines := ["BlobTree:"] + TreeLines(es);
    forall k | 0 <= k < |lines|
      ensures lines[k] != [] && NoBreaks(lines[k])
    {
      if k > 0 {
        assert es[k - 1] in es;
        TreeLineNoBreaks(es[k - 1]);
      }
    }
    SplitLinesJoin(lines);
  }
}
