/** The bodies of tree and commit objects: what the tap writes, and what a fetch reads back. */
module WireObjects {
  import opened Wrappers
  import opened Hex
  import opened Strings
  import opened GitObjects
  import opened TapTree

  // ---- hex ids ----

  predicate IsHex(s: string) {
    |s| % 2 == 0 && forall i :: 0 <= i < |s| ==> LowerHex(s[i])
  }

  predicate ValidLooseSHA(s: string) {
    |s| == 40 && forall i :: 0 <= i < |s| ==> LowerHex(s[i])
  }

  function DigitValue(c: char): (d: nat)
    ensures d < 16
  {
    if HexValue(c).Some? then HexValue(c).value else 0
  }

  /** hex.DecodeString on an even number of lower-case digits. */
  function DecodeHex(s: string): (raw: Bytes)
    ensures |raw| == |s| / 2
  {
    if |s| < 2 then [] else [16 * DigitValue(s[0]) + DigitValue(s[1])] + DecodeHex(s[2..])
  }

  /** hex.EncodeToString */
  function EncodeHex(raw: Bytes): string {
    if raw == [] then "" else [HexDigit(raw[0] / 16), HexDigit(raw[0] % 16)] + EncodeHex(raw[1..])
  }

  lemma DigitRoundTrip(c: char)
    requires LowerHex(c)
    ensures HexDigit(DigitValue(c)) == c
  {
    LowerHexRoundTrip(c);
  }

  lemma PairRoundTrip(a: char, b: char, rest: Bytes)
    requires LowerHex(a) && LowerHex(b)
    ensures EncodeHex([16 * DigitValue(a) + DigitValue(b)] + rest) == [a, b] + EncodeHex(rest)
  {
    var raw := [16 * DigitValue(a) + DigitValue(b)] + rest;
    DigitRoundTrip(a);
    DigitRoundTrip(b);
    assert raw[1..] == rest && raw[0] / 16 == DigitValue(a) && raw[0] % 16 == DigitValue(b);
  }

  lemma DecodePair(a: char, b: char, tail: string)
    ensures DecodeHex([a, b] + tail) == [16 * DigitValue(a) + DigitValue(b)] + DecodeHex(tail)
  {
    assert ([a, b] + tail)[2..] == tail;
  }

  lemma HexPair(a: char, b: char, tail: string)
    requires LowerHex(a) && LowerHex(b) && EncodeHex(DecodeHex(tail)) == tail
    ensures EncodeHex(DecodeHex([a, b] + tail)) == [a, b] + tail
  {
    DecodePair(a, b, tail);
    PairRoundTrip(a, b, DecodeHex(tail));
  }

  lemma HexTail(s: string)
    requires IsHex(s) && s != ""
    ensures |s| >= 2 && LowerHex(s[0]) && LowerHex(s[1]) && IsHex(s[2..]) && s == [s[0], s[1]] + s[2..]
  {
  }

  /** Encoding undoes decoding on lower-case digits. */
  lemma {:induction false} HexRoundTrip(s: string)
    requires IsHex(s)
    ensures EncodeHex(DecodeHex(s)) == s
  {
    if s != "" {
      HexTail(s);
      HexRoundTrip(s[2..]);
      HexPair(s[0], s[1], s[2..]);
    }
  }

  // ---- tree bodies ----

  /** One entry of a tree: its mode and name as bytes, its id in hex. */
  datatype Line = Line(mode: Bytes, name: Bytes, sha: string)

  datatype EntryRef = EntryRef(sha: string, isTree: bool)

  const TreeMode: Bytes := ['4' as int, '0' as int, '0' as int, '0' as int, '0' as int]
  const Space: Byte := 32

  predicate Proper(e: Line) {
    ValidLooseSHA(e.sha) && 0 !in e.mode && Space !in e.mode && 0 !in e.name
  }

  function LineBytes(e: Line): Bytes
    requires ValidLooseSHA(e.sha)
  {
    e.mode + [Space] + e.name + [0] + DecodeHex(e.sha)
  }

  /** The body of a tree, given its entries in order. */
  function TreeBody(entries: seq<Line>): Bytes
    requires forall e :: e in entries ==> Proper(e)
  {
    if entries == [] then []
    else
      assert Proper(entries[0]);
      LineBytes(entries[0]) + TreeBody(entries[1..])
  }

  datatype TreeError = MalformedTree | MalformedEntry

  /** The first entry of a body: up to the zero byte, then twenty raw bytes. */
  function FirstEntry(body: Bytes): (r: Result<(EntryRef, Bytes), TreeError>)
    ensures r.Ok? ==> |r.value.1| < |body|
  {
    var nul := IndexOf(body, 0);
    if nul == |body| || |body| < nul + 21 then Err(MalformedTree)
    else
      var space := IndexOf(body[..nul], Space);
      if space == nul then Err(MalformedEntry)
      else Ok((EntryAt(body, nul, space), body[nul + 21..]))
  }

  function EntryAt(body: Bytes, nul: nat, space: nat): EntryRef
    requires space < nul && nul + 21 <= |body|
  {
    EntryRef(EncodeHex(body[nul + 1..nul + 21]), body[..space] == TreeMode)
  }

  /** Reads a tree body entry by entry. */
  function ParseEntries(body: Bytes): Result<seq<EntryRef>, TreeError>
    decreases |body|
  {
    if body == [] then Ok([])
    else
      match FirstEntry(body)
      case Err(e) => Err(e)
      case Ok(first) => After([first.0], ParseEntries(first.1))
  }

  /** What parsing the rest of a body adds to the entries already read. */
  function After(out: seq<EntryRef>, r: Result<seq<EntryRef>, TreeError>): Result<seq<EntryRef>, TreeError> {
    match r
    case Err(e) => Err(e)
    case Ok(more) => Ok(out + more)
  }

  lemma AfterNone(r: Result<seq<EntryRef>, TreeError>)
    ensures After([], r) == r
  {
    if r.Ok? {
      assert [] + r.value == r.value;
    }
  }

  lemma AfterOne(out: seq<EntryRef>, ref: EntryRef, r: Result<seq<EntryRef>, TreeError>)
    ensures After(out, After([ref], r)) == After(out + [ref], r)
  {
    if r.Ok? {
      assert out + ([ref] + r.value) == (out + [ref]) + r.value;
    }
  }

  method ParseTreeEntries(body: Bytes) returns (r: Result<seq<EntryRef>, TreeError>)
    ensures r == ParseEntries(body)
  {
    var out: seq<EntryRef> := [];
    var rest := body;
    AfterNone(ParseEntries(body));
    while |rest| > 0
      invariant ParseEntries(body) == After(out, ParseEntries(rest))
      decreases |rest|
    {
      var nul := IndexOf(rest, 0);
      if nul == |rest| || |rest| < nul + 21 {
        return Err(MalformedTree);
      }
      var space := IndexOf(rest[..nul], Space);
      if space == nul {
        return Err(MalformedEntry);
      }
      var ref := EntryRef(EncodeHex(rest[nul + 1..nul + 21]), rest[..space] == TreeMode);
      assert FirstEntry(rest) == Ok((ref, rest[nul + 21..]));
      AfterOne(out, ref, ParseEntries(rest[nul + 21..]));
      out := out + [ref];
      rest := rest[nul + 21..];
    }
    assert out + [] == out;
    return Ok(out);
  }

  function RefOf(e: Line): EntryRef {
    EntryRef(e.sha, e.mode == TreeMode)
  }

  function RefsOf(entries: seq<Line>): seq<EntryRef> {
    if entries == [] then [] else [RefOf(entries[0])] + RefsOf(entries[1..])
  }

  lemma ParseLine(e: Line, rest: Bytes)
    requires Proper(e)
    ensures var body := LineBytes(e) + rest;
      var nul := |e.mode| + 1 + |e.name|;
      && IndexOf(body, 0) == nul && nul + 21 <= |body| && body[nul + 21..] == rest
      && IndexOf(body[..nul], Space) == |e.mode| && body[..|e.mode|] == e.mode
      && body[nul + 1..nul + 21] == DecodeHex(e.sha)
  {
    var head := e.mode + [Space] + e.name;
    CutLine(head, DecodeHex(e.sha), rest);
    assert LineBytes(e) + rest == head + [0] + (DecodeHex(e.sha) + rest);
    IndexAt(head, 0, DecodeHex(e.sha) + rest);
    IndexAt(e.mode, Space, e.name);
  }

  lemma CutLine(head: Bytes, id: Bytes, rest: Bytes)
    ensures var body, n := head + [0] + (id + rest), |head|;
      body[..n] == head && body[n + 1..n + 1 + |id|] == id && body[n + 1 + |id|..] == rest
  {
  }

  lemma FirstAt(body: Bytes, nul: nat, space: nat)
    requires IndexOf(body, 0) == nul && nul + 21 <= |body| && IndexOf(body[..nul], Space) == space < nul
    ensures FirstEntry(body) == Ok((EntryAt(body, nul, space), body[nul + 21..]))
  {
  }

  lemma FirstIs(e: Line, rest: Bytes)
    requires Proper(e)
    ensures FirstEntry(LineBytes(e) + rest) == Ok((RefOf(e), rest))
  {
    ParseLine(e, rest);
    FirstAt(LineBytes(e) + rest, |e.mode| + 1 + |e.name|, |e.mode|);
    HexRoundTrip(e.sha);
  }

  lemma ParseOne(e: Line, rest: Bytes)
    requires Proper(e)
    ensures ParseEntries(LineBytes(e) + rest) == After([RefOf(e)], ParseEntries(rest))
  {
    FirstIs(e, rest);
  }

  /** Reading a written tree gives each entry's id and kind, in order. */
  lemma {:induction false} TreeRoundTrip(entries: seq<Line>)
    requires forall e :: e in entries ==> Proper(e)
    ensures ParseEntries(TreeBody(entries)) == Ok(RefsOf(entries))
  {
    if entries != [] {
      assert Proper(entries[0]);
      TreeRoundTrip(entries[1..]);
      ParseOne(entries[0], TreeBody(entries[1..]));
    }
  }

  // ---- the trees the tap stores ----

  const BlobMode: Bytes := ['1' as int, '0' as int, '0' as int, '6' as int, '4' as int, '4' as int]

  /** A name as git stores it: bytes, none of them zero. */
  predicate IsByteName(n: string) {
    forall i :: 0 <= i < |n| ==> 0 < n[i] as int < 256
  }

  function NameBytes(n: string): (bs: Bytes)
    requires IsByteName(n)
    ensures 0 !in bs
  {
    if n == "" then [] else [n[0] as int] + NameBytes(n[1..])
  }

  /** An entry's line, with hex giving each id its 40 digits. */
  function LineOf(hex: Sha -> string, e: TreeEntry): Line
    requires IsByteName(e.name)
  {
    Line(if e.isTree then TreeMode else BlobMode, NameBytes(e.name), hex(e.sha))
  }

  /** An entry as it is written: its mode, a space, its name, a zero byte, and the twenty bytes of its id. */
  lemma EntryBytes(hex: Sha -> string, e: TreeEntry)
    requires IsByteName(e.name) && ValidLooseSHA(hex(e.sha))
    ensures LineBytes(LineOf(hex, e)) ==
            (if e.isTree then [52, 48, 48, 48, 48, 32] else [49, 48, 48, 54, 52, 52, 32])
              + NameBytes(e.name) + [0] + DecodeHex(hex(e.sha))
  {
    assert TreeMode + [Space] == [52, 48, 48, 48, 48, 32] && BlobMode + [Space] == [49, 48, 48, 54, 52, 52, 32];
  }

  predicate Writable(hex: Sha -> string, entries: seq<TreeEntry>) {
    forall e :: e in entries ==> IsByteName(e.name) && ValidLooseSHA(hex(e.sha))
  }

  function LinesOf(hex: Sha -> string, entries: seq<TreeEntry>): (lines: seq<Line>)
    requires Writable(hex, entries)
    ensures forall l :: l in lines ==> Proper(l)
  {
    if entries == [] then []
    else
      assert entries[0] in entries;
      [LineOf(hex, entries[0])] + LinesOf(hex, entries[1..])
  }

  function EntryRefs(hex: Sha -> string, entries: seq<TreeEntry>): seq<EntryRef> {
    if entries == [] then [] else [EntryRef(hex(entries[0].sha), entries[0].isTree)] + EntryRefs(hex, entries[1..])
  }

  /** The body of a tree object: the entries in canonical order, one line each. */
  function GitTree(hex: Sha -> string, entries: seq<TreeEntry>): Bytes
    requires DistinctKeys(entries) && Writable(hex, entries)
  {
    TreeBody(LinesOf(hex, SortEntries(entries)))
  }

  lemma {:induction false} RefsOfLines(hex: Sha -> string, entries: seq<TreeEntry>)
    requires Writable(hex, entries)
    ensures RefsOf(LinesOf(hex, entries)) == EntryRefs(hex, entries)
  {
    if entries != [] {
      assert entries[0] in entries;
      assert TreeMode[0] != BlobMode[0];
      RefsOfLines(hex, entries[1..]);
    }
  }

  /** Reading back a written tree gives each entry's id and kind in canonical order, whatever order they came in. */
  lemma GitTreeRoundTrip(hex: Sha -> string, entries: seq<TreeEntry>)
    requires DistinctKeys(entries) && Writable(hex, entries)
    ensures ParseEntries(GitTree(hex, entries)) == Ok(EntryRefs(hex, SortEntries(entries)))
  {
    var sorted := SortEntries(entries);
    TreeRoundTrip(LinesOf(hex, sorted));
    RefsOfLines(hex, sorted);
  }

  lemma SortedIsDistinct(entries: seq<TreeEntry>)
    requires Sorted(entries)
    ensures DistinctKeys(entries) && SortEntries(entries) == entries
  {
    forall i, j | 0 <= i < j < |entries|
      ensures SortKey(entries[i]) != SortKey(entries[j])
    {
      LessIrreflexive(SortKey(entries[i]));
    }
    SortedUnique(SortEntries(entries), entries);
  }

  lemma EntryNameIsBytes(blobs: Files, e: TreeEntry)
    requires EntryFor(blobs, e) && forall p :: p in blobs ==> IsByteName(p)
    ensures IsByteName(e.name)
  {
    if e.isTree {
      var p :| p in blobs && InDir(p, e.name);
      DirNameIsBytes(p, e.name);
    }
  }

  lemma DirNameIsBytes(p: string, dir: string)
    requires IsByteName(p) && InDir(p, dir)
    ensures IsByteName(dir)
  {
    assert forall i :: 0 <= i < |dir| ==> dir[i] == p[i];
  }

  /** Reading back the tree the builder stores for a map of paths gives the tree's own entries. */
  lemma StoredTreeReadsBack(hex: Sha -> string, blobs: Files, t: Sha)
    requires TreeFor(blobs, t) && (forall p :: p in blobs ==> IsByteName(p)) && forall s :: ValidLooseSHA(hex(s))
    ensures DistinctKeys(t.content.entries) && Writable(hex, t.content.entries)
    ensures ParseEntries(GitTree(hex, t.content.entries)) == Ok(EntryRefs(hex, t.content.entries))
  {
    var entries := t.content.entries;
    forall e | e in entries
      ensures IsByteName(e.name)
    {
      EntryNameIsBytes(blobs, e);
    }
    SortedIsDistinct(entries);
    GitTreeRoundTrip(hex, entries);
  }

  // ---- commit headers ----

  function ParentLines(parent: Option<string>): seq<string> {
    if parent.Some? then ["parent " + parent.value] else []
  }

  /** Lines, each ended by a newline, then the rest. */
  function Text(lines: seq<string>, rest: string): string {
    if lines == [] then rest else lines[0] + ['\n'] + Text(lines[1..], rest)
  }

  function HeaderLines(tree: string, parent: Option<string>, author: string, committer: string): seq<string> {
    ["tree " + tree] + (ParentLines(parent) + ["author " + author, "committer " + committer, ""])
  }

  /** A commit: its headers, a blank line, and the message. */
  function CommitBody(tree: string, parent: Option<string>, author: string, committer: string,
                      message: string): string {
    Text(HeaderLines(tree, parent, author, committer), message)
  }

  lemma {:induction false} SplitText(lines: seq<string>, rest: string)
    requires forall l :: l in lines ==> '\n' !in l
    ensures SplitOn(Text(lines, rest), '\n') == lines + SplitOn(rest, '\n')
  {
    if lines == [] {
      assert lines + SplitOn(rest, '\n') == SplitOn(rest, '\n');
    } else {
      assert lines[0] in lines;
      SplitText(lines[1..], rest);
      SplitHead(lines[0], '\n', Text(lines[1..], rest));
      Reassociate([lines[0]], lines[1..], SplitOn(rest, '\n'));
      assert lines == [lines[0]] + lines[1..];
    }
  }

  /** The text of a commit with a parent and of one without. */
  lemma CommitText(tree: string, parent: string, author: string, committer: string, message: string)
    ensures CommitBody(tree, Some(parent), author, committer, message)
         == "tree " + tree + "\n" + ("parent " + parent + "\n"
              + ("author " + author + "\n" + ("committer " + committer + "\n" + ("\n" + message))))
    ensures CommitBody(tree, None, author, committer, message)
         == "tree " + tree + "\n" + ("author " + author + "\n" + ("committer " + committer + "\n" + ("\n" + message)))
  {
    var end: seq<string> := [""];
    var people := ["author " + author] + (["committer " + committer] + end);
    assert people == ["author " + author, "committer " + committer, ""];
    TextFirst("", [], message);
    assert [""] + [] == end && "" + "\n" + message == "\n" + message;
    TextFirst("committer " + committer, end, message);
    TextFirst("author " + author, ["committer " + committer] + end, message);
    assert [] + people == people;
    TextFirst("tree " + tree, people, message);
    TextFirst("parent " + parent, people, message);
    TextFirst("tree " + tree, ["parent " + parent] + people, message);
  }

  lemma TextFirst(line: string, lines: seq<string>, rest: string)
    ensures Text([line] + lines, rest) == line + "\n" + Text(lines, rest)
  {
    assert ([line] + lines)[1..] == lines;
  }

  predicate HasPrefix(s: string, prefix: string) {
    |prefix| <= |s| && s[..|prefix|] == prefix
  }

  datatype Headers = Headers(tree: string, parents: seq<string>)

  /** One header line: the last tree wins, parents add up, ill-formed ids are passed over. */
  function ReadLine(h: Headers, line: string): Headers {
    if HasPrefix(line, "tree ") && ValidLooseSHA(line[5..]) then h.(tree := line[5..])
    else if HasPrefix(line, "parent ") && ValidLooseSHA(line[7..]) then h.(parents := h.parents + [line[7..]])
    else h
  }

  /** Headers end at the blank line before the message. */
  function ReadHeaders(h: Headers, lines: seq<string>): Headers
    decreases |lines|
  {
    if lines == [] || lines[0] == "" then h else ReadHeaders(ReadLine(h, lines[0]), lines[1..])
  }

  /** None when no tree header names an id. */
  method ParseCommitHeaders(body: string) returns (r: Option<Headers>)
    ensures var h := ReadHeaders(Headers("", []), SplitOn(body, '\n'));
      r == if h.tree == "" then None else Some(h)
  {
    var lines := SplitOn(body, '\n');
    var h := Headers("", []);
    var i := 0;
    while i < |lines| && lines[i] != ""
      invariant i <= |lines|
      invariant ReadHeaders(h, lines[i..]) == ReadHeaders(Headers("", []), lines)
    {
      h := ReadLine(h, lines[i]);
      i := i + 1;
    }
    return if h.tree == "" then None else Some(h);
  }

  lemma OneLine(tree: string, parent: Option<string>, author: string, committer: string)
    requires ValidLooseSHA(tree) && (parent.Some? ==> ValidLooseSHA(parent.value))
    requires '\n' !in author && '\n' !in committer
    ensures forall l :: l in HeaderLines(tree, parent, author, committer) ==> '\n' !in l
  {
  }

  lemma TreeLine(h: Headers, sha: string)
    requires ValidLooseSHA(sha)
    ensures ReadLine(h, "tree " + sha) == h.(tree := sha)
  {
    assert ("tree " + sha)[5..] == sha && ("tree " + sha)[..5] == "tree ";
  }

  lemma ParentLine(h: Headers, sha: string)
    requires ValidLooseSHA(sha)
    ensures ReadLine(h, "parent " + sha) == h.(parents := h.parents + [sha])
  {
    var line := "parent " + sha;
    assert line[7..] == sha && line[..7] == "parent ";
    assert line[..5][0] == 'p';
  }

  /** A line that starts otherwise than a tree or parent header is passed over. */
  lemma OtherLine(h: Headers, line: string)
    requires line != "" && line[0] != 't' && line[0] != 'p'
    ensures ReadLine(h, line) == h
  {
    assert |line| >= 5 ==> line[..5][0] == line[0];
    assert |line| >= 7 ==> line[..7][0] == line[0];
  }

  lemma ReadFirst(h: Headers, line: string, rest: seq<string>)
    requires line != ""
    ensures ReadHeaders(h, [line] + rest) == ReadHeaders(ReadLine(h, line), rest)
  {
    assert ([line] + rest)[1..] == rest;
  }

  lemma ReadRest(h: Headers, author: string, committer: string, more: seq<string>)
    ensures ReadHeaders(h, ["author " + author, "committer " + committer, ""] + more) == h
  {
    var a, c := "author " + author, "committer " + committer;
    assert [a, c, ""] + more == [a] + ([c] + ([""] + more));
    OtherLine(h, a);
    OtherLine(h, c);
    ReadFirst(h, a, [c] + ([""] + more));
    ReadFirst(h, c, [""] + more);
  }

  lemma ReadParents(h: Headers, parent: Option<string>, rest: seq<string>)
    requires h.parents == [] && (parent.Some? ==> ValidLooseSHA(parent.value))
    ensures ReadHeaders(h, ParentLines(parent) + rest)
         == ReadHeaders(h.(parents := if parent.Some? then [parent.value] else []), rest)
  {
    if parent.Some? {
      ParentLine(h, parent.value);
      assert h.parents + [parent.value] == [parent.value];
      ReadFirst(h, "parent " + parent.value, rest);
    } else {
      assert ParentLines(parent) + rest == rest;
      assert h.(parents := []) == h;
    }
  }

  /** A written commit reads back as its tree and its parent, whatever its author, committer and message. */
  lemma CommitRoundTrip(tree: string, parent: Option<string>, author: string, committer: string, message: string)
    requires ValidLooseSHA(tree) && (parent.Some? ==> ValidLooseSHA(parent.value))
    requires '\n' !in author && '\n' !in committer
    ensures ReadHeaders(Headers("", []), SplitOn(CommitBody(tree, parent, author, committer, message), '\n'))
         == Headers(tree, if parent.Some? then [parent.value] else [])
  {
    var more := SplitOn(message, '\n');
    var tail := ["author " + author, "committer " + committer, ""];
    OneLine(tree, parent, author, committer);
    SplitText(HeaderLines(tree, parent, author, committer), message);
    Reassociate(["tree " + tree], ParentLines(parent) + tail, more);
    Reassociate(ParentLines(parent), tail, more);
    TreeLine(Headers("", []), tree);
    ReadFirst(Headers("", []), "tree " + tree, ParentLines(parent) + (tail + more));
    ReadParents(Headers(tree, []), parent, tail + more);
    ReadRest(Headers(tree, if parent.Some? then [parent.value] else []), author, committer, more);
  }
}
