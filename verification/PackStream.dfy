/**
  The packfile of one fetch (gitformat-pack): magic, version and count, each object as its header
  and compressed body, and a digest of all that. A reader written from the format gets the listed
  objects back. Compression and digest are parameters.
 */
module PackStream {
  import opened Wrappers
  import opened GitObjects
  import opened Wire

  /** What a loose object file holds: its kind and its body. */
  datatype Loose = Loose(kind: string, body: Bytes)

  datatype PackError = Unreadable(sha: string) | Unsupported(kind: string)

  /** What a reader gets of one object. */
  datatype PackObject = PackObject(typeCode: nat, body: Bytes)

  function TypeCode(kind: string): (code: Option<nat>)
    ensures code.Some? ==> 1 <= code.value <= 4
  {
    if kind == "commit" then Some(1)
    else if kind == "tree" then Some(2)
    else if kind == "blob" then Some(3)
    else if kind == "tag" then Some(4)
    else None
  }

  predicate Packable(root: map<string, Loose>, sha: string) {
    sha in root && TypeCode(root[sha].kind).Some?
  }

  predicate AllPackable(root: map<string, Loose>, entries: seq<string>) {
    forall sha :: sha in entries ==> Packable(root, sha)
  }

  function ObjectOf(root: map<string, Loose>, sha: string): (o: PackObject)
    requires Packable(root, sha)
    ensures Typed(o)
  {
    PackObject(TypeCode(root[sha].kind).value, root[sha].body)
  }

  /** The listed objects, in order. */
  function ObjectsOf(root: map<string, Loose>, entries: seq<string>): (objects: seq<PackObject>)
    requires AllPackable(root, entries)
    ensures |objects| == |entries|
    ensures forall i :: 0 <= i < |entries| ==>
            Packable(root, entries[i]) && objects[i] == ObjectOf(root, entries[i])
  {
    if entries == [] then []
    else
      var last := entries[|entries| - 1];
      assert Packable(root, last);
      ObjectsOf(root, entries[..|entries| - 1]) + [ObjectOf(root, last)]
  }

  predicate Typed(o: PackObject) {
    1 <= o.typeCode <= 7
  }

  predicate AllTyped(objects: seq<PackObject>) {
    forall o :: o in objects ==> Typed(o)
  }

  // ---- what is written ----

  const Magic: Bytes := ['P' as int, 'A' as int, 'C' as int, 'K' as int]
  const CountLimit: nat := 0x1_0000_0000

  /** uint32(n), most significant byte first. */
  function BigEndian(n: nat): (four: Bytes)
    ensures |four| == 4
  {
    var (a, b, c) := (n / 256, n / 256 / 256, n / 256 / 256 / 256);
    [c % 256, b % 256, a % 256, n % 256]
  }

  function Preamble(count: nat): (bs: Bytes)
    ensures |bs| == 12
  {
    Magic + BigEndian(2) + BigEndian(count)
  }

  function EntryBytes(deflate: Bytes -> Bytes, o: PackObject): Bytes
    requires Typed(o)
  {
    HeaderBytes(o.typeCode, |o.body|) + deflate(o.body)
  }

  function EntriesBytes(deflate: Bytes -> Bytes, objects: seq<PackObject>): Bytes
    requires AllTyped(objects)
  {
    if objects == [] then []
    else
      assert Typed(objects[0]);
      EntryBytes(deflate, objects[0]) + EntriesBytes(deflate, objects[1..])
  }

  function PackBytes(deflate: Bytes -> Bytes, digest: Bytes -> Bytes, objects: seq<PackObject>): Bytes
    requires AllTyped(objects)
  {
    var content := Preamble(|objects|) + EntriesBytes(deflate, objects);
    content + digest(content)
  }

  lemma {:induction false} EntriesSnoc(deflate: Bytes -> Bytes, objects: seq<PackObject>, o: PackObject)
    requires AllTyped(objects) && Typed(o)
    ensures EntriesBytes(deflate, objects + [o]) == EntriesBytes(deflate, objects) + EntryBytes(deflate, o)
  {
    if objects == [] {
      assert [] + [o] == [o] && [o][1..] == [];
    } else {
      assert Typed(objects[0]);
      assert (objects + [o])[1..] == objects[1..] + [o];
      EntriesSnoc(deflate, objects[1..], o);
      Reassociate(EntryBytes(deflate, objects[0]), EntriesBytes(deflate, objects[1..]), EntryBytes(deflate, o));
    }
  }

  lemma ObjectsNext(root: map<string, Loose>, entries: seq<string>, i: nat)
    requires i < |entries| && AllPackable(root, entries[..i]) && Packable(root, entries[i])
    ensures AllPackable(root, entries[..i + 1])
    ensures ObjectsOf(root, entries[..i + 1]) == ObjectsOf(root, entries[..i]) + [ObjectOf(root, entries[i])]
  {
    assert entries[..i + 1] == entries[..i] + [entries[i]];
  }

  lemma ObjectsTyped(root: map<string, Loose>, entries: seq<string>)
    requires AllPackable(root, entries)
    ensures AllTyped(ObjectsOf(root, entries))
  {
    var objects := ObjectsOf(root, entries);
    forall o | o in objects
      ensures Typed(o)
    {
      var i :| 0 <= i < |objects| && objects[i] == o;
      assert Packable(root, entries[i]);
    }
  }

  /** One object as it stands in a pack. */
  method WriteEntry(o: PackObject, deflate: Bytes -> Bytes) returns (bs: Bytes)
    requires Typed(o)
    ensures bs == EntryBytes(deflate, o)
  {
    var header := PackObjectHeader(o.typeCode, |o.body|);
    bs := header + deflate(o.body);
  }

  /** Writes the pack of the listed objects; it fails on one that cannot be read or has no type code. */
  method WritePack(root: map<string, Loose>, entries: seq<string>, deflate: Bytes -> Bytes, digest: Bytes -> Bytes)
    returns (r: Result<Bytes, PackError>)
    ensures r.Ok? <==> AllPackable(root, entries)
    ensures r.Ok? ==> AllTyped(ObjectsOf(root, entries))
    ensures r.Ok? ==> r.value == PackBytes(deflate, digest, ObjectsOf(root, entries))
  {
    var preamble := Preamble(|entries|);
    var body: Bytes := [];
    for i := 0 to |entries|
      invariant AllPackable(root, entries[..i]) && AllTyped(ObjectsOf(root, entries[..i]))
      invariant body == EntriesBytes(deflate, ObjectsOf(root, entries[..i]))
    {
      var sha := entries[i];
      assert sha in entries;
      if sha !in root {
        assert !Packable(root, sha);
        return Err(Unreadable(sha));
      }
      var code := TypeCode(root[sha].kind);
      if code.None? {
        assert !Packable(root, sha);
        return Err(Unsupported(root[sha].kind));
      }
      var o := PackObject(code.value, root[sha].body);
      var bs := WriteEntry(o, deflate);
      ObjectsNext(root, entries, i);
      ObjectsTyped(root, entries[..i + 1]);
      EntriesSnoc(deflate, ObjectsOf(root, entries[..i]), o);
      body := body + bs;
    }
    assert entries[..|entries|] == entries;
    return Ok(preamble + body + digest(preamble + body));
  }

  // ---- what a reader gets ----

  /** Whatever follows a compressed body, the reader finds the body and where it ends. */
  ghost predicate SelfDelimiting(deflate: Bytes -> Bytes, inflate: Bytes -> Option<(Bytes, Bytes)>) {
    forall body, rest :: inflate(deflate(body) + rest) == Some((body, rest))
  }

  function ReadBigEndian(bs: Bytes): nat
    requires |bs| == 4
  {
    0x100_0000 * (bs[0] as int) + 0x1_0000 * (bs[1] as int) + 0x100 * (bs[2] as int) + bs[3] as int
  }

  /** One object: its header, then a body of the announced size. */
  function ReadEntry(inflate: Bytes -> Option<(Bytes, Bytes)>, bs: Bytes): Option<(PackObject, Bytes)> {
    match ReadHeader(bs)
    case None => None
    case Some(h) =>
      match inflate(h.rest)
      case None => None
      case Some((body, rest)) => if |body| == h.size then Some((PackObject(h.typeCode, body), rest)) else None
  }

  function ReadEntries(inflate: Bytes -> Option<(Bytes, Bytes)>, bs: Bytes, count: nat):
    Option<(seq<PackObject>, Bytes)>
    decreases count
  {
    if count == 0 then Some(([], bs))
    else
      match ReadEntry(inflate, bs)
      case None => None
      case Some((o, rest)) =>
        match ReadEntries(inflate, rest, count - 1)
        case None => None
        case Some((os, end)) => Some(([o] + os, end))
  }

  /** The objects of a pack whose version is 2 and whose trailer is the digest of what comes before it. */
  function ReadPack(inflate: Bytes -> Option<(Bytes, Bytes)>, digest: Bytes -> Bytes, bs: Bytes):
    Option<seq<PackObject>>
  {
    if |bs| < 12 || bs[..4] != Magic || ReadBigEndian(bs[4..8]) != 2 then None
    else ReadContent(inflate, digest, bs, ReadBigEndian(bs[8..12]))
  }

  function ReadContent(inflate: Bytes -> Option<(Bytes, Bytes)>, digest: Bytes -> Bytes, bs: Bytes, count: nat):
    Option<seq<PackObject>>
    requires |bs| >= 12
  {
    match ReadEntries(inflate, bs[12..], count)
    case None => None
    case Some((objects, end)) =>
      if |end| <= |bs| && end == digest(bs[..|bs| - |end|]) then Some(objects) else None
  }

  lemma BigEndianRoundTrip(n: nat)
    ensures ReadBigEndian(BigEndian(n)) == n % CountLimit
  {
    var a, b, c := n / 256, n / 256 / 256, n / 256 / 256 / 256;
    FourGroups(n, a, b, c, c / 256);
  }

  lemma FourGroups(n: nat, a: nat, b: nat, c: nat, d: nat)
    requires a == n / 256 && b == a / 256 && c == b / 256 && d == c / 256
    ensures 0x100_0000 * (c % 256) + 0x1_0000 * (b % 256) + 0x100 * (a % 256) + n % 256 == n % CountLimit
  {
    var low := 0x100_0000 * (c % 256) + 0x1_0000 * (b % 256) + 0x100 * (a % 256) + n % 256;
    assert n == CountLimit * d + low;
    Remainder(d, low);
  }

  lemma Remainder(q: nat, r: nat)
    requires r < CountLimit
    ensures (CountLimit * q + r) % CountLimit == r
  {
  }

  lemma EntryRoundTrip(deflate: Bytes -> Bytes, inflate: Bytes -> Option<(Bytes, Bytes)>, o: PackObject, rest: Bytes)
    requires SelfDelimiting(deflate, inflate) && Typed(o)
    ensures ReadEntry(inflate, EntryBytes(deflate, o) + rest) == Some((o, rest))
  {
    Reassociate(HeaderBytes(o.typeCode, |o.body|), deflate(o.body), rest);
    HeaderRoundTrip(o.typeCode, |o.body|, deflate(o.body) + rest);
    assert inflate(deflate(o.body) + rest) == Some((o.body, rest));
  }

  lemma {:induction false} EntriesRoundTrip(deflate: Bytes -> Bytes, inflate: Bytes -> Option<(Bytes, Bytes)>,
                                            objects: seq<PackObject>, rest: Bytes)
    requires SelfDelimiting(deflate, inflate) && AllTyped(objects)
    ensures ReadEntries(inflate, EntriesBytes(deflate, objects) + rest, |objects|) == Some((objects, rest))
  {
    if objects == [] {
      assert [] + rest == rest;
    } else {
      assert Typed(objects[0]);
      var others := EntriesBytes(deflate, objects[1..]);
      EntriesRoundTrip(deflate, inflate, objects[1..], rest);
      Reassociate(EntryBytes(deflate, objects[0]), others, rest);
      EntryRoundTrip(deflate, inflate, objects[0], others + rest);
      assert [objects[0]] + objects[1..] == objects;
    }
  }

  /** A reader never gets more or fewer objects than the count says. */
  lemma {:induction false} EntriesCounted(inflate: Bytes -> Option<(Bytes, Bytes)>, bs: Bytes, count: nat)
    ensures var r := ReadEntries(inflate, bs, count); r.Some? ==> |r.value.0| == count
    decreases count
  {
    if count > 0 {
      var first := ReadEntry(inflate, bs);
      if first.Some? {
        EntriesCounted(inflate, first.value.1, count - 1);
      }
    }
  }

  lemma PreambleParts(count: nat, rest: Bytes)
    ensures var bs := Preamble(count) + rest;
      bs[..4] == Magic && bs[4..8] == BigEndian(2) && bs[8..12] == BigEndian(count) && bs[12..] == rest
  {
  }

  lemma ReadPackOf(inflate: Bytes -> Option<(Bytes, Bytes)>, digest: Bytes -> Bytes, count: nat, rest: Bytes)
    ensures ReadPack(inflate, digest, Preamble(count) + rest)
         == ReadContent(inflate, digest, Preamble(count) + rest, count % CountLimit)
  {
    PreambleParts(count, rest);
    BigEndianRoundTrip(2);
    BigEndianRoundTrip(count);
  }

  lemma ContentRoundTrip(deflate: Bytes -> Bytes, inflate: Bytes -> Option<(Bytes, Bytes)>, digest: Bytes -> Bytes,
                         objects: seq<PackObject>, trailer: Bytes)
    requires SelfDelimiting(deflate, inflate) && AllTyped(objects)
    requires trailer == digest(Preamble(|objects|) + EntriesBytes(deflate, objects))
    ensures ReadContent(inflate, digest, Preamble(|objects|) + (EntriesBytes(deflate, objects) + trailer), |objects|)
         == Some(objects)
  {
    var body := EntriesBytes(deflate, objects);
    Reassociate(Preamble(|objects|), body, trailer);
    PreambleParts(|objects|, body + trailer);
    EntriesRoundTrip(deflate, inflate, objects, trailer);
    TrailerCut(Preamble(|objects|) + body, trailer);
  }

  lemma TrailerCut(content: Bytes, trailer: Bytes)
    ensures (content + trailer)[..|content + trailer| - |trailer|] == content
  {
  }

  lemma ContentCounted(inflate: Bytes -> Option<(Bytes, Bytes)>, digest: Bytes -> Bytes, bs: Bytes, count: nat,
                       objects: seq<PackObject>)
    requires |bs| >= 12 && ReadContent(inflate, digest, bs, count) == Some(objects)
    ensures |objects| == count
  {
    EntriesCounted(inflate, bs[12..], count);
  }

  /** A pack reads back as its objects exactly when their number fits the four bytes of the count. */
  lemma PackRoundTripIff(deflate: Bytes -> Bytes, inflate: Bytes -> Option<(Bytes, Bytes)>, digest: Bytes -> Bytes,
                         objects: seq<PackObject>)
    requires SelfDelimiting(deflate, inflate) && AllTyped(objects)
    ensures ReadPack(inflate, digest, PackBytes(deflate, digest, objects)) == Some(objects) <==> |objects| < CountLimit
  {
    var body := EntriesBytes(deflate, objects);
    var trailer := digest(Preamble(|objects|) + body);
    var bs := Preamble(|objects|) + (body + trailer);
    Reassociate(Preamble(|objects|), body, trailer);
    assert PackBytes(deflate, digest, objects) == bs;
    ReadPackOf(inflate, digest, |objects|, body + trailer);
    if |objects| < CountLimit {
      Remainder(0, |objects|);
      ContentRoundTrip(deflate, inflate, digest, objects, trailer);
    } else if ReadContent(inflate, digest, bs, |objects| % CountLimit) == Some(objects) {
      ContentCounted(inflate, digest, bs, |objects| % CountLimit, objects);
    }
  }

  /** The object a reader gets for a loose one: its body, under the type code of the format. */
  predicate Delivers(o: PackObject, loose: Loose) {
    && o.body == loose.body
    && match o.typeCode
       case 1 => loose.kind == "commit"
       case 2 => loose.kind == "tree"
       case 3 => loose.kind == "blob"
       case 4 => loose.kind == "tag"
       case _ => false
  }

  lemma ObjectDelivers(root: map<string, Loose>, sha: string)
    requires Packable(root, sha)
    ensures Delivers(ObjectOf(root, sha), root[sha])
  {
  }

  lemma PackableIff(root: map<string, Loose>, sha: string)
    ensures Packable(root, sha) <==> sha in root && root[sha].kind in {"commit", "tree", "blob", "tag"}
  {
  }

  /** The pack written for a list of fewer than 2^32 ids gives a reader the objects of those ids, in order. */
  method WrittenPackReads(root: map<string, Loose>, entries: seq<string>, deflate: Bytes -> Bytes,
                          ghost inflate: Bytes -> Option<(Bytes, Bytes)>, digest: Bytes -> Bytes)
    returns (r: Result<Bytes, PackError>)
    requires SelfDelimiting(deflate, inflate)
    ensures r.Ok? <==> forall sha :: sha in entries ==>
              sha in root && root[sha].kind in {"commit", "tree", "blob", "tag"}
    ensures r.Ok? && |entries| < CountLimit ==> Reads(ReadPack(inflate, digest, r.value), root, entries)
  {
    r := WritePack(root, entries, deflate, digest);
    forall sha
      ensures Packable(root, sha) <==> sha in root && root[sha].kind in {"commit", "tree", "blob", "tag"}
    {
      PackableIff(root, sha);
    }
    if r.Ok? {
      var objects := ObjectsOf(root, entries);
      PackRoundTripIff(deflate, inflate, digest, objects);
      forall i | 0 <= i < |entries|
        ensures Delivers(objects[i], root[entries[i]])
      {
        ObjectDelivers(root, entries[i]);
      }
    }
  }

  /** What was read is the listed objects, in order. */
  ghost predicate Reads(read: Option<seq<PackObject>>, root: map<string, Loose>, entries: seq<string>)
    requires forall sha :: sha in entries ==> sha in root
  {
    && read.Some? && |read.value| == |entries|
    && forall i :: 0 <= i < |entries| ==> Delivers(read.value[i], root[entries[i]])
  }
}
