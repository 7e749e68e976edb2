/**
  The byte formats of a smart fetch: packfile entry headers (gitformat-pack), pkt-lines and the
  side band (gitprotocol-common), each against a decoder written from the format.
 */
module Wire {
  import opened Wrappers
  import opened Hex
  import opened GitObjects

  // ---- packfile entry headers ----

  /** The seven-bit groups of n, least significant first; every group but the last has its high bit set. */
  function SizeGroups(n: nat): Bytes {
    if n == 0 then []
    else if n / 128 == 0 then [n % 128]
    else [n % 128 + 128] + SizeGroups(n / 128)
  }

  /** Three type bits and the four low size bits, then the rest of the size. */
  function HeaderBytes(typeCode: nat, size: nat): Bytes
    requires 1 <= typeCode <= 7
  {
    [size % 16 + 16 * typeCode + (if size / 16 != 0 then 128 else 0)] + SizeGroups(size / 16)
  }

  /** Writes an entry header; any reader of the format gets the type and size back. */
  method PackObjectHeader(typeCode: nat, size: nat) returns (out: Bytes)
    requires 1 <= typeCode <= 7
    ensures out == HeaderBytes(typeCode, size)
    ensures forall rest :: ReadHeader(out + rest) == Some(Header(typeCode, size, rest))
  {
    forall rest
      ensures ReadHeader(HeaderBytes(typeCode, size) + rest) == Some(Header(typeCode, size, rest))
    {
      HeaderRoundTrip(typeCode, size, rest);
    }
    var first := size % 16 + 16 * typeCode;
    var left: nat := size / 16;
    if left != 0 {
      first := first + 128;
    }
    out := [first];
    while left != 0
      invariant out + SizeGroups(left) == [first] + SizeGroups(size / 16)
      decreases left
    {
      var b := left % 128;
      left := left / 128;
      if left != 0 {
        b := b + 128;
      }
      out := out + [b];
    }
  }

  datatype Header = Header(typeCode: nat, size: nat, rest: Bytes)

  /** Reads seven-bit groups while the byte before asks for more. */
  function ReadGroups(bs: Bytes, more: bool): Option<(nat, Bytes)>
    decreases |bs|
  {
    if !more then Some((0, bs))
    else if bs == [] then None
    else
      match ReadGroups(bs[1..], bs[0] >= 128)
      case None => None
      case Some((high, rest)) => Some((bs[0] % 128 + 128 * high, rest))
  }

  function ReadHeader(bs: Bytes): Option<Header> {
    if bs == [] then None
    else
      match ReadGroups(bs[1..], bs[0] >= 128)
      case None => None
      case Some((high, rest)) => Some(Header(bs[0] / 16 % 8, bs[0] % 16 + 16 * high, rest))
  }

  lemma FirstGroup(n: nat) returns (b: Byte)
    requires n != 0
    ensures SizeGroups(n) == [b] + SizeGroups(n / 128) && b % 128 == n % 128 && (b >= 128 <==> n / 128 != 0)
  {
    b := n % 128 + if n / 128 == 0 then 0 else 128;
  }

  lemma {:induction false} ReadSizeGroups(n: nat, rest: Bytes)
    ensures ReadGroups(SizeGroups(n) + rest, n != 0) == Some((n, rest))
  {
    if n == 0 {
      assert SizeGroups(n) + rest == rest;
    } else {
      var high := n / 128;
      ReadSizeGroups(high, rest);
      var b := FirstGroup(n);
      ReadFirst(b, SizeGroups(high) + rest, high, rest);
      Reassociate([b], SizeGroups(high), rest);
    }
  }

  lemma ReadFirst(b: Byte, bs: Bytes, high: nat, rest: Bytes)
    requires ReadGroups(bs, b >= 128) == Some((high, rest))
    ensures ReadGroups([b] + bs, true) == Some((b % 128 + 128 * high, rest))
  {
    assert ([b] + bs)[1..] == bs;
  }

  lemma FirstByte(typeCode: nat, size: nat)
    requires 1 <= typeCode <= 7
    ensures var b := HeaderBytes(typeCode, size)[0];
      b / 16 % 8 == typeCode && b % 16 == size % 16 && (b >= 128 <==> size / 16 != 0)
  {
    TypeBits(typeCode, size % 16, size / 16 != 0);
  }

  lemma TypeBits(typeCode: nat, low: nat, more: bool)
    requires 1 <= typeCode <= 7 && low < 16
    ensures var b := low + 16 * typeCode + (if more then 128 else 0);
      b / 16 % 8 == typeCode && b % 16 == low && (b >= 128 <==> more)
  {
    var high := typeCode + if more then 8 else 0;
    assert low + 16 * typeCode + (if more then 128 else 0) == 16 * high + low;
    assert (16 * high + low) / 16 == high;
  }

  /** Decoding an entry header gives back the type and the size, whatever follows it. */
  lemma HeaderRoundTrip(typeCode: nat, size: nat, rest: Bytes)
    requires 1 <= typeCode <= 7
    ensures ReadHeader(HeaderBytes(typeCode, size) + rest) == Some(Header(typeCode, size, rest))
  {
    ReadSizeGroups(size / 16, rest);
    FirstByte(typeCode, size);
    var bs := HeaderBytes(typeCode, size) + rest;
    assert bs[0] == HeaderBytes(typeCode, size)[0] && bs[1..] == SizeGroups(size / 16) + rest;
  }

  // ---- pkt-lines ----

  /** The byte of a hex digit. */
  function DigitByte(d: nat): Byte
    requires d < 16
  {
    HexDigit(d) as int
  }

  function HexNat(n: nat): Bytes {
    if n < 16 then [DigitByte(n)] else HexNat(n / 16) + [DigitByte(n % 16)]
  }

  function FourBytes(a: nat, b: nat, c: nat, d: nat): (four: Bytes)
    requires a < 16 && b < 16 && c < 16 && d < 16
    ensures |four| == 4
  {
    [DigitByte(a), DigitByte(b), DigitByte(c), DigitByte(d)]
  }

  /** What %04x prints: four digits, or as many as it takes. */
  function Hex4(n: nat): Bytes {
    var (a, b) := (n / 16, n / 16 / 16);
    if n < 0x10000 then FourBytes(b / 16, b % 16, a % 16, n % 16)
    else HexNat(n)
  }

  function ByteValue(b: Byte): (v: Option<nat>)
    ensures v.Some? ==> v.value < 16
  {
    HexValue(b as char)
  }

  function ParseHex4(bs: Bytes): (n: Option<nat>)
    requires |bs| == 4
    ensures n.Some? ==> n.value < 0x10000
  {
    match (ByteValue(bs[0]), ByteValue(bs[1]), ByteValue(bs[2]), ByteValue(bs[3]))
    case (Some(a), Some(b), Some(c), Some(d)) => Some(4096 * a + 256 * b + 16 * c + d)
    case _ => None
  }

  lemma DigitByteValue(d: nat)
    requires d < 16
    ensures ByteValue(DigitByte(d)) == Some(d)
  {
    HexDigitValue(d);
    assert HexDigit(d) as int as char == HexDigit(d);
  }

  lemma ParseFourDigits(a: nat, b: nat, c: nat, d: nat)
    requires a < 16 && b < 16 && c < 16 && d < 16
    ensures ParseHex4(FourBytes(a, b, c, d)) == Some(4096 * a + 256 * b + 16 * c + d)
  {
    DigitByteValue(a);
    DigitByteValue(b);
    DigitByteValue(c);
    DigitByteValue(d);
  }

  lemma FourDigits(n: nat)
    requires n < 0x10000
    ensures var a, b := n / 16, n / 16 / 16;
      b / 16 < 16 && n == 4096 * (b / 16) + 256 * (b % 16) + 16 * (a % 16) + n % 16
  {
  }

  lemma ParseHexDigits(n: nat)
    requires n < 0x10000
    ensures |Hex4(n)| == 4 && ParseHex4(Hex4(n)) == Some(n)
  {
    var a, b := n / 16, n / 16 / 16;
    FourDigits(n);
    var four := FourBytes(b / 16, b % 16, a % 16, n % 16);
    ParseFourDigits(b / 16, b % 16, a % 16, n % 16);
    assert Hex4(n) == four;
  }

  function PktLine(payload: Bytes): Bytes {
    Hex4(|payload| + 4) + payload
  }

  /** The payload lines of a stream; lengths below four are skipped and a broken tail ends it. */
  function Lines(body: Bytes): seq<Bytes>
    decreases |body|
  {
    if |body| < 4 then []
    else
      match ParseHex4(body[..4])
      case None => []
      case Some(n) =>
        if n < 4 then Lines(body[4..])
        else if |body| < n then []
        else [body[4..n]] + Lines(body[n..])
  }

  method PktLines(body0: Bytes) returns (lines: seq<Bytes>)
    ensures lines == Lines(body0)
  {
    lines := [];
    var body := body0;
    while |body| >= 4
      invariant lines + Lines(body) == Lines(body0)
      decreases |body|
    {
      var n := ParseHex4(body[..4]);
      if n.None? {
        break;
      }
      if n.value < 4 {
        body := body[4..];
        continue;
      }
      if |body| < n.value {
        break;
      }
      lines := lines + [body[4..n.value]];
      body := body[n.value..];
    }
  }

  const MaxPayload: nat := 65531

  /** No line that comes out is longer than a four-digit length allows. */
  lemma {:induction false} LinesAreBounded(body: Bytes, line: Bytes)
    requires line in Lines(body)
    ensures |line| <= MaxPayload
    decreases |body|
  {
    var n := ParseHex4(body[..4]).value;
    if n < 4 {
      LinesAreBounded(body[4..], line);
    } else if line != body[4..n] {
      LinesAreBounded(body[n..], line);
    }
  }

  lemma LinesOfPkt(payload: Bytes, rest: Bytes)
    requires |payload| <= MaxPayload
    ensures Lines(PktLine(payload) + rest) == [payload] + Lines(rest)
  {
    var n := |payload| + 4;
    ParseHexDigits(n);
    CutLine(Hex4(n), payload, rest);
    LinesStep(PktLine(payload) + rest, n);
  }

  lemma LinesStep(body: Bytes, n: nat)
    requires |body| >= 4 && ParseHex4(body[..4]) == Some(n) && 4 <= n <= |body|
    ensures Lines(body) == [body[4..n]] + Lines(body[n..])
  {
  }

  lemma CutLine(head: Bytes, payload: Bytes, rest: Bytes)
    requires |head| == 4
    ensures var body, n := head + payload + rest, |payload| + 4;
      |body| >= n && body[..4] == head && body[4..n] == payload && body[n..] == rest
  {
  }

  datatype Packet = Data(payload: Bytes) | Flush

  const FlushBytes: Bytes := ['0' as int, '0' as int, '0' as int, '0' as int]

  function OnWire(p: Packet): Bytes {
    if p.Data? then PktLine(p.payload) else FlushBytes
  }

  function PayloadOf(p: Packet): seq<Bytes> {
    if p.Data? then [p.payload] else []
  }

  /** The bytes of packets sent one after another. */
  function Stream(packets: seq<Packet>): Bytes {
    if packets == [] then []
    else OnWire(packets[0]) + Stream(packets[1..])
  }

  function Payloads(packets: seq<Packet>): seq<Bytes> {
    if packets == [] then []
    else PayloadOf(packets[0]) + Payloads(packets[1..])
  }

  predicate Fits(p: Packet) {
    p.Data? ==> |p.payload| <= MaxPayload
  }

  lemma LinesOfFlush(rest: Bytes)
    ensures Lines(FlushBytes + rest) == Lines(rest)
  {
    assert (FlushBytes + rest)[..4] == FlushBytes;
    assert (FlushBytes + rest)[4..] == rest;
  }

  lemma FirstPacket(p: Packet, rest: Bytes)
    requires Fits(p)
    ensures Lines(OnWire(p) + rest) == PayloadOf(p) + Lines(rest)
  {
    match p
    case Data(payload) => LinesOfPkt(payload, rest);
    case Flush => LinesOfFlush(rest);
  }

  /** Reading a stream of packets gives their payloads, then what the bytes after it hold. */
  lemma {:induction false} LinesOfStream(packets: seq<Packet>, tail: Bytes)
    requires forall p :: p in packets ==> Fits(p)
    ensures Lines(Stream(packets) + tail) == Payloads(packets) + Lines(tail)
  {
    if packets == [] {
      assert [] + tail == tail;
    } else {
      assert Fits(packets[0]);
      var rest := Stream(packets[1..]);
      LinesOfStream(packets[1..], tail);
      Reassociate(OnWire(packets[0]), rest, tail);
      FirstPacket(packets[0], rest + tail);
      Reassociate(PayloadOf(packets[0]), Payloads(packets[1..]), Lines(tail));
    }
  }

  /** Reading a stream of packets gives their payloads; flush packets leave no line. */
  lemma PacketsRoundTrip(packets: seq<Packet>)
    requires forall p :: p in packets ==> Fits(p)
    ensures Lines(Stream(packets)) == Payloads(packets)
  {
    LinesOfStream(packets, []);
    assert Stream(packets) + [] == Stream(packets) && Payloads(packets) + Lines([]) == Payloads(packets);
  }

  /** One pkt-line reads back as its payload exactly when the length fits four hex digits. */
  lemma PktRoundTripIff(payload: Bytes)
    ensures Lines(PktLine(payload)) == [payload] <==> |payload| <= MaxPayload
  {
    if |payload| <= MaxPayload {
      LinesOfPkt(payload, []);
      assert PktLine(payload) + [] == PktLine(payload);
    } else if Lines(PktLine(payload)) == [payload] {
      LinesAreBounded(PktLine(payload), payload);
    }
  }

  // ---- the side band ----

  const MaxBandData: nat := 65515
  const MaxPacket: nat := 65520

  function BandData(line: Bytes): Bytes {
    if line != [] && line[0] == 1 then line[1..] else []
  }

  /** The data of band 1, with each line's band byte taken off. */
  function Unband(lines: seq<Bytes>): Bytes {
    if lines == [] then []
    else BandData(lines[0]) + Unband(lines[1..])
  }

  lemma {:induction false} UnbandConcat(a: seq<Bytes>, b: seq<Bytes>)
    ensures Unband(a + b) == Unband(a) + Unband(b)
  {
    if a == [] {
      assert a + b == b;
    } else {
      assert (a + b)[0] == a[0] && (a + b)[1..] == a[1..] + b;
      UnbandConcat(a[1..], b);
      assert BandData(a[0]) + (Unband(a[1..]) + Unband(b)) == (BandData(a[0]) + Unband(a[1..])) + Unband(b);
    }
  }

  lemma {:induction false} PayloadsConcat(a: seq<Packet>, b: seq<Packet>)
    ensures Payloads(a + b) == Payloads(a) + Payloads(b)
  {
    if a == [] {
      assert a + b == b;
    } else {
      assert (a + b)[0] == a[0] && (a + b)[1..] == a[1..] + b;
      PayloadsConcat(a[1..], b);
      assert PayloadOf(a[0]) + (Payloads(a[1..]) + Payloads(b)) == (PayloadOf(a[0]) + Payloads(a[1..])) + Payloads(b);
    }
  }

  lemma {:induction false} StreamConcat(a: seq<Packet>, b: seq<Packet>)
    ensures Stream(a + b) == Stream(a) + Stream(b)
  {
    if a == [] {
      assert a + b == b;
    } else {
      assert (a + b)[0] == a[0] && (a + b)[1..] == a[1..] + b;
      StreamConcat(a[1..], b);
      assert OnWire(a[0]) + (Stream(a[1..]) + Stream(b)) == (OnWire(a[0]) + Stream(a[1..])) + Stream(b);
    }
  }

  predicate IsBand(q: Packet) {
    q.Data? && 1 <= |q.payload| <= MaxBandData + 1 && q.payload[0] == 1
  }

  ghost predicate AreBands(packets: seq<Packet>) {
    forall q :: q in packets ==> IsBand(q)
  }

  /** One more packet adds exactly its data to what a client has received. */
  lemma PacketReceived(packets: seq<Packet>, packet: Bytes)
    requires AreBands(packets) && IsBand(Data(packet))
    ensures Stream(packets + [Data(packet)]) == Stream(packets) + PktLine(packet)
    ensures Unband(Lines(Stream(packets + [Data(packet)]))) == Unband(Lines(Stream(packets))) + packet[1..]
  {
    StreamConcat(packets, [Data(packet)]);
    OnePacket(packet);
    PacketsRoundTrip(packets);
    PacketsRoundTrip(packets + [Data(packet)]);
    PayloadsConcat(packets, [Data(packet)]);
    UnbandConcat(Payloads(packets), [packet]);
  }

  lemma OnePacket(packet: Bytes)
    requires IsBand(Data(packet))
    ensures Stream([Data(packet)]) == PktLine(packet) && Payloads([Data(packet)]) == [packet]
    ensures Unband([packet]) == packet[1..]
  {
    assert [Data(packet)][1..] == [] && [packet][1..] == [];
  }

  class SideBandWriter {
    var w: Bytes
    ghost var packets: seq<Packet>

    /** Everything written so far is whole band packets, each at most 65520 bytes on the wire. */
    ghost predicate Valid()
      reads this
    {
      && w == Stream(packets)
      && AreBands(packets) && forall q :: q in packets ==> |PktLine(q.payload)| <= MaxPacket
    }

    /** What a client that takes off the band bytes has received. */
    ghost function Received(): Bytes
      reads this
    {
      Unband(Lines(w))
    }

    constructor ()
      ensures Valid() && Received() == []
    {
      w, packets := [], [];
    }

    /** One packet of the data at hand. */
    method WritePacket(p: Bytes) returns (n: nat)
      requires Valid() && p != []
      modifies this
      ensures Valid() && n == ChunkSize(|p|) && Received() == old(Received()) + p[..n]
      ensures |packets| == |old(packets)| + 1
    {
      n := ChunkSize(|p|);
      var packet := [1] + p[..n];
      assert packet[1..] == p[..n];
      ParseHexDigits(|packet| + 4);
      PacketReceived(packets, packet);
      w, packets := w + PktLine(packet), packets + [Data(packet)];
    }

    /** One more packet of p, of which total bytes are written. */
    method WriteNext(p: Bytes, total: nat, ghost before: Bytes) returns (next: nat)
      requires Valid() && total < |p| && Received() == before + p[..total]
      modifies this
      ensures Valid() && next == total + ChunkSize(|p| - total) && Received() == before + p[..next]
    {
      ghost var now := Received();
      var n := WritePacket(p[total..]);
      AddedAfter(before, now, p, total, n, Received());
      next := total + n;
    }

    /** Packets of the data at hand, as many as the writer below accepts. */
    method WritePackets(p: Bytes, accepts: nat) returns (total: nat)
      requires Valid()
      modifies this
      ensures Valid() && total == Taken(|p|, accepts) && Received() == old(Received()) + p[..total]
    {
      total := 0;
      var written := 0;
      ghost var before := Received();
      while total < |p| && written < accepts
        invariant written <= accepts && total == Taken(|p|, written)
        invariant Valid() && Received() == before + p[..total]
        decreases |p| - total
      {
        TakenNext(|p|, written);
        total := WriteNext(p, total, before);
        written := written + 1;
      }
      TakenAll(|p|, written, accepts);
    }

    /** One packet of which only the first bytes get through, as many as part says. */
    method FailPacket(p: Bytes, part: nat)
      requires Valid() && p != []
      modifies this
      ensures Received() == old(Received()) + p[..Arrived(|p|, part)]
    {
      if Arrived(|p|, part) > 0 {
        var n := WritePacket(p);
      } else {
        var packet := [1] + p[..ChunkSize(|p|)];
        BrokenReceived(packets, packet, part);
        w := w + PktLine(packet)[..part];
        assert p[..0] == [];
      }
    }

    /**
      Writes p in packets of at most 65515 bytes of data. The writer below fails after it accepted
      `accepts` packets whole and `part` bytes of one more; the count returned is what the whole
      ones carried. The stream is abandoned then.
     */
    method Write(p: Bytes, accepts: nat, part: nat) returns (total: nat, ok: bool)
      requires Valid()
      modifies this
      ensures total == Taken(|p|, accepts) && (ok <==> total == |p|)
      ensures ok ==> Valid() && Received() == old(Received()) + p
      ensures !ok ==> Received() == old(Received()) + p[..total + Arrived(|p| - total, part)]
    {
      ghost var before := Received();
      total := WritePackets(p, accepts);
      ok := total == |p|;
      if ok {
        assert p[..total] == p;
      } else {
        ghost var now := Received();
        FailPacket(p[total..], part);
        AddedAfter(before, now, p, total, Arrived(|p| - total, part), Received());
      }
    }
  }

  /** How much of the data fits the packets the writer accepts. */
  function Taken(size: nat, accepts: nat): (n: nat)
    ensures n <= size && (n < size ==> n == accepts * MaxBandData)
  {
    if size < accepts * MaxBandData then size else accepts * MaxBandData
  }

  lemma TakenNext(size: nat, written: nat)
    requires Taken(size, written) < size
    ensures Taken(size, written + 1) == Taken(size, written) + ChunkSize(size - Taken(size, written))
  {
  }

  /** A packet takes 65515 bytes and makes a line of at most 65520. */
  lemma TakenSays(size: nat, accepts: nat)
    ensures Taken(size, accepts) == if size <= 65515 * accepts then size else 65515 * accepts
    ensures MaxPacket == 65520
  {
  }

  lemma TakenAll(size: nat, written: nat, accepts: nat)
    requires written == accepts || (written < accepts && Taken(size, written) == size)
    ensures Taken(size, accepts) == Taken(size, written)
  {
  }

  /** What reaches the client of a packet the writer reported as failed: nothing unless all of it got through. */
  function Arrived(size: nat, part: nat): (n: nat)
    ensures n <= ChunkSize(size)
  {
    if part >= ChunkSize(size) + 5 then ChunkSize(size) else 0
  }

  /** A line of which the end is missing is no line. */
  lemma BrokenLine(packet: Bytes, part: nat)
    requires |packet| <= MaxPayload && part < |packet| + 4
    ensures |PktLine(packet)| == |packet| + 4 && Lines(PktLine(packet)[..part]) == []
  {
    ParseHexDigits(|packet| + 4);
    if part >= 4 {
      assert PktLine(packet)[..part][..4] == Hex4(|packet| + 4);
    }
  }

  lemma BrokenReceived(packets: seq<Packet>, packet: Bytes, part: nat)
    requires AreBands(packets) && |packet| <= MaxPayload && part < |packet| + 4
    ensures |PktLine(packet)| == |packet| + 4
    ensures Unband(Lines(Stream(packets) + PktLine(packet)[..part])) == Unband(Lines(Stream(packets)))
  {
    BrokenLine(packet, part);
    LinesOfStream(packets, PktLine(packet)[..part]);
    PacketsRoundTrip(packets);
    assert Payloads(packets) + [] == Payloads(packets);
  }

  /** How much of the data at hand goes into one packet. */
  function ChunkSize(size: nat): (n: nat)
    ensures n <= size && n <= MaxBandData && (size > 0 ==> n > 0)
  {
    if size < MaxBandData then size else MaxBandData
  }

  lemma Extend(before: Bytes, p: Bytes, total: nat, n: nat)
    requires total + n <= |p|
    ensures (before + p[..total]) + p[total..][..n] == before + p[..total + n]
  {
    assert p[..total] + p[total..][..n] == p[..total + n];
    Reassociate(before, p[..total], p[total..][..n]);
  }

  lemma AddedAfter(before: Bytes, now: Bytes, p: Bytes, total: nat, n: nat, after: Bytes)
    requires total + n <= |p| && now == before + p[..total] && after == now + p[total..][..n]
    ensures after == before + p[..total + n]
  {
    Extend(before, p, total, n);
  }
}
