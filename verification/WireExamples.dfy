/** The byte formats on known values, as the formats' own documents give them. */
module WireExamples {
  import opened GitObjects
  import opened Wire
  import opened WireObjects
  import opened PackStream

  /** gitprotocol-common's examples: "a\n" is 0006a\n, "a" is 0005a, "foobar\n" is 000bfoobar\n, "" is 0004. */
  lemma PktExamples()
    ensures PktLine([97, 10]) == [48, 48, 48, 54, 97, 10]
    ensures PktLine([97]) == [48, 48, 48, 53, 97]
    ensures PktLine([102, 111, 111, 98, 97, 114, 10]) == [48, 48, 48, 98, 102, 111, 111, 98, 97, 114, 10]
    ensures PktLine([]) == [48, 48, 48, 52] && FlushBytes == [48, 48, 48, 48]
  {
    PktShort([97, 10]);
    PktShort([97]);
    PktShort([102, 111, 111, 98, 97, 114, 10]);
    PktShort([]);
  }

  /** A short line's length is three zeros and one digit. */
  lemma PktShort(payload: Bytes)
    requires |payload| + 4 < 16
    ensures var n := |payload| + 4;
      PktLine(payload) == [48, 48, 48, if n < 10 then 48 + n else 87 + n] + payload
  {
  }

  /** Entry headers of gitformat-pack: type in bits 4 to 6, size in 4 bits, then 7 at a time, low end first. */
  lemma HeaderExamples()
    ensures HeaderBytes(1, 5) == [0x15] && HeaderBytes(3, 0) == [0x30] && HeaderBytes(2, 15) == [0x2f]
    ensures HeaderBytes(3, 300) == [0xbc, 0x12]
    ensures HeaderBytes(4, 0x1234) == [0xc4, 0xa3, 0x02]
  {
    assert SizeGroups(18) == [18];
    assert SizeGroups(0x123) == [0xa3] + SizeGroups(2) && SizeGroups(2) == [2];
  }

  /** A pack opens with the bytes of PACK, version 2, and the number of objects, four bytes each. */
  lemma PreambleExamples()
    ensures Preamble(3) == [80, 65, 67, 75, 0, 0, 0, 2, 0, 0, 0, 3]
    ensures Preamble(0x01020304) == [80, 65, 67, 75, 0, 0, 0, 2, 1, 2, 3, 4]
  {
    assert BigEndian(3) == [0, 0, 0, 3] && BigEndian(2) == [0, 0, 0, 2];
    assert BigEndian(0x01020304) == [1, 2, 3, 4];
  }

  /** Ids print as two lower-case digits a byte, the high one first. */
  lemma HexExamples()
    ensures EncodeHex([0xde, 0xad, 0x0f]) == "dead0f"
  {
    assert EncodeHex([0x0f]) == "0f";
    assert [0xad, 0x0f][1..] == [0x0f];
    assert EncodeHex([0xad, 0x0f]) == "ad0f";
    assert [0xde, 0xad, 0x0f][1..] == [0xad, 0x0f];
  }
}
