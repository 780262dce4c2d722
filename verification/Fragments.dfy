/** DTLS handshake fragments and their wire format (section 4.2.2 of RFC 6347). */
module Fragments {
  import opened Basics
  import opened BigEndian

  const HM_HEADER_LENGTH := 12

  /** Message numbers have sixteen bits. */
  const SEQ_SPAN := 0x1_0000

  datatype Header = Header(typ: byte, msgLen: nat, seqNo: nat, fragOff: nat, fragLen: nat)

  datatype Fragment = Fragment(hdr: Header, body: seq<byte>)

  predicate FitsU24(v: nat) {
    v < 0x100_0000
  }

  /** The widths of the wire format, and a body as long as the header says. */
  predicate WellFormed(f: Fragment) {
    && FitsU24(f.hdr.msgLen) && f.hdr.seqNo < SEQ_SPAN && FitsU24(f.hdr.fragOff) && FitsU24(f.hdr.fragLen)
    && |f.body| == f.hdr.fragLen
  }

  function HeaderBytes(h: Header): (s: seq<byte>)
    ensures |s| == HM_HEADER_LENGTH
  {
    [h.typ] + Digits(h.msgLen, 3) + Digits(h.seqNo, 2) + Digits(h.fragOff, 3) + Digits(h.fragLen, 3)
  }

  function Bytes(f: Fragment): seq<byte> {
    HeaderBytes(f.hdr) + f.body
  }

  function ParseHeader(s: seq<byte>): Header
    requires |s| >= HM_HEADER_LENGTH
  {
    Header(s[0], Value(s[1..4]), Value(s[4..6]), Value(s[6..9]), Value(s[9..12]))
  }

  /** Reads one fragment off the front of `s`; the rest comes second. */
  function Parse(s: seq<byte>): Option<(Fragment, seq<byte>)> {
    if |s| < HM_HEADER_LENGTH then None
    else
      var h := ParseHeader(s);
      var end := HM_HEADER_LENGTH + h.fragLen;
      if |s| < end then None
      else Some((Fragment(h, s[HM_HEADER_LENGTH..end]), s[end..]))
  }

  /** What each byte of a header holds: the type, the message's length and number, and where the fragment
      starts and how long it is. */
  lemma HeaderLayout(h: Header)
    ensures var s := HeaderBytes(h);
            && |s| == 12 && s[0] == h.typ
            && s[1] == h.msgLen / 0x1_0000 % 256 && s[2] == h.msgLen / 0x100 % 256 && s[3] == h.msgLen % 256
            && s[4] == h.seqNo / 0x100 % 256 && s[5] == h.seqNo % 256
            && s[6] == h.fragOff / 0x1_0000 % 256 && s[7] == h.fragOff / 0x100 % 256 && s[8] == h.fragOff % 256
            && s[9] == h.fragLen / 0x1_0000 % 256 && s[10] == h.fragLen / 0x100 % 256 && s[11] == h.fragLen % 256
  {
    hide Digits;
    ThreeDigits(h.msgLen);
    TwoDigits(h.seqNo);
    ThreeDigits(h.fragOff);
    ThreeDigits(h.fragLen);
  }

  lemma HeaderRoundTrip(h: Header, rest: seq<byte>)
    requires FitsU24(h.msgLen) && h.seqNo < SEQ_SPAN && FitsU24(h.fragOff) && FitsU24(h.fragLen)
    ensures ParseHeader(HeaderBytes(h) + rest) == h
  {
    hide Value, Digits;
    assert Power256(3) == 0x100_0000 && Power256(2) == 0x1_0000;
    var s := HeaderBytes(h) + rest;
    ValueOfDigits(h.msgLen, 3);
    ValueOfDigits(h.seqNo, 2);
    ValueOfDigits(h.fragOff, 3);
    ValueOfDigits(h.fragLen, 3);
    assert s[1..4] == Digits(h.msgLen, 3);
    assert s[4..6] == Digits(h.seqNo, 2);
    assert s[6..9] == Digits(h.fragOff, 3);
    assert s[9..12] == Digits(h.fragLen, 3);
  }

  /** Parsing undoes serialization and leaves what followed. */
  lemma ParseOfBytes(f: Fragment, rest: seq<byte>)
    requires WellFormed(f)
    ensures Parse(Bytes(f) + rest) == Some((f, rest))
  {
    var s := Bytes(f) + rest;
    assert s == HeaderBytes(f.hdr) + (f.body + rest);
    HeaderRoundTrip(f.hdr, f.body + rest);
    var end := HM_HEADER_LENGTH + f.hdr.fragLen;
    assert s[HM_HEADER_LENGTH..end] == f.body;
    assert s[end..] == rest;
  }

  /** The header that is read has the widths of the wire format and is the one written. */
  lemma HeaderOfBytes(s: seq<byte>)
    requires |s| >= HM_HEADER_LENGTH
    ensures var h := ParseHeader(s);
            && FitsU24(h.msgLen) && h.seqNo < SEQ_SPAN && FitsU24(h.fragOff) && FitsU24(h.fragLen)
            && HeaderBytes(h) == s[..HM_HEADER_LENGTH]
  {
    hide Value, Digits;
    assert Power256(3) == 0x100_0000 && Power256(2) == 0x1_0000;
    var a, b, c, d := s[1..4], s[4..6], s[6..9], s[9..12];
    ValueBound(a);
    ValueBound(b);
    ValueBound(c);
    ValueBound(d);
    DigitsOfValue(a);
    DigitsOfValue(b);
    DigitsOfValue(c);
    DigitsOfValue(d);
    assert s[..HM_HEADER_LENGTH] == [s[0]] + a + b + c + d;
  }

  /** Whatever parses is a well-formed fragment's own serialization. */
  lemma BytesOfParse(s: seq<byte>)
    requires Parse(s).Some?
    ensures var (f, rest) := Parse(s).value; WellFormed(f) && s == Bytes(f) + rest
  {
    hide ParseHeader, HeaderBytes;
    HeaderOfBytes(s);
    var end := HM_HEADER_LENGTH + ParseHeader(s).fragLen;
    assert s == s[..HM_HEADER_LENGTH] + s[HM_HEADER_LENGTH..end] + s[end..];
  }
}
