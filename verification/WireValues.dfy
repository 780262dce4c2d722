/** What single values look like on the wire, and which contents the decoder takes for a field. */
module WireValues {
  import opened Basics
  import opened BigEndian
  import opened Varints
  import opened Messages
  import opened RoundTrip

  /** A signed number goes out in its 64-bit two's complement or, zigzagged, interleaved with the positive
      ones; a fixed-width number in its bytes, lowest first. */
  lemma NumberOnTheWire(t: LType, x: int)
    requires NumberFits(t, x)
    ensures -0x8000_0000_0000_0000 <= x < 0x1_0000_0000_0000_0000
    ensures EncodeNumber(t, x) ==
            Some(match t
                 case Varint(_) => Encode(if x < 0 then 0x1_0000_0000_0000_0000 + x else x)
                 case UVarint(_) => Encode(x)
                 case SVarint(_) => Encode(if x < 0 then -2 * x - 1 else 2 * x)
                 case Fixed32 => LittleEndian(x, 4)
                 case Fixed64 => LittleEndian(x, 8)
                 case _ => [])
  {
    hide Pow2, Encode, LittleEndian, ZigZag;
    Powers();
    Pow2Of64();
    if t.SVarint? {
      ZigZagInterleaves(x);
    }
  }

  /** Integers are stored in one, two, four or eight bytes; with any other size nothing is encoded or decoded. */
  lemma OtherSizesFail(t: LType, x: int, u: nat)
    requires (t.Varint? || t.UVarint? || t.SVarint?) && u < SPAN64
    ensures t.size !in {1, 2, 4, 8} <==> EncodeNumber(t, x).None?
    ensures t.size !in {1, 2, 4, 8} ==> Narrowed(t, u).None?
  {
  }

  /** Exactly these contents are taken for a field: byte strings of at most 255 bytes that leave room for
      the counter, strings that leave room for the terminator, and for an inline array all of it or nothing. */
  lemma ContentsTaken(t: LType, b: seq<byte>, rest: seq<byte>)
    requires |b| < 0x1_0000_0000 && (t.Bytes? || t.String? || t.FixedBytes?)
    ensures var r := DecodeBlob(t, Delimited(b) + rest);
            if t.Bytes? then r == if |b| <= 255 && |b| + 1 <= t.dataSize then Some((Blob(b), rest)) else None
            else if t.String? then r == if |b| + 1 <= t.dataSize then Some((Blob(b), rest)) else None
            else if b == [] then r == Some((Blob(seq(t.dataSize, _ => 0)), rest))
            else r == if |b| == t.dataSize <= 255 then Some((Blob(b), rest)) else None
  {
    hide Encode, Decode32, Delimited;
    SplitOfDelimited(b, rest);
    assert (b + rest)[..|b|] == b && (b + rest)[|b|..] == rest;
  }

  /** Only the part up to the first zero is sent, within the buffer. */
  lemma {:induction false} StringEnds(b: seq<byte>, max: nat)
    ensures var n := StringLength(b, max);
            && n <= |b| && n <= max
            && (forall k | 0 <= k < n :: b[k] != 0)
            && (n < |b| && n < max ==> b[n] == 0)
  {
    if b != [] && max > 0 && b[0] != 0 {
      StringEnds(b[1..], max - 1);
    }
  }

  /** Which contents are sent: a byte string that leaves room for its counter, of a string the part before
      the first zero within the buffer, and of an inline array all of it. */
  lemma ContentsSent(t: LType, b: seq<byte>, n: nat)
    requires t.String? ==> n <= |b| && n <= t.dataSize && (forall k | 0 <= k < n :: b[k] != 0)
                           && (n < |b| && n < t.dataSize ==> b[n] == 0)
    ensures EncodeBlob(t, b) ==
            match t
            case Bytes(dataSize) => if |b| < dataSize then Some(Delimited(b)) else None
            case String(dataSize) => Some(Delimited(b[..n]))
            case FixedBytes(dataSize) => if |b| == dataSize then Some(Delimited(b)) else None
            case _ => None
  {
    hide StringLength, Delimited;
    if t.String? {
      StringEnds(b, t.dataSize);
    }
  }
}
