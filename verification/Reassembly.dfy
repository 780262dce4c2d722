/** An incoming DTLS handshake message and its reassembly bitmap (section 4.2.3 of RFC 6347). The
    bitmap, packed eight message bytes to the byte, refines the set of message bytes received. */
module Reassembly {
  import opened BigEndian
  import opened Bits
  import opened Fragments

  /** A partly assembled message: the bytes received so far, by position. */
  datatype Assembly = Assembly(typ: byte, seqNo: nat, msgLen: nat, got: map<nat, byte>)

  /** The positions from `start`, inclusive, to `end`, exclusive. */
  ghost function Interval(start: nat, end: nat): (positions: set<nat>)
    ensures forall i :: i in positions <==> start <= i < end
    decreases end
  {
    if end <= start then {} else Interval(start, end - 1) + {end - 1}
  }

  ghost predicate Complete(a: Assembly) {
    a.got.Keys == Interval(0, a.msgLen)
  }

  /** What `f` contributes: its body, at its offset. */
  ghost function Contribution(f: Fragment): map<nat, byte> {
    map i {:trigger i in Interval(f.hdr.fragOff, f.hdr.fragOff + |f.body|)} |
          i in Interval(f.hdr.fragOff, f.hdr.fragOff + |f.body|) :: f.body[i - f.hdr.fragOff]
  }

  /** The fragment lies inside the message its header announces. */
  predicate InBounds(h: Header) {
    h.fragOff + h.fragLen <= h.msgLen
  }

  /** The complete message as one unfragmented handshake message. */
  ghost function Raw(a: Assembly): seq<byte>
    requires Complete(a)
  {
    HeaderBytes(Header(a.typ, a.msgLen, a.seqNo, 0, a.msgLen)) + seq(a.msgLen, i requires 0 <= i < a.msgLen => a.got[i])
  }

  /** The assembly once fragment `f` of the same message has arrived; a complete message is left alone. */
  ghost function Absorb(a: Assembly, f: Fragment): Assembly {
    if Complete(a) then a else a.(got := a.got + Contribution(f))
  }

  /** `bit_range` of the program, truncated to a byte. */
  function BitRange(start: nat, end: nat): (b: bv8)
    requires start <= 8 && end <= 8
    ensures forall i | 0 <= i < 8 :: ByteBit(b, i) <==> start <= i < end
  {
    hide ByteBit, Range, LowByte;
    assert forall i | 0 <= i < 8 :: ByteBit(LowByte(Range(start, end)), i) <==> start <= i < end by {
      forall i | 0 <= i < 8
        ensures ByteBit(LowByte(Range(start, end)), i) <==> start <= i < end
      {
        RangeSets(start, end, i);
        LowByteKeepsBits(Range(start, end), i);
      }
    }
    LowByte(Range(start, end))
  }

  /** The bits of `bitmap` are exactly the positions in `covered`. */
  ghost predicate Packs(bitmap: seq<bv8>, covered: set<nat>) {
    forall k, b | 0 <= k < |bitmap| && 0 <= b < 8 :: ByteBit(bitmap[k], b) <==> 8 * k + b in covered
  }

  /** The message bytes of `data` at the positions in `covered`. */
  ghost function Got(data: seq<byte>, covered: set<nat>): (got: map<nat, byte>)
    requires forall i <- covered :: HM_HEADER_LENGTH + i < |data|
    ensures got.Keys == covered
  {
    map i | i in covered :: data[HM_HEADER_LENGTH + i]
  }

  lemma GotMore(before: seq<byte>, after: seq<byte>, covered: set<nat>, f: Fragment)
    requires |after| == |before| && forall i <- covered :: HM_HEADER_LENGTH + i < |before|
    requires HM_HEADER_LENGTH + f.hdr.fragOff + |f.body| <= |before|
    requires forall k | 0 <= k < |after| :: var i := k - HM_HEADER_LENGTH - f.hdr.fragOff;
               after[k] == if 0 <= i < |f.body| then f.body[i] else before[k]
    ensures Got(after, covered + Interval(f.hdr.fragOff, f.hdr.fragOff + |f.body|)) ==
            Got(before, covered) + Contribution(f)
  {
  }

  class HmFragment {
    const typ: byte
    const seqNo: nat
    const msgLen: nat
    const data: array<byte>
    var reassembly: array?<bv8>
    ghost var covered: set<nat>
    ghost var Repr: set<object>

    ghost predicate Valid()
      reads this, Repr
    {
      && this in Repr && data in Repr
      && data.Length == HM_HEADER_LENGTH + msgLen
      && data[..HM_HEADER_LENGTH] == HeaderBytes(Header(typ, msgLen, seqNo, 0, msgLen))
      && covered <= Interval(0, msgLen)
      && (reassembly == null <==> covered == Interval(0, msgLen))
      && (reassembly != null ==>
            && reassembly in Repr
            && reassembly.Length == (msgLen + 7) / 8
            && Packs(reassembly[..], covered))
    }

    ghost function View(): Assembly
      reads this, Repr
      requires Valid()
    {
      Assembly(typ, seqNo, msgLen, Got(data[..], covered))
    }

    constructor (hdr: Header)
      ensures Valid() && fresh(Repr)
      ensures View() == Assembly(hdr.typ, hdr.seqNo, hdr.msgLen, map[])
    {
      typ, seqNo, msgLen := hdr.typ, hdr.seqNo, hdr.msgLen;
      var header := HeaderBytes(Header(hdr.typ, hdr.msgLen, hdr.seqNo, 0, hdr.msgLen));
      var buffer := new byte[HM_HEADER_LENGTH + hdr.msgLen];
      forall i | 0 <= i < HM_HEADER_LENGTH {
        buffer[i] := header[i];
      }
      data := buffer;
      covered := {};
      Repr := {this, buffer};
      if hdr.msgLen > 0 {
        var bitmap := new bv8[(hdr.msgLen + 7) / 8](_ => 0);
        reassembly := bitmap;
        Repr := {this, buffer, bitmap};
        assert 0 in Interval(0, hdr.msgLen);
        ZeroPacks(bitmap[..]);
      } else {
        reassembly := null;
      }
    }

    /** Marks the bytes from `start`, inclusive, to `end`, exclusive, as received. */
    method Mark(start: nat, end: nat)
      requires Valid() && reassembly != null
      requires start <= end <= msgLen
      modifies this`reassembly, this`covered, reassembly
      ensures Valid() && Repr == old(Repr)
      ensures covered == old(covered) + Interval(start, end)
    {
      hide MarkedByte, BitRange, HeaderBytes;
      var bitmap := reassembly;
      ghost var before := bitmap[..];
      if start == end {
        assert Interval(start, end) == {};
        return;
      }
      MarkBytes(bitmap, start, end);
      MarkedPacks(before, bitmap[..], covered, start, end);
      covered := covered + Interval(start, end);

      var full := IsFull();
      if full {
        reassembly := null;
      }
    }

    /** Copies the fragment's body into place and marks it, unless the message is complete already. */
    method Add(f: Fragment)
      requires Valid() && InBounds(f.hdr) && f.hdr.msgLen == msgLen && |f.body| == f.hdr.fragLen
      modifies this`reassembly, this`covered, reassembly, data
      ensures Valid() && Repr == old(Repr)
      ensures View() == Absorb(old(View()), f)
    {
      hide Packs, HeaderBytes;
      if reassembly == null {
        return;
      }
      ghost var before, cover, bitmap := data[..], covered, reassembly[..];
      var off := HM_HEADER_LENGTH + f.hdr.fragOff;
      forall i | 0 <= i < |f.body| {
        data[off + i] := f.body[i];
      }
      ghost var after := data[..];
      assert after[..HM_HEADER_LENGTH] == before[..HM_HEADER_LENGTH] && reassembly[..] == bitmap;
      Mark(f.hdr.fragOff, f.hdr.fragOff + f.hdr.fragLen);
      GotMore(before, after, cover, f);
    }

    /** The message, header included, once it is complete. */
    method GetRaw() returns (raw: seq<byte>)
      requires Valid() && reassembly == null
      ensures Complete(View()) && raw == Raw(View())
    {
      raw := data[..];
    }

    /** Whether every position is marked in the bitmap. */
    method IsFull() returns (full: bool)
      requires reassembly != null && reassembly.Length == (msgLen + 7) / 8
      requires Packs(reassembly[..], covered) && covered <= Interval(0, msgLen)
      ensures full <==> covered == Interval(0, msgLen)
    {
      for i := 0 to msgLen / 8
        invariant forall k | 0 <= k < i :: reassembly[k] == FullByteAt(k, msgLen)
      {
        if reassembly[i] != 0xff {
          NotFull(reassembly[..], covered, msgLen, i);
          return false;
        }
      }
      if msgLen % 8 != 0 && reassembly[msgLen / 8] != BitRange(0, msgLen % 8) {
        NotFull(reassembly[..], covered, msgLen, msgLen / 8);
        return false;
      }
      AllFull(reassembly[..], covered, msgLen);
      full := true;
    }
  }

  // ----- the bitmap, byte by byte -----

  /** Byte `k` of the bitmap once the positions from `start` to `end` are marked. */
  function MarkedByte(before: bv8, k: nat, start: nat, end: nat): bv8
    requires start < end
  {
    if k == start / 8 then OrBytes(before, BitRange(start % 8, if k == end / 8 then end % 8 else 8))
    else if start / 8 < k < end / 8 then 0xff
    else if k == end / 8 && end % 8 != 0 then OrBytes(before, BitRange(0, end % 8))
    else before
  }

  /** Marks the positions from `start` to `end`: the rest of a first byte, whole bytes, the front of a last
      byte. */
  method MarkBytes(bitmap: array<bv8>, start: nat, end: nat)
    requires start < end <= 8 * bitmap.Length
    modifies bitmap
    ensures forall k | 0 <= k < bitmap.Length :: bitmap[k] == MarkedByte(old(bitmap[k]), k, start, end)
  {
    hide BitRange;
    if start / 8 == end / 8 {
      bitmap[start / 8] := bitmap[start / 8] | BitRange(start % 8, end % 8);
    } else {
      bitmap[start / 8] := bitmap[start / 8] | BitRange(start % 8, 8);
      for i := start / 8 + 1 to end / 8
        invariant forall k | 0 <= k < bitmap.Length && k != start / 8 ::
                    bitmap[k] == if start / 8 < k < i then 0xff else old(bitmap[k])
        invariant bitmap[start / 8] == old(bitmap[start / 8]) | BitRange(start % 8, 8)
      {
        bitmap[i] := 0xff;
      }
      if end % 8 != 0 {
        bitmap[end / 8] := bitmap[end / 8] | BitRange(0, end % 8);
      }
    }
  }

  lemma OrRange(before: bv8, from: nat, to: nat, b: nat)
    requires from <= 8 && to <= 8 && b < 8
    ensures ByteBit(OrBytes(before, BitRange(from, to)), b) <==> ByteBit(before, b) || from <= b < to
  {
    hide ByteBit;
    OrByte(before, BitRange(from, to), b);
  }

  /** Which positions of byte `k` lie between `start` and `end`. */
  lemma PositionsOfByte(k: nat, start: nat, end: nat, b: nat)
    requires start < end && b < 8
    ensures k == start / 8 ==> (start <= 8 * k + b < end <==> start % 8 <= b < if k == end / 8 then end % 8 else 8)
    ensures start / 8 < k < end / 8 ==> start <= 8 * k + b < end
    ensures start / 8 < k == end / 8 ==> (start <= 8 * k + b < end <==> b < end % 8)
    ensures k < start / 8 || end / 8 < k ==> !(start <= 8 * k + b < end)
  {
  }

  lemma MarkedByteBits(before: bv8, k: nat, start: nat, end: nat, b: nat)
    requires start < end && b < 8
    ensures ByteBit(MarkedByte(before, k, start, end), b) <==> ByteBit(before, b) || start <= 8 * k + b < end
  {
    hide ByteBit, BitRange, OrBytes;
    PositionsOfByte(k, start, end, b);
    if k == start / 8 {
      OrRange(before, start % 8, if k == end / 8 then end % 8 else 8, b);
    } else if start / 8 < k < end / 8 {
      FullByte(b);
    } else if k == end / 8 && end % 8 != 0 {
      OrRange(before, 0, end % 8, b);
    }
  }

  lemma MarkedPacks(before: seq<bv8>, after: seq<bv8>, covered: set<nat>, start: nat, end: nat)
    requires start < end && |after| == |before| && Packs(before, covered)
    requires forall k | 0 <= k < |after| :: after[k] == MarkedByte(before[k], k, start, end)
    ensures Packs(after, covered + Interval(start, end))
  {
    hide ByteBit, MarkedByte;
    forall k, b | 0 <= k < |after| && 0 <= b < 8
      ensures ByteBit(after[k], b) <==> 8 * k + b in covered + Interval(start, end)
    {
      MarkedByteBits(before[k], k, start, end, b);
    }
  }

  /** Byte `k` of the bitmap of a message received in full. */
  function FullByteAt(k: nat, msgLen: nat): bv8 {
    if k < msgLen / 8 then 0xff else BitRange(0, msgLen % 8)
  }

  lemma FullByteAtBits(k: nat, msgLen: nat, b: nat)
    requires k <= msgLen / 8 && b < 8
    ensures ByteBit(FullByteAt(k, msgLen), b) <==> 8 * k + b < msgLen
  {
    hide ByteBit;
    FullByte(b);
  }

  lemma NotFull(bitmap: seq<bv8>, covered: set<nat>, msgLen: nat, k: nat)
    requires Packs(bitmap, covered) && k < |bitmap| && k <= msgLen / 8
    requires bitmap[k] != FullByteAt(k, msgLen)
    ensures covered != Interval(0, msgLen)
  {
    hide ByteBit, FullByteAt;
    if covered == Interval(0, msgLen) {
      forall b | 0 <= b < 8 ensures ByteBit(bitmap[k], b) <==> ByteBit(FullByteAt(k, msgLen), b) {
        FullByteAtBits(k, msgLen, b);
        assert ByteBit(bitmap[k], b) <==> 8 * k + b in covered;
      }
      ByteExtensional(bitmap[k], FullByteAt(k, msgLen));
      assert false;
    }
  }

  lemma AllFull(bitmap: seq<bv8>, covered: set<nat>, msgLen: nat)
    requires Packs(bitmap, covered) && |bitmap| == (msgLen + 7) / 8
    requires forall k | 0 <= k < |bitmap| :: bitmap[k] == FullByteAt(k, msgLen)
    requires covered <= Interval(0, msgLen)
    ensures covered == Interval(0, msgLen)
  {
    hide ByteBit, FullByteAt;
    forall i | 0 <= i < msgLen ensures i in covered {
      FullByteAtBits(i / 8, msgLen, i % 8);
      assert ByteBit(bitmap[i / 8], i % 8) <==> 8 * (i / 8) + i % 8 in covered;
    }
  }

  lemma ZeroPacks(bitmap: seq<bv8>)
    requires forall k | 0 <= k < |bitmap| :: bitmap[k] == 0
    ensures Packs(bitmap, {})
  {
    forall k, b | 0 <= k < |bitmap| && 0 <= b < 8 ensures !ByteBit(bitmap[k], b) {
      FullByte(b);
    }
  }
}
