/** Memory streams and the primitive encoders and decoders that work on them. */
module Streams {
  import opened Basics
  import opened BigEndian
  import opened Varints
  import opened Messages

  datatype EncodeError = StreamFull | InvalidDataSize | ArrayTooLong | BytesTooLong | SizeChanged

  datatype Status = Done | Failed(error: EncodeError)

  // ----- output -----

  /** An output stream into a buffer, or one that only counts if there is none. */
  class OutputStream {
    const target: array?<byte>
    var state: nat
    var maxSize: nat
    var bytesWritten: nat

    ghost predicate Valid()
      reads this
    {
      target != null ==> bytesWritten <= maxSize && state + (maxSize - bytesWritten) <= target.Length
    }

    /** Everything in the buffer up to where the stream stands. */
    ghost function Output(): seq<byte>
      reads this, target
      requires Valid()
    {
      if target == null then [] else target[..state]
    }

    /** Another `n` bytes are within the limit. */
    ghost predicate Room(n: nat)
      reads this
    {
      target == null || bytesWritten + n <= maxSize
    }

    /** Exactly `data` was added to `output`, after `written` bytes. */
    ghost predicate Added(output: seq<byte>, written: nat, data: seq<byte>)
      requires Valid()
      reads this, target
    {
      bytesWritten == written + |data| && (target != null ==> Output() == output + data)
    }

    constructor Sizing()
      ensures Valid() && target == null && bytesWritten == 0
    {
      target := null;
      state, maxSize, bytesWritten := 0, 0, 0;
    }

    constructor FromBuffer(buffer: array<byte>, start: nat, maxSize: nat)
      requires start + maxSize <= buffer.Length
      ensures Valid() && target == buffer && state == start && this.maxSize == maxSize && bytesWritten == 0
    {
      target := buffer;
      state, this.maxSize, bytesWritten := start, maxSize, 0;
    }

    method Write(data: seq<byte>) returns (status: Status)
      requires Valid()
      modifies this, target
      ensures Valid() && maxSize == old(maxSize)
      ensures status == if old(Room(|data|)) then Done else Failed(StreamFull)
      ensures status.Done? ==> Added(old(Output()), old(bytesWritten), data)
    {
      if target != null {
        if bytesWritten + |data| > maxSize {
          return Failed(StreamFull);
        }
        forall i | 0 <= i < |data| {
          target[state + i] := data[i];
        }
        state := state + |data|;
      }
      bytesWritten := bytesWritten + |data|;
      status := Done;
    }

    /** Counts bytes on a sizing stream, without looking at them. */
    method Count(n: nat, ghost data: seq<byte>)
      requires Valid() && target == null && |data| == n
      modifies this
      ensures Valid() && maxSize == old(maxSize) && Added(old(Output()), old(bytesWritten), data)
    {
      bytesWritten := bytesWritten + n;
    }
  }

  /** The seven-bit groups of `v`, all flagged as continued. */
  function Flagged(v: nat): seq<byte> {
    if v == 0 then [] else [128 + v % 128] + Flagged(v / 128)
  }

  /** Taking the flag off the last group gives the encoding. */
  lemma {:induction false} UnflagLast(v: nat)
    requires v > 0
    ensures Flagged(v) != [] && Flagged(v)[|Flagged(v)| - 1] >= 128
    ensures var s := Flagged(v); Encode(v) == s[..|s| - 1] + [s[|s| - 1] - 128]
  {
    if v >= 128 {
      UnflagLast(v / 128);
      var s, t := Flagged(v), Flagged(v / 128);
      assert s[..|s| - 1] == [s[0]] + t[..|t| - 1];
    }
  }

  /** The groups of `value`, least significant first, into a buffer of ten bytes. */
  method FillGroups(value: nat) returns (data: seq<byte>)
    requires 0 < value < SPAN64
    ensures data == Encode(value)
  {
    hide Encode;
    var buffer := new byte[10];
    var i, left := 0, value;
    EncodeLength(value);
    UnflagLast(value);
    ghost var flagged := Flagged(value);
    while left > 0
      invariant i <= |flagged| <= 10
      invariant buffer[..i] == flagged[..i] && flagged[i..] == Flagged(left)
    {
      assert flagged[i] == flagged[i..][0];
      buffer[i] := left % 128 + 128;
      assert flagged[i..][1..] == flagged[i + 1..];
      left := left / 128;
      i := i + 1;
    }
    assert buffer[..i] == flagged;
    buffer[i - 1] := buffer[i - 1] % 128;
    data := buffer[..i];
  }

  method EncodeVarint(stream: OutputStream, value: nat) returns (status: Status)
    requires stream.Valid() && value < SPAN64
    modifies stream, stream.target
    ensures stream.Valid() && stream.maxSize == old(stream.maxSize)
    ensures status == if old(stream.Room(|Encode(value)|)) then Done else Failed(StreamFull)
    ensures status.Done? ==> stream.Added(old(stream.Output()), old(stream.bytesWritten), Encode(value))
  {
    if value <= 0x7f {
      assert Encode(value) == [value];
      status := stream.Write([value]);
      return;
    }
    var data := FillGroups(value);
    status := stream.Write(data);
  }

  // ----- input -----

  /** An input stream over a buffer, with a limit on how much of it may still be read. */
  class InputStream {
    const source: seq<byte>
    var state: nat
    var bytesLeft: nat

    ghost predicate Valid()
      reads this
    {
      state + bytesLeft <= |source|
    }

    /** Where the limit is in the buffer. */
    ghost function End(): nat
      reads this
    {
      state + bytesLeft
    }

    ghost function Rest(): (rest: seq<byte>)
      reads this
      requires Valid()
      ensures |rest| == bytesLeft
    {
      source[state..state + bytesLeft]
    }

    constructor (source: seq<byte>, state: nat, bytesLeft: nat)
      requires state + bytesLeft <= |source|
      ensures Valid() && this.source == source && this.state == state && this.bytesLeft == bytesLeft
    {
      this.source, this.state, this.bytesLeft := source, state, bytesLeft;
    }

    /** Reads `count` bytes, or none. */
    method Read(count: nat) returns (ok: bool, data: seq<byte>)
      requires Valid()
      modifies this
      ensures Valid() && End() == old(End())
      ensures ok <==> count <= old(bytesLeft)
      ensures ok ==> data == old(Rest())[..count] && Rest() == old(Rest())[count..] && state == old(state) + count
      ensures !ok ==> Rest() == old(Rest())
    {
      if bytesLeft < count {
        return false, [];
      }
      data := source[state..state + count];
      state := state + count;
      bytesLeft := bytesLeft - count;
      ok := true;
    }

    method ReadByte() returns (ok: bool, b: byte)
      requires Valid()
      modifies this
      ensures Valid() && End() == old(End())
      ensures ok <==> old(Rest()) != []
      ensures ok ==> b == old(Rest())[0] && Rest() == old(Rest())[1..]
      ensures !ok ==> Rest() == old(Rest())
    {
      if bytesLeft == 0 {
        return false, 0;
      }
      b := source[state];
      state := state + 1;
      bytesLeft := bytesLeft - 1;
      ok := true;
    }

    // ----- varints -----

    /** The 64-bit decoder. */
    method DecodeVarint() returns (ok: bool, value: nat)
      requires Valid()
      modifies this
      ensures Valid() && End() == old(End())
      ensures ok <==> Decode64(old(Rest())).Some?
      ensures ok ==> Decode64(old(Rest())) == Some((value, Rest()))
    {
      hide Groups, Or, Pow2, Extent, Valid, Rest, End;
      ghost var s := Rest();
      NoGroups(s);
      var bitpos: nat, more := 0, true;
      value := 0;
      while more
        invariant Valid() && End() == old(End()) && bitpos % 7 == 0 && bitpos <= 70
        invariant var k := bitpos / 7;
                  && k <= |s| && Rest() == s[k..]
                  && value == Groups(s[..k]) % SPAN64
                  && (forall i | 0 <= i < k - 1 :: s[i] >= 128)
                  && (k > 0 ==> (more <==> s[k - 1] >= 128))
                  && (k == 0 ==> more)
        decreases 70 - bitpos, more
      {
        if bitpos >= 64 {
          TooLong(s);
          return false, value;
        }
        var got, b := ReadByte();
        if !got {
          NoEnd(s);
          return false, value;
        }
        Placed64(s, bitpos / 7);
        value := Or(value, (b % 128) * Pow2(bitpos) % SPAN64);
        bitpos := bitpos + 7;
        more := b >= 128;
      }
      EndsAt(s, bitpos / 7);
      ok := true;
    }

    /** The 32-bit decoder; `eof` tells that there was nothing to read. */
    method DecodeVarint32() returns (ok: bool, value: nat, eof: bool)
      requires Valid()
      modifies this
      ensures Valid() && End() == old(End())
      ensures ok <==> Decode32(old(Rest())).Some?
      ensures ok ==> Decode32(old(Rest())) == Some((value, Rest()))
      ensures eof <==> old(Rest()) == []
    {
      hide Placed, Overflows, Or, Valid, Rest, End;
      ghost var s := Rest();
      var got, b := ReadByte();
      if !got {
        return false, 0, true;
      }
      if b < 128 {
        return true, b, false;
      }
      var bitpos: nat, more := 7, true;
      value := b % 128;
      while more
        invariant Valid() && End() == old(End())
        invariant more ==> Decode32(s) == Decode32From(Rest(), bitpos, value)
        invariant !more ==> Decode32(s) == if bitpos == 35 && b % 128 >= 16 then None else Some((value, Rest()))
        decreases |Rest()|, more
      {
        got, b := ReadByte();
        if !got {
          return false, value, false;
        }
        if bitpos >= 32 {
          if Overflows(b, bitpos, value) {
            return false, value, false;
          }
        } else {
          value := Or(value, Placed(b, bitpos));
        }
        bitpos := (bitpos + 7) % 256;
        more := b >= 128;
      }
      if bitpos == 35 && b % 128 >= 16 {
        return false, value, false;
      }
      return true, value, false;
    }

    // ----- skipping -----

    method SkipVarint() returns (ok: bool)
      requires Valid()
      modifies this
      ensures Valid() && End() == old(End())
      ensures Skip(WT_VARINT, old(Rest())) == if ok then Some(Rest()) else None
    {
      hide Extent, Valid, Rest, End;
      ghost var s := Rest();
      ghost var k := 0;
      var more := true;
      while more
        invariant Valid() && End() == old(End()) && k <= |s| && Rest() == s[k..]
        invariant forall i | 0 <= i < k - 1 :: s[i] >= 128
        invariant if k == 0 then more else more <==> s[k - 1] >= 128
        decreases |s| - k, more
      {
        var got, data := Read(1);
        if !got {
          NoEnd(s);
          return false;
        }
        k := k + 1;
        more := data[0] >= 128;
      }
      EndsAt(s, k);
      ok := true;
    }

    method SkipString() returns (ok: bool)
      requires Valid()
      modifies this
      ensures Valid() && End() == old(End())
      ensures Skip(WT_STRING, old(Rest())) == if ok then Some(Rest()) else None
    {
      hide Decode32, Valid, Rest, End;
      var got, length, eof := DecodeVarint32();
      if !got {
        return false;
      }
      var data;
      ok, data := Read(length);
    }

    method SkipField(wire: nat) returns (ok: bool)
      requires Valid()
      modifies this
      ensures Valid() && End() == old(End())
      ensures Skip(wire, old(Rest())) == if ok then Some(Rest()) else None
    {
      hide Extent, Split, Valid, Rest, End;
      var data;
      if wire == WT_VARINT {
        ok := SkipVarint();
      } else if wire == WT_64BIT {
        ok, data := Read(8);
      } else if wire == WT_STRING {
        ok := SkipString();
      } else if wire == WT_32BIT {
        ok, data := Read(4);
      } else {
        ok := false;
      }
    }

    // ----- substreams -----

    /** Reads a length and hands out that much of the stream as a stream of its own. */
    method MakeSubstream() returns (ok: bool, sub: InputStream)
      requires Valid()
      modifies this
      ensures Valid() && sub.Valid() && fresh(sub)
      ensures ok <==> Split(old(Rest())).Some?
      ensures ok ==>
                && sub.source == source && sub.Rest() == Split(old(Rest())).value.0
                && sub.End() + bytesLeft == old(End()) <= |source|
                && source[sub.End()..sub.End() + bytesLeft] == Split(old(Rest())).value.1
      ensures End() <= old(End())
    {
      hide Decode32;
      var size, eof;
      ok, size, eof := DecodeVarint32();
      if !ok || bytesLeft < size {
        sub := new InputStream(source, state, 0);
        return false, sub;
      }
      assert source[state..state + bytesLeft][..size] == source[state..state + size];
      assert source[state..state + bytesLeft][size..] == source[state + size..state + bytesLeft];
      sub := new InputStream(source, state, size);
      bytesLeft := bytesLeft - size;
    }

    /** Goes on after the substream, skipping what is left of it. */
    method CloseSubstream(sub: InputStream)
      requires Valid() && sub.Valid() && sub != this && sub.source == source
      requires sub.End() + bytesLeft <= |source|
      modifies this, sub
      ensures Valid() && Rest() == old(source[sub.End()..sub.End() + bytesLeft]) && End() == old(sub.End() + bytesLeft)
    {
      if sub.bytesLeft > 0 {
        var _, _ := sub.Read(sub.bytesLeft);
      }
      state := sub.state;
    }
  }

  // ----- where a varint ends -----

  lemma NoGroups(s: seq<byte>)
    ensures s[..0] == [] && Groups(s[..0]) == 0 && s[0..] == s
  {
  }

  lemma TooLong(s: seq<byte>)
    requires |s| >= 10 && forall i | 0 <= i < 10 :: s[i] >= 128
    ensures Decode64(s) == None
  {
    hide Groups;
  }

  lemma NoEnd(s: seq<byte>)
    requires forall i | 0 <= i < |s| :: s[i] >= 128
    ensures Extent(s) == None
  {
  }

  lemma EndsAt(s: seq<byte>, n: nat)
    requires 0 < n <= |s| && s[n - 1] < 128 && forall i | 0 <= i < n - 1 :: s[i] >= 128
    ensures Extent(s) == Some(n)
  {
    if Extent(s).Some? {
      assert Extent(s).value >= n;
    }
  }

  /** Or-ing a group in at its place, in 64 bits, keeps the value read so far. */
  lemma Placed64(s: seq<byte>, k: nat)
    requires k < |s| && k <= 9
    ensures Or(Groups(s[..k]) % SPAN64, (s[k] % 128) * Pow2(7 * k) % SPAN64) == Groups(s[..k + 1]) % SPAN64
  {
    hide Groups, Pow2, Or;
    OneMoreGroup(s, k);
    GroupsBound(s[..k]);
    Pow2Of7(k);
    AddPlaced64(Groups(s[..k]), s[k] % 128, k);
    Pow2Of64();
    ShiftedIsMultiple(s[k] % 128, 7 * k, 64);
    OrIsSum(Groups(s[..k]) % SPAN64, (s[k] % 128) * Pow2(7 * k) % SPAN64, 7 * k);
  }

  lemma Power128Values()
    ensures Power128(8) == 0x100_0000_0000_0000 && Power128(9) == 0x8000_0000_0000_0000
  {
    assert Power128(2) == 0x4000;
    assert Power128(4) == 0x4000 * Power128(2);
    assert Power128(6) == 0x4000 * Power128(4);
    assert Power128(8) == 0x4000 * Power128(6);
  }

  lemma AddPlaced64(low: nat, group: nat, k: nat)
    requires k <= 9 && low < Power128(k) && group < 128
    ensures low % SPAN64 + group * Power128(k) % SPAN64 == (low + Power128(k) * group) % SPAN64
  {
    hide Power128;
    Power128Values();
    if k == 9 {
      TopGroup(low, group);
    } else {
      Power128Grows(k, 8);
      LowGroup(low, group, Power128(k));
    }
  }

  lemma TopGroup(low: nat, group: nat)
    requires low < 0x8000_0000_0000_0000 && group < 128
    ensures low % SPAN64 + group * 0x8000_0000_0000_0000 % SPAN64 == (low + 0x8000_0000_0000_0000 * group) % SPAN64
  {
  }

  lemma LowGroup(low: nat, group: nat, p: nat)
    requires low < p <= 0x100_0000_0000_0000 && group < 128
    ensures low % SPAN64 + group * p % SPAN64 == (low + p * group) % SPAN64
  {
    MulBound(group, p, p);
    SmallSum(low, group * p);
  }

  lemma SmallSum(x: nat, y: nat)
    requires x + y < SPAN64
    ensures x % SPAN64 + y % SPAN64 == (x + y) % SPAN64
  {
  }

  lemma MulBound(group: nat, p: nat, q: nat)
    requires group < 128 && 0 < p <= q
    ensures group * p <= 127 * q
  {
  }
}
