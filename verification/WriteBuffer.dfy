/** The windowed buffer of bytes waiting for the transport, and a byte-stream transport that takes as
    much as it likes of what it is offered. */
module WriteBuffer {
  import opened BigEndian

  const ALIGNMENT := 8
  const OFFSET_SPAN := 0x1_0000

  /** The largest capacity at which the buffer cannot lose its place; the program checks for 0xffff. */
  const MAX_CAPACITY := 0xfff9

  /** The 16-bit offset after `used` bytes were consumed. */
  function WrappedOffset(start: nat, used: nat): nat {
    (start + used) % OFFSET_SPAN
  }

  /** Consuming `used` of the `size` bytes at `start` leaves the others in the window. */
  predicate Survives(memory: seq<byte>, start: nat, size: nat, used: nat)
    requires used <= size && start + size <= |memory|
  {
    var offset := WrappedOffset(start, used);
    offset + size - used <= |memory| && memory[offset..offset + size - used] == memory[start + used..start + size]
  }

  /** In memory for `cap` bytes at any alignment, any contents survive any consumption. */
  ghost predicate KeepsContents(cap: nat) {
    forall memory: seq<byte>, start: nat, size: nat, used: nat
      | |memory| == cap + ALIGNMENT - 1 && start < ALIGNMENT && used <= size <= cap ::
            Survives(memory, start, size, used)
  }

  /** Memory of `length` bytes that differs only at the place that 16 bits count as zero. */
  function Marked(length: nat): seq<byte> {
    seq(length, i => if i == OFFSET_SPAN then 1 else 0)
  }

  /** Seven bytes of slack and 0xfffa bytes of contents, of which all but one were consumed: the window
      is at the front and not at the byte that is left. */
  lemma LosesItsPlace(cap: nat)
    requires cap > MAX_CAPACITY
    ensures var memory := Marked(cap + ALIGNMENT - 1);
            !Survives(memory, ALIGNMENT - 1, MAX_CAPACITY + 1, MAX_CAPACITY)
            && memory[WrappedOffset(ALIGNMENT - 1, MAX_CAPACITY)] == 0 && memory[ALIGNMENT - 1 + MAX_CAPACITY] == 1
  {
    var memory := Marked(cap + ALIGNMENT - 1);
    assert memory[0..1][0] == 0 && memory[OFFSET_SPAN..OFFSET_SPAN + 1][0] == 1;
  }

  /** Contents survive every consumption from every offset exactly up to this capacity. */
  lemma KeepsContentsIff(cap: nat)
    ensures KeepsContents(cap) <==> cap <= MAX_CAPACITY
  {
    if cap > MAX_CAPACITY {
      LosesItsPlace(cap);
      assert |Marked(cap + ALIGNMENT - 1)| == cap + ALIGNMENT - 1;
    }
  }

  class Buffer {
    var buf: array?<byte>
    /** Where the allocator put `buf`. */
    var address: int
    var offset: nat
    var size: nat
    var cap: nat

    ghost predicate Valid()
      reads this
    {
      && size <= cap
      && (buf == null ==> offset == 0 && cap == 0)
      && (buf != null ==> offset + cap <= buf.Length && offset < OFFSET_SPAN)
    }

    /** No consumption but the last can make the offset wrap. */
    ghost predicate Safe()
      reads this
    {
      offset + cap <= OFFSET_SPAN
    }

    /** The window from `data()`, `size()` long. */
    function Contents(): (contents: seq<byte>)
      reads this, buf
      requires Valid()
      ensures |contents| == size
    {
      if buf == null then [] else buf[offset..offset + size]
    }

    constructor ()
      ensures Valid() && Safe() && Contents() == [] && buf == null
    {
      buf, address, offset, size, cap := null, 0, 0, 0, 0;
    }

    method Clear()
      modifies this
      ensures Valid() && Safe() && Contents() == [] && buf == null
    {
      buf, offset, size, cap := null, 0, 0, 0;
    }

    /** Makes room for `newCap` bytes in all, aligned so that what follows `headerLen` bytes falls on an
        eight-byte boundary. */
    method EnsureCap(headerLen: nat, newCap: nat) returns (ok: bool)
      requires Valid()
      modifies this
      ensures Valid() && Contents() == old(Contents()) && size == old(size)
      ensures ok <==> newCap < OFFSET_SPAN
      ensures ok ==> cap >= newCap
      ensures if ok && old(cap) < newCap then
                && fresh(buf) && buf.Length == newCap + 7 && cap == newCap
                && offset < 8 && (address + offset + headerLen) % 8 == 0
              else buf == old(buf) && offset == old(offset) && cap == old(cap)
      ensures old(Safe()) && newCap <= MAX_CAPACITY ==> Safe()
    {
      if newCap >= OFFSET_SPAN {
        return false;
      }
      if cap >= newCap {
        return true;
      }
      var newBuf := new byte[newCap + ALIGNMENT - 1];
      var newAddress: int := *;
      var newOffset := (0 - headerLen - newAddress) % ALIGNMENT;
      if buf != null {
        forall i | 0 <= i < size {
          newBuf[newOffset + i] := buf[offset + i];
        }
      }
      forall i | 0 <= i < size ensures newBuf[newOffset + i] == Contents()[i] {
        if buf != null {
          assert Contents()[i] == buf[offset + i];
        }
      }
      assert newBuf[newOffset..newOffset + size] == Contents();
      buf, address, offset, cap := newBuf, newAddress, newOffset, newCap;
      ok := true;
    }

    /** Fills the front of the free space with `data` and counts it as contents. */
    method Append(data: seq<byte>)
      requires Valid() && buf != null && |data| <= cap - size
      modifies this`size, buf
      ensures Valid() && Contents() == old(Contents()) + data && size == old(size) + |data|
    {
      forall i | 0 <= i < |data| {
        buf[offset + size + i] := data[i];
      }
      size := size + |data|;
    }

    /** Drops `len` bytes from the front. */
    method Consume(len: nat)
      requires Valid() && len <= size
      modifies this`offset, this`size, this`cap
      ensures Valid() && size == old(size) - len && cap == old(cap) - len
      ensures buf != null ==>
                var offset := WrappedOffset(old(offset), len);
                offset + size <= buf.Length && Contents() == buf[offset..offset + size]
      ensures old(Safe()) ==> Safe() && Contents() == old(Contents())[len..]
    {
      if buf != null {
        offset := WrappedOffset(offset, len);
      }
      size := size - len;
      cap := cap - len;
    }

    method DiscardConsumed()
      requires Valid()
      modifies this
      ensures Valid() && (old(Safe()) ==> Safe()) && Contents() == old(Contents())
      ensures if size == 0 then buf == null else unchanged(this)
    {
      if size == 0 {
        Clear();
      }
    }
  }

  /** A byte-stream transport. A result of zero or less is a failure or a request to come back later. */
  class Transport {
    var sent: seq<byte>
    /** How many calls it refused. */
    ghost var refusals: nat

    constructor ()
      ensures sent == [] && refusals == 0
    {
      sent, refusals := [], 0;
    }

    method Write(data: seq<byte>) returns (ret: int)
      modifies this
      ensures ret <= |data|
      ensures sent == if ret > 0 then old(sent) + data[..ret] else old(sent)
      ensures refusals == old(refusals) + if ret > 0 then 0 else 1
    {
      ret := *;
      if ret > |data| {
        ret := |data|;
      }
      if ret > 0 {
        sent := sent + data[..ret];
      } else {
        refusals := refusals + 1;
      }
    }

    method Flush() returns (ret: int)
      modifies `refusals
      ensures refusals == old(refusals) + if ret > 0 then 0 else 1
    {
      ret := *;
      if ret <= 0 {
        refusals := refusals + 1;
      }
    }
  }

  lemma SplitMoves(before: seq<byte>, contents: seq<byte>, k: nat)
    requires k <= |contents|
    ensures (before + contents[..k]) + contents[k..] == before + contents
  {
  }

  /** Offers the buffer to the transport until it is empty: `result` is 1 then, and otherwise the
      transport's own answer. What was taken and what is left still make up the buffer. */
  method FlushBuffer(buffer: Buffer, transport: Transport) returns (result: int)
    requires buffer.Valid() && buffer.Safe()
    modifies buffer, transport
    ensures buffer.Valid() && buffer.Safe() && buffer.buf in {old(buffer.buf), null}
    ensures transport.sent + buffer.Contents() == old(transport.sent) + old(buffer.Contents())
    ensures (result == 1 && buffer.buf == null && buffer.Contents() == []) || result <= 0
    ensures transport.refusals == old(transport.refusals) + if result <= 0 then 1 else 0
  {
    hide Buffer.Contents, Buffer.Valid, Buffer.Safe;
    while buffer.size > 0
      invariant buffer.Valid() && buffer.Safe() && buffer.buf == old(buffer.buf)
      invariant transport.sent + buffer.Contents() == old(transport.sent) + old(buffer.Contents())
      invariant transport.refusals == old(transport.refusals)
      decreases buffer.size
    {
      ghost var before, contents := transport.sent, buffer.Contents();
      var ret := transport.Write(buffer.Contents());
      if ret <= 0 {
        return ret;
      }
      buffer.Consume(ret);
      SplitMoves(before, contents, ret);
    }
    buffer.Clear();
    result := 1;
  }
}
