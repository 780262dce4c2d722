/** Non-blocking TLS writing: application data cut into records, a pending handshake flight, and
    retries after the transport could not take everything. */
module RecordWriting {
  import opened Basics
  import opened BigEndian
  import opened WriteBuffer

  datatype ContentType = ChangeCipherSpec | Alert | Handshake | ApplicationData

  /** One sealing of a record: what went in and what came out. */
  datatype Record = Record(typ: ContentType, plain: seq<byte>, sealed: seq<byte>)

  /** Everything sealed, in order. */
  ghost function Wire(log: seq<Record>): seq<byte> {
    if log == [] then [] else Wire(log[..|log| - 1]) + log[|log| - 1].sealed
  }

  /** The plaintext of one content type, in order. */
  ghost function Plain(log: seq<Record>, typ: ContentType): seq<byte> {
    if log == [] then []
    else
      var last := log[|log| - 1];
      Plain(log[..|log| - 1], typ) + if last.typ == typ then last.plain else []
  }

  lemma LogGrows(log: seq<Record>, r: Record, typ: ContentType)
    ensures Wire(log + [r]) == Wire(log) + r.sealed
    ensures Plain(log + [r], typ) == if r.typ == typ then Plain(log, typ) + r.plain else Plain(log, typ)
  {
    assert (log + [r])[..|log|] == log;
  }

  /** `after` has one more record, of `plain`. */
  predicate OneMore(before: seq<Record>, after: seq<Record>, typ: ContentType, plain: seq<byte>) {
    && |after| == |before| + 1 && before == after[..|before|]
    && after[|before|].typ == typ && after[|before|].plain == plain
  }

  /** The new records are of application data and full, except perhaps the one that completes the write. */
  predicate Chunked(before: seq<Record>, after: seq<Record>, max: nat, complete: bool) {
    && before <= after
    && forall i | |before| <= i < |after| ::
         after[i].typ.ApplicationData?
             && (|after[i].plain| == max || (complete && i == |after| - 1 && |after[i].plain| < max))
  }

  /** `after` is `before` followed by the bytes of `data` in the same places. */
  predicate Extends(before: seq<byte>, after: seq<byte>, data: seq<byte>) {
    && before <= after
    && (|before| < |after| ==> |after| <= |data| && after[|before|..] == data[|before|..|after|])
  }

  lemma NothingChunked(log: seq<Record>, max: nat)
    ensures Chunked(log, log, max, false)
  {
  }

  lemma ChunkedEither(before: seq<Record>, after: seq<Record>, max: nat)
    requires Chunked(before, after, max, false)
    ensures Chunked(before, after, max, true)
  {
  }

  lemma OneMoreChunked(before: seq<Record>, mid: seq<Record>, after: seq<Record>, plain: seq<byte>, max: nat,
                       complete: bool)
    requires Chunked(before, mid, max, false) && |plain| <= max
    requires mid == after || OneMore(mid, after, ApplicationData, plain)
    ensures |plain| == max || mid == after || complete ==> Chunked(before, after, max, complete)
    ensures |plain| == max || mid == after ==> Chunked(before, after, max, false)
    ensures |after| <= |mid| + 1
  {
  }

  /** What the transport has, the buffer holds and the flight has left is `wire`, in this order. */
  ghost predicate Joins(sent: seq<byte>, contents: seq<byte>, rest: seq<byte>, wire: seq<byte>) {
    sent + contents + rest == wire
  }

  lemma JoinsBehindFlight(sent: seq<byte>, contents: seq<byte>, rest: seq<byte>, wire: seq<byte>, more: seq<byte>)
    requires Joins(sent, contents, rest, wire)
    ensures Joins(sent, contents, rest + more, wire + more)
  {
    assert sent + contents + (rest + more) == sent + contents + rest + more;
  }

  lemma JoinsBehindBuffer(sent: seq<byte>, contents: seq<byte>, wire: seq<byte>, more: seq<byte>)
    requires Joins(sent, contents, [], wire)
    ensures Joins(sent, contents + more, [], wire + more)
  {
    assert sent + (contents + more) + [] == sent + contents + [] + more;
  }

  /** The transport takes `k` bytes of the flight. */
  lemma JoinsTaken(sent: seq<byte>, rest: seq<byte>, wire: seq<byte>, k: nat)
    requires Joins(sent, [], rest, wire) && k <= |rest|
    ensures Joins(sent + rest[..k], [], rest[k..], wire)
  {
    assert sent + rest[..k] + [] + rest[k..] == sent + [] + rest;
  }

  lemma ExtendsItself(a: seq<byte>, data: seq<byte>)
    ensures Extends(a, a, data)
  {
  }

  lemma ExtendsTransitive(a: seq<byte>, b: seq<byte>, c: seq<byte>, data: seq<byte>)
    requires Extends(a, b, data) && Extends(b, c, data)
    ensures Extends(a, c, data)
  {
    if |a| < |b| < |c| {
      assert c[|a|..] == b[|a|..] + c[|b|..];
    } else if |a| == |b| {
      assert a == b;
    }
  }

  /** A prefix of the data extended by the data is a prefix of the data. */
  lemma PrefixExtends(before: seq<byte>, after: seq<byte>, data: seq<byte>)
    requires before <= data && Extends(before, after, data)
    ensures after <= data
  {
    if |before| < |after| {
      assert after == before + after[|before|..];
      assert data[..|after|] == before + data[|before|..|after|];
    } else {
      assert after == before;
    }
  }

  class Writer {
    const maxSendFragment: nat
    const maxSealOverhead: nat
    const alignPrefixLen: nat
    const partialWrite: bool
    const movingBuffer: bool
    const buffer: Buffer
    const transport: Transport
    var flight: Option<seq<byte>>
    var flightOffset: nat
    var wnum: nat
    var wpendTot: nat
    var wpendType: ContentType
    var wpendRet: nat
    var wpendBuf: nat
    var wpendPending: bool
    var writeShutdown: bool
    var alertDispatch: bool
    var alert: seq<byte>
    const alertAddr: nat
    ghost var log: seq<Record>
    /** How many records could not be protected. */
    ghost var sealFailures: nat
    /** Where in the application data the write in progress began. */
    ghost var began: nat

    ghost function Repr(): set<object?>
      reads this, buffer
    {
      {this, buffer, transport, buffer.buf}
    }

    /** What is left of the flight. */
    function FlightRest(): seq<byte>
      reads `flight, `flightOffset
    {
      if flight.Some? && flightOffset <= |flight.value| then flight.value[flightOffset..] else []
    }

    /** Nothing sealed is lost, repeated or out of order: it is what the transport has taken, what the
        buffer holds and what is left of the flight. */
    ghost predicate Conserved()
      reads `flight, `flightOffset, `log, buffer, buffer.buf, transport`sent
    {
      && buffer.Valid() && buffer.Safe()
      && (flight.Some? ==> flightOffset <= |flight.value|) && (flight.None? ==> flightOffset == 0)
      && Joins(transport.sent, buffer.Contents(), FlightRest(), Wire(log))
    }

    /** The limits the program's static assertions put on its constants, and what is known of a pending
        write. */
    ghost predicate Settled()
      reads `wpendRet, `wpendTot, `wpendPending, `wpendType, `writeShutdown
    {
      && 512 <= maxSendFragment <= MAX_PLAIN_LENGTH && maxSealOverhead <= 0x4000
      && wpendRet == wpendTot
      && (wpendPending ==> 0 < wpendTot <= MAX_PLAIN_LENGTH)
      && (wpendPending && !wpendType.ApplicationData? ==> writeShutdown)
    }

    ghost function Stream(): seq<byte>
      reads `log
    {
      Plain(log, ApplicationData)
    }

    /** How much of the write in progress is in the pending record. */
    function Pending(): nat
      reads `wpendTot, `wpendPending, `wpendType
    {
      if wpendPending && wpendType.ApplicationData? then wpendTot else 0
    }

    /** The application data sealed since the write in progress began is the part acknowledged in
        earlier records and the part in the pending one. */
    ghost predicate Accounted()
      reads `log, `began, `wnum, `wpendTot, `wpendPending, `wpendType
    {
      began <= |Stream()| && |Stream()| - began == wnum + Pending()
    }

    ghost predicate Valid()
      reads Repr()
    {
      Conserved() && Settled() && Accounted()
    }

    ghost function Accepted(): seq<byte>
      reads `log, `began
      requires began <= |Stream()|
    {
      Stream()[began..]
    }

    /** The capacity asked for to put a record of `len` bytes behind the rest of the flight. */
    function Capacity(len: nat): nat
      reads `flight, `flightOffset
    {
      |FlightRest()| + len + maxSealOverhead
    }

    /** A record of `len` bytes does not get a buffer in which the offset may wrap. */
    predicate Roomy(len: nat)
      reads `flight, `flightOffset
    {
      len == 0 || len > MAX_PLAIN_LENGTH || Capacity(len) <= MAX_CAPACITY || Capacity(len) >= OFFSET_SPAN
    }

    /** A write of `len` bytes in all, of which `tot` are behind it, puts no record that is not roomy
        behind a flight. */
    predicate Fitting(tot: nat, len: nat)
      reads `flight, `flightOffset, `wpendTot, `wpendPending, `wpendType
    {
      len < tot + Pending() || (wpendPending && partialWrite) || Roomy(ChunkSize(len - tot - Pending()))
    }

    /** Without a flight every record is roomy. */
    lemma NoFlightIsRoomy()
      requires Settled() && FlightRest() == []
      ensures forall len: nat :: Roomy(len)
    {
    }

    /** How much of `n` bytes goes into the next record. */
    function ChunkSize(n: nat): nat {
      if n > maxSendFragment then maxSendFragment else n
    }

    /** How often the transport refused or a record could not be protected. */
    ghost function Failures(): nat
      reads `sealFailures, transport`refusals
    {
      transport.refusals + sealFailures
    }

    constructor (maxSendFragment: nat, maxSealOverhead: nat, alignPrefixLen: nat, partialWrite: bool,
                 movingBuffer: bool, alertAddr: nat)
      requires 512 <= maxSendFragment <= MAX_PLAIN_LENGTH && maxSealOverhead <= 0x4000
      ensures Valid() && fresh(Repr() - {null}) && log == [] && Accepted() == [] && !writeShutdown && flight.None?
      ensures this.maxSendFragment == maxSendFragment && this.maxSealOverhead == maxSealOverhead
      ensures this.alignPrefixLen == alignPrefixLen && this.alertAddr == alertAddr
      ensures this.partialWrite == partialWrite && this.movingBuffer == movingBuffer
      ensures wnum == 0 && !wpendPending && !alertDispatch && alert == [] && Failures() == 0
      ensures buffer.size == 0 && transport.sent == []
    {
      this.maxSendFragment, this.maxSealOverhead, this.alignPrefixLen :=
        maxSendFragment, maxSealOverhead, alignPrefixLen;
      this.partialWrite, this.movingBuffer := partialWrite, movingBuffer;
      buffer := new Buffer();
      transport := new Transport();
      flight, flightOffset := None, 0;
      wnum, wpendTot, wpendType, wpendRet, wpendBuf, wpendPending := 0, 0, ApplicationData, 0, 0, false;
      this.alertAddr := alertAddr;
      writeShutdown, alertDispatch, alert := false, false, [];
      log, sealFailures, began := [], 0, 0;
    }

    /** The record protection: whatever bytes it makes of the record, at most `maxSealOverhead` more, or a
        failure. That there was too little room for them is not counted as one. */
    method SealRecord(typ: ContentType, plain: seq<byte>, maxOut: nat) returns (ok: bool, sealed: seq<byte>)
      modifies `log, `sealFailures
      ensures ok ==> |sealed| <= maxOut && log == old(log) + [Record(typ, plain, sealed)]
      ensures !ok ==> log == old(log)
      ensures maxOut >= |plain| + maxSealOverhead ==> sealFailures == old(sealFailures) + if ok then 0 else 1
    {
      ok, sealed := *, *;
      if !ok || |sealed| > |plain| + maxSealOverhead {
        sealFailures := sealFailures + 1;
        return false, [];
      }
      if |sealed| > maxOut {
        return false, [];
      }
      log := log + [Record(typ, plain, sealed)];
    }

    /** With the buffer empty the transport has everything sealed but the rest of the flight. */
    lemma AllSent()
      requires Conserved() && buffer.size == 0
      ensures transport.sent + FlightRest() == Wire(log)
      ensures FlightRest() == [] ==> transport.sent == Wire(log)
    {
      hide Wire;
      assert transport.sent + [] + FlightRest() == transport.sent + FlightRest();
    }

    // ----- application data -----

    /** The caller comes back with at least the pending data, of the same type and, unless buffers may
        move, from the same place. */
    predicate Resumes(typ: ContentType, addr: nat, len: nat)
      reads `wpendTot, `wpendBuf, `wpendType
    {
      wpendTot <= len && (movingBuffer || wpendBuf == addr) && wpendType == typ
    }

    /** No buffer is large enough for the rest of the flight and a record of `len` bytes. */
    predicate Overflows(len: nat)
      reads `flight, `flightOffset
    {
      len > MAX_PLAIN_LENGTH || (len > 0 && Capacity(len) >= OFFSET_SPAN)
    }

    /** A call that is turned down before anything is tried. */
    predicate Blocked(typ: ContentType, addr: nat, len: nat)
      reads `wpendTot, `wpendBuf, `wpendType, `wpendPending, `flight, `flightOffset, buffer`size
    {
      if wpendPending then !Resumes(typ, addr, len) else len == 0 || buffer.size > 0 || Overflows(len)
    }

    method WritePending(typ: ContentType, addr: nat, len: nat) returns (ret: int)
      requires Conserved() && Settled() && wpendPending
      modifies buffer, transport, `wpendPending
      ensures Conserved() && Settled() && buffer.buf in {old(buffer.buf), null}
      ensures !old(Resumes(typ, addr, len)) ==>
                ret == -1 && transport.sent == old(transport.sent) && buffer.Contents() == old(buffer.Contents())
      ensures transport.refusals == old(transport.refusals) + if ret <= 0 && old(Resumes(typ, addr, len)) then 1 else 0
      ensures ret > 0 ==> ret == wpendTot <= len && wpendType == typ && !wpendPending && buffer.size == 0
      ensures ret <= 0 ==> wpendPending
    {
      if wpendTot > len || (!movingBuffer && wpendBuf != addr) || wpendType != typ {
        return -1;
      }
      ret := FlushBuffer(buffer, transport);
      if ret <= 0 {
        return;
      }
      wpendPending := false;
      ret := wpendRet;
    }

    /** Makes room in the empty buffer for a record of `len` bytes behind the rest of the flight, and
        moves the flight there. */
    method MoveFlight(len: nat) returns (ok: bool)
      requires Conserved() && Settled() && buffer.size == 0 && 0 < len <= MAX_PLAIN_LENGTH && Roomy(len)
      modifies buffer, buffer.buf, `flight, `flightOffset
      ensures Conserved() && Settled()
      ensures buffer.buf == old(buffer.buf) || fresh(buffer.buf)
      ensures ok <==> !old(Overflows(len))
      ensures ok ==> FlightRest() == [] && buffer.buf != null && len + maxSealOverhead <= buffer.cap - buffer.size
      ensures ok && buffer.buf != old(buffer.buf) ==>
                (buffer.address + buffer.offset + buffer.size + alignPrefixLen) % 8 == 0
      ensures !ok ==> flight == old(flight) && flightOffset == old(flightOffset) && buffer.size == 0
    {
      hide Buffer.Contents, Wire, Plain;
      var prefix := FlightRest();
      ok := buffer.EnsureCap(|prefix| + alignPrefixLen, |prefix| + len + maxSealOverhead);
      if !ok {
        return;
      }
      if flight.Some? {
        buffer.Append(prefix);
        flight, flightOffset := None, 0;
      }
    }

    /** Writes one record, or goes on writing the pending one. */
    method DoWrite(typ: ContentType, addr: nat, data: seq<byte>) returns (ret: int)
      requires Conserved() && Settled() && (wpendPending || buffer.size > 0 || Roomy(|data|))
      requires typ.ApplicationData? || writeShutdown
      modifies buffer, buffer.buf, transport, `flight, `flightOffset, `log, `sealFailures
      modifies `wpendTot, `wpendBuf, `wpendType, `wpendRet, `wpendPending
      ensures Conserved() && Settled()
      ensures buffer.buf == old(buffer.buf) || buffer.buf == null || fresh(buffer.buf)
      ensures if old(wpendPending) || old(Blocked(typ, addr, |data|)) then
                flight == old(flight) && flightOffset == old(flightOffset)
              else FlightRest() == []
      ensures old(Blocked(typ, addr, |data|)) ==>
                && log == old(log) && transport.sent == old(transport.sent)
                && buffer.Contents() == old(buffer.Contents())
                && Blocked(typ, addr, |data|)
      ensures !old(wpendPending) && old(Overflows(|data|)) ==> ret == -1
      ensures !old(wpendPending) && log == old(log) ==> ret == if data == [] && old(buffer.size) == 0 then 0 else -1
      ensures old(wpendPending) ==> log == old(log) && wpendTot == old(wpendTot) && wpendType == old(wpendType)
      ensures old(wpendPending) && !old(Resumes(typ, addr, |data|)) ==>
                ret == -1 && transport.sent == old(transport.sent)
      ensures !old(wpendPending) ==>
                || (log == old(log) && ret <= 0 && !wpendPending)
                || (OneMore(old(log), log, typ, data) && wpendTot == |data| && wpendType == typ
                    && (ret <= 0 ==> wpendPending))
      ensures ret > 0 ==> ret == wpendTot <= |data| && wpendType == typ && !wpendPending && buffer.size == 0
      ensures old(Blocked(typ, addr, |data|)) ==> ret <= 0
      ensures Failures() == old(Failures()) + if ret <= 0 && !old(Blocked(typ, addr, |data|)) then 1 else 0
      ensures ret <= 0 && old(wpendPending) ==> wpendPending
    {
      hide Conserved;
      if wpendPending {
        ret := WritePending(typ, addr, |data|);
        return;
      }
      if |data| > MAX_PLAIN_LENGTH || buffer.size > 0 {
        return -1;
      }
      if |data| == 0 {
        return 0;
      }
      var ok := MoveFlight(|data|);
      if !ok {
        return -1;
      }
      ok := AppendRecord(typ, addr, data);
      if !ok {
        return -1;
      }
      ret := WritePending(typ, addr, |data|);
    }

    /** Seals a record into the free space of the buffer and notes it as pending. */
    method AppendRecord(typ: ContentType, addr: nat, data: seq<byte>) returns (ok: bool)
      requires Conserved() && Settled() && FlightRest() == [] && buffer.buf != null
      requires 0 < |data| <= MAX_PLAIN_LENGTH && !wpendPending && (typ.ApplicationData? || writeShutdown)
      requires |data| + maxSealOverhead <= buffer.cap - buffer.size
      modifies buffer`size, buffer.buf, `log, `sealFailures, `wpendTot, `wpendBuf, `wpendType, `wpendRet, `wpendPending
      ensures Conserved() && Settled()
      ensures if ok then OneMore(old(log), log, typ, data) else log == old(log)
      ensures wpendPending == ok && (ok ==> wpendTot == |data| && wpendType == typ && wpendBuf == addr)
      ensures sealFailures == old(sealFailures) + if ok then 0 else 1
    {
      hide Buffer.Contents, Wire, Plain, Joins;
      var sealed;
      ok, sealed := SealRecord(typ, data, buffer.cap - buffer.size);
      if ok {
        LogGrows(old(log), Record(typ, data, sealed), typ);
        ghost var contents := buffer.Contents();
        buffer.Append(sealed);
        JoinsBehindBuffer(transport.sent, contents, Wire(old(log)), sealed);
        wpendTot, wpendBuf, wpendType, wpendRet, wpendPending := |data|, addr, typ, |data|, true;
      }
    }

    /** A write of `data` that began at `began` with `accepted` behind it and `before` sealed: what is
        sealed since it began is of `data`, in records of the right sizes. */
    ghost predicate Written(data: seq<byte>, before: seq<Record>, accepted: seq<byte>)
      reads Repr()
    {
      && Conserved() && Settled() && !writeShutdown && began <= |Stream()|
      && Extends(accepted, Accepted(), data)
      && Chunked(before, log, maxSendFragment, |Accepted()| == |data|)
      && (partialWrite ==> |log| <= |before| + 1)
    }

    /** The same with `tot` bytes of it behind the loop, which goes on. */
    ghost predicate Writing(data: seq<byte>, tot: nat, before: seq<Record>, accepted: seq<byte>)
      reads Repr()
    {
      && Conserved() && Settled() && !writeShutdown && began <= |Stream()|
      && Extends(accepted, Accepted(), data)
      && Chunked(before, log, maxSendFragment, false)
      && (partialWrite ==> log == before)
      && |Accepted()| == tot + Pending() && Fitting(tot, |data|)
    }

    /** Writes one chunk of the application data, of which `tot` bytes are behind it. */
    method WriteChunk(addr: nat, data: seq<byte>, tot: nat, nw: nat, ghost before: seq<Record>,
                      ghost accepted: seq<byte>)
      returns (ret: int)
      requires Writing(data, tot, before, accepted) && tot <= |data| && nw == ChunkSize(|data| - tot)
      modifies buffer, buffer.buf, transport, `flight, `flightOffset, `log, `sealFailures
      modifies `wpendTot, `wpendBuf, `wpendType, `wpendRet, `wpendPending
      ensures buffer.buf == old(buffer.buf) || buffer.buf == null || fresh(buffer.buf)
      ensures Written(data, before, accepted)
      ensures ret <= 0 ==> |Accepted()| == tot + Pending() && Fitting(tot, |data|)
      ensures ret > 0 ==> ret <= nw && |Accepted()| == tot + ret && !wpendPending && buffer.size == 0
      ensures 0 < ret < |data| - tot && !partialWrite ==> Writing(data, tot + ret, before, accepted)
      ensures old(Blocked(ApplicationData, addr + tot, nw)) ==>
                && ret <= 0 && log == old(log) && transport.sent == old(transport.sent)
                && flight == old(flight) && flightOffset == old(flightOffset)
      ensures Failures() == old(Failures()) +
                            if ret <= 0 && !old(Blocked(ApplicationData, addr + tot, nw)) then 1 else 0
      ensures ret <= 0 && Failures() == old(Failures()) ==> Blocked(ApplicationData, addr + tot, nw)
      ensures !old(wpendPending) && old(Overflows(nw)) ==> ret == -1
    {
      hide Conserved, Plain, FlightRest, Roomy, Overflows, Extends, Chunked, Blocked;
      ghost var was, mid := Accepted(), log;
      var chunk := data[tot..tot + nw];
      ret := DoWrite(ApplicationData, addr + tot, chunk);
      ExtendsItself(was, data);
      if log != mid {
        ChunkExtends(mid, log, began, tot, nw, data);
      }
      ExtendsTransitive(accepted, was, Accepted(), data);
      OneMoreChunked(before, mid, log, chunk, maxSendFragment, |Accepted()| == |data|);
      if FlightRest() == [] {
        NoFlightIsRoomy();
      }
    }

    /** Writes application data, one record after another. A positive result is the number of bytes of
        `data` written since the write began, in this call and the earlier ones that it resumes; zero or
        less means that the caller has to come back with the same data. */
    method WriteAppData(addr: nat, data: seq<byte>, len: int) returns (ret: int)
      requires Valid() && len <= |data| && (0 <= len ==> writeShutdown || Fitting(wnum, len))
      modifies Repr() - {null}
      ensures Valid() && writeShutdown == old(writeShutdown)
      ensures buffer.buf == old(buffer.buf) || buffer.buf == null || fresh(buffer.buf)
      ensures old(writeShutdown) ==> ret == -1 && log == old(log) && wnum == old(wnum) && began == old(began)
      ensures !old(writeShutdown) && len < old(wnum) ==>
                ret == -1 && log == old(log) && wnum == 0 && began == old(began) + old(wnum)
      ensures !old(writeShutdown) && len >= old(wnum) && ret <= 0 ==>
                began == old(began) && Extends(old(Accepted()), Accepted(), data[..len])
      ensures ret > 0 ==>
                && ret <= len && (ret == len || partialWrite)
                && |Stream()| == old(began) + ret && Extends(old(Accepted()), Stream()[old(began)..], data[..len])
                && wnum == 0 && !wpendPending && began == |Stream()| && transport.sent + FlightRest() == Wire(log)
      ensures Chunked(old(log), log, maxSendFragment, |Stream()| - old(began) == len)
      ensures partialWrite ==> |log| <= |old(log)| + 1
      ensures Failures() == old(Failures()) || (ret <= 0 && Failures() == old(Failures()) + 1)
      ensures ret <= 0 && Failures() == old(Failures()) && old(wnum) <= len ==>
                writeShutdown || (wnum <= len && Blocked(ApplicationData, addr + wnum, ChunkSize(len - wnum)))
      ensures old(wnum <= len && Blocked(ApplicationData, addr + wnum, ChunkSize(len - wnum))) ==>
                && ret <= 0 && log == old(log) && transport.sent == old(transport.sent) && Failures() == old(Failures())
                && flight == old(flight) && flightOffset == old(flightOffset)
      ensures old(wnum <= len && !wpendPending && Overflows(ChunkSize(len - wnum))) ==> ret == -1
      ensures ret <= 0 && old(wnum) <= len ==> writeShutdown || Fitting(wnum, len)
    {
      hide Conserved, Plain, FlightRest, Extends, Chunked, Blocked, Failures, Overflows;
      NothingChunked(log, maxSendFragment);
      ChunkedEither(log, log, maxSendFragment);
      if writeShutdown {
        return -1;
      }
      var tot := wnum;
      wnum := 0;
      if len < tot {
        began := began + tot;
        return -1;
      }
      ret := WriteRecords(addr, data[..len], tot);
      if ret > 0 {
        AllSent();
      }
    }

    /** The loop over the records, of which `start` bytes are behind it. */
    method WriteRecords(addr: nat, data: seq<byte>, start: nat) returns (ret: int)
      requires Conserved() && Settled() && !writeShutdown && wnum == 0 && start <= |data| && Fitting(start, |data|)
      requires began <= |Stream()| && |Stream()| - began == start + Pending()
      modifies buffer, buffer.buf, transport, `flight, `flightOffset, `log, `sealFailures, `wnum, `began
      modifies `wpendTot, `wpendBuf, `wpendType, `wpendRet, `wpendPending
      ensures Conserved() && Settled() && Accounted()
      ensures buffer.buf == old(buffer.buf) || buffer.buf == null || fresh(buffer.buf)
      ensures ret <= 0 ==> began == old(began) && Extends(old(Accepted()), Accepted(), data)
      ensures ret > 0 ==>
                && ret <= |data| && (ret == |data| || partialWrite)
                && |Stream()| == old(began) + ret && Extends(old(Accepted()), Stream()[old(began)..], data)
                && wnum == 0 && !wpendPending && began == |Stream()| && buffer.size == 0
      ensures Chunked(old(log), log, maxSendFragment, |Stream()| - old(began) == |data|)
      ensures partialWrite ==> |log| <= |old(log)| + 1
      ensures Failures() == old(Failures()) || (ret <= 0 && Failures() == old(Failures()) + 1)
      ensures ret <= 0 && Failures() == old(Failures()) ==>
                wnum <= |data| && Blocked(ApplicationData, addr + wnum, ChunkSize(|data| - wnum))
      ensures old(Blocked(ApplicationData, addr + start, ChunkSize(|data| - start))) ==>
                && ret <= 0 && log == old(log) && transport.sent == old(transport.sent) && Failures() == old(Failures())
                && flight == old(flight) && flightOffset == old(flightOffset)
      ensures old(!wpendPending && Overflows(ChunkSize(|data| - start))) ==> ret == -1
      ensures ret <= 0 ==> Fitting(wnum, |data|)
    {
      hide Conserved, Settled, Plain, FlightRest, Extends, Fitting, Overflows, Chunked, OneMore, Blocked, Failures,
           Stream;
      NothingChunked(log, maxSendFragment);
      var tot, n := start, |data| - start;
      ExtendsItself(Accepted(), data);
      ghost var before, accepted := log, Accepted();
      ghost var blocked, overflows :=
        Blocked(ApplicationData, addr + start, ChunkSize(n)), !wpendPending && Overflows(ChunkSize(n));
      while true
        invariant start <= tot && 0 <= n == |data| - tot && Writing(data, tot, before, accepted)
        invariant began == old(began) && wnum == 0 && Failures() == old(Failures())
        invariant buffer.buf == old(buffer.buf) || buffer.buf == null || fresh(buffer.buf)
        invariant blocked ==>
                    && Blocked(ApplicationData, addr + tot, ChunkSize(n)) && log == before
                    && transport.sent == old(transport.sent) && flight == old(flight)
                    && flightOffset == old(flightOffset)
        invariant overflows ==> !wpendPending && Overflows(ChunkSize(n))
        decreases n
      {
        ret := WriteChunk(addr, data, tot, ChunkSize(n), before, accepted);
        if ret <= 0 {
          wnum := tot;
          return;
        }
        if ret == n || partialWrite {
          began := |Stream()|;
          return tot + ret;
        }
        n := n - ret;
        tot := tot + ret;
      }
    }

    // ----- alerts -----

    /** Writes the noted alert: seals it, unless it is pending already, and sends it behind everything sealed
        before. Until all of it is sent it stays noted. */
    method DispatchAlert() returns (ret: int)
      requires Valid() && writeShutdown && |alert| == 2 && (wpendPending || buffer.size > 0 || Roomy(2))
      modifies Repr() - {null}
      ensures Valid() && writeShutdown && began == old(began) && Stream() == old(Stream()) && alert == old(alert)
      ensures buffer.buf == old(buffer.buf) || buffer.buf == null || fresh(buffer.buf)
      ensures ret > 0 ==> ret == 1 && !wpendPending && !alertDispatch
      ensures ret > 0 && !old(wpendPending) ==> OneMore(old(log), log, Alert, old(alert)) && transport.sent == Wire(log)
      ensures ret > 0 && old(wpendPending) ==>
                && log == old(log) && old(wpendType).Alert? && old(wpendTot) <= 2
                && transport.sent + FlightRest() == Wire(log)
      ensures ret <= 0 ==> alertDispatch == old(alertDispatch)
      ensures ret <= 0 && old(wpendPending) ==>
                log == old(log) && wpendPending && wpendType == old(wpendType) && wpendTot == old(wpendTot)
      ensures ret <= 0 && !old(wpendPending) ==>
                if wpendPending then OneMore(old(log), log, Alert, old(alert)) && wpendType.Alert? && wpendTot == 2
                else log == old(log)
      ensures Failures() == old(Failures()) + if ret <= 0 && !old(Blocked(Alert, alertAddr, 2)) then 1 else 0
    {
      hide Conserved, Plain, FlightRest;
      ret := DoWrite(Alert, alertAddr, alert);
      if log != old(log) {
        OtherTypeKeepsStream(old(log), log, alert);
      }
      if ret <= 0 {
        return;
      }
      AllSent();
      alertDispatch := false;
      ret := 1;
    }

    /** Closes the write side and notes an alert; if nothing else is being written it is sealed and sent at once,
        or it stays noted because the transport refused, it could not be sealed or the call was blocked. */
    method SendAlert(level: byte, desc: byte) returns (ret: int)
      requires Valid() && (writeShutdown || wpendPending || buffer.size > 0 || Roomy(2))
      modifies Repr() - {null}
      ensures Valid() && writeShutdown && began == old(began) && Stream() == old(Stream())
      ensures buffer.buf == old(buffer.buf) || buffer.buf == null || fresh(buffer.buf)
      ensures old(writeShutdown) ==>
                && ret == -1 && log == old(log) && alert == old(alert) && alertDispatch == old(alertDispatch)
                && transport.sent == old(transport.sent)
      ensures !old(writeShutdown) ==> alert == [level, desc]
      ensures !old(writeShutdown) && old(buffer.size) > 0 ==>
                ret == -1 && log == old(log) && alertDispatch && transport.sent == old(transport.sent)
      ensures !old(writeShutdown) && old(buffer.size) == 0 && ret > 0 ==>
                && ret == 1 && OneMore(old(log), log, Alert, [level, desc]) && transport.sent == Wire(log)
                && !wpendPending && !alertDispatch
      ensures !old(writeShutdown) && old(buffer.size) == 0 && ret <= 0 ==>
                && alertDispatch && (Failures() == old(Failures()) + 1 || old(Blocked(Alert, alertAddr, 2)))
                && if wpendPending && wpendType.Alert? then OneMore(old(log), log, Alert, [level, desc])
                   else log == old(log)
      ensures ret > 0 ==> !old(writeShutdown) && old(buffer.size) == 0
    {
      hide Conserved, Plain, FlightRest;
      if writeShutdown {
        return -1;
      }
      writeShutdown := true;
      alertDispatch := true;
      alert := [level, desc];
      if buffer.size == 0 {
        ret := DispatchAlert();
        return;
      }
      ret := -1;
    }

    // ----- the handshake flight -----

    /** Seals a record onto the end of the flight. */
    method AddRecordToFlight(typ: ContentType, data: seq<byte>) returns (ok: bool)
      requires Valid() && flightOffset == 0 && !typ.ApplicationData?
      modifies `flight, `log, `sealFailures
      ensures Valid() && flightOffset == 0 && Stream() == old(Stream())
      ensures if ok then OneMore(old(log), log, typ, data) else log == old(log)
      ensures ok <==> sealFailures == old(sealFailures)
    {
      hide Plain, Wire, Joins, Settled, Pending, Buffer.Contents, Buffer.Valid, Buffer.Safe;
      if flight.None? {
        flight := Some([]);
      }
      var sealed;
      ok, sealed := SealRecord(typ, data, |data| + maxSealOverhead);
      if ok {
        LogGrows(old(log), Record(typ, data, sealed), ApplicationData);
        ghost var before := FlightRest();
        flight := Some(flight.value + sealed);
        assert FlightRest() == before + sealed;
        JoinsBehindFlight(transport.sent, buffer.Contents(), before, Wire(old(log)), sealed);
      }
    }

    /** Adds a handshake message to the flight in records of at most `maxSendFragment` bytes. */
    method AddMessage(msg: seq<byte>) returns (ok: bool)
      requires Valid() && flightOffset == 0
      modifies `flight, `log, `sealFailures
      ensures Valid() && flightOffset == 0 && Stream() == old(Stream())
      ensures ok <==> sealFailures == old(sealFailures)
      ensures ok ==> Plain(log, Handshake) == old(Plain(log, Handshake)) + msg
      ensures ok ==> |log| > |old(log)|
      ensures old(log) <= log
      ensures forall i | |old(log)| <= i < |log| :: log[i].typ == Handshake && |log[i].plain| <= maxSendFragment
      ensures forall i | |old(log)| <= i < |log| - 1 :: |log[i].plain| == maxSendFragment
    {
      hide Plain, Wire, Conserved, Accounted;
      var rest, more := msg, true;
      while more
        invariant Valid() && flightOffset == 0 && Stream() == old(Stream()) && sealFailures == old(sealFailures)
        invariant Plain(log, Handshake) + rest == old(Plain(log, Handshake)) + msg
        invariant more <==> rest != [] || log == old(log)
        invariant old(log) <= log
        invariant forall i | |old(log)| <= i < |log| :: log[i].typ == Handshake && |log[i].plain| <= maxSendFragment
        invariant forall i | |old(log)| <= i < |log| - 1 :: |log[i].plain| == maxSendFragment
        invariant more && log != old(log) ==> |log[|log| - 1].plain| == maxSendFragment
        decreases |rest|, more
      {
        var size := if |rest| > maxSendFragment then maxSendFragment else |rest|;
        ghost var before, whole := log, rest;
        var chunk := rest[..size];
        rest := rest[size..];
        ok := AddRecordToFlight(Handshake, chunk);
        if !ok {
          return;
        }
        OneMoreGrows(before, log, Handshake, chunk);
        SplitMoves(Plain(before, Handshake), whole, size);
        more := rest != [];
      }
      ok := true;
    }

    method AddChangeCipherSpec() returns (ok: bool)
      requires Valid() && flightOffset == 0
      modifies `flight, `log, `sealFailures
      ensures Valid() && flightOffset == 0 && Stream() == old(Stream())
      ensures if ok then OneMore(old(log), log, ChangeCipherSpec, [1]) else log == old(log)
      ensures ok <==> sealFailures == old(sealFailures)
    {
      ok := AddRecordToFlight(ChangeCipherSpec, [1]);
    }

    /** Sends what is in the buffer and then the flight. */
    method FlushFlight() returns (ret: int)
      requires Valid()
      modifies buffer, transport, `flight, `flightOffset
      ensures Valid() && buffer.buf in {old(buffer.buf), null}
      ensures ret <= 1
      ensures ret == 1 ==> flight.None? && FlightRest() == [] && (old(flight).Some? ==> transport.sent == Wire(log))
      ensures old(flight).None? ==> ret == 1 && transport.sent == old(transport.sent)
      ensures old(flight).Some? && writeShutdown ==> ret == -1 && transport.sent == old(transport.sent)
      ensures transport.refusals == old(transport.refusals) + if ret <= 0 && !writeShutdown then 1 else 0
    {
      hide Plain, Wire;
      if flight.None? {
        return 1;
      }
      if writeShutdown {
        return -1;
      }
      if buffer.size > 0 {
        ret := FlushBuffer(buffer, transport);
        if ret <= 0 {
          return;
        }
      }
      ret := SendFlight();
    }

    /** Offers the rest of the flight to the transport once. */
    method OfferFlight() returns (ret: int)
      requires Conserved() && flight.Some? && flightOffset < |flight.value| && buffer.size == 0
      modifies transport, `flightOffset
      ensures Conserved() && flightOffset == old(flightOffset) + if ret > 0 then ret else 0
      ensures transport.refusals == old(transport.refusals) + if ret > 0 then 0 else 1
    {
      hide Wire, Joins, Buffer.Valid, Buffer.Safe, Buffer.Contents;
      assert buffer.Contents() == [];
      ghost var before, rest := transport.sent, FlightRest();
      ret := transport.Write(flight.value[flightOffset..]);
      if ret > 0 {
        flightOffset := flightOffset + ret;
        JoinsTaken(before, rest, Wire(log), ret);
        assert FlightRest() == rest[ret..];
      }
    }

    /** Sends the flight, once the buffer is empty. */
    method SendFlight() returns (ret: int)
      requires Conserved() && flight.Some? && buffer.size == 0
      modifies transport, `flight, `flightOffset
      ensures Conserved()
      ensures ret <= 1
      ensures ret == 1 ==> flight.None? && transport.sent == Wire(log)
      ensures ret <= 0 && FlightRest() == [] ==> ret == -1
      ensures transport.refusals == old(transport.refusals) + if ret <= 0 then 1 else 0
    {
      hide Conserved;
      while flightOffset < |flight.value|
        invariant Conserved() && flight == old(flight) && transport.refusals == old(transport.refusals)
        decreases |flight.value| - flightOffset
      {
        ret := OfferFlight();
        if ret <= 0 {
          return;
        }
      }
      ret := transport.Flush();
      if ret <= 0 {
        return -1;
      }
      ResetFlight();
      ret := 1;
    }

    /** Lets go of the flight, once it is all sent. */
    method ResetFlight()
      requires Conserved() && flight.Some? && buffer.size == 0 && flightOffset >= |flight.value|
      modifies `flight, `flightOffset
      ensures Conserved() && flight.None? && transport.sent == Wire(log)
    {
      hide Wire;
      flight, flightOffset := None, 0;
    }
  }

  /** A record of the next chunk of the data extends what was sealed. */
  lemma ChunkExtends(before: seq<Record>, after: seq<Record>, began: nat, tot: nat, nw: nat, data: seq<byte>)
    requires tot + nw <= |data| && OneMore(before, after, ApplicationData, data[tot..tot + nw])
    requires began <= |Plain(before, ApplicationData)| && |Plain(before, ApplicationData)| - began == tot
    ensures Plain(after, ApplicationData) == Plain(before, ApplicationData) + data[tot..tot + nw]
    ensures Extends(Plain(before, ApplicationData)[began..], Plain(after, ApplicationData)[began..], data)
  {
    hide Plain;
    LogGrows(before, after[|before|], ApplicationData);
    assert after == before + [after[|before|]];
  }

  lemma OneMoreGrows(before: seq<Record>, after: seq<Record>, typ: ContentType, plain: seq<byte>)
    requires OneMore(before, after, typ, plain)
    ensures Plain(after, typ) == Plain(before, typ) + plain
  {
    hide Plain;
    assert after == before + [after[|before|]];
    LogGrows(before, after[|before|], typ);
  }

  lemma OtherTypeKeepsStream(before: seq<Record>, after: seq<Record>, plain: seq<byte>)
    requires OneMore(before, after, Alert, plain)
    ensures Plain(after, ApplicationData) == Plain(before, ApplicationData)
  {
    hide Plain;
    assert after == before + [after[|before|]];
    LogGrows(before, after[|before|], ApplicationData);
  }

  /** Any caller that comes back with the same data until the write is done: what was sealed since the
      write began is exactly the part of the data that is acknowledged in the end. */
  method WriteWithRetries(writer: Writer, addr: nat, data: seq<byte>, attempts: nat) returns (ret: int)
    requires writer.Valid() && (writer.writeShutdown || writer.Fitting(writer.wnum, |data|)) && writer.Accepted() == []
    modifies writer.Repr() - {null}
    ensures writer.Valid()
    ensures ret > 0 ==>
              && ret <= |data| && old(writer.began) <= |writer.Stream()|
              && writer.Stream()[old(writer.began)..] == data[..ret] && writer.Accepted() == []
              && writer.transport.sent + writer.FlightRest() == Wire(writer.log)
    ensures ret <= 0 ==> writer.began == old(writer.began) && writer.Accepted() <= data
  {
    ret := 0;
    for i := 0 to attempts
      invariant writer.Valid() && (writer.writeShutdown || writer.Fitting(writer.wnum, |data|))
                && writer.began == old(writer.began) && writer.Accepted() <= data && ret <= 0
      invariant writer.buffer.buf == old(writer.buffer.buf) || writer.buffer.buf == null || fresh(writer.buffer.buf)
    {
      ghost var before := writer.Accepted();
      ret := writer.WriteAppData(addr, data, |data|);
      assert data[..|data|] == data;
      if ret > 0 {
        PrefixExtends(before, writer.Stream()[old(writer.began)..], data);
        return;
      }
      if before <= data && Extends(before, writer.Accepted(), data) {
        PrefixExtends(before, writer.Accepted(), data);
      }
    }
  }
}
