/** Sending a flight of handshake messages over DTLS: fragmentation under an MTU, packing of several
    records in a packet, rollback of an unsent packet and retransmission. */
module HandshakeWriter {
  import opened Basics
  import opened BigEndian
  import opened Fragments
  import opened Flight
  import opened RecordNumbers

  const MIN_MTU := 256 - 28
  const DEFAULT_MTU := 1500 - 28

  /** A datagram: what its records hold, their epochs and sequence numbers, and its length. */
  datatype Packet = Packet(pieces: seq<Piece>, numbers: seq<(nat, nat)>, length: nat)

  datatype SealResult = SealError | NoProgress | Partial | Complete

  datatype SendResult = Done | Shutdown | MtuTooSmall | SealFailed | WriteBlocked | FlushBlocked

  function AllPieces(packets: seq<Packet>): seq<Piece> {
    if packets == [] then [] else AllPieces(packets[..|packets| - 1]) + packets[|packets| - 1].pieces
  }

  function AllNumbers(packets: seq<Packet>): seq<(nat, nat)> {
    if packets == [] then [] else AllNumbers(packets[..|packets| - 1]) + packets[|packets| - 1].numbers
  }

  /** Every record is numbered in the epoch of what it holds. */
  ghost predicate NumberedRecords(pieces: seq<Piece>, numbers: seq<(nat, nat)>) {
    |numbers| == |pieces| && forall i | 0 <= i < |pieces| :: numbers[i].0 == pieces[i].epoch
  }

  /** No fragment takes more plaintext than `limit`. */
  ghost predicate SmallPieces(pieces: seq<Piece>, limit: nat) {
    forall p <- pieces :: p.FragmentPiece? ==> HM_HEADER_LENGTH + |p.fragment.body| <= limit
  }

  /** The least a record of `piece` takes: its header and plaintext. */
  function LeastRecord(piece: Piece): nat {
    13 + if piece.CcsPiece? then 1 else 12 + |piece.fragment.body|
  }

  /** The records of `pieces` fit in `length` bytes, before what encryption adds. */
  ghost predicate FitIn(pieces: seq<Piece>, length: nat)
    decreases |pieces|
  {
    if pieces == [] then true
    else
      var last := LeastRecord(pieces[|pieces| - 1]);
      last <= length && FitIn(pieces[..|pieces| - 1], length - last)
  }

  /** What a packet may be: within the limit, all of its records in it, each numbered in its epoch. */
  ghost predicate SoundPacket(p: Packet, limit: nat) {
    && FitIn(p.pieces, p.length) && p.length <= limit
    && NumberedRecords(p.pieces, p.numbers) && SmallPieces(p.pieces, limit)
  }

  lemma {:induction false} FitsMore(pieces: seq<Piece>, length: nat, more: nat)
    requires FitIn(pieces, length) && length <= more
    ensures FitIn(pieces, more)
    decreases |pieces|
  {
    if pieces != [] {
      var last := LeastRecord(pieces[|pieces| - 1]);
      FitsMore(pieces[..|pieces| - 1], length - last, more - last);
    }
  }

  lemma EmptyPacket(limit: nat)
    ensures SoundPacket(Packet([], [], 0), limit)
  {
  }

  /** Another record in the room that was left. */
  lemma OneMoreRecord(p: Packet, piece: Piece, number: (nat, nat), length: nat, limit: nat)
    requires SoundPacket(p, limit) && LeastRecord(piece) <= length <= limit - p.length
    requires number.0 == piece.epoch
    ensures SoundPacket(Packet(p.pieces + [piece], p.numbers + [number], p.length + length), limit)
  {
    assert (p.pieces + [piece])[..|p.pieces|] == p.pieces;
    FitsMore(p.pieces, p.length, p.length + length - LeastRecord(piece));
  }

  lemma NoPackets(msgs: seq<OutgoingMessage>, p: Position)
    ensures Chain(msgs, p, AllPieces([]), p) && Chain(msgs, p, [], p)
  {
  }

  lemma NothingWasted(events: seq<Event>)
    ensures Sealing(events, events, AllNumbers([]) + [])
  {
  }

  /** One more packet was sealed, which the transport took or not. */
  lemma SealedPacket(before: seq<Event>, mid: seq<Event>, after: seq<Event>, packets: seq<Packet>, packet: Packet)
    requires Sealing(before, mid, AllNumbers(packets) + []) && Sealing(mid, after, packet.numbers)
    ensures Sealing(before, after, AllNumbers(packets) + packet.numbers)
    ensures Sealing(before, after, AllNumbers(packets + [packet]) + [])
  {
    hide Sealing;
    assert (packets + [packet])[..|packets|] == packets;
    assert AllNumbers(packets) + [] == AllNumbers(packets);
    assert AllNumbers(packets + [packet]) + [] == AllNumbers(packets) + packet.numbers;
    SealingOn(before, mid, after, AllNumbers(packets), packet.numbers);
  }

  /** What was sealed so far and a record or none. */
  lemma SealingMore(before: seq<Event>, mid: seq<Event>, after: seq<Event>, numbers: seq<(nat, nat)>,
                    number: (nat, nat))
    requires Sealing(before, mid, numbers)
    ensures Sealing(mid, after, [number]) ==> Sealing(before, after, numbers + [number])
    ensures Sealing(mid, after, []) ==> Sealing(before, after, numbers)
  {
    hide Sealing;
    if Sealing(mid, after, [number]) {
      SealingOn(before, mid, after, numbers, [number]);
    }
    if Sealing(mid, after, []) {
      SealingOn(before, mid, after, numbers, []);
      assert numbers + [] == numbers;
    }
  }

  lemma OneMorePacket(msgs: seq<OutgoingMessage>, p: Position, packets: seq<Packet>, q: Position, packet: Packet,
                      r: Position)
    requires Chain(msgs, p, AllPieces(packets), q) && Chain(msgs, q, packet.pieces, r)
    ensures Chain(msgs, p, AllPieces(packets + [packet]), r)
  {
    assert (packets + [packet])[..|packets|] == packets;
    ChainConcat(msgs, p, AllPieces(packets), q, packet.pieces, r);
  }

  /** The datagram transport; it takes a packet whole or not at all. */
  class Transport {
    var sent: seq<Packet>
    /** How many calls it refused. */
    ghost var refusals: nat

    constructor ()
      ensures sent == [] && refusals == 0
    {
      sent, refusals := [], 0;
    }

    method Write(packet: Packet) returns (ok: bool)
      modifies this
      ensures sent == if ok then old(sent) + [packet] else old(sent)
      ensures refusals == old(refusals) + if ok then 0 else 1
    {
      ok := *;
      if ok {
        sent := sent + [packet];
      } else {
        refusals := refusals + 1;
      }
    }

    method Flush() returns (ok: bool)
      modifies `refusals
      ensures refusals == old(refusals) + if ok then 0 else 1
    {
      ok := *;
      if !ok {
        refusals := refusals + 1;
      }
    }
  }

  class Writer {
    const records: RecordWriter
    const transport: Transport
    var messages: seq<OutgoingMessage>
    var written: nat
    var offset: nat
    var messagesComplete: bool
    var flightHasReply: bool
    var handshakeWriteSeq: nat
    var mtu: nat

    ghost function Repr(): set<object>
      reads this, records
    {
      {this, transport} + records.Repr()
    }

    ghost predicate Valid()
      reads Repr()
    {
      && records.Valid()
      && |messages| <= MAX_HANDSHAKE_FLIGHT && WellFormedFlight(messages)
      && PositionValid(messages, At())
      && handshakeWriteSeq < SEQ_SPAN && Numbered(messages, handshakeWriteSeq)
    }

    ghost function At(): Position
      reads this
    {
      Position(written, offset)
    }

    constructor (initial: Aead)
      ensures Valid() && fresh(Repr()) && messages == [] && At() == Position(0, 0)
      ensures records.events == [] && transport.sent == [] && mtu == 0 && handshakeWriteSeq == 0 && !messagesComplete
    {
      records := new RecordWriter(initial);
      transport := new Transport();
      messages, written, offset := [], 0, 0;
      messagesComplete, flightHasReply, handshakeWriteSeq, mtu := false, false, 0, 0;
    }

    /** The records layer's choice of epoch for a message; none if the epoch is gone. */
    function UsePrevious(msg: OutgoingMessage): (previous: Option<bool>)
      reads records`epoch
    {
      if records.epoch >= 1 && msg.epoch == records.epoch - 1 then Some(true)
      else if msg.epoch == records.epoch then Some(false)
      else None
    }

    /** The least room in which part of `msg` can be sealed. */
    function LeastRoom(msg: OutgoingMessage, previous: bool): nat
      reads records`aead, records`lastAead
    {
      (if msg.isCcs then 1 else HM_HEADER_LENGTH + 1) + records.MaxSealOverhead(previous)
    }

    /** The epoch of the next message is neither the current nor the one before. */
    predicate Gone()
      reads `messages, `written, records`epoch
    {
      && written < |messages|
      && messages[written].epoch != records.epoch && messages[written].epoch + 1 != records.epoch
    }

    /** Less than `maxOut` is needed to send any of the next message. */
    predicate Cramped(maxOut: nat)
      reads `messages, `written, records`epoch, records`aead, records`lastAead
    {
      && written < |messages|
      && var msg := messages[written];
         UsePrevious(msg).Some? && maxOut < LeastRoom(msg, UsePrevious(msg).value)
    }

    /** How many attempts to seal a record failed. */
    ghost function FailedSeals(): nat
      reads records`events
    {
      RecordNumbers.FailedSeals(records.events)
    }

    /** Seals as much of the next message as fits in `maxOut`. */
    method SealNextMessage(maxOut: nat) returns (result: SealResult, outLen: nat, piece: Piece, number: (nat, nat))
      requires Valid() && written < |messages|
      modifies this`offset, records`events, records.writeSequence, records.lastWriteSequence
      ensures Valid()
      ensures result.SealError? || result.NoProgress? ==> offset == old(offset)
      ensures result.Partial? ==> outLen <= maxOut && offset > 0 && Advances(messages, old(At()), piece, At())
      ensures result.Complete? ==>
                outLen <= maxOut && offset == 0 && Advances(messages, old(At()), piece, Position(written + 1, 0))
      ensures result.Partial? ==>
                var previous := UsePrevious(messages[written]);
                previous.Some? && |piece.fragment.body| + HM_HEADER_LENGTH + records.MaxSealOverhead(previous.value) ==
                    maxOut
      ensures result.NoProgress? <==> Cramped(maxOut)
      ensures Gone() ==> result.SealError?
      ensures FailedSeals() == old(FailedSeals()) + if result.SealError? && !Gone() then 1 else 0
      ensures Sealing(old(records.events), records.events, if result.Partial? || result.Complete? then [number] else [])
      ensures result.Partial? || result.Complete? ==> number.0 == piece.epoch
      ensures result.Partial? || result.Complete? ==>
                var previous := UsePrevious(messages[old(written)]);
                && previous.Some? && LeastRecord(piece) <= outLen
                && outLen <= LeastRecord(piece) + records.WriteAead(previous.value).MaxOverhead()
    {
      hide Advances, Sealing, ParseWhole, Numbered, RecordNumbers.Run, RecordNumbers.FailedSeals;
      SealingNothing(records.events);
      var msg := messages[written];
      outLen, piece, number := 0, CcsPiece(msg.epoch), (0, 0);
      var use := UsePrevious(msg);
      if use.None? {
        return SealError, 0, piece, number;
      }
      var previous := use.value;
      if msg.isCcs {
        if maxOut < 1 + records.MaxSealOverhead(previous) {
          return NoProgress, 0, piece, number;
        }
        CcsAdvances(messages, At());
        var ok, len;
        ok, len, number := records.SealRecord(1, maxOut, previous);
        return if ok then Complete else SealError, len, piece, number;
      }
      var parsed := ParseWhole(msg.data);
      if parsed.Some? && offset <= |parsed.value.body| {
        result, outLen, piece, number := SealFragment(maxOut, parsed.value, previous);
      } else {
        assert false;
        result := SealError;
      }
    }

    /** Seals as much of `whole`, the next message, as fits in `maxOut`. */
    method SealFragment(maxOut: nat, whole: Fragment, previous: bool)
      returns (result: SealResult, outLen: nat, piece: Piece, number: (nat, nat))
      requires Valid() && written < |messages| && offset <= |whole.body|
      requires var msg := messages[written];
               !msg.isCcs && ParseWhole(msg.data) == Some(whole) && UsePrevious(msg) == Some(previous)
      modifies this`offset, records`events, records.writeSequence, records.lastWriteSequence
      ensures Valid()
      ensures result.SealError? || result.NoProgress? ==> offset == old(offset)
      ensures result.Partial? ==>
                && outLen <= maxOut && offset > 0 && Advances(messages, old(At()), piece, At())
                && piece.FragmentPiece?
                && |piece.fragment.body| + HM_HEADER_LENGTH + records.MaxSealOverhead(previous) == maxOut
      ensures result.Complete? ==>
                outLen <= maxOut && offset == 0 && Advances(messages, old(At()), piece, Position(written + 1, 0))
      ensures result.NoProgress? <==> maxOut < HM_HEADER_LENGTH + 1 + records.MaxSealOverhead(previous)
      ensures FailedSeals() == old(FailedSeals()) + if result.SealError? then 1 else 0
      ensures Sealing(old(records.events), records.events, if result.Partial? || result.Complete? then [number] else [])
      ensures result.Partial? || result.Complete? ==> number.0 == piece.epoch
      ensures result.Partial? || result.Complete? ==>
                LeastRecord(piece) <= outLen <= LeastRecord(piece) + records.WriteAead(previous).MaxOverhead()
    {
      hide Advances, Sealing, ParseWhole, Numbered, RecordNumbers.Run, RecordNumbers.FailedSeals;
      var overhead, prefix := records.MaxSealOverhead(previous), records.SealPrefixLen(previous);
      piece, number := CcsPiece(0), (0, 0);
      if maxOut < HM_HEADER_LENGTH + 1 + overhead || maxOut < prefix {
        SealingNothing(records.events);
        return NoProgress, 0, piece, number;
      }
      var left := |whole.body| - offset;
      var todo := if left > maxOut - HM_HEADER_LENGTH - overhead then maxOut - HM_HEADER_LENGTH - overhead else left;
      piece := FragmentPiece(messages[written].epoch, Slice(whole, offset, todo));
      SliceAdvances(messages, At(), todo);
      var ok, len;
      ok, len, number := records.SealRecord(HM_HEADER_LENGTH + todo, maxOut, previous);
      if !ok {
        return SealError, 0, piece, number;
      }
      outLen := len;
      if todo == left {
        offset := 0;
        return Complete, outLen, piece, number;
      }
      offset := offset + todo;
      result := Partial;
    }

    /** Fills one packet of at most `maxOut` bytes. */
    method SealNextPacket(maxOut: nat) returns (result: SendResult, packet: Packet)
      requires Valid() && written < |messages|
      modifies this`written, this`offset, records`events, records.writeSequence, records.lastWriteSequence
      ensures Valid()
      ensures result in {Done, MtuTooSmall, SealFailed}
      ensures !result.MtuTooSmall? ==> Chain(messages, old(At()), packet.pieces, At())
      ensures SoundPacket(packet, maxOut) && Sealing(old(records.events), records.events, packet.numbers)
      ensures result.Done? ==> packet.pieces != []
      ensures result.Done? ==> written == |messages| || offset > 0 || Cramped(maxOut - packet.length)
      ensures !result.SealFailed? ==> !Gone() && !old(Gone())
      ensures result.SealFailed? ==> written < |messages| && (packet.pieces == [] <==> At() == old(At()))
      ensures FailedSeals() == old(FailedSeals()) + if result.SealFailed? && !Gone() then 1 else 0
      ensures result.SealFailed? ==> !Cramped(maxOut)
      ensures result.MtuTooSmall? <==> old(Cramped(maxOut))
      ensures result.MtuTooSmall? ==> At() == old(At())
    {
      hide Advances, Sealing, SoundPacket, LeastRecord, HoldsWhole, WholeOf, WellFormedFlight, Numbered, UsePrevious,
           LeastRoom, RecordNumbers.Run, RecordNumbers.FailedSeals;
      var pieces, numbers, total, room := [], [], 0, maxOut;
      SealingNothing(records.events);
      EmptyPacket(maxOut);
      while written < |messages|
        invariant Valid()
        invariant Chain(messages, old(At()), pieces, At())
        invariant SoundPacket(Packet(pieces, numbers, total), maxOut)
        invariant Sealing(old(records.events), records.events, numbers)
        invariant room + total == maxOut && (pieces == [] ==> At() == old(At()) && numbers == [] && total == 0)
        invariant pieces != [] ==> Before(old(At()), At()) && !old(Cramped(maxOut)) && !old(Gone())
        invariant FailedSeals() == old(FailedSeals())
        decreases |messages| - written
      {
        ghost var before, earlier := At(), records.events;
        var sealed, len, piece, number := SealNextMessage(room);
        SealingMore(old(records.events), earlier, records.events, numbers, number);
        if sealed.SealError? {
          return SealFailed, Packet(pieces, numbers, total);
        }
        if sealed.NoProgress? {
          if pieces == [] {
            return MtuTooSmall, Packet(pieces, numbers, total);
          }
          return Done, Packet(pieces, numbers, total);
        }
        ghost var after := if sealed.Complete? then Position(written + 1, 0) else At();
        ChainOne(messages, before, piece, after);
        ChainConcat(messages, old(At()), pieces, before, [piece], after);
        OneMoreRecord(Packet(pieces, numbers, total), piece, number, len, maxOut);
        pieces, numbers, total, room := pieces + [piece], numbers + [number], total + len, room - len;
        if sealed.Partial? {
          return Done, Packet(pieces, numbers, total);
        }
        written := written + 1;
      }
      return Done, Packet(pieces, numbers, total);
    }

    /** What is left of the message being sent. */
    ghost function LeftOfMessage(): nat
      reads this, records
      requires PositionValid(messages, At())
    {
      if offset == 0 then
        if written < |messages| && HoldsWhole(messages[written]) then |WholeOf(messages[written]).body| else 0
      else |WholeOf(messages[written]).body| - offset
    }

    /** Keeps the MTU at or above the minimum unless the caller fixed it. */
    method UpdateMtu(noQuery: bool, queried: int)
      modifies this`mtu
      ensures noQuery || old(mtu) >= 228 ==> mtu == old(mtu)
      ensures !noQuery ==> mtu >= 228
      ensures !noQuery && old(mtu) < 228 ==> mtu == if 228 <= queried <= 0x4000_0000 then queried else 1472
    {
      if mtu < MIN_MTU && !noQuery {
        mtu := if 0 <= queried <= 0x4000_0000 && queried >= MIN_MTU then queried else DEFAULT_MTU;
      }
    }

    /** How a transmission ended, given how many calls the transport refused and how many seals failed in
        it: each result has its own cause, and it is done exactly when there is none. */
    ghost predicate Explains(result: SendResult, shutdown: bool, refusals: int, failures: int)
      reads this, records
    {
      && (result.Shutdown? <==> shutdown)
      && refusals == (if result in {WriteBlocked, FlushBlocked} then 1 else 0)
      && failures == (if result.SealFailed? && !Gone() then 1 else 0)
      && (result.SealFailed? <==> failures == 1 || (!shutdown && Gone()))
      && (result in {SealFailed, WriteBlocked} ==> written < |messages|)
      && (result.MtuTooSmall? <==> !shutdown && Cramped(mtu))
      && (result in {Done, FlushBlocked} ==> At() == Position(|messages|, 0))
      && (result.Done? <==> !shutdown && refusals == failures == 0 && !Gone() && !Cramped(mtu))
    }

    /** Fills a packet and offers it to the transport; if that refuses it, the position is what it was. */
    method SendNextPacket() returns (result: SendResult, packet: Packet)
      requires Valid() && written < |messages|
      modifies this`written, this`offset, transport, records`events, records.writeSequence, records.lastWriteSequence
      ensures Valid() && result in {Done, MtuTooSmall, SealFailed, WriteBlocked}
      ensures transport.sent == old(transport.sent) + if result.Done? then [packet] else []
      ensures transport.refusals == old(transport.refusals) + if result.WriteBlocked? then 1 else 0
      ensures FailedSeals() == old(FailedSeals()) + if result.SealFailed? && !Gone() then 1 else 0
      ensures SoundPacket(packet, mtu) && Sealing(old(records.events), records.events, packet.numbers)
      ensures result in {MtuTooSmall, WriteBlocked} ==> At() == old(At())
      ensures result in {Done, SealFailed} ==> Chain(messages, old(At()), packet.pieces, At())
      ensures result.SealFailed? ==> written < |messages| && (packet.pieces == [] <==> At() == old(At()))
      ensures result.Done? ==>
                (written > old(written) || (written == old(written) && LeftOfMessage() < old(LeftOfMessage())))
      ensures !result.SealFailed? ==> !Gone() && !old(Gone())
      ensures result.MtuTooSmall? <==> old(Cramped(mtu))
      ensures result.SealFailed? ==> !Cramped(mtu)
    {
      hide Advances, Sealing, SoundPacket, HoldsWhole, WholeOf, WellFormedFlight, Numbered, Chain, LeastRoom,
           UsePrevious, RecordNumbers.Run;
      var oldWritten, oldOffset := written, offset;
      ghost var start := At();
      result, packet := SealNextPacket(mtu);
      if !result.Done? {
        return;
      }
      ChainProgress(messages, start, packet.pieces, At());
      var ok := transport.Write(packet);
      if !ok {
        written, offset := oldWritten, oldOffset;
        result := WriteBlocked;
      }
    }

    /** Sends the flight from the current position on. `packets` are the ones the transport took, up to
        `reached`, and `lost` the pieces of a packet in which a later record could not be sealed. */
    method SendFlight(shutdown: bool, noQuery: bool, queried: int)
      returns (result: SendResult, packets: seq<Packet>, lost: seq<Piece>, ghost reached: Position,
               ghost wasted: seq<(nat, nat)>)
      requires Valid()
      modifies this`written, this`offset, this`mtu, transport, records`events, records.writeSequence,
               records.lastWriteSequence
      ensures Valid()
      ensures transport.sent == old(transport.sent) + packets
      ensures forall p <- packets :: SoundPacket(p, mtu)
      ensures Sealing(old(records.events), records.events, AllNumbers(packets) + wasted)
      ensures result in {Done, FlushBlocked} ==> wasted == []
      ensures mtu in {old(mtu), queried, 1472}
      ensures Chain(messages, old(At()), AllPieces(packets), reached) && Chain(messages, reached, lost, At())
      ensures (lost == [] <==> At() == reached) && (lost != [] ==> result.SealFailed?)
      ensures Explains(result, shutdown, transport.refusals - old(transport.refusals),
                       FailedSeals() - old(FailedSeals()))
      ensures result in {Done, FlushBlocked} ==> Tiles(messages, old(At()), AllPieces(packets))
    {
      hide Chain, Sealing, SoundPacket, AllPieces, Advances, HoldsWhole, WholeOf, WellFormedFlight, Numbered, Tiles,
           LeastRoom, UsePrevious, FailedSeals, LeftOfMessage, RecordNumbers.Run;
      packets, lost, reached, wasted := [], [], At(), [];
      NothingWasted(records.events);
      NoPackets(messages, At());
      if shutdown {
        return Shutdown, packets, lost, reached, wasted;
      }
      UpdateMtu(noQuery, queried);
      while written < |messages|
        invariant Valid() && reached == At() && mtu in {old(mtu), queried, 1472}
        invariant transport.sent == old(transport.sent) + packets && transport.refusals == old(transport.refusals)
        invariant forall p <- packets :: SoundPacket(p, mtu)
        invariant Sealing(old(records.events), records.events, AllNumbers(packets) + [])
        invariant Chain(messages, old(At()), AllPieces(packets), At())
        invariant FailedSeals() == old(FailedSeals())
        decreases |messages| - written, LeftOfMessage()
      {
        ghost var earlier := records.events;
        var sent, packet := SendNextPacket();
        SealedPacket(old(records.events), earlier, records.events, packets, packet);
        if sent.SealFailed? {
          return SealFailed, packets, packet.pieces, reached, packet.numbers;
        }
        if !sent.Done? {
          NoPackets(messages, At());
          return sent, packets, lost, reached, packet.numbers;
        }
        OneMorePacket(messages, old(At()), packets, reached, packet, At());
        packets, reached := packets + [packet], At();
      }
      NoPackets(messages, At());
      ChainToEndTiles(messages, handshakeWriteSeq, old(At()), AllPieces(packets));
      var flushed := transport.Flush();
      result := if flushed then Done else FlushBlocked;
    }

    /** Ends the flight and sends it. */
    method FlushFlight(shutdown: bool, noQuery: bool, queried: int)
      returns (result: SendResult, packets: seq<Packet>, lost: seq<Piece>, ghost reached: Position,
               ghost wasted: seq<(nat, nat)>)
      requires Valid()
      modifies this`messagesComplete, this`written, this`offset, this`mtu, transport, records`events
      modifies records.writeSequence, records.lastWriteSequence
      ensures Valid() && messagesComplete
      ensures transport.sent == old(transport.sent) + packets
      ensures forall p <- packets :: SoundPacket(p, mtu)
      ensures Sealing(old(records.events), records.events, AllNumbers(packets) + wasted)
      ensures result in {Done, FlushBlocked} ==> wasted == []
      ensures mtu in {old(mtu), queried, 1472}
      ensures Chain(messages, old(At()), AllPieces(packets), reached) && Chain(messages, reached, lost, At())
      ensures (lost == [] <==> At() == reached) && (lost != [] ==> result.SealFailed?)
      ensures Explains(result, shutdown, transport.refusals - old(transport.refusals),
                       FailedSeals() - old(FailedSeals()))
      ensures result in {Done, FlushBlocked} ==> Tiles(messages, old(At()), AllPieces(packets))
    {
      messagesComplete := true;
      result, packets, lost, reached, wasted := SendFlight(shutdown, noQuery, queried);
    }

    /** Sends the whole flight again. */
    method Retransmit(shutdown: bool, noQuery: bool, queried: int)
      returns (result: SendResult, packets: seq<Packet>, lost: seq<Piece>, ghost reached: Position,
               ghost wasted: seq<(nat, nat)>)
      requires Valid()
      modifies this`written, this`offset, this`mtu, transport, records`events, records.writeSequence,
               records.lastWriteSequence
      ensures Valid()
      ensures transport.sent == old(transport.sent) + packets
      ensures forall p <- packets :: SoundPacket(p, mtu)
      ensures Sealing(old(records.events), records.events, AllNumbers(packets) + wasted)
      ensures result in {Done, FlushBlocked} ==> wasted == []
      ensures mtu in {old(mtu), queried, 1472}
      ensures Chain(messages, Position(0, 0), AllPieces(packets), reached) && Chain(messages, reached, lost, At())
      ensures (lost == [] <==> At() == reached) && (lost != [] ==> result.SealFailed?)
      ensures Explains(result, shutdown, transport.refusals - old(transport.refusals),
                       FailedSeals() - old(FailedSeals()))
      ensures result in {Done, FlushBlocked} ==> Tiles(messages, Position(0, 0), AllPieces(packets))
    {
      written, offset := 0, 0;
      result, packets, lost, reached, wasted := SendFlight(shutdown, noQuery, queried);
    }

    method ClearOutgoing()
      modifies this`messages, this`written, this`offset, this`messagesComplete, this`flightHasReply
      ensures messages == [] && At() == Position(0, 0) && !messagesComplete && !flightHasReply
    {
      messages, written, offset, messagesComplete, flightHasReply := [], 0, 0, false, false;
    }

    /** Serializes a message of this number, its length still missing at the front. */
    method InitMessage(typ: byte, body: seq<byte>) returns (data: array<byte>)
      requires Valid()
      ensures fresh(data) && data[..] == Unfinished(typ, handshakeWriteSeq, body)
    {
      var s := Unfinished(typ, handshakeWriteSeq, body);
      data := new byte[|s|](i requires 0 <= i < |s| => s[i]);
    }

    /** Adds a handshake message or a ChangeCipherSpec to the flight, starting a new one after a flush.
        A message carries the number it was begun with. */
    method AddOutgoing(isCcs: bool, data: seq<byte>) returns (ok: bool)
      requires Valid()
      requires var msg := OutgoingMessage(data, records.epoch, isCcs);
               isCcs || (HoldsWhole(msg) && WholeOf(msg).hdr.seqNo == handshakeWriteSeq)
      modifies this`messages, this`written, this`offset, this`messagesComplete, this`flightHasReply,
               this`handshakeWriteSeq
      ensures Valid()
      ensures ok <==> old(messagesComplete) || |old(messages)| < 7
      ensures ok ==>
                && messages == (if old(messagesComplete) then [] else old(messages)) +
                   [OutgoingMessage(data, records.epoch, isCcs)]
                && At() == (if old(messagesComplete) then Position(0, 0) else old(At()))
                && handshakeWriteSeq == if isCcs then old(handshakeWriteSeq)
                   else (old(handshakeWriteSeq) + 1) % SEQ_SPAN
      ensures !ok ==> messages == old(messages) && At() == old(At()) && handshakeWriteSeq == old(handshakeWriteSeq)
      ensures !messagesComplete
    {
      hide HoldsWhole, WholeOf, Numbered, WellFormedFlight, PositionValid;
      EmptyFlight(handshakeWriteSeq);
      if messagesComplete {
        ClearOutgoing();
      }
      if |messages| >= MAX_HANDSHAKE_FLIGHT {
        return false;
      }
      FlightGrows(messages, OutgoingMessage(data, records.epoch, isCcs), handshakeWriteSeq, At());
      if !isCcs {
        handshakeWriteSeq := (handshakeWriteSeq + 1) % SEQ_SPAN;
      }
      messages := messages + [OutgoingMessage(data, records.epoch, isCcs)];
      ok := true;
    }

    /** Writes a handshake message of the given type and body: begins it, finishes it and adds it. */
    method WriteMessage(typ: byte, body: seq<byte>) returns (ok: bool)
      requires Valid()
      modifies this`messages, this`written, this`offset, this`messagesComplete, this`flightHasReply,
               this`handshakeWriteSeq
      ensures Valid()
      ensures ok <==> FitsU24(|body|) && (old(messagesComplete) || |old(messages)| < 7)
      ensures ok ==>
                && messages == (if old(messagesComplete) then [] else old(messages))
                               + [OutgoingMessage(Bytes(Whole(typ, old(handshakeWriteSeq), body)), records.epoch,
                                                  false)]
                && At() == (if old(messagesComplete) then Position(0, 0) else old(At()))
                && handshakeWriteSeq == (old(handshakeWriteSeq) + 1) % SEQ_SPAN
      ensures !ok ==> messages == old(messages) && At() == old(At()) && handshakeWriteSeq == old(handshakeWriteSeq)
      ensures messagesComplete == (old(messagesComplete) && !ok)
    {
      hide HoldsWhole, WholeOf, Numbered, WellFormedFlight, PositionValid, Unfinished;
      if !FitsU24(|body|) {
        return false;
      }
      var data := InitMessage(typ, body);
      FinishMessage(data);
      FinishedHoldsWhole(typ, handshakeWriteSeq, body, records.epoch);
      ok := AddOutgoing(false, data[..]);
    }
  }

  /** Completes a serialized message in place: the fragment length doubles as the message length. */
  method FinishMessage(data: array<byte>)
    requires data.Length >= HM_HEADER_LENGTH
    modifies data
    ensures data[..] == old(data[..1] + data[9..12] + data[4..])
  {
    forall i | 0 <= i < 3 {
      data[1 + i] := data[9 + i];
    }
  }

  /** What the message looks like before its length is filled in at the front. */
  function Unfinished(typ: byte, seqNo: nat, body: seq<byte>): (s: seq<byte>)
    ensures |s| == HM_HEADER_LENGTH + |body|
  {
    [typ] + Digits(0, 3) + Digits(seqNo, 2) + Digits(0, 3) + Digits(|body|, 3) + body
  }

  /** A finished message is its own single fragment. */
  lemma FinishedHoldsWhole(typ: byte, seqNo: nat, body: seq<byte>, epoch: nat)
    requires FitsU24(|body|) && seqNo < 0x1_0000
    ensures var s := Unfinished(typ, seqNo, body);
            var m := OutgoingMessage(s[..1] + s[9..12] + s[4..], epoch, false);
            m.data == Bytes(Whole(typ, seqNo, body)) && HoldsWhole(m) && WholeOf(m) == Whole(typ, seqNo, body)
  {
    hide Parse, Digits;
    var s := Unfinished(typ, seqNo, body);
    assert s[..1] + s[9..12] + s[4..] == Bytes(Whole(typ, seqNo, body));
    WrittenMessage(typ, seqNo, body, epoch);
  }
}
