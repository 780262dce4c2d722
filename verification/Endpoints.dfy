/** The sender's and the receiver's code together: one `Writer` and one `Receiver` run for any number of
    steps, over a channel that delivers any records that were sent, are a run of `Channel`. */
module Endpoints {
  import opened Basics
  import opened BigEndian
  import opened Fragments
  import opened Flight
  import opened Inbox
  import opened Reassembly
  import opened Channel
  import opened Reception
  import opened HandshakeWriter
  import opened HandshakeReader
  import opened HandshakeReceiver
  import opened Sequences
  import RecordNumbers
  import ReplayWindow

  /** The version in the record headers, up to its minor half. */
  const DTLS_VERSION := 0xfe00

  // ----- the two ends -----

  /** The numbers of the records sealed so far. */
  ghost function Sealed(writer: Writer): seq<(nat, nat)>
    reads writer, writer.records
  {
    RecordNumbers.Run(writer.records.events).sealed
  }

  /** The fragment in `piece` is on the wire, and in the epoch of its message. */
  ghost predicate OfMessage(piece: Piece, wire: set<Fragment>, epochs: seq<nat>) {
    piece.FragmentPiece? ==>
      var f := piece.fragment;
      f in wire && f.hdr.seqNo < |epochs| && epochs[f.hdr.seqNo] == piece.epoch
  }

  ghost predicate Traced(packet: Packet, wire: set<Fragment>, epochs: seq<nat>, sealed: seq<(nat, nat)>) {
    && NumberedRecords(packet.pieces, packet.numbers)
    && (forall n <- packet.numbers :: n in sealed)
    && forall piece <- packet.pieces :: OfMessage(piece, wire, epochs)
  }

  ghost predicate OnWire(sent: seq<Packet>, wire: set<Fragment>, epochs: seq<nat>, sealed: seq<(nat, nat)>) {
    forall packet <- sent :: Traced(packet, wire, epochs, sealed)
  }

  /** The writer is the sender of `w`, and what its transport took is on the wire. */
  ghost predicate Sends(writer: Writer, w: World, epochs: seq<nat>)
    reads writer.Repr()
  {
    && writer.Valid()
    && w.flight == writer.messages && w.at == writer.At() && |w.history| == writer.handshakeWriteSeq
    && RecordNumbers.Run(writer.records.events).changes == writer.records.epoch
    && OnWire(writer.transport.sent, w.wire, epochs, Sealed(writer))
  }

  /** The receiver is the one of `w`. */
  ghost predicate Receives(receiver: Receiver, w: World)
    reads receiver, receiver.records, receiver.reader, receiver.reader.incoming, receiver.reader.Repr
  {
    receiver.Valid() && w.inbox == receiver.reader.View() && !receiver.reader.hasMessage
  }

  /** Writer and receiver are the two ends of `w`; `epochs` are those the messages were written in. */
  ghost predicate Ends(writer: Writer, receiver: Receiver, w: World, epochs: seq<nat>)
    reads writer.Repr(), receiver, receiver.records, receiver.reader, receiver.reader.incoming, receiver.reader.Repr
  {
    && Sends(writer, w, epochs) && Receives(receiver, w)
    && Synced(w, epochs, writer.records.epoch, receiver.records.epoch)
    && WindowBehind(receiver.records.View(), Sealed(writer))
    && writer.Repr() !! receiver.Repr()
  }

  /** The messages added are the history. */
  ghost predicate Recorded(added: seq<(byte, seq<byte>)>, history: seq<Fragment>) {
    && |added| == |history|
    && forall i | 0 <= i < |added| :: history[i] == Whole(added[i].0, i, added[i].1)
  }

  // ----- the sender's steps -----

  /** What was on the wire stays there. */
  lemma StaysOnWire(sent: seq<Packet>, wire: set<Fragment>, epochs: seq<nat>, sealed: seq<(nat, nat)>,
                    wider: set<Fragment>, longer: seq<nat>, more: seq<(nat, nat)>)
    requires OnWire(sent, wire, epochs, sealed) && wire <= wider && epochs <= longer && sealed <= more
    ensures OnWire(sent, wider, longer, more)
  {
    forall packet <- sent ensures Traced(packet, wider, longer, more) {
      assert Traced(packet, wire, epochs, sealed);
    }
  }

  lemma {:induction false} InAllPackets(packets: seq<Packet>, packet: Packet)
    requires packet in packets
    ensures forall piece <- packet.pieces :: piece in AllPieces(packets)
    ensures forall n <- packet.numbers :: n in AllNumbers(packets)
  {
    var n := |packets| - 1;
    if packet != packets[n] {
      InAllPackets(packets[..n], packet);
    }
  }

  lemma PacketsOnWire(sent: seq<Packet>, wire: set<Fragment>, epochs: seq<nat>, sealed: seq<(nat, nat)>,
                      packets: seq<Packet>, wasted: seq<(nat, nat)>)
    requires OnWire(sent, wire, epochs, sealed)
    requires forall packet <- packets :: NumberedRecords(packet.pieces, packet.numbers)
    requires forall piece <- AllPieces(packets) | piece.FragmentPiece? ::
               piece.fragment.hdr.seqNo < |epochs| && epochs[piece.fragment.hdr.seqNo] == piece.epoch
    ensures OnWire(sent + packets, wire + FragmentsOf(AllPieces(packets)), epochs,
                   sealed + (AllNumbers(packets) + wasted))
  {
    hide AllPieces, AllNumbers, NumberedRecords;
    var wider, more := wire + FragmentsOf(AllPieces(packets)), sealed + (AllNumbers(packets) + wasted);
    StaysOnWire(sent, wire, epochs, sealed, wider, epochs, more);
    forall packet <- packets ensures Traced(packet, wider, epochs, more) {
      InAllPackets(packets, packet);
    }
  }

  /** The world after packets were sent up to `reached` and the position was put to `at`. */
  ghost function AfterSending(w: World, packets: seq<Packet>, reached: Position, at: Position): World {
    w.(at := at, wire := w.wire + FragmentsOf(AllPieces(packets)))
  }

  lemma SendingKeepsInvariant(w: World, from: Position, packets: seq<Packet>, reached: Position, at: Position)
    requires Invariant(w) && PositionValid(w.flight, from) && PositionValid(w.flight, at)
    requires Chain(w.flight, from, AllPieces(packets), reached)
    ensures Invariant(AfterSending(w, packets, reached, at))
    ensures Reaches(w, [Rewind(from), Send(AllPieces(packets), reached), Rewind(at)],
                    AfterSending(w, packets, reached, at))
  {
    hide Invariant, PositionValid, Chain, FragmentsOf, AllPieces;
    var start := Apply(w, Rewind(from));
    var send := Send(AllPieces(packets), reached);
    var sent := Apply(start, send);
    StepKeepsInvariant(w, Rewind(from));
    StepKeepsInvariant(start, send);
    StepKeepsInvariant(sent, Rewind(at));
    var events := [Rewind(from), send, Rewind(at)];
    assert events[1..] == [send, Rewind(at)] && events[1..][1..] == [Rewind(at)];
    assert [Rewind(at)][1..] == [];
    assert Reaches(sent, [Rewind(at)], AfterSending(w, packets, reached, at));
  }

  lemma SealedOn(writer: Writer, before: seq<RecordNumbers.Event>, numbers: seq<(nat, nat)>)
    requires RecordNumbers.Sealing(before, writer.records.events, numbers)
    ensures Sealed(writer) == RecordNumbers.Run(before).sealed + numbers
    ensures RecordNumbers.Run(writer.records.events).changes == RecordNumbers.Run(before).changes
  {
  }

  /** A transmission, of the rest of the flight or from its start again. */
  method Transmit(writer: Writer, receiver: Receiver, ghost w: World, ghost epochs: seq<nat>)
    returns (ghost next: World)
    requires Ends(writer, receiver, w, epochs)
    modifies writer.Repr()
    ensures Ends(writer, receiver, next, epochs) && writer.Repr() == old(writer.Repr())
    ensures next == w.(at := next.at, wire := next.wire)
  {
    hide Synced, Chain, FragmentsOf, AllPieces, AllNumbers, OnWire, Reaches, Writer.Explains, Tiles, WellFormedFlight,
         Numbered, RecordNumbers.Sealing, RecordNumbers.Run, WindowBehind, Receiver.Valid, Reader.View, SmallPieces,
         NumberedRecords;
    var again: bool, shutdown: bool, noQuery: bool, queried: int := *, *, *, *;
    var result, packets, lost;
    ghost var from, reached, wasted := if again then Position(0, 0) else writer.At(), writer.At(), [];
    ghost var before := writer.records.events;
    if again {
      result, packets, lost, reached, wasted := writer.Retransmit(shutdown, noQuery, queried);
    } else {
      result, packets, lost, reached, wasted := writer.FlushFlight(shutdown, noQuery, queried);
    }
    SealedOn(writer, before, AllNumbers(packets) + wasted);
    next := AfterSending(w, packets, reached, writer.At());
    SentKeepsSync(w, epochs, writer.records.epoch, receiver.records.epoch, from, packets, reached, writer.At());
    PacketsOnWire(old(writer.transport.sent), w.wire, epochs, old(Sealed(writer)), packets, wasted);
    BehindMore(receiver.records.View(), old(Sealed(writer)), Sealed(writer));
  }

  lemma SentKeepsSync(w: World, epochs: seq<nat>, writeEpoch: nat, e: nat, from: Position, packets: seq<Packet>,
                      reached: Position, at: Position)
    requires Synced(w, epochs, writeEpoch, e) && PositionValid(w.flight, from) && PositionValid(w.flight, at)
    requires Chain(w.flight, from, AllPieces(packets), reached)
    ensures Synced(AfterSending(w, packets, reached, at), epochs, writeEpoch, e)
    ensures forall piece <- AllPieces(packets) | piece.FragmentPiece? ::
              piece.fragment.hdr.seqNo < |epochs| && epochs[piece.fragment.hdr.seqNo] == piece.epoch
  {
    hide Invariant, PositionValid, Chain, FragmentsOf, AllPieces, Reaches;
    SendingKeepsInvariant(w, from, packets, reached, at);
    SendKeepsSync(w, epochs, writeEpoch, e, AfterSending(w, packets, reached, at));
    SentInItsEpoch(w.flight, epochs, from, AllPieces(packets), reached);
  }

  lemma RecordedMore(added: seq<(byte, seq<byte>)>, history: seq<Fragment>, typ: byte, body: seq<byte>)
    requires Recorded(added, history)
    ensures Recorded(added + [(typ, body)], history + [Whole(typ, |history|, body)])
  {
  }

  /** Adds a message, if its number does not wrap. */
  method Add(writer: Writer, receiver: Receiver, ghost w: World, ghost epochs: seq<nat>, added: seq<(byte, seq<byte>)>)
    returns (now: seq<(byte, seq<byte>)>, ghost next: World, ghost nowEpochs: seq<nat>)
    requires Ends(writer, receiver, w, epochs) && Recorded(added, w.history)
    modifies writer.Repr()
    ensures Ends(writer, receiver, next, nowEpochs) && Recorded(now, next.history)
            && writer.Repr() == old(writer.Repr())
    ensures next.delivered == w.delivered
  {
    hide Synced, Bytes, OnWire, Recorded, Whole, PositionValid, WellFormedFlight, Numbered, WindowBehind,
         RecordNumbers.RecordWriter.Valid, Receiver.Valid, Reader.View;
    var typ: byte, body: seq<byte> := *, *;
    now, next, nowEpochs := added, w, epochs;
    ghost var epoch, restart := writer.records.epoch, writer.messagesComplete;
    if writer.handshakeWriteSeq < MAX_MESSAGES {
      var ok := writer.WriteMessage(typ, body);
      if ok {
        now := added + [(typ, body)];
        RecordedMore(added, w.history, typ, body);
        next, nowEpochs := Apply(w, WriteMessage(typ, body, epoch, restart)), epochs + [epoch];
        WriteKeepsSync(w, epochs, epoch, receiver.records.epoch, typ, body, restart);
        SyncedCounts(next, nowEpochs, epoch, receiver.records.epoch);
        StaysOnWire(writer.transport.sent, w.wire, epochs, Sealed(writer), w.wire, nowEpochs, Sealed(writer));
      }
    }
  }

  lemma SyncedCounts(w: World, epochs: seq<nat>, writeEpoch: nat, e: nat)
    requires Synced(w, epochs, writeEpoch, e)
    ensures |epochs| == |w.history| && Invariant(w)
  {
  }

  /** Adds a ChangeCipherSpec and goes on in the next epoch. */
  method ChangeCipher(writer: Writer, receiver: Receiver, ghost w: World, ghost epochs: seq<nat>)
    returns (ghost next: World)
    requires Ends(writer, receiver, w, epochs)
    modifies writer.Repr()
    ensures Ends(writer, receiver, next, epochs) && writer.Repr() == old(writer.Repr())
    ensures next == w.(flight := next.flight, at := next.at, flightStart := next.flightStart)
  {
    hide Synced, OnWire, PositionValid, WellFormedFlight, Numbered, WindowBehind, RecordNumbers.Run,
         Receiver.Valid, Reader.View;
    next := w;
    ghost var epoch, restart := writer.records.epoch, writer.messagesComplete;
    if writer.records.epoch + 1 < RecordNumbers.EPOCH_SPAN {
      var ok := writer.AddOutgoing(true, []);
      if ok {
        next := Apply(w, WriteCcs(epoch, restart));
        CcsKeepsSync(w, epochs, epoch, receiver.records.epoch, restart);
        var aead: RecordNumbers.Aead := *;
        ghost var before := writer.records.events;
        writer.records.SetWriteState(aead);
        RecordNumbers.RunSnoc(before, RecordNumbers.ChangeCipher);
      }
    }
  }

  // ----- the receiver's steps -----

  /** The plaintext of the record that holds `piece`. */
  function PlainOf(piece: Piece): seq<byte> {
    match piece
    case CcsPiece(_) => [SSL3_MT_CCS]
    case FragmentPiece(_, f) => RecordBytes([f])
  }

  function TypeOf(piece: Piece): byte {
    if piece.CcsPiece? then SSL3_RT_CHANGE_CIPHER_SPEC else SSL3_RT_HANDSHAKE
  }

  /** What the window makes of a record that was sealed with this number and holds `piece`. */
  function Judged(st: ReplayWindow.ReadState, number: (nat, nat), piece: Piece)
    : (judged: (ReplayWindow.ReadState, ReplayWindow.Verdict))
    requires NumberFits(number)
  {
    SequenceRoundTrip(number);
    ReplayWindow.Open(st, Number64(number), true, |PlainOf(piece)|)
  }

  lemma SealedFits(writer: Writer, number: (nat, nat))
    requires number in Sealed(writer)
    ensures NumberFits(number)
  {
    RecordNumbers.NumbersFit(writer.records.events);
  }

  /** The record is found at the front of whatever packet it came in. */
  lemma RecordIsFirst(r: ReplayWindow.WireRecord, rest: seq<byte>, nullCipher: bool, version: nat)
    requires ReplayWindow.WellFormedRecord(r) && if nullCipher then r.version / 256 == 0xfe else r.version == version
    ensures FirstRecord(ReplayWindow.RecordBytes(r) + rest, nullCipher, version) == Some(r)
  {
    hide ReplayWindow.ParseRecord, ReplayWindow.RecordBytes;
    ReplayWindow.ParseOfRecord(r, rest);
  }

  /** The record of `piece` arrives, whatever follows it in its packet. */
  method ArriveRecord(receiver: Receiver, piece: Piece, number: (nat, nat), maxMessageLen: nat)
    returns (result: Received)
    requires receiver.Valid() && NumberFits(number)
    modifies receiver.Repr()
    ensures receiver.Valid() && fresh(receiver.Repr() - old(receiver.Repr()))
    ensures receiver.records.epoch == old(receiver.records.epoch)
    ensures receiver.reader.hasMessage == old(receiver.reader.hasMessage)
    ensures var (st, v) := Judged(old(receiver.records.View()), number, piece);
            && receiver.records.View() == st
            && (!v.Accept? ==>
                  && result == (if v.TooLong? then Fatal else Skipped)
                  && receiver.reader.View() == old(receiver.reader.View())
                  && receiver.reader.hasChangeCipherSpec == old(receiver.reader.hasChangeCipherSpec))
            && (v.Accept? && piece.CcsPiece? ==>
                  && (result.Handled? <==> old(receiver.records.epoch) == 0)
                  && receiver.reader.View() == old(receiver.reader.View())
                  && receiver.reader.hasChangeCipherSpec ==
                     (old(receiver.reader.hasChangeCipherSpec) || result.Handled?))
            && (v.Accept? && piece.FragmentPiece? ==>
                  var config := Config(old(receiver.records.epoch), maxMessageLen);
                  var (inbox, outcome) := ReceiveRecord(old(receiver.reader.View()), config, PlainOf(piece));
                  && result == (if outcome == Ok then Handled else Fatal)
                  && receiver.reader.View() == inbox
                  && receiver.reader.hasChangeCipherSpec == old(receiver.reader.hasChangeCipherSpec))
  {
    hide ReceiveRecord, ReplayWindow.Open, FirstRecord, ReplayWindow.RecordBytes, RecordBytes, Value;
    var minor: byte, ciphertext: seq<byte>, rest: seq<byte>, agreed: nat := *, *, *, *;
    if |ciphertext| > ReplayWindow.MAX_ENCRYPTED_LENGTH {
      ciphertext := [];
    }
    var r := ReplayWindow.WireRecord(TypeOf(piece), DTLS_VERSION + minor, SequenceOf(number), ciphertext);
    if !receiver.NullCipher() {
      agreed := r.version;
    }
    RecordIsFirst(r, rest, receiver.NullCipher(), agreed);
    SequenceRoundTrip(number);
    var packet := ReplayWindow.RecordBytes(r) + rest;
    var consumed;
    result, consumed := receiver.OpenHandshake(packet, false, agreed, true, PlainOf(piece), maxMessageLen);
  }

  lemma AcceptedEpoch(st: ReplayWindow.ReadState, number: (nat, nat), piece: Piece)
    requires NumberFits(number)
    ensures Judged(st, number, piece).0.epoch == st.epoch
    ensures Judged(st, number, piece).1.Accept? ==> number.0 == st.epoch
    ensures number.0 != st.epoch ==> Judged(st, number, piece) == (st, ReplayWindow.Discard)
  {
    SequenceRoundTrip(number);
  }

  lemma FragmentArrives(w: World, epochs: seq<nat>, writeEpoch: nat, e: nat, piece: Piece, maxMessageLen: nat)
    requires Synced(w, epochs, writeEpoch, e) && OfMessage(piece, w.wire, epochs)
    requires piece.FragmentPiece? && piece.epoch == e
    ensures |w.inbox.slots| == MAX_HANDSHAKE_FLIGHT
    ensures var config, f := Config(e, maxMessageLen), piece.fragment;
            && Possible(w, Deliver([f], config))
            && Synced(Apply(w, Deliver([f], config)), epochs, writeEpoch, e)
            && ReceiveRecord(w.inbox, config, PlainOf(piece)) == Receive(w.inbox, config, f)
  {
    hide Invariant, Receive, ReceiveRecord, FlightEpochs, Shape, Numbered, ReceivedEpochs, KeptOf;
    DeliverOne(w, piece.fragment, e, maxMessageLen);
    DeliverKeepsSync(w, epochs, writeEpoch, e, piece.fragment, maxMessageLen);
  }

  /** The record of a piece that was sent arrives, for the first time or again. */
  method Arrive(writer: Writer, receiver: Receiver, ghost w: World, ghost epochs: seq<nat>, piece: Piece,
                number: (nat, nat), maxMessageLen: nat)
    returns (result: Received, ghost next: World)
    requires Ends(writer, receiver, w, epochs) && OfMessage(piece, w.wire, epochs)
    requires number in Sealed(writer) && NumberFits(number) && number.0 == piece.epoch
    modifies receiver.Repr()
    ensures Ends(writer, receiver, next, epochs) && fresh(receiver.Repr() - old(receiver.Repr()))
    ensures next == w.(inbox := next.inbox, kept := next.kept)
    ensures var (st, v) := Judged(old(receiver.records.View()), number, piece);
            && receiver.records.View() == st && (v.Accept? ==> piece.epoch == old(receiver.records.epoch))
            && (v.Accept? && piece.FragmentPiece? ==>
                  var config := Config(old(receiver.records.epoch), maxMessageLen);
                  && Possible(w, Deliver([piece.fragment], config)) && |w.inbox.slots| == MAX_HANDSHAKE_FLIGHT
                  && next == Apply(w, Deliver([piece.fragment], config))
                  && result == if Receive(w.inbox, config, piece.fragment).1 == Ok then Handled else Fatal)
            && (!v.Accept? || piece.CcsPiece? ==> next == w)
            && (!v.Accept? ==> result == if v.TooLong? then Fatal else Skipped)
            && (v.Accept? && piece.CcsPiece? ==>
                  (result.Handled? <==> piece.epoch == 0) && (result.Handled? ==> receiver.reader.hasChangeCipherSpec))
  {
    hide Synced, Receive, ReceiveRecord, Judged, Possible, Apply, WindowBehind, Writer.Valid, OnWire, Receiver.Valid,
         Reader.View;
    ghost var st, e := receiver.records.View(), receiver.records.epoch;
    ghost var v := Judged(st, number, piece).1;
    AcceptedEpoch(st, number, piece);
    StaysBehindJudged(st, Sealed(writer), number, piece);
    next := w;
    if v.Accept? && piece.FragmentPiece? {
      FragmentArrives(w, epochs, writer.records.epoch, e, piece, maxMessageLen);
      next := Apply(w, Deliver([piece.fragment], Config(e, maxMessageLen)));
      DeliverApplied(w, piece.fragment, Config(e, maxMessageLen));
    }
    result := ArriveRecord(receiver, piece, number, maxMessageLen);
  }

  lemma DeliverApplied(w: World, f: Fragment, config: Config)
    requires Possible(w, Deliver([f], config))
    ensures var next := Apply(w, Deliver([f], config));
            && next == w.(inbox := next.inbox, kept := next.kept)
            && next.inbox == ReceiveRecord(w.inbox, config, RecordBytes([f])).0
  {
  }

  lemma StaysBehindJudged(st: ReplayWindow.ReadState, sealed: seq<(nat, nat)>, number: (nat, nat), piece: Piece)
    requires WindowBehind(st, sealed) && number in sealed && NumberFits(number)
    ensures WindowBehind(Judged(st, number, piece).0, sealed)
  {
    SequenceRoundTrip(number);
    StaysBehind(st, sealed, number, true, |PlainOf(piece)|);
  }

  /** Any record of any packet that was sent arrives. */
  method ArriveAny(writer: Writer, receiver: Receiver, ghost w: World, ghost epochs: seq<nat>)
    returns (ghost next: World)
    requires Ends(writer, receiver, w, epochs)
    modifies receiver.Repr()
    ensures Ends(writer, receiver, next, epochs) && fresh(receiver.Repr() - old(receiver.Repr()))
    ensures next == w.(inbox := next.inbox, kept := next.kept)
  {
    hide Synced, Receive, Judged, Possible, Apply, WindowBehind, Writer.Valid, Receives;
    var i: nat, j: nat, maxMessageLen: nat := *, *, *;
    next := w;
    var sent := writer.transport.sent;
    if i < |sent| {
      assert Traced(sent[i], w.wire, epochs, Sealed(writer));
      if j < |sent[i].pieces| {
        SealedFits(writer, sent[i].numbers[j]);
        var result;
        result, next := Arrive(writer, receiver, w, epochs, sent[i].pieces[j], sent[i].numbers[j], maxMessageLen);
      }
    }
  }

  /** A packet arrives whose first record does not decrypt. */
  method ArriveForged(writer: Writer, receiver: Receiver, ghost w: World, ghost epochs: seq<nat>)
    requires Ends(writer, receiver, w, epochs)
    modifies receiver.Repr()
    ensures Ends(writer, receiver, w, epochs) && fresh(receiver.Repr() - old(receiver.Repr()))
  {
    hide Synced, WindowBehind, Sends, Reader.View, FirstRecord, ReplayWindow.ShouldDiscard, Value;
    var packet: seq<byte>, closed: bool, version: nat, plain: seq<byte>, maxMessageLen: nat := *, *, *, *, *;
    var result, consumed := receiver.OpenHandshake(packet, closed, version, false, plain, maxMessageLen);
  }

  /** Takes the next message, if it is there. */
  method TakeMessage(writer: Writer, receiver: Receiver, ghost w: World, ghost epochs: seq<nat>,
                     delivered: seq<seq<byte>>)
    returns (now: seq<seq<byte>>, ghost next: World)
    requires Ends(writer, receiver, w, epochs) && w.delivered == delivered
    modifies receiver.reader.Repr
    ensures Ends(writer, receiver, next, epochs) && receiver.reader.Repr == old(receiver.reader.Repr)
    ensures receiver.records.View() == old(receiver.records.View())
    ensures |w.inbox.slots| == MAX_HANDSHAKE_FLIGHT && next.delivered == now
    ensures if Ready(w.inbox) then next == Apply(w, Take) && |now| == |delivered| + 1 else next == w
  {
    hide Synced, Writer.Valid, OnWire, WindowBehind, Ready, Raw, RingInvariant;
    now, next := delivered, w;
    SyncedParts(w, epochs, writer.records.epoch, receiver.records.epoch);
    var ok, raw := receiver.reader.GetMessage();
    if ok {
      TakenIsWritten(w);
      TakeKeepsSync(w, epochs, writer.records.epoch, receiver.records.epoch);
      receiver.reader.NextMessage();
      now := delivered + [raw];
      next := Apply(w, Take);
    }
  }

  /** If a ChangeCipherSpec has come, goes on in the next epoch, unless something is unread. */
  method ReadCipherChange(writer: Writer, receiver: Receiver, ghost w: World, ghost epochs: seq<nat>)
    returns (ok: bool)
    requires Ends(writer, receiver, w, epochs)
    modifies receiver.Repr()
    ensures Ends(writer, receiver, w, epochs) && fresh(receiver.Repr() - old(receiver.Repr()))
    ensures ok <==> old(receiver.reader.hasChangeCipherSpec) && forall slot <- w.inbox.slots :: slot.None?
    ensures ok ==>
              && old(receiver.records.epoch) == 0
              && receiver.records.View() == ReplayWindow.ReadState(1, ReplayWindow.EMPTY)
    ensures !ok ==> receiver.records.View() == old(receiver.records.View())
  {
    hide Synced, Sends, RingInvariant;
    ok := false;
    if receiver.reader.hasChangeCipherSpec {
      var result, outcome := receiver.reader.OpenChangeCipherSpec(SSL3_RT_HANDSHAKE, [], true, Config(0, 0));
      ok := receiver.SetReadState();
      assert receiver.reader.Slots == w.inbox.slots && |w.inbox.slots| == MAX_HANDSHAKE_FLIGHT;
      assert ok <==> forall i | 0 <= i < |w.inbox.slots| :: w.inbox.slots[i].None?;
      if ok {
        SyncedOpens(w, epochs, writer.records.epoch);
      }
    }
  }

  // ----- both together -----

  /** A writer and a receiver that have sent and received nothing yet. */
  method Start(initial: RecordNumbers.Aead) returns (writer: Writer, receiver: Receiver)
    ensures Ends(writer, receiver, START, []) && fresh(writer.Repr()) && fresh(receiver.Repr())
    ensures Recorded([], START.history)
  {
    StartInvariant();
    writer := new Writer(initial);
    receiver := new Receiver();
  }

  lemma DeliversFirstAdded(w: World, added: seq<(byte, seq<byte>)>)
    requires Invariant(w) && Recorded(added, w.history)
    ensures |w.delivered| == w.inbox.readSeq <= |added| == |w.history|
    ensures forall i | 0 <= i < |w.delivered| :: w.delivered[i] == Bytes(Whole(added[i].0, i, added[i].1))
  {
    hide Bytes, SenderInvariant;
  }

  /** Whatever is lost, repeated or reordered between them, wherever the transport refuses, a seal fails or
      the flight is sent again, and whenever either side changes its cipher: the raw messages the receiver has
      handed out are the first ones added to the writer, byte for byte. */
  method Converse(initial: RecordNumbers.Aead, steps: nat)
    returns (added: seq<(byte, seq<byte>)>, delivered: seq<seq<byte>>)
    ensures |delivered| <= |added|
    ensures forall i | 0 <= i < |delivered| :: delivered[i] == Bytes(Whole(added[i].0, i, added[i].1))
  {
    hide Bytes, Ends, Recorded, Invariant;
    var writer, receiver := Start(initial);
    added, delivered := [], [];
    ghost var w, epochs := START, [];
    for i := 0 to steps
      invariant Ends(writer, receiver, w, epochs) && Recorded(added, w.history) && w.delivered == delivered
      invariant fresh(writer.Repr()) && fresh(receiver.Repr())
    {
      var choice: nat := *;
      match choice
      case 0 => added, w, epochs := Add(writer, receiver, w, epochs, added);
      case 1 => w := ChangeCipher(writer, receiver, w, epochs);
      case 2 => w := Transmit(writer, receiver, w, epochs);
      case 3 => w := ArriveAny(writer, receiver, w, epochs);
      case 4 => delivered, w := TakeMessage(writer, receiver, w, epochs, delivered);
      case 5 => var changed := ReadCipherChange(writer, receiver, w, epochs);
      case _ => ArriveForged(writer, receiver, w, epochs);
    }
    EndsInvariant(writer, receiver, w, epochs);
    DeliversFirstAdded(w, added);
  }

  lemma EndsInvariant(writer: Writer, receiver: Receiver, w: World, epochs: seq<nat>)
    requires Ends(writer, receiver, w, epochs)
    ensures Invariant(w) && |w.inbox.slots| == MAX_HANDSHAKE_FLIGHT && receiver.records.epoch <= 1
    ensures Synced(w, epochs, writer.records.epoch, receiver.records.epoch)
  {
    SyncedParts(w, epochs, writer.records.epoch, receiver.records.epoch);
  }

  // ----- one undisturbed retransmission -----

  lemma TakeApplied(w: World, epochs: seq<nat>, writeEpoch: nat, e: nat)
    requires Synced(w, epochs, writeEpoch, e) && |w.inbox.slots| == MAX_HANDSHAKE_FLIGHT && Ready(w.inbox)
    ensures var next := Apply(w, Take); next == w.(inbox := next.inbox, delivered := next.delivered)
    ensures Apply(w, Take).inbox.readSeq == w.inbox.readSeq + 1 <= |w.history|
  {
    hide Ready, Raw;
    TakenIsWritten(w);
  }

  /** Takes messages as long as there are any. */
  method TakeAll(writer: Writer, receiver: Receiver, ghost w: World, ghost epochs: seq<nat>, delivered: seq<seq<byte>>,
                 ghost p: Position, ghost o: Outset, ghost lost: bool)
    returns (now: seq<seq<byte>>, ghost next: World)
    requires Ends(writer, receiver, w, epochs) && w.delivered == delivered
    requires OnWay(w, epochs, p, receiver.records.epoch, o, lost)
    modifies receiver.reader.Repr
    ensures Ends(writer, receiver, next, epochs) && receiver.reader.Repr == old(receiver.reader.Repr)
    ensures receiver.records.View() == old(receiver.records.View())
    ensures next == w.(inbox := next.inbox, delivered := now)
    ensures |next.inbox.slots| == MAX_HANDSHAKE_FLIGHT && !Ready(next.inbox)
    ensures OnWay(next, epochs, p, receiver.records.epoch, o, lost)
  {
    hide Synced, Ready, OnWay, Sends, Receives, WindowBehind, Apply;
    now, next := delivered, w;
    ghost var e := receiver.records.epoch;
    EndsInvariant(writer, receiver, next, epochs);
    var more := true;
    while more
      invariant Ends(writer, receiver, next, epochs) && receiver.reader.Repr == old(receiver.reader.Repr)
      invariant receiver.records.View() == old(receiver.records.View())
      invariant next == w.(inbox := next.inbox, delivered := now) && |next.inbox.slots| == MAX_HANDSHAKE_FLIGHT
      invariant OnWay(next, epochs, p, e, o, lost) && next.inbox.readSeq <= |w.history|
      invariant !more ==> !Ready(next.inbox)
      decreases |w.history| - next.inbox.readSeq, more
    {
      var before := |now|;
      if Ready(next.inbox) {
        TakeApplied(next, epochs, writer.records.epoch, e);
        TakeOnWay(next, epochs, writer.records.epoch, p, e, o, lost);
      }
      now, next := TakeMessage(writer, receiver, next, epochs, now);
      EndsInvariant(writer, receiver, next, epochs);
      more := |now| > before;
    }
  }

  /** The record of the next piece arrives, in its turn; what is complete is taken, and a ChangeCipherSpec is
      followed. `good` says that there was no error. */
  method Meet(writer: Writer, receiver: Receiver, ghost w: World, ghost epochs: seq<nat>, delivered: seq<seq<byte>>,
              piece: Piece, number: (nat, nat), maxMessageLen: nat,
              ghost p: Position, ghost q: Position, ghost rest: seq<Piece>, ghost o: Outset, ghost lost: bool)
    returns (good: bool, now: seq<seq<byte>>, ghost next: World, ghost nowLost: bool)
    requires Ends(writer, receiver, w, epochs) && w.delivered == delivered
    requires |w.inbox.slots| == MAX_HANDSHAKE_FLIGHT && !Ready(w.inbox)
    requires OnWay(w, epochs, p, receiver.records.epoch, o, lost) && FitsAll(w.history, maxMessageLen)
    requires rest != [] && rest[0] == piece && Chain(w.flight, p, rest, Position(|w.flight|, 0))
    requires Advances(w.flight, p, piece, q) && OfMessage(piece, w.wire, epochs)
    requires number in Sealed(writer) && NumberFits(number) && number.0 == piece.epoch
    requires piece.epoch == receiver.records.epoch ==> Judged(receiver.records.View(), number, piece).1.Accept?
    modifies receiver.Repr()
    ensures Ends(writer, receiver, next, epochs) && fresh(receiver.Repr() - old(receiver.Repr()))
    ensures next == w.(inbox := next.inbox, kept := next.kept, delivered := now)
    ensures |next.inbox.slots| == MAX_HANDSHAKE_FLIGHT && !Ready(next.inbox)
    ensures || receiver.records.View() == Judged(old(receiver.records.View()), number, piece).0
            || receiver.records.View() == ReplayWindow.ReadState(1, ReplayWindow.EMPTY)
    ensures good ==>
              && OnWay(next, epochs, q, receiver.records.epoch, o, nowLost) && (lost ==> nowLost)
              && (nowLost && !lost ==> !GetsThrough(w.flight, rest, o))
              && (!nowLost && o.epoch == 1 && piece.FragmentPiece? ==> !TailHeld(piece.fragment, o.seqNo, o.held))
    ensures !good ==> lost || !GetsThrough(w.flight, rest, o)
  {
    hide Synced, Ready, OnWay, Sends, Receives, WindowBehind, Apply, Judged, Receive, Chain, Advances, FitsAll,
         GetsThrough;
    var e := receiver.records.epoch;
    ghost var writeEpoch := writer.records.epoch;
    EndsInvariant(writer, receiver, w, epochs);
    AcceptedEpoch(receiver.records.View(), number, piece);
    good, now, nowLost := true, delivered, lost;
    var result;
    result, next := Arrive(writer, receiver, w, epochs, piece, number, maxMessageLen);
    if piece.epoch != e {
      nowLost := DropOnWay(w, epochs, writeEpoch, p, piece, q, e, o, lost);
      NotThrough(w.flight, rest, o);
    } else if piece.CcsPiece? {
      if e == 1 {
        RefuseOnWay(w, epochs, p, q, o, lost);
        NotThrough(w.flight, rest, o);
        good := false;
      } else {
        OpenOnWay(w, epochs, writeEpoch, p, q, o, lost);
        good := ReadCipherChange(writer, receiver, next, epochs);
      }
    } else {
      ReceiveOnWay(w, epochs, writeEpoch, p, e, piece.fragment, q, rest, o, maxMessageLen, lost);
      good := result.Handled?;
      if good {
        DeliverApplied(w, piece.fragment, Config(e, maxMessageLen));
        now, next := TakeAll(writer, receiver, next, epochs, now, q, o, lost);
      } else {
        assert Receive(w.inbox, Config(e, maxMessageLen), piece.fragment).1.Failed?;
        FailedChangesNothing(w, piece.fragment, e, maxMessageLen);
      }
    }
  }

  lemma FailedChangesNothing(w: World, f: Fragment, e: nat, maxMessageLen: nat)
    requires Invariant(w) && f in w.wire && |w.inbox.slots| == MAX_HANDSHAKE_FLIGHT
    requires Receive(w.inbox, Config(e, maxMessageLen), f).1.Failed?
    ensures Possible(w, Deliver([f], Config(e, maxMessageLen)))
    ensures Apply(w, Deliver([f], Config(e, maxMessageLen))).inbox == w.inbox
  {
    hide Invariant, Receive, ReceiveRecord, KeptOf;
    DeliverOne(w, f, e, maxMessageLen);
  }

  lemma NotThrough(flight: seq<OutgoingMessage>, pieces: seq<Piece>, o: Outset)
    ensures !Readable(flight, o.epoch, o.seqNo) ==> !GetsThrough(flight, pieces, o)
  {
  }

  lemma {:induction false} AllNumbered(packets: seq<Packet>, limit: nat)
    requires forall p <- packets :: SoundPacket(p, limit)
    ensures NumberedRecords(AllPieces(packets), AllNumbers(packets)) && SmallPieces(AllPieces(packets), limit)
  {
    if packets != [] {
      AllNumbered(packets[..|packets| - 1], limit);
      var last := packets[|packets| - 1];
      assert SoundPacket(last, limit);
    }
  }

  lemma NextLink(flight: seq<OutgoingMessage>, p: Position, pieces: seq<Piece>, i: nat, end: Position)
    returns (q: Position)
    requires i < |pieces| && Chain(flight, p, pieces[i..], end)
    ensures Advances(flight, p, pieces[i], q) && Chain(flight, q, pieces[i + 1..], end)
  {
    hide Advances;
    assert pieces[i..][0] == pieces[i] && pieces[i..][1..] == pieces[i + 1..];
    q :| Advances(flight, p, pieces[i], q) && Chain(flight, q, pieces[i + 1..], end);
  }

  /** The next record of a transmission is new to the window. */
  lemma NextIsNew(st: ReplayWindow.ReadState, earlier: seq<(nat, nat)>, numbers: seq<(nat, nat)>, i: nat, piece: Piece)
    requires i < |numbers| && RecordNumbers.Increasing(earlier + numbers) && WindowBehind(st, earlier + numbers[..i])
    requires NumberFits(numbers[i]) && numbers[i].0 == st.epoch && |PlainOf(piece)| <= MAX_PLAIN_LENGTH
    ensures Judged(st, numbers[i], piece).1.Accept?
  {
    hide WindowBehind, Number64;
    var sealed := earlier + numbers[..i];
    assert sealed + [numbers[i]] == (earlier + numbers)[..|earlier| + i + 1];
    IncreasingPrefix(earlier + numbers, |earlier| + i + 1);
    SequenceRoundTrip(numbers[i]);
    NextIsAccepted(st, sealed, numbers[i], |PlainOf(piece)|);
  }

  lemma IncreasingPrefix(sealed: seq<(nat, nat)>, n: nat)
    requires RecordNumbers.Increasing(sealed) && n <= |sealed|
    ensures RecordNumbers.Increasing(sealed[..n])
  {
  }

  lemma StillBehind(st: ReplayWindow.ReadState, after: ReplayWindow.ReadState, earlier: seq<(nat, nat)>,
                    numbers: seq<(nat, nat)>, i: nat, piece: Piece)
    requires i < |numbers| && NumberFits(numbers[i]) && WindowBehind(st, earlier + numbers[..i])
    requires after == Judged(st, numbers[i], piece).0 || after.window == ReplayWindow.EMPTY
    ensures WindowBehind(after, earlier + numbers[..i + 1])
  {
    hide Judged;
    var before, more := earlier + numbers[..i], earlier + numbers[..i + 1];
    assert more == before + [numbers[i]];
    assert more[|before|] == numbers[i];
    BehindMore(st, before, more);
    StaysBehindJudged(st, more, numbers[i], piece);
  }

  /** The records of a pass over the flight arrive, each in its turn and for the first time. */
  method DeliverAll(writer: Writer, receiver: Receiver, ghost w: World, ghost epochs: seq<nat>,
                    delivered: seq<seq<byte>>, pieces: seq<Piece>, numbers: seq<(nat, nat)>, maxMessageLen: nat,
                    ghost earlier: seq<(nat, nat)>, ghost o: Outset)
    returns (good: bool, now: seq<seq<byte>>, ghost next: World)
    requires Ends(writer, receiver, w, epochs) && w.delivered == delivered && w.flightStart <= w.inbox.readSeq
    requires |w.inbox.slots| == MAX_HANDSHAKE_FLIGHT && !Ready(w.inbox) && FitsAll(w.history, maxMessageLen)
    requires o == Outset(receiver.records.epoch, w.inbox.readSeq, HeldOfNext(w.inbox))
    requires Chain(w.flight, Position(0, 0), pieces, Position(|w.flight|, 0))
    requires forall piece <- pieces :: OfMessage(piece, w.wire, epochs) && |PlainOf(piece)| <= MAX_PLAIN_LENGTH
    requires NumberedRecords(pieces, numbers) && Sealed(writer) == earlier + numbers
    requires RecordNumbers.Increasing(Sealed(writer)) && WindowBehind(receiver.records.View(), earlier)
    modifies receiver.Repr()
    ensures Ends(writer, receiver, next, epochs) && fresh(receiver.Repr() - old(receiver.Repr()))
    ensures next == w.(inbox := next.inbox, kept := next.kept, delivered := now)
    ensures good && |now| == |w.history| <==> GetsThrough(w.flight, pieces, o)
  {
    hide Synced, Ready, OnWay, Sends, Receives, WindowBehind, Judged, Chain, FitsAll, GetsThrough, TailHeld, NoTailHeld,
         RecordNumbers.Increasing, PlainOf, HeldOfNext;
    good, now, next := true, delivered, w;
    ghost var p, end, lost := Position(0, 0), Position(|w.flight|, 0), false;
    EndsInvariant(writer, receiver, w, epochs);
    BeginsOnCourse(w, epochs, writer.records.epoch, receiver.records.epoch);
    assert OnWay(w, epochs, p, receiver.records.epoch, o, lost) by {
      OnCourseIsOnWay(w, epochs, p, receiver.records.epoch, o);
    }
    NoneAtStart(o);
    assert earlier + numbers[..0] == earlier && pieces[0..] == pieces && pieces[..0] == [];
    for i := 0 to |pieces|
      invariant Ends(writer, receiver, next, epochs) && fresh(receiver.Repr() - old(receiver.Repr()))
      invariant next == w.(inbox := next.inbox, kept := next.kept, delivered := now)
      invariant |next.inbox.slots| == MAX_HANDSHAKE_FLIGHT && !Ready(next.inbox)
      invariant Chain(w.flight, p, pieces[i..], end) && OnWay(next, epochs, p, receiver.records.epoch, o, lost)
      invariant WindowBehind(receiver.records.View(), earlier + numbers[..i])
      invariant lost ==> !GetsThrough(w.flight, pieces, o)
      invariant !lost && o.epoch == 1 ==> NoTailHeld(pieces[..i], o)
    {
      ghost var q := NextLink(w.flight, p, pieces, i, end);
      ghost var st := receiver.records.View();
      assert Sealed(writer)[|earlier| + i] == numbers[i];
      SealedFits(writer, numbers[i]);
      if numbers[i].0 == receiver.records.epoch {
        NextIsNew(st, earlier, numbers, i, pieces[i]);
      }
      ghost var nowLost;
      good, now, next, nowLost := Meet(writer, receiver, next, epochs, now, pieces[i], numbers[i], maxMessageLen,
                                       p, q, pieces[i..], o, lost);
      StillBehind(st, receiver.records.View(), earlier, numbers, i, pieces[i]);
      if GetsThrough(w.flight, pieces, o) {
        RestOfPass(w.flight, pieces, i, o);
      }
      if !good {
        return;
      }
      if !nowLost && o.epoch == 1 {
        NothingTailHeld(pieces, i, o);
      }
      p, lost := q, nowLost;
    }
    EndsInvariant(writer, receiver, next, epochs);
    assert p == end by { ChainEnds(w.flight, p, end); }
    EndOnWay(next, epochs, writer.records.epoch, receiver.records.epoch, o, lost);
    assert pieces[..|pieces|] == pieces;
    DeliveredCount(next);
    assert !lost ==> GetsThrough(w.flight, pieces, o) by { Through(w.flight, pieces, o); }
  }

  lemma StillIncreasing(before: seq<RecordNumbers.Event>, after: seq<RecordNumbers.Event>, numbers: seq<(nat, nat)>)
    requires RecordNumbers.Sealing(before, after, numbers) && !RecordNumbers.Run(before).ranOut
    requires RecordNumbers.FailedSeals(after) <= RecordNumbers.FailedSeals(before)
    requires RecordNumbers.Run(before).changes < RecordNumbers.EPOCH_SPAN
    ensures RecordNumbers.Increasing(RecordNumbers.Run(after).sealed)
  {
    hide RecordNumbers.Run, RecordNumbers.Increasing, RecordNumbers.FailedSeals;
    RecordNumbers.NoFailureNoRunOut(before, after);
    RecordNumbers.SealedNumbersIncrease(after);
  }

  lemma PiecesAreShort(pieces: seq<Piece>, limit: nat)
    requires SmallPieces(pieces, limit) && limit <= MAX_PLAIN_LENGTH
    ensures forall piece <- pieces :: |PlainOf(piece)| <= MAX_PLAIN_LENGTH
  {
    forall piece <- pieces ensures |PlainOf(piece)| <= MAX_PLAIN_LENGTH {
      if piece.FragmentPiece? {
        assert RecordBytes([piece.fragment]) == Bytes(piece.fragment) + RecordBytes([]);
      }
    }
  }

  lemma PiecesOfMessages(pieces: seq<Piece>, wire: set<Fragment>, epochs: seq<nat>)
    requires FragmentsOf(pieces) <= wire
    requires forall piece <- pieces | piece.FragmentPiece? ::
               piece.fragment.hdr.seqNo < |epochs| && epochs[piece.fragment.hdr.seqNo] == piece.epoch
    ensures forall piece <- pieces :: OfMessage(piece, wire, epochs)
  {
    forall piece <- pieces | piece.FragmentPiece? ensures piece.fragment in wire {
      assert piece.fragment in FragmentsOf(pieces);
    }
  }

  /** Sends the whole flight again. All that is sent is newly numbered, after what was sealed before. */
  method SendAgain(writer: Writer, receiver: Receiver, ghost w: World, ghost epochs: seq<nat>,
                   noQuery: bool, queried: int)
    returns (sent: bool, pieces: seq<Piece>, numbers: seq<(nat, nat)>, ghost next: World)
    requires Ends(writer, receiver, w, epochs)
    requires writer.mtu <= MAX_PLAIN_LENGTH && queried <= MAX_PLAIN_LENGTH
    requires !RecordNumbers.Run(writer.records.events).ranOut
    modifies writer.Repr()
    ensures Ends(writer, receiver, next, epochs) && writer.Repr() == old(writer.Repr())
    ensures next == w.(at := next.at, wire := next.wire)
    ensures !sent ==> || writer.transport.refusals > old(writer.transport.refusals) || writer.Gone()
                      || writer.FailedSeals() > old(writer.FailedSeals()) || writer.Cramped(writer.mtu)
    ensures sent ==>
              && Chain(w.flight, Position(0, 0), pieces, Position(|w.flight|, 0)) && NumberedRecords(pieces, numbers)
              && (forall piece <- pieces :: OfMessage(piece, next.wire, epochs) && |PlainOf(piece)| <= MAX_PLAIN_LENGTH)
              && Sealed(writer) == old(Sealed(writer)) + numbers && RecordNumbers.Increasing(Sealed(writer))
  {
    hide Synced, Chain, FragmentsOf, AllPieces, AllNumbers, OnWire, Tiles, WellFormedFlight, Numbered, WindowBehind,
         RecordNumbers.Sealing, RecordNumbers.Run, RecordNumbers.FailedSeals, RecordNumbers.Increasing,
         Receiver.Valid, Reader.View, SmallPieces, NumberedRecords, PlainOf, OfMessage;
    ghost var before, earlier, start := writer.records.events, Sealed(writer), Position(0, 0);
    ghost var reached, wasted;
    var result, packets, lost;
    RecordNumbers.NumbersFit(before);
    result, packets, lost, reached, wasted := writer.Retransmit(false, noQuery, queried);
    pieces, numbers := AllPieces(packets), AllNumbers(packets);
    SealedOn(writer, before, numbers + wasted);
    next := AfterSending(w, packets, reached, writer.At());
    SentKeepsSync(w, epochs, writer.records.epoch, receiver.records.epoch, start, packets, reached, writer.At());
    PacketsOnWire(old(writer.transport.sent), w.wire, epochs, earlier, packets, wasted);
    BehindMore(receiver.records.View(), earlier, Sealed(writer));
    PiecesOfMessages(pieces, next.wire, epochs);
    sent := result == Done || result == FlushBlocked;
    if sent {
      assert numbers + wasted == numbers;
      StillIncreasing(before, writer.records.events, numbers);
      AllNumbered(packets, writer.mtu);
      PiecesAreShort(pieces, writer.mtu);
    }
  }

  /** Sends the whole flight again, over a channel that this time loses nothing and keeps the order, to a
      receiver that has taken everything before the flight and all that is complete, and that follows a
      ChangeCipherSpec as soon as it comes. Unless the transport refuses, a seal fails or the MTU is too small,
      the receiver gets through the pass without an error and takes every message added if and only if each
      part of the flight meets it in the right epoch. */
  method CatchUp(writer: Writer, receiver: Receiver, ghost w: World, ghost epochs: seq<nat>,
                 added: seq<(byte, seq<byte>)>, delivered: seq<seq<byte>>, maxMessageLen: nat,
                 noQuery: bool, queried: int)
    returns (sent: bool, good: bool, now: seq<seq<byte>>, ghost next: World, pieces: seq<Piece>)
    requires Ends(writer, receiver, w, epochs) && Recorded(added, w.history) && w.delivered == delivered
    requires |w.inbox.slots| == MAX_HANDSHAKE_FLIGHT && !Ready(w.inbox) && w.flightStart <= w.inbox.readSeq
    requires FitsAll(w.history, maxMessageLen)
    requires writer.mtu <= MAX_PLAIN_LENGTH && queried <= MAX_PLAIN_LENGTH
    requires !RecordNumbers.Run(writer.records.events).ranOut
    modifies writer.Repr(), receiver.Repr()
    ensures Ends(writer, receiver, next, epochs) && next.history == w.history && next.delivered == now
    ensures !sent ==> now == delivered && (writer.transport.refusals > old(writer.transport.refusals)
                      || writer.FailedSeals() > old(writer.FailedSeals()) || writer.Gone()
                      || writer.Cramped(writer.mtu))
    ensures sent ==>
              && Chain(w.flight, Position(0, 0), pieces, Position(|w.flight|, 0))
              && var o := Outset(old(receiver.records.epoch), w.inbox.readSeq, HeldOfNext(w.inbox));
                 (good && |now| == |added| <==> GetsThrough(w.flight, pieces, o))
    ensures |now| <= |added| && forall i | 0 <= i < |now| :: now[i] == Bytes(Whole(added[i].0, i, added[i].1))
  {
    hide Synced, Chain, Sends, Receives, Ready, HeldOfNext, RecordNumbers.Run, RecordNumbers.Increasing,
         WindowBehind, NumberedRecords, GetsThrough, Bytes, FitsAll, Recorded, PlainOf, OfMessage;
    ghost var earlier, o := Sealed(writer), Outset(receiver.records.epoch, w.inbox.readSeq, HeldOfNext(w.inbox));
    var numbers;
    sent, pieces, numbers, next := SendAgain(writer, receiver, w, epochs, noQuery, queried);
    good, now := true, delivered;
    if sent {
      good, now, next := DeliverAll(writer, receiver, next, epochs, now, pieces, numbers, maxMessageLen, earlier, o);
    }
    EndsInvariant(writer, receiver, next, epochs);
    DeliversFirstAdded(next, added);
  }
}
