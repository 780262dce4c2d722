/** A receiver that reads a flight from its beginning, in order, where records of another epoch than its
    own are dropped and a ChangeCipherSpec takes it to the next one: when it gets everything. */
module Reception {
  import opened Basics
  import opened BigEndian
  import opened Fragments
  import opened Flight
  import opened Reassembly
  import opened Inbox
  import opened Channel

  predicate IsMessage(m: OutgoingMessage) {
    !m.isCcs && HoldsWhole(m)
  }

  function SeqOf(m: OutgoingMessage): nat
    requires IsMessage(m)
  {
    WholeOf(m).hdr.seqNo
  }

  // ----- the epochs of what is sent -----

  /** Every message of the flight is sent in the epoch it was written in. */
  ghost predicate FlightEpochs(flight: seq<OutgoingMessage>, epochs: seq<nat>) {
    forall m <- flight | IsMessage(m) :: SeqOf(m) < |epochs| && epochs[SeqOf(m)] == m.epoch
  }

  /** A flight up to the writer's `epoch`, which goes up by one at each ChangeCipherSpec and nowhere else. */
  ghost predicate Shape(flight: seq<OutgoingMessage>, epoch: nat) {
    if flight == [] then true
    else
      var earlier, last := flight[..|flight| - 1], flight[|flight| - 1];
      if last.isCcs then last.epoch + 1 == epoch && Shape(earlier, last.epoch)
      else last.epoch == epoch && Shape(earlier, epoch)
  }

  lemma ShapeGrows(flight: seq<OutgoingMessage>, m: OutgoingMessage, epoch: nat)
    requires Shape(flight, epoch) && m.epoch == epoch
    ensures Shape(flight + [m], if m.isCcs then epoch + 1 else epoch)
  {
    assert (flight + [m])[..|flight|] == flight;
  }

  /** What comes later in a flight is in a later epoch, or in the same one with no ChangeCipherSpec between. */
  lemma {:induction false} EpochsRise(flight: seq<OutgoingMessage>, epoch: nat, i: nat, j: nat)
    requires Shape(flight, epoch) && i < j < |flight|
    ensures flight[i].epoch + (if flight[i].isCcs then 1 else 0) <= flight[j].epoch
  {
    var n := |flight| - 1;
    var earlier, last := flight[..n], flight[n];
    if j < n {
      EpochsRise(earlier, if last.isCcs then last.epoch else epoch, i, j);
    } else {
      EpochsBelow(earlier, last.epoch, i);
    }
  }

  lemma {:induction false} EpochsBelow(flight: seq<OutgoingMessage>, epoch: nat, i: nat)
    requires Shape(flight, epoch) && i < |flight|
    ensures flight[i].epoch + (if flight[i].isCcs then 1 else 0) <= epoch
  {
    var n := |flight| - 1;
    if i < n {
      EpochsBelow(flight[..n], flight[n].epoch, i);
    }
  }

  /** The epoch of a receiver that began in epoch `start`, when message `k` of the flight comes. */
  function EpochAt(flight: seq<OutgoingMessage>, k: nat, start: nat): (epoch: nat)
    requires k <= |flight|
    ensures start <= 1 ==> epoch <= 1
    ensures epoch == start || (start == 0 && epoch == 1)
  {
    if k == 0 then start
    else
      var before := EpochAt(flight, k - 1, start);
      if flight[k - 1].isCcs && flight[k - 1].epoch == before == 0 then 1 else before
  }

  /** If the epoch went up there was a ChangeCipherSpec. */
  lemma {:induction false} RoseAt(flight: seq<OutgoingMessage>, k: nat, start: nat) returns (j: nat)
    requires k <= |flight| && EpochAt(flight, k, start) != start
    ensures j < k && flight[j].isCcs && flight[j].epoch == 0
  {
    j := k - 1;
    if EpochAt(flight, k - 1, start) != start {
      j := RoseAt(flight, k - 1, start);
    }
  }

  // ----- the epochs of what is received -----

  /** The receiver in epoch `e` holds only messages of that epoch, in epoch 1 only the next one, and has
      taken only messages of its epoch or before. */
  ghost predicate ReceivedEpochs(inbox: Inbox, epochs: seq<nat>, e: nat) {
    && e <= 1 && inbox.readSeq <= |epochs|
    && (forall slot <- inbox.slots :: SlotEpoch(slot, epochs, e))
    && (e == 1 ==> forall slot <- inbox.slots | slot.Some? :: slot.value.seqNo == inbox.readSeq)
    && forall t | 0 <= t < inbox.readSeq :: epochs[t] <= e
  }

  ghost predicate SlotEpoch(slot: Option<Assembly>, epochs: seq<nat>, e: nat) {
    slot.Some? ==> slot.value.seqNo < |epochs| && epochs[slot.value.seqNo] == e
  }

  /** Both ends of `w`, with the epochs of the messages, the writer's and the reader's. */
  ghost predicate Synced(w: World, epochs: seq<nat>, writeEpoch: nat, e: nat) {
    && Invariant(w) && |epochs| == |w.history|
    && FlightEpochs(w.flight, epochs) && Shape(w.flight, writeEpoch) && Numbered(w.flight, |w.history|)
    && ReceivedEpochs(w.inbox, epochs, e)
  }

  lemma HasSlots(w: World)
    requires Invariant(w)
    ensures |w.inbox.slots| == MAX_HANDSHAKE_FLIGHT && w.inbox.readSeq <= |w.history| <= MAX_MESSAGES
  {
  }

  // ----- the numbers in a flight -----

  lemma NumberIs(w: World, k: nat)
    requires Invariant(w) && Numbered(w.flight, |w.history|) && k < |w.flight| && !w.flight[k].isCcs
    ensures IsMessage(w.flight[k]) && SeqOf(w.flight[k]) + CountFrom(w.flight, k) == |w.history|
    ensures SeqOf(w.flight[k]) < |w.history| && WholeOf(w.flight[k]) == w.history[SeqOf(w.flight[k])]
  {
    hide HoldsWhole, WholeOf, ReceiverInvariant, InFlight, Authentic, Numbered, CountFrom;
    var m := w.flight[k];
    assert Outstanding(w.history, m);
    NumberOfMessage(w.flight, |w.history|, k);
    SomeFrom(w.flight, k);
  }

  lemma InOrder(w: World, i: nat, j: nat)
    requires Invariant(w) && Numbered(w.flight, |w.history|) && i < j < |w.flight|
    requires !w.flight[i].isCcs && !w.flight[j].isCcs
    ensures IsMessage(w.flight[i]) && IsMessage(w.flight[j]) && SeqOf(w.flight[i]) < SeqOf(w.flight[j])
  {
    hide Invariant, IsMessage, SeqOf, Numbered, CountFrom;
    NumberIs(w, i);
    NumberIs(w, j);
    CountsFall(w.flight, i, j);
  }

  /** The messages with smaller numbers, back to the start of the flight, come before. */
  lemma EarlierInFlight(w: World, k: nat, t: nat) returns (j: nat)
    requires Invariant(w) && Numbered(w.flight, |w.history|) && k < |w.flight| && IsMessage(w.flight[k])
    requires w.flightStart <= t < SeqOf(w.flight[k])
    ensures j < k && IsMessage(w.flight[j]) && SeqOf(w.flight[j]) == t
  {
    hide HoldsWhole, WholeOf, ReceiverInvariant, Numbered;
    NumberIs(w, k);
    assert InFlight(w.flight, t);
    j :| 0 <= j < |w.flight| && Carries(w.flight[j], t);
    if j > k {
      InOrder(w, k, j);
    }
  }

  // ----- what a receiver takes -----

  /** A receiver in epoch `e` that began at message `start` gets what it still needs out of `m`, and `m` is
      no error to it: an encrypted message that it has already is, and so is an encrypted
      ChangeCipherSpec. */
  predicate Takes(m: OutgoingMessage, e: nat, start: nat) {
    if !IsMessage(m) then m.epoch != e || e == 0
    else if SeqOf(m) < start then m.epoch != e || e == 0
    else m.epoch == e
  }

  /** Every part of the flight is right for the epoch in which it is met. */
  ghost predicate Readable(flight: seq<OutgoingMessage>, e: nat, start: nat) {
    forall k | 0 <= k < |flight| :: Takes(flight[k], EpochAt(flight, k, e), start)
  }

  /** The fragment ends message `start` and is held already, so that the message is complete and taken
      before the fragment comes. */
  ghost predicate TailHeld(f: Fragment, start: nat, held: set<nat>) {
    && f.hdr.seqNo == start && 0 < f.hdr.fragOff && f.hdr.fragOff + f.hdr.fragLen == f.hdr.msgLen
    && Interval(f.hdr.fragOff, f.hdr.msgLen) <= held
  }

  /** Where a pass begins: the receiver's epoch, its next message, and what it holds of it. */
  datatype Outset = Outset(epoch: nat, seqNo: nat, held: set<nat>)

  /** A pass over the flight in the fragments `pieces` gets everything to a receiver at `o`. */
  ghost predicate GetsThrough(flight: seq<OutgoingMessage>, pieces: seq<Piece>, o: Outset) {
    Readable(flight, o.epoch, o.seqNo) && (o.epoch == 1 ==> NoTailHeld(pieces, o))
  }

  ghost predicate NoTailHeld(pieces: seq<Piece>, o: Outset) {
    forall f <- FragmentsOf(pieces) :: !TailHeld(f, o.seqNo, o.held)
  }

  // ----- a pass that is on course -----

  /** What is held of the next message. */
  ghost function HeldOfNext(inbox: Inbox): set<nat>
    requires |inbox.slots| == MAX_HANDSHAKE_FLIGHT
  {
    var slot := inbox.slots[SlotOf(inbox.readSeq)];
    if slot.Some? then slot.value.got.Keys else {}
  }

  /** Message `seqNo` has come, or a part of it. */
  ghost predicate Begun(flight: seq<OutgoingMessage>, p: Position, seqNo: nat) {
    exists k :: 0 <= k < |flight| && IsMessage(flight[k]) && SeqOf(flight[k]) == seqNo
                && (k < p.written || (k == p.written && p.offset > 0))
  }

  /** What came before `p` has been taken, or is ready to be. */
  ghost predicate Passed(w: World, p: Position)
    requires |w.inbox.slots| == MAX_HANDSHAKE_FLIGHT
  {
    forall k | 0 <= k < p.written && k < |w.flight| && IsMessage(w.flight[k]) ::
      SeqOf(w.flight[k]) < w.inbox.readSeq || (SeqOf(w.flight[k]) == w.inbox.readSeq && Ready(w.inbox))
  }

  /** Of the message at `p` the part before `p` is held, if it is the next one, and no later one has begun. */
  ghost predicate FrontHeld(w: World, p: Position, e: nat)
    requires |w.inbox.slots| == MAX_HANDSHAKE_FLIGHT
  {
    p.written < |w.flight| && IsMessage(w.flight[p.written]) ==>
      var m := w.flight[p.written];
      && (m.epoch == e && SeqOf(m) == w.inbox.readSeq ==> Interval(0, p.offset) <= HeldOfNext(w.inbox))
      && (p.offset > 0 ==> SeqOf(m) <= w.inbox.readSeq)
  }

  /** In epoch 1 nothing is held of the next message but what was held at the outset and has come since;
      only messages that have come are taken; and one that is complete before all of it has come was held
      in part at the outset. */
  ghost predicate Encrypted(w: World, p: Position, o: Outset)
    requires |w.inbox.slots| == MAX_HANDSHAKE_FLIGHT
  {
    && (!Ready(w.inbox) ==>
          HeldOfNext(w.inbox) == (if o.epoch == 1 && o.seqNo == w.inbox.readSeq then o.held else {})
                                 + if IsNext(w, p) then Interval(0, p.offset) else {})
    && (forall t | o.seqNo <= t < w.inbox.readSeq :: Begun(w.flight, p, t))
    && (Ready(w.inbox) ==> Begun(w.flight, p, w.inbox.readSeq))
    && (p.offset > 0 && p.written < |w.flight| && IsMessage(w.flight[p.written]) && w.flight[p.written].epoch == 1
        && Gone(w, SeqOf(w.flight[p.written])) ==>
          var m := w.flight[p.written];
          SeqOf(m) == o.seqNo && o.epoch == 1 && Interval(p.offset, |WholeOf(m).body|) <= o.held)
  }

  ghost predicate IsNext(w: World, p: Position) {
    && p.written < |w.flight| && IsMessage(w.flight[p.written])
    && SeqOf(w.flight[p.written]) == w.inbox.readSeq && w.flight[p.written].epoch == 1
  }

  /** Message `seqNo` was taken or will be before anything else comes. */
  ghost predicate Gone(w: World, seqNo: nat)
    requires |w.inbox.slots| == MAX_HANDSHAKE_FLIGHT
  {
    seqNo < w.inbox.readSeq || (seqNo == w.inbox.readSeq && Ready(w.inbox))
  }

  ghost predicate TakenSoFar(flight: seq<OutgoingMessage>, p: Position, o: Outset) {
    && (forall k | 0 <= k < p.written && k < |flight| :: Takes(flight[k], EpochAt(flight, k, o.epoch), o.seqNo))
    && (p.offset > 0 && p.written < |flight| ==> Takes(flight[p.written], EpochAt(flight, p.written, o.epoch), o.seqNo))
  }

  /** Up to `p` everything came through. */
  ghost predicate OnCourse(w: World, epochs: seq<nat>, p: Position, e: nat, o: Outset) {
    && |w.inbox.slots| == MAX_HANDSHAKE_FLIGHT && p.written <= |w.flight| && PositionValid(w.flight, p)
    && o.epoch <= 1 && e == EpochAt(w.flight, p.written, o.epoch)
    && w.flightStart <= o.seqNo <= w.inbox.readSeq <= |epochs|
    && (forall t | o.seqNo <= t < w.inbox.readSeq :: epochs[t] >= o.epoch)
    && Passed(w, p) && FrontHeld(w, p, e) && (e == 1 ==> Encrypted(w, p, o))
    && TakenSoFar(w.flight, p, o)
  }

  /** Some message, met in the wrong epoch, will not come through in this pass. */
  ghost predicate Astray(w: World, p: Position, e: nat) {
    exists k :: 0 <= k < |w.flight| && Missed(w, p, e, k)
  }

  ghost predicate Missed(w: World, p: Position, e: nat, k: nat)
    requires k < |w.flight|
  {
    && IsMessage(w.flight[k]) && SeqOf(w.flight[k]) >= w.inbox.readSeq && NoneOf(w.inbox, SeqOf(w.flight[k]))
    && (k < p.written || (k == p.written && w.flight[k].epoch != e))
  }

  /** Nothing of message `seqNo` is held. */
  ghost predicate NoneOf(inbox: Inbox, seqNo: nat) {
    forall slot <- inbox.slots :: slot.Some? ==> slot.value.seqNo != seqNo
  }

  // ----- one fragment -----

  ghost predicate FitsAll(history: seq<Fragment>, maxLen: nat) {
    forall m <- history :: |m.body| <= maxLen
  }

  /** A fragment off the wire that comes in a record of its own. */
  lemma DeliverOne(w: World, f: Fragment, e: nat, maxLen: nat)
    requires Invariant(w) && f in w.wire
    ensures |w.inbox.slots| == MAX_HANDSHAKE_FLIGHT
    ensures var config := Config(e, maxLen);
            && Possible(w, Deliver([f], config))
            && ReceiveRecord(w.inbox, config, RecordBytes([f])) == Receive(w.inbox, config, f)
            && Invariant(Apply(w, Deliver([f], config)))
            && (FitsAll(w.history, maxLen) ==>
                  (Receive(w.inbox, config, f).1.Failed? <==>
                    (e == 1 && f.hdr.seqNo != w.inbox.readSeq)
                        || f.hdr.seqNo == w.inbox.readSeq + MAX_HANDSHAKE_FLIGHT))
  {
    hide Receive, ReceiverInvariant, ReceiveRecord, WellFormed, Bytes;
    HasSlots(w);
    assert Authentic(w.history, f);
    AuthenticIsWellFormed(w.history, f);
    RecordOfFragments(w.inbox, Config(e, maxLen), [f]);
    OneOfOne(w.inbox, Config(e, maxLen), f);
    StepKeepsInvariant(w, Deliver([f], Config(e, maxLen)));
    assert InboxAgrees(w.history, w.inbox) by { AgreesIn(w); }
    HonestFragmentRefused(w.history, w.inbox, Config(e, maxLen), f);
  }

  lemma AgreesIn(w: World)
    requires Invariant(w)
    ensures InboxAgrees(w.history, w.inbox)
  {
  }

  lemma OneOfOne(inbox: Inbox, config: Config, f: Fragment)
    requires |inbox.slots| == MAX_HANDSHAKE_FLIGHT
    ensures ReceiveAll(inbox, config, [f]) == Receive(inbox, config, f)
  {
    hide Receive;
    assert [f][1..] == [];
  }

  /** A fragment of the next message adds its bytes to what is held of it, and changes nothing else. */
  lemma ReceiveNext(w: World, f: Fragment, e: nat, maxLen: nat)
    requires Invariant(w) && f in w.wire && FitsAll(w.history, maxLen) && f.hdr.seqNo == w.inbox.readSeq
    requires |w.inbox.slots| == MAX_HANDSHAKE_FLIGHT && !Ready(w.inbox)
    ensures var (next, outcome) := Receive(w.inbox, Config(e, maxLen), f);
            && outcome.Ok? && next.readSeq == w.inbox.readSeq
            && (forall i | 0 <= i < MAX_HANDSHAKE_FLIGHT && i != SlotOf(w.inbox.readSeq) ::
                  next.slots[i] == w.inbox.slots[i])
            && next.slots[SlotOf(w.inbox.readSeq)].Some?
            && next.slots[SlotOf(w.inbox.readSeq)].value.seqNo == w.inbox.readSeq
            && HeldOfNext(next) == HeldOfNext(w.inbox) + Interval(f.hdr.fragOff, f.hdr.fragOff + f.hdr.fragLen)
            && (Ready(next) <==> HeldOfNext(next) == Interval(0, f.hdr.msgLen))
  {
    DeliverOne(w, f, e, maxLen);
    assert Authentic(w.history, f);
    var s := w.inbox.readSeq;
    LookupFindsOwnMessage(w.inbox, s);
    assert Agrees(w.history, w.inbox.slots[SlotOf(s)]);
    assert |f.body| == f.hdr.fragLen;
  }

  // ----- the sender keeps the epochs -----

  lemma SendKeepsSync(w: World, epochs: seq<nat>, writeEpoch: nat, e: nat, next: World)
    requires Synced(w, epochs, writeEpoch, e) && Invariant(next) && next == w.(at := next.at, wire := next.wire)
    ensures Synced(next, epochs, writeEpoch, e)
  {
    hide Invariant;
  }

  lemma WriteKeepsSync(w: World, epochs: seq<nat>, writeEpoch: nat, e: nat, typ: byte, body: seq<byte>, restart: bool)
    requires Synced(w, epochs, writeEpoch, e) && Possible(w, WriteMessage(typ, body, writeEpoch, restart))
    ensures Synced(Apply(w, WriteMessage(typ, body, writeEpoch, restart)), epochs + [writeEpoch], writeEpoch, e)
  {
    hide Invariant, HoldsWhole, WholeOf, Numbered, Shape, WellFormedFlight, Bytes;
    var event := WriteMessage(typ, body, writeEpoch, restart);
    var m := OutgoingMessage(Bytes(Whole(typ, |w.history|, body)), writeEpoch, false);
    HasSlots(w);
    StepKeepsInvariant(w, event);
    WrittenMessage(typ, |w.history|, body, writeEpoch);
    OutgoingKeepsSync(w, epochs, writeEpoch, m, restart);
    ReceivedEpochsGrow(w.inbox, epochs, e, writeEpoch);
  }

  lemma CcsKeepsSync(w: World, epochs: seq<nat>, writeEpoch: nat, e: nat, restart: bool)
    requires Synced(w, epochs, writeEpoch, e) && Possible(w, WriteCcs(writeEpoch, restart))
    ensures Synced(Apply(w, WriteCcs(writeEpoch, restart)), epochs, writeEpoch + 1, e)
  {
    hide Invariant, HoldsWhole, WholeOf, Numbered, Shape, WellFormedFlight;
    HasSlots(w);
    StepKeepsInvariant(w, WriteCcs(writeEpoch, restart));
    OutgoingKeepsSync(w, epochs, writeEpoch, OutgoingMessage([], writeEpoch, true), restart);
  }

  lemma OutgoingKeepsSync(w: World, epochs: seq<nat>, writeEpoch: nat, m: OutgoingMessage, restart: bool)
    requires |epochs| == |w.history| && (m.isCcs || |w.history| < MAX_MESSAGES)
    requires FlightEpochs(w.flight, epochs) && Shape(w.flight, writeEpoch) && Numbered(w.flight, |w.history|)
    requires m.epoch == writeEpoch && (m.isCcs || (HoldsWhole(m) && WholeOf(m).hdr.seqNo == |w.history|))
    requires Invariant(w)
    ensures var flight := Outgoing(w, m, restart).flight;
            && Shape(flight, if m.isCcs then writeEpoch + 1 else writeEpoch)
            && FlightEpochs(flight, if m.isCcs then epochs else epochs + [writeEpoch])
            && Numbered(flight, |w.history| + if m.isCcs then 0 else 1)
  {
    hide Invariant, HoldsWhole, WholeOf, Numbered, Shape, PositionValid;
    var before := if restart then [] else w.flight;
    assert Shape([], writeEpoch) by { NoFlight(writeEpoch, |w.history|); }
    NoFlight(writeEpoch, |w.history|);
    ShapeGrows(before, m, writeEpoch);
    assert WellFormedFlight(before) && PositionValid(before, Position(0, 0)) by {
      FlightIsWellFormed(w);
      EmptyFlight(|w.history|);
    }
    FlightGrows(before, m, |w.history|, Position(0, 0));
    assert Outgoing(w, m, restart).flight == before + [m];
  }

  lemma NoFlight(epoch: nat, next: nat)
    ensures Shape([], epoch) && Numbered([], next) && PositionValid([], Position(0, 0))
  {
  }

  lemma FlightIsWellFormed(w: World)
    requires Invariant(w)
    ensures WellFormedFlight(w.flight) && PositionValid(w.flight, Position(0, 0))
  {
    assert forall m <- w.flight :: Outstanding(w.history, m);
  }

  lemma ReceivedEpochsGrow(inbox: Inbox, epochs: seq<nat>, e: nat, epoch: nat)
    requires ReceivedEpochs(inbox, epochs, e)
    ensures ReceivedEpochs(inbox, epochs + [epoch], e)
  {
    forall slot <- inbox.slots ensures SlotEpoch(slot, epochs + [epoch], e) {
      assert SlotEpoch(slot, epochs, e);
    }
  }

  /** Every fragment sent is in the epoch of its message. */
  lemma {:induction false} SentInItsEpoch(flight: seq<OutgoingMessage>, epochs: seq<nat>, p: Position,
                                          pieces: seq<Piece>, end: Position)
    requires FlightEpochs(flight, epochs) && Chain(flight, p, pieces, end)
    ensures forall piece <- pieces | piece.FragmentPiece? ::
              piece.fragment.hdr.seqNo < |epochs| && epochs[piece.fragment.hdr.seqNo] == piece.epoch
    decreases |pieces|
  {
    hide HoldsWhole, WholeOf;
    if pieces != [] {
      var mid :| Advances(flight, p, pieces[0], mid) && Chain(flight, mid, pieces[1..], end);
      SentInItsEpoch(flight, epochs, mid, pieces[1..], end);
      assert flight[p.written] in flight;
      assert pieces == [pieces[0]] + pieces[1..];
    }
  }

  // ----- the epochs of the receiver are kept -----

  lemma TakeKeepsSync(w: World, epochs: seq<nat>, writeEpoch: nat, e: nat)
    requires Synced(w, epochs, writeEpoch, e) && |w.inbox.slots| == MAX_HANDSHAKE_FLIGHT && Ready(w.inbox)
    ensures Synced(Apply(w, Take), epochs, writeEpoch, e)
    ensures e == 1 ==> forall slot <- Apply(w, Take).inbox.slots :: slot.None?
  {
    hide Invariant, FlightEpochs, Shape, Numbered, Complete, Raw;
    StepKeepsInvariant(w, Take);
    HasSlots(w);
    HasSlots(Apply(w, Take));
    AgreesIn(w);
    LookupFindsOwnMessage(w.inbox, w.inbox.readSeq);
    var i := SlotOf(w.inbox.readSeq);
    assert SlotEpoch(w.inbox.slots[i], epochs, e);
    assert w.inbox.readSeq < MAX_MESSAGES by { TakenIsWritten(w); }
    var after := Apply(w, Take).inbox;
    forall j | 0 <= j < MAX_HANDSHAKE_FLIGHT
      ensures SlotEpoch(after.slots[j], epochs, e) && (e == 1 ==> after.slots[j].None?)
    {
      assert SlotEpoch(w.inbox.slots[j], epochs, e);
      assert SlotInvariant(w.inbox.slots[j], j, w.inbox.readSeq);
    }
  }

  lemma TakenIsWritten(w: World)
    requires Invariant(w) && |w.inbox.slots| == MAX_HANDSHAKE_FLIGHT && Ready(w.inbox)
    ensures w.inbox.readSeq < |w.history| <= MAX_MESSAGES
  {
    var slot := w.inbox.slots[SlotOf(w.inbox.readSeq)];
    LookupFindsOwnMessage(w.inbox, w.inbox.readSeq);
    assert Agrees(w.history, slot);
  }

  /** A fragment of the receiver's epoch keeps the epochs of what it holds, whether it is an error or not. */
  lemma DeliverKeepsSync(w: World, epochs: seq<nat>, writeEpoch: nat, e: nat, f: Fragment, maxLen: nat)
    requires Synced(w, epochs, writeEpoch, e) && f in w.wire && f.hdr.seqNo < |epochs| && epochs[f.hdr.seqNo] == e
    ensures Possible(w, Deliver([f], Config(e, maxLen)))
    ensures Synced(Apply(w, Deliver([f], Config(e, maxLen))), epochs, writeEpoch, e)
  {
    hide Invariant, FlightEpochs, Shape, Numbered, ReceiveRecord, RecordBytes, KeptOf, Absorb;
    DeliverOne(w, f, e, maxLen);
    var config := Config(e, maxLen);
    var next := Receive(w.inbox, config, f).0;
    AgreesIn(w);
    AbsorbKeepsNumber(w.inbox, config, f);
    forall slot <- next.slots
      ensures SlotEpoch(slot, epochs, e) && (e == 1 && slot.Some? ==> slot.value.seqNo == w.inbox.readSeq)
    {
    }
  }

  /** A slot that changed is the fragment's message's. */
  lemma AbsorbKeepsNumber(inbox: Inbox, config: Config, f: Fragment)
    requires |inbox.slots| == MAX_HANDSHAKE_FLIGHT && RingInvariant(inbox)
    ensures forall slot <- Receive(inbox, config, f).0.slots ::
              slot in inbox.slots || (Receive(inbox, config, f).1.Ok? && slot.Some? && slot.value.seqNo == f.hdr.seqNo)
  {
    if inbox.readSeq <= f.hdr.seqNo < inbox.readSeq + MAX_HANDSHAKE_FLIGHT {
      LookupFindsOwnMessage(inbox, f.hdr.seqNo);
    }
  }

  // ----- a pass begins and ends -----

  lemma BeginsOnCourse(w: World, epochs: seq<nat>, writeEpoch: nat, e: nat)
    requires Synced(w, epochs, writeEpoch, e) && |w.inbox.slots| == MAX_HANDSHAKE_FLIGHT && !Ready(w.inbox)
    requires w.flightStart <= w.inbox.readSeq
    ensures OnCourse(w, epochs, Position(0, 0), e, Outset(e, w.inbox.readSeq, HeldOfNext(w.inbox)))
  {
    hide Invariant, Ready;
  }

  lemma FlightHas(w: World, t: nat) returns (k: nat)
    requires Invariant(w) && w.flightStart <= t < |w.history|
    ensures k < |w.flight| && IsMessage(w.flight[k]) && SeqOf(w.flight[k]) == t
  {
    hide HoldsWhole, WholeOf, ReceiverInvariant;
    assert InFlight(w.flight, t);
    k :| 0 <= k < |w.flight| && Carries(w.flight[k], t);
  }

  lemma EndsWithAll(w: World, epochs: seq<nat>, writeEpoch: nat, e: nat, o: Outset)
    requires Synced(w, epochs, writeEpoch, e) && OnCourse(w, epochs, Position(|w.flight|, 0), e, o) && !Ready(w.inbox)
    ensures w.inbox.readSeq == |w.history| && Readable(w.flight, o.epoch, o.seqNo)
  {
    hide Invariant, IsMessage, SeqOf, FlightEpochs, ReceivedEpochs, Ready, Shape, Numbered, Takes, Encrypted, FrontHeld;
    HasSlots(w);
    if w.flightStart < |w.history| {
      var k := FlightHas(w, |w.history| - 1);
      assert SeqOf(w.flight[k]) < w.inbox.readSeq;
    }
    assert TakenSoFar(w.flight, Position(|w.flight|, 0), o);
  }

  lemma AstrayMisses(w: World, p: Position, e: nat)
    requires Invariant(w) && Numbered(w.flight, |w.history|) && Astray(w, p, e)
    ensures w.inbox.readSeq < |w.history|
  {
    hide Invariant, Numbered;
    var k :| 0 <= k < |w.flight| && Missed(w, p, e, k);
    NumberIs(w, k);
  }

  // ----- taking a message -----

  lemma TakeOnCourse(w: World, epochs: seq<nat>, writeEpoch: nat, p: Position, e: nat, o: Outset)
    requires Synced(w, epochs, writeEpoch, e) && OnCourse(w, epochs, p, e, o) && Ready(w.inbox)
    ensures OnCourse(Apply(w, Take), epochs, p, e, o)
  {
    hide Invariant, FlightEpochs, Shape, Numbered, Raw, TakenSoFar, Complete, Encrypted;
    var after := Apply(w, Take);
    var s := w.inbox.readSeq;
    TakenIsWritten(w);
    TakeKeepsSync(w, epochs, writeEpoch, e);
    assert after.inbox.readSeq == s + 1;
    AgreesIn(w);
    LookupFindsOwnMessage(w.inbox, s);
    assert SlotEpoch(w.inbox.slots[SlotOf(s)], epochs, e);
    assert Passed(after, p);
    NotBegunYet(w, p, e);
    assert FrontHeld(after, p, e);
    if e == 1 {
      TakeEncrypted(w, p, o);
    }
  }

  /** Nothing of the message after the next has come. */
  lemma NotBegunYet(w: World, p: Position, e: nat)
    requires |w.inbox.slots| == MAX_HANDSHAKE_FLIGHT && FrontHeld(w, p, e)
    ensures p.written < |w.flight| && IsMessage(w.flight[p.written]) && SeqOf(w.flight[p.written]) > w.inbox.readSeq ==>
              p.offset == 0
  {
    hide IsMessage, SeqOf;
  }

  lemma TakeEncrypted(w: World, p: Position, o: Outset)
    requires |w.inbox.slots| == MAX_HANDSHAKE_FLIGHT && Ready(w.inbox) && w.inbox.readSeq + 1 < SEQ_SPAN
    requires Encrypted(w, p, o) && FrontHeld(w, p, 1) && o.seqNo <= w.inbox.readSeq
    requires forall slot <- Apply(w, Take).inbox.slots :: slot.None?
    ensures Encrypted(Apply(w, Take), p, o)
  {
    hide IsMessage, SeqOf, Raw, Complete, Begun;
    var after := Apply(w, Take);
    NotBegunYet(w, p, 1);
    assert after.inbox.slots[SlotOf(after.inbox.readSeq)] in after.inbox.slots;
    assert HeldOfNext(after.inbox) == {};
  }

  lemma TakeAstray(w: World, epochs: seq<nat>, writeEpoch: nat, p: Position, e: nat)
    requires Synced(w, epochs, writeEpoch, e) && Astray(w, p, e)
    requires |w.inbox.slots| == MAX_HANDSHAKE_FLIGHT && Ready(w.inbox)
    ensures Astray(Apply(w, Take), p, e)
  {
    hide Invariant, FlightEpochs, Shape, Numbered, Raw, Complete;
    var k :| 0 <= k < |w.flight| && Missed(w, p, e, k);
    TakenIsWritten(w);
    AgreesIn(w);
    LookupFindsOwnMessage(w.inbox, w.inbox.readSeq);
    assert w.inbox.slots[SlotOf(w.inbox.readSeq)] in w.inbox.slots;
    assert Missed(Apply(w, Take), p, e, k);
  }

  // ----- one piece of the flight -----

  /** The epoch is the receiver's after the message at `p` unless that is a ChangeCipherSpec it opens. */
  lemma EpochGoesOn(flight: seq<OutgoingMessage>, p: Position, piece: Piece, q: Position, start: nat)
    requires Advances(flight, p, piece, q)
    ensures q.written <= |flight| && (q.written == p.written || (q.written == p.written + 1 && q.offset == 0))
    ensures var opens := flight[p.written].isCcs && flight[p.written].epoch == EpochAt(flight, p.written, start) == 0;
            EpochAt(flight, q.written, start) == if opens then 1 else EpochAt(flight, p.written, start)
  {
  }

  lemma TakesOn(flight: seq<OutgoingMessage>, p: Position, piece: Piece, q: Position, o: Outset)
    requires Advances(flight, p, piece, q) && TakenSoFar(flight, p, o)
    requires Takes(flight[p.written], EpochAt(flight, p.written, o.epoch), o.seqNo)
    ensures TakenSoFar(flight, q, o)
  {
    hide Takes, EpochAt;
  }

  lemma AdvancesValid(flight: seq<OutgoingMessage>, p: Position, piece: Piece, q: Position)
    requires Advances(flight, p, piece, q)
    ensures PositionValid(flight, q)
  {
  }

  /** A ChangeCipherSpec that is not opened, or a part of a message taken before the pass began. */
  lemma PassesBy(w: World, epochs: seq<nat>, p: Position, piece: Piece, q: Position, e: nat, o: Outset)
    requires OnCourse(w, epochs, p, e, o) && !Ready(w.inbox) && Advances(w.flight, p, piece, q)
    requires var m := w.flight[p.written];
             && Takes(m, e, o.seqNo) && (IsMessage(m) ==> SeqOf(m) < o.seqNo) && !(m.isCcs && m.epoch == e == 0)
    ensures OnCourse(w, epochs, q, e, o)
  {
    hide Ready, TakenSoFar, HoldsWhole, WholeOf, PositionValid, Advances, Begun;
    EpochGoesOn(w.flight, p, piece, q, o.epoch);
    TakesOn(w.flight, p, piece, q, o);
    AdvancesValid(w.flight, p, piece, q);
    BegunGrows(w.flight, p, piece, q);
    assert Passed(w, q) && FrontHeld(w, q, e);
  }

  lemma BegunGrows(flight: seq<OutgoingMessage>, p: Position, piece: Piece, q: Position)
    requires Advances(flight, p, piece, q)
    ensures forall t :: Begun(flight, p, t) ==> Begun(flight, q, t)
    ensures IsMessage(flight[p.written]) ==> Begun(flight, q, SeqOf(flight[p.written]))
  {
    hide IsMessage, SeqOf;
    forall t | Begun(flight, p, t) ensures Begun(flight, q, t) {
      var k :| 0 <= k < |flight| && IsMessage(flight[k]) && SeqOf(flight[k]) == t
               && (k < p.written || (k == p.written && p.offset > 0));
      assert k < q.written || (k == q.written && q.offset > 0) by { AdvancesOn(flight, p, piece, q); }
    }
    if IsMessage(flight[p.written]) {
      AdvancesOn(flight, p, piece, q);
      assert p.written < q.written || (p.written == q.written && q.offset > 0);
    }
  }

  lemma AdvancesOn(flight: seq<OutgoingMessage>, p: Position, piece: Piece, q: Position)
    requires Advances(flight, p, piece, q)
    ensures p.written < q.written || (p.written == q.written && q.offset > 0)
  {
  }

  /** A part of a message still needed that comes in the wrong epoch. */
  lemma GoesAstray(w: World, epochs: seq<nat>, writeEpoch: nat, p: Position, piece: Piece, q: Position, e: nat,
                   o: Outset)
    requires Synced(w, epochs, writeEpoch, e) && OnCourse(w, epochs, p, e, o) && Advances(w.flight, p, piece, q)
    requires var m := w.flight[p.written]; IsMessage(m) && SeqOf(m) >= o.seqNo && m.epoch != e
    ensures Astray(w, q, e) && !Readable(w.flight, o.epoch, o.seqNo)
  {
    hide Invariant, HoldsWhole, WholeOf, Ready, Numbered, Passed, FrontHeld, Encrypted, TakenSoFar;
    var k := p.written;
    var m := w.flight[k];
    var s := SeqOf(m);
    assert epochs[s] == m.epoch;
    assert !Takes(m, EpochAt(w.flight, k, o.epoch), o.seqNo);
    if s < w.inbox.readSeq {
      var j := RoseAt(w.flight, k, o.epoch);
      EpochsRise(w.flight, writeEpoch, j, k);
    }
    assert Missed(w, q, e, k);
  }

  /** On course no message comes before its turn. */
  lemma NotAhead(w: World, epochs: seq<nat>, writeEpoch: nat, p: Position, e: nat, o: Outset)
    requires Synced(w, epochs, writeEpoch, e) && OnCourse(w, epochs, p, e, o) && !Ready(w.inbox)
    requires p.written < |w.flight| && IsMessage(w.flight[p.written])
    ensures SeqOf(w.flight[p.written]) <= w.inbox.readSeq
  {
    hide Invariant, IsMessage, SeqOf, Ready, Numbered, FlightEpochs, ReceivedEpochs, Shape, FrontHeld, Encrypted,
         TakenSoFar, EpochAt;
    if SeqOf(w.flight[p.written]) > w.inbox.readSeq {
      var j := EarlierInFlight(w, p.written, w.inbox.readSeq);
      assert false;
    }
  }

  /** What is numbered `t` and in epoch 0 comes before the ChangeCipherSpec at `p`. */
  lemma BeforeCcs(w: World, epochs: seq<nat>, writeEpoch: nat, p: Position, t: nat) returns (k: nat)
    requires Invariant(w) && |epochs| == |w.history| && FlightEpochs(w.flight, epochs) && Shape(w.flight, writeEpoch)
    requires p.written < |w.flight| && w.flight[p.written].isCcs && w.flight[p.written].epoch == 0
    requires w.flightStart <= t < |w.history| && epochs[t] == 0
    ensures k < p.written && IsMessage(w.flight[k]) && SeqOf(w.flight[k]) == t
  {
    hide Invariant, HoldsWhole, SeqOf;
    k := FlightHas(w, t);
    if k > p.written {
      EpochsRise(w.flight, writeEpoch, p.written, k);
    }
  }

  /** At the ChangeCipherSpec nothing is left unread, and the receiver goes on in the next epoch. */
  lemma OpensCcs(w: World, epochs: seq<nat>, writeEpoch: nat, p: Position, piece: Piece, q: Position, o: Outset)
    requires Synced(w, epochs, writeEpoch, 0) && OnCourse(w, epochs, p, 0, o) && !Ready(w.inbox)
    requires Advances(w.flight, p, piece, q) && p.written < |w.flight|
    requires w.flight[p.written].isCcs && w.flight[p.written].epoch == 0
    ensures forall slot <- w.inbox.slots :: slot.None?
    ensures Synced(w, epochs, writeEpoch, 1) && OnCourse(w, epochs, q, 1, o)
  {
    hide Invariant, HoldsWhole, SeqOf, Ready, Numbered, Shape, TakenSoFar, Begun, PositionValid, Advances;
    HasSlots(w);
    AgreesIn(w);
    forall slot <- w.inbox.slots ensures slot.None? {
      assert SlotEpoch(slot, epochs, 0) && Agrees(w.history, slot);
      if slot.Some? {
        SlotIsAhead(w.inbox, slot);
        var k := BeforeCcs(w, epochs, writeEpoch, p, slot.value.seqNo);
      }
    }
    EpochGoesOn(w.flight, p, piece, q, o.epoch);
    TakesOn(w.flight, p, piece, q, o);
    AdvancesValid(w.flight, p, piece, q);
    forall t | o.seqNo <= t < w.inbox.readSeq ensures Begun(w.flight, q, t) {
      var k := BeforeCcs(w, epochs, writeEpoch, p, t);
      ComesBegun(w.flight, q, k);
    }
    assert Passed(w, q) && FrontHeld(w, q, 1);
    assert w.inbox.slots[SlotOf(w.inbox.readSeq)] in w.inbox.slots;
    assert HeldOfNext(w.inbox) == {};
    assert Encrypted(w, q, o);
  }

  lemma SlotIsAhead(inbox: Inbox, slot: Option<Assembly>)
    requires RingInvariant(inbox) && slot in inbox.slots && slot.Some?
    ensures inbox.readSeq <= slot.value.seqNo
  {
    var i :| 0 <= i < |inbox.slots| && inbox.slots[i] == slot;
    assert SlotInvariant(inbox.slots[i], i, inbox.readSeq);
  }

  lemma ComesBegun(flight: seq<OutgoingMessage>, q: Position, k: nat)
    requires k < |flight| && k < q.written && IsMessage(flight[k])
    ensures Begun(flight, q, SeqOf(flight[k]))
  {
  }

  /** In epoch 0 a fragment of a message taken already is ignored. */
  lemma OldIsIgnored(w: World, epochs: seq<nat>, writeEpoch: nat, p: Position, f: Fragment, q: Position, o: Outset,
                     maxLen: nat)
    requires Synced(w, epochs, writeEpoch, 0) && OnCourse(w, epochs, p, 0, o) && !Ready(w.inbox)
    requires Advances(w.flight, p, FragmentPiece(0, f), q) && f in w.wire && FitsAll(w.history, maxLen)
    requires f.hdr.seqNo < w.inbox.readSeq
    ensures Possible(w, Deliver([f], Config(0, maxLen)))
    ensures var after := Apply(w, Deliver([f], Config(0, maxLen)));
            after.inbox == w.inbox && OnCourse(after, epochs, q, 0, o)
  {
    hide Invariant, HoldsWhole, WholeOf, Ready, Numbered, Shape, TakenSoFar, Begun, PositionValid, ReceiveRecord,
         RecordBytes, KeptOf;
    DeliverOne(w, f, 0, maxLen);
    EpochGoesOn(w.flight, p, FragmentPiece(0, f), q, o.epoch);
    TakesOn(w.flight, p, FragmentPiece(0, f), q, o);
    AdvancesValid(w.flight, p, FragmentPiece(0, f), q);
  }

  /** The last fragment of a message of which a part was sent. */
  lemma {:induction false} LastFragment(flight: seq<OutgoingMessage>, p: Position, rest: seq<Piece>)
    returns (f: Fragment)
    requires p.written < |flight| && IsMessage(flight[p.written]) && PositionValid(flight, p)
    requires Chain(flight, p, rest, Position(|flight|, 0))
    ensures f in FragmentsOf(rest) && f.hdr.seqNo == SeqOf(flight[p.written])
    ensures var len := |WholeOf(flight[p.written]).body|;
            && f.hdr.fragOff >= p.offset && f.hdr.fragOff + f.hdr.fragLen == len == f.hdr.msgLen
    decreases |rest|
  {
    hide HoldsWhole, WholeOf, FragmentsOf;
    var mid :| Advances(flight, p, rest[0], mid) && Chain(flight, mid, rest[1..], Position(|flight|, 0));
    WholeLength(flight[p.written]);
    FirstFragment(rest);
    if mid.written == p.written {
      AdvancesValid(flight, p, rest[0], mid);
      f := LastFragment(flight, mid, rest[1..]);
    } else {
      f := rest[0].fragment;
    }
  }

  lemma WholeLength(m: OutgoingMessage)
    requires HoldsWhole(m)
    ensures var whole := WholeOf(m); whole.hdr.msgLen == whole.hdr.fragLen == |whole.body| && whole.hdr.fragOff == 0
  {
  }

  lemma FirstFragment(pieces: seq<Piece>)
    requires pieces != []
    ensures FragmentsOf(pieces[1..]) <= FragmentsOf(pieces)
    ensures pieces[0].FragmentPiece? ==> pieces[0].fragment in FragmentsOf(pieces)
  {
  }

  /** In epoch 1 a fragment of a message taken already is an error, and the pass was bound to fail. */
  lemma {:induction false} OldIsError(w: World, epochs: seq<nat>, writeEpoch: nat, p: Position, f: Fragment,
                                      rest: seq<Piece>, o: Outset)
    requires Synced(w, epochs, writeEpoch, 1) && OnCourse(w, epochs, p, 1, o) && !Ready(w.inbox)
    requires rest != [] && rest[0] == FragmentPiece(1, f) && Chain(w.flight, p, rest, Position(|w.flight|, 0))
    requires f.hdr.seqNo < w.inbox.readSeq
    ensures !(Readable(w.flight, o.epoch, o.seqNo) && (o.epoch == 1 ==> NoTailHeld(rest, o)))
  {
    hide Invariant, HoldsWhole, WholeOf, Ready, Numbered, Shape, TakenSoFar, FragmentsOf, PositionValid, EpochAt;
    var mid :| Advances(w.flight, p, rest[0], mid) && Chain(w.flight, mid, rest[1..], Position(|w.flight|, 0));
    var m := w.flight[p.written];
    WholeLength(m);
    if SeqOf(m) < o.seqNo {
      assert !Takes(m, EpochAt(w.flight, p.written, o.epoch), o.seqNo);
    } else {
      assert Begun(w.flight, p, SeqOf(m));
      var k :| 0 <= k < |w.flight| && IsMessage(w.flight[k]) && SeqOf(w.flight[k]) == SeqOf(m)
               && (k < p.written || (k == p.written && p.offset > 0));
      if k < p.written {
        InOrder(w, k, p.written);
      }
      assert p.offset > 0;
      var last := LastFragment(w.flight, p, rest);
      assert TailHeld(last, o.seqNo, o.held);
    }
  }

  /** The bytes up to `q` are held once the fragment from `p` to `q` has come. */
  lemma FrontGrows(w: World, after: World, p: Position, e: nat, f: Fragment, q: Position)
    requires |w.inbox.slots| == |after.inbox.slots| == MAX_HANDSHAKE_FLIGHT && after.flight == w.flight
    requires Invariant(w) && Numbered(w.flight, |w.history|)
    requires Advances(w.flight, p, FragmentPiece(e, f), q) && Passed(w, p) && FrontHeld(w, p, e) && !Ready(w.inbox)
    requires f.hdr.seqNo == w.inbox.readSeq == after.inbox.readSeq
    requires HeldOfNext(after.inbox) == HeldOfNext(w.inbox) + Interval(f.hdr.fragOff, f.hdr.fragOff + f.hdr.fragLen)
    requires Ready(after.inbox) <==> HeldOfNext(after.inbox) == Interval(0, f.hdr.msgLen)
    requires HeldOfNext(after.inbox) <= Interval(0, f.hdr.msgLen)
    ensures Passed(after, q) && FrontHeld(after, q, e)
    ensures q.written > p.written ==> Ready(after.inbox)
  {
    hide Invariant, HoldsWhole, WholeOf, Ready, Numbered, HeldOfNext;
    WholeLength(w.flight[p.written]);
    if q.written < |w.flight| && q.written > p.written && !w.flight[q.written].isCcs {
      InOrder(w, p.written, q.written);
    }
  }

  /** What is held is inside the message. */
  lemma HeldInside(w: World, f: Fragment)
    requires Invariant(w) && |w.inbox.slots| == MAX_HANDSHAKE_FLIGHT && f in w.wire && f.hdr.seqNo == w.inbox.readSeq
    ensures HeldOfNext(w.inbox) <= Interval(0, f.hdr.msgLen)
  {
    assert Authentic(w.history, f);
    LookupFindsOwnMessage(w.inbox, w.inbox.readSeq);
    assert Agrees(w.history, w.inbox.slots[SlotOf(w.inbox.readSeq)]);
  }

  lemma EncryptedGoesOn(w: World, after: World, p: Position, f: Fragment, q: Position, o: Outset)
    requires |w.inbox.slots| == |after.inbox.slots| == MAX_HANDSHAKE_FLIGHT && after.flight == w.flight
    requires Invariant(w) && Numbered(w.flight, |w.history|) && PositionValid(w.flight, p) && o.seqNo <= w.inbox.readSeq
    requires Advances(w.flight, p, FragmentPiece(1, f), q) && Encrypted(w, p, o) && !Ready(w.inbox)
    requires f.hdr.seqNo == w.inbox.readSeq == after.inbox.readSeq
    requires HeldOfNext(after.inbox) == HeldOfNext(w.inbox) + Interval(f.hdr.fragOff, f.hdr.fragOff + f.hdr.fragLen)
    requires Ready(after.inbox) <==> HeldOfNext(after.inbox) == Interval(0, f.hdr.msgLen)
    requires HeldOfNext(after.inbox) <= Interval(0, f.hdr.msgLen)
    requires HeldOfNext(w.inbox) != Interval(0, f.hdr.msgLen) || f.hdr.msgLen == 0
    requires q.written > p.written ==> Ready(after.inbox)
    ensures Encrypted(after, q, o) && (o.epoch == 1 ==> !TailHeld(f, o.seqNo, o.held))
  {
    hide Invariant, HoldsWhole, WholeOf, Ready, Numbered, HeldOfNext, Begun;
    var m := w.flight[p.written];
    WholeLength(m);
    BegunGrows(w.flight, p, FragmentPiece(1, f), q);
    assert IsNext(w, p);
    assert Interval(0, p.offset) + Interval(p.offset, p.offset + f.hdr.fragLen) ==
           Interval(0, p.offset + f.hdr.fragLen);
  }

  /** The next fragment of the next message is received, and was not held as a message's end already. */
  lemma NextIsReceived(w: World, epochs: seq<nat>, writeEpoch: nat, p: Position, e: nat, f: Fragment, q: Position,
                       o: Outset, maxLen: nat)
    requires Synced(w, epochs, writeEpoch, e) && OnCourse(w, epochs, p, e, o) && !Ready(w.inbox)
    requires Advances(w.flight, p, FragmentPiece(e, f), q) && f in w.wire && FitsAll(w.history, maxLen)
    requires f.hdr.seqNo == w.inbox.readSeq
    ensures Possible(w, Deliver([f], Config(e, maxLen)))
    ensures OnCourse(Apply(w, Deliver([f], Config(e, maxLen))), epochs, q, e, o)
    ensures o.epoch == 1 ==> !TailHeld(f, o.seqNo, o.held)
  {
    hide Invariant, HoldsWhole, WholeOf, Ready, Numbered, Shape, TakenSoFar, Begun, PositionValid, ReceiveRecord,
         RecordBytes, KeptOf, Receive, EpochAt, HeldOfNext, Encrypted, Passed, FrontHeld;
    var after := Apply(w, Deliver([f], Config(e, maxLen)));
    var piece := FragmentPiece(e, f);
    DeliverOne(w, f, e, maxLen);
    ReceiveNext(w, f, e, maxLen);
    HeldInside(w, f);
    HeldInside(after, f);
    EpochGoesOn(w.flight, p, piece, q, o.epoch);
    TakesOn(w.flight, p, piece, q, o);
    AdvancesValid(w.flight, p, piece, q);
    FrontGrows(w, after, p, e, f, q);
    if e == 1 {
      NotYetWhole(w, f);
      EncryptedGoesOn(w, after, p, f, q, o);
    }
  }

  lemma NotYetWhole(w: World, f: Fragment)
    requires Invariant(w) && |w.inbox.slots| == MAX_HANDSHAKE_FLIGHT && f in w.wire && f.hdr.seqNo == w.inbox.readSeq
    requires !Ready(w.inbox)
    ensures HeldOfNext(w.inbox) != Interval(0, f.hdr.msgLen) || f.hdr.msgLen == 0
  {
    assert Authentic(w.history, f);
    LookupFindsOwnMessage(w.inbox, w.inbox.readSeq);
    assert Agrees(w.history, w.inbox.slots[SlotOf(w.inbox.readSeq)]);
    if f.hdr.msgLen > 0 {
      assert 0 in Interval(0, f.hdr.msgLen);
    }
  }

  // ----- every piece in turn: dropped, a ChangeCipherSpec, or a fragment -----

  /** A piece of another epoch is dropped: either it is not needed, or the pass cannot succeed any more. */
  lemma DropsOnCourse(w: World, epochs: seq<nat>, writeEpoch: nat, p: Position, piece: Piece, q: Position,
                      e: nat, o: Outset)
    requires Synced(w, epochs, writeEpoch, e) && OnCourse(w, epochs, p, e, o) && !Ready(w.inbox)
    requires Advances(w.flight, p, piece, q) && piece.epoch != e
    ensures if Needed(piece, o) then Astray(w, q, e) && !Readable(w.flight, o.epoch, o.seqNo)
            else OnCourse(w, epochs, q, e, o)
  {
    hide Invariant, HoldsWhole, WholeOf, Ready, Numbered, Passed, FrontHeld, Encrypted, TakenSoFar, Astray, Readable;
    if Needed(piece, o) {
      GoesAstray(w, epochs, writeEpoch, p, piece, q, e, o);
    } else {
      PassesBy(w, epochs, p, piece, q, e, o);
    }
  }

  /** A part of a message that was not taken before the pass. */
  predicate Needed(piece: Piece, o: Outset) {
    piece.FragmentPiece? && piece.fragment.hdr.seqNo >= o.seqNo
  }

  lemma AstrayPasses(w: World, p: Position, piece: Piece, q: Position, e: nat)
    requires Astray(w, p, e) && Advances(w.flight, p, piece, q)
    ensures Astray(w, q, e)
  {
    hide IsMessage, SeqOf, NoneOf;
    var k :| 0 <= k < |w.flight| && Missed(w, p, e, k);
    assert Missed(w, q, e, k);
  }

  /** A ChangeCipherSpec that is opened while astray. */
  lemma AstrayOpens(w: World, p: Position, piece: Piece, q: Position)
    requires Astray(w, p, 0) && Advances(w.flight, p, piece, q) && w.flight[p.written].isCcs
    ensures Astray(w, q, 1)
  {
    hide SeqOf, NoneOf;
    var k :| 0 <= k < |w.flight| && Missed(w, p, 0, k);
    assert Missed(w, q, 1, k);
  }

  lemma SyncedOpens(w: World, epochs: seq<nat>, writeEpoch: nat)
    requires Synced(w, epochs, writeEpoch, 0) && forall slot <- w.inbox.slots :: slot.None?
    ensures Synced(w, epochs, writeEpoch, 1)
  {
    hide Invariant;
  }

  /** An encrypted ChangeCipherSpec is an error, and one that no receiver of this flight can avoid. */
  lemma EncryptedCcs(w: World, epochs: seq<nat>, p: Position, piece: Piece, q: Position, o: Outset)
    requires OnCourse(w, epochs, p, 1, o) && Advances(w.flight, p, piece, q) && piece == CcsPiece(1)
    ensures !Readable(w.flight, o.epoch, o.seqNo)
  {
    hide Passed, FrontHeld, Encrypted, TakenSoFar, HoldsWhole;
    assert !Takes(w.flight[p.written], EpochAt(w.flight, p.written, o.epoch), o.seqNo);
  }

  lemma AstrayReceives(w: World, p: Position, f: Fragment, q: Position, e: nat, maxLen: nat)
    requires Invariant(w) && Numbered(w.flight, |w.history|) && Astray(w, p, e)
    requires Advances(w.flight, p, FragmentPiece(e, f), q) && f in w.wire && FitsAll(w.history, maxLen)
    ensures Possible(w, Deliver([f], Config(e, maxLen)))
    ensures Astray(Apply(w, Deliver([f], Config(e, maxLen))), q, e)
  {
    hide Invariant, HoldsWhole, WholeOf, Numbered, ReceiveRecord, RecordBytes, KeptOf, Receive;
    DeliverOne(w, f, e, maxLen);
    AgreesIn(w);
    AbsorbKeepsNumber(w.inbox, Config(e, maxLen), f);
    var k :| 0 <= k < |w.flight| && Missed(w, p, e, k);
    if k < p.written {
      InOrder(w, k, p.written);
    }
    assert Missed(Apply(w, Deliver([f], Config(e, maxLen))), q, e, k);
  }

  /** A fragment of the receiver's epoch on course: if it is an error the pass was bound to fail, and
      otherwise the pass stays on course. */
  lemma {:induction false} ReceivesOnCourse(w: World, epochs: seq<nat>, writeEpoch: nat, p: Position, e: nat,
                                            f: Fragment, q: Position, rest: seq<Piece>, o: Outset, maxLen: nat)
    requires Synced(w, epochs, writeEpoch, e) && OnCourse(w, epochs, p, e, o) && !Ready(w.inbox)
    requires Advances(w.flight, p, FragmentPiece(e, f), q) && f in w.wire && FitsAll(w.history, maxLen)
    requires rest != [] && rest[0] == FragmentPiece(e, f) && Chain(w.flight, p, rest, Position(|w.flight|, 0))
    ensures Possible(w, Deliver([f], Config(e, maxLen)))
    ensures if Receive(w.inbox, Config(e, maxLen), f).1.Failed? then
              !(Readable(w.flight, o.epoch, o.seqNo) && (o.epoch == 1 ==> NoTailHeld(rest, o)))
            else
              && OnCourse(Apply(w, Deliver([f], Config(e, maxLen))), epochs, q, e, o)
              && (o.epoch == 1 ==> !TailHeld(f, o.seqNo, o.held))
  {
    hide Invariant, Ready, Receive, Synced, OnCourse, Readable, NoTailHeld, TailHeld, Chain, HoldsWhole, WholeOf;
    SyncedParts(w, epochs, writeEpoch, e);
    DeliverOne(w, f, e, maxLen);
    var s := f.hdr.seqNo;
    assert IsMessage(w.flight[p.written]) && s == SeqOf(w.flight[p.written]);
    NotAhead(w, epochs, writeEpoch, p, e, o);
    if s == w.inbox.readSeq {
      NextIsReceived(w, epochs, writeEpoch, p, e, f, q, o, maxLen);
    } else if e == 1 {
      OldIsError(w, epochs, writeEpoch, p, f, rest, o);
    } else {
      OldIsIgnored(w, epochs, writeEpoch, p, f, q, o, maxLen);
      StartsInZero(w, epochs, p, o);
    }
  }

  lemma SyncedParts(w: World, epochs: seq<nat>, writeEpoch: nat, e: nat)
    requires Synced(w, epochs, writeEpoch, e)
    ensures Invariant(w) && Numbered(w.flight, |w.history|) && e <= 1 && |w.inbox.slots| == MAX_HANDSHAKE_FLIGHT
  {
  }

  lemma StartsInZero(w: World, epochs: seq<nat>, p: Position, o: Outset)
    requires OnCourse(w, epochs, p, 0, o)
    ensures o.epoch == 0
  {
    hide Passed, FrontHeld, Encrypted, TakenSoFar;
  }

  // ----- a pass that may have gone astray -----

  /** A pass that is at `p`; `lost` says that something it should bring will not come through. */
  ghost predicate OnWay(w: World, epochs: seq<nat>, p: Position, e: nat, o: Outset, lost: bool) {
    if lost then Astray(w, p, e) else OnCourse(w, epochs, p, e, o)
  }

  lemma OnCourseIsOnWay(w: World, epochs: seq<nat>, p: Position, e: nat, o: Outset)
    requires OnCourse(w, epochs, p, e, o)
    ensures OnWay(w, epochs, p, e, o, false)
  {
  }

  lemma TakeOnWay(w: World, epochs: seq<nat>, writeEpoch: nat, p: Position, e: nat, o: Outset, lost: bool)
    requires Synced(w, epochs, writeEpoch, e) && OnWay(w, epochs, p, e, o, lost)
    requires |w.inbox.slots| == MAX_HANDSHAKE_FLIGHT && Ready(w.inbox)
    ensures OnWay(Apply(w, Take), epochs, p, e, o, lost)
  {
    hide Synced, OnCourse, Astray, Ready, Apply;
    if lost {
      TakeAstray(w, epochs, writeEpoch, p, e);
    } else {
      TakeOnCourse(w, epochs, writeEpoch, p, e, o);
    }
  }

  lemma DropOnWay(w: World, epochs: seq<nat>, writeEpoch: nat, p: Position, piece: Piece, q: Position, e: nat,
                  o: Outset, lost: bool) returns (nowLost: bool)
    requires Synced(w, epochs, writeEpoch, e) && OnWay(w, epochs, p, e, o, lost)
    requires |w.inbox.slots| == MAX_HANDSHAKE_FLIGHT && !Ready(w.inbox)
    requires Advances(w.flight, p, piece, q) && piece.epoch != e
    ensures OnWay(w, epochs, q, e, o, nowLost) && nowLost == (lost || Needed(piece, o))
    ensures nowLost && !lost ==> !Readable(w.flight, o.epoch, o.seqNo)
  {
    hide Synced, OnCourse, Astray, Ready, Advances, Readable;
    nowLost := lost || Needed(piece, o);
    if lost {
      AstrayPasses(w, p, piece, q, e);
    } else {
      DropsOnCourse(w, epochs, writeEpoch, p, piece, q, e, o);
    }
  }

  lemma {:induction false} ReceiveOnWay(w: World, epochs: seq<nat>, writeEpoch: nat, p: Position, e: nat, f: Fragment,
                                        q: Position, rest: seq<Piece>, o: Outset, maxLen: nat, lost: bool)
    requires Synced(w, epochs, writeEpoch, e) && OnWay(w, epochs, p, e, o, lost)
    requires |w.inbox.slots| == MAX_HANDSHAKE_FLIGHT && !Ready(w.inbox)
    requires Advances(w.flight, p, FragmentPiece(e, f), q) && f in w.wire && FitsAll(w.history, maxLen)
    requires rest != [] && rest[0] == FragmentPiece(e, f) && Chain(w.flight, p, rest, Position(|w.flight|, 0))
    ensures Possible(w, Deliver([f], Config(e, maxLen)))
    ensures if Receive(w.inbox, Config(e, maxLen), f).1.Failed? then lost || !GetsThrough(w.flight, rest, o)
            else
              && OnWay(Apply(w, Deliver([f], Config(e, maxLen))), epochs, q, e, o, lost)
              && (!lost && o.epoch == 1 ==> !TailHeld(f, o.seqNo, o.held))
  {
    hide Invariant, Synced, OnCourse, Astray, Ready, Advances, Readable, Chain, Receive, TailHeld, NoTailHeld;
    SyncedParts(w, epochs, writeEpoch, e);
    if lost {
      AstrayReceives(w, p, f, q, e, maxLen);
    } else {
      ReceivesOnCourse(w, epochs, writeEpoch, p, e, f, q, rest, o, maxLen);
    }
  }

  /** At an unencrypted ChangeCipherSpec nothing is left unread, unless the pass is lost. */
  lemma OpenOnWay(w: World, epochs: seq<nat>, writeEpoch: nat, p: Position, q: Position, o: Outset, lost: bool)
    requires Synced(w, epochs, writeEpoch, 0) && OnWay(w, epochs, p, 0, o, lost)
    requires |w.inbox.slots| == MAX_HANDSHAKE_FLIGHT && !Ready(w.inbox) && Advances(w.flight, p, CcsPiece(0), q)
    ensures !lost ==> forall slot <- w.inbox.slots :: slot.None?
    ensures (forall slot <- w.inbox.slots :: slot.None?) ==> OnWay(w, epochs, q, 1, o, lost)
  {
    hide Synced, OnCourse, Astray, Ready;
    if lost {
      AstrayOpens(w, p, CcsPiece(0), q);
    } else {
      OpensCcs(w, epochs, writeEpoch, p, CcsPiece(0), q, o);
    }
  }

  lemma RefuseOnWay(w: World, epochs: seq<nat>, p: Position, q: Position, o: Outset, lost: bool)
    requires OnWay(w, epochs, p, 1, o, lost) && Advances(w.flight, p, CcsPiece(1), q)
    ensures lost || !Readable(w.flight, o.epoch, o.seqNo)
  {
    hide OnCourse, Astray, Readable;
    if !lost {
      EncryptedCcs(w, epochs, p, CcsPiece(1), q, o);
    }
  }

  lemma EndOnWay(w: World, epochs: seq<nat>, writeEpoch: nat, e: nat, o: Outset, lost: bool)
    requires Synced(w, epochs, writeEpoch, e) && OnWay(w, epochs, Position(|w.flight|, 0), e, o, lost)
    requires |w.inbox.slots| == MAX_HANDSHAKE_FLIGHT && !Ready(w.inbox)
    ensures w.inbox.readSeq == |w.history| <==> !lost
    ensures !lost ==> Readable(w.flight, o.epoch, o.seqNo)
  {
    hide Synced, OnCourse, Astray, Ready, Readable;
    SyncedParts(w, epochs, writeEpoch, e);
    if lost {
      AstrayMisses(w, Position(|w.flight|, 0), e);
    } else {
      EndsWithAll(w, epochs, writeEpoch, e, o);
    }
  }

  lemma NothingTailHeld(pieces: seq<Piece>, i: nat, o: Outset)
    requires i < |pieces| && NoTailHeld(pieces[..i], o)
    requires pieces[i].FragmentPiece? ==> !TailHeld(pieces[i].fragment, o.seqNo, o.held)
    ensures NoTailHeld(pieces[..i + 1], o)
  {
    hide TailHeld;
    assert pieces[..i + 1] == pieces[..i] + [pieces[i]];
  }

  lemma NoneAtStart(o: Outset)
    ensures NoTailHeld([], o)
  {
  }

  lemma Through(flight: seq<OutgoingMessage>, pieces: seq<Piece>, o: Outset)
    ensures Readable(flight, o.epoch, o.seqNo) && (o.epoch == 1 ==> NoTailHeld(pieces, o)) ==>
              GetsThrough(flight, pieces, o)
  {
  }

  lemma ChainEnds(flight: seq<OutgoingMessage>, p: Position, end: Position)
    requires Chain(flight, p, [], end)
    ensures p == end
  {
  }

  lemma DeliveredCount(w: World)
    requires Invariant(w)
    ensures |w.delivered| == w.inbox.readSeq <= |w.history|
  {
  }

  /** What cannot get through in the rest of a pass cannot in all of it. */
  lemma RestOfPass(flight: seq<OutgoingMessage>, pieces: seq<Piece>, i: nat, o: Outset)
    requires i <= |pieces| && GetsThrough(flight, pieces, o)
    ensures GetsThrough(flight, pieces[i..], o)
  {
    hide Readable, TailHeld;
    assert FragmentsOf(pieces[i..]) <= FragmentsOf(pieces);
  }

  // ----- when everything gets through -----

  /** In epoch 1 every message not taken yet must be encrypted, and none that was taken may be. */
  lemma ReadableInEpochOne(flight: seq<OutgoingMessage>, start: nat)
    ensures Readable(flight, 1, start) <==>
            forall m <- flight :: if IsMessage(m) && SeqOf(m) >= start then m.epoch == 1 else m.epoch != 1
  {
    forall k | 0 <= k < |flight| ensures EpochAt(flight, k, 1) == 1 {
    }
    forall m <- flight | Readable(flight, 1, start)
      ensures if IsMessage(m) && SeqOf(m) >= start then m.epoch == 1 else m.epoch != 1
    {
      var k :| 0 <= k < |flight| && flight[k] == m;
      assert Takes(flight[k], EpochAt(flight, k, 1), start);
    }
  }

  /** A receiver in epoch 0 can read every flight that begins there and changes the cipher at most once. */
  lemma ReadableInEpochZero(w: World, epochs: seq<nat>, writeEpoch: nat)
    requires Synced(w, epochs, writeEpoch, 0) && writeEpoch <= 1
    requires w.flight != [] ==> w.flight[0].epoch == 0
    ensures Readable(w.flight, 0, w.inbox.readSeq)
  {
    hide Invariant, HoldsWhole, WholeOf, Numbered;
    forall k | 0 <= k < |w.flight| ensures Takes(w.flight[k], EpochAt(w.flight, k, 0), w.inbox.readSeq) {
      var m, at := w.flight[k], EpochAt(w.flight, k, 0);
      EpochsBelow(w.flight, writeEpoch, k);
      if !m.isCcs {
        NumberIs(w, k);
      }
      if m.epoch == 0 && at == 1 {
        var j := RoseAt(w.flight, k, 0);
        EpochsRise(w.flight, writeEpoch, j, k);
      } else if m.epoch == 1 && at == 0 {
        NotYetRisen(w.flight, writeEpoch, k);
      }
    }
  }

  /** Without an unencrypted ChangeCipherSpec before it, what begins in epoch 0 stays there. */
  lemma {:induction false} NotYetRisen(flight: seq<OutgoingMessage>, writeEpoch: nat, k: nat)
    requires Shape(flight, writeEpoch) && k < |flight| && flight[0].epoch == 0
    requires EpochAt(flight, k, 0) == 0
    ensures flight[k].epoch == 0
  {
    if k > 0 {
      NotYetRisen(flight, writeEpoch, k - 1);
      NextEpochIs(flight, writeEpoch, k - 1);
    }
  }

  lemma {:induction false} NextEpochIs(flight: seq<OutgoingMessage>, writeEpoch: nat, k: nat)
    requires Shape(flight, writeEpoch) && k + 1 < |flight|
    ensures flight[k + 1].epoch == flight[k].epoch + if flight[k].isCcs then 1 else 0
  {
    var n := |flight| - 1;
    if k + 1 < n {
      NextEpochIs(flight[..n], flight[n].epoch, k);
    }
  }

  /** A receiver in epoch 0 gets everything out of such a flight, however it is cut. */
  lemma FromEpochZero(w: World, epochs: seq<nat>, writeEpoch: nat, pieces: seq<Piece>, held: set<nat>)
    requires Synced(w, epochs, writeEpoch, 0) && writeEpoch <= 1
    requires w.flight != [] ==> w.flight[0].epoch == 0
    ensures GetsThrough(w.flight, pieces, Outset(0, w.inbox.readSeq, held))
  {
    hide Synced, Readable;
    ReadableInEpochZero(w, epochs, writeEpoch);
  }

  /** A receiver in epoch 1 that holds nothing of its next message gets everything exactly if the messages it
      has not taken are the encrypted ones. */
  lemma FromEpochOne(flight: seq<OutgoingMessage>, pieces: seq<Piece>, start: nat)
    requires Chain(flight, Position(0, 0), pieces, Position(|flight|, 0))
    ensures GetsThrough(flight, pieces, Outset(1, start, {})) <==>
            forall m <- flight :: if IsMessage(m) && SeqOf(m) >= start then m.epoch == 1 else m.epoch != 1
  {
    hide Readable, IsMessage, SeqOf, NoTailHeld;
    ReadableInEpochOne(flight, start);
    NoEmptyTails(flight, Position(0, 0), pieces, Position(|flight|, 0), start);
  }

  /** No fragment but the first of a message is empty. */
  lemma {:induction false} NoEmptyTails(flight: seq<OutgoingMessage>, p: Position, pieces: seq<Piece>, end: Position,
                                        start: nat)
    requires PositionValid(flight, p) && Chain(flight, p, pieces, end)
    ensures NoTailHeld(pieces, Outset(1, start, {}))
    decreases |pieces|
  {
    hide HoldsWhole, WholeOf;
    if pieces != [] {
      var mid :| Advances(flight, p, pieces[0], mid) && Chain(flight, mid, pieces[1..], end);
      AdvancesValid(flight, p, pieces[0], mid);
      NoEmptyTails(flight, mid, pieces[1..], end, start);
      forall f <- FragmentsOf(pieces) ensures !TailHeld(f, start, {}) {
        var piece :| piece in pieces && piece.FragmentPiece? && piece.fragment == f;
        if piece == pieces[0] {
          assert f.hdr.fragOff < f.hdr.msgLen ==> f.hdr.fragOff in Interval(f.hdr.fragOff, f.hdr.msgLen);
          if !flight[p.written].isCcs {
            WholeLength(flight[p.written]);
          }
        } else {
          assert piece in pieces[1..];
        }
      }
    }
  }

  /** The encrypted message of a flight sent again to a receiver that has taken it: an error. */
  lemma TakenAndSentAgain(body: seq<byte>, start: nat)
    requires FitsU24(|body|) && start < SEQ_SPAN
    ensures var m := OutgoingMessage(Bytes(Whole(20, start, body)), 1, false);
            && Readable([m], 1, start) && !Readable([m], 1, start + 1)
            && forall inbox: Inbox, maxLen: nat | |inbox.slots| == MAX_HANDSHAKE_FLIGHT && inbox.readSeq == start + 1
                                                  && |body| <= maxLen ::
                 Receive(inbox, Config(1, maxLen), Whole(20, start, body)).1 == Failed(UnexpectedRecord)
  {
    hide Bytes;
    var m := OutgoingMessage(Bytes(Whole(20, start, body)), 1, false);
    WrittenMessage(20, start, body, 1);
    ReadableInEpochOne([m], start);
    ReadableInEpochOne([m], start + 1);
    assert m in [m];
  }

  /** The receiver holds the second byte of an encrypted message of two: the first byte completes it, and the
      second, which is then one of a message taken already, is an error. */
  lemma EndBeforeStart(a: byte, b: byte, start: nat, maxLen: nat)
    requires start + 1 < SEQ_SPAN && maxLen >= 2
    ensures var whole := Whole(20, start, [a, b]);
            var first, second := Slice(whole, 0, 1), Slice(whole, 1, 1);
            var config := Config(1, maxLen);
            var holding := Receive(EMPTY.(readSeq := start), config, second);
            var complete := Receive(holding.0, config, first);
            && holding.1.Ok? && complete.1.Ok? && Ready(complete.0)
            && Receive(Next(complete.0), config, second).1 == Failed(UnexpectedRecord)
            && TailHeld(second, start, HeldOfNext(holding.0))
  {
    var whole := Whole(20, start, [a, b]);
    var first, second := Slice(whole, 0, 1), Slice(whole, 1, 1);
    assert [a, b][0..1] == [a] && [a, b][1..2] == [b];
    var holding := Receive(EMPTY.(readSeq := start), Config(1, maxLen), second).0;
    assert holding.slots[SlotOf(start)].value.got.Keys == Interval(1, 2);
    assert 0 in Interval(0, 2) && 0 !in Interval(1, 2);
    var complete := Receive(holding, Config(1, maxLen), first).0;
    assert complete.slots[SlotOf(start)].value.got.Keys == Interval(0, 2);
  }
}
