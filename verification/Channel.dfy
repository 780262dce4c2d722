/** A sender and a receiver of DTLS handshake messages over a channel that loses, duplicates and
    reorders fragments (section 4.2 of RFC 6347): what the receiver delivers is always a prefix of
    what the sender wrote, and a full pass of a flight is enough to deliver all of it. */
module Channel {
  import opened Basics
  import opened BigEndian
  import opened Fragments
  import opened Flight
  import opened Reassembly
  import opened Inbox

  /** `history` holds every handshake message written, at its number; `wire` every fragment ever
      sent; `kept` every fragment the receiver took without an error. */
  datatype World = World(
    history: seq<Fragment>,
    flight: seq<OutgoingMessage>,
    flightStart: nat,
    at: Position,
    wire: set<Fragment>,
    inbox: Inbox,
    kept: set<Fragment>,
    delivered: seq<seq<byte>>
  )

  /** What may happen next. `restart` says that the flight so far had been flushed, so that a new one
      begins; `Rewind` is a retransmission or the rollback of an unsent packet; `Deliver` hands the
      receiver one record of fragments from the wire. */
  datatype Event =
    | WriteMessage(typ: byte, body: seq<byte>, epoch: nat, restart: bool)
    | WriteCcs(epoch: nat, restart: bool)
    | Send(pieces: seq<Piece>, end: Position)
    | Rewind(to: Position)
    | Deliver(fragments: seq<Fragment>, config: Config)
    | Take

  /** So many messages can be numbered and taken before a 16-bit number wraps. */
  const MAX_MESSAGES := 0xffff

  const START := World([], [], 0, Position(0, 0), {}, EMPTY, {}, [])

  /** The fragments among `pieces`. */
  function FragmentsOf(pieces: seq<Piece>): set<Fragment> {
    set p | p in pieces && p.FragmentPiece? :: p.fragment
  }

  /** The bytes of a record holding `fragments`. */
  function RecordBytes(fragments: seq<Fragment>): seq<byte> {
    if fragments == [] then [] else Bytes(fragments[0]) + RecordBytes(fragments[1..])
  }

  ghost predicate Possible(w: World, e: Event) {
    match e
    case WriteMessage(_, body, _, restart) =>
      FitsU24(|body|) && |w.history| < MAX_MESSAGES && (restart || |w.flight| < MAX_HANDSHAKE_FLIGHT)
    case WriteCcs(_, restart) => restart || |w.flight| < MAX_HANDSHAKE_FLIGHT
    case Send(pieces, end) => Chain(w.flight, w.at, pieces, end)
    case Rewind(to) => PositionValid(w.flight, to)
    case Deliver(fragments, _) => |w.inbox.slots| == MAX_HANDSHAKE_FLIGHT && forall f <- fragments :: f in w.wire
    case Take => |w.inbox.slots| == MAX_HANDSHAKE_FLIGHT && Ready(w.inbox)
  }

  /** The sender with `m` added to its flight. */
  function Outgoing(w: World, m: OutgoingMessage, restart: bool): World {
    if restart then w.(flight := [m], at := Position(0, 0), flightStart := |w.history|)
    else w.(flight := w.flight + [m])
  }

  ghost function Apply(w: World, e: Event): World
    requires Possible(w, e)
  {
    match e
    case WriteMessage(typ, body, epoch, restart) =>
      var whole := Whole(typ, |w.history|, body);
      Outgoing(w, OutgoingMessage(Bytes(whole), epoch, false), restart).(history := w.history + [whole])
    case WriteCcs(epoch, restart) => Outgoing(w, OutgoingMessage([], epoch, true), restart)
    case Send(pieces, end) => w.(at := end, wire := w.wire + FragmentsOf(pieces))
    case Rewind(to) => w.(at := to)
    case Deliver(fragments, config) =>
      w.(inbox := ReceiveRecord(w.inbox, config, RecordBytes(fragments)).0,
         kept := w.kept + KeptOf(w.inbox, config, fragments))
    case Take =>
      w.(inbox := Next(w.inbox), delivered := w.delivered + [Raw(w.inbox.slots[SlotOf(w.inbox.readSeq)].value)])
  }

  ghost predicate Reaches(w: World, events: seq<Event>, end: World)
    decreases |events|
  {
    if events == [] then w == end
    else Possible(w, events[0]) && Reaches(Apply(w, events[0]), events[1..], end)
  }

  // ----- a record is received fragment by fragment -----

  ghost function ReceiveAll(inbox: Inbox, config: Config, fragments: seq<Fragment>): (Inbox, Outcome)
    requires |inbox.slots| == MAX_HANDSHAKE_FLIGHT
    decreases |fragments|
  {
    if fragments == [] then (inbox, Ok)
    else
      var (next, outcome) := Receive(inbox, config, fragments[0]);
      if outcome.Failed? then (next, outcome) else ReceiveAll(next, config, fragments[1..])
  }

  /** The fragments of a record that are received, up to the first error, and are not dropped as too
      far ahead. */
  ghost function KeptOf(inbox: Inbox, config: Config, fragments: seq<Fragment>): set<Fragment>
    requires |inbox.slots| == MAX_HANDSHAKE_FLIGHT
    decreases |fragments|
  {
    if fragments == [] then {}
    else
      var f := fragments[0];
      var (next, outcome) := Receive(inbox, config, f);
      if outcome.Failed? then {}
      else
        var kept := if f.hdr.seqNo < inbox.readSeq + MAX_HANDSHAKE_FLIGHT then {f} else {};
        kept + KeptOf(next, config, fragments[1..])
  }

  /** Parsing a record finds the fragments it was made of. */
  lemma {:induction false} RecordOfFragments(inbox: Inbox, config: Config, fragments: seq<Fragment>)
    requires |inbox.slots| == MAX_HANDSHAKE_FLIGHT
    requires forall f <- fragments :: WellFormed(f)
    ensures ReceiveRecord(inbox, config, RecordBytes(fragments)) == ReceiveAll(inbox, config, fragments)
    decreases |fragments|
  {
    hide Receive, Parse, WellFormed, HeaderBytes;
    if fragments != [] {
      ParseOfBytes(fragments[0], RecordBytes(fragments[1..]));
      assert RecordBytes(fragments) != [];
      var (next, outcome) := Receive(inbox, config, fragments[0]);
      if !outcome.Failed? {
        RecordOfFragments(next, config, fragments[1..]);
      }
    }
  }

  // ----- the invariant -----

  ghost predicate History(history: seq<Fragment>) {
    && |history| <= MAX_MESSAGES
    && forall i | 0 <= i < |history| ::
         history[i] == Whole(history[i].hdr.typ, i, history[i].body) && FitsU24(|history[i].body|)
  }

  /** `f` is a piece of a message that was written. */
  ghost predicate Authentic(history: seq<Fragment>, f: Fragment) {
    && f.hdr.seqNo < |history|
    && var whole := history[f.hdr.seqNo];
       f.hdr.fragOff + f.hdr.fragLen <= |whole.body| && f == Slice(whole, f.hdr.fragOff, f.hdr.fragLen)
  }

  ghost predicate Outstanding(history: seq<Fragment>, m: OutgoingMessage) {
    m.isCcs || (HoldsWhole(m) && WholeOf(m).hdr.seqNo < |history| && WholeOf(m) == history[WholeOf(m).hdr.seqNo])
  }

  /** Message number `seqNo` is in the flight. */
  ghost predicate InFlight(flight: seq<OutgoingMessage>, seqNo: nat) {
    exists k :: 0 <= k < |flight| && Carries(flight[k], seqNo)
  }

  ghost predicate Carries(m: OutgoingMessage, seqNo: nat) {
    !m.isCcs && HoldsWhole(m) && WholeOf(m).hdr.seqNo == seqNo
  }

  ghost predicate SenderInvariant(w: World) {
    && History(w.history)
    && (forall m <- w.flight :: Outstanding(w.history, m))
    && PositionValid(w.flight, w.at)
    && w.flightStart <= |w.history| <= w.flightStart + |w.flight| && |w.flight| <= MAX_HANDSHAKE_FLIGHT
    && (forall s | w.flightStart <= s < |w.history| :: InFlight(w.flight, s))
    && (forall f <- w.wire :: Authentic(w.history, f))
  }

  /** The bytes assembled for a message are that message's. */
  ghost predicate Agrees(history: seq<Fragment>, slot: Option<Assembly>) {
    slot.Some? ==>
      var a := slot.value;
      && a.seqNo < |history|
      && var whole := history[a.seqNo];
         && a.typ == whole.hdr.typ && a.msgLen == |whole.body|
         && a.got.Keys <= Interval(0, a.msgLen)
         && forall i <- a.got :: a.got[i] == whole.body[i]
  }

  ghost predicate InboxAgrees(history: seq<Fragment>, inbox: Inbox) {
    && RingInvariant(inbox)
    && inbox.readSeq <= |history|
    && forall slot <- inbox.slots :: Agrees(history, slot)
  }

  /** What `f` brings is in the inbox, or its message has been taken out already. */
  ghost predicate Held(inbox: Inbox, f: Fragment)
    requires |inbox.slots| == MAX_HANDSHAKE_FLIGHT
  {
    f.hdr.seqNo < inbox.readSeq ||
    (f.hdr.seqNo < inbox.readSeq + MAX_HANDSHAKE_FLIGHT &&
     var slot := inbox.slots[SlotOf(f.hdr.seqNo)];
     slot.Some? && Interval(f.hdr.fragOff, f.hdr.fragOff + f.hdr.fragLen) <= slot.value.got.Keys)
  }

  ghost predicate ReceiverInvariant(w: World) {
    && InboxAgrees(w.history, w.inbox)
    && (forall f <- w.kept :: Held(w.inbox, f))
    && |w.delivered| == w.inbox.readSeq
    && forall i | 0 <= i < |w.delivered| :: w.delivered[i] == Bytes(w.history[i])
  }

  ghost predicate Invariant(w: World) {
    SenderInvariant(w) && ReceiverInvariant(w)
  }

  // ----- the sender -----

  lemma OutgoingKeepsInvariant(w: World, m: OutgoingMessage, restart: bool, history: seq<Fragment>)
    requires SenderInvariant(w) && w.history <= history && History(history)
    requires Outstanding(history, m)
    requires |history| <= |w.history| + 1 && (restart || |w.flight| < MAX_HANDSHAKE_FLIGHT)
    requires forall s | |w.history| <= s < |history| :: Carries(m, s)
    ensures SenderInvariant(Outgoing(w, m, restart).(history := history))
  {
    hide HoldsWhole, WholeOf, Whole;
    var after := Outgoing(w, m, restart);
    assert forall o <- w.flight :: Outstanding(w.history, o) && Outstanding(history, o);
    assert after.flight[|after.flight| - 1] == m;
    forall s | after.flightStart <= s < |history| ensures InFlight(after.flight, s) {
      if s < |w.history| {
        assert InFlight(w.flight, s);
        var k :| 0 <= k < |w.flight| && Carries(w.flight[k], s);
        assert after.flight[k] == w.flight[k];
      } else {
        assert Carries(after.flight[|after.flight| - 1], s);
      }
    }
    assert PositionValid(after.flight, after.at);
    forall f <- w.wire ensures Authentic(history, f) {
      assert Authentic(w.history, f);
    }
  }

  lemma {:induction false} SentIsAuthentic(history: seq<Fragment>, flight: seq<OutgoingMessage>, p: Position,
                                           pieces: seq<Piece>, end: Position)
    requires History(history) && (forall m <- flight :: Outstanding(history, m))
    requires PositionValid(flight, p) && Chain(flight, p, pieces, end)
    ensures PositionValid(flight, end)
    ensures forall f <- FragmentsOf(pieces) :: Authentic(history, f)
    decreases |pieces|
  {
    hide HoldsWhole, WholeOf;
    if pieces != [] {
      var mid :| Advances(flight, p, pieces[0], mid) && Chain(flight, mid, pieces[1..], end);
      assert Outstanding(history, flight[p.written]);
      SentIsAuthentic(history, flight, mid, pieces[1..], end);
      forall f <- FragmentsOf(pieces) ensures Authentic(history, f) {
        var piece :| piece in pieces && piece.FragmentPiece? && piece.fragment == f;
        if piece != pieces[0] {
          assert piece in pieces[1..];
        }
      }
    }
  }

  lemma SenderStep(w: World, e: Event)
    requires SenderInvariant(w) && Possible(w, e)
    ensures SenderInvariant(Apply(w, e))
  {
    hide HoldsWhole, WholeOf, PositionValid, Chain, Authentic, Receive, HeaderBytes, InFlight;
    match e
    case WriteMessage(typ, body, epoch, restart) =>
      var whole := Whole(typ, |w.history|, body);
      WrittenMessage(typ, |w.history|, body, epoch);
      OutgoingKeepsInvariant(w, OutgoingMessage(Bytes(whole), epoch, false), restart, w.history + [whole]);
    case WriteCcs(epoch, restart) =>
      OutgoingKeepsInvariant(w, OutgoingMessage([], epoch, true), restart, w.history);
    case Send(pieces, end) => SentIsAuthentic(w.history, w.flight, w.at, pieces, end);
    case Rewind(to) =>
    case Deliver(fragments, config) =>
    case Take =>
  }

  // ----- the receiver -----

  lemma AbsorbAgrees(history: seq<Fragment>, a: Assembly, f: Fragment)
    requires History(history) && Agrees(history, Some(a)) && Authentic(history, f) && f.hdr.seqNo == a.seqNo
    ensures Agrees(history, Some(Absorb(a, f)))
    ensures Interval(f.hdr.fragOff, f.hdr.fragOff + f.hdr.fragLen) <= Absorb(a, f).got.Keys
  {
    assert |f.body| == f.hdr.fragLen;
  }

  /** Receiving an authentic fragment keeps the inbox true to the history and loses nothing held. */
  lemma ReceiveAgrees(history: seq<Fragment>, inbox: Inbox, config: Config, f: Fragment)
    requires History(history) && InboxAgrees(history, inbox) && Authentic(history, f)
    ensures var (next, outcome) := Receive(inbox, config, f);
            && InboxAgrees(history, next) && next.readSeq == inbox.readSeq
            && (outcome.Ok? && f.hdr.seqNo < inbox.readSeq + MAX_HANDSHAKE_FLIGHT ==> Held(next, f))
            && (forall g: Fragment :: Held(inbox, g) ==> Held(next, g))
  {
    hide Absorb, Complete, Contribution;
    ReceiveKeepsRing(inbox, config, f);
    var s := f.hdr.seqNo;
    if !TooBig(f.hdr, config) && inbox.readSeq <= s < inbox.readSeq + MAX_HANDSHAKE_FLIGHT {
      LookupFindsOwnMessage(inbox, s);
      var i := SlotOf(s);
      assert Agrees(history, inbox.slots[i]);
      var a := if inbox.slots[i].Some? then inbox.slots[i].value else Assembly(f.hdr.typ, s, f.hdr.msgLen, map[]);
      AbsorbAgrees(history, a, f);
      AbsorbKeeps(a, f);
    }
  }

  lemma AbsorbKeeps(a: Assembly, f: Fragment)
    ensures a.got.Keys <= Absorb(a, f).got.Keys && Absorb(a, f).seqNo == a.seqNo
  {
  }

  lemma {:induction false} ReceiveAllAgrees(history: seq<Fragment>, inbox: Inbox, config: Config,
                                            fragments: seq<Fragment>)
    requires History(history) && InboxAgrees(history, inbox)
    requires forall f <- fragments :: Authentic(history, f)
    ensures var next := ReceiveAll(inbox, config, fragments).0;
            && InboxAgrees(history, next) && next.readSeq == inbox.readSeq
            && (forall f <- KeptOf(inbox, config, fragments) :: Held(next, f))
            && (forall g: Fragment :: Held(inbox, g) ==> Held(next, g))
    decreases |fragments|
  {
    hide Receive, InboxAgrees, Held, Authentic;
    assert |inbox.slots| == MAX_HANDSHAKE_FLIGHT by {
      assert InboxAgrees(history, inbox);
      InboxHasSlots(history, inbox);
    }
    if fragments != [] {
      var (next, outcome) := Receive(inbox, config, fragments[0]);
      ReceiveAgrees(history, inbox, config, fragments[0]);
      if outcome.Ok? {
        ReceiveAllAgrees(history, next, config, fragments[1..]);
      }
    }
  }

  lemma InboxHasSlots(history: seq<Fragment>, inbox: Inbox)
    requires InboxAgrees(history, inbox)
    ensures |inbox.slots| == MAX_HANDSHAKE_FLIGHT
  {
  }

  /** A complete assembly that agrees with the history is the message, byte for byte. */
  lemma RawIsMessage(history: seq<Fragment>, a: Assembly)
    requires History(history) && Agrees(history, Some(a)) && Complete(a)
    ensures Raw(a) == Bytes(history[a.seqNo])
  {
    hide HeaderBytes;
    var whole := history[a.seqNo];
    assert whole.hdr == Header(a.typ, a.msgLen, a.seqNo, 0, a.msgLen);
    assert seq(a.msgLen, i requires 0 <= i < a.msgLen => a.got[i]) == whole.body;
  }

  lemma TakeStep(w: World)
    requires Invariant(w) && Ready(w.inbox)
    ensures ReceiverInvariant(Apply(w, Take))
  {
    hide Complete, Raw, HeaderBytes, Bytes;
    var inbox, s := w.inbox, w.inbox.readSeq;
    var slot := inbox.slots[SlotOf(s)];
    NextKeepsRing(inbox);
    LookupFindsOwnMessage(inbox, s);
    assert Agrees(w.history, slot);
    RawIsMessage(w.history, slot.value);
    forall f <- w.kept ensures Held(Next(inbox), f) {
      assert Held(inbox, f);
      if f.hdr.seqNo > s {
        InWindowSlot(f.hdr.seqNo, s, s);
      }
    }
  }

  lemma AuthenticIsWellFormed(history: seq<Fragment>, f: Fragment)
    requires History(history) && Authentic(history, f)
    ensures WellFormed(f)
  {
  }

  lemma DeliverStep(w: World, fragments: seq<Fragment>, config: Config)
    requires Invariant(w) && Possible(w, Deliver(fragments, config))
    ensures ReceiverInvariant(Apply(w, Deliver(fragments, config)))
  {
    hide Receive, Agrees, RingInvariant, Held, Authentic, WellFormed, HeaderBytes, History;
    forall f <- fragments ensures WellFormed(f) {
      AuthenticIsWellFormed(w.history, f);
    }
    RecordOfFragments(w.inbox, config, fragments);
    ReceiveAllAgrees(w.history, w.inbox, config, fragments);
  }

  /** More history keeps the receiver's invariant. */
  lemma HistoryGrows(w: World, history: seq<Fragment>)
    requires ReceiverInvariant(w) && w.history <= history
    ensures ReceiverInvariant(w.(history := history))
  {
    hide RingInvariant, Held, HeaderBytes, Interval;
    forall slot <- w.inbox.slots ensures Agrees(history, slot) {
      assert Agrees(w.history, slot);
    }
  }

  lemma SenderStepFrame(w: World, e: Event)
    requires Invariant(w) && Possible(w, e) && !e.Deliver? && !e.Take?
    ensures ReceiverInvariant(Apply(w, e))
  {
    hide ReceiverInvariant, Chain, PositionValid, HeaderBytes, Receive, SenderInvariant, FragmentsOf;
    var after := Apply(w, e);
    HistoryGrows(w, after.history);
    SameReceiver(w.(history := after.history), after);
  }

  lemma SameReceiver(v: World, w: World)
    requires ReceiverInvariant(v)
    requires w.history == v.history && w.inbox == v.inbox && w.kept == v.kept && w.delivered == v.delivered
    ensures ReceiverInvariant(w)
  {
  }

  /** Every step keeps the invariant. */
  lemma StepKeepsInvariant(w: World, e: Event)
    requires Invariant(w) && Possible(w, e)
    ensures Invariant(Apply(w, e))
  {
    hide SenderInvariant, ReceiverInvariant, Apply, Chain, PositionValid, Ready;
    assert SenderInvariant(w) && ReceiverInvariant(w);
    SenderStep(w, e);
    match e
    case Deliver(fragments, config) => DeliverStep(w, fragments, config);
    case Take => TakeStep(w);
    case _ => SenderStepFrame(w, e);
  }

  lemma {:induction false} RunKeepsInvariant(w: World, events: seq<Event>, end: World)
    requires Invariant(w) && Reaches(w, events, end)
    ensures Invariant(end)
    decreases |events|
  {
    hide Invariant, Possible, Apply;
    if events != [] {
      StepKeepsInvariant(w, events[0]);
      RunKeepsInvariant(Apply(w, events[0]), events[1..], end);
    }
  }

  lemma StartInvariant()
    ensures Invariant(START)
  {
    EmptyRing();
  }

  /** Whatever is lost, repeated or reordered on the way, however the messages are cut at each
      transmission and wherever a transmission is resumed: the messages delivered are the first ones
      written, each once, in order, byte for byte as they were before fragmentation. */
  lemma DeliveredIsPrefix(events: seq<Event>, w: World)
    requires Reaches(START, events, w)
    ensures |w.delivered| <= |w.history|
    ensures forall i | 0 <= i < |w.delivered| :: w.delivered[i] == Bytes(w.history[i])
  {
    hide Reaches, HeaderBytes, SenderInvariant;
    StartInvariant();
    RunKeepsInvariant(START, events, w);
  }

  // ----- when an honest fragment is refused -----

  /** The message is larger than the receiver takes, is not the next one where the epoch demands it, or
      is the one exactly seven past the next. */
  predicate Refused(f: Fragment, config: Config, readSeq: nat) {
    || f.hdr.msgLen > config.maxMessageLen
    || (config.readEpoch == 1 && f.hdr.seqNo != readSeq)
    || f.hdr.seqNo == readSeq + 7
  }

  lemma HonestFragmentRefused(history: seq<Fragment>, inbox: Inbox, config: Config, f: Fragment)
    requires History(history) && InboxAgrees(history, inbox) && Authentic(history, f)
    ensures Receive(inbox, config, f).1.Failed? <==> Refused(f, config, inbox.readSeq)
  {
    hide Absorb;
    if inbox.readSeq <= f.hdr.seqNo < inbox.readSeq + MAX_HANDSHAKE_FLIGHT {
      LookupFindsOwnMessage(inbox, f.hdr.seqNo);
      assert Agrees(history, inbox.slots[SlotOf(f.hdr.seqNo)]);
    }
  }

  /** A record of sent fragments is refused exactly when it holds one of the fragments above: it always
      parses, and two fragments of one message never disagree. */
  lemma HonestRecordRefused(w: World, config: Config, fragments: seq<Fragment>)
    requires Invariant(w) && Possible(w, Deliver(fragments, config))
    ensures ReceiveRecord(w.inbox, config, RecordBytes(fragments)).1.Failed? <==>
            exists f :: f in fragments && Refused(f, config, w.inbox.readSeq)
  {
    hide Receive, RingInvariant, Refused, Authentic, WellFormed, HeaderBytes, ReceiveRecord;
    forall f <- fragments ensures WellFormed(f) {
      AuthenticIsWellFormed(w.history, f);
    }
    InboxHasSlots(w.history, w.inbox);
    RecordOfFragments(w.inbox, config, fragments);
    HonestFragmentsRefused(w.history, w.inbox, config, fragments);
  }

  lemma {:induction false} HonestFragmentsRefused(history: seq<Fragment>, inbox: Inbox, config: Config,
                                                  fragments: seq<Fragment>)
    requires History(history) && InboxAgrees(history, inbox) && forall f <- fragments :: Authentic(history, f)
    ensures ReceiveAll(inbox, config, fragments).1.Failed? <==>
            exists f :: f in fragments && Refused(f, config, inbox.readSeq)
    decreases |fragments|
  {
    hide Receive, InboxAgrees, Refused, Authentic, Held;
    InboxHasSlots(history, inbox);
    if fragments != [] {
      var next := Receive(inbox, config, fragments[0]).0;
      ReceiveAgrees(history, inbox, config, fragments[0]);
      HonestFragmentRefused(history, inbox, config, fragments[0]);
      HonestFragmentsRefused(history, next, config, fragments[1..]);
      assert forall f :: f in fragments <==> f == fragments[0] || f in fragments[1..];
    }
  }

  lemma {:induction false} UnrefusedIsKept(history: seq<Fragment>, inbox: Inbox, config: Config,
                                           fragments: seq<Fragment>)
    requires History(history) && InboxAgrees(history, inbox) && forall f <- fragments :: Authentic(history, f)
    requires forall f <- fragments ::
               !Refused(f, config, inbox.readSeq) && f.hdr.seqNo < inbox.readSeq + MAX_HANDSHAKE_FLIGHT
    ensures |inbox.slots| == MAX_HANDSHAKE_FLIGHT && forall f <- fragments :: f in KeptOf(inbox, config, fragments)
    decreases |fragments|
  {
    hide Receive, InboxAgrees, Refused, Authentic, Held;
    InboxHasSlots(history, inbox);
    if fragments != [] {
      ReceiveAgrees(history, inbox, config, fragments[0]);
      HonestFragmentRefused(history, inbox, config, fragments[0]);
      UnrefusedIsKept(history, Receive(inbox, config, fragments[0]).0, config, fragments[1..]);
    }
  }

  /** A receiver that has taken everything before the flight never finds a message too far ahead: it
      keeps every record whose messages are not too large and, in epoch 1, are the next one. */
  lemma FlightIsKept(w: World, fragments: seq<Fragment>, config: Config)
    requires Invariant(w) && Possible(w, Deliver(fragments, config)) && w.flightStart <= w.inbox.readSeq
    requires forall f <- fragments :: f.hdr.msgLen <= config.maxMessageLen
    requires config.readEpoch == 1 ==> forall f <- fragments :: f.hdr.seqNo == w.inbox.readSeq
    ensures ReceiveRecord(w.inbox, config, RecordBytes(fragments)).1.Ok?
    ensures forall f <- fragments :: f in Apply(w, Deliver(fragments, config)).kept
  {
    hide Receive, RingInvariant, ReceiveRecord, WellFormed, HeaderBytes, Slice;
    forall f <- fragments ensures Authentic(w.history, f) && !Refused(f, config, w.inbox.readSeq) {
      assert f in w.wire;
    }
    HonestRecordRefused(w, config, fragments);
    UnrefusedIsKept(w.history, w.inbox, config, fragments);
  }

  // ----- a full pass is enough -----

  ghost predicate Covers(f: Fragment, seqNo: nat, i: nat) {
    f.hdr.seqNo == seqNo && i in Interval(f.hdr.fragOff, f.hdr.fragOff + f.hdr.fragLen)
  }

  ghost predicate Covered(pieces: seq<Piece>, seqNo: nat, i: nat) {
    exists f :: f in FragmentsOf(pieces) && Covers(f, seqNo, i)
  }

  /** A chain to the end of the flight has a fragment of every message after `p`, and one over each of
      its bytes. */
  lemma {:induction false} ChainCovers(msgs: seq<OutgoingMessage>, p: Position, pieces: seq<Piece>, k: nat)
    requires k < |msgs| && !msgs[k].isCcs && HoldsWhole(msgs[k]) && p.written <= k
    requires Chain(msgs, p, pieces, Position(|msgs|, 0))
    ensures exists f :: f in FragmentsOf(pieces) && f.hdr.seqNo == WholeOf(msgs[k]).hdr.seqNo
    ensures forall i | (if k == p.written then p.offset else 0) <= i < |WholeOf(msgs[k]).body| ::
              Covered(pieces, WholeOf(msgs[k]).hdr.seqNo, i)
    decreases |pieces|
  {
    hide HoldsWhole, WholeOf;
    var mid :| Advances(msgs, p, pieces[0], mid) && Chain(msgs, mid, pieces[1..], Position(|msgs|, 0));
    assert FragmentsOf(pieces[1..]) <= FragmentsOf(pieces);
    var whole := WholeOf(msgs[k]);
    if p.written == k {
      var f := pieces[0].fragment;
      assert pieces[0] in pieces;
      assert f in FragmentsOf(pieces) && f.hdr.seqNo == whole.hdr.seqNo;
      assert forall i | p.offset <= i < p.offset + f.hdr.fragLen ::
               Covers(f, whole.hdr.seqNo, i) && Covered(pieces, whole.hdr.seqNo, i);
    }
    if mid.written <= k {
      ChainCovers(msgs, mid, pieces[1..], k);
      assert forall i | 0 <= i && Covered(pieces[1..], whole.hdr.seqNo, i) :: Covered(pieces, whole.hdr.seqNo, i);
    }
  }

  /** Once the receiver has kept a full pass of the flight, the next message is there to take. */
  lemma NextIsReady(w: World, pieces: seq<Piece>)
    requires Invariant(w) && w.flightStart <= w.inbox.readSeq < |w.history|
    requires Chain(w.flight, Position(0, 0), pieces, Position(|w.flight|, 0))
    requires FragmentsOf(pieces) <= w.kept
    ensures Ready(w.inbox)
  {
    hide HoldsWhole, WholeOf, Chain, RingInvariant, FragmentsOf, Contribution;
    var s := w.inbox.readSeq;
    InboxHasSlots(w.history, w.inbox);
    assert InFlight(w.flight, s);
    var k :| 0 <= k < |w.flight| && Carries(w.flight[k], s);
    assert Outstanding(w.history, w.flight[k]);
    ChainCovers(w.flight, Position(0, 0), pieces, k);
    var f :| f in FragmentsOf(pieces) && f.hdr.seqNo == s;
    assert Held(w.inbox, f);
    var slot := w.inbox.slots[SlotOf(s)];
    LookupFindsOwnMessage(w.inbox, s);
    assert Agrees(w.history, slot);
    forall i | 0 <= i < slot.value.msgLen ensures i in slot.value.got.Keys {
      assert Covered(pieces, s, i);
      var g :| g in FragmentsOf(pieces) && Covers(g, s, i);
      assert Held(w.inbox, g);
    }
  }

  ghost function Takes(n: nat): seq<Event> {
    if n == 0 then [] else [Take] + Takes(n - 1)
  }

  /** Once the receiver has kept a full pass of the flight, in whatever order and from whatever mixture
      of transmissions, it can take every message still missing, and then has all that was written. */
  lemma {:induction false} FullPassDelivers(w: World, pieces: seq<Piece>)
    requires Invariant(w) && w.flightStart <= w.inbox.readSeq
    requires Chain(w.flight, Position(0, 0), pieces, Position(|w.flight|, 0))
    requires FragmentsOf(pieces) <= w.kept
    ensures exists end ::
              && Reaches(w, Takes(|w.history| - w.inbox.readSeq), end)
              && end.history == w.history && |end.delivered| == |w.history|
              && forall i | 0 <= i < |w.history| :: end.delivered[i] == Bytes(w.history[i])
    decreases |w.history| - w.inbox.readSeq
  {
    hide SenderInvariant, RingInvariant, Chain, FragmentsOf, Ready, Raw, HeaderBytes, Held, Agrees;
    var n := |w.history| - w.inbox.readSeq;
    if n == 0 {
      assert Reaches(w, Takes(0), w);
    } else {
      NextIsReady(w, pieces);
      InboxHasSlots(w.history, w.inbox);
      var after := Apply(w, Take);
      StepKeepsInvariant(w, Take);
      FullPassDelivers(after, pieces);
      var end :| && Reaches(after, Takes(n - 1), end)
                 && end.history == w.history && |end.delivered| == |w.history|
                 && forall i | 0 <= i < |w.history| :: end.delivered[i] == Bytes(w.history[i]);
      assert Takes(n)[1..] == Takes(n - 1);
      assert Reaches(w, Takes(n), end);
    }
  }

  /** The same from the start of any run. */
  lemma FullPassDeliversInAnyRun(events: seq<Event>, w: World, pieces: seq<Piece>)
    requires Reaches(START, events, w) && w.flightStart <= w.inbox.readSeq
    requires Chain(w.flight, Position(0, 0), pieces, Position(|w.flight|, 0))
    requires FragmentsOf(pieces) <= w.kept
    ensures w.inbox.readSeq <= |w.history|
    ensures exists end ::
              && Reaches(w, Takes(|w.history| - w.inbox.readSeq), end)
              && |end.delivered| == |w.history|
              && forall i | 0 <= i < |w.history| :: end.delivered[i] == Bytes(w.history[i])
  {
    hide Reaches, SenderInvariant, RingInvariant, Chain, FragmentsOf, HeaderBytes, Held, Agrees;
    StartInvariant();
    RunKeepsInvariant(START, events, w);
    FullPassDelivers(w, pieces);
  }
}
