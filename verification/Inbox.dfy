/** What receiving a handshake fragment does, on values, and the invariant of the ring of incoming
    messages. */
module Inbox {
  import opened Basics
  import opened BigEndian
  import opened Fragments
  import opened Reassembly

  /** `incoming_messages` and `handshake_read_seq`. */
  datatype Inbox = Inbox(slots: seq<Option<Assembly>>, readSeq: nat)

  datatype Error =
    | BadHandshakeRecord
    | ExcessiveMessageSize
    | UnexpectedRecord
    | TooFarAhead
    | FragmentMismatch

  datatype Outcome = Ok | Failed(error: Error)

  /** The settings a fragment is judged by: the read epoch and the largest acceptable message. */
  datatype Config = Config(readEpoch: nat, maxMessageLen: nat)

  const EMPTY := Inbox(seq(MAX_HANDSHAKE_FLIGHT, _ => None), 0)

  function SlotOf(seqNo: nat): nat {
    seqNo % MAX_HANDSHAKE_FLIGHT
  }

  predicate TooBig(h: Header, config: Config) {
    h.fragOff > h.msgLen || h.fragOff + h.fragLen > h.msgLen || h.msgLen > config.maxMessageLen
  }

  /** Past messages and ones too far ahead are ignored, by the program's own comparison. */
  predicate Ignored(seqNo: nat, readSeq: nat) {
    seqNo < readSeq || seqNo > readSeq + MAX_HANDSHAKE_FLIGHT
  }

  ghost function Receive(inbox: Inbox, config: Config, f: Fragment): (result: (Inbox, Outcome))
    requires |inbox.slots| == MAX_HANDSHAKE_FLIGHT
    ensures |result.0.slots| == MAX_HANDSHAKE_FLIGHT && result.0.readSeq == inbox.readSeq
    ensures result.1.Failed? ==> result.0 == inbox
  {
    var h := f.hdr;
    if TooBig(h, config) then (inbox, Failed(ExcessiveMessageSize))
    else if config.readEpoch == 1 && h.seqNo != inbox.readSeq then (inbox, Failed(UnexpectedRecord))
    else if Ignored(h.seqNo, inbox.readSeq) then (inbox, Ok)
    else if h.seqNo - inbox.readSeq >= MAX_HANDSHAKE_FLIGHT then (inbox, Failed(TooFarAhead))
    else
      var i := SlotOf(h.seqNo);
      match inbox.slots[i]
      case None =>
        (inbox.(slots := inbox.slots[i := Some(Absorb(Assembly(h.typ, h.seqNo, h.msgLen, map[]), f))]), Ok)
      case Some(a) =>
        if a.typ != h.typ || a.msgLen != h.msgLen then (inbox, Failed(FragmentMismatch))
        else (inbox.(slots := inbox.slots[i := Some(Absorb(a, f))]), Ok)
  }

  /** Receives the fragments of one handshake record, up to the first failure. */
  ghost function ReceiveRecord(inbox: Inbox, config: Config, record: seq<byte>): (Inbox, Outcome)
    requires |inbox.slots| == MAX_HANDSHAKE_FLIGHT
    decreases |record|
  {
    if record == [] then (inbox, Ok)
    else match Parse(record)
      case None => (inbox, Failed(BadHandshakeRecord))
      case Some((f, rest)) =>
        var (next, outcome) := Receive(inbox, config, f);
        if outcome.Failed? then (next, outcome) else ReceiveRecord(next, config, rest)
  }

  /** The comparison lets exactly one message through that the window cannot hold: number seven past the
      next is not ignored, and is then an error instead. */
  lemma SevenAheadIsAnError(body: seq<byte>)
    requires |body| <= 0x4000
    ensures var f := Fragment(Header(2, |body|, 7, 0, |body|), body);
            && !Ignored(f.hdr.seqNo, EMPTY.readSeq)
            && Receive(EMPTY, Config(0, 0x4000), f) == (EMPTY, Failed(TooFarAhead))
            && Receive(EMPTY, Config(0, 0x4000), f.(hdr := f.hdr.(seqNo := 8))) == (EMPTY, Ok)
  {
  }

  ghost predicate Ready(inbox: Inbox)
    requires |inbox.slots| == MAX_HANDSHAKE_FLIGHT
  {
    var slot := inbox.slots[SlotOf(inbox.readSeq)];
    slot.Some? && Complete(slot.value)
  }

  /** Frees the current message and moves on to the next, in sixteen bits. */
  function Next(inbox: Inbox): Inbox
    requires |inbox.slots| == MAX_HANDSHAKE_FLIGHT
  {
    Inbox(inbox.slots[SlotOf(inbox.readSeq) := None], (inbox.readSeq + 1) % SEQ_SPAN)
  }

  /** Slot `i` holds a message whose number is congruent to `i` and in the window. */
  ghost predicate SlotInvariant(slot: Option<Assembly>, i: nat, readSeq: nat) {
    slot.Some? ==>
      && SlotOf(slot.value.seqNo) == i
      && readSeq <= slot.value.seqNo < readSeq + MAX_HANDSHAKE_FLIGHT && slot.value.seqNo < SEQ_SPAN
      && slot.value.got.Keys <= Interval(0, slot.value.msgLen)
  }

  ghost predicate RingInvariant(inbox: Inbox) {
    && |inbox.slots| == MAX_HANDSHAKE_FLIGHT && inbox.readSeq < SEQ_SPAN
    && forall i | 0 <= i < MAX_HANDSHAKE_FLIGHT :: SlotInvariant(inbox.slots[i], i, inbox.readSeq)
  }

  lemma InWindowSlot(a: nat, b: nat, readSeq: nat)
    requires readSeq <= a < readSeq + MAX_HANDSHAKE_FLIGHT && readSeq <= b < readSeq + MAX_HANDSHAKE_FLIGHT
    ensures SlotOf(a) == SlotOf(b) <==> a == b
  {
  }

  /** A slot lookup never finds another message's fragments. */
  lemma LookupFindsOwnMessage(inbox: Inbox, seqNo: nat)
    requires RingInvariant(inbox)
    requires inbox.readSeq <= seqNo < inbox.readSeq + MAX_HANDSHAKE_FLIGHT
    ensures inbox.slots[SlotOf(seqNo)].Some? ==> inbox.slots[SlotOf(seqNo)].value.seqNo == seqNo
  {
    var i := SlotOf(seqNo);
    assert SlotInvariant(inbox.slots[i], i, inbox.readSeq);
    if inbox.slots[i].Some? {
      InWindowSlot(inbox.slots[i].value.seqNo, seqNo, inbox.readSeq);
    }
  }

  lemma EmptyRing()
    ensures RingInvariant(EMPTY)
  {
  }

  lemma AbsorbInBounds(a: Assembly, f: Fragment)
    requires a.got.Keys <= Interval(0, a.msgLen) && a.msgLen == f.hdr.msgLen
    requires InBounds(f.hdr) && |f.body| == f.hdr.fragLen
    ensures Absorb(a, f).got.Keys <= Interval(0, a.msgLen)
  {
  }

  lemma ReceiveKeepsRing(inbox: Inbox, config: Config, f: Fragment)
    requires RingInvariant(inbox) && |f.body| == f.hdr.fragLen && f.hdr.seqNo < SEQ_SPAN
    ensures RingInvariant(Receive(inbox, config, f).0)
  {
    var i := SlotOf(f.hdr.seqNo);
    if !TooBig(f.hdr, config) && inbox.readSeq <= f.hdr.seqNo < inbox.readSeq + MAX_HANDSHAKE_FLIGHT {
      assert SlotInvariant(inbox.slots[i], i, inbox.readSeq);
      LookupFindsOwnMessage(inbox, f.hdr.seqNo);
      var a := match inbox.slots[i]
               case None => Assembly(f.hdr.typ, f.hdr.seqNo, f.hdr.msgLen, map[])
               case Some(a) => a;
      if a.msgLen == f.hdr.msgLen {
        AbsorbInBounds(a, f);
      }
    }
  }

  // ----- any fragment, whoever sent it -----

  /** A message that is being received and that the fragment contradicts. */
  predicate Contradicts(slot: Option<Assembly>, h: Header) {
    slot.Some? && (slot.value.typ != h.typ || slot.value.msgLen != h.msgLen)
  }

  /** Exactly these fragments are errors: out of bounds, too large, out of turn in epoch 1, seven past the next,
      or contradicting the message received so far. */
  lemma RefusedExactly(inbox: Inbox, config: Config, f: Fragment)
    requires RingInvariant(inbox) && |f.body| == f.hdr.fragLen && f.hdr.seqNo < SEQ_SPAN
    ensures var h, next := f.hdr, inbox.readSeq;
            Receive(inbox, config, f).1.Failed? <==>
            || h.fragOff + h.fragLen > h.msgLen || h.msgLen > config.maxMessageLen
            || (config.readEpoch == 1 && h.seqNo != next)
            || h.seqNo == next + 7
            || (next <= h.seqNo < next + 7 && Contradicts(inbox.slots[h.seqNo % 7], h))
  {
  }

  /** A fragment changes at most the slot of its own message. There the type, number and length stay, a complete
      message is left alone, and otherwise exactly the fragment's range is filled in with its bytes. */
  lemma OnlyOwnMessage(inbox: Inbox, config: Config, f: Fragment)
    requires RingInvariant(inbox) && |f.body| == f.hdr.fragLen && f.hdr.seqNo < SEQ_SPAN
    ensures var (after, outcome), h, i := Receive(inbox, config, f), f.hdr, f.hdr.seqNo % 7;
            && after.readSeq == inbox.readSeq && |after.slots| == 7
            && (forall k | 0 <= k < 7 && k != i :: after.slots[k] == inbox.slots[k])
            && (outcome.Failed? || h.seqNo < inbox.readSeq || h.seqNo > inbox.readSeq + 7 ==> after == inbox)
            && (!outcome.Failed? && inbox.readSeq <= h.seqNo <= inbox.readSeq + 7 ==>
                  && after.slots[i].Some?
                  && var a := after.slots[i].value;
                     && a.typ == h.typ && a.seqNo == h.seqNo && a.msgLen == h.msgLen
                     && FilledIn(if inbox.slots[i].Some? then inbox.slots[i].value.got else map[], a, f))
  {
    var i := SlotOf(f.hdr.seqNo);
    if inbox.readSeq <= f.hdr.seqNo < inbox.readSeq + 7 {
      LookupFindsOwnMessage(inbox, f.hdr.seqNo);
    }
  }

  /** `a` holds what was `held`, and if that was not all, the fragment's bytes over it. */
  ghost predicate FilledIn(held: map<nat, byte>, a: Assembly, f: Fragment) {
    if forall k: nat | k < a.msgLen :: k in held then a.got == held
    else
      forall k: nat ::
        if f.hdr.fragOff <= k < f.hdr.fragOff + |f.body| then k in a.got && a.got[k] == f.body[k - f.hdr.fragOff]
        else (k in a.got <==> k in held) && (k in held ==> a.got[k] == held[k])
  }

  /** Even when the number wraps: no slot can hold a message behind the last one. */
  lemma NextKeepsRing(inbox: Inbox)
    requires RingInvariant(inbox)
    ensures RingInvariant(Next(inbox))
  {
    forall i | 0 <= i < MAX_HANDSHAKE_FLIGHT
      ensures SlotInvariant(Next(inbox).slots[i], i, (inbox.readSeq + 1) % SEQ_SPAN)
    {
      assert SlotInvariant(inbox.slots[i], i, inbox.readSeq);
      if i != SlotOf(inbox.readSeq) && inbox.slots[i].Some? {
        InWindowSlot(inbox.slots[i].value.seqNo, inbox.readSeq, inbox.readSeq);
      }
    }
  }
}
