/** Receiving handshake messages over DTLS: the ring of incoming messages and its operations, each
    equal to its counterpart on values. */
module HandshakeReader {
  import opened Basics
  import opened BigEndian
  import opened Fragments
  import opened Reassembly
  import opened Inbox

  const SSL3_RT_CHANGE_CIPHER_SPEC := 20
  const SSL3_RT_HANDSHAKE := 22
  const SSL3_RT_APPLICATION_DATA := 23
  const SSL3_MT_CCS := 1

  datatype OpenResult = Success | Discarded | OpenError

  class Reader {
    const incoming: array<HmFragment?>
    var readSeq: nat
    var hasMessage: bool
    var hasChangeCipherSpec: bool
    ghost var Slots: seq<Option<Assembly>>
    ghost var Repr: set<object>

    ghost predicate SlotValid(i: nat)
      reads this, incoming, Repr
      requires i < incoming.Length && |Slots| == incoming.Length
    {
      if incoming[i] == null then Slots[i] == None
      else
        && incoming[i] in Repr && incoming[i].Repr <= Repr
        && this !in incoming[i].Repr && incoming !in incoming[i].Repr
        && incoming[i].Valid()
        && Slots[i] == Some(incoming[i].View())
    }

    ghost predicate Apart(i: nat, j: nat)
      reads this, incoming, Repr
      requires i < incoming.Length && j < incoming.Length
    {
      incoming[i] != null && incoming[j] != null ==>
        incoming[i] in Repr && incoming[j] in Repr && incoming[i].Repr !! incoming[j].Repr
    }

    ghost predicate Valid()
      reads this, incoming, Repr
    {
      && this in Repr && incoming in Repr
      && incoming.Length == |Slots| == MAX_HANDSHAKE_FLIGHT
      && (forall i | 0 <= i < MAX_HANDSHAKE_FLIGHT :: SlotValid(i))
      && (forall i, j | 0 <= i < j < MAX_HANDSHAKE_FLIGHT :: Apart(i, j))
      && RingInvariant(View())
    }

    ghost function View(): Inbox
      reads this
    {
      Inbox(Slots, readSeq)
    }

    constructor ()
      ensures Valid() && fresh(Repr)
      ensures View() == EMPTY && !hasMessage && !hasChangeCipherSpec
    {
      var ring := new HmFragment?[MAX_HANDSHAKE_FLIGHT](_ => null);
      incoming := ring;
      readSeq, hasMessage, hasChangeCipherSpec := 0, false, false;
      Slots := seq(MAX_HANDSHAKE_FLIGHT, _ => None);
      Repr := {this, ring};
    }

    /** Changing the flags alone keeps the ring valid. */
    twostate lemma ValidAfterFlags()
      requires old(Valid()) && unchanged(old(Repr) - {this})
      requires unchanged(this`Slots) && unchanged(this`readSeq) && unchanged(this`Repr)
      ensures Valid()
    {
      forall k | 0 <= k < MAX_HANDSHAKE_FLIGHT
        ensures SlotValid(k)
      {
        assert old(SlotValid(k));
      }
      forall k, l | 0 <= k < l < MAX_HANDSHAKE_FLIGHT
        ensures Apart(k, l)
      {
        assert old(Apart(k, l));
      }
    }

    /** The incoming message `hdr` belongs to, created if it is new. */
    method GetIncomingMessage(hdr: Header) returns (frag: HmFragment?, error: Error)
      requires Valid() && hdr.seqNo < SEQ_SPAN
      modifies Repr
      ensures Valid() && fresh(Repr - old(Repr))
      ensures unchanged(this`readSeq) && unchanged(this`hasMessage) && unchanged(this`hasChangeCipherSpec)
      ensures frag == null ==> View() == old(View())
      ensures var i := SlotOf(hdr.seqNo);
              if hdr.seqNo < readSeq || hdr.seqNo - readSeq >= MAX_HANDSHAKE_FLIGHT then
                frag == null && error == TooFarAhead
              else match old(Slots)[i]
                case None =>
                  frag != null && incoming[i] == frag &&
                  Slots == old(Slots)[i := Some(Assembly(hdr.typ, hdr.seqNo, hdr.msgLen, map[]))]
                case Some(a) =>
                  if a.typ != hdr.typ || a.msgLen != hdr.msgLen then frag == null && error == FragmentMismatch
                  else frag != null && incoming[i] == frag && Slots == old(Slots)
    {
      hide Interval;
      error := TooFarAhead;
      if hdr.seqNo < readSeq || hdr.seqNo - readSeq >= MAX_HANDSHAKE_FLIGHT {
        return null, TooFarAhead;
      }
      var i := hdr.seqNo % MAX_HANDSHAKE_FLIGHT;
      frag := incoming[i];
      assert SlotValid(i);
      if frag != null {
        LookupFindsOwnMessage(View(), hdr.seqNo);
        assert frag.seqNo == hdr.seqNo;
        if frag.typ != hdr.typ || frag.msgLen != hdr.msgLen {
          return null, FragmentMismatch;
        }
        return;
      }
      frag := new HmFragment(hdr);
      incoming[i] := frag;
      Slots := Slots[i := Some(frag.View())];
      Repr := Repr + frag.Repr;
      forall k | 0 <= k < MAX_HANDSHAKE_FLIGHT
        ensures SlotValid(k)
      {
        assert old(SlotValid(k));
      }
      forall k, l | 0 <= k < l < MAX_HANDSHAKE_FLIGHT
        ensures Apart(k, l)
      {
        assert old(SlotValid(k)) && old(SlotValid(l)) && old(Apart(k, l));
      }
    }

    /** Adds a fragment to the message in slot `i`. */
    method AddToSlot(i: nat, f: Fragment)
      requires Valid() && i < MAX_HANDSHAKE_FLIGHT && incoming[i] != null
      requires InBounds(f.hdr) && f.hdr.msgLen == incoming[i].msgLen && |f.body| == f.hdr.fragLen
      modifies Repr
      ensures Valid() && Repr == old(Repr)
      ensures unchanged(this`readSeq) && unchanged(this`hasMessage) && unchanged(this`hasChangeCipherSpec)
      ensures old(Slots)[i].Some? && Slots == old(Slots)[i := Some(Absorb(old(Slots)[i].value, f))]
    {
      hide Absorb, Interval, InBounds;
      assert SlotValid(i);
      assert SlotInvariant(Slots[i], i, readSeq);
      AbsorbInBounds(Slots[i].value, f);
      var frag := incoming[i];
      frag.Add(f);
      Slots := Slots[i := Some(frag.View())];
      forall k | 0 <= k < MAX_HANDSHAKE_FLIGHT
        ensures SlotValid(k) && SlotInvariant(Slots[k], k, readSeq)
      {
        assert old(SlotValid(k)) && old(SlotInvariant(Slots[k], k, readSeq));
        assert k < i ==> old(Apart(k, i));
        assert i < k ==> old(Apart(i, k));
      }
      forall k, l | 0 <= k < l < MAX_HANDSHAKE_FLIGHT
        ensures Apart(k, l)
      {
        assert old(SlotValid(k)) && old(SlotValid(l)) && old(Apart(k, l));
      }
    }

    /** Takes one parsed fragment of a handshake record. */
    method ReceiveFragment(config: Config, f: Fragment) returns (outcome: Outcome)
      requires Valid() && |f.body| == f.hdr.fragLen && f.hdr.seqNo < SEQ_SPAN
      modifies Repr
      ensures Valid() && fresh(Repr - old(Repr))
      ensures unchanged(this`readSeq) && unchanged(this`hasMessage) && unchanged(this`hasChangeCipherSpec)
      ensures (View(), outcome) == Receive(old(View()), config, f)
    {
      var h := f.hdr;
      if h.fragOff > h.msgLen || h.fragOff + h.fragLen > h.msgLen || h.msgLen > config.maxMessageLen {
        return Failed(ExcessiveMessageSize);
      }
      if config.readEpoch == 1 && h.seqNo != readSeq {
        return Failed(UnexpectedRecord);
      }
      if h.seqNo < readSeq || h.seqNo > readSeq + MAX_HANDSHAKE_FLIGHT {
        return Ok;
      }
      var frag, error := GetIncomingMessage(h);
      if frag == null {
        return Failed(error);
      }
      var i := SlotOf(h.seqNo);
      assert SlotValid(i);
      ghost var a := frag.View();
      AddToSlot(i, f);
      assert Slots == old(Slots)[i := Some(Absorb(a, f))];
      outcome := Ok;
    }

    /** Takes the plaintext of one record of type `typ`: 20 is ChangeCipherSpec, 22 handshake, 23 application
        data. `nullCipher` says whether the current read epoch is unencrypted. */
    method OpenHandshake(typ: int, record: seq<byte>, nullCipher: bool, config: Config)
      returns (result: OpenResult, outcome: Outcome)
      requires Valid()
      modifies Repr
      ensures Valid() && fresh(Repr - old(Repr))
      ensures unchanged(this`readSeq) && unchanged(this`hasMessage)
      ensures typ == 22 ==>
                && (View(), outcome) == ReceiveRecord(old(View()), config, record)
                && result == (if outcome == Ok then Success else OpenError)
                && hasChangeCipherSpec == old(hasChangeCipherSpec)
      ensures typ != 22 ==>
                && View() == old(View()) && Repr == old(Repr)
                && (result.Success? <==> typ == 20 && nullCipher && record == [1])
                && (result.Discarded? <==> typ == 23 && !nullCipher)
                && hasChangeCipherSpec == (old(hasChangeCipherSpec) || result.Success?)
    {
      outcome := Ok;
      if typ == SSL3_RT_APPLICATION_DATA {
        result := if nullCipher then OpenError else Discarded;
        return;
      }
      if typ == SSL3_RT_CHANGE_CIPHER_SPEC {
        if !nullCipher || |record| != 1 || record[0] != SSL3_MT_CCS {
          result := OpenError;
          return;
        }
        hasChangeCipherSpec := true;
        ValidAfterFlags();
        result := Success;
        return;
      }
      if typ != SSL3_RT_HANDSHAKE {
        result := OpenError;
        return;
      }
      var cbs := record;
      while |cbs| > 0
        invariant Valid() && fresh(Repr - old(Repr))
        invariant unchanged(this`readSeq) && unchanged(this`hasMessage) && unchanged(this`hasChangeCipherSpec)
        invariant ReceiveRecord(View(), config, cbs) == ReceiveRecord(old(View()), config, record)
        decreases |cbs|
      {
        var parsed := Parse(cbs);
        if parsed.None? {
          return OpenError, Failed(BadHandshakeRecord);
        }
        var (f, rest) := parsed.value;
        BytesOfParse(cbs);
        outcome := ReceiveFragment(config, f);
        if outcome.Failed? {
          return OpenError, outcome;
        }
        cbs := rest;
      }
      result, outcome := Success, Ok;
    }

    /** Whether a ChangeCipherSpec has come: one that was flagged before is used up and the record left alone,
        otherwise the record is opened and may be one. */
    method OpenChangeCipherSpec(typ: int, record: seq<byte>, nullCipher: bool, config: Config)
      returns (result: OpenResult, outcome: Outcome)
      requires Valid()
      modifies Repr
      ensures Valid() && fresh(Repr - old(Repr))
      ensures unchanged(this`readSeq) && unchanged(this`hasMessage) && !hasChangeCipherSpec
      ensures result.Success? <==>
                old(hasChangeCipherSpec) || (typ == 20 && nullCipher && record == [1])
      ensures old(hasChangeCipherSpec) || typ != 22 ==> View() == old(View()) && Repr == old(Repr)
      ensures !old(hasChangeCipherSpec) && typ == 22 ==>
                && (View(), outcome) == ReceiveRecord(old(View()), config, record)
                && result == (if outcome == Ok then Discarded else OpenError)
      ensures !old(hasChangeCipherSpec) && typ != 22 ==>
                (result.Discarded? <==> typ == 23 && !nullCipher)
    {
      hide ReceiveRecord;
      outcome := Ok;
      if !hasChangeCipherSpec {
        result, outcome := OpenHandshake(typ, record, nullCipher, config);
        if !result.Success? {
          return;
        }
      }
      label Flagged:
      if hasChangeCipherSpec {
        hasChangeCipherSpec := false;
        ValidAfterFlags@Flagged();
        return Success, outcome;
      }
      result := Discarded;
    }

    method IsCurrentMessageComplete() returns (complete: bool)
      requires Valid()
      ensures complete <==> Ready(View())
    {
      var idx := readSeq % MAX_HANDSHAKE_FLIGHT;
      assert SlotValid(idx);
      complete := incoming[idx] != null && incoming[idx].reassembly == null;
    }

    /** The current message, if it is complete, with its handshake header. */
    method GetMessage() returns (ok: bool, raw: seq<byte>)
      requires Valid()
      modifies this`hasMessage
      ensures Valid() && View() == old(View())
      ensures ok <==> Ready(View())
      ensures ok ==> raw == Raw(View().slots[SlotOf(readSeq)].value)
      ensures hasMessage == (old(hasMessage) || ok)
    {
      raw := [];
      ok := IsCurrentMessageComplete();
      if ok {
        var idx := readSeq % MAX_HANDSHAKE_FLIGHT;
        assert SlotValid(idx);
        raw := incoming[idx].GetRaw();
        hasMessage := true;
        ValidAfterFlags();
      }
    }

    /** Releases the current message. */
    method NextMessage()
      requires Valid() && hasMessage && Ready(View())
      modifies this`readSeq, this`hasMessage, this`Slots, incoming
      ensures Valid() && Repr == old(Repr)
      ensures View() == Next(old(View())) && !hasMessage
    {
      NextKeepsRing(View());
      var idx := readSeq % MAX_HANDSHAKE_FLIGHT;
      incoming[idx] := null;
      Slots := Slots[idx := None];
      readSeq := (readSeq + 1) % SEQ_SPAN;
      hasMessage := false;
      forall k | 0 <= k < MAX_HANDSHAKE_FLIGHT
        ensures SlotValid(k)
      {
        assert old(SlotValid(k));
      }
      forall k, l | 0 <= k < l < MAX_HANDSHAKE_FLIGHT
        ensures Apart(k, l)
      {
        assert old(Apart(k, l));
      }
    }

    /** Whether anything received is still waiting, besides the current message if it was taken. */
    method HasUnprocessedHandshakeData() returns (has: bool)
      requires Valid()
      ensures has <==> hasChangeCipherSpec
                       || exists i :: 0 <= i < MAX_HANDSHAKE_FLIGHT
                                      && Slots[i].Some? && !(hasMessage && i == SlotOf(readSeq))
    {
      if hasChangeCipherSpec {
        return true;
      }
      var current := readSeq % MAX_HANDSHAKE_FLIGHT;
      for i := 0 to MAX_HANDSHAKE_FLIGHT
        invariant forall k | 0 <= k < i :: Slots[k].Some? ==> hasMessage && k == current
      {
        assert SlotValid(i);
        if !(hasMessage && i == current) && incoming[i] != null {
          return true;
        }
      }
      has := false;
    }
  }
}
