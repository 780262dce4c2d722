/** The receiving side of a DTLS handshake: records are opened by their epoch and the replay window, and
    what they hold goes to the ring of incoming messages. */
module HandshakeReceiver {
  import opened Basics
  import opened BigEndian
  import opened Ring = Inbox
  import opened HandshakeReader
  import opened ReplayWindow

  datatype Received = CloseNotify | Incomplete | AlertCame | Handled | Skipped | Fatal

  /** The record at the front of a packet, if it is whole and of the right version. */
  function FirstRecord(packet: seq<byte>, nullCipher: bool, version: nat): Option<WireRecord> {
    match ParseRecord(packet)
    case None => None
    case Some((r, rest)) => if VersionOk(r.version, nullCipher, version) then Some(r) else None
  }

  /** A record is found exactly where one stands whole at the front of the packet: without keys for every
      minor version and whatever version was agreed on, with keys for that version alone. */
  lemma FirstRecordByItsBytes(packet: seq<byte>, nullCipher: bool, version: nat)
    ensures FirstRecord(packet, nullCipher, version) ==
            if StartsWithRecord(packet) && (if nullCipher then packet[1] == 0xfe
                                            else U16At(packet, 1) == version)
            then Some(WireRecord(packet[0], U16At(packet, 1), packet[3..11],
                                 packet[13..13 + U16At(packet, 11)]))
            else None
  {
    hide ParseRecord, VersionOk;
    RecordByItsBytes(packet, nullCipher, version);
  }

  class Receiver {
    const records: RecordReader
    const reader: Reader

    ghost function Repr(): set<object>
      reads this, reader
    {
      {this, records} + reader.Repr
    }

    /** The flag of a ChangeCipherSpec can only be up before the cipher has changed. */
    ghost predicate Valid()
      reads this, records, reader, reader.incoming, reader.Repr
    {
      && reader.Valid() && records !in reader.Repr && this !in reader.Repr
      && (reader.hasChangeCipherSpec ==> records.epoch == 0)
    }

    constructor ()
      ensures Valid() && fresh(Repr())
      ensures records.View() == Run([]).0 && reader.View() == Ring.EMPTY
      ensures !reader.hasMessage && !reader.hasChangeCipherSpec
    {
      records := new RecordReader();
      reader := new Reader();
    }

    /** Whether the current read epoch is unencrypted. */
    predicate NullCipher()
      reads records
    {
      records.epoch == 0
    }

    function ReaderConfig(maxMessageLen: nat): Config
      reads records
    {
      Config(records.epoch, maxMessageLen)
    }

    /** Takes the first record of a packet; `authentic` and `plain` are what decrypting it gives. The types are
        20 for ChangeCipherSpec, 21 for an alert, 22 for handshake and 23 for application data. */
    method OpenHandshake(packet: seq<byte>, closed: bool, version: nat, authentic: bool, plain: seq<byte>,
                         maxMessageLen: nat)
      returns (result: Received, consumed: nat)
      requires Valid()
      modifies Repr()
      ensures Valid() && fresh(Repr() - old(Repr()))
      ensures records.epoch == old(records.epoch) && reader.readSeq == old(reader.readSeq)
      ensures reader.hasMessage == old(reader.hasMessage) && consumed <= |packet|
      ensures closed || FirstRecord(packet, old(NullCipher()), version).None? ==>
                && result in {CloseNotify, Incomplete, Skipped} && records.View() == old(records.View())
                && reader.View() == old(reader.View()) && reader.hasChangeCipherSpec == old(reader.hasChangeCipherSpec)
      ensures !closed && FirstRecord(packet, old(NullCipher()), version).Some? ==>
                var r := FirstRecord(packet, old(NullCipher()), version).value;
                && |r.sequence| == 8 && Value(r.sequence) <= MAX_SEQ_NUM
                && var (st, v) := Open(old(records.View()), Value(r.sequence), authentic, |plain|);
                   && records.View() == st
                   && (!v.Accept? || r.typ == 21 ==>
                         && result == (if v.Accept? then AlertCame else if v.TooLong? then Fatal else Skipped)
                         && reader.View() == old(reader.View())
                         && reader.hasChangeCipherSpec == old(reader.hasChangeCipherSpec))
                   && (v.Accept? && r.typ == 22 ==>
                         var config := old(ReaderConfig(maxMessageLen));
                         var (inbox, outcome) := ReceiveRecord(old(reader.View()), config, plain);
                         && reader.View() == inbox && result == (if outcome == Ok then Handled else Fatal)
                         && reader.hasChangeCipherSpec == old(reader.hasChangeCipherSpec))
                   && (v.Accept? && r.typ != 22 && r.typ != 21 ==>
                         && reader.View() == old(reader.View())
                         && (result.Handled? <==> r.typ == 20 && old(NullCipher()) && plain == [1])
                         && (result.Skipped? <==> r.typ == 23 && !old(NullCipher()))
                         && reader.hasChangeCipherSpec == (old(reader.hasChangeCipherSpec) || result.Handled?))
    {
      hide ReceiveRecord, Record, ShouldDiscard, VersionOk, Value;
      var nullCipher, config := NullCipher(), ReaderConfig(maxMessageLen);
      FirstRecordByItsBytes(packet, nullCipher, version);
      var front;
      front, consumed := records.OpenRecord(packet, closed, nullCipher, version, authentic, |plain|);
      match front
      case Closed => result := CloseNotify;
      case Partial => result := Incomplete;
      case Dropped => result := Skipped;
      case Overflow => result := Fatal;
      case Alert => result := AlertCame;
      case Opened(typ) =>
        var handed, outcome := reader.OpenHandshake(typ, plain, nullCipher, config);
        match handed
        case Success => result := Handled;
        case Discarded => result := Skipped;
        case OpenError => result := Fatal;
    }

    /** Goes on in the next epoch, with an empty window, unless something received is still unread. */
    method SetReadState() returns (ok: bool)
      requires Valid()
      modifies records
      ensures Valid()
      ensures ok <==> !reader.hasChangeCipherSpec
                      && forall i | 0 <= i < MAX_HANDSHAKE_FLIGHT ::
                           reader.Slots[i].Some? ==> reader.hasMessage && i == SlotOf(reader.readSeq)
      ensures records.View() == if ok then NextEpoch(old(records.View())) else old(records.View())
    {
      var leftover := reader.HasUnprocessedHandshakeData();
      ok := records.SetReadState(leftover);
    }
  }
}
