/** The DTLS replay bitmap, a 64-bit sliding window, refines a set of record numbers
    (section 4.1.2.6 of RFC 6347). */
module ReplayWindow {
  import opened Basics
  import opened BigEndian
  import opened Bits

  /** The window's width, the number of bits in `map`. */
  const WINDOW_SIZE := 64

  /** The largest value of a 64-bit record number. */
  const MAX_SEQ_NUM := 0xffff_ffff_ffff_ffff

  type SeqNum = n: nat | n <= MAX_SEQ_NUM

  /** `map` and `max_seq_num` of the program; bit `i` of `bits` stands for record `max - i`. */
  datatype Window = Window(bits: bv64, max: SeqNum)

  const EMPTY := Window(0, 0)

  predicate ShouldDiscard(w: Window, n: SeqNum) {
    n <= w.max && (w.max - n >= WINDOW_SIZE || Test(w.bits, OneHot(w.max - n)))
  }

  function Shifted(w: Window, n: SeqNum): Window {
    if n <= w.max then w
    else Window(if n - w.max >= WINDOW_SIZE then 0 else Shl(w.bits, n - w.max), n)
  }

  function Record(w: Window, n: SeqNum): Window {
    var v := Shifted(w, n);
    if v.max - n < WINDOW_SIZE then v.(bits := v.bits | OneHot(v.max - n)) else v
  }

  /** Record `s` is inside the window and marked there. */
  predicate Marked(w: Window, s: SeqNum) {
    s <= w.max && w.max - s < WINDOW_SIZE && Bit(w.bits, w.max - s)
  }

  lemma MarkedAfterShift(w: Window, n: SeqNum, s: SeqNum)
    ensures Marked(Shifted(w, n), s) <==> Marked(w, s) && Shifted(w, n).max - s < WINDOW_SIZE
  {
    hide Bit, Shl;
    if w.max < n && s <= n && n - s < WINDOW_SIZE {
      if n - w.max >= WINDOW_SIZE {
        ZeroHasNoBit(n - s);
      } else if s > w.max {
        ShiftClears(w.bits, n - w.max, n - s);
      } else {
        ShiftMoves(w.bits, n - w.max, w.max - s);
      }
    }
  }

  lemma MarkedAfterRecord(w: Window, n: SeqNum, s: SeqNum)
    ensures Marked(Record(w, n), s) <==>
            (Marked(w, s) || s == n) && Record(w, n).max - s < WINDOW_SIZE
  {
    hide Bit, OneHot;
    MarkedAfterShift(w, n, s);
    var v := Shifted(w, n);
    if v.max - n < WINDOW_SIZE && s <= v.max && v.max - s < WINDOW_SIZE {
      OrSets(v.bits, v.max - n, v.max - s);
    }
  }

  // ----- the set of numbers recorded in one epoch -----

  /** `w` is what the window must be after recording exactly the numbers in `seen`. */
  ghost predicate Represents(w: Window, seen: set<SeqNum>) {
    && (forall s <- seen :: s <= w.max)
    && (if seen == {} then w.max == 0 else w.max in seen)
    && (forall s: SeqNum :: Marked(w, s) <==> s in seen && w.max - s < WINDOW_SIZE)
  }

  /** Some recorded number is 64 or more above `n`. */
  ghost predicate Stale(n: SeqNum, seen: set<SeqNum>) {
    exists m <- seen :: m - n >= 64
  }

  lemma EmptyRepresents()
    ensures Represents(EMPTY, {})
  {
    forall s: SeqNum ensures !Marked(EMPTY, s) {
      if s == 0 {
        ZeroHasNoBit(0);
      }
    }
  }

  lemma RecordRepresents(w: Window, seen: set<SeqNum>, n: SeqNum)
    requires Represents(w, seen)
    ensures Represents(Record(w, n), seen + {n})
  {
    hide Marked;
    forall s: SeqNum
      ensures Marked(Record(w, n), s) <==> s in seen + {n} && Record(w, n).max - s < WINDOW_SIZE
    {
      MarkedAfterRecord(w, n, s);
    }
  }

  /** A number is discarded exactly when it was recorded or has fallen off the window. */
  lemma DiscardIsExact(w: Window, seen: set<SeqNum>, n: SeqNum)
    requires Represents(w, seen)
    ensures ShouldDiscard(w, n) <==> n in seen || Stale(n, seen)
  {
    hide Bit, OneHot, Test;
    if n <= w.max && w.max - n < WINDOW_SIZE {
      MaskTests(w.bits, w.max - n);
      assert Marked(w, n) <==> Bit(w.bits, w.max - n);
    }
  }

  // ----- records in a packet -----

  const MAX_ENCRYPTED_LENGTH := 256 + 64 + MAX_PLAIN_LENGTH
  const RECORD_HEADER_LENGTH := 13
  const DTLS1_VERSION_MAJOR := 0xfe
  const SSL3_RT_ALERT := 21

  datatype WireRecord = WireRecord(typ: byte, version: nat, sequence: seq<byte>, body: seq<byte>)

  datatype OpenResult = Closed | Partial | Dropped | Overflow | Alert | Opened(typ: byte)

  predicate WellFormedRecord(r: WireRecord) {
    r.version < 0x1_0000 && |r.sequence| == 8 && |r.body| <= MAX_ENCRYPTED_LENGTH
  }

  function RecordBytes(r: WireRecord): seq<byte> {
    [r.typ] + Digits(r.version, 2) + r.sequence + Digits(|r.body|, 2) + r.body
  }

  /** Reads one record off the front of `s`; the rest comes second. */
  function ParseRecord(s: seq<byte>): Option<(WireRecord, seq<byte>)> {
    if |s| < RECORD_HEADER_LENGTH then None
    else
      var end := RECORD_HEADER_LENGTH + Value(s[11..13]);
      if |s| < end || end > RECORD_HEADER_LENGTH + MAX_ENCRYPTED_LENGTH then None
      else Some((WireRecord(s[0], Value(s[1..3]), s[3..11], s[RECORD_HEADER_LENGTH..end]), s[end..]))
  }

  /** Before there are keys any minor version goes, so that version alerts can be read. */
  predicate VersionOk(version: nat, nullCipher: bool, recordVersion: nat) {
    if nullCipher then version / 256 == DTLS1_VERSION_MAJOR else version == recordVersion
  }

  /** What each byte of a record holds: the type, the version, the epoch and sequence number, the length and
      the body. */
  lemma RecordLayout(r: WireRecord)
    requires WellFormedRecord(r)
    ensures var s := RecordBytes(r);
            && |s| == 13 + |r.body| && s[0] == r.typ && s[1] == r.version / 0x100 && s[2] == r.version % 256
            && s[3..11] == r.sequence && s[11] == |r.body| / 0x100 && s[12] == |r.body| % 256 && s[13..] == r.body
  {
    hide Digits;
    TwoDigits(r.version);
    TwoDigits(|r.body|);
    assert RecordBytes(r)[3..11] == r.sequence;
  }

  /** The packet has a record header and all the bytes that it announces, of which there are at most
      2^14 + 320. */
  predicate StartsWithRecord(packet: seq<byte>) {
    |packet| >= 13 && U16At(packet, 11) <= 0x4140 && 13 + U16At(packet, 11) <= |packet|
  }

  /** Without keys only the major version has to be right, with keys it has to be the version agreed on. */
  predicate RightVersion(packet: seq<byte>, nullCipher: bool, recordVersion: nat)
    requires |packet| >= 13
  {
    if nullCipher then packet[1] == 0xfe else U16At(packet, 1) == recordVersion
  }

  /** Exactly the packets that start with a whole record parse, and each part is read where it stands. */
  lemma RecordByItsBytes(packet: seq<byte>, nullCipher: bool, recordVersion: nat)
    ensures ParseRecord(packet).Some? <==> StartsWithRecord(packet)
    ensures StartsWithRecord(packet) ==>
              var (r, rest), end := ParseRecord(packet).value, 13 + U16At(packet, 11);
              && r == WireRecord(packet[0], U16At(packet, 1), packet[3..11], packet[13..end])
              && rest == packet[end..]
              && (VersionOk(r.version, nullCipher, recordVersion) <==> RightVersion(packet, nullCipher, recordVersion))
  {
    hide Value;
    if |packet| >= 13 {
      ValueOfTwo(packet, 1);
      ValueOfTwo(packet, 11);
    }
  }

  /** A record is read back from its bytes, whatever follows it in the packet. */
  lemma ParseOfRecord(r: WireRecord, rest: seq<byte>)
    requires WellFormedRecord(r)
    ensures ParseRecord(RecordBytes(r) + rest) == Some((r, rest))
  {
    hide Value, Digits;
    assert Power256(2) == 0x1_0000;
    var s := RecordBytes(r) + rest;
    ValueOfDigits(r.version, 2);
    ValueOfDigits(|r.body|, 2);
    assert s[1..3] == Digits(r.version, 2) && s[3..11] == r.sequence && s[11..13] == Digits(|r.body|, 2);
    var end := RECORD_HEADER_LENGTH + |r.body|;
    assert s[RECORD_HEADER_LENGTH..end] == r.body && s[end..] == rest;
  }

  /** What is read as a record are its bytes. */
  lemma BytesOfRecord(s: seq<byte>)
    requires ParseRecord(s).Some?
    ensures var (r, rest) := ParseRecord(s).value;
            WellFormedRecord(r) && s == RecordBytes(r) + rest && |RecordBytes(r)| == |s| - |rest|
  {
    hide Value, Digits;
    assert Power256(2) == 0x1_0000;
    var end := RECORD_HEADER_LENGTH + Value(s[11..13]);
    ValueBound(s[1..3]);
    DigitsOfValue(s[1..3]);
    DigitsOfValue(s[11..13]);
    assert s == [s[0]] + s[1..3] + s[3..11] + s[11..13] + s[13..end] + s[end..];
  }

  // ----- runs of records and epoch changes -----

  const NUMBERS_PER_EPOCH := 0x1_0000_0000_0000

  /** The two epoch bytes at the front of a record number. */
  function EpochOf(n: SeqNum): nat {
    n / NUMBERS_PER_EPOCH
  }

  datatype ReadState = ReadState(epoch: nat, window: Window)

  datatype Verdict = Discard | TooLong | Accept

  datatype Event =
    | Arrive(number: SeqNum, authentic: bool, plainLen: nat)
    | NewEpoch

  function Open(st: ReadState, number: SeqNum, authentic: bool, plainLen: nat): (ReadState, Verdict) {
    if EpochOf(number) != st.epoch || ShouldDiscard(st.window, number) then (st, Discard)
    else if !authentic then (st, Discard)
    else if plainLen > MAX_PLAIN_LENGTH then (st, TooLong)
    else (st.(window := Record(st.window, number)), Accept)
  }

  function NextEpoch(st: ReadState): ReadState {
    ReadState((st.epoch + 1) % 0x1_0000, EMPTY)
  }

  /** The state after `events` and the numbers of the records accepted on the way. */
  function Run(events: seq<Event>): (ReadState, seq<SeqNum>) {
    if events == [] then (ReadState(0, EMPTY), [])
    else
      var (st, accepted) := Run(events[..|events| - 1]);
      match events[|events| - 1]
      case NewEpoch => (NextEpoch(st), accepted)
      case Arrive(number, authentic, plainLen) =>
        var (st', v) := Open(st, number, authentic, plainLen);
        (st', if v.Accept? then accepted + [number] else accepted)
  }

  function EpochChanges(events: seq<Event>): nat {
    if events == [] then 0
    else EpochChanges(events[..|events| - 1]) + (if events[|events| - 1].NewEpoch? then 1 else 0)
  }

  /** The accepted numbers that belong to `epoch`. */
  function SeenIn(accepted: seq<SeqNum>, epoch: nat): set<SeqNum> {
    set n <- accepted | EpochOf(n) == epoch
  }

  lemma {:induction false} RunInvariant(events: seq<Event>)
    requires EpochChanges(events) < 0x1_0000
    ensures var (st, accepted) := Run(events);
            && st.epoch == EpochChanges(events)
            && (forall n <- accepted :: EpochOf(n) <= st.epoch)
            && Represents(st.window, SeenIn(accepted, st.epoch))
            && (forall i, j :: 0 <= i < j < |accepted| ==> accepted[i] != accepted[j])
  {
    hide Represents, ShouldDiscard, Record, Stale;
    if events == [] {
      EmptyRepresents();
      assert SeenIn([], 0) == {};
    } else {
      var prefix, last := events[..|events| - 1], events[|events| - 1];
      RunInvariant(prefix);
      var (st, accepted) := Run(prefix);
      if last.NewEpoch? {
        EmptyRepresents();
        assert SeenIn(accepted, st.epoch + 1) == {};
      } else if Open(st, last.number, last.authentic, last.plainLen).1.Accept? {
        DiscardIsExact(st.window, SeenIn(accepted, st.epoch), last.number);
        RecordRepresents(st.window, SeenIn(accepted, st.epoch), last.number);
        assert SeenIn(accepted + [last.number], st.epoch) == SeenIn(accepted, st.epoch) + {last.number};
      }
    }
  }

  /** No record is accepted twice in any run, across any number of epochs short of a wrap. */
  lemma NeverAcceptedTwice(events: seq<Event>, i: nat, j: nat)
    requires EpochChanges(events) < 0x1_0000
    requires i < j < |Run(events).1|
    ensures Run(events).1[i] != Run(events).1[j]
  {
    RunInvariant(events);
  }

  /** A record is accepted after any run exactly when it is authentic, of the current epoch, of at most 2^14
      bytes, not accepted before and less than 64 below every accepted number of the epoch. */
  lemma AcceptedIffFresh(events: seq<Event>, number: SeqNum, authentic: bool, plainLen: nat)
    requires EpochChanges(events) < 0x1_0000
    ensures var (st, accepted) := Run(events);
            Open(st, number, authentic, plainLen).1.Accept? <==>
            && authentic && plainLen <= 0x4000 && EpochOf(number) == EpochChanges(events) && number !in accepted
            && forall m <- accepted :: EpochOf(m) == EpochChanges(events) ==> m - number < 64
  {
    hide Represents, ShouldDiscard, Record;
    RunInvariant(events);
    var (st, accepted) := Run(events);
    var seen := SeenIn(accepted, st.epoch);
    DiscardIsExact(st.window, seen, number);
    assert forall m :: m in seen <==> m in accepted && EpochOf(m) == st.epoch;
  }

  // ----- the program's operations -----

  /** Reads an 8-byte record number. */
  method ToU64(bytes: seq<byte>) returns (ret: SeqNum)
    requires |bytes| == 8
    ensures ret == Value(bytes)
  {
    var word := 0;
    for i := 0 to 8
      invariant word == Value(bytes[..i]) < Power256(i)
    {
      PowerMonotone(i + 1, 8);
      assert Power256(8) == MAX_SEQ_NUM + 1;
      word := (word * 256) % (MAX_SEQ_NUM + 1) + bytes[i];
      assert bytes[..i + 1][..i] == bytes[..i];
    }
    assert bytes[..8] == bytes;
    ret := word;
  }

  /** The receiving half of the record layer: the epoch and its replay bitmap. */
  class RecordReader {
    var epoch: nat
    var bits: bv64
    var maxSeqNum: SeqNum

    function View(): ReadState
      reads this
    {
      ReadState(epoch, Window(bits, maxSeqNum))
    }

    constructor ()
      ensures View() == Run([]).0
    {
      epoch, bits, maxSeqNum := 0, 0, 0;
    }

    method BitmapShouldDiscard(sequence: seq<byte>) returns (discard: bool)
      requires |sequence| == 8
      ensures Value(sequence) <= MAX_SEQ_NUM
      ensures discard == ShouldDiscard(View().window, Value(sequence))
    {
      var n := ToU64(sequence);
      if n > maxSeqNum {
        return false;
      }
      var idx := maxSeqNum - n;
      discard := idx >= WINDOW_SIZE || Test(bits, OneHot(idx));
    }

    method BitmapRecord(sequence: seq<byte>)
      requires |sequence| == 8
      modifies this`bits, this`maxSeqNum
      ensures Value(sequence) <= MAX_SEQ_NUM
      ensures View().window == Record(old(View().window), Value(sequence))
    {
      var n := ToU64(sequence);
      if n > maxSeqNum {
        var shift := n - maxSeqNum;
        bits := if shift >= WINDOW_SIZE then 0 else Shl(bits, shift);
        maxSeqNum := n;
      }
      var idx := maxSeqNum - n;
      if idx < WINDOW_SIZE {
        bits := bits | OneHot(idx);
      }
    }

    /** Judges a record whose header carried `sequence`; `authentic` and `plainLen` are what
        decryption reports. */
    method Judge(sequence: seq<byte>, authentic: bool, plainLen: nat) returns (v: Verdict)
      requires |sequence| == 8
      modifies this
      ensures Value(sequence) <= MAX_SEQ_NUM
      ensures (View(), v) == Open(old(View()), Value(sequence), authentic, plainLen)
    {
      EpochBytes(sequence);
      var recordEpoch := 256 * (sequence[0] as int) + sequence[1];
      var discard := BitmapShouldDiscard(sequence);
      if recordEpoch != epoch || discard {
        return Discard;
      }
      if !authentic {
        return Discard;
      }
      if plainLen > MAX_PLAIN_LENGTH {
        return TooLong;
      }
      BitmapRecord(sequence);
      v := Accept;
    }

    /** Opens the first record of a packet. A packet that does not start with a record of the right version
        is dropped as a whole, a record that is not accepted is dropped alone. */
    method OpenRecord(packet: seq<byte>, closed: bool, nullCipher: bool, recordVersion: nat, authentic: bool,
                      plainLen: nat)
      returns (result: OpenResult, consumed: nat)
      modifies this
      ensures closed || packet == [] ==>
                consumed == 0 && View() == old(View()) && result == if closed then Closed else Partial
      ensures !closed && packet != [] ==>
                if !StartsWithRecord(packet) || !RightVersion(packet, nullCipher, recordVersion) then
                  result == Dropped && consumed == |packet| && View() == old(View())
                else
                  && consumed == 13 + U16At(packet, 11)
                  && Value(packet[3..11]) <= MAX_SEQ_NUM
                  && var (st, v) := Open(old(View()), Value(packet[3..11]), authentic, plainLen);
                     && View() == st
                     && result == (match v case Discard => Dropped case TooLong => Overflow
                                   case Accept => if packet[0] == 21 then Alert else Opened(packet[0]))
    {
      if closed {
        return Closed, 0;
      }
      if packet == [] {
        return Partial, 0;
      }
      RecordByItsBytes(packet, nullCipher, recordVersion);
      var parsed := ParseRecord(packet);
      if parsed.None? {
        return Dropped, |packet|;
      }
      var (r, rest) := parsed.value;
      if !VersionOk(r.version, nullCipher, recordVersion) {
        return Dropped, |packet|;
      }
      consumed := |packet| - |rest|;
      var v := Judge(r.sequence, authentic, plainLen);
      match v
      case Discard => result := Dropped;
      case TooLong => result := Overflow;
      case Accept => result := if r.typ == SSL3_RT_ALERT then Alert else Opened(r.typ);
    }

    method SetReadState(leftoverData: bool) returns (ok: bool)
      modifies this
      ensures ok == !leftoverData
      ensures View() == if ok then NextEpoch(old(View())) else old(View())
    {
      if leftoverData {
        return false;
      }
      epoch := (epoch + 1) % 0x1_0000;
      bits, maxSeqNum := 0, 0;
      ok := true;
    }
  }

  lemma EpochBytes(sequence: seq<byte>)
    requires |sequence| == 8
    ensures Value(sequence) <= MAX_SEQ_NUM && EpochOf(Value(sequence)) == 256 * (sequence[0] as int) + sequence[1]
  {
    var high, low := sequence[..2], sequence[2..];
    assert sequence == high + low;
    ValueOfConcat(high, low);
    ValueBound(sequence);
    ValueBound(low);
    assert Power256(8) == MAX_SEQ_NUM + 1 && Power256(6) == NUMBERS_PER_EPOCH;
    assert high[..1][..0] == [] && Value(high) == 256 * (sequence[0] as int) + sequence[1];
  }
}
