/** Record numbers on their way from the sender's counters to the receiver's replay window: epoch and
    counter make up the 8-byte sequence of the record header (section 4.1 of RFC 6347). */
module Sequences {
  import opened Basics
  import opened BigEndian
  import opened RecordNumbers
  import Window = ReplayWindow

  /** The 64-bit number that epoch and counter make up. */
  function Number64(n: (nat, nat)): nat {
    n.0 * COUNTER_SPAN + n.1
  }

  predicate NumberFits(n: (nat, nat)) {
    n.0 < EPOCH_SPAN && n.1 < COUNTER_SPAN
  }

  /** The bytes of the header: two of the epoch and the last six of the counter. */
  function SequenceOf(n: (nat, nat)): (s: seq<byte>)
    ensures |s| == 8
  {
    Digits(n.0, 2) + Digits(n.1, 6)
  }

  /** The receiver reads off the header the number sealed, and its epoch. */
  lemma SequenceRoundTrip(n: (nat, nat))
    requires NumberFits(n)
    ensures Value(SequenceOf(n)) == Number64(n) <= Window.MAX_SEQ_NUM
    ensures Window.EpochOf(Number64(n)) == n.0
  {
    hide Value, Digits;
    assert Power256(2) == EPOCH_SPAN && Power256(6) == COUNTER_SPAN;
    ValueOfDigits(n.0, 2);
    ValueOfDigits(n.1, 6);
    ValueOfConcat(Digits(n.0, 2), Digits(n.1, 6));
  }

  /** The window has recorded nothing, or up to a number that was sealed in the epoch. */
  ghost predicate WindowBehind(st: Window.ReadState, sealed: seq<(nat, nat)>) {
    st.window == Window.EMPTY || exists n :: n in sealed && Tops(st, n)
  }

  ghost predicate Tops(st: Window.ReadState, n: (nat, nat)) {
    NumberFits(n) && n.0 == st.epoch && st.window.max == Number64(n)
  }

  /** Whatever record arrives that was sealed, the window stays behind. */
  lemma StaysBehind(st: Window.ReadState, sealed: seq<(nat, nat)>, n: (nat, nat), authentic: bool, plainLen: nat)
    requires WindowBehind(st, sealed) && n in sealed && NumberFits(n) && Number64(n) <= Window.MAX_SEQ_NUM
    requires Window.EpochOf(Number64(n)) == n.0
    ensures WindowBehind(Window.Open(st, Number64(n), authentic, plainLen).0, sealed)
  {
    var after := Window.Open(st, Number64(n), authentic, plainLen).0;
    if st.window != Window.EMPTY {
      var m :| m in sealed && Tops(st, m);
      assert Tops(after, m) || Tops(after, n);
    } else {
      assert after == st || Tops(after, n);
    }
  }

  lemma BehindMore(st: Window.ReadState, sealed: seq<(nat, nat)>, more: seq<(nat, nat)>)
    requires WindowBehind(st, sealed) && sealed <= more
    ensures WindowBehind(st, more)
  {
    if st.window != Window.EMPTY {
      var n :| n in sealed && Tops(st, n);
      assert n in more;
    }
  }

  /** A number sealed after all that the window has seen is accepted, and the window is then behind it. */
  lemma NextIsAccepted(st: Window.ReadState, sealed: seq<(nat, nat)>, n: (nat, nat), plainLen: nat)
    requires WindowBehind(st, sealed) && Increasing(sealed + [n]) && NumberFits(n) && n.0 == st.epoch
    requires Number64(n) <= Window.MAX_SEQ_NUM && Window.EpochOf(Number64(n)) == n.0
    requires plainLen <= MAX_PLAIN_LENGTH
    ensures Window.Open(st, Number64(n), true, plainLen).1.Accept?
  {
    if st.window == Window.EMPTY {
      Window.EmptyRepresents();
      Window.DiscardIsExact(Window.EMPTY, {}, Number64(n));
    } else {
      var m :| m in sealed && Tops(st, m);
      var i :| 0 <= i < |sealed| && sealed[i] == m;
      assert (sealed + [n])[i] == m && (sealed + [n])[|sealed|] == n;
    }
  }
}
