/** An outgoing flight of handshake messages and the fragments it may be cut into
    (section 4.2.3 of RFC 6347). */
module Flight {
  import opened Basics
  import opened BigEndian
  import opened Fragments

  /** `DTLS_OUTGOING_MESSAGE`: a handshake message serialized as a single fragment, or a
      ChangeCipherSpec. */
  datatype OutgoingMessage = OutgoingMessage(data: seq<byte>, epoch: nat, isCcs: bool)

  /** What one sealed record holds. */
  datatype Piece = CcsPiece(epoch: nat) | FragmentPiece(epoch: nat, fragment: Fragment)

  /** `outgoing_written` and `outgoing_offset`. */
  datatype Position = Position(written: nat, offset: nat)

  /** The whole message as one fragment. */
  function Whole(typ: byte, seqNo: nat, body: seq<byte>): Fragment {
    Fragment(Header(typ, |body|, seqNo, 0, |body|), body)
  }

  /** The bytes of `body` from `off`, `len` of them, as a fragment of its message. */
  function Slice(whole: Fragment, off: nat, len: nat): Fragment
    requires off + len <= |whole.body|
  {
    Fragment(whole.hdr.(fragOff := off, fragLen := len), whole.body[off..off + len])
  }

  /** The unfragmented handshake message that is all of `data`. */
  function ParseWhole(data: seq<byte>): Option<Fragment> {
    match Parse(data)
    case None => None
    case Some((f, rest)) =>
      if f.hdr.fragOff != 0 || f.hdr.fragLen != |f.body| || f.hdr.msgLen != |f.body| || rest != [] then None
      else Some(f)
  }

  predicate HoldsWhole(m: OutgoingMessage) {
    ParseWhole(m.data).Some?
  }

  function WholeOf(m: OutgoingMessage): Fragment
    requires HoldsWhole(m)
  {
    ParseWhole(m.data).value
  }

  /** A message serialized as one fragment is read back as that. */
  lemma WrittenMessage(typ: byte, seqNo: nat, body: seq<byte>, epoch: nat)
    requires FitsU24(|body|) && seqNo < SEQ_SPAN
    ensures var m := OutgoingMessage(Bytes(Whole(typ, seqNo, body)), epoch, false);
            HoldsWhole(m) && WholeOf(m) == Whole(typ, seqNo, body)
  {
    hide Parse, HeaderBytes;
    var whole := Whole(typ, seqNo, body);
    assert Bytes(whole) + [] == Bytes(whole);
    ParseOfBytes(whole, []);
  }

  ghost predicate WellFormedFlight(msgs: seq<OutgoingMessage>) {
    forall m <- msgs :: m.isCcs || HoldsWhole(m)
  }

  /** The offset is inside the body of the next message, or zero. */
  ghost predicate PositionValid(msgs: seq<OutgoingMessage>, p: Position) {
    && p.written <= |msgs|
    && (p.offset != 0 ==>
          p.written < |msgs| && !msgs[p.written].isCcs && HoldsWhole(msgs[p.written])
          && p.offset < |WholeOf(msgs[p.written]).body|)
  }

  /** `piece` is the next part of the flight at `p`; sending it leads to `q`. */
  ghost predicate Advances(msgs: seq<OutgoingMessage>, p: Position, piece: Piece, q: Position) {
    && p.written < |msgs|
    && var m := msgs[p.written];
       if m.isCcs then
         piece == CcsPiece(m.epoch) && p.offset == 0 && q == Position(p.written + 1, 0)
       else
         && HoldsWhole(m) && piece.FragmentPiece? && piece.epoch == m.epoch
         && var whole := WholeOf(m);
            var len := |piece.fragment.body|;
            && p.offset + len <= |whole.body|
            && piece.fragment == Slice(whole, p.offset, len)
            && q == (if p.offset + len == |whole.body| then Position(p.written + 1, 0)
                     else Position(p.written, p.offset + len))
            && (q.written == p.written ==> len > 0)
  }

  lemma CcsAdvances(msgs: seq<OutgoingMessage>, p: Position)
    requires PositionValid(msgs, p) && p.written < |msgs| && msgs[p.written].isCcs
    ensures Advances(msgs, p, CcsPiece(msgs[p.written].epoch), Position(p.written + 1, 0))
  {
  }

  lemma SliceAdvances(msgs: seq<OutgoingMessage>, p: Position, len: nat)
    requires PositionValid(msgs, p) && p.written < |msgs| && !msgs[p.written].isCcs && HoldsWhole(msgs[p.written])
    requires p.offset + len <= |WholeOf(msgs[p.written]).body|
    requires len > 0 || p.offset == |WholeOf(msgs[p.written]).body|
    ensures var whole := WholeOf(msgs[p.written]);
            var piece := FragmentPiece(msgs[p.written].epoch, Slice(whole, p.offset, len));
            if p.offset + len == |whole.body| then Advances(msgs, p, piece, Position(p.written + 1, 0))
            else
              var q := Position(p.written, p.offset + len);
              Advances(msgs, p, piece, q) && PositionValid(msgs, q)
  {
  }

  /** `pieces`, in order, lead from `p` to `q`. */
  ghost predicate Chain(msgs: seq<OutgoingMessage>, p: Position, pieces: seq<Piece>, q: Position)
    decreases |pieces|
  {
    if pieces == [] then p == q
    else exists mid :: Advances(msgs, p, pieces[0], mid) && Chain(msgs, mid, pieces[1..], q)
  }

  lemma {:induction false} ChainConcat(msgs: seq<OutgoingMessage>, p: Position, a: seq<Piece>, q: Position,
                                       b: seq<Piece>, r: Position)
    requires Chain(msgs, p, a, q) && Chain(msgs, q, b, r)
    ensures Chain(msgs, p, a + b, r)
    decreases |a|
  {
    hide Advances;
    if a == [] {
      assert a + b == b;
    } else {
      var mid :| Advances(msgs, p, a[0], mid) && Chain(msgs, mid, a[1..], q);
      ChainConcat(msgs, mid, a[1..], q, b, r);
      assert (a + b)[1..] == a[1..] + b;
    }
  }

  lemma ChainOne(msgs: seq<OutgoingMessage>, p: Position, piece: Piece, q: Position)
    requires Advances(msgs, p, piece, q)
    ensures Chain(msgs, p, [piece], q)
  {
    assert Chain(msgs, q, [piece][1..], q);
  }

  predicate Before(p: Position, q: Position) {
    p.written < q.written || (p.written == q.written && p.offset < q.offset)
  }

  /** Every piece makes progress. */
  lemma {:induction false} ChainProgress(msgs: seq<OutgoingMessage>, p: Position, pieces: seq<Piece>, q: Position)
    requires Chain(msgs, p, pieces, q) && pieces != []
    ensures Before(p, q)
    decreases |pieces|
  {
    var mid :| Advances(msgs, p, pieces[0], mid) && Chain(msgs, mid, pieces[1..], q);
    assert Before(p, mid);
    if |pieces| > 1 {
      ChainProgress(msgs, mid, pieces[1..], q);
    }
  }

  // ----- a complete chain tiles every message -----

  /** The bodies of the fragments numbered `seqNo`, in the order sent. */
  function Joined(pieces: seq<Piece>, seqNo: nat): seq<byte> {
    if pieces == [] then []
    else if pieces[0].FragmentPiece? && pieces[0].fragment.hdr.seqNo == seqNo then
      pieces[0].fragment.body + Joined(pieces[1..], seqNo)
    else Joined(pieces[1..], seqNo)
  }

  /** Every fragment numbered `seqNo` starts where the ones before it ended, the first at `start`. */
  predicate Contiguous(pieces: seq<Piece>, seqNo: nat, start: nat) {
    pieces != [] ==>
      if pieces[0].FragmentPiece? && pieces[0].fragment.hdr.seqNo == seqNo then
        pieces[0].fragment.hdr.fragOff == start && Contiguous(pieces[1..], seqNo, start + |pieces[0].fragment.body|)
      else Contiguous(pieces[1..], seqNo, start)
  }

  /** The handshake messages carry the consecutive 16-bit numbers just before `next`. */
  ghost predicate Numbered(msgs: seq<OutgoingMessage>, next: nat) {
    if msgs == [] then true
    else
      var init, last := msgs[..|msgs| - 1], msgs[|msgs| - 1];
      if last.isCcs then Numbered(init, next)
      else
        && HoldsWhole(last) && (WholeOf(last).hdr.seqNo + 1) % SEQ_SPAN == next
        && Numbered(init, WholeOf(last).hdr.seqNo)
  }

  lemma EmptyFlight(next: nat)
    ensures WellFormedFlight([]) && Numbered([], next) && PositionValid([], Position(0, 0))
  {
  }

  /** One more message, carrying `next` if it is numbered. */
  lemma FlightGrows(msgs: seq<OutgoingMessage>, m: OutgoingMessage, next: nat, p: Position)
    requires WellFormedFlight(msgs) && Numbered(msgs, next) && PositionValid(msgs, p)
    requires m.isCcs || (HoldsWhole(m) && WholeOf(m).hdr.seqNo == next)
    ensures WellFormedFlight(msgs + [m]) && PositionValid(msgs + [m], p)
    ensures Numbered(msgs + [m], if m.isCcs then next else (next + 1) % SEQ_SPAN)
  {
    hide HoldsWhole, WholeOf;
    assert (msgs + [m])[..|msgs|] == msgs;
  }

  /** How many handshake messages there are from the `k`-th message on. */
  ghost function CountFrom(msgs: seq<OutgoingMessage>, k: nat): (n: nat)
    ensures n <= if k <= |msgs| then |msgs| - k else 0
  {
    if |msgs| <= k then 0
    else CountFrom(msgs[..|msgs| - 1], k) + if msgs[|msgs| - 1].isCcs then 0 else 1
  }

  /** Message `k` carries the number as far before `next` as there are messages from it on. */
  lemma {:induction false} NumberOfMessage(msgs: seq<OutgoingMessage>, next: nat, k: nat)
    requires Numbered(msgs, next) && next < SEQ_SPAN && k < |msgs| && !msgs[k].isCcs
    ensures HoldsWhole(msgs[k]) && (WholeOf(msgs[k]).hdr.seqNo + CountFrom(msgs, k)) % SEQ_SPAN == next
  {
    hide HoldsWhole, WholeOf;
    var n := |msgs| - 1;
    var init, last := msgs[..n], msgs[n];
    if k == n {
      assert CountFrom(init, k) == 0;
    } else if last.isCcs {
      NumberOfMessage(init, next, k);
    } else {
      var before := WholeOf(last).hdr.seqNo;
      NumberBelow(last);
      NumberOfMessage(init, before, k);
      var r := WholeOf(init[k]).hdr.seqNo + CountFrom(init, k);
      assert (r + 1) % SEQ_SPAN == (r % SEQ_SPAN + 1) % SEQ_SPAN;
    }
  }

  lemma NumberBelow(m: OutgoingMessage)
    requires HoldsWhole(m)
    ensures WholeOf(m).hdr.seqNo < SEQ_SPAN
  {
    hide Bytes;
    BytesOfParse(m.data);
  }

  lemma {:induction false} CountsFall(msgs: seq<OutgoingMessage>, i: nat, j: nat)
    requires i < j < |msgs| && !msgs[i].isCcs
    ensures CountFrom(msgs, i) > CountFrom(msgs, j)
  {
    var n := |msgs| - 1;
    if j < n {
      CountsFall(msgs[..n], i, j);
    } else {
      SomeFrom(msgs[..n], i);
      assert CountFrom(msgs[..n], j) == 0;
    }
  }

  lemma {:induction false} SomeFrom(msgs: seq<OutgoingMessage>, i: nat)
    requires i < |msgs| && !msgs[i].isCcs
    ensures CountFrom(msgs, i) >= 1
  {
    if i < |msgs| - 1 {
      SomeFrom(msgs[..|msgs| - 1], i);
    }
  }

  /** Numbered messages have different numbers, even where the 16-bit number wraps in between. */
  lemma NumberedAreDistinct(msgs: seq<OutgoingMessage>, next: nat)
    requires Numbered(msgs, next) && next < SEQ_SPAN && |msgs| < SEQ_SPAN
    ensures DistinctNumbers(msgs)
  {
    hide HoldsWhole, WholeOf, Numbered, CountFrom;
    forall i, j | 0 <= i < j < |msgs| && !msgs[i].isCcs && !msgs[j].isCcs && HoldsWhole(msgs[i]) && HoldsWhole(msgs[j])
      ensures WholeOf(msgs[i]).hdr.seqNo != WholeOf(msgs[j]).hdr.seqNo
    {
      NumberOfMessage(msgs, next, i);
      NumberOfMessage(msgs, next, j);
      CountsFall(msgs, i, j);
      ApartModulo(WholeOf(msgs[i]).hdr.seqNo, CountFrom(msgs, i), CountFrom(msgs, j));
    }
  }

  lemma ApartModulo(a: nat, m: nat, n: nat)
    requires n < m < n + SEQ_SPAN
    ensures (a + m) % SEQ_SPAN != (a + n) % SEQ_SPAN
  {
  }

  /** Handshake messages of one flight carry different numbers. */
  ghost predicate DistinctNumbers(msgs: seq<OutgoingMessage>) {
    forall i, j | 0 <= i < j < |msgs| && !msgs[i].isCcs && !msgs[j].isCcs && HoldsWhole(msgs[i])
        && HoldsWhole(msgs[j]) ::
      WholeOf(msgs[i]).hdr.seqNo != WholeOf(msgs[j]).hdr.seqNo
  }

  /** What of message `k` is still to be sent at `p`. */
  ghost function Remaining(msgs: seq<OutgoingMessage>, p: Position, k: nat): seq<byte>
    requires k < |msgs| && !msgs[k].isCcs && HoldsWhole(msgs[k])
  {
    var body := WholeOf(msgs[k]).body;
    if k < p.written then [] else if k == p.written && p.offset <= |body| then body[p.offset..] else body
  }

  /** Where the next fragment of message `k` starts at `p`. */
  ghost function StartOf(msgs: seq<OutgoingMessage>, p: Position, k: nat): nat
    requires k < |msgs| && !msgs[k].isCcs && HoldsWhole(msgs[k])
  {
    if k < p.written then |WholeOf(msgs[k]).body| else if k == p.written then p.offset else 0
  }

  /** One piece takes exactly its own bytes off what is left of message `k`. */
  lemma PieceTiles(msgs: seq<OutgoingMessage>, p: Position, piece: Piece, q: Position, k: nat)
    requires Advances(msgs, p, piece, q)
    requires k < |msgs| && !msgs[k].isCcs && HoldsWhole(msgs[k])
    ensures k == p.written ==>
              && piece.FragmentPiece? && piece.fragment.hdr.fragOff == StartOf(msgs, p, k)
              && piece.fragment.hdr.seqNo == WholeOf(msgs[k]).hdr.seqNo
              && Remaining(msgs, p, k) == piece.fragment.body + Remaining(msgs, q, k)
              && StartOf(msgs, q, k) == StartOf(msgs, p, k) + |piece.fragment.body|
    ensures k != p.written ==>
              Remaining(msgs, p, k) == Remaining(msgs, q, k) && StartOf(msgs, p, k) == StartOf(msgs, q, k)
  {
    hide HoldsWhole, WholeOf;
  }

  lemma {:induction false} ChainTiles(msgs: seq<OutgoingMessage>, p: Position, pieces: seq<Piece>, k: nat)
    requires DistinctNumbers(msgs)
    requires k < |msgs| && !msgs[k].isCcs && HoldsWhole(msgs[k])
    requires Chain(msgs, p, pieces, Position(|msgs|, 0))
    ensures var seqNo := WholeOf(msgs[k]).hdr.seqNo;
            && Joined(pieces, seqNo) == Remaining(msgs, p, k)
            && Contiguous(pieces, seqNo, StartOf(msgs, p, k))
    decreases |pieces|
  {
    hide HoldsWhole, WholeOf, Remaining, StartOf, Advances;
    if pieces == [] {
      AtEnd(msgs, k);
    } else {
      var mid :| Advances(msgs, p, pieces[0], mid) && Chain(msgs, mid, pieces[1..], Position(|msgs|, 0));
      ChainTiles(msgs, mid, pieces[1..], k);
      PieceTiles(msgs, p, pieces[0], mid, k);
      OtherNumber(msgs, p, pieces[0], mid, k);
    }
  }

  lemma AtEnd(msgs: seq<OutgoingMessage>, k: nat)
    requires k < |msgs| && !msgs[k].isCcs && HoldsWhole(msgs[k])
    ensures Remaining(msgs, Position(|msgs|, 0), k) == []
  {
  }

  lemma OtherNumber(msgs: seq<OutgoingMessage>, p: Position, piece: Piece, q: Position, k: nat)
    requires DistinctNumbers(msgs) && Advances(msgs, p, piece, q)
    requires k < |msgs| && !msgs[k].isCcs && HoldsWhole(msgs[k])
    ensures piece.FragmentPiece? && piece.fragment.hdr.seqNo == WholeOf(msgs[k]).hdr.seqNo ==> k == p.written
  {
    hide HoldsWhole, WholeOf;
  }

  /** `pieces` hold what was left at `p` of every message, once each, in order, with no gap and no
      overlap. */
  ghost predicate Tiles(msgs: seq<OutgoingMessage>, p: Position, pieces: seq<Piece>) {
    forall k | 0 <= k < |msgs| && !msgs[k].isCcs && HoldsWhole(msgs[k]) :: TilesMessage(msgs, p, pieces, k)
  }

  ghost predicate TilesMessage(msgs: seq<OutgoingMessage>, p: Position, pieces: seq<Piece>, k: nat)
    requires k < |msgs| && !msgs[k].isCcs && HoldsWhole(msgs[k])
  {
    var seqNo := WholeOf(msgs[k]).hdr.seqNo;
    Joined(pieces, seqNo) == Remaining(msgs, p, k) && Contiguous(pieces, seqNo, StartOf(msgs, p, k))
  }

  /** Numbered messages are tiled by every chain to the end of the flight. */
  lemma ChainToEndTiles(msgs: seq<OutgoingMessage>, next: nat, p: Position, pieces: seq<Piece>)
    requires Numbered(msgs, next) && next < SEQ_SPAN && |msgs| < SEQ_SPAN
    requires Chain(msgs, p, pieces, Position(|msgs|, 0))
    ensures Tiles(msgs, p, pieces)
  {
    hide HoldsWhole, WholeOf, Numbered, Chain, Joined, Remaining, Contiguous, StartOf;
    NumberedAreDistinct(msgs, next);
    forall k | 0 <= k < |msgs| && !msgs[k].isCcs && HoldsWhole(msgs[k])
      ensures TilesMessage(msgs, p, pieces, k)
    {
      ChainTiles(msgs, p, pieces, k);
    }
  }

  /** Sending a whole flight sends every message's bytes once each, in order, with no gap and no
      overlap, whatever the sizes of the fragments. */
  lemma FlightTilesMessages(msgs: seq<OutgoingMessage>, next: nat, pieces: seq<Piece>, k: nat)
    requires Numbered(msgs, next) && next < SEQ_SPAN && |msgs| < SEQ_SPAN
    requires k < |msgs| && !msgs[k].isCcs && HoldsWhole(msgs[k])
    requires Chain(msgs, Position(0, 0), pieces, Position(|msgs|, 0))
    ensures var whole := WholeOf(msgs[k]);
            Joined(pieces, whole.hdr.seqNo) == whole.body && Contiguous(pieces, whole.hdr.seqNo, 0)
  {
    NumberedAreDistinct(msgs, next);
    ChainTiles(msgs, Position(0, 0), pieces, k);
  }

  // ----- what is lost when a packet cannot be finished -----

  lemma {:induction false} ChainSplit(msgs: seq<OutgoingMessage>, p: Position, a: seq<Piece>, b: seq<Piece>,
                                      r: Position)
    returns (q: Position)
    requires Chain(msgs, p, a + b, r)
    ensures Chain(msgs, p, a, q) && Chain(msgs, q, b, r)
    decreases |a|
  {
    hide Advances;
    if a == [] {
      assert a + b == b;
      return p;
    }
    assert (a + b)[1..] == a[1..] + b;
    var mid :| Advances(msgs, p, a[0], mid) && Chain(msgs, mid, a[1..] + b, r);
    q := ChainSplit(msgs, mid, a[1..], b, r);
  }

  /** Pieces lead from a position to one position only. */
  lemma {:induction false} ChainDetermines(msgs: seq<OutgoingMessage>, p: Position, a: seq<Piece>, q: Position,
                                           r: Position)
    requires Chain(msgs, p, a, q) && Chain(msgs, p, a, r)
    ensures q == r
    decreases |a|
  {
    if a != [] {
      var mid :| Advances(msgs, p, a[0], mid) && Chain(msgs, mid, a[1..], q);
      var other :| Advances(msgs, p, a[0], other) && Chain(msgs, other, a[1..], r);
      ChainDetermines(msgs, mid, a[1..], q, r);
    }
  }

  /** Pieces that lead to a position come from one position only. */
  lemma {:induction false} ChainComesFrom(msgs: seq<OutgoingMessage>, p: Position, q: Position, a: seq<Piece>,
                                          r: Position)
    requires Chain(msgs, p, a, r) && Chain(msgs, q, a, r)
    ensures p == q
    decreases |a|
  {
    if a != [] {
      var mid :| Advances(msgs, p, a[0], mid) && Chain(msgs, mid, a[1..], r);
      var other :| Advances(msgs, q, a[0], other) && Chain(msgs, other, a[1..], r);
      ChainComesFrom(msgs, mid, other, a[1..], r);
    }
  }

  /** A flight of which `sent` was sent before a packet was lost with `lost` in it, and `rest` when it was
      resumed, is sent without a gap exactly when nothing was lost. */
  lemma GaplessIffNothingLost(msgs: seq<OutgoingMessage>, p: Position, sent: seq<Piece>, reached: Position,
                              lost: seq<Piece>, at: Position, rest: seq<Piece>, end: Position)
    requires Chain(msgs, p, sent, reached) && Chain(msgs, reached, lost, at) && Chain(msgs, at, rest, end)
    ensures Chain(msgs, p, sent + rest, end) <==> lost == []
  {
    hide Advances;
    if lost == [] {
      ChainConcat(msgs, p, sent, at, rest, end);
    } else if Chain(msgs, p, sent + rest, end) {
      var q := ChainSplit(msgs, p, sent, rest, end);
      ChainDetermines(msgs, p, sent, reached, q);
      ChainComesFrom(msgs, reached, at, rest, end);
      ChainProgress(msgs, reached, lost, at);
    }
  }

  /** Two messages in one packet, the second of which cannot be sealed: the position stands behind the
      first, and however the flight is resumed from there, the first message is never sent. */
  lemma FirstOfTwoIsSkipped(rest: seq<Piece>)
    requires var msgs := [OutgoingMessage(Bytes(Whole(1, 0, [7])), 0, false),
                          OutgoingMessage(Bytes(Whole(2, 1, [8])), 0, false)];
             Chain(msgs, Position(1, 0), rest, Position(2, 0))
    ensures var first := Whole(1, 0, [7]);
            var msgs := [OutgoingMessage(Bytes(first), 0, false), OutgoingMessage(Bytes(Whole(2, 1, [8])), 0, false)];
            && Chain(msgs, Position(0, 0), [FragmentPiece(0, first)], Position(1, 0))
            && Joined(rest, 0) == [] && WholeOf(msgs[0]).body == [7]
  {
    hide Chain, HeaderBytes, HoldsWhole, WholeOf, Joined, Contiguous;
    var first := Whole(1, 0, [7]);
    var msgs := [OutgoingMessage(Bytes(first), 0, false), OutgoingMessage(Bytes(Whole(2, 1, [8])), 0, false)];
    WrittenMessage(1, 0, [7], 0);
    WrittenMessage(2, 1, [8], 0);
    assert Slice(first, 0, 1) == first;
    ChainOne(msgs, Position(0, 0), FragmentPiece(0, first), Position(1, 0));
    ChainTiles(msgs, Position(1, 0), rest, 0);
  }
}
