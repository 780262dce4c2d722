/** What the handshake state machines share: the transcript, the flight being put together and the
    messages received but not yet processed. */
module HandshakeConnection {
  import opened Basics
  import opened HandshakeScript

  /** Why a handshake stops for now. */
  datatype Wait =
    | Ok
    | Error
    | Flush
    | ReadMessage
    | ReadChangeCipherSpec
    | EarlyReturn
    | CertificateSelection
    | X509Lookup
    | PendingSession
    | CertificateVerification
    | PrivateKeyOperation
    | ChannelIdLookup

  /** A message of the wrong type ends the handshake. */
  function Checked(rightType: bool): Wait {
    if rightType then Ok else Error
  }

  function Other(side: Side): Side {
    if side.Client? then Server else Client
  }

  class Connection {
    var transcript: Transcript
    var flight: seq<Item>
    var hsBuf: seq<Message>
    /** Everything ever added to the flight, everything ever flushed, and everything ever received. */
    ghost var added: seq<Item>
    ghost var flushed: seq<Item>
    ghost var received: seq<Item>

    constructor ()
      ensures transcript == Transcript(Some([]), None) && flight == [] && hsBuf == [] && added == [] && flushed == []
              && received == []
    {
      transcript, flight, hsBuf := Transcript(Some([]), None), [], [];
      added, flushed, received := [], [], [];
    }

    /** `side` has processed the first `n` places: its transcript is the messages of those places, each
        once and in order, it has sent exactly its own of them, it has received all the other side's of
        them, and what it has received beyond is the beginning of what the other side sends from there on. */
    ghost predicate At(p: Params, side: Side, n: nat, hashing: bool)
      reads this
    {
      && n <= Places(p)
      && Holds(transcript, Log(p, n), hashing)
      && added == Out(p, side, n) == flushed + flight
      && received == Out(p, Other(side), n) + Wrapped(hsBuf) && Wrapped(hsBuf) <= Rest(p, Other(side), n)
    }

    /** What the transcript gives at a place. */
    lemma Standing(p: Params, side: Side, n: nat)
      requires At(p, side, n, true)
      ensures n <= Places(p) && Hash(transcript) == Log(p, n)
              && (transcript.buffer.Some? ==> Buffer(transcript) == Log(p, n))
    {
    }

    method GetMessage() returns (msg: Option<Message>)
      ensures msg == if hsBuf == [] then None else Some(hsBuf[0])
    {
      msg := if hsBuf == [] then None else Some(hsBuf[0]);
    }

    /** What reading a message made of the messages `before`: with none at hand it waits for one; one that is not
        `expected` is an error that changes nothing from `start`; any other is hashed onto `base` and removed. */
    ghost predicate Reads(before: seq<Message>, start: Transcript, base: Transcript, wait: Wait,
                          expected: Message -> bool)
      reads this
    {
      if before == [] then wait.ReadMessage? && hsBuf == [] && transcript == start
      else if !expected(before[0]) then wait.Error? && hsBuf == before && transcript == start
      else wait.Ok? && hsBuf == before[1..] && transcript == Update(base, before[0])
    }

    /** The message for place `n` has been hashed and not yet removed. */
    ghost predicate Hashed(p: Params, side: Side, n: nat, hashing: bool)
      reads this
    {
      && n < Places(p) && FilledBy(p, Other(side), n) && hsBuf != [] && ItemAt(p, n) == Handshake(hsBuf[0])
      && Holds(transcript, Log(p, n + 1), hashing)
      && added == Out(p, side, n) == flushed + flight
      && received == Out(p, Other(side), n) + Wrapped(hsBuf) && Wrapped(hsBuf) <= Rest(p, Other(side), n)
    }

    method HashMessage(msg: Message, ghost p: Params, ghost side: Side, ghost n: nat, ghost hashing: bool)
      requires hsBuf != [] && msg == hsBuf[0]
      modifies `transcript
      ensures transcript == Update(old(transcript), msg)
      ensures n < Places(p) && FilledBy(p, Other(side), n) && old(At(p, side, n, hashing)) ==>
                Hashed(p, side, n, hashing)
    {
      hide ItemAt, KindAt, Present;
      if n < Places(p) && FilledBy(p, Other(side), n) && At(p, side, n, hashing) {
        Arrived(p, side, n, hashing);
      }
      transcript := Update(transcript, msg);
    }

    method NextMessage(ghost p: Params, ghost side: Side, ghost n: nat, ghost hashing: bool)
      requires hsBuf != []
      modifies `hsBuf
      ensures hsBuf == old(hsBuf)[1..]
      ensures old(Hashed(p, side, n, hashing)) ==> At(p, side, n + 1, hashing)
    {
      hide ItemAt, KindAt, Present, Filled, Log, Holds, Wrapped;
      assert Wrapped(hsBuf[1..]) == Wrapped(hsBuf)[1..];
      assert Hashed(p, side, n, hashing) ==> Rest(p, Other(side), n)[1..] == Rest(p, Other(side), n + 1);
      hsBuf := hsBuf[1..];
    }

    /** The other side's Finished for place `n`, if it is honest. */
    ghost predicate AwaitsFinished(p: Params, from: Side, n: nat, secret: seq<Message>)
      reads this
    {
      && At(p, Other(from), n, true) && n < Places(p) && FilledBy(p, from, n)
      && ItemAt(p, n) == Handshake(Finished(from, secret, Log(p, n)))
    }

    /** Checks the message received next, whatever it is, against this side's own transcript, and takes it in
        exactly if it is the other side's Finished for that transcript and secret. */
    method GetFinished(secret: seq<Message>, from: Side, ghost p: Params, ghost n: nat) returns (wait: Wait)
      modifies `transcript, `hsBuf
      ensures old(hsBuf) == [] ==> wait == ReadMessage && transcript == old(transcript) && hsBuf == []
      ensures old(hsBuf) != [] ==>
                wait == if old(hsBuf)[0] == Finished(from, secret, old(Hash(transcript))) then Ok else Error
      ensures wait.Ok? ==> hsBuf == old(hsBuf)[1..] && transcript == Update(old(transcript), old(hsBuf)[0])
      ensures transcript.buffer.Some? == old(transcript.buffer.Some?)
      ensures old(AwaitsFinished(p, from, n, secret)) ==>
                && !wait.Error?
                && if wait.Ok? then At(p, Other(from), n + 1, true) else At(p, Other(from), n, true)
    {
      hide At, Hashed, Log, Out, Rest, ItemAt, KindAt, Present;
      var msg := GetMessage();
      if msg.None? {
        return ReadMessage;
      }
      if AwaitsFinished(p, from, n, secret) {
        Arrived(p, Other(from), n, true);
        Standing(p, Other(from), n);
      }
      wait := Checked(msg.value.Finished?);
      if wait.Error? {
        return;
      }
      var finished := Hash(transcript);
      HashMessage(msg.value, p, Other(from), n, true);
      wait := Checked(msg.value == Finished(from, secret, finished));
      if wait.Error? {
        return;
      }
      NextMessage(p, Other(from), n, true);
    }

    /** Starts the hash. */
    method StartHash(ghost p: Params, ghost side: Side, ghost n: nat)
      modifies `transcript
      ensures old(At(p, side, n, false)) ==> At(p, side, n, true)
      ensures transcript == InitHash(old(transcript))
    {
      transcript := InitHash(transcript);
    }

    method ReleaseBuffer(ghost p: Params, ghost side: Side, ghost n: nat)
      modifies `transcript
      ensures old(At(p, side, n, true)) ==> At(p, side, n, true)
      ensures old(Hashed(p, side, n, true)) ==> Hashed(p, side, n, true)
      ensures transcript == FreeBuffer(old(transcript))
    {
      transcript := FreeBuffer(transcript);
    }

    /** Adds a message to the flight and the transcript: the next place, if it is this side's. */
    method AddMessage(msg: Message, ghost p: Params, ghost side: Side, ghost n: nat, ghost hashing: bool)
      requires At(p, side, n, hashing) && n < Places(p) && FilledBy(p, side, n) && ItemAt(p, n) == Handshake(msg)
      modifies `flight, `transcript, `added
      ensures At(p, side, n + 1, hashing) && flight == old(flight) + [Handshake(msg)]
              && added == old(added) + [Handshake(msg)]
      ensures transcript == Update(old(transcript), msg)
    {
      hide ItemAt, KindAt, Present;
      flight := flight + [Handshake(msg)];
      transcript := Update(transcript, msg);
      added := added + [Handshake(msg)];
    }

    method AddChangeCipherSpec(ghost p: Params, ghost side: Side, ghost n: nat, ghost hashing: bool)
      requires At(p, side, n, hashing) && n < Places(p) && FilledBy(p, side, n) && ItemAt(p, n) == ChangeCipherSpec
      modifies `flight, `added
      ensures At(p, side, n + 1, hashing) && flight == old(flight) + [ChangeCipherSpec]
              && added == old(added) + [ChangeCipherSpec]
    {
      hide ItemAt, KindAt, Present;
      flight := flight + [ChangeCipherSpec];
      added := added + [ChangeCipherSpec];
    }

    /** Nothing is to be done for a place that is not filled. */
    lemma PassOver(p: Params, side: Side, n: nat, hashing: bool)
      requires At(p, side, n, hashing) && n < Places(p) && !Filled(p, n)
      ensures At(p, side, n + 1, hashing)
    {
      hide ItemAt, KindAt, Present;
    }

    /** A message received is the one for the next place, if that is the other side's. */
    lemma Arrived(p: Params, side: Side, n: nat, hashing: bool)
      requires At(p, side, n, hashing) && n < Places(p) && FilledBy(p, Other(side), n) && hsBuf != []
      ensures ItemAt(p, n) == Handshake(hsBuf[0])
    {
      hide ItemAt, KindAt, Present, Filled;
      assert Wrapped(hsBuf)[0] == Rest(p, Other(side), n)[0];
    }

    /** Before a ChangeCipherSpec no message can have been received. */
    lemma NothingBuffered(p: Params, side: Side, n: nat, hashing: bool)
      requires At(p, side, n, hashing) && n < Places(p) && FilledBy(p, Other(side), n)
               && ItemAt(p, n) == ChangeCipherSpec
      ensures hsBuf == []
    {
      hide Log, KindAt, Present;
      assert Rest(p, Other(side), n)[0] == ChangeCipherSpec;
    }

    /** A ChangeCipherSpec is received; it leaves the transcript as it is. */
    method ReceiveCcs(ghost p: Params, ghost side: Side, ghost n: nat, ghost hashing: bool)
      requires At(p, side, n, hashing) && n < Places(p) && FilledBy(p, Other(side), n)
               && ItemAt(p, n) == ChangeCipherSpec
      modifies `received
      ensures At(p, side, n + 1, hashing) && received == old(received) + [ChangeCipherSpec]
    {
      hide KindAt, Present;
      NothingBuffered(p, side, n, hashing);
      received := received + [ChangeCipherSpec];
    }

    /** Messages are received, in the order in which the other side sends them. */
    method Receive(msgs: seq<Message>, ghost p: Params, ghost side: Side, ghost n: nat, ghost hashing: bool)
      requires At(p, side, n, hashing) && received + Wrapped(msgs) <= Rest(p, Other(side), 0)
      modifies `hsBuf, `received
      ensures At(p, side, n, hashing) && received == old(received) + Wrapped(msgs) && hsBuf == old(hsBuf) + msgs
    {
      hide KindAt, Present, ItemAt, Filled, Log;
      OutAndRest(p, Other(side), n);
      ghost var all, out := Rest(p, Other(side), 0), Out(p, Other(side), n);
      assert Wrapped(hsBuf + msgs) == Wrapped(hsBuf) + Wrapped(msgs);
      assert Rest(p, Other(side), n) == all[|out|..];
      received := received + Wrapped(msgs);
      hsBuf := hsBuf + msgs;
    }

    /** The first `k` items of the flight go out. */
    method FlushSome(k: nat, ghost p: Params, ghost side: Side, ghost n: nat, ghost hashing: bool)
      returns (items: seq<Item>)
      requires At(p, side, n, hashing) && k <= |flight|
      modifies `flight, `flushed
      ensures At(p, side, n, hashing) && items == old(flight)[..k] && flight == old(flight)[k..]
              && flushed == old(flushed) + items
    {
      hide Holds, Rest, Log, Wrapped;
      items := flight[..k];
      flushed := flushed + items;
      flight := flight[k..];
    }

    /** The message received next, if any, is the one for place `n` if that is filled, and the one for a
        later place if not. */
    lemma IsNext(p: Params, side: Side, n: nat, hashing: bool)
      requires At(p, side, n, hashing) && n < Places(p) && hsBuf != []
      ensures var k := NextPlace(p, Other(side), n); k < Places(p) && ItemAt(p, k) == Handshake(hsBuf[0])
    {
      hide Log, Out, ItemAt, KindAt, Present, Filled;
      RestStarts(p, Other(side), n);
      assert Wrapped(hsBuf)[0] == Rest(p, Other(side), n)[0];
    }
  }
}
