/** The server's handshake state machine for TLS 1.0 to 1.2. The ClientHello is looked at in three states,
    each of which may have to wait for a callback, before it is hashed once. */
module HandshakeServer {
  import opened HandshakeScript
  import opened HandshakeConnection

  datatype State =
    | StartAccept | ReadClientHello | SelectCertificate | SelectParameters | SendServerHello | SendServerCertificate
    | SendServerKeyExchange | SendServerHelloDone | ReadClientCertificate | VerifyClientCertificate
    | ReadClientKeyExchange | ReadClientCertificateVerify | AwaitChangeCipherSpec | ProcessChangeCipherSpec
    | ReadNextProto | ReadChannelId | ReadClientFinished | SendServerFinished | FinishHandshake | Done

  /** The place in the handshake that a state deals with next. */
  function PlaceOf(resumed: bool, s: State): nat {
    match s
    case StartAccept | ReadClientHello | SelectCertificate | SelectParameters => 0
    case SendServerHello => 1
    case SendServerCertificate => 2
    case SendServerKeyExchange => 4
    case SendServerHelloDone => 5
    case ReadClientCertificate => 7
    case VerifyClientCertificate | ReadClientKeyExchange => 8
    case ReadClientCertificateVerify => 9
    case AwaitChangeCipherSpec => if resumed then 5 else 10
    case ProcessChangeCipherSpec | ReadNextProto => if resumed then 6 else 11
    case ReadChannelId => if resumed then 7 else 12
    case ReadClientFinished => if resumed then 8 else 13
    case SendServerFinished => if resumed then 2 else 14
    case FinishHandshake | Done => if resumed then 9 else 17
  }

  /** The order in which states follow one another. */
  function Rank(resumed: bool, s: State): nat {
    match s
    case StartAccept => 0
    case ReadClientHello => 1
    case SelectCertificate => 2
    case SelectParameters => 3
    case SendServerHello => 4
    case SendServerCertificate => 6
    case SendServerKeyExchange => 7
    case SendServerHelloDone => 8
    case ReadClientCertificate => 9
    case VerifyClientCertificate => 10
    case ReadClientKeyExchange => 11
    case ReadClientCertificateVerify => 12
    case AwaitChangeCipherSpec => 13
    case ProcessChangeCipherSpec => 14
    case ReadNextProto => 15
    case ReadChannelId => 16
    case ReadClientFinished => 17
    case SendServerFinished => if resumed then 5 else 18
    case FinishHandshake => 19
    case Done => 20
  }

  /** The states in which messages are put together that are not yet to be flushed. */
  predicate Sending(s: State) {
    s.SendServerCertificate? || s.SendServerKeyExchange? || s.SendServerHelloDone? || s.SendServerFinished?
  }

  predicate FullOnly(s: State) {
    || s.SendServerCertificate? || s.SendServerKeyExchange? || s.SendServerHelloDone? || s.ReadClientCertificate?
    || s.VerifyClientCertificate? || s.ReadClientKeyExchange? || s.ReadClientCertificateVerify?
  }

  class ServerHandshake {
    const conn: Connection
    /** What the server would choose for this client. */
    const config: Choices
    var state: State
    var wait: Wait
    var resumed: bool
    var certAuth: bool
    var ticketExpected: bool
    var certRequest: bool
    var nextProtoSeen: bool
    var channelIdValid: bool
    var serverParams: bool
    var peerCertificate: bool
    /** The transcript that went into the master secret. */
    var secret: seq<Message>
    ghost const p: Params
    /** The first place of the handshake not yet processed. */
    ghost var place: nat

    /** What the ClientHello led to is settled before it is hashed. */
    ghost predicate Negotiated()
      reads `resumed, `certAuth, `ticketExpected, `certRequest, `nextProtoSeen, `channelIdValid
    {
      && resumed == config.resumed && certAuth == config.certAuth && ticketExpected == config.ticket
      && certRequest == RequestsCertificate(config)
      && nextProtoSeen == config.nextProto && channelIdValid == config.channelId
    }

    ghost predicate AwaitsCcs()
      reads `wait
    {
      wait.ReadChangeCipherSpec?
    }

    /** A message is awaited, none is at hand, and the state is one that reads one. */
    ghost predicate AwaitsMessage()
      reads this, conn
    {
      && conn.hsBuf == []
      && (|| state.ReadClientHello? || (state.ReadClientCertificate? && certRequest) || state.ReadClientKeyExchange?
          || (state.ReadClientCertificateVerify? && peerCertificate) || (state.ReadNextProto? && nextProtoSeen)
          || (state.ReadChannelId? && channelIdValid) || state.ReadClientFinished?)
    }

    /** The machine follows the handshake: it is at the place its state deals with, and its transcript
        holds exactly the messages before that place. */
    ghost predicate Follows()
      reads this, conn
    {
      && config == p.choices
      && place == PlaceOf(p.choices.resumed, state) - (if AwaitsCcs() then 1 else 0)
      && conn.At(p, Server, place, place >= 1)
      && !wait.Error?
      && (AwaitsCcs() ==> state.ProcessChangeCipherSpec?)
      && (state.ProcessChangeCipherSpec? ==> conn.hsBuf == [])
      && (wait.ReadMessage? ==> AwaitsMessage())
      && (conn.flight != [] ==> Sending(state) || (wait.Flush? && !state.Done?))
      && (FullOnly(state) ==> !p.choices.resumed)
      && (state.SelectCertificate? || state.SelectParameters? ==>
            conn.hsBuf != [] && nextProtoSeen == config.nextProto && channelIdValid == config.channelId)
      && (state.SelectParameters? ==> certAuth == config.certAuth)
      && (if place >= 1 then Negotiated() && secret == SecretAt(p, place) else secret == [])
      && (state.SendServerKeyExchange? ==> serverParams == SendsKeyExchange(config))
      && peerCertificate == (place > 7 && RequestsCertificate(p.choices) && p.clientCert)
      && (RequestsCertificate(p.choices) && p.clientCert && place <= 9 ==> conn.transcript.buffer.Some?)
    }

    /** Waits for a message. */
    method AwaitMessage()
      requires wait.Ok?
      modifies `wait
      ensures wait.ReadMessage? && (old(Follows()) && AwaitsMessage() ==> Follows())
    {
      hide Log, Out, Rest, SecretAt, Connection.At, PlaceOf, Negotiated, FullOnly, Sending;
      wait := ReadMessage;
    }

    /** The state moved on, or a message or, after a `retry`, a callback is waited for. */
    ghost predicate Progressed(before: State, retry: bool)
      reads this
    {
      || Rank(p.choices.resumed, state) > Rank(p.choices.resumed, before)
      || (state == before && (wait.ReadMessage? || (retry && !wait.Ok? && !wait.Flush?)))
    }

    constructor (config: Choices, ghost p: Params)
      requires config == p.choices
      ensures Follows() && fresh(conn) && conn.flight == [] && conn.hsBuf == [] && conn.added == []
              && conn.flushed == [] && conn.received == []
      ensures this.p == p && state == StartAccept && wait == Ok && place == 0
      ensures !resumed && !certAuth && !ticketExpected && !certRequest && !nextProtoSeen && !channelIdValid
              && !serverParams && !peerCertificate
    {
      this.config, this.p := config, p;
      conn := new Connection();
      state, wait, place := StartAccept, Ok, 0;
      resumed, certAuth, ticketExpected, certRequest := false, false, false, false;
      nextProtoSeen, channelIdValid, serverParams, peerCertificate := false, false, false, false;
      secret := [];
    }

    // ----- the ClientHello -----

    method DoStartAccept()
      requires Follows() && wait.Ok? && state.StartAccept?
      modifies `state
      ensures Follows() && Progressed(old(state), false)
    {
      hide Log, Out, Rest, Connection.At;
      state := ReadClientHello;
    }

    /** The early callback may ask to be called again. */
    method DoReadClientHello(retry: bool)
      requires wait.Ok? && state.ReadClientHello?
      modifies `state, `wait, `nextProtoSeen, `channelIdValid
      ensures old(Follows()) ==> Follows() && Progressed(old(state), retry)
      ensures wait == (if conn.hsBuf == [] then ReadMessage else if !conn.hsBuf[0].ClientHello? then Error
                       else if retry then CertificateSelection else Ok)
      ensures state == if wait.Ok? then SelectCertificate else old(state)
    {
      hide Log, Out, Rest, Connection.At;
      var msg := conn.GetMessage();
      if msg.None? {
        AwaitMessage();
        return;
      }
      if Follows() {
        conn.Arrived(p, Server, 0, false);
      }
      wait := Checked(msg.value.ClientHello?);
      if wait.Error? {
        return;
      }
      if retry {
        wait := CertificateSelection;
        return;
      }
      nextProtoSeen, channelIdValid := config.nextProto, config.channelId;
      state := SelectCertificate;
    }

    /** The certificate callback may not be ready; the cipher is chosen after it. */
    method DoSelectCertificate(retry: bool)
      requires Follows() && wait.Ok? && state.SelectCertificate?
      modifies `state, `wait, `certAuth
      ensures Follows() && Progressed(old(state), retry)
    {
      hide Log, Out, Rest, Connection.At;
      if retry {
        wait := X509Lookup;
        return;
      }
      certAuth := config.certAuth;
      state := SelectParameters;
    }

    /** The session lookup may be pending. Then the parameters are settled and the ClientHello is hashed. */
    method DoSelectParameters(retry: bool)
      requires Follows() && wait.Ok? && state.SelectParameters?
      modifies `state, `wait, `place, `resumed, `ticketExpected, `certRequest, conn`transcript, conn`hsBuf
      ensures Follows() && Progressed(old(state), retry)
      ensures wait.Ok? ==> old(conn.hsBuf) != [] && conn.hsBuf == old(conn.hsBuf)[1..]
      ensures wait.Ok? ==>
                var hashing := InitHash(old(conn.transcript));
                conn.transcript == Update(if certRequest then hashing else FreeBuffer(hashing), old(conn.hsBuf)[0])
    {
      hide Log, Out, Rest, Connection.At, Connection.Hashed, ItemAt, KindAt, Present, Holds;
      var msg := conn.GetMessage();
      if retry {
        wait := PendingSession;
        return;
      }
      Settle();
      HashClientHello(msg.value);
      place, state := 1, SendServerHello;
    }

    /** Settles whether a session is resumed, and with it the ticket and the certificate request. */
    method Settle()
      requires certAuth == config.certAuth && nextProtoSeen == config.nextProto && channelIdValid == config.channelId
      modifies `resumed, `ticketExpected, `certRequest
      ensures Negotiated()
    {
      resumed, ticketExpected := config.resumed, config.ticket;
      certRequest := !resumed && config.verifyPeer && certAuth;
    }

    /** Starts the hash, now that its algorithm is known, and keeps the buffer only for a client certificate. */
    method HashClientHello(msg: Message)
      requires conn.At(p, Server, 0, false) && conn.hsBuf != [] && msg == conn.hsBuf[0]
      modifies conn`transcript, conn`hsBuf
      ensures conn.At(p, Server, 1, true)
      ensures conn.hsBuf == old(conn.hsBuf)[1..]
      ensures var hashing := InitHash(old(conn.transcript));
              conn.transcript == Update(if certRequest then hashing else FreeBuffer(hashing), msg)
    {
      hide Log, Out, Rest, Connection.At, Connection.Hashed, ItemAt;
      conn.StartHash(p, Server, 0);
      conn.HashMessage(msg, p, Server, 0, true);
      if !certRequest {
        conn.ReleaseBuffer(p, Server, 0);
      }
      conn.NextMessage(p, Server, 0, true);
    }

    // ----- the server's flight -----

    method DoSendServerHello()
      requires Follows() && wait.Ok? && state.SendServerHello?
      modifies `state, `place, conn`transcript, conn`hsBuf, conn`flight, conn`added
      ensures Follows() && Progressed(old(state), false)
    {
      hide Log, Out, Rest, Connection.At, Connection.Hashed;
      conn.AddMessage(ServerHello(config), p, Server, 1, true);
      place, state := 2, if resumed then SendServerFinished else SendServerCertificate;
    }

    method DoSendServerCertificate()
      requires Follows() && wait.Ok? && state.SendServerCertificate?
      modifies `state, `place, `serverParams, conn`transcript, conn`hsBuf, conn`flight, conn`added
      ensures Follows() && Progressed(old(state), false)
    {
      hide Log, Out, Rest, Connection.At, Connection.Hashed;
      if certAuth {
        conn.AddMessage(Certificate(true), p, Server, 2, true);
        if config.status {
          conn.AddMessage(CertificateStatus, p, Server, 3, true);
        } else {
          conn.PassOver(p, Server, 3, true);
        }
      } else {
        conn.PassOver(p, Server, 2, true);
        conn.PassOver(p, Server, 3, true);
      }
      serverParams := SendsKeyExchange(config);
      place, state := 4, SendServerKeyExchange;
    }

    /** The parameters are signed, which may take more than one call. */
    method DoSendServerKeyExchange(retry: bool)
      requires Follows() && wait.Ok? && state.SendServerKeyExchange?
      modifies `state, `wait, `place, `serverParams, conn`transcript, conn`hsBuf, conn`flight, conn`added
      ensures Follows() && Progressed(old(state), retry)
      ensures !state.SendServerKeyExchange? ==> !serverParams
    {
      hide Log, Out, Rest, Connection.At, Connection.Hashed;
      if !serverParams {
        conn.PassOver(p, Server, 4, true);
        place, state := 5, SendServerHelloDone;
        return;
      }
      if certAuth && retry {
        wait := PrivateKeyOperation;
        return;
      }
      conn.AddMessage(ServerKeyExchange, p, Server, 4, true);
      serverParams := false;
      place, state := 5, SendServerHelloDone;
    }

    method DoSendServerHelloDone()
      requires Follows() && wait.Ok? && state.SendServerHelloDone?
      modifies `state, `wait, `place, conn`transcript, conn`hsBuf, conn`flight, conn`added
      ensures Follows() && Progressed(old(state), false)
    {
      hide Log, Out, Rest, Connection.At, Connection.Hashed;
      if certRequest {
        conn.AddMessage(CertificateRequest, p, Server, 5, true);
      } else {
        conn.PassOver(p, Server, 5, true);
      }
      conn.AddMessage(ServerHelloDone, p, Server, 6, true);
      place, state, wait := 7, ReadClientCertificate, Flush;
    }

    // ----- the client's flight -----

    method DoReadClientCertificate()
      requires wait.Ok? && state.ReadClientCertificate?
      modifies `state, `wait, `place, `peerCertificate, conn`transcript, conn`hsBuf
      ensures old(Follows()) ==> Follows() && Progressed(old(state), false)
      ensures if !old(certRequest) then wait.Ok? && unchanged(conn) && peerCertificate == old(peerCertificate)
              else conn.Reads(old(conn.hsBuf), old(conn.transcript),
                              if peerCertificate then old(conn.transcript) else FreeBuffer(old(conn.transcript)),
                              wait, (m: Message) => m.Certificate?)
      ensures wait.Ok? && old(certRequest) ==> peerCertificate == old(conn.hsBuf)[0].present
      ensures state == if wait.Ok? then VerifyClientCertificate else old(state)
    {
      hide Log, Out, Rest, SecretAt, KindAt, ItemAt, Present, Connection.At, Connection.Hashed, FilledBy, Filled,
           FreeBuffer;
      if Follows() {
        CertificateTurn();
      }
      if !certRequest {
        place, state := 8, VerifyClientCertificate;
        return;
      }
      var msg := conn.GetMessage();
      if msg.None? {
        AwaitMessage();
        return;
      }
      wait := Checked(msg.value.Certificate?);
      if wait.Error? {
        return;
      }
      peerCertificate := msg.value.present;
      TakeMessage(msg.value, 7, !peerCertificate);
      place, state := 8, VerifyClientCertificate;
    }

    /** An honest client sends its certificate, or none, exactly if it was asked to. */
    lemma CertificateTurn()
      requires Follows() && wait.Ok? && state.ReadClientCertificate?
      ensures 7 < Places(p) && SecretAt(p, 8) == SecretAt(p, 7)
      ensures if certRequest then FilledBy(p, Client, 7) else conn.At(p, Server, 8, true)
      ensures certRequest && conn.hsBuf != [] ==> conn.hsBuf[0] == Certificate(p.clientCert)
    {
      hide Log, Out, Rest, SecretAt, KindAt, ItemAt, Present, Connection.At;
      KeyExchangePlaces(p);
      if !certRequest {
        conn.PassOver(p, Server, 7, true);
      } else if conn.hsBuf != [] {
        conn.Arrived(p, Server, 7, true);
      }
    }

    /** Hashes a message and removes it, releasing the buffer if it is no longer needed. */
    method TakeMessage(msg: Message, ghost n: nat, release: bool)
      requires conn.hsBuf != [] && msg == conn.hsBuf[0]
      modifies conn`transcript, conn`hsBuf
      ensures old(conn.At(p, Server, n, true)) && n < Places(p) && FilledBy(p, Client, n) ==>
                conn.At(p, Server, n + 1, true)
      ensures conn.hsBuf == old(conn.hsBuf)[1..]
      ensures conn.transcript == Update(if release then FreeBuffer(old(conn.transcript)) else old(conn.transcript), msg)
    {
      hide Log, Out, Rest, Connection.At, Connection.Hashed, ItemAt, KindAt, Present;
      if release {
        conn.ReleaseBuffer(p, Server, n);
      }
      conn.HashMessage(msg, p, Server, n, true);
      conn.NextMessage(p, Server, n, true);
    }

    method DoVerifyClientCertificate(retry: bool)
      requires Follows() && wait.Ok? && state.VerifyClientCertificate?
      modifies `state, `wait
      ensures Follows() && Progressed(old(state), retry)
    {
      hide Log, Out, Rest, Connection.At;
      if peerCertificate && retry {
        wait := CertificateVerification;
        return;
      }
      state := ReadClientKeyExchange;
    }

    /** Decrypting may take more than one call; the message is hashed after it, and before the master secret
        is made from the transcript. */
    method DoReadClientKeyExchange(retry: bool)
      requires wait.Ok? && state.ReadClientKeyExchange?
      modifies `state, `wait, `place, `secret, conn`transcript, conn`hsBuf
      ensures old(Follows()) ==> Follows() && Progressed(old(state), retry)
      ensures if old(conn.hsBuf) != [] && old(conn.hsBuf)[0].ClientKeyExchange? && retry then
                wait.PrivateKeyOperation? && unchanged(conn)
              else conn.Reads(old(conn.hsBuf), old(conn.transcript), old(conn.transcript), wait,
                              (m: Message) => m.ClientKeyExchange?)
      ensures secret == if wait.Ok? then Hash(conn.transcript) else old(secret)
      ensures state == if wait.Ok? then ReadClientCertificateVerify else old(state)
    {
      hide Log, Out, Rest, SecretAt, KindAt, ItemAt, Present, Connection.At, Connection.Hashed, FilledBy, Filled,
           Negotiated, Holds, Hash, FreeBuffer;
      ghost var honest := Follows();
      if honest {
        KeyExchangePlaces(p);
      }
      var msg := conn.GetMessage();
      if msg.None? {
        AwaitMessage();
        return;
      }
      if honest {
        conn.Arrived(p, Server, 8, true);
      }
      wait := Checked(msg.value.ClientKeyExchange?);
      if wait.Error? {
        return;
      }
      if retry {
        wait := PrivateKeyOperation;
        return;
      }
      TakeMessage(msg.value, 8, false);
      secret := Hash(conn.transcript);
      if honest {
        conn.Standing(p, Server, 9);
      }
      place, state := 9, ReadClientCertificateVerify;
    }

    /** The signature must be over the whole buffered transcript. */
    method DoReadClientCertificateVerify()
      requires wait.Ok? && state.ReadClientCertificateVerify?
      modifies `state, `wait, `place, conn`transcript, conn`hsBuf
      ensures old(Follows()) ==> Follows() && Progressed(old(state), false)
      ensures if !old(peerCertificate) then
                wait.Ok? && conn.hsBuf == old(conn.hsBuf) && conn.transcript == FreeBuffer(old(conn.transcript))
              else
                conn.Reads(old(conn.hsBuf), old(conn.transcript), FreeBuffer(old(conn.transcript)), wait,
                           (m: Message) => m == CertificateVerify(old(Buffer(conn.transcript))))
      ensures state == if wait.Ok? then AwaitChangeCipherSpec else old(state)
      ensures old(Follows()) && wait.Ok? && old(peerCertificate) ==>
                && old(conn.hsBuf) != [] && old(conn.hsBuf)[0] == CertificateVerify(old(Hash(conn.transcript)))
    {
      hide Log, Out, Rest, Connection.At, Connection.Hashed, ItemAt, KindAt, Present, FilledBy, SecretAt, Hash, Buffer,
           Update, FreeBuffer, Negotiated;
      if !peerCertificate {
        NoCertificateVerify();
        return;
      }
      var msg := conn.GetMessage();
      if msg.None? {
        AwaitMessage();
        return;
      }
      if Follows() {
        SignatureArrived();
      }
      wait := Checked(msg.value == CertificateVerify(Buffer(conn.transcript)));
      if wait.Error? {
        return;
      }
      TakeSignature(msg.value);
    }

    /** Hashes the signature, releasing the buffer, and removes it. */
    method TakeSignature(msg: Message)
      requires wait.Ok? && state.ReadClientCertificateVerify? && conn.hsBuf != [] && msg == conn.hsBuf[0]
      modifies `state, `place, conn`transcript, conn`hsBuf
      ensures old(Follows()) && old(peerCertificate) && 9 < Places(p) && FilledBy(p, Client, 9) ==>
                SecretAt(p, 10) == SecretAt(p, 9) ==> Follows()
      ensures wait.Ok? && state == AwaitChangeCipherSpec && conn.hsBuf == old(conn.hsBuf)[1..]
      ensures conn.transcript == Update(FreeBuffer(old(conn.transcript)), msg)
    {
      hide Log, Out, Rest, Connection.At, Connection.Hashed, ItemAt, KindAt, Present, FilledBy, SecretAt, Update,
           FreeBuffer;
      TakeMessage(msg, 9, true);
      place, state := 10, AwaitChangeCipherSpec;
    }

    /** An honest client signed this side's own transcript. */
    lemma SignatureArrived()
      requires Follows() && wait.Ok? && state.ReadClientCertificateVerify? && peerCertificate && conn.hsBuf != []
      ensures 9 < Places(p) && FilledBy(p, Client, 9) && SecretAt(p, 10) == SecretAt(p, 9)
      ensures conn.hsBuf[0] == CertificateVerify(Buffer(conn.transcript)) == CertificateVerify(Hash(conn.transcript))
    {
      hide Log, Out, Rest, Connection.At, ItemAt, KindAt, Present;
      CertificateVerifyPlace(p);
      conn.Arrived(p, Server, 9, true);
      conn.Standing(p, Server, 9);
    }

    /** Without a certificate there is no signature to check, and the buffer is not needed any more. */
    method NoCertificateVerify()
      requires wait.Ok? && state.ReadClientCertificateVerify? && !peerCertificate
      modifies `state, `place, conn`transcript
      ensures old(Follows()) ==> Follows()
      ensures wait.Ok? && conn.transcript == FreeBuffer(old(conn.transcript)) && state == AwaitChangeCipherSpec
    {
      hide Log, Out, Rest, Connection.At, Connection.Hashed;
      conn.ReleaseBuffer(p, Server, 9);
      if conn.At(p, Server, 9, true) && 9 < Places(p) && !Filled(p, 9) {
        conn.PassOver(p, Server, 9, true);
      }
      place, state := 10, AwaitChangeCipherSpec;
    }

    method DoAwaitChangeCipherSpec()
      requires Follows() && wait.Ok? && state.AwaitChangeCipherSpec?
      modifies `state, `wait
      ensures Follows() && Progressed(old(state), false)
    {
      hide Log, Out, Rest, Connection.At, ItemAt, KindAt, Present;
      ClientEnd(p, place);
      conn.NothingBuffered(p, Server, place, true);
      state, wait := ProcessChangeCipherSpec, ReadChangeCipherSpec;
    }

    /** The awaited ChangeCipherSpec was read. */
    method GotChangeCipherSpec()
      requires Follows() && AwaitsCcs()
      modifies `wait, `place, conn`received
      ensures Follows() && wait.Ok? && state == old(state) && place == old(place) + 1
      ensures conn.received == old(conn.received) + [ChangeCipherSpec]
    {
      hide Log, Out, Rest, Connection.At, ItemAt, KindAt, Present;
      ClientEnd(p, place);
      conn.ReceiveCcs(p, Server, place, true);
      place, wait := place + 1, Ok;
    }

    /** The keys are changed, which is refused while messages under the old ones are unread. */
    method DoProcessChangeCipherSpec()
      requires wait.Ok? && state.ProcessChangeCipherSpec?
      modifies `state, `wait
      ensures old(Follows()) ==> Follows() && Progressed(old(state), false)
      ensures wait == (if conn.hsBuf == [] then Ok else Error)
      ensures state == if wait.Ok? then ReadNextProto else old(state)
    {
      hide Log, Out, Rest, Connection.At;
      wait := Checked(conn.hsBuf == []);
      if wait.Error? {
        return;
      }
      state := ReadNextProto;
    }

    method DoReadNextProto()
      requires wait.Ok? && state.ReadNextProto?
      modifies `state, `wait, `place, conn`transcript, conn`hsBuf
      ensures old(Follows()) ==> Follows() && Progressed(old(state), false)
      ensures if old(nextProtoSeen) then
              conn.Reads(old(conn.hsBuf), old(conn.transcript), old(conn.transcript), wait,
                         (m: Message) => m.NextProto?)
              else wait.Ok? && unchanged(conn)
      ensures state == if wait.Ok? then ReadChannelId else old(state)
    {
      hide Log, Out, Rest, Connection.At, Connection.Hashed, ItemAt, KindAt, Present;
      ghost var honest := Follows();
      if honest {
        ClientEnd(p, place - 1);
      }
      if !nextProtoSeen {
        if honest {
          conn.PassOver(p, Server, place, true);
        }
        place, state := place + 1, ReadChannelId;
        return;
      }
      var msg := conn.GetMessage();
      if msg.None? {
        AwaitMessage();
        return;
      }
      if honest {
        conn.Arrived(p, Server, place, true);
      }
      wait := Checked(msg.value.NextProto?);
      if wait.Error? {
        return;
      }
      TakeMessage(msg.value, place, false);
      place, state := place + 1, ReadChannelId;
    }

    /** The Channel ID signs the transcript so far. */
    method DoReadChannelId()
      requires wait.Ok? && state.ReadChannelId?
      modifies `state, `wait, `place, conn`transcript, conn`hsBuf
      ensures old(Follows()) ==> Follows() && Progressed(old(state), false)
      ensures if old(channelIdValid) then
                conn.Reads(old(conn.hsBuf), old(conn.transcript), old(conn.transcript), wait,
                           (m: Message) => m == ChannelId(old(Hash(conn.transcript))))
              else wait.Ok? && unchanged(conn)
      ensures state == if wait.Ok? then ReadClientFinished else old(state)
    {
      hide Log, Out, Rest, Connection.At, Connection.Hashed, ItemAt, KindAt, Present, Filled, SecretAt, FilledBy, Hash,
           Update;
      if Follows() {
        ChannelIdTurn();
      }
      if !channelIdValid {
        place, state := place + 1, ReadClientFinished;
        return;
      }
      var msg := conn.GetMessage();
      if msg.None? {
        AwaitMessage();
        return;
      }
      wait := Checked(msg.value == ChannelId(Hash(conn.transcript)));
      if wait.Error? {
        return;
      }
      TakeMessage(msg.value, place, false);
      place, state := place + 1, ReadClientFinished;
    }

    /** An honest client's Channel ID signs this side's own transcript. */
    lemma ChannelIdTurn()
      requires Follows() && wait.Ok? && state.ReadChannelId?
      ensures place < Places(p) && SecretAt(p, place + 1) == SecretAt(p, place)
      ensures if channelIdValid then FilledBy(p, Client, place) else conn.At(p, Server, place + 1, true)
      ensures channelIdValid && conn.hsBuf != [] ==> conn.hsBuf[0] == ChannelId(Hash(conn.transcript))
    {
      hide Log, Out, Rest, Connection.At, ItemAt, KindAt, Present, SecretAt;
      ClientEnd(p, place - 2);
      conn.Standing(p, Server, place);
      if !channelIdValid {
        conn.PassOver(p, Server, place, true);
      } else if conn.hsBuf != [] {
        conn.Arrived(p, Server, place, true);
      }
    }

    method DoReadClientFinished()
      requires wait.Ok? && state.ReadClientFinished?
      modifies `state, `wait, `place, conn`transcript, conn`hsBuf
      ensures old(Follows()) ==> Follows() && Progressed(old(state), false)
      ensures wait == (if old(conn.hsBuf) == [] then ReadMessage
                       else if old(conn.hsBuf)[0] == Finished(Client, old(secret), old(Hash(conn.transcript))) then Ok
                       else Error)
      ensures wait.Ok? ==>
                && conn.hsBuf == old(conn.hsBuf)[1..]
                && conn.transcript == Update(old(conn.transcript), old(conn.hsBuf)[0])
      ensures state == if wait.Ok? then (if resumed then FinishHandshake else SendServerFinished) else old(state)
    {
      hide Log, Out, Rest, Connection.At, ItemAt, KindAt, Present, FilledBy, Filled, SecretAt, Hash,
           Connection.AwaitsFinished;
      if Follows() {
        FinishedTurn();
      }
      wait := conn.GetFinished(secret, Client, p, place);
      if wait.Ok? {
        place, state := place + 1, if resumed then FinishHandshake else SendServerFinished;
      }
    }

    lemma FinishedTurn()
      requires Follows() && wait.Ok? && state.ReadClientFinished?
      ensures place < Places(p) && SecretAt(p, place + 1) == SecretAt(p, place)
      ensures conn.AwaitsFinished(p, Client, place, secret)
    {
      hide Log, Out, Rest, Connection.At, ItemAt, KindAt, Present, SecretAt;
      ClientEnd(p, place - 3);
    }

    // ----- the end -----

    method DoSendServerFinished()
      requires Follows() && wait.Ok? && state.SendServerFinished?
      modifies `state, `wait, `place, conn`transcript, conn`hsBuf, conn`flight, conn`added
      ensures Follows() && Progressed(old(state), false)
    {
      hide Log, Out, Rest, Connection.At, ItemAt, KindAt, Present;
      SendFinished();
      place := place + 3;
      state, wait := if resumed then AwaitChangeCipherSpec else FinishHandshake, Flush;
    }

    /** The ticket, if one was promised, ChangeCipherSpec and Finished. */
    method SendFinished()
      requires conn.At(p, Server, place, true) && Negotiated() && config == p.choices && secret == SecretAt(p, place)
      requires place == if p.choices.resumed then 2 else 14
      modifies conn`transcript, conn`hsBuf, conn`flight, conn`added
      ensures place + 3 <= Places(p) && conn.At(p, Server, place + 3, true)
      ensures conn.transcript.buffer.Some? == old(conn.transcript.buffer.Some?)
    {
      hide Log, Out, Rest, Connection.At, Connection.Hashed, KindAt, ItemAt, Present, SecretAt;
      ghost var n := place;
      ServerEnd(p, n);
      if ticketExpected {
        conn.AddMessage(NewSessionTicket, p, Server, n, true);
      } else {
        conn.PassOver(p, Server, n, true);
      }
      conn.AddChangeCipherSpec(p, Server, n + 1, true);
      conn.Standing(p, Server, n + 2);
      conn.AddMessage(Finished(Server, secret, Hash(conn.transcript)), p, Server, n + 2, true);
    }

    method DoFinishHandshake()
      requires Follows() && wait.Ok? && state.FinishHandshake?
      modifies `state
      ensures Follows() && Progressed(old(state), false)
    {
      hide Log, Out, Rest, Connection.At;
      state := Done;
    }

    /** A callback that asked to be called again will be. */
    method Resume()
      requires Follows() && !AwaitsCcs() && !wait.Flush?
      modifies `wait
      ensures Follows() && wait.Ok?
    {
      hide Log, Out, Rest, Connection.At;
      wait := Ok;
    }

    /** Runs the machine until it is done or has to wait. Callbacks answer as they please, or at once if
        they are `prompt`. */
    method Run(prompt: bool)
      requires Follows() && wait.Ok?
      modifies this, conn`transcript, conn`hsBuf, conn`flight, conn`added
      ensures Follows() && (state.Done? || !wait.Ok?)
      ensures Rank(p.choices.resumed, state) >= Rank(p.choices.resumed, old(state))
      ensures prompt && Rank(p.choices.resumed, state) == Rank(p.choices.resumed, old(state)) ==>
                wait.ReadMessage? || state.Done?
    {
      hide Follows, PlaceOf;
      while !state.Done? && wait.Ok?
        invariant Follows()
        invariant Rank(p.choices.resumed, state) >= Rank(p.choices.resumed, old(state))
        invariant prompt && Rank(p.choices.resumed, state) == Rank(p.choices.resumed, old(state)) ==>
                    wait.Ok? || wait.ReadMessage? || state.Done?
        decreases 20 - Rank(p.choices.resumed, state), wait.Ok?
      {
        var retry: bool := *;
        retry := retry && !prompt;
        match state
        case StartAccept => DoStartAccept();
        case ReadClientHello => DoReadClientHello(retry);
        case SelectCertificate => DoSelectCertificate(retry);
        case SelectParameters => DoSelectParameters(retry);
        case SendServerHello => DoSendServerHello();
        case SendServerCertificate => DoSendServerCertificate();
        case SendServerKeyExchange => DoSendServerKeyExchange(retry);
        case SendServerHelloDone => DoSendServerHelloDone();
        case ReadClientCertificate => DoReadClientCertificate();
        case VerifyClientCertificate => DoVerifyClientCertificate(retry);
        case ReadClientKeyExchange => DoReadClientKeyExchange(retry);
        case ReadClientCertificateVerify => DoReadClientCertificateVerify();
        case AwaitChangeCipherSpec => DoAwaitChangeCipherSpec();
        case ProcessChangeCipherSpec => DoProcessChangeCipherSpec();
        case ReadNextProto => DoReadNextProto();
        case ReadChannelId => DoReadChannelId();
        case ReadClientFinished => DoReadClientFinished();
        case SendServerFinished => DoSendServerFinished();
        case FinishHandshake => DoFinishHandshake();
      }
    }
  }
}
