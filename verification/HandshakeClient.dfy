/** The client's handshake state machine for TLS 1.0 to 1.2. Every state can be left and entered again:
    to wait for a message or to flush, and for a callback that is not ready. */
module HandshakeClient {
  import opened HandshakeScript
  import opened HandshakeConnection

  datatype State =
    | StartConnect | EnterEarlyData | ReadServerHello | ReadServerCertificate | ReadCertificateStatus
    | VerifyServerCertificate | ReadServerKeyExchange | ReadCertificateRequest | ReadServerHelloDone
    | SendClientCertificate | SendClientKeyExchange | SendCertificateVerify | SendClientFinished | FinishFlight
    | ReadSessionTicket | ProcessChangeCipherSpec | ReadServerFinished | FinishHandshake | Done

  /** The place in the handshake that a state deals with next. */
  function PlaceOf(resumed: bool, s: State): nat {
    match s
    case StartConnect => 0
    case EnterEarlyData | ReadServerHello => 1
    case ReadServerCertificate => 2
    case ReadCertificateStatus => 3
    case VerifyServerCertificate | ReadServerKeyExchange => 4
    case ReadCertificateRequest => 5
    case ReadServerHelloDone => 6
    case SendClientCertificate => 7
    case SendClientKeyExchange => 8
    case SendCertificateVerify => 9
    case SendClientFinished => if resumed then 5 else 10
    case FinishFlight => if resumed then 9 else 14
    case ReadSessionTicket => if resumed then 2 else 14
    case ProcessChangeCipherSpec | ReadServerFinished => if resumed then 4 else 16
    case FinishHandshake | Done => if resumed then 9 else 17
  }

  /** The order in which states follow one another. */
  function Rank(resumed: bool, s: State): nat {
    match s
    case StartConnect => 0
    case EnterEarlyData => 1
    case ReadServerHello => 2
    case ReadServerCertificate => 3
    case ReadCertificateStatus => 4
    case VerifyServerCertificate => 5
    case ReadServerKeyExchange => 6
    case ReadCertificateRequest => 7
    case ReadServerHelloDone => 8
    case SendClientCertificate => 9
    case SendClientKeyExchange => 10
    case SendCertificateVerify => 11
    case SendClientFinished => if resumed then 17 else 12
    case FinishFlight => if resumed then 18 else 13
    case ReadSessionTicket => 14
    case ProcessChangeCipherSpec => 15
    case ReadServerFinished => 16
    case FinishHandshake => 19
    case Done => 20
  }

  /** The states in which messages are put together that are not yet to be flushed. */
  predicate Sending(s: State) {
    s.SendClientKeyExchange? || s.SendCertificateVerify? || s.SendClientFinished?
  }

  predicate FullOnly(s: State) {
    || s.ReadServerCertificate? || s.ReadCertificateStatus? || s.VerifyServerCertificate? || s.ReadServerKeyExchange?
    || s.ReadCertificateRequest? || s.ReadServerHelloDone? || s.SendClientCertificate? || s.SendClientKeyExchange?
    || s.SendCertificateVerify?
  }

  class ClientHandshake {
    const conn: Connection
    const hasCertificate: bool
    var state: State
    var wait: Wait
    var resumed: bool
    var certAuth: bool
    var keyExchange: bool
    var ticketExpected: bool
    var statusExpected: bool
    var certRequest: bool
    var nextProtoSeen: bool
    var channelIdValid: bool
    /** The transcript that went into the master secret. */
    var secret: seq<Message>
    ghost const p: Params
    /** The first place of the handshake not yet processed. */
    ghost var place: nat

    /** What was negotiated is known once the ServerHello was processed. */
    ghost predicate Negotiated()
      reads `resumed, `certAuth, `keyExchange, `ticketExpected, `statusExpected, `nextProtoSeen, `channelIdValid
    {
      Took(p.choices)
    }

    /** The server's choices are in the machine's own fields. */
    ghost predicate Took(c: Choices)
      reads `resumed, `certAuth, `keyExchange, `ticketExpected, `statusExpected, `nextProtoSeen, `channelIdValid
    {
      && resumed == c.resumed && certAuth == c.certAuth && keyExchange == c.keyExchange
      && ticketExpected == c.ticket && statusExpected == c.status
      && nextProtoSeen == c.nextProto && channelIdValid == c.channelId
    }

    /** A change of the cipher is awaited but not seen. */
    ghost predicate AwaitsCcs()
      reads `wait
    {
      wait.ReadChangeCipherSpec?
    }

    /** A message is awaited, none is at hand, and the state is one that reads one. */
    ghost predicate AwaitsMessage()
      reads this, conn
    {
      && conn.hsBuf == []
      && (|| state.ReadServerHello? || (state.ReadServerCertificate? && certAuth) || state.ReadCertificateStatus?
          || state.ReadServerKeyExchange? || state.ReadCertificateRequest? || state.ReadServerHelloDone?
          || (state.ReadSessionTicket? && ticketExpected) || state.ReadServerFinished?)
    }

    /** The machine follows the handshake: it is at the place its state deals with, and its transcript
        holds exactly the messages before that place. */
    ghost predicate Follows()
      reads this, conn
    {
      && hasCertificate == p.clientCert
      && place == PlaceOf(p.choices.resumed, state) - (if AwaitsCcs() then 1 else 0)
      && conn.At(p, Client, place, place >= 2)
      && !wait.Error?
      && (AwaitsCcs() ==> state.ProcessChangeCipherSpec?)
      && (state.ProcessChangeCipherSpec? ==> conn.hsBuf == [])
      && (wait.ReadMessage? ==> AwaitsMessage())
      && (conn.flight != [] ==> Sending(state) || (wait.Flush? && !state.Done?))
      && (FullOnly(state) ==> !p.choices.resumed)
      && (if place >= 2 then Negotiated() && secret == SecretAt(p, place) else secret == [])
      && certRequest == (place > 5 && RequestsCertificate(p.choices))
      && (RequestsCertificate(p.choices) && p.clientCert && place <= 9 ==> conn.transcript.buffer.Some?)
    }

    constructor (hasCertificate: bool, ghost p: Params)
      requires hasCertificate == p.clientCert
      ensures Follows() && fresh(conn) && conn.flight == [] && conn.hsBuf == [] && conn.added == []
              && conn.flushed == [] && conn.received == []
      ensures this.p == p && state == StartConnect && wait == Ok && place == 0
      ensures !resumed && !certAuth && !keyExchange && !ticketExpected && !statusExpected && !certRequest
              && !nextProtoSeen && !channelIdValid
    {
      this.hasCertificate, this.p := hasCertificate, p;
      conn := new Connection();
      state, wait, place := StartConnect, Ok, 0;
      resumed, certAuth, keyExchange := false, false, false;
      ticketExpected, statusExpected, certRequest, nextProtoSeen, channelIdValid := false, false, false, false, false;
      secret := [];
    }

    method DoStartConnect()
      requires Follows() && wait.Ok? && state.StartConnect?
      modifies `state, `wait, `place, conn`transcript, conn`hsBuf, conn`flight, conn`added
      ensures Follows() && Progressed(old(state), false)
    {
      hide Log, Out, Rest, Connection.At;
      conn.AddMessage(ClientHello, p, Client, 0, false);
      place, state, wait := 1, EnterEarlyData, Flush;
    }

    /** Waits for a message. */
    method AwaitMessage()
      requires wait.Ok?
      modifies `wait
      ensures wait.ReadMessage? && (old(Follows()) && AwaitsMessage() ==> Follows())
    {
      hide Log, Out, Rest, SecretAt, Connection.At, PlaceOf, Negotiated, FullOnly, Sending;
      wait := ReadMessage;
    }

    /** The state moved on, or a message or, after a `retry`, a callback is waited for. */
    ghost predicate Progressed(before: State, retry: bool)
      reads this
    {
      || Rank(p.choices.resumed, state) > Rank(p.choices.resumed, before)
      || (state == before && (wait.ReadMessage? || (retry && !wait.Ok? && !wait.Flush?)))
    }

    method DoEnterEarlyData()
      requires Follows() && wait.Ok? && state.EnterEarlyData?
      modifies `state
      ensures Follows() && Progressed(old(state), false)
    {
      hide Log, Out, Rest, Connection.At;
      state := ReadServerHello;
    }

    /** The hash starts with the messages so far, and the buffer is kept only if a certificate may be asked for. */
    method DoReadServerHello()
      requires wait.Ok? && state.ReadServerHello?
      modifies this, conn`transcript, conn`hsBuf
      ensures old(Follows()) ==> Follows() && Progressed(old(state), false)
      ensures var hashing := InitHash(old(conn.transcript));
              conn.Reads(old(conn.hsBuf), old(conn.transcript),
                         if resumed || !certAuth then FreeBuffer(hashing) else hashing, wait,
                         (m: Message) => m.ServerHello?)
      ensures if wait.Ok? then old(conn.hsBuf) != [] && old(conn.hsBuf)[0].ServerHello?
                               && Took(old(conn.hsBuf)[0].choices)
                               && state == (if resumed then ReadSessionTicket else ReadServerCertificate)
              else state == old(state)
    {
      hide Log, Out, Rest, SecretAt, KindAt, ItemAt, Present, Connection.At, Connection.Hashed, FilledBy;
      ServerHelloPlace(p);
      var msg := conn.GetMessage();
      if msg.None? {
        AwaitMessage();
        return;
      }
      if Follows() {
        conn.Arrived(p, Client, 1, false);
      }
      wait := Checked(msg.value.ServerHello?);
      if wait.Error? {
        return;
      }
      TakeServerHello(msg.value);
    }

    /** Takes over the choices of a ServerHello, hashes it and removes it. */
    method TakeServerHello(msg: Message)
      requires wait.Ok? && state.ReadServerHello? && conn.hsBuf != [] && msg == conn.hsBuf[0] && msg.ServerHello?
      modifies this, conn`transcript, conn`hsBuf
      ensures old(Follows()) && msg == ServerHello(p.choices) ==> Follows()
      ensures wait.Ok? && Took(msg.choices) && state == if resumed then ReadSessionTicket else ReadServerCertificate
      ensures var hashing := InitHash(old(conn.transcript));
              conn.transcript == Update(if resumed || !certAuth then FreeBuffer(hashing) else hashing, msg)
      ensures conn.hsBuf == old(conn.hsBuf)[1..]
    {
      hide Log, Out, Rest, SecretAt, KindAt, ItemAt, Present, Connection.At, Connection.Hashed, FilledBy,
           ClientHandshake.Took;
      ServerHelloPlace(p);
      Negotiate(msg.choices);
      HashServerHello(msg);
      place := 2;
      state := if resumed then ReadSessionTicket else ReadServerCertificate;
    }

    /** Takes over what the server chose. */
    method Negotiate(c: Choices)
      modifies `resumed, `certAuth, `keyExchange, `ticketExpected, `statusExpected, `nextProtoSeen, `channelIdValid
      ensures Took(c)
    {
      resumed, certAuth, keyExchange := c.resumed, c.certAuth, c.keyExchange;
      ticketExpected, statusExpected := c.ticket, c.status;
      nextProtoSeen, channelIdValid := c.nextProto, c.channelId;
    }

    /** Starts the hash, now that its algorithm is known, and keeps the buffer only where a client
        certificate may be asked for. */
    method HashServerHello(msg: Message)
      requires conn.hsBuf != [] && msg == conn.hsBuf[0]
      modifies conn`transcript, conn`hsBuf
      ensures old(conn.At(p, Client, 1, false)) && 1 < Places(p) && FilledBy(p, Server, 1) ==>
                conn.At(p, Client, 2, true)
      ensures var hashing := InitHash(old(conn.transcript));
              conn.transcript == Update(if resumed || !certAuth then FreeBuffer(hashing) else hashing, msg)
      ensures conn.hsBuf == old(conn.hsBuf)[1..]
    {
      hide Log, Out, Rest, Connection.At, Connection.Hashed, ItemAt;
      conn.StartHash(p, Client, 1);
      conn.HashMessage(msg, p, Client, 1, true);
      if resumed || !certAuth {
        conn.ReleaseBuffer(p, Client, 1);
      }
      conn.NextMessage(p, Client, 1, true);
    }

    /** Hashes a message and removes it. */
    method TakeMessage(msg: Message, ghost n: nat)
      requires conn.hsBuf != [] && msg == conn.hsBuf[0]
      modifies conn`transcript, conn`hsBuf
      ensures old(conn.At(p, Client, n, true)) && n < Places(p) && FilledBy(p, Server, n) ==>
                conn.At(p, Client, n + 1, true)
      ensures conn.transcript == Update(old(conn.transcript), msg) && conn.hsBuf == old(conn.hsBuf)[1..]
    {
      hide Log, Out, Rest, Connection.At, Connection.Hashed, ItemAt, KindAt, Present;
      conn.HashMessage(msg, p, Client, n, true);
      conn.NextMessage(p, Client, n, true);
    }

    method DoReadServerCertificate()
      requires wait.Ok? && state.ReadServerCertificate?
      modifies `state, `wait, `place, conn`transcript, conn`hsBuf
      ensures old(Follows()) ==> Follows() && Progressed(old(state), false)
      ensures if old(certAuth) then
              conn.Reads(old(conn.hsBuf), old(conn.transcript), old(conn.transcript), wait,
                         (m: Message) => m.Certificate?)
              else wait.Ok? && unchanged(conn)
      ensures state == if wait.Ok? then ReadCertificateStatus else old(state)
    {
      hide Log, Out, Rest, Connection.At, Connection.Hashed;
      if certAuth {
        var msg := conn.GetMessage();
        if msg.None? {
          AwaitMessage();
          return;
        }
        if Follows() {
          conn.Arrived(p, Client, 2, true);
        }
        wait := Checked(msg.value.Certificate?);
        if wait.Error? {
          return;
        }
        TakeMessage(msg.value, 2);
      } else if Follows() {
        conn.PassOver(p, Client, 2, true);
      }
      place, state := 3, ReadCertificateStatus;
    }

    method DoReadCertificateStatus()
      requires wait.Ok? && state.ReadCertificateStatus?
      modifies `state, `wait, `place, conn`transcript, conn`hsBuf
      ensures old(Follows()) ==> Follows() && Progressed(old(state), false)
      ensures if old(statusExpected) && (old(conn.hsBuf) == [] || old(conn.hsBuf)[0].CertificateStatus?) then
                conn.Reads(old(conn.hsBuf), old(conn.transcript), old(conn.transcript), wait,
                           (m: Message) => m.CertificateStatus?)
              else wait.Ok? && unchanged(conn)
      ensures state == if wait.Ok? then VerifyServerCertificate else old(state)
    {
      hide Log, Out, Rest, Connection.At, Connection.Hashed;
      if statusExpected {
        var msg := conn.GetMessage();
        if msg.None? {
          AwaitMessage();
          return;
        }
        if msg.value.CertificateStatus? {
          if Follows() {
            conn.IsNext(p, Client, 3, true);
          }
          TakeMessage(msg.value, 3);
          place, state := 4, VerifyServerCertificate;
          return;
        }
        if Follows() {
          conn.IsNext(p, Client, 3, true);
        }
      }
      if Follows() {
        conn.PassOver(p, Client, 3, true);
      }
      place, state := 4, VerifyServerCertificate;
    }

    /** The certificate is checked by a callback, which may not have an answer yet. */
    method DoVerifyServerCertificate(retry: bool)
      requires Follows() && wait.Ok? && state.VerifyServerCertificate?
      modifies `state, `wait
      ensures Follows() && Progressed(old(state), retry)
    {
      hide Log, Out, Rest, Connection.At;
      if certAuth && retry {
        wait := CertificateVerification;
        return;
      }
      state := ReadServerKeyExchange;
    }

    method DoReadServerKeyExchange()
      requires wait.Ok? && state.ReadServerKeyExchange?
      modifies `state, `wait, `place, conn`transcript, conn`hsBuf
      ensures old(Follows()) ==> Follows() && Progressed(old(state), false)
      ensures if old(conn.hsBuf) != [] && !old(conn.hsBuf)[0].ServerKeyExchange? && !old(keyExchange) then
                wait.Ok? && unchanged(conn)
              else conn.Reads(old(conn.hsBuf), old(conn.transcript), old(conn.transcript), wait,
                              (m: Message) => m.ServerKeyExchange?)
      ensures state == if wait.Ok? then ReadCertificateRequest else old(state)
    {
      hide Log, Out, Rest, Connection.At, Connection.Hashed;
      var msg := conn.GetMessage();
      if msg.None? {
        AwaitMessage();
        return;
      }
      if Follows() {
        conn.IsNext(p, Client, 4, true);
      }
      if msg.value.ServerKeyExchange? {
        TakeMessage(msg.value, 4);
      } else {
        wait := Checked(!keyExchange);
        if wait.Error? {
          return;
        }
        if Follows() {
          conn.PassOver(p, Client, 4, true);
        }
      }
      place, state := 5, ReadCertificateRequest;
    }

    method DoReadCertificateRequest()
      requires wait.Ok? && state.ReadCertificateRequest?
      modifies `state, `wait, `place, `certRequest, conn`transcript, conn`hsBuf
      ensures old(Follows()) ==> Follows() && Progressed(old(state), false)
      ensures if !old(certAuth) then wait.Ok? && unchanged(conn)
              else if old(conn.hsBuf) != [] && old(conn.hsBuf)[0].ServerHelloDone? then
                wait.Ok? && conn.hsBuf == old(conn.hsBuf) && conn.transcript == FreeBuffer(old(conn.transcript))
              else conn.Reads(old(conn.hsBuf), old(conn.transcript), old(conn.transcript), wait,
                              (m: Message) => m.CertificateRequest?)
      ensures certRequest == (old(certRequest) || (wait.Ok? && conn.hsBuf != old(conn.hsBuf)))
      ensures state == if wait.Ok? then ReadServerHelloDone else old(state)
    {
      hide Log, Out, Rest, Connection.At, Connection.Hashed, ItemAt, KindAt, FilledBy;
      if certAuth {
        var msg := conn.GetMessage();
        if msg.None? {
          AwaitMessage();
          return;
        }
        if Follows() {
          RequestOrDone();
        }
        if msg.value.ServerHelloDone? {
          conn.ReleaseBuffer(p, Client, 5);
        } else {
          wait := Checked(msg.value.CertificateRequest?);
          if wait.Error? {
            return;
          }
          TakeMessage(msg.value, 5);
          certRequest := true;
          place, state := 6, ReadServerHelloDone;
          return;
        }
      }
      if conn.At(p, Client, 5, true) && !p.choices.resumed {
        NoRequest();
        if !Filled(p, 5) {
          conn.PassOver(p, Client, 5, true);
        }
      }
      place, state := 6, ReadServerHelloDone;
    }

    lemma NoRequest()
      requires !p.choices.resumed
      ensures KindAt(p, 5) == KCertificateRequest
    {
    }

    /** After the key exchange comes a CertificateRequest, or ServerHelloDone where none is made. */
    lemma RequestOrDone()
      requires conn.At(p, Client, 5, true) && conn.hsBuf != [] && !p.choices.resumed
      ensures if RequestsCertificate(p.choices) then FilledBy(p, Server, 5) && conn.hsBuf[0] == CertificateRequest
              else conn.hsBuf[0] == ServerHelloDone
    {
      hide Log, Out, Rest, Connection.At;
      conn.IsNext(p, Client, 5, true);
      assert FilledBy(p, Server, 6);
    }

    method DoReadServerHelloDone()
      requires wait.Ok? && state.ReadServerHelloDone?
      modifies `state, `wait, `place, conn`transcript, conn`hsBuf
      ensures old(Follows()) ==> Follows() && Progressed(old(state), false)
      ensures conn.Reads(old(conn.hsBuf), old(conn.transcript), old(conn.transcript), wait,
                         (m: Message) => m.ServerHelloDone?)
      ensures state == if wait.Ok? then SendClientCertificate else old(state)
    {
      hide Log, Out, Rest, Connection.At, Connection.Hashed;
      var msg := conn.GetMessage();
      if msg.None? {
        AwaitMessage();
        return;
      }
      if Follows() {
        conn.Arrived(p, Client, 6, true);
      }
      wait := Checked(msg.value.ServerHelloDone?);
      if wait.Error? {
        return;
      }
      TakeMessage(msg.value, 6);
      place, state := 7, SendClientCertificate;
    }

    /** The certificate callback may not be ready. */
    method DoSendClientCertificate(retry: bool)
      requires Follows() && wait.Ok? && state.SendClientCertificate?
      modifies `state, `wait, `place, conn`transcript, conn`hsBuf, conn`flight, conn`added
      ensures Follows() && Progressed(old(state), retry)
      ensures certRequest && !state.SendClientCertificate? ==>
                var base := if hasCertificate then old(conn.transcript) else FreeBuffer(old(conn.transcript));
                conn.transcript == Update(base, Certificate(hasCertificate))
    {
      hide Log, Out, Rest, Connection.At, Connection.Hashed;
      if !certRequest {
        conn.PassOver(p, Client, 7, true);
        place, state := 8, SendClientKeyExchange;
        return;
      }
      if retry {
        wait := X509Lookup;
        return;
      }
      if !hasCertificate {
        conn.ReleaseBuffer(p, Client, 7);
      }
      conn.AddMessage(Certificate(hasCertificate), p, Client, 7, true);
      place, state := 8, SendClientKeyExchange;
    }

    /** The message is hashed before the master secret is made from the transcript. */
    method DoSendClientKeyExchange()
      requires Follows() && wait.Ok? && state.SendClientKeyExchange?
      modifies `state, `place, `secret, conn`transcript, conn`hsBuf, conn`flight, conn`added
      ensures Follows() && Progressed(old(state), false)
    {
      hide Log, Out, Rest, Connection.At, Connection.Hashed;
      conn.AddMessage(ClientKeyExchange, p, Client, 8, true);
      conn.Standing(p, Client, 9);
      secret := Hash(conn.transcript);
      place, state := 9, SendCertificateVerify;
    }

    /** The private key may take its time; what is signed is the whole buffered transcript. */
    method DoSendCertificateVerify(retry: bool)
      requires Follows() && wait.Ok? && state.SendCertificateVerify?
      modifies `state, `wait, `place, conn`transcript, conn`hsBuf, conn`flight, conn`added
      ensures Follows() && Progressed(old(state), retry)
      ensures state.SendClientFinished? && old(certRequest && hasCertificate) ==>
                conn.added == old(conn.added) + [Handshake(CertificateVerify(old(Hash(conn.transcript))))]
      ensures state.SendClientFinished? && old(certRequest && hasCertificate) ==> conn.transcript.buffer.None?
      ensures !(state.SendClientFinished? && old(certRequest && hasCertificate)) ==> conn.added == old(conn.added)
    {
      hide Log, Out, Rest, Connection.At, Connection.Hashed;
      if !certRequest || !hasCertificate {
        conn.PassOver(p, Client, 9, true);
        place, state := 10, SendClientFinished;
        return;
      }
      if retry {
        wait := PrivateKeyOperation;
        return;
      }
      conn.Standing(p, Client, 9);
      conn.AddMessage(CertificateVerify(Buffer(conn.transcript)), p, Client, 9, true);
      conn.ReleaseBuffer(p, Client, 10);
      place, state := 10, SendClientFinished;
    }

    /** ChangeCipherSpec, the optional messages under it and Finished, in one go once the Channel ID key is
        there. */
    method DoSendClientFinished(retry: bool)
      requires Follows() && wait.Ok? && state.SendClientFinished?
      modifies `state, `wait, `place, conn`transcript, conn`hsBuf, conn`flight, conn`added
      ensures Follows() && Progressed(old(state), retry)
    {
      hide Log, Out, Rest, Connection.At, KindAt, ItemAt, Present;
      if channelIdValid && retry {
        wait := ChannelIdLookup;
        return;
      }
      SendFinished();
      place := place + 4;
      state, wait := FinishFlight, Flush;
    }

    method SendFinished()
      requires conn.At(p, Client, place, true) && Negotiated() && secret == SecretAt(p, place)
      requires place == if p.choices.resumed then 5 else 10
      modifies conn`transcript, conn`hsBuf, conn`flight, conn`added
      ensures place + 4 <= Places(p) && conn.At(p, Client, place + 4, true)
    {
      hide Log, Out, Rest, Connection.At, Connection.Hashed, KindAt, ItemAt, Present, SecretAt;
      ghost var n := place;
      ClientEnd(p, n);
      conn.AddChangeCipherSpec(p, Client, n, true);
      if nextProtoSeen {
        conn.AddMessage(NextProto, p, Client, n + 1, true);
      } else {
        conn.PassOver(p, Client, n + 1, true);
      }
      conn.Standing(p, Client, n + 2);
      if channelIdValid {
        conn.AddMessage(ChannelId(Hash(conn.transcript)), p, Client, n + 2, true);
      } else {
        conn.PassOver(p, Client, n + 2, true);
      }
      conn.Standing(p, Client, n + 3);
      conn.AddMessage(Finished(Client, secret, Hash(conn.transcript)), p, Client, n + 3, true);
    }

    method DoFinishFlight(falseStart: bool)
      requires Follows() && wait.Ok? && state.FinishFlight?
      modifies `state, `wait
      ensures Follows() && Progressed(old(state), false)
      ensures state == if resumed then FinishHandshake else ReadSessionTicket
      ensures wait == if falseStart && !resumed then EarlyReturn else Ok
    {
      hide Log, Out, Rest, Connection.At;
      if resumed {
        state := FinishHandshake;
        return;
      }
      state := ReadSessionTicket;
      if falseStart {
        wait := EarlyReturn;
      }
    }

    method DoReadSessionTicket()
      requires wait.Ok? && state.ReadSessionTicket?
      modifies `state, `wait, `place, conn`transcript, conn`hsBuf
      ensures old(Follows()) ==> Follows() && Progressed(old(state), false)
      ensures if old(ticketExpected) then
                conn.Reads(old(conn.hsBuf), old(conn.transcript), old(conn.transcript),
                           if wait.ReadChangeCipherSpec? then Ok else wait, (m: Message) => m.NewSessionTicket?)
              else wait.ReadChangeCipherSpec? && unchanged(conn)
      ensures state == if wait.ReadChangeCipherSpec? then ProcessChangeCipherSpec else old(state)
    {
      hide Log, Out, Rest, Connection.At, KindAt, ItemAt, Present, Update, SecretAt;
      if ticketExpected {
        var msg := conn.GetMessage();
        if msg.None? {
          AwaitMessage();
          return;
        }
        if Follows() {
          TicketArrived();
        }
        wait := Checked(msg.value.NewSessionTicket?);
        if wait.Error? {
          return;
        }
      }
      AwaitCcs();
    }

    /** Takes the ticket, if there is one, and waits for the ChangeCipherSpec. */
    method AwaitCcs()
      requires wait.Ok? && state.ReadSessionTicket? && (ticketExpected ==> conn.hsBuf != [])
      modifies `state, `wait, `place, conn`transcript, conn`hsBuf
      ensures old(Follows()) ==> Follows()
      ensures wait.ReadChangeCipherSpec? && state.ProcessChangeCipherSpec?
      ensures if ticketExpected then
                && conn.hsBuf == old(conn.hsBuf)[1..]
                && conn.transcript == Update(old(conn.transcript), old(conn.hsBuf)[0])
              else unchanged(conn)
    {
      hide Log, Out, Rest, Connection.At, KindAt, ItemAt, Present, Update, SecretAt;
      ghost var honest := Follows();
      TakeTicket();
      if honest {
        ServerEnd(p, place);
        conn.NothingBuffered(p, Client, place + 1, true);
      }
      place := place + 1;
      state, wait := ProcessChangeCipherSpec, ReadChangeCipherSpec;
    }

    lemma TicketArrived()
      requires conn.At(p, Client, place, true) && place == (if p.choices.resumed then 2 else 14)
      requires p.choices.ticket && conn.hsBuf != []
      ensures conn.hsBuf[0] == NewSessionTicket
    {
      hide Log, Out, Rest, Connection.At, KindAt, ItemAt, Present, SecretAt;
      ServerEnd(p, place);
      conn.Arrived(p, Client, place, true);
    }

    method TakeTicket()
      requires ticketExpected ==> conn.hsBuf != []
      modifies conn`transcript, conn`hsBuf
      ensures old(conn.At(p, Client, place, true)) && place == (if p.choices.resumed then 2 else 14)
              && ticketExpected == p.choices.ticket ==>
                place < Places(p) && conn.At(p, Client, place + 1, true)
      ensures if ticketExpected then
                && conn.hsBuf == old(conn.hsBuf)[1..]
                && conn.transcript == Update(old(conn.transcript), old(conn.hsBuf)[0])
              else unchanged(conn)
    {
      hide Log, Out, Rest, Connection.At, Connection.Hashed, KindAt, ItemAt, Present, SecretAt;
      ghost var honest := conn.At(p, Client, place, true) && place == (if p.choices.resumed then 2 else 14)
                          && ticketExpected == p.choices.ticket;
      if honest {
        ServerEnd(p, place);
      }
      if ticketExpected {
        conn.HashMessage(conn.hsBuf[0], p, Client, place, true);
        conn.NextMessage(p, Client, place, true);
      } else if honest {
        conn.PassOver(p, Client, place, true);
      }
    }

    /** The awaited ChangeCipherSpec was read. */
    method GotChangeCipherSpec()
      requires Follows() && AwaitsCcs()
      modifies `wait, `place, conn`received
      ensures Follows() && wait.Ok? && state == old(state) && place == old(place) + 1
      ensures conn.received == old(conn.received) + [ChangeCipherSpec]
    {
      hide Log, Out, Rest, Connection.At, ItemAt, KindAt, Present;
      ServerEnd(p, place - 1);
      conn.ReceiveCcs(p, Client, place, true);
      place, wait := place + 1, Ok;
    }

    /** The keys are changed, which is refused while messages under the old ones are unread. */
    method DoProcessChangeCipherSpec()
      requires wait.Ok? && state.ProcessChangeCipherSpec?
      modifies `state, `wait
      ensures old(Follows()) ==> Follows() && Progressed(old(state), false)
      ensures wait == (if conn.hsBuf == [] then Ok else Error)
      ensures state == if wait.Ok? then ReadServerFinished else old(state)
    {
      hide Log, Out, Rest, Connection.At;
      wait := Checked(conn.hsBuf == []);
      if wait.Error? {
        return;
      }
      state := ReadServerFinished;
    }

    method DoReadServerFinished()
      requires wait.Ok? && state.ReadServerFinished?
      modifies `state, `wait, `place, conn`transcript, conn`hsBuf
      ensures old(Follows()) ==> Follows() && Progressed(old(state), false)
      ensures wait == (if old(conn.hsBuf) == [] then ReadMessage
                       else if old(conn.hsBuf)[0] == Finished(Server, old(secret), old(Hash(conn.transcript))) then Ok
                       else Error)
      ensures wait.Ok? ==>
                && conn.hsBuf == old(conn.hsBuf)[1..]
                && conn.transcript == Update(old(conn.transcript), old(conn.hsBuf)[0])
      ensures state == if wait.Ok? then (if resumed then SendClientFinished else FinishHandshake) else old(state)
    {
      hide Log, Out, Rest, Connection.At, ItemAt, KindAt, Present, FilledBy, SecretAt;
      if Follows() {
        ServerEnd(p, place - 2);
      }
      wait := conn.GetFinished(secret, Server, p, place);
      if wait.Ok? {
        place, state := place + 1, if resumed then SendClientFinished else FinishHandshake;
      }
    }

    method DoFinishHandshake()
      requires Follows() && wait.Ok? && state.FinishHandshake?
      modifies `state
      ensures Follows() && Progressed(old(state), false)
    {
      hide Log, Out, Rest, Connection.At;
      state := Done;
    }

    /** A callback that asked to be called again will be. */
    method Resume()
      requires Follows() && !AwaitsCcs() && !wait.Flush?
      modifies `wait
      ensures Follows() && wait.Ok?
    {
      hide Log, Out, Rest, Connection.At;
      wait := Ok;
    }

    /** Runs the machine until it is done or has to wait. Callbacks answer as they please, or at once if
        they are `prompt`. */
    method Run(prompt: bool)
      requires Follows() && wait.Ok?
      modifies this, conn`transcript, conn`hsBuf, conn`flight, conn`added
      ensures Follows() && (state.Done? || !wait.Ok?)
      ensures Rank(p.choices.resumed, state) >= Rank(p.choices.resumed, old(state))
      ensures prompt && Rank(p.choices.resumed, state) == Rank(p.choices.resumed, old(state)) ==>
                wait.ReadMessage? || state.Done?
    {
      hide Follows, PlaceOf;
      while !state.Done? && wait.Ok?
        invariant Follows()
        invariant Rank(p.choices.resumed, state) >= Rank(p.choices.resumed, old(state))
        invariant prompt && Rank(p.choices.resumed, state) == Rank(p.choices.resumed, old(state)) ==>
                    wait.Ok? || wait.ReadMessage? || state.Done?
        decreases 20 - Rank(p.choices.resumed, state), wait.Ok?
      {
        var retry: bool := *;
        retry := retry && !prompt;
        match state
        case StartConnect => DoStartConnect();
        case EnterEarlyData => DoEnterEarlyData();
        case ReadServerHello => DoReadServerHello();
        case ReadServerCertificate => DoReadServerCertificate();
        case ReadCertificateStatus => DoReadCertificateStatus();
        case VerifyServerCertificate => DoVerifyServerCertificate(retry);
        case ReadServerKeyExchange => DoReadServerKeyExchange();
        case ReadCertificateRequest => DoReadCertificateRequest();
        case ReadServerHelloDone => DoReadServerHelloDone();
        case SendClientCertificate => DoSendClientCertificate(retry);
        case SendClientKeyExchange => DoSendClientKeyExchange();
        case SendCertificateVerify => DoSendCertificateVerify(retry);
        case SendClientFinished => DoSendClientFinished(retry);
        case FinishFlight => DoFinishFlight(retry);
        case ReadSessionTicket => DoReadSessionTicket();
        case ProcessChangeCipherSpec => DoProcessChangeCipherSpec();
        case ReadServerFinished => DoReadServerFinished();
        case FinishHandshake => DoFinishHandshake();
      }
    }
  }
}
