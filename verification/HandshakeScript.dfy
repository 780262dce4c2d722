/** The messages of a TLS 1.0 to 1.2 handshake in their order (section 7.3 of RFC 5246), for every choice
    the two sides can make. Messages are symbolic; what is computed from the transcript carries it. */
module HandshakeScript {
  import opened Basics

  datatype Side = Client | Server

  /** What the server decides: whether a session is resumed; whether the cipher uses certificates and a
      server key exchange; whether there is an identity hint; the extensions; whether it wants a client
      certificate; whether it issues a ticket. */
  datatype Choices = Choices(resumed: bool, certAuth: bool, keyExchange: bool, hint: bool, status: bool,
                             verifyPeer: bool, ticket: bool, nextProto: bool, channelId: bool)

  /** The server's choices and whether the client has a certificate. */
  datatype Params = Params(choices: Choices, clientCert: bool)

  datatype Message =
    | ClientHello
    | ServerHello(choices: Choices)
    | Certificate(present: bool)
    | CertificateStatus
    | ServerKeyExchange
    | CertificateRequest
    | ServerHelloDone
    | ClientKeyExchange
    | CertificateVerify(signed: seq<Message>)
    | NextProto
    | ChannelId(signed: seq<Message>)
    | Finished(side: Side, secret: seq<Message>, log: seq<Message>)
    | NewSessionTicket

  /** What goes over the wire, in order: a handshake message or a ChangeCipherSpec. */
  datatype Item = Handshake(msg: Message) | ChangeCipherSpec

  /** The places for messages in a handshake. */
  datatype Kind =
    | KClientHello | KServerHello | KCertificate | KStatus | KServerKeyExchange | KCertificateRequest | KHelloDone
    | KClientCertificate | KClientKeyExchange | KCertificateVerify | KClientCcs | KNextProto | KChannelId
    | KClientFinished | KTicket | KServerCcs | KServerFinished

  function Places(p: Params): nat {
    if p.choices.resumed then 9 else 17
  }

  /** The order of the places in a full handshake. */
  function FullKind(n: nat): Kind {
    match n
    case 0 => KClientHello
    case 1 => KServerHello
    case 2 => KCertificate
    case 3 => KStatus
    case 4 => KServerKeyExchange
    case 5 => KCertificateRequest
    case 6 => KHelloDone
    case 7 => KClientCertificate
    case 8 => KClientKeyExchange
    case 9 => KCertificateVerify
    case 10 => KClientCcs
    case 11 => KNextProto
    case 12 => KChannelId
    case 13 => KClientFinished
    case 14 => KTicket
    case 15 => KServerCcs
    case _ => KServerFinished
  }

  /** The order of the places when a session is resumed. */
  function ResumedKind(n: nat): Kind {
    match n
    case 0 => KClientHello
    case 1 => KServerHello
    case 2 => KTicket
    case 3 => KServerCcs
    case 4 => KServerFinished
    case 5 => KClientCcs
    case 6 => KNextProto
    case 7 => KChannelId
    case _ => KClientFinished
  }

  function KindAt(p: Params, n: nat): Kind
    requires n < Places(p)
  {
    if p.choices.resumed then ResumedKind(n) else FullKind(n)
  }

  /** A certificate is asked for only in a full handshake with a cipher that uses certificates. */
  predicate RequestsCertificate(c: Choices) {
    !c.resumed && c.certAuth && c.verifyPeer
  }

  /** Key exchange messages go with the ciphers that require them and with identity hints. */
  predicate SendsKeyExchange(c: Choices) {
    c.keyExchange || (!c.certAuth && c.hint)
  }

  /** Whether the place is filled. */
  predicate Present(p: Params, k: Kind) {
    var c := p.choices;
    match k
    case KCertificate => c.certAuth
    case KStatus => c.certAuth && c.status
    case KServerKeyExchange => SendsKeyExchange(c)
    case KCertificateRequest => RequestsCertificate(c)
    case KClientCertificate => RequestsCertificate(c)
    case KCertificateVerify => RequestsCertificate(c) && p.clientCert
    case KNextProto => c.nextProto
    case KChannelId => c.channelId
    case KTicket => c.ticket
    case _ => true
  }

  function Sender(k: Kind): Side {
    match k
    case KClientHello | KClientCertificate | KClientKeyExchange | KCertificateVerify => Client
    case KClientCcs | KNextProto | KChannelId | KClientFinished => Client
    case _ => Server
  }

  /** The transcript that the master secret depends on: up to the client key exchange, or that of the
      session resumed, which both sides have. */
  function SecretAt(p: Params, n: nat): seq<Message>
    requires n <= Places(p)
    decreases n, 1
  {
    if p.choices.resumed || n < 9 then [] else Log(p, 9)
  }

  /** What fills place `n`. */
  function ItemAt(p: Params, n: nat): Item
    requires n < Places(p)
    decreases n, 2
  {
    match KindAt(p, n)
    case KClientHello => Handshake(ClientHello)
    case KServerHello => Handshake(ServerHello(p.choices))
    case KCertificate => Handshake(Certificate(true))
    case KStatus => Handshake(CertificateStatus)
    case KServerKeyExchange => Handshake(ServerKeyExchange)
    case KCertificateRequest => Handshake(CertificateRequest)
    case KHelloDone => Handshake(ServerHelloDone)
    case KClientCertificate => Handshake(Certificate(p.clientCert))
    case KClientKeyExchange => Handshake(ClientKeyExchange)
    case KCertificateVerify => Handshake(CertificateVerify(Log(p, n)))
    case KNextProto => Handshake(NextProto)
    case KChannelId => Handshake(ChannelId(Log(p, n)))
    case KClientFinished => Handshake(Finished(Client, SecretAt(p, n), Log(p, n)))
    case KServerFinished => Handshake(Finished(Server, SecretAt(p, n), Log(p, n)))
    case KTicket => Handshake(NewSessionTicket)
    case KClientCcs | KServerCcs => ChangeCipherSpec
  }

  predicate Filled(p: Params, n: nat)
    requires n < Places(p)
  {
    Present(p, KindAt(p, n))
  }

  /** Place `n` is filled by `side`. */
  predicate FilledBy(p: Params, side: Side, n: nat)
    requires n < Places(p)
  {
    Filled(p, n) && Sender(KindAt(p, n)) == side
  }

  /** The handshake messages of the first `n` places: the transcript. */
  function Log(p: Params, n: nat): seq<Message>
    requires n <= Places(p)
    decreases n, 0
  {
    if n == 0 then []
    else if Filled(p, n - 1) && ItemAt(p, n - 1).Handshake? then Log(p, n - 1) + [ItemAt(p, n - 1).msg]
    else Log(p, n - 1)
  }

  /** What `side` sends in the first `n` places. */
  function Out(p: Params, side: Side, n: nat): seq<Item>
    requires n <= Places(p)
  {
    if n == 0 then []
    else if FilledBy(p, side, n - 1) then Out(p, side, n - 1) + [ItemAt(p, n - 1)]
    else Out(p, side, n - 1)
  }

  /** What `side` sends in the places from `n` on. */
  function Rest(p: Params, side: Side, n: nat): seq<Item>
    requires n <= Places(p)
    decreases Places(p) - n
  {
    if n == Places(p) then []
    else if FilledBy(p, side, n) then [ItemAt(p, n)] + Rest(p, side, n + 1)
    else Rest(p, side, n + 1)
  }

  lemma {:induction false} OutAndRest(p: Params, side: Side, n: nat)
    requires n <= Places(p)
    ensures Out(p, side, n) + Rest(p, side, n) == Rest(p, side, 0)
  {
    hide ItemAt, Filled, KindAt;
    if n > 0 {
      OutAndRest(p, side, n - 1);
      if FilledBy(p, side, n - 1) {
        assert Rest(p, side, n - 1) == [ItemAt(p, n - 1)] + Rest(p, side, n);
      }
    }
  }

  /** The first place from `n` on that `side` fills. */
  function NextPlace(p: Params, side: Side, n: nat): (k: nat)
    requires n <= Places(p)
    ensures n <= k <= Places(p) && (k < Places(p) ==> FilledBy(p, side, k))
            && forall j | n <= j < k :: !FilledBy(p, side, j)
    decreases Places(p) - n
  {
    if n == Places(p) || FilledBy(p, side, n) then n else NextPlace(p, side, n + 1)
  }

  lemma {:induction false} RestStarts(p: Params, side: Side, n: nat)
    requires n <= Places(p) && Rest(p, side, n) != []
    ensures var k := NextPlace(p, side, n); k < Places(p) && Rest(p, side, n)[0] == ItemAt(p, k)
    decreases Places(p) - n
  {
    hide ItemAt, Filled, KindAt;
    if n < Places(p) && !FilledBy(p, side, n) {
      RestStarts(p, side, n + 1);
    }
  }

  lemma ServerHelloPlace(p: Params)
    ensures FilledBy(p, Server, 1) && ItemAt(p, 1) == Handshake(ServerHello(p.choices)) && SecretAt(p, 2) == []
  {
  }

  /** The client's certificate and key exchange, and the secret made after them. */
  lemma KeyExchangePlaces(p: Params)
    requires !p.choices.resumed
    ensures if RequestsCertificate(p.choices) then
              FilledBy(p, Client, 7) && ItemAt(p, 7) == Handshake(Certificate(p.clientCert))
            else !Filled(p, 7)
    ensures FilledBy(p, Client, 8) && ItemAt(p, 8) == Handshake(ClientKeyExchange)
    ensures SecretAt(p, 7) == SecretAt(p, 8) == [] && SecretAt(p, 9) == Log(p, 9)
  {
    hide Log;
  }

  /** The end of the client's part: from its ChangeCipherSpec to its Finished. */
  lemma ClientEnd(p: Params, n: nat)
    requires n == if p.choices.resumed then 5 else 10
    ensures n + 4 <= Places(p)
    ensures FilledBy(p, Client, n) && ItemAt(p, n) == ChangeCipherSpec
    ensures if p.choices.nextProto then FilledBy(p, Client, n + 1) && ItemAt(p, n + 1) == Handshake(NextProto)
            else !Filled(p, n + 1)
    ensures if p.choices.channelId then
              FilledBy(p, Client, n + 2) && ItemAt(p, n + 2) == Handshake(ChannelId(Log(p, n + 2)))
            else !Filled(p, n + 2)
    ensures FilledBy(p, Client, n + 3) && ItemAt(p, n + 3) == Handshake(Finished(Client, SecretAt(p, n), Log(p, n + 3)))
    ensures SecretAt(p, n + 1) == SecretAt(p, n + 2) == SecretAt(p, n + 3) == SecretAt(p, n + 4) == SecretAt(p, n)
  {
    hide Log;
  }

  /** The end of the server's part: from its ticket to its Finished. */
  lemma ServerEnd(p: Params, n: nat)
    requires n == if p.choices.resumed then 2 else 14
    ensures n + 3 <= Places(p)
    ensures if p.choices.ticket then FilledBy(p, Server, n) && ItemAt(p, n) == Handshake(NewSessionTicket)
            else !Filled(p, n)
    ensures FilledBy(p, Server, n + 1) && ItemAt(p, n + 1) == ChangeCipherSpec
    ensures FilledBy(p, Server, n + 2) && ItemAt(p, n + 2) == Handshake(Finished(Server, SecretAt(p, n), Log(p, n + 2)))
    ensures SecretAt(p, n + 1) == SecretAt(p, n + 2) == SecretAt(p, n + 3) == SecretAt(p, n)
  {
    hide Log;
  }

  /** What the client signs: everything before. */
  lemma CertificateVerifyPlace(p: Params)
    requires !p.choices.resumed
    ensures if RequestsCertificate(p.choices) && p.clientCert then
              FilledBy(p, Client, 9) && ItemAt(p, 9) == Handshake(CertificateVerify(Log(p, 9)))
            else !Filled(p, 9)
  {
    hide Log;
  }

  // ----- the handshake written out -----

  function Opt<T>(sent: bool, m: T): seq<T> {
    if sent then [m] else []
  }

  /** Up to ServerHelloDone. */
  function HelloMessages(c: Choices): seq<Message> {
    [ClientHello, ServerHello(c)] + Opt(c.certAuth, Certificate(true)) + Opt(c.certAuth && c.status, CertificateStatus)
    + Opt(c.keyExchange || (!c.certAuth && c.hint), ServerKeyExchange)
    + Opt(c.certAuth && c.verifyPeer, CertificateRequest) + [ServerHelloDone]
  }

  /** Up to the client key exchange, which the master secret depends on. */
  function KeyMessages(p: Params): seq<Message> {
    var asked := p.choices.certAuth && p.choices.verifyPeer;
    HelloMessages(p.choices) + Opt(asked, Certificate(p.clientCert)) + [ClientKeyExchange]
  }

  /** With the signature over them, if the client has a certificate and was asked for it. */
  function VerifyMessages(p: Params): seq<Message> {
    var signs := p.choices.certAuth && p.choices.verifyPeer && p.clientCert;
    KeyMessages(p) + Opt(signs, CertificateVerify(KeyMessages(p)))
  }

  /** A client ends with the protocol chosen, the Channel ID over all before it, and its Finished. */
  function ClientFinish(c: Choices, secret: seq<Message>, log: seq<Message>): seq<Message> {
    var next := log + Opt(c.nextProto, NextProto);
    var channel := next + Opt(c.channelId, ChannelId(next));
    channel + [Finished(Client, secret, channel)]
  }

  /** A server ends with its ticket and its Finished. */
  function ServerFinish(c: Choices, secret: seq<Message>, log: seq<Message>): seq<Message> {
    var ticket := log + Opt(c.ticket, NewSessionTicket);
    ticket + [Finished(Server, secret, ticket)]
  }

  /** A place adds its message to the transcript, if it holds one. */
  lemma LogNext(p: Params, n: nat)
    requires n < Places(p)
    ensures !Filled(p, n) ==> Log(p, n + 1) == Log(p, n)
    ensures Filled(p, n) && ItemAt(p, n).Handshake? ==> Log(p, n + 1) == Log(p, n) + [ItemAt(p, n).msg]
    ensures Filled(p, n) && ItemAt(p, n).ChangeCipherSpec? ==> Log(p, n + 1) == Log(p, n)
  {
  }

  lemma HelloWrittenOut(p: Params)
    requires !p.choices.resumed
    ensures Log(p, 7) == HelloMessages(p.choices)
  {
    assert Log(p, 1) == [ClientHello];
    assert Log(p, 2) == [ClientHello, ServerHello(p.choices)];
    assert Log(p, 4) == Log(p, 2) + Opt(p.choices.certAuth, Certificate(true))
                        + Opt(p.choices.certAuth && p.choices.status, CertificateStatus);
    assert Log(p, 6) == Log(p, 4) + Opt(SendsKeyExchange(p.choices), ServerKeyExchange)
                        + Opt(RequestsCertificate(p.choices), CertificateRequest);
  }

  lemma KeysWrittenOut(p: Params)
    requires !p.choices.resumed
    ensures Log(p, 9) == KeyMessages(p) && Log(p, 10) == VerifyMessages(p) && SecretAt(p, 10) == KeyMessages(p)
  {
    hide Log, ItemAt, KindAt, Present;
    HelloWrittenOut(p);
    KeyExchangePlaces(p);
    CertificateVerifyPlace(p);
    LogNext(p, 7);
    LogNext(p, 8);
    LogNext(p, 9);
  }

  lemma ClientFinishWrittenOut(p: Params, n: nat)
    requires n == if p.choices.resumed then 5 else 10
    ensures n + 4 <= Places(p) && Log(p, n + 4) == ClientFinish(p.choices, SecretAt(p, n), Log(p, n))
  {
    hide Log, ItemAt, KindAt, Present, SecretAt;
    ClientEnd(p, n);
    LogNext(p, n);
    LogNext(p, n + 1);
    LogNext(p, n + 2);
    LogNext(p, n + 3);
    assert Log(p, n + 2) == Log(p, n) + Opt(p.choices.nextProto, NextProto);
    assert Log(p, n + 3) == Log(p, n + 2) + Opt(p.choices.channelId, ChannelId(Log(p, n + 2)));
  }

  lemma ServerFinishWrittenOut(p: Params, n: nat)
    requires n == if p.choices.resumed then 2 else 14
    ensures n + 3 <= Places(p) && Log(p, n + 3) == ServerFinish(p.choices, SecretAt(p, n), Log(p, n))
  {
    hide Log, ItemAt, KindAt, Present, SecretAt;
    ServerEnd(p, n);
    LogNext(p, n);
    LogNext(p, n + 1);
    LogNext(p, n + 2);
    assert Log(p, n + 1) == Log(p, n) + Opt(p.choices.ticket, NewSessionTicket);
  }

  /** The messages of a full handshake (section 7.3 of RFC 5246), and where its master secret is made. */
  lemma FullHandshake(p: Params)
    requires !p.choices.resumed
    ensures Log(p, 9) == KeyMessages(p)
    ensures Log(p, Places(p)) ==
            var client := ClientFinish(p.choices, KeyMessages(p), VerifyMessages(p));
            ServerFinish(p.choices, KeyMessages(p), client)
  {
    hide Log;
    KeysWrittenOut(p);
    ClientFinishWrittenOut(p, 10);
    ServerFinishWrittenOut(p, 14);
  }

  /** The messages when a session is resumed. */
  lemma ResumedHandshake(p: Params)
    requires p.choices.resumed
    ensures Log(p, Places(p)) ==
            var server := ServerFinish(p.choices, [], [ClientHello, ServerHello(p.choices)]);
            ClientFinish(p.choices, [], server)
  {
    hide Log;
    LogNext(p, 0);
    LogNext(p, 1);
    assert Log(p, 2) == [ClientHello, ServerHello(p.choices)] by { EmptyLog(p); }
    ServerFinishWrittenOut(p, 2);
    ClientFinishWrittenOut(p, 5);
  }

  lemma EmptyLog(p: Params)
    ensures Log(p, 0) == []
  {
  }

  function Wrapped(msgs: seq<Message>): (items: seq<Item>)
    ensures |items| == |msgs| && forall i | 0 <= i < |msgs| :: items[i] == Handshake(msgs[i])
  {
    seq(|msgs|, i requires 0 <= i < |msgs| => Handshake(msgs[i]))
  }

  // ----- the transcript object -----

  /** `SSLTranscript`: a buffer of all messages while it may still be needed, and the running hash once its
      algorithm is known. */
  datatype Transcript = Transcript(buffer: Option<seq<Message>>, hash: Option<seq<Message>>)

  function Update(t: Transcript, m: Message): Transcript {
    Transcript(if t.buffer.Some? then Some(t.buffer.value + [m]) else None,
               if t.hash.Some? then Some(t.hash.value + [m]) else None)
  }

  /** Starts the hash with what is in the buffer; without one there is nothing to start from. */
  function InitHash(t: Transcript): Transcript {
    t.(hash := Some(if t.buffer.Some? then t.buffer.value else []))
  }

  function FreeBuffer(t: Transcript): Transcript {
    t.(buffer := None)
  }

  /** The buffer as given to a signing operation; empty once it was freed. */
  function Buffer(t: Transcript): seq<Message> {
    if t.buffer.Some? then t.buffer.value else []
  }

  /** The running hash; of nothing before the algorithm is known. */
  function Hash(t: Transcript): seq<Message> {
    if t.hash.Some? then t.hash.value else []
  }

  /** The transcript stands for `log`, and the hash runs if `hashing`. */
  predicate Holds(t: Transcript, log: seq<Message>, hashing: bool) {
    && (t.buffer.Some? ==> t.buffer.value == log)
    && (if hashing then t.hash == Some(log) else t.hash.None? && t.buffer.Some?)
  }
}
