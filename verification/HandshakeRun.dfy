/** A client and a server in an honest run: under every schedule of flushes, deliveries, waits and
    callbacks that ask to be called again, both hash the same messages, neither fails, and they never get
    stuck. */
module HandshakeRun {
  import opened HandshakeScript
  import opened HandshakeConnection
  import C = HandshakeClient
  import S = HandshakeServer

  /** What one side has flushed is what the other has received and what is still on the way. */
  ghost predicate Linked(client: C.ClientHandshake, server: S.ServerHandshake, c2s: seq<Item>, s2c: seq<Item>)
    reads client, client.conn, server, server.conn
  {
    && client.p == server.p && client.conn != server.conn
    && client.Follows() && server.Follows()
    && client.conn.flushed == server.conn.received + c2s
    && server.conn.flushed == client.conn.received + s2c
  }

  /** The first place from `n` on that is filled at all. */
  function FirstFilled(p: Params, n: nat): (k: nat)
    requires n <= Places(p)
    ensures n <= k <= Places(p) && (k < Places(p) ==> Filled(p, k)) && forall j | n <= j < k :: !Filled(p, j)
    decreases Places(p) - n
  {
    if n == Places(p) || Filled(p, n) then n else FirstFilled(p, n + 1)
  }

  /** Side `side` at place `n` waits for the other: what comes next overall is the other's, a message or a
      ChangeCipherSpec as awaited. */
  predicate Awaits(p: Params, side: Side, n: nat, message: bool) {
    && n < Places(p)
    && var k := FirstFilled(p, n);
       k < Places(p) && FilledBy(p, Other(side), k) && ItemAt(p, k).Handshake? == message
  }

  lemma ClientAwaits(client: C.ClientHandshake)
    requires client.Follows() && (client.wait.ReadMessage? || client.AwaitsCcs())
    ensures Awaits(client.p, Client, client.place, client.wait.ReadMessage?)
  {
    hide Connection.At, Log;
    var p, n := client.p, client.place;
    if client.state.ReadCertificateStatus? || client.state.ReadServerKeyExchange?
        || client.state.ReadCertificateRequest? {
      ServerFlightEnds(p, n);
    } else {
      assert Filled(p, n);
    }
  }

  /** In the server's first flight a message is always still to come, up to ServerHelloDone. */
  lemma {:induction false} ServerFlightEnds(p: Params, n: nat)
    requires !p.choices.resumed && 2 <= n <= 6
    ensures FirstFilled(p, n) <= 6 && FilledBy(p, Server, FirstFilled(p, n)) && ItemAt(p, FirstFilled(p, n)).Handshake?
    decreases 6 - n
  {
    hide Log;
    if !Filled(p, n) {
      ServerFlightEnds(p, n + 1);
    }
  }

  lemma ServerAwaits(server: S.ServerHandshake)
    requires server.Follows() && (server.wait.ReadMessage? || server.AwaitsCcs())
    ensures Awaits(server.p, Server, server.place, server.wait.ReadMessage?)
  {
    hide Connection.At, Log;
    assert Filled(server.p, server.place);
  }

  // ----- what arrives is what is awaited -----

  lemma {:induction false} NoneBetween(p: Params, side: Side, n: nat, k: nat)
    requires n <= k <= Places(p) && forall j | n <= j < k :: !Filled(p, j)
    ensures Rest(p, side, n) == Rest(p, side, k) && Out(p, side, n) == Out(p, side, k)
    decreases k - n
  {
    hide ItemAt, KindAt, Present;
    if n < k {
      NoneBetween(p, side, n, k - 1);
    }
  }

  /** The next item on the way to a waiting side is of the sort it waits for. */
  lemma AwaitedArrives(conn: Connection, p: Params, side: Side, n: nat, hashing: bool, message: bool, wire: seq<Item>)
    requires conn.At(p, side, n, hashing) && conn.hsBuf == [] && Awaits(p, side, n, message)
    requires conn.received + wire <= Rest(p, Other(side), 0) && wire != []
    ensures wire[0].Handshake? == message
  {
    hide ItemAt, KindAt, Present, Log, Filled;
    var k := FirstFilled(p, n);
    NoneBetween(p, Other(side), n, k);
    OutAndRest(p, Other(side), n);
    var all := Rest(p, Other(side), 0);
    assert conn.received == Out(p, Other(side), n);
    assert all[|conn.received|..] == Rest(p, Other(side), n);
    assert wire[0] == all[|conn.received|];
    assert Rest(p, Other(side), k)[0] == ItemAt(p, k);
  }

  /** What was flushed is the beginning of what a side sends in all. */
  lemma FlushedIsPrefix(conn: Connection, p: Params, side: Side, n: nat, hashing: bool)
    requires conn.At(p, side, n, hashing)
    ensures conn.flushed <= Rest(p, side, 0)
  {
    hide ItemAt, KindAt, Present, Log, Filled;
    OutAndRest(p, side, n);
  }

  /** The messages at the front of `wire`. */
  function Messages(wire: seq<Item>): (msgs: seq<Message>)
    ensures |msgs| <= |wire| && Wrapped(msgs) == wire[..|msgs|]
    ensures wire != [] && wire[0].Handshake? ==> msgs != []
  {
    if wire == [] || wire[0].ChangeCipherSpec? then []
    else
      var rest := Messages(wire[1..]);
      assert Wrapped([wire[0].msg] + rest) == [wire[0]] + Wrapped(rest);
      [wire[0].msg] + rest
  }

  // ----- what is left to do -----

  /** A machine that reads, or is done, waits for nothing of its own. */
  function OwnWait(wait: Wait, done: bool): nat {
    if wait.ReadMessage? || wait.ReadChangeCipherSpec? || done then 0 else 1
  }

  /** The states left to go through, and whether the machine has something of its own to wait for first. */
  ghost function ClientWork(client: C.ClientHandshake): nat
    reads client
  {
    2 * (20 - C.Rank(client.p.choices.resumed, client.state)) + OwnWait(client.wait, client.state.Done?)
  }

  ghost function ServerWork(server: S.ServerHandshake): nat
    reads server
  {
    2 * (20 - S.Rank(server.p.choices.resumed, server.state)) + OwnWait(server.wait, server.state.Done?)
  }

  /** What one side has yet to flush and the other to receive. */
  ghost function Traffic(p: Params, side: Side, from: Connection, to: Connection): int
    reads from, to
  {
    2 * |Rest(p, side, 0)| - |from.flushed| - |to.received|
  }

  /** Everything there is left to do. */
  ghost function Work(client: C.ClientHandshake, server: S.ServerHandshake): int
    reads client, client.conn, server, server.conn
  {
    ClientWork(client) + ServerWork(server)
    + Traffic(client.p, Client, client.conn, server.conn) + Traffic(client.p, Server, server.conn, client.conn)
  }

  ghost predicate ClientIdle(client: C.ClientHandshake, s2c: seq<Item>)
    reads client
  {
    client.state.Done? || ((client.wait.ReadMessage? || client.wait.ReadChangeCipherSpec?) && s2c == [])
  }

  ghost predicate ServerIdle(server: S.ServerHandshake, c2s: seq<Item>)
    reads server
  {
    server.state.Done? || ((server.wait.ReadMessage? || server.wait.ReadChangeCipherSpec?) && c2s == [])
  }

  // ----- the two drivers -----

  /** One turn of the client's driver: it resolves what the machine waits for, if it can, and runs the
      machine. Returns what is on the way afterwards. */
  method ClientTurn(client: C.ClientHandshake, server: S.ServerHandshake, c2s: seq<Item>, s2c: seq<Item>, prompt: bool)
    returns (out: seq<Item>, rest: seq<Item>)
    requires Linked(client, server, c2s, s2c)
    modifies client, client.conn
    ensures Linked(client, server, out, rest)
    ensures prompt && !old(ClientIdle(client, s2c)) ==> Work(client, server) < old(Work(client, server))
    ensures prompt && old(ClientIdle(client, s2c)) ==>
              && (out, rest) == (c2s, s2c) && ClientIdle(client, s2c)
              && Work(client, server) == old(Work(client, server))
  {
    hide C.ClientHandshake.Follows, S.ServerHandshake.Follows, C.Rank, S.Rank, Rest;
    out, rest := c2s, s2c;
    if client.state.Done? {
      return;
    }
    if client.wait.Flush? {
      out := FlushClient(client, c2s, prompt);
    } else if client.wait.ReadMessage? {
      ArrivesAtClient(client, server, s2c);
      rest := DeliverToClient(client, s2c, prompt);
    } else if client.wait.ReadChangeCipherSpec? {
      ArrivesAtClient(client, server, s2c);
      if s2c != [] {
        client.GotChangeCipherSpec();
        rest := s2c[1..];
      }
    } else if !client.wait.Ok? {
      client.Resume();
    }
    if client.wait.Ok? {
      client.Run(prompt);
    }
  }

  lemma ArrivesAtClient(client: C.ClientHandshake, server: S.ServerHandshake, s2c: seq<Item>)
    requires client.Follows() && server.Follows() && client.p == server.p
             && server.conn.flushed == client.conn.received + s2c
    requires client.wait.ReadMessage? || client.wait.ReadChangeCipherSpec?
    ensures s2c != [] ==> s2c[0].Handshake? == client.wait.ReadMessage?
    ensures client.conn.received + s2c <= Rest(client.p, Server, 0)
  {
    hide Connection.At, Rest;
    FlushedIsPrefix(server.conn, client.p, Server, server.place, server.place >= 1);
    ClientAwaits(client);
    if s2c != [] {
      AwaitedArrives(client.conn, client.p, Client, client.place, client.place >= 2, client.wait.ReadMessage?, s2c);
    }
  }

  method FlushClient(client: C.ClientHandshake, c2s: seq<Item>, prompt: bool) returns (out: seq<Item>)
    requires client.Follows() && client.wait.Flush?
    modifies client`wait, client.conn`flight, client.conn`flushed
    ensures client.Follows() && c2s <= out && client.conn.flushed == old(client.conn.flushed) + out[|c2s|..]
    ensures client.wait in {Ok, Flush} && (prompt ==> client.wait.Ok?)
  {
    hide Connection.At, Rest, Log, Out, SecretAt, C.PlaceOf, C.FullOnly, C.Sending, C.ClientHandshake.Negotiated;
    var k: nat :| k <= |client.conn.flight|;
    if prompt {
      k := |client.conn.flight|;
    }
    var items := client.conn.FlushSome(k, client.p, Client, client.place, client.place >= 2);
    out := c2s + items;
    if client.conn.flight == [] {
      client.wait := Ok;
    }
  }

  method DeliverToClient(client: C.ClientHandshake, s2c: seq<Item>, prompt: bool) returns (rest: seq<Item>)
    requires client.Follows() && client.wait.ReadMessage?
    requires client.conn.received + s2c <= Rest(client.p, Server, 0)
    modifies client`wait, client.conn`hsBuf, client.conn`received
    ensures client.Follows() && client.conn.received + rest == old(client.conn.received) + s2c
    ensures if |rest| < |s2c| then client.wait.Ok? else client.wait.ReadMessage? && rest == s2c
    ensures prompt && s2c != [] && s2c[0].Handshake? ==> |rest| < |s2c|
  {
    hide Connection.At, Rest, Log, Out, SecretAt, C.PlaceOf, C.FullOnly, C.ClientHandshake.Negotiated;
    var msgs := Messages(s2c);
    var k: nat :| k <= |msgs|;
    if prompt {
      k := |msgs|;
    }
    if k == 0 {
      return s2c;
    }
    assert s2c == Wrapped(msgs[..k]) + s2c[k..];
    client.conn.Receive(msgs[..k], client.p, Client, client.place, client.place >= 2);
    client.wait := Ok;
    rest := s2c[k..];
  }

  method ServerTurn(client: C.ClientHandshake, server: S.ServerHandshake, c2s: seq<Item>, s2c: seq<Item>, prompt: bool)
    returns (out: seq<Item>, rest: seq<Item>)
    requires Linked(client, server, c2s, s2c)
    modifies server, server.conn
    ensures Linked(client, server, rest, out)
    ensures prompt && !old(ServerIdle(server, c2s)) ==> Work(client, server) < old(Work(client, server))
    ensures prompt && old(ServerIdle(server, c2s)) ==>
              && (out, rest) == (s2c, c2s) && ServerIdle(server, c2s)
              && Work(client, server) == old(Work(client, server))
  {
    hide C.ClientHandshake.Follows, S.ServerHandshake.Follows, C.Rank, S.Rank, Rest;
    out, rest := s2c, c2s;
    if server.state.Done? {
      return;
    }
    if server.wait.Flush? {
      out := FlushServer(server, s2c, prompt);
    } else if server.wait.ReadMessage? {
      ArrivesAtServer(client, server, c2s);
      rest := DeliverToServer(server, c2s, prompt);
    } else if server.wait.ReadChangeCipherSpec? {
      ArrivesAtServer(client, server, c2s);
      if c2s != [] {
        server.GotChangeCipherSpec();
        rest := c2s[1..];
      }
    } else if !server.wait.Ok? {
      server.Resume();
    }
    if server.wait.Ok? {
      server.Run(prompt);
    }
  }

  lemma ArrivesAtServer(client: C.ClientHandshake, server: S.ServerHandshake, c2s: seq<Item>)
    requires client.Follows() && server.Follows() && client.p == server.p
             && client.conn.flushed == server.conn.received + c2s
    requires server.wait.ReadMessage? || server.wait.ReadChangeCipherSpec?
    ensures c2s != [] ==> c2s[0].Handshake? == server.wait.ReadMessage?
    ensures server.conn.received + c2s <= Rest(server.p, Client, 0)
  {
    hide Connection.At, Rest;
    FlushedIsPrefix(client.conn, client.p, Client, client.place, client.place >= 2);
    ServerAwaits(server);
    if c2s != [] {
      AwaitedArrives(server.conn, client.p, Server, server.place, server.place >= 1, server.wait.ReadMessage?, c2s);
    }
  }

  method FlushServer(server: S.ServerHandshake, s2c: seq<Item>, prompt: bool) returns (out: seq<Item>)
    requires server.Follows() && server.wait.Flush?
    modifies server`wait, server.conn`flight, server.conn`flushed
    ensures server.Follows() && s2c <= out && server.conn.flushed == old(server.conn.flushed) + out[|s2c|..]
    ensures server.wait in {Ok, Flush} && (prompt ==> server.wait.Ok?)
  {
    hide Connection.At, Rest, Log, Out, SecretAt, S.PlaceOf, S.FullOnly, S.Sending, S.ServerHandshake.Negotiated;
    var k: nat :| k <= |server.conn.flight|;
    if prompt {
      k := |server.conn.flight|;
    }
    var items := server.conn.FlushSome(k, server.p, Server, server.place, server.place >= 1);
    out := s2c + items;
    if server.conn.flight == [] {
      server.wait := Ok;
    }
  }

  method DeliverToServer(server: S.ServerHandshake, c2s: seq<Item>, prompt: bool) returns (rest: seq<Item>)
    requires server.Follows() && server.wait.ReadMessage?
    requires server.conn.received + c2s <= Rest(server.p, Client, 0)
    modifies server`wait, server.conn`hsBuf, server.conn`received
    ensures server.Follows() && server.conn.received + rest == old(server.conn.received) + c2s
    ensures if |rest| < |c2s| then server.wait.Ok? else server.wait.ReadMessage? && rest == c2s
    ensures prompt && c2s != [] && c2s[0].Handshake? ==> |rest| < |c2s|
  {
    hide Connection.At, Rest, Log, Out, SecretAt, S.PlaceOf, S.FullOnly, S.ServerHandshake.Negotiated;
    var msgs := Messages(c2s);
    var k: nat :| k <= |msgs|;
    if prompt {
      k := |msgs|;
    }
    if k == 0 {
      return c2s;
    }
    assert c2s == Wrapped(msgs[..k]) + c2s[k..];
    server.conn.Receive(msgs[..k], server.p, Server, server.place, server.place >= 1);
    server.wait := Ok;
    rest := c2s[k..];
  }

  // ----- agreement -----

  /** Whenever both sides have processed the same part of the handshake, their transcripts and the
      transcripts in their master secrets are equal. */
  lemma TranscriptsAgree(client: C.ClientHandshake, server: S.ServerHandshake, c2s: seq<Item>, s2c: seq<Item>)
    requires Linked(client, server, c2s, s2c) && client.place == server.place >= 2
    ensures Hash(client.conn.transcript) == Hash(server.conn.transcript) == Log(client.p, client.place)
    ensures client.secret == server.secret
  {
    hide Rest, Out, Log;
  }

  /** As long as not both are done there is something to do: never do both wait for the other with nothing
      on the way. */
  lemma NeverStuck(client: C.ClientHandshake, server: S.ServerHandshake)
    requires Linked(client, server, [], []) && client.conn.flight == [] && server.conn.flight == []
    requires client.wait.ReadMessage? || client.wait.ReadChangeCipherSpec? || client.state.Done?
    requires server.wait.ReadMessage? || server.wait.ReadChangeCipherSpec? || server.state.Done?
    ensures client.state.Done? && server.state.Done?
  {
    hide C.ClientHandshake.Follows, S.ServerHandshake.Follows, Awaits, FirstFilled, Out;
    var p := client.p;
    NothingLeft(client, server);
    DoneAtEnd(client, server);
    SameFirst(p, client.place, server.place);
    if !client.state.Done? {
      ClientAwaits(client);
    }
    if !server.state.Done? {
      ServerAwaits(server);
    }
    AwaitsOther(p, client.place, server.place);
  }

  /** With nothing on the way both have sent and received the same. */
  lemma NothingLeft(client: C.ClientHandshake, server: S.ServerHandshake)
    requires Linked(client, server, [], []) && client.conn.flight == [] && server.conn.flight == []
    requires client.wait.ReadMessage? || client.wait.ReadChangeCipherSpec? || client.state.Done?
    requires server.wait.ReadMessage? || server.wait.ReadChangeCipherSpec? || server.state.Done?
    ensures client.place <= Places(client.p) && server.place <= Places(client.p)
    ensures forall side: Side :: Out(client.p, side, client.place) == Out(client.p, side, server.place)
  {
    hide Log, Out;
    assert client.conn.hsBuf == [] && server.conn.hsBuf == [];
    forall side: Side ensures Out(client.p, side, client.place) == Out(client.p, side, server.place) {
      assert side == Client || side == Server;
    }
  }

  lemma {:induction false} OutGrows(p: Params, side: Side, a: nat, b: nat)
    requires a <= b <= Places(p)
    ensures |Out(p, side, a)| <= |Out(p, side, b)|
    ensures forall k | a <= k < b && FilledBy(p, side, k) :: |Out(p, side, a)| < |Out(p, side, b)|
    decreases b - a
  {
    hide ItemAt, Filled, KindAt;
    if a < b {
      OutGrows(p, side, a, b - 1);
    }
  }

  /** If both places have the same behind them they have the same before them. */
  lemma SameFirst(p: Params, a: nat, b: nat)
    requires a <= Places(p) && b <= Places(p) && forall side: Side :: Out(p, side, a) == Out(p, side, b)
    ensures FirstFilled(p, a) == FirstFilled(p, b)
  {
    hide ItemAt, Filled, Sender, KindAt, Out;
    var low, high := if a <= b then a else b, if a <= b then b else a;
    OutGrows(p, Client, low, high);
    OutGrows(p, Server, low, high);
    assert forall k | low <= k < high :: !FilledBy(p, Client, k) && !FilledBy(p, Server, k);
    forall k | low <= k < high ensures !Filled(p, k) {
      assert !FilledBy(p, Client, k) && !FilledBy(p, Server, k);
    }
    FirstFilledFrom(p, low, high);
  }

  lemma {:induction false} FirstFilledFrom(p: Params, low: nat, high: nat)
    requires low <= high <= Places(p) && forall k | low <= k < high :: !Filled(p, k)
    ensures FirstFilled(p, low) == FirstFilled(p, high)
    decreases high - low
  {
    if low < high {
      FirstFilledFrom(p, low + 1, high);
    }
  }

  /** Where the same comes next for both, at most one of them waits for the other, and none does at the end. */
  lemma AwaitsOther(p: Params, a: nat, b: nat)
    requires a <= Places(p) && b <= Places(p) && FirstFilled(p, a) == FirstFilled(p, b)
    ensures !(Awaits(p, Client, a, true) || Awaits(p, Client, a, false))
            || !(Awaits(p, Server, b, true) || Awaits(p, Server, b, false))
    ensures b == Places(p) ==> !Awaits(p, Client, a, true) && !Awaits(p, Client, a, false)
    ensures a == Places(p) ==> !Awaits(p, Server, b, true) && !Awaits(p, Server, b, false)
  {
  }

  lemma {:induction false} LogGrows(p: Params, a: nat, b: nat)
    requires a <= b <= Places(p)
    ensures Log(p, a) <= Log(p, b)
    decreases b - a
  {
    hide ItemAt, Filled, KindAt;
    if a < b {
      LogGrows(p, a, b - 1);
    }
  }

  /** At any moment each side has hashed a beginning of the handshake's messages, and nothing else. */
  lemma HashedSoFar(client: C.ClientHandshake, server: S.ServerHandshake)
    requires client.Follows() && server.Follows() && client.p == server.p
    ensures client.place <= Places(client.p) && server.place <= Places(client.p)
    ensures Hash(client.conn.transcript) == if client.place >= 2 then Log(client.p, client.place) else []
    ensures Hash(server.conn.transcript) == if server.place >= 1 then Log(client.p, server.place) else []
  {
    hide Rest, Out, Log;
  }

  /** Any honest run, of any length. Neither side ever fails. At every moment both sides have hashed messages
      of the handshake, each once and in order, so that one transcript is the beginning of the other; and when
      both are done they have hashed the same messages, all of them, and agree on the secret. */
  method HonestRun(choices: Choices, clientCert: bool, steps: nat)
    returns (failed: bool, clientDone: bool, serverDone: bool, clientHash: seq<Message>, serverHash: seq<Message>,
             sameSecret: bool)
    ensures !failed
    ensures var p := Params(choices, clientCert);
            && clientHash <= Log(p, Places(p)) && serverHash <= Log(p, Places(p))
            && (clientHash <= serverHash || serverHash <= clientHash)
            && (clientDone ==> clientHash == Log(p, Places(p)))
            && (serverDone ==> serverHash == Log(p, Places(p)))
            && (clientDone && serverDone ==> sameSecret)
  {
    hide C.ClientHandshake.Follows, S.ServerHandshake.Follows, Log;
    ghost var p := Params(choices, clientCert);
    var client := new C.ClientHandshake(clientCert, p);
    var server := new S.ServerHandshake(choices, p);
    var c2s: seq<Item>, s2c: seq<Item> := [], [];
    for i := 0 to steps
      invariant Linked(client, server, c2s, s2c) && client.p == p
      invariant fresh(client) && fresh(server) && fresh(client.conn) && fresh(server.conn)
    {
      var clientMoves: bool := *;
      if clientMoves {
        c2s, s2c := ClientTurn(client, server, c2s, s2c, false);
      } else {
        s2c, c2s := ServerTurn(client, server, c2s, s2c, false);
      }
    }
    HashedSoFar(client, server);
    DoneAtEnd(client, server);
    LogsCompare(p, client.place, server.place);
    if client.state.Done? && server.state.Done? {
      TranscriptsAgree(client, server, c2s, s2c);
    }
    NeitherFails(client, server);
    return client.wait.Error? || server.wait.Error?, client.state.Done?, server.state.Done?,
           Hash(client.conn.transcript), Hash(server.conn.transcript),
           client.secret == server.secret;
  }

  lemma LogsCompare(p: Params, a: nat, b: nat)
    requires a <= Places(p) && b <= Places(p)
    ensures Log(p, a) <= Log(p, Places(p)) && Log(p, b) <= Log(p, Places(p))
    ensures Log(p, a) <= Log(p, b) || Log(p, b) <= Log(p, a)
  {
    hide Log;
    LogGrows(p, a, Places(p));
    LogGrows(p, b, Places(p));
    if a <= b {
      LogGrows(p, a, b);
    } else {
      LogGrows(p, b, a);
    }
  }

  lemma NeitherFails(client: C.ClientHandshake, server: S.ServerHandshake)
    requires client.Follows() && server.Follows()
    ensures !client.wait.Error? && !server.wait.Error?
  {
    hide Connection.At, Log;
  }

  lemma DoneAtEnd(client: C.ClientHandshake, server: S.ServerHandshake)
    requires client.Follows() && server.Follows() && client.p == server.p
    ensures client.state.Done? ==> client.place == Places(client.p)
    ensures server.state.Done? ==> server.place == Places(client.p)
  {
    hide Rest, Out, Log, Connection.At;
  }

  // ----- a fair schedule ends -----

  /** There is never less than nothing left to do. */
  lemma WorkIsNatural(client: C.ClientHandshake, server: S.ServerHandshake, c2s: seq<Item>, s2c: seq<Item>)
    requires Linked(client, server, c2s, s2c)
    ensures Work(client, server) >= 0
  {
    hide Connection.At, Rest, Log, C.ClientHandshake.Negotiated, S.ServerHandshake.Negotiated;
    FlushedIsPrefix(client.conn, client.p, Client, client.place, client.place >= 2);
    FlushedIsPrefix(server.conn, client.p, Server, server.place, server.place >= 1);
  }

  /** A machine that is done has received everything, and one that reads or is done has nothing to flush. */
  lemma IdleIsEmpty(client: C.ClientHandshake, server: S.ServerHandshake, c2s: seq<Item>, s2c: seq<Item>)
    requires Linked(client, server, c2s, s2c) && ClientIdle(client, s2c) && ServerIdle(server, c2s)
    ensures c2s == [] && s2c == [] && client.conn.flight == [] && server.conn.flight == []
  {
    hide Connection.At, Log, Rest, Out;
    if client.state.Done? {
      AllReceived(server.conn, client.conn, client.p, Server, server.place, server.place >= 1, s2c);
    }
    if server.state.Done? {
      AllReceived(client.conn, server.conn, client.p, Client, client.place, client.place >= 2, c2s);
    }
  }

  lemma AllReceived(from: Connection, to: Connection, p: Params, side: Side, n: nat, hashing: bool, wire: seq<Item>)
    requires from.At(p, side, n, hashing) && to.At(p, Other(side), Places(p), true)
    requires from.flushed == to.received + wire
    ensures wire == []
  {
    hide Log, ItemAt, Filled;
    FlushedIsPrefix(from, p, side, n, hashing);
    OutAndRest(p, side, Places(p));
  }

  /** From any moment of any run: if from then on both take turns, flush and deliver what there is and their
      callbacks answer, both are done after at most as many rounds as there is work left. Both have then
      hashed the whole handshake and hold the same secret. */
  method FairRun(client: C.ClientHandshake, server: S.ServerHandshake, c2s: seq<Item>, s2c: seq<Item>)
    returns (rounds: nat)
    requires Linked(client, server, c2s, s2c)
    modifies client, client.conn, server, server.conn
    ensures client.Follows() && server.Follows() && client.state.Done? && server.state.Done?
    ensures Hash(client.conn.transcript) == Hash(server.conn.transcript) == Log(client.p, Places(client.p))
    ensures client.secret == server.secret && rounds <= old(Work(client, server))
  {
    hide C.ClientHandshake.Follows, S.ServerHandshake.Follows, Log, Work, ClientIdle, ServerIdle;
    var toServer, toClient := c2s, s2c;
    rounds := 0;
    WorkIsNatural(client, server, toServer, toClient);
    while !(client.state.Done? && server.state.Done?)
      invariant Linked(client, server, toServer, toClient)
      invariant 0 <= Work(client, server) <= old(Work(client, server)) - rounds
      decreases Work(client, server)
    {
      if ClientIdle(client, toClient) && ServerIdle(server, toServer) {
        NothingToDo(client, server, toServer, toClient);
      }
      toServer, toClient := ClientTurn(client, server, toServer, toClient, true);
      toClient, toServer := ServerTurn(client, server, toServer, toClient, true);
      WorkIsNatural(client, server, toServer, toClient);
      rounds := rounds + 1;
    }
    HashedSoFar(client, server);
    DoneAtEnd(client, server);
    TranscriptsAgree(client, server, toServer, toClient);
  }

  lemma NothingToDo(client: C.ClientHandshake, server: S.ServerHandshake, c2s: seq<Item>, s2c: seq<Item>)
    requires Linked(client, server, c2s, s2c) && ClientIdle(client, s2c) && ServerIdle(server, c2s)
    ensures client.state.Done? && server.state.Done?
  {
    hide C.ClientHandshake.Follows, S.ServerHandshake.Follows, Log;
    IdleIsEmpty(client, server, c2s, s2c);
    NeverStuck(client, server);
  }

  /** A handshake from its beginning ends, with both sides in agreement, within a fixed number of rounds. */
  method FairHandshake(choices: Choices, clientCert: bool)
    returns (clientHash: seq<Message>, serverHash: seq<Message>, sameSecret: bool, rounds: nat)
    ensures var p := Params(choices, clientCert); clientHash == serverHash == Log(p, Places(p)) && sameSecret
    ensures rounds <= 150
  {
    hide C.ClientHandshake.Follows, S.ServerHandshake.Follows, Log;
    ghost var p := Params(choices, clientCert);
    var client := new C.ClientHandshake(clientCert, p);
    var server := new S.ServerHandshake(choices, p);
    RestIsShort(p, Client, 0);
    RestIsShort(p, Server, 0);
    rounds := FairRun(client, server, [], []);
    return Hash(client.conn.transcript), Hash(server.conn.transcript), client.secret == server.secret, rounds;
  }

  lemma {:induction false} RestIsShort(p: Params, side: Side, n: nat)
    requires n <= Places(p)
    ensures |Rest(p, side, n)| <= Places(p) - n
    decreases Places(p) - n
  {
    hide ItemAt, Filled;
    if n < Places(p) {
      RestIsShort(p, side, n + 1);
    }
  }
}
