/**
  The SOCKS5 sniffing relay, as a transition system. It relays the bytes of a handshake it
  only watches, and then either hands the connection to a TLS child, or gives up and relays
  for good. `SocksLayer` (in its own file) is the layer itself, method by method, proved to
  take exactly these steps.
 */
module Socks {
  import opened Bytes
  import opened SocksWire

  const MAX_HANDSHAKE_BUF := 0x1_0000

  datatype ClientPhase = CGreeting | CAuth | CRequest | CDone
  datatype ServerPhase = SGreeting | SAuth | SRequest | SDone

  /** What has left the layer: to the two connections, and to the child as coming from each. */
  datatype Wire = Wire(toServer: seq<Byte>, toClient: seq<Byte>, childClient: seq<Byte>, childServer: seq<Byte>)

  /** What the child was set up with: the destination and the credentials recorded for it. */
  datatype Tunnel = Tunnel(target: Target, username: seq<Byte>, password: seq<Byte>)

  /**
    What a run has been through. The layer keeps none of this; it is here to state results:
    the client's messages as relayed, the proxy's reply as relayed, whether it granted the
    request, and how many children were made.
   */
  datatype Past = Past(hello: seq<Byte>, creds: seq<Byte>, connect: seq<Byte>, reply: seq<Byte>,
                       granted: bool, children: nat)

  datatype State = State(
    cPhase: ClientPhase, sPhase: ServerPhase, greeted: bool, passthrough: bool, chosen: Option<Byte>,
    cBuf: seq<Byte>, sBuf: seq<Byte>, target: Option<Target>, username: seq<Byte>, password: seq<Byte>,
    child: Option<Tunnel>, wire: Wire, past: Past)

  const INITIAL := State(CGreeting, SGreeting, false, false, None, [], [], None, [], [], None,
                         Wire([], [], [], []), Past([], [], [], [], false, 0))

  // ---- the pieces of a step ----

  /** Relays the first `n` buffered bytes of the client. */
  function Forward(s: State, n: nat): State
    requires n <= |s.cBuf|
  {
    s.(cBuf := s.cBuf[n..], wire := s.wire.(toServer := s.wire.toServer + s.cBuf[..n]))
  }

  /** Relays the first `n` buffered bytes of the proxy. */
  function Answer(s: State, n: nat): State
    requires n <= |s.sBuf|
  {
    s.(sBuf := s.sBuf[n..], wire := s.wire.(toClient := s.wire.toClient + s.sBuf[..n]))
  }

  /** Gives up decoding: everything buffered goes out, and nothing is buffered again. */
  function RelayRaw(s: State): State {
    Flushed(s.(passthrough := true, cPhase := CDone))
  }

  /** With everything buffered sent on. */
  function Flushed(s: State): State {
    s.(cBuf := [], sBuf := [],
       wire := s.wire.(toServer := s.wire.toServer + s.cBuf, toClient := s.wire.toClient + s.sBuf))
  }

  /** Hands over to the child, which gets everything still buffered. */
  function Establish(s: State): State
    requires s.target.Some?
  {
    Fed(s.(cPhase := CDone, sPhase := SDone, child := Some(Tunnel(s.target.value, s.username, s.password)),
           past := s.past.(children := s.past.children + 1)))
  }

  /** With everything buffered given to the child. */
  function Fed(s: State): State {
    s.(cBuf := [], sBuf := [],
       wire := s.wire.(childClient := s.wire.childClient + s.cBuf, childServer := s.wire.childServer + s.sBuf))
  }

  function TakeGreeting(s: State): State
    requires Holds(s.cBuf, GreetingSize(s.cBuf))
  {
    var n := GreetingSize(s.cBuf).n;
    Forward(s, n).(greeted := true, past := s.past.(hello := s.cBuf[..n]))
  }

  /** The phase after the greeting, once the proxy has chosen a method. */
  function ChosenPhase(m: Byte): ClientPhase {
    if m == METHOD_USER_PASS then CAuth else CRequest
  }

  function TakeAuth(s: State): State
    requires Holds(s.cBuf, AuthSize(s.cBuf))
  {
    var n, ulen := AuthSize(s.cBuf).n, s.cBuf[1] as nat;
    Forward(s, n).(cPhase := CRequest, username := s.cBuf[2..2 + ulen], password := s.cBuf[3 + ulen..n],
                   past := s.past.(creds := s.cBuf[..n]))
  }

  function TakeRequest(s: State): (t: State)
    requires Holds(s.cBuf, RequestSize(s.cBuf))
    ensures t.target.Some?
  {
    var n := RequestSize(s.cBuf).n;
    SizesOfMessage(s.cBuf, n);
    Forward(s, n).(cPhase := CDone, target := Some(TargetOf(s.cBuf[..n])),
                   past := s.past.(connect := s.cBuf[..n]))
  }

  function Rank(p: ClientPhase): nat {
    match p case CGreeting => 3 case CAuth => 2 case CRequest => 1 case CDone => 0
  }

  /** Takes as many of the client's messages as are complete and due. */
  function ParseClient(s: State): State
    decreases Rank(s.cPhase)
  {
    match s.cPhase
    case CGreeting =>
      if !s.greeted && !Holds(s.cBuf, GreetingSize(s.cBuf)) then s
      else
        var t := if s.greeted then s else TakeGreeting(s);
        if t.chosen.None? then t else ParseClient(t.(cPhase := ChosenPhase(t.chosen.value)))
    case CAuth =>
      if Holds(s.cBuf, AuthSize(s.cBuf)) then ParseClient(TakeAuth(s)) else s
    case CRequest =>
      if RequestSize(s.cBuf).Foreign? then RelayRaw(s)
      else if !Holds(s.cBuf, RequestSize(s.cBuf)) then s
      else
        var t := TakeRequest(s);
        if t.sPhase == SDone then Establish(t) else t
    case CDone => s
  }

  /** The proxy's choice is read and relayed. */
  function TakeChoice(s: State): State
    requires |s.sBuf| >= 2
  {
    Answer(s, 2).(chosen := Some(s.sBuf[1]))
  }

  /** The proxy's choice of method. */
  function TakeMethod(s: State): State
    requires |s.sBuf| >= 2
  {
    var m := s.sBuf[1];
    var t := TakeChoice(s);
    if m != METHOD_NONE && m != METHOD_USER_PASS then t.(sPhase := SDone)
    else
      ParseClient(t.(sPhase := if m == METHOD_USER_PASS then SAuth else SRequest, cPhase := ChosenPhase(m)))
  }

  /** The proxy's verdict on the credentials. */
  function TakeStatus(s: State): State
    requires |s.sBuf| >= 2
  {
    if s.sBuf[1] != 0 then Answer(s, 2).(sPhase := SDone)
    else ParseClient(Answer(s, 2).(sPhase := SRequest))
  }

  /** The proxy's reply to the CONNECT request. */
  function TakeReply(s: State): State
    requires Holds(s.sBuf, MessageSize(s.sBuf))
  {
    var n := MessageSize(s.sBuf).n;
    var ok := s.sBuf[1] == 0;
    var t := Answer(s, n).(sPhase := SDone, past := s.past.(reply := s.sBuf[..n], granted := ok));
    if ok && t.target.Some? then Establish(t) else t
  }

  /** Takes the proxy's next message, if it is complete: one per arrival. */
  function ParseServer(s: State): State {
    match s.sPhase
    case SGreeting =>
      if |s.sBuf| < 2 then s
      else if s.sBuf[0] != 5 then s.(sPhase := SDone)
      else TakeMethod(s)
    case SAuth =>
      if |s.sBuf| < 2 then s
      else if s.sBuf[0] != 1 then s.(sPhase := SDone)
      else TakeStatus(s)
    case SRequest =>
      if MessageSize(s.sBuf).Foreign? then s.(sPhase := SDone)
      else if !Holds(s.sBuf, MessageSize(s.sBuf)) then s
      else TakeReply(s)
    case SDone => s
  }

  function OnClientData(s: State, data: seq<Byte>): State {
    if s.child.Some? then s.(wire := s.wire.(childClient := s.wire.childClient + data))
    else if s.passthrough then s.(wire := s.wire.(toServer := s.wire.toServer + data))
    else
      var t := s.(cBuf := s.cBuf + data);
      if |t.cBuf| > MAX_HANDSHAKE_BUF then RelayRaw(t) else ParseClient(t)
  }

  function OnServerData(s: State, data: seq<Byte>): State {
    if s.child.Some? then s.(wire := s.wire.(childServer := s.wire.childServer + data))
    else if s.passthrough then s.(wire := s.wire.(toClient := s.wire.toClient + data))
    else
      var t := s.(sBuf := s.sBuf + data);
      if |t.sBuf| > MAX_HANDSHAKE_BUF then RelayRaw(t) else ParseServer(t)
  }

  datatype Event = FromClient(data: seq<Byte>) | FromServer(data: seq<Byte>)

  function Handle(s: State, e: Event): State {
    match e case FromClient(data) => OnClientData(s, data) case FromServer(data) => OnServerData(s, data)
  }

  /** The state after a whole run. */
  function Run(es: seq<Event>): State {
    if es == [] then INITIAL else Handle(Run(es[..|es| - 1]), es[|es| - 1])
  }

  /** Everything the client sent, in order. */
  function ClientBytes(es: seq<Event>): seq<Byte> {
    if es == [] then []
    else
      var last := es[|es| - 1];
      ClientBytes(es[..|es| - 1]) + if last.FromClient? then last.data else []
  }

  function ServerBytes(es: seq<Event>): seq<Byte> {
    if es == [] then []
    else
      var last := es[|es| - 1];
      ServerBytes(es[..|es| - 1]) + if last.FromServer? then last.data else []
  }

  // ---- what every run keeps ----

  /** All of the client's bytes, wherever they are now. */
  function ClientTotal(s: State): seq<Byte> {
    s.wire.toServer + s.wire.childClient + s.cBuf
  }

  function ServerTotal(s: State): seq<Byte> {
    s.wire.toClient + s.wire.childServer + s.sBuf
  }

  /** How the phases, the buffers and the child hang together. */
  predicate Coherent(s: State) {
    && |s.cBuf| <= MAX_HANDSHAKE_BUF && |s.sBuf| <= MAX_HANDSHAKE_BUF
    && (s.passthrough ==> s.cBuf == [] && s.sBuf == [] && s.child.None?)
    && (s.child.None? ==> s.wire.childClient == [] && s.wire.childServer == [])
    && (s.child.Some? ==> s.cBuf == [] && s.sBuf == [] && s.sPhase == SDone && s.target.Some?
                          && s.child.value == Tunnel(s.target.value, s.username, s.password))
    && s.past.children == (if s.child.Some? then 1 else 0)
    && (s.target.Some? && s.past.granted ==> s.child.Some?)
    && (s.past.granted ==> s.sPhase == SDone)
    && (s.sPhase == SGreeting ==> s.chosen.None?)
    && (s.chosen.None? && !s.passthrough ==> s.cPhase == CGreeting)
    && (s.cPhase == CDone && !s.passthrough <==> s.target.Some? && !s.passthrough)
    && (s.passthrough ==> s.cPhase == CDone)
  }

  /** Bytes change places but none is lost, added or reordered, on either side. */
  predicate Moves(s: State, t: State) {
    ClientTotal(t) == ClientTotal(s) && ServerTotal(t) == ServerTotal(s)
  }

  /** Still in the handshake: nothing has gone to a child, nothing has been given up. */
  predicate Watching(s: State) {
    s.child.None? && !s.passthrough && s.wire.childClient == [] && s.wire.childServer == []
  }

  lemma ForwardMoves(s: State, n: nat)
    requires Watching(s)
    ensures n <= |s.cBuf| ==> Moves(s, Forward(s, n))
    ensures n <= |s.sBuf| ==> Moves(s, Answer(s, n))
  {
    if n <= |s.cBuf| { Handed(s.wire.toServer, s.cBuf, n); }
    if n <= |s.sBuf| { Handed(s.wire.toClient, s.sBuf, n); }
  }

  lemma Handed(sent: seq<Byte>, buf: seq<Byte>, n: nat)
    requires n <= |buf|
    ensures sent + buf[..n] + [] + buf[n..] == sent + [] + buf
  {}

  lemma LeavingMoves(s: State)
    requires Watching(s)
    ensures Moves(s, RelayRaw(s))
    ensures s.target.Some? ==> Moves(s, Establish(s))
  {}

  /** Taking one of the client's messages. */
  lemma TakeMoves(s: State)
    requires Watching(s)
    ensures Holds(s.cBuf, GreetingSize(s.cBuf)) ==> Moves(s, TakeGreeting(s))
    ensures Holds(s.cBuf, AuthSize(s.cBuf)) ==> Moves(s, TakeAuth(s))
    ensures Holds(s.cBuf, RequestSize(s.cBuf)) ==> Moves(s, TakeRequest(s))
  {
    hide TargetOf, GreetingSize, AuthSize, RequestSize;
    if Holds(s.cBuf, GreetingSize(s.cBuf)) { ForwardMoves(s, GreetingSize(s.cBuf).n); }
    if Holds(s.cBuf, AuthSize(s.cBuf)) { ForwardMoves(s, AuthSize(s.cBuf).n); }
    if Holds(s.cBuf, RequestSize(s.cBuf)) { ForwardMoves(s, RequestSize(s.cBuf).n); }
  }

  lemma {:induction false} ParseClientKeeps(s: State)
    requires Coherent(s) && Watching(s)
    ensures Coherent(ParseClient(s)) && Moves(s, ParseClient(s))
    ensures ParseClient(s).sPhase == s.sPhase || ParseClient(s).child.Some?
    ensures ParseClient(s).past.granted == s.past.granted
    decreases Rank(s.cPhase)
  {
    hide TargetOf, GreetingSize, AuthSize, RequestSize, ClientTotal, ServerTotal;
    TakeMoves(s);
    match s.cPhase
    case CGreeting =>
      if s.greeted || Holds(s.cBuf, GreetingSize(s.cBuf)) {
        var t := if s.greeted then s else TakeGreeting(s);
        if t.chosen.Some? {
          Rephase(t, ChosenPhase(t.chosen.value));
          ParseClientKeeps(t.(cPhase := ChosenPhase(t.chosen.value)));
        }
      }
    case CAuth =>
      if Holds(s.cBuf, AuthSize(s.cBuf)) {
        ParseClientKeeps(TakeAuth(s));
      }
    case CRequest =>
      if Holds(s.cBuf, RequestSize(s.cBuf)) {
        LeavingMoves(TakeRequest(s));
      }
      LeavingMoves(s);
    case CDone =>
  }

  lemma Rephase(s: State, p: ClientPhase)
    ensures Moves(s, s.(cPhase := p))
  {}

  lemma ParseServerKeeps(s: State)
    requires Coherent(s) && Watching(s)
    ensures Coherent(ParseServer(s)) && Moves(s, ParseServer(s))
  {
    hide TargetOf, ParseClient, MessageSize, ClientTotal, ServerTotal;
    match s.sPhase
    case SGreeting =>
      Settle(s);
      if |s.sBuf| >= 2 && s.sBuf[0] == 5 {
        TakeMethodKeeps(s);
      }
    case SAuth =>
      Settle(s);
      if |s.sBuf| >= 2 && s.sBuf[0] == 1 {
        TakeStatusKeeps(s);
      }
    case SRequest =>
      Settle(s);
      if Holds(s.sBuf, MessageSize(s.sBuf)) {
        TakeReplyKeeps(s);
      }
    case SDone =>
  }

  lemma Settle(s: State)
    ensures Moves(s, s.(sPhase := SDone))
  {}

  lemma TakeMethodKeeps(s: State)
    requires Coherent(s) && Watching(s) && s.sPhase == SGreeting && |s.sBuf| >= 2
    ensures Coherent(TakeMethod(s)) && Moves(s, TakeMethod(s))
  {
    hide ParseClient;
    ForwardMoves(s, 2);
    var m := s.sBuf[1];
    var t := TakeChoice(s);
    if m == METHOD_NONE || m == METHOD_USER_PASS {
      ParseClientKeeps(t.(sPhase := if m == METHOD_USER_PASS then SAuth else SRequest, cPhase := ChosenPhase(m)));
    }
  }

  lemma TakeStatusKeeps(s: State)
    requires Coherent(s) && Watching(s) && s.sPhase == SAuth && |s.sBuf| >= 2
    ensures Coherent(TakeStatus(s)) && Moves(s, TakeStatus(s))
  {
    hide ParseClient;
    ForwardMoves(s, 2);
    if s.sBuf[1] == 0 {
      ParseClientKeeps(Answer(s, 2).(sPhase := SRequest));
    }
  }

  lemma TakeReplyKeeps(s: State)
    requires Coherent(s) && Watching(s) && s.sPhase == SRequest && Holds(s.sBuf, MessageSize(s.sBuf))
    ensures Coherent(TakeReply(s)) && Moves(s, TakeReply(s))
  {
    hide MessageSize;
    var n := MessageSize(s.sBuf).n;
    ForwardMoves(s, n);
    var t := Answer(s, n).(sPhase := SDone, past := s.past.(reply := s.sBuf[..n], granted := s.sBuf[1] == 0));
    LeavingMoves(t);
  }

  lemma ClientDataKeeps(s: State, data: seq<Byte>)
    requires Coherent(s)
    ensures Coherent(OnClientData(s, data))
    ensures ClientTotal(OnClientData(s, data)) == ClientTotal(s) + data
    ensures ServerTotal(OnClientData(s, data)) == ServerTotal(s)
  {
    hide ParseClient;
    if Watching(s) {
      var t := s.(cBuf := s.cBuf + data);
      assert ClientTotal(t) == ClientTotal(s) + data;
      hide ClientTotal, ServerTotal;
      if |t.cBuf| > MAX_HANDSHAKE_BUF { LeavingMoves(t); } else { ParseClientKeeps(t); }
    }
  }

  lemma ServerDataKeeps(s: State, data: seq<Byte>)
    requires Coherent(s)
    ensures Coherent(OnServerData(s, data))
    ensures ServerTotal(OnServerData(s, data)) == ServerTotal(s) + data
    ensures ClientTotal(OnServerData(s, data)) == ClientTotal(s)
  {
    hide ParseServer;
    if Watching(s) {
      var t := s.(sBuf := s.sBuf + data);
      assert ServerTotal(t) == ServerTotal(s) + data;
      hide ClientTotal, ServerTotal;
      if |t.sBuf| > MAX_HANDSHAKE_BUF { LeavingMoves(t); } else { ParseServerKeeps(t); }
    }
  }

  lemma HandleKeeps(s: State, e: Event)
    requires Coherent(s)
    ensures Coherent(Handle(s, e))
    ensures ClientTotal(Handle(s, e)) == ClientTotal(s) + if e.FromClient? then e.data else []
    ensures ServerTotal(Handle(s, e)) == ServerTotal(s) + if e.FromServer? then e.data else []
  {
    hide OnClientData, OnServerData;
    match e
    case FromClient(data) => ClientDataKeeps(s, data);
    case FromServer(data) => ServerDataKeeps(s, data);
  }

  /** In every run the parts hang together, and both sides' bytes are conserved, in order. */
  lemma {:induction false} RunKeeps(es: seq<Event>)
    ensures Coherent(Run(es))
    ensures ClientTotal(Run(es)) == ClientBytes(es) && ServerTotal(Run(es)) == ServerBytes(es)
  {
    hide Handle;
    if es != [] {
      RunKeeps(es[..|es| - 1]);
      HandleKeeps(Run(es[..|es| - 1]), es[|es| - 1]);
    }
  }

  /**
    Byte conservation, spelled out. Before the hand-off what was relayed and what is still
    buffered make up what was received; after it, what was relayed and what the child was
    given. No buffer exceeds the cap, and a layer that gave up buffers nothing.
   */
  lemma BytesConserved(es: seq<Event>)
    ensures var s, c, p := Run(es), ClientBytes(es), ServerBytes(es);
      && (s.child.None? ==> s.wire.toServer + s.cBuf == c && s.wire.toClient + s.sBuf == p)
      && (s.child.None? ==> s.wire.childClient == [] && s.wire.childServer == [])
      && (s.child.Some? ==> s.wire.toServer + s.wire.childClient == c && s.wire.toClient + s.wire.childServer == p)
      && |s.cBuf| <= 0x1_0000 && |s.sBuf| <= 0x1_0000
      && (s.passthrough ==> s.wire.toServer == c && s.wire.toClient == p && s.child.None?)
  {
    RunKeeps(es);
    hide Run, ClientBytes, ServerBytes;
    var s := Run(es);
    assert s.cBuf == [] ==> s.wire.toServer + s.cBuf == s.wire.toServer;
  }

  /** Once the layer has given up, or handed over, it never does otherwise. */
  lemma {:induction false} Absorbing(es: seq<Event>, more: seq<Event>)
    ensures Run(es).passthrough ==> Run(es + more).passthrough && Run(es + more).child.None?
    ensures Run(es).child.Some? ==> Run(es + more).child == Run(es).child
    decreases |more|
  {
    hide ParseClient, ParseServer;
    if more == [] {
      assert es + more == es;
      RunKeeps(es);
    } else {
      var front := more[..|more| - 1];
      assert (es + more)[..|es + more| - 1] == es + front;
      Absorbing(es, front);
      RunKeeps(es + front);
    }
  }

  // ---- what the wire carries ----

  predicate CredentialsSent(s: State) {
    && s.chosen.Some?
    && if s.chosen.value != METHOD_USER_PASS then s.past.creds == [] && s.username == [] && s.password == []
       else
         && AuthSize(s.past.creds) == Exactly(|s.past.creds|)
         && s.username == s.past.creds[2..2 + s.past.creds[1] as nat]
         && s.password == s.past.creds[3 + s.past.creds[1] as nat..]
  }

  /**
    What was relayed upstream so far begins with the client's messages up to its phase, each
    one whole, and is no more than that unless the layer gave up. There is no greeting among
    them exactly while none was relayed.
   */
  predicate ClientShape(s: State) {
    var past := s.past;
    var sent := past.hello + past.creds + past.connect;
    && (if s.passthrough then sent <= s.wire.toServer else sent == s.wire.toServer)
    && (if s.greeted then GreetingSize(past.hello) == Exactly(|past.hello|) else past.hello == [])
    && (past.creds != [] ==> AuthSize(past.creds) == Exactly(|past.creds|))
    && (past.connect != [] ==> CredentialsSent(s))
    && (s.cPhase == CGreeting || s.cPhase == CAuth ==> past.creds == [] && s.username == [] && s.password == [])
    && (s.cPhase == CAuth ==> s.chosen == Some(METHOD_USER_PASS))
    && (s.cPhase == CRequest ==> CredentialsSent(s))
    && (if s.target.Some?
        then RequestSize(past.connect) == Exactly(|past.connect|) && s.target == Some(TargetOf(past.connect))
        else past.connect == [])
  }

  /** The proxy's messages before its reply to the request. */
  function Agreed(m: Byte): seq<Byte> {
    [5, m] + if m == 2 then [1, 0] else []
  }

  predicate Known(m: Byte) {
    m == 0 || m == 2
  }

  /** These bytes are the proxy's messages up to a whole reply, with REP = 0 or not. */
  ghost predicate Replied(relayed: seq<Byte>, granted: bool) {
    exists m, reply | Known(m) && IsReply(reply, granted) :: relayed == Agreed(m) + reply
  }

  predicate IsReply(reply: seq<Byte>, granted: bool) {
    MessageSize(reply) == Exactly(|reply|) && (reply[1] == 0 <==> granted)
  }

  /**
    How a proxy that grants nothing can leave the relay: after what was relayed, the next
    bytes are no choice of method, the choice was of one that is not known, they are no
    verdict, the verdict was a refusal, they are no reply, or the reply was a refusal.
   */
  ghost predicate Refusal(relayed: seq<Byte>, rest: seq<Byte>) {
    || (relayed == [] && |rest| >= 2 && rest[0] != 5)
    || (|relayed| == 2 && relayed[0] == 5 && !Known(relayed[1]))
    || (relayed == [5, METHOD_USER_PASS] && |rest| >= 2 && rest[0] != 1)
    || (|relayed| == 4 && relayed[..3] == [5, METHOD_USER_PASS, 1] && relayed[3] != 0)
    || ((exists m | Known(m) :: relayed == Agreed(m)) && MessageSize(rest).Foreign?)
    || Replied(relayed, false)
  }

  /** What the proxy sent that was not relayed to the client. */
  function Rest(s: State): seq<Byte> {
    s.wire.childServer + s.sBuf
  }

  /** What was relayed to the client is the proxy's messages up to its phase, and no more unless the layer gave up. */
  ghost predicate ServerShape(s: State) {
    && (!s.passthrough && s.sPhase == SGreeting ==> s.wire.toClient == [])
    && (!s.passthrough && s.sPhase == SAuth ==>
          s.chosen == Some(METHOD_USER_PASS) && s.wire.toClient == [5, METHOD_USER_PASS])
    && (!s.passthrough && s.sPhase == SRequest ==>
          s.chosen.Some? && Known(s.chosen.value) && s.wire.toClient == Agreed(s.chosen.value))
    && (!s.passthrough && s.sPhase == SDone && !s.past.granted ==> Refusal(s.wire.toClient, Rest(s)))
    && (s.past.granted ==> Granted(s))
  }

  /** A grant was relayed, after the messages before it. */
  predicate Granted(s: State) {
    && s.chosen.Some? && Known(s.chosen.value) && IsReply(s.past.reply, true)
    && var sent := Agreed(s.chosen.value) + s.past.reply;
    if s.passthrough then sent <= s.wire.toClient else sent == s.wire.toClient
  }

  lemma PrefixSizes(buf: seq<Byte>)
    ensures Holds(buf, GreetingSize(buf)) ==> var m := buf[..GreetingSize(buf).n]; GreetingSize(m) == Exactly(|m|)
    ensures Holds(buf, AuthSize(buf)) ==> var m := buf[..AuthSize(buf).n]; AuthSize(m) == Exactly(|m|) && m[1] == buf[1]
    ensures Holds(buf, RequestSize(buf)) ==> var m := buf[..RequestSize(buf).n]; RequestSize(m) == Exactly(|m|)
  {}

  lemma TakeGreetingShape(s: State)
    requires Coherent(s) && Watching(s) && ClientShape(s) && s.cPhase == CGreeting && !s.greeted
    requires Holds(s.cBuf, GreetingSize(s.cBuf))
    ensures ClientShape(TakeGreeting(s)) && Coherent(TakeGreeting(s))
  {
    hide AuthSize, RequestSize, TargetOf;
    PrefixSizes(s.cBuf);
    var n := GreetingSize(s.cBuf).n;
    assert [] + [] + [] + s.cBuf[..n] == s.cBuf[..n] + [] + [];
  }

  lemma TakeAuthShape(s: State)
    requires Coherent(s) && Watching(s) && ClientShape(s) && s.cPhase == CAuth && Holds(s.cBuf, AuthSize(s.cBuf))
    ensures ClientShape(TakeAuth(s)) && Coherent(TakeAuth(s))
  {
    hide GreetingSize;
    PrefixSizes(s.cBuf);
    var n, u := AuthSize(s.cBuf).n, s.cBuf[1] as nat;
    assert s.cBuf[..n][2..2 + u] == s.cBuf[2..2 + u] && s.cBuf[..n][3 + u..] == s.cBuf[3 + u..n];
    assert s.past.hello + s.cBuf[..n] + [] == s.past.hello + [] + [] + s.cBuf[..n];
  }

  lemma TakeRequestShape(s: State)
    requires Coherent(s) && Watching(s) && ClientShape(s) && s.cPhase == CRequest && Holds(s.cBuf, RequestSize(s.cBuf))
    ensures ClientShape(TakeRequest(s))
    ensures ClientShape(Establish(TakeRequest(s)))
  {
    hide GreetingSize, AuthSize, TargetOf;
    PrefixSizes(s.cBuf);
    var n := RequestSize(s.cBuf).n;
    assert s.past.hello + s.past.creds + [] + s.cBuf[..n] == s.past.hello + s.past.creds + s.cBuf[..n];
  }

  lemma {:induction false} ParseClientShape(s: State)
    requires Coherent(s) && Watching(s) && ClientShape(s)
    ensures ClientShape(ParseClient(s))
    decreases Rank(s.cPhase)
  {
    hide TargetOf, GreetingSize, AuthSize, RequestSize, CredentialsSent;
    match s.cPhase
    case CGreeting =>
      if s.greeted || Holds(s.cBuf, GreetingSize(s.cBuf)) {
        if !s.greeted { TakeGreetingShape(s); }
        var t := if s.greeted then s else TakeGreeting(s);
        if t.chosen.Some? {
          ChosenShape(t, t.chosen.value);
          ParseClientShape(t.(cPhase := ChosenPhase(t.chosen.value)));
        }
      }
    case CAuth =>
      if Holds(s.cBuf, AuthSize(s.cBuf)) {
        TakeAuthShape(s);
        ParseClientShape(TakeAuth(s));
      }
    case CRequest =>
      if Holds(s.cBuf, RequestSize(s.cBuf)) {
        TakeRequestShape(s);
      }
    case CDone =>
  }

  lemma ChosenShape(s: State, m: Byte)
    requires Coherent(s) && Watching(s) && ClientShape(s) && s.cPhase == CGreeting && s.greeted && s.chosen == Some(m)
    ensures var t := s.(cPhase := ChosenPhase(m)); Coherent(t) && ClientShape(t)
  {
    hide TargetOf, GreetingSize, AuthSize, RequestSize;
  }

  /** The client's parser does not touch what the proxy said, and relays it only to give up. */
  lemma {:induction false} ParseClientAside(s: State)
    ensures var t := ParseClient(s);
      && t.chosen == s.chosen && t.past.reply == s.past.reply && t.past.granted == s.past.granted
      && s.wire.toClient <= t.wire.toClient
      && (!t.passthrough ==> t.wire.toClient == s.wire.toClient && t.sPhase == s.sPhase && Rest(t) == Rest(s))
    decreases Rank(s.cPhase)
  {
    hide TargetOf, GreetingSize, AuthSize, RequestSize;
    match s.cPhase
    case CGreeting =>
      if s.greeted || Holds(s.cBuf, GreetingSize(s.cBuf)) {
        var t := if s.greeted then s else TakeGreeting(s);
        if t.chosen.Some? {
          ParseClientAside(t.(cPhase := ChosenPhase(t.chosen.value)));
        }
      }
    case CAuth =>
      if Holds(s.cBuf, AuthSize(s.cBuf)) {
        ParseClientAside(TakeAuth(s));
      }
    case CRequest =>
    case CDone =>
  }

  /** The shape of what went each way. */
  ghost predicate Shape(s: State) {
    ServerShape(s) && ClientShape(s)
  }

  /** Driving the client's parser keeps the shape. */
  lemma DriveShape(s: State)
    requires Coherent(s) && Watching(s) && Shape(s)
    ensures Shape(ParseClient(s))
  {
    hide ParseClient, ClientShape, Refusal, IsReply;
    ParseClientAside(s);
    ParseClientShape(s);
  }

  lemma GivingUpShape(s: State)
    requires Watching(s) && Shape(s)
    ensures Shape(RelayRaw(s))
  {
    hide Refusal, IsReply, GreetingSize, AuthSize, RequestSize, TargetOf;
  }

  lemma TakeMethodShape(s: State)
    requires Coherent(s) && Watching(s) && Shape(s) && s.sPhase == SGreeting && |s.sBuf| >= 2 && s.sBuf[0] == 5
    ensures Shape(TakeMethod(s))
  {
    hide ParseClient, GreetingSize, AuthSize, RequestSize, MessageSize, TargetOf, Replied;
    var m := s.sBuf[1];
    var t := TakeChoice(s);
    assert [] + s.sBuf[..2] == [5, m] && [5, m] + [] == [5, m];
    if Known(m) {
      var u := t.(sPhase := if m == METHOD_USER_PASS then SAuth else SRequest, cPhase := ChosenPhase(m));
      TakeMethodKeeps(s);
      DriveShape(u);
    }
  }

  lemma TakeStatusShape(s: State)
    requires Coherent(s) && Watching(s) && Shape(s) && s.sPhase == SAuth && |s.sBuf| >= 2 && s.sBuf[0] == 1
    ensures Shape(TakeStatus(s))
  {
    hide ParseClient, GreetingSize, AuthSize, RequestSize, MessageSize, TargetOf, Replied;
    assert s.sBuf[..2] == [1, s.sBuf[1]];
    if s.sBuf[1] == 0 {
      DriveShape(Answer(s, 2).(sPhase := SRequest));
    } else {
      assert s.wire.toClient + s.sBuf[..2] == [5, METHOD_USER_PASS, 1, s.sBuf[1]];
    }
  }

  lemma TakeReplyShape(s: State)
    requires Coherent(s) && Watching(s) && Shape(s) && s.sPhase == SRequest && Holds(s.sBuf, MessageSize(s.sBuf))
    ensures Shape(TakeReply(s))
  {
    hide GreetingSize, AuthSize, RequestSize, TargetOf, Refusal, IsReply;
    TakeReplyServerShape(s);
  }

  lemma TakeReplyServerShape(s: State)
    requires Coherent(s) && Watching(s) && ServerShape(s) && s.sPhase == SRequest && Holds(s.sBuf, MessageSize(s.sBuf))
    ensures ServerShape(TakeReply(s))
  {
    var n := MessageSize(s.sBuf).n;
    SizesOfMessage(s.sBuf, n);
    var m, reply := s.chosen.value, s.sBuf[..n];
    assert IsReply(reply, s.sBuf[1] == 0);
    hide MessageSize, IsReply;
    if s.sBuf[1] != 0 {
      assert Replied(Agreed(m) + reply, false);
    }
  }

  /** The proxy is done when its next bytes are not what was due. */
  lemma SettleShape(s: State)
    requires Coherent(s) && Watching(s) && Shape(s)
    requires !s.past.granted ==> Refusal(s.wire.toClient, s.sBuf)
    ensures Shape(s.(sPhase := SDone))
  {
    hide GreetingSize, AuthSize, RequestSize, MessageSize, TargetOf, Refusal, IsReply;
    assert Rest(s) == s.sBuf;
  }

  lemma ParseServerShape(s: State)
    requires Coherent(s) && Watching(s) && Shape(s)
    ensures Shape(ParseServer(s))
  {
    hide ParseClient, MessageSize, TakeMethod, TakeStatus, TakeReply, ClientShape, Replied, Granted;
    match s.sPhase
    case SGreeting =>
      if |s.sBuf| >= 2 { if s.sBuf[0] == 5 { TakeMethodShape(s); } else { SettleShape(s); } }
    case SAuth =>
      if |s.sBuf| >= 2 { if s.sBuf[0] == 1 { TakeStatusShape(s); } else { SettleShape(s); } }
    case SRequest =>
      if MessageSize(s.sBuf).Foreign? { SettleShape(s); }
      else if Holds(s.sBuf, MessageSize(s.sBuf)) { TakeReplyShape(s); }
    case SDone =>
  }

  lemma RefusalStays(relayed: seq<Byte>, rest: seq<Byte>, more: seq<Byte>)
    requires Refusal(relayed, rest)
    ensures Refusal(relayed, rest + more)
  {
    hide Replied;
    SizesStable(rest, more);
  }

  /** More bytes that nothing reads yet keep the shape. */
  lemma BufferedShape(s: State, data: seq<Byte>)
    requires Shape(s) && !s.passthrough
    ensures Shape(s.(cBuf := s.cBuf + data)) && Shape(s.(sBuf := s.sBuf + data))
  {
    hide ServerShape, GreetingSize, AuthSize, RequestSize, TargetOf;
    BufferedServerShape(s, data);
  }

  lemma BufferedServerShape(s: State, data: seq<Byte>)
    requires ServerShape(s) && !s.passthrough
    ensures ServerShape(s.(cBuf := s.cBuf + data)) && ServerShape(s.(sBuf := s.sBuf + data))
  {
    hide Refusal, IsReply, MessageSize, Agreed;
    assert s.wire.childServer + (s.sBuf + data) == Rest(s) + data;
    if Refusal(s.wire.toClient, Rest(s)) { RefusalStays(s.wire.toClient, Rest(s), data); }
  }

  /** So do bytes that are passed on. */
  lemma PassedOnShape(s: State, e: Event)
    requires Coherent(s) && Shape(s) && !Watching(s)
    ensures Shape(Handle(s, e))
  {
    hide ParseClient, ParseServer, Refusal, IsReply, GreetingSize, AuthSize, RequestSize, TargetOf;
    if e.FromServer? && s.child.Some? {
      ChildServedShape(s, e.data);
    }
  }

  lemma ChildServedShape(s: State, data: seq<Byte>)
    requires Shape(s) && s.sBuf == [] && !s.passthrough
    ensures Shape(s.(wire := s.wire.(childServer := s.wire.childServer + data)))
  {
    hide Refusal, IsReply, GreetingSize, AuthSize, RequestSize, TargetOf;
    assert (s.wire.childServer + data) + [] == Rest(s) + data;
    if Refusal(s.wire.toClient, Rest(s)) { RefusalStays(s.wire.toClient, Rest(s), data); }
  }

  lemma HandleShape(s: State, e: Event)
    requires Coherent(s) && Shape(s)
    ensures Shape(Handle(s, e))
  {
    hide ParseClient, ParseServer, Shape;
    if !Watching(s) {
      PassedOnShape(s, e);
    } else {
      BufferedShape(s, e.data);
      var t := if e.FromClient? then s.(cBuf := s.cBuf + e.data) else s.(sBuf := s.sBuf + e.data);
      if |t.cBuf| > MAX_HANDSHAKE_BUF || |t.sBuf| > MAX_HANDSHAKE_BUF {
        GivingUpShape(t);
      } else if e.FromClient? {
        DriveShape(t);
      } else {
        ParseServerShape(t);
      }
    }
  }

  lemma {:induction false} RunShape(es: seq<Event>)
    ensures Shape(Run(es))
  {
    hide Handle, GreetingSize, AuthSize, RequestSize, MessageSize, TargetOf;
    if es != [] {
      RunShape(es[..|es| - 1]);
      RunKeeps(es[..|es| - 1]);
      HandleShape(Run(es[..|es| - 1]), es[|es| - 1]);
    }
  }

  /**
    A whole handshake as relayed upstream: one greeting, then the RFC 1929 message if that
    method was chosen, then one CONNECT request, with the child's target and credentials.
   */
  predicate IsHandshake(s: State, ver: Byte, methods: seq<Byte>, authVer: Byte, reserved: Byte)
    requires s.child.Some? && |methods| < 256
  {
    var t := s.child.value;
    && s.chosen.Some? && |t.username| < 256 && |t.password| < 256 && TargetOk(t.target)
    && s.wire.toServer ==
         EncodeGreeting(ver, methods)
         + (if s.chosen.value == METHOD_USER_PASS then EncodeAuth(authVer, t.username, t.password) else [])
         + EncodeMessage(1, reserved, t.target)
  }

  /** What the child was set up with is what the relayed messages say. */
  lemma MessagesEncoded(s: State) returns (authVer: Byte, reserved: Byte)
    requires Coherent(s) && ClientShape(s) && s.child.Some?
    ensures var t := s.child.value;
      && s.chosen.Some? && |t.username| < 256 && |t.password| < 256 && TargetOk(t.target)
      && s.past.creds ==
         (if s.chosen.value == METHOD_USER_PASS then EncodeAuth(authVer, t.username, t.password) else [])
      && s.past.connect == EncodeMessage(1, reserved, t.target)
  {
    var past := s.past;
    assert MessageSize(past.connect) == Exactly(|past.connect|) && past.connect[1] == 1;
    authVer, reserved := 0, past.connect[2];
    MessageIsEncoded(past.connect);
    if s.chosen.value == METHOD_USER_PASS {
      authVer := past.creds[0];
      AuthIsEncoded(past.creds);
    }
  }

  /**
    Once the child exists and the greeting was relayed, what went upstream is exactly one
    handshake, and the child has been given exactly what the client sent after it.
   */
  lemma HandshakeOnTheWire(es: seq<Event>) returns (ver: Byte, methods: seq<Byte>, authVer: Byte, reserved: Byte)
    requires Run(es).child.Some? && Run(es).greeted
    ensures |methods| < 256 && IsHandshake(Run(es), ver, methods, authVer, reserved)
    ensures Run(es).wire.toServer + Run(es).wire.childClient == ClientBytes(es)
  {
    RunShape(es);
    RunKeeps(es);
    hide Run, ClientBytes, ServerBytes, ServerShape, EncodeAuth, EncodeMessage;
    var s := Run(es);
    authVer, reserved := MessagesEncoded(s);
    ver, methods := s.past.hello[0], s.past.hello[2..];
    GreetingIsEncoded(s.past.hello);
    assert ClientTotal(s) == s.wire.toServer + s.wire.childClient;
  }

  /** The child has a whole handshake before it if and only if the greeting was relayed. */
  lemma HandshakeExactly(es: seq<Event>)
    requires Run(es).child.Some?
    ensures (exists ver, methods, authVer, reserved | |methods| < 256 ::
               IsHandshake(Run(es), ver, methods, authVer, reserved)) <==> Run(es).greeted
  {
    var s := Run(es);
    if s.greeted {
      var ver, methods, authVer, reserved := HandshakeOnTheWire(es);
    } else {
      RunShape(es);
      RunKeeps(es);
      hide Run;
      forall ver, methods, authVer, reserved | |methods| < 256
        ensures !IsHandshake(s, ver, methods, authVer, reserved)
      {
        NoGreetingNoHandshake(s, ver, methods, authVer, reserved);
      }
    }
  }

  /** Without the greeting, what was relayed is too short to be a handshake with the same target and credentials. */
  lemma NoGreetingNoHandshake(s: State, ver: Byte, methods: seq<Byte>, authVer: Byte, reserved: Byte)
    requires Coherent(s) && ClientShape(s) && s.child.Some? && !s.greeted && |methods| < 256
    ensures !IsHandshake(s, ver, methods, authVer, reserved)
  {
    var a, r := MessagesEncoded(s);
    var t := s.child.value;
    hide ClientShape, Coherent;
    assert |EncodeMessage(1, r, t.target)| == |EncodeMessage(1, reserved, t.target)|;
    assert |s.wire.toServer| == |s.past.creds| + |s.past.connect| by { NothingBeforeCredentials(s); }
    assert |EncodeAuth(a, t.username, t.password)| == |EncodeAuth(authVer, t.username, t.password)|;
  }

  lemma NothingBeforeCredentials(s: State)
    requires Coherent(s) && ClientShape(s) && s.child.Some? && !s.greeted
    ensures s.wire.toServer == s.past.creds + s.past.connect
  {
    assert [] + s.past.creds == s.past.creds;
  }

  /** A grant is a reply with REP = 0, relayed after the earlier messages; if the layer gives up, more may follow. */
  lemma GrantOnTheWire(es: seq<Event>) returns (more: seq<Byte>)
    requires Run(es).past.granted
    ensures var s := Run(es); var reply := s.past.reply;
      && s.chosen.Some? && s.wire.toClient == Agreed(s.chosen.value) + reply + more
      && MessageSize(reply) == Exactly(|reply|) && reply == EncodeMessage(0, reply[2], TargetOf(reply))
      && (!s.passthrough ==> more == [])
  {
    RunShape(es);
    var s := Run(es);
    MessageIsEncoded(s.past.reply);
    hide Run, MessageSize, TargetOf, EncodeMessage;
    more := s.wire.toClient[|Agreed(s.chosen.value) + s.past.reply|..];
  }

  // ---- when the child exists ----

  lemma AgreedLength(m: Byte)
    requires Known(m)
    ensures |Agreed(m)| == (if m == METHOD_USER_PASS then 4 else 2) && Agreed(m)[1] == m
  {}

  /** The proxy's messages end in at most one way. */
  lemma ReplyIsOne(m: Byte, a: seq<Byte>, g: bool, n: Byte, b: seq<Byte>, h: bool)
    requires Known(m) && Known(n) && IsReply(a, g) && IsReply(b, h) && Agreed(m) + a == Agreed(n) + b
    ensures g == h
  {
    assert (Agreed(m) + a)[1] == m && (Agreed(n) + b)[1] == n;
    assert (Agreed(m) + a)[|Agreed(m)|..] == a && (Agreed(n) + b)[|Agreed(n)|..] == b;
  }

  /** What grants cannot be read as a refusal too. */
  lemma GrantIsNoRefusal(relayed: seq<Byte>, rest: seq<Byte>)
    requires Replied(relayed, true)
    ensures !Refusal(relayed, rest)
  {
    var m, a :| Known(m) && IsReply(a, true) && relayed == Agreed(m) + a;
    AgreedLength(m);
    assert relayed[1] == m;
    forall n, b | Known(n) && IsReply(b, false) ensures relayed != Agreed(n) + b {
      if relayed == Agreed(n) + b { ReplyIsOne(m, a, true, n, b, false); }
    }
  }

  /** While it has not given up, the layer knows of a grant exactly when a granting reply was relayed. */
  lemma GrantIsOnTheWire(s: State)
    requires Coherent(s) && ServerShape(s) && !s.passthrough
    ensures s.past.granted <==> Replied(s.wire.toClient, true)
    ensures s.sPhase == SDone && !s.past.granted <==> s.sPhase == SDone && Refusal(s.wire.toClient, Rest(s))
  {
    hide Refusal, MessageSize;
    if s.past.granted {
      assert Replied(s.wire.toClient, true);
      GrantIsNoRefusal(s.wire.toClient, Rest(s));
    } else if Replied(s.wire.toClient, true) {
      var m, a :| Known(m) && IsReply(a, true) && s.wire.toClient == Agreed(m) + a;
      AgreedLength(m);
      GrantIsNoRefusal(s.wire.toClient, Rest(s));
    }
  }

  /** The proxy is done, granted nothing, and no CONNECT request was taken yet. */
  ghost predicate Refused(s: State) {
    !s.passthrough && s.sPhase == SDone && !Replied(s.wire.toClient, true) && s.target.None?
  }

  /** Now or at an earlier moment of the run the proxy had refused, before any CONNECT request was taken. */
  ghost predicate RefusedFirst(es: seq<Event>)
    decreases |es|
  {
    Refused(Run(es)) || (es != [] && RefusedFirst(es[..|es| - 1]))
  }

  /** Driving the client's parser makes a child exactly when it takes a request and the proxy is done. */
  lemma {:induction false} ParseClientEstablishes(s: State)
    requires Coherent(s) && Watching(s)
    ensures var t := ParseClient(s);
      && (s.target.Some? ==> t == s)
      && (s.target.None? ==> (t.child.Some? <==> t.target.Some? && s.sPhase == SDone))
    decreases Rank(s.cPhase)
  {
    hide TargetOf, GreetingSize, AuthSize, RequestSize;
    match s.cPhase
    case CGreeting =>
      if s.greeted || Holds(s.cBuf, GreetingSize(s.cBuf)) {
        var t := if s.greeted then s else TakeGreeting(s);
        if t.chosen.Some? {
          ParseClientEstablishes(t.(cPhase := ChosenPhase(t.chosen.value)));
        }
      }
    case CAuth =>
      if Holds(s.cBuf, AuthSize(s.cBuf)) {
        ParseClientEstablishes(TakeAuth(s));
      }
    case CRequest =>
    case CDone =>
  }

  /** One event: a child appears by a grant, or by a request taken after a refusal. */
  lemma HandleEstablishes(s: State, e: Event)
    requires Coherent(s) && ServerShape(s) && s.child.None?
    ensures var t := Handle(s, e);
      && (Refused(s) ==> t.past.granted == s.past.granted && (t.child.Some? <==> t.target.Some?))
      && (Refused(s) && t.child.None? && !t.passthrough ==> t.sPhase == SDone)
      && (t.child.Some? && !t.past.granted ==> Refused(s))
      && (s.passthrough ==> t.target == s.target && t.passthrough)
  {
    if !s.passthrough { GrantIsOnTheWire(s); }
    hide ParseClient, ParseServer, Replied, Refusal, ServerShape;
    if Watching(s) {
      match e {
        case FromClient(data) =>
          var t := s.(cBuf := s.cBuf + data);
          if |t.cBuf| <= MAX_HANDSHAKE_BUF {
            ParseClientEstablishes(t);
            ParseClientAside(t);
          }
        case FromServer(data) =>
          var t := s.(sBuf := s.sBuf + data);
          if |t.sBuf| <= MAX_HANDSHAKE_BUF {
            ParseServerEstablishes(t);
          }
      }
    }
  }

  lemma ParseServerEstablishes(s: State)
    requires Coherent(s) && Watching(s)
    ensures var t := ParseServer(s);
      && (s.sPhase == SDone ==> t == s)
      && (t.child.Some? ==> t.past.granted)
  {
    hide ParseClient, MessageSize;
    match s.sPhase
    case SGreeting =>
      if |s.sBuf| >= 2 && s.sBuf[0] == 5 {
        var m := s.sBuf[1];
        if Known(m) {
          ParseClientEstablishes(TakeChoice(s).(sPhase := if m == METHOD_USER_PASS then SAuth else SRequest,
                                                cPhase := ChosenPhase(m)));
        }
      }
    case SAuth =>
      if |s.sBuf| >= 2 && s.sBuf[0] == 1 && s.sBuf[1] == 0 {
        ParseClientEstablishes(Answer(s, 2).(sPhase := SRequest));
      }
    case SRequest =>
    case SDone =>
  }

  /** Over a run: a refusal first leads to a child when the request comes, and nothing else but a grant does. */
  lemma {:induction false} RefusedThenEstablished(es: seq<Event>)
    ensures var s := Run(es);
      && (RefusedFirst(es) ==> if s.child.Some? then !s.past.granted else s.passthrough || Refused(s))
      && (RefusedFirst(es) && s.child.None? ==> s.target.None?)
      && (s.child.Some? && !s.past.granted ==> RefusedFirst(es))
    decreases |es|
  {
    hide Handle, Refused, Coherent, ServerShape;
    if es == [] {
      assert !Refused(INITIAL) by { NotRefusedYet(); }
    } else {
      var front, e := es[..|es| - 1], es[|es| - 1];
      var s, t := Run(front), Run(es);
      RefusedThenEstablished(front);
      RunKeeps(front);
      RunKeeps(es);
      RunShape(front);
      RunShape(es);
      RefusedStep(s, e);
    }
  }

  lemma NotRefusedYet()
    ensures !Refused(INITIAL)
  {}

  lemma RefusedStep(s: State, e: Event)
    requires Coherent(s) && ServerShape(s) && Coherent(Handle(s, e)) && ServerShape(Handle(s, e))
    ensures var t := Handle(s, e);
      && (s.child.Some? ==> t.child == s.child && t.past.granted == s.past.granted && !Refused(t))
      && (Refused(s) ==> if t.child.Some? then !t.past.granted else t.target.None? && (t.passthrough || Refused(t)))
      && (s.passthrough ==> t.passthrough && t.target == s.target && t.child.None?)
      && (s.child.None? && t.child.Some? && !t.past.granted ==> Refused(s))
      && (Refused(t) ==> t.target.None? && t.child.None?)
      && (Refused(s) ==> s.target.None?)
  {
    var t := Handle(s, e);
    if s.child.None? { HandleEstablishes(s, e); }
    if !s.passthrough { GrantIsOnTheWire(s); }
    if !t.passthrough { GrantIsOnTheWire(t); }
    hide ParseClient, ParseServer, Replied, Refusal, ServerShape;
  }

  /**
    When the child exists: exactly when a CONNECT request was taken and the proxy's reply
    granted it, or had refused before the request was taken. Never more than one. So "a
    target was parsed and the reply had REP = 0" is the right condition if and only if no
    request followed a refusal; and with a child, the bytes tell which of the two it was.
   */
  lemma ChildExactlyWhen(es: seq<Event>)
    ensures var s := Run(es);
      && (s.child.Some? <==> !s.passthrough && s.target.Some? && (Replied(s.wire.toClient, true) || RefusedFirst(es)))
      && (!s.passthrough ==>
            ((s.child.Some? <==> s.target.Some? && Replied(s.wire.toClient, true))
             <==> !(s.target.Some? && RefusedFirst(es))))
      && (s.child.Some? ==> (RefusedFirst(es) <==> Refusal(s.wire.toClient, s.wire.childServer)))
      && s.past.children == (if s.child.Some? then 1 else 0)
  {
    RunKeeps(es);
    RunShape(es);
    RefusedThenEstablished(es);
    var s := Run(es);
    hide Run, RefusedFirst, Replied, Refusal, ServerShape, ClientShape;
    if !s.passthrough { GrantIsOnTheWire(s); }
    if s.child.Some? { assert Rest(s) == s.wire.childServer; }
  }

  /** A proxy that is done without a grant has refused, in one of the six ways that its bytes show. */
  lemma RefusalOnTheWire(es: seq<Event>)
    ensures Refused(Run(es)) ==> Refusal(Run(es).wire.toClient, Run(es).sBuf)
  {
    RunKeeps(es);
    RunShape(es);
    var s := Run(es);
    hide Run, Refusal, ClientShape;
    if Refused(s) {
      GrantIsOnTheWire(s);
      assert Rest(s) == s.sBuf;
    }
  }

  // ---- when the proxy speaks too early ----

  /** The layer went on to credentials or a request without relaying a greeting. */
  predicate Skipped(s: State) {
    !s.greeted && s.cPhase != CGreeting
  }

  /** This event brings the proxy's choice of a known method before the client's greeting is complete. */
  predicate ChoosesEarly(s: State, e: Event) {
    && Watching(s) && !s.greeted && s.sPhase == SGreeting && e.FromServer?
    && var b := s.sBuf + e.data; 2 <= |b| <= MAX_HANDSHAKE_BUF && b[0] == 5 && Known(b[1])
  }

  /** At some moment of the run it did. */
  predicate ChoseEarly(es: seq<Event>)
    decreases |es|
  {
    es != [] && (ChoseEarly(es[..|es| - 1]) || ChoosesEarly(Run(es[..|es| - 1]), es[|es| - 1]))
  }

  lemma {:induction false} ParseClientSkips(s: State)
    ensures !ParseClient(s).passthrough ==> (Skipped(ParseClient(s)) <==> Skipped(s))
    decreases Rank(s.cPhase)
  {
    hide TargetOf, GreetingSize, AuthSize, RequestSize;
    match s.cPhase
    case CGreeting =>
      if s.greeted || Holds(s.cBuf, GreetingSize(s.cBuf)) {
        var t := if s.greeted then s else TakeGreeting(s);
        if t.chosen.Some? {
          ParseClientSkips(t.(cPhase := ChosenPhase(t.chosen.value)));
        }
      }
    case CAuth =>
      if Holds(s.cBuf, AuthSize(s.cBuf)) {
        ParseClientSkips(TakeAuth(s));
      }
    case CRequest =>
    case CDone =>
  }

  lemma HandleSkips(s: State, e: Event)
    requires Coherent(s)
    ensures var t := Handle(s, e);
      !t.passthrough ==> !s.passthrough && (Skipped(t) <==> Skipped(s) || ChoosesEarly(s, e))
  {
    hide ParseClient, MessageSize;
    if Watching(s) {
      match e {
        case FromClient(data) => ParseClientSkips(s.(cBuf := s.cBuf + data));
        case FromServer(data) =>
          var t := s.(sBuf := s.sBuf + data);
          if |t.sBuf| <= MAX_HANDSHAKE_BUF {
            ParseServerSkips(t);
          }
      }
    }
  }

  lemma ParseServerSkips(s: State)
    requires Coherent(s) && Watching(s)
    ensures var t := ParseServer(s);
      !t.passthrough ==>
        (Skipped(t) <==>
         Skipped(s) || (!s.greeted && s.sPhase == SGreeting && |s.sBuf| >= 2 && s.sBuf[0] == 5 && Known(s.sBuf[1])))
  {
    hide ParseClient, MessageSize;
    match s.sPhase
    case SGreeting =>
      if |s.sBuf| >= 2 && s.sBuf[0] == 5 {
        var m := s.sBuf[1];
        if Known(m) {
          ParseClientSkips(TakeChoice(s).(sPhase := if m == METHOD_USER_PASS then SAuth else SRequest,
                                          cPhase := ChosenPhase(m)));
        }
      }
    case SAuth =>
      if |s.sBuf| >= 2 && s.sBuf[0] == 1 && s.sBuf[1] == 0 {
        ParseClientSkips(Answer(s, 2).(sPhase := SRequest));
      }
    case SRequest =>
    case SDone =>
  }

  lemma {:induction false} SkippedExactly(es: seq<Event>)
    ensures !Run(es).passthrough ==> (Skipped(Run(es)) <==> ChoseEarly(es))
    decreases |es|
  {
    hide Handle, Coherent, Skipped, ChoosesEarly;
    if es == [] {
      assert !Skipped(INITIAL) by { NotSkippedYet(); }
    } else {
      var front := es[..|es| - 1];
      SkippedExactly(front);
      RunKeeps(front);
      HandleSkips(Run(front), es[|es| - 1]);
    }
  }

  lemma NotSkippedYet()
    ensures !Skipped(INITIAL)
  {}

  /** With a child, the greeting was relayed unless the proxy had chosen a known method before it was complete. */
  lemma GreetedExactly(es: seq<Event>)
    requires Run(es).child.Some?
    ensures Run(es).greeted <==> !ChoseEarly(es)
  {
    SkippedExactly(es);
    RunKeeps(es);
  }

  /** The greeting is relayed, or the layer has given up: from here on no choice comes too early. */
  predicate Underway(s: State) {
    s.greeted || s.passthrough
  }

  lemma {:induction false} ParseClientUnderway(s: State)
    requires Underway(s)
    ensures Underway(ParseClient(s))
    decreases Rank(s.cPhase)
  {
    hide TargetOf, GreetingSize, AuthSize, RequestSize;
    match s.cPhase
    case CGreeting =>
      var t := if s.greeted then s else if Holds(s.cBuf, GreetingSize(s.cBuf)) then TakeGreeting(s) else s;
      if t.chosen.Some? {
        ParseClientUnderway(t.(cPhase := ChosenPhase(t.chosen.value)));
      }
    case CAuth =>
      if Holds(s.cBuf, AuthSize(s.cBuf)) {
        ParseClientUnderway(TakeAuth(s));
      }
    case CRequest =>
    case CDone =>
  }

  lemma HandleUnderway(s: State, e: Event)
    requires Underway(s)
    ensures Underway(Handle(s, e))
  {
    hide TargetOf, ParseClient, GreetingSize, AuthSize, RequestSize, MessageSize;
    forall t: State | Underway(t) ensures Underway(ParseClient(t)) { ParseClientUnderway(t); }
  }

  /**
    The layer is put in place because the client's first bytes look like SOCKS5. Fed those
    first, it has relayed the greeting, or given up, ever after, and no choice comes too early.
   */
  lemma {:induction false} NeverEarly(data: seq<Byte>, es: seq<Event>)
    requires LooksLikeSocks5(data)
    ensures Underway(Run([FromClient(data)] + es)) && !ChoseEarly([FromClient(data)] + es)
    decreases |es|
  {
    hide ParseClient, ParseServer, Handle, Underway, ChoosesEarly;
    var all := [FromClient(data)] + es;
    if es == [] {
      assert all == [FromClient(data)] && all[..0] == [];
      FirstBytes(data);
      FirstIsTheClients(data);
    } else {
      var front := es[..|es| - 1];
      assert all[..|all| - 1] == [FromClient(data)] + front;
      NeverEarly(data, front);
      HandleUnderway(Run([FromClient(data)] + front), es[|es| - 1]);
      UnderwayIsNotEarly(Run([FromClient(data)] + front), es[|es| - 1]);
    }
  }

  lemma FirstIsTheClients(data: seq<Byte>)
    ensures !ChoosesEarly(Run([]), FromClient(data))
  {}

  lemma UnderwayIsNotEarly(s: State, e: Event)
    requires Underway(s)
    ensures !ChoosesEarly(s, e)
  {}

  /** First bytes that look like SOCKS5 are relayed up to the end of the greeting, no further. */
  lemma FirstBytes(data: seq<Byte>)
    requires LooksLikeSocks5(data)
    ensures var s := Run([FromClient(data)]);
      && Underway(s)
      && (|data| <= MAX_HANDSHAKE_BUF ==>
            s.greeted && s.wire.toServer == data[..2 + data[1] as nat] && s.cBuf == data[2 + data[1] as nat..])
  {
    var es := [FromClient(data)];
    assert Run(es[..0]) == INITIAL;
    assert [] + data == data;
    assert ParseClient(INITIAL.(cBuf := data)) == TakeGreeting(INITIAL.(cBuf := data));
  }

  // ---- runs that go the other way ----

  /** A client that goes on after the proxy refused every method gets a child. */
  lemma RefusedButEstablished()
    ensures exists es ::
              Run(es).child.Some? && RefusedFirst(es) && Run(es).wire.toClient == [5, METHOD_NO_ACCEPTABLE]
  {
    hide Handle, Run, RequestSize, TargetOf, GreetingSize, RefusedFirst;
    var greeting, refusal := FromClient([5, 1, 0]), FromServer([5, METHOD_NO_ACCEPTABLE]);
    var ask: seq<Byte> := [5, 1, 0, 1, 10, 0, 0, 1, 0, 80];
    RequestSizeOfAsk(ask);
    var a := Run([greeting]);
    GreetingAlone();
    RefusalAlone(a);
    AskAlone(Handle(a, refusal), ask);
    RunOfThree(greeting, refusal, FromClient(ask));
    var es := [greeting, refusal, FromClient(ask)];
    ChildExactlyWhen(es);
    assert !Replied([5, METHOD_NO_ACCEPTABLE], true) by { TooShortToReply(); }
  }

  lemma TooShortToReply()
    ensures !Replied([5, METHOD_NO_ACCEPTABLE], true)
  {}

  lemma RunOfThree(a: Event, b: Event, c: Event)
    ensures Run([a, b, c]) == Handle(Handle(Run([a]), b), c)
  {
    hide Handle;
    assert [a, b, c][..2] == [a, b] && [a, b][..1] == [a];
  }

  lemma RequestSizeOfAsk(ask: seq<Byte>)
    requires |ask| == 10 && ask[0] == 5 && ask[1] == 1 && ask[3] == 1
    ensures RequestSize(ask) == Exactly(10)
  {}

  lemma GreetingAlone()
    ensures Run([FromClient([5, 1, 0])]) ==
            INITIAL.(greeted := true, wire := Wire([5, 1, 0], [], [], []), past := INITIAL.past.(hello := [5, 1, 0]))
  {
    var data: seq<Byte> := [5, 1, 0];
    var es := [FromClient(data)];
    assert Run(es[..0]) == INITIAL;
    var t := INITIAL.(cBuf := [] + data);
    assert GreetingSize(data) == Exactly(3) && [] + data == data && data[..3] == data && data[3..] == [];
    assert ParseClient(t) == TakeGreeting(t);
  }

  lemma RefusalAlone(a: State)
    requires a ==
             INITIAL.(greeted := true, wire := Wire([5, 1, 0], [], [], []), past := INITIAL.past.(hello := [5, 1, 0]))
    ensures Handle(a, FromServer([5, METHOD_NO_ACCEPTABLE])) ==
            a.(chosen := Some(METHOD_NO_ACCEPTABLE), sPhase := SDone,
               wire := Wire([5, 1, 0], [5, METHOD_NO_ACCEPTABLE], [], []))
  {
    hide ParseClient;
    var data: seq<Byte> := [5, METHOD_NO_ACCEPTABLE];
    assert [] + data == data && data[..2] == data && data[2..] == [];
  }

  lemma AskAlone(b: State, ask: seq<Byte>)
    requires Watching(b) && b.cPhase == CGreeting && b.greeted && b.chosen == Some(METHOD_NO_ACCEPTABLE) && b.cBuf == []
    requires b.sPhase == SDone && RequestSize(ask) == Exactly(10) && |ask| == 10
    ensures var c := Handle(b, FromClient(ask));
      c.child.Some? && c.past.granted == b.past.granted && c.wire.toClient == b.wire.toClient
  {
    hide RequestSize, TargetOf;
    assert [] + ask == ask;
    var t := b.(cBuf := ask, cPhase := CRequest);
    assert ParseClient(b.(cBuf := ask)) == ParseClient(t);
    assert ParseClient(t) == Establish(TakeRequest(t));
  }

  /**
    A method chosen before the greeting was relayed makes the layer take the client's first
    bytes for its request: there is a child, and all that went upstream is that request.
   */
  lemma EarlyMethodSkipsTheGreeting()
    ensures exists es ::
              Run(es).child.Some? && !Run(es).greeted && Run(es).wire.toServer == [5, 1, 0, 1, 10, 0, 0, 1, 0, 80]
  {
    hide Run, Handle, TargetOf;
    var ask: seq<Byte> := [5, 1, 0, 1, 10, 0, 0, 1, 0, 80];
    var reply: seq<Byte> := [5, 0, 0, 1, 0, 0, 0, 0, 0, 0];
    RequestSizeOfAsk(ask);
    var choice := FromServer([5, METHOD_NONE]);
    EarlyChoice();
    EarlyRequest(Run([choice]), ask);
    GrantAlone(Handle(Run([choice]), FromClient(ask)), reply);
    RunOfThree(choice, FromClient(ask), FromServer(reply));
  }

  lemma EarlyChoice()
    ensures var s := Run([FromServer([5, METHOD_NONE])]);
      && Watching(s) && s.cPhase == CRequest && s.sPhase == SRequest && s.cBuf == [] && s.sBuf == []
      && !s.greeted && s.wire.toServer == []
  {
    hide RequestSize, TargetOf;
    var data: seq<Byte> := [5, METHOD_NONE];
    var es := [FromServer(data)];
    assert Run(es[..0]) == INITIAL;
    assert [] + data == data && data[2..] == [];
    var t := INITIAL.(sBuf := data);
    assert ParseServer(t) == TakeMethod(t);
    assert RequestSize([]).Unknown? by { NothingToSize(); }
  }

  lemma EarlyRequest(s: State, ask: seq<Byte>)
    requires Watching(s) && s.cPhase == CRequest && s.sPhase == SRequest && s.cBuf == [] && s.sBuf == []
    requires !s.greeted && s.wire.toServer == [] && RequestSize(ask) == Exactly(10) && |ask| == 10
    ensures var t := Handle(s, FromClient(ask));
      Watching(t) && t.sPhase == SRequest && t.sBuf == [] && t.target.Some? && !t.greeted && t.wire.toServer == ask
  {
    hide RequestSize, TargetOf;
    assert [] + ask == ask;
    var t := s.(cBuf := ask);
    assert ParseClient(t) == TakeRequest(t);
  }

  lemma GrantAlone(s: State, reply: seq<Byte>)
    requires Watching(s) && s.sPhase == SRequest && s.sBuf == [] && s.target.Some? && !s.greeted
    requires |reply| == 10 && reply[0] == 5 && reply[1] == 0 && reply[3] == 1
    ensures var t := Handle(s, FromServer(reply));
      t.child.Some? && !t.greeted && t.wire.toServer == s.wire.toServer
  {
    assert [] + reply == reply;
    assert ParseServer(s.(sBuf := reply)) == TakeReply(s.(sBuf := reply));
  }

  lemma NothingToSize()
    ensures RequestSize([]).Unknown?
  {}

  // ---- how the client's bytes are cut does not matter ----

  function Buffer(s: State, more: seq<Byte>): State {
    s.(cBuf := s.cBuf + more)
  }

  /** More client bytes after the parser has run, the buffer's cap aside. */
  function Deliver(s: State, more: seq<Byte>): State {
    if s.child.Some? then s.(wire := s.wire.(childClient := s.wire.childClient + more))
    else if s.passthrough then s.(wire := s.wire.(toServer := s.wire.toServer + more))
    else ParseClient(Buffer(s, more))
  }

  /** Taking a message, then getting more bytes, is getting them and then taking it. */
  lemma ForwardBuffered(s: State, n: nat, more: seq<Byte>)
    requires n <= |s.cBuf|
    ensures Forward(Buffer(s, more), n) == Buffer(Forward(s, n), more)
    ensures Buffer(s, more).cBuf[..n] == s.cBuf[..n]
  {
    assert (s.cBuf + more)[..n] == s.cBuf[..n] && (s.cBuf + more)[n..] == s.cBuf[n..] + more;
  }

  lemma TakesBuffered(s: State, more: seq<Byte>)
    ensures Holds(s.cBuf, GreetingSize(s.cBuf)) ==>
              Holds(s.cBuf + more, GreetingSize(s.cBuf + more)) &&
              TakeGreeting(Buffer(s, more)) == Buffer(TakeGreeting(s), more)
    ensures Holds(s.cBuf, RequestSize(s.cBuf)) ==>
              Holds(s.cBuf + more, RequestSize(s.cBuf + more)) &&
              TakeRequest(Buffer(s, more)) == Buffer(TakeRequest(s), more)
  {
    SizesStable(s.cBuf, more);
    hide GreetingSize, AuthSize, RequestSize, TargetOf;
    if Holds(s.cBuf, GreetingSize(s.cBuf)) { ForwardBuffered(s, GreetingSize(s.cBuf).n, more); }
    if Holds(s.cBuf, RequestSize(s.cBuf)) { ForwardBuffered(s, RequestSize(s.cBuf).n, more); }
  }

  lemma TakeAuthBuffered(s: State, more: seq<Byte>)
    requires Holds(s.cBuf, AuthSize(s.cBuf))
    ensures Holds(s.cBuf + more, AuthSize(s.cBuf + more))
    ensures TakeAuth(Buffer(s, more)) == Buffer(TakeAuth(s), more)
  {
    SizesStable(s.cBuf, more);
    var n, u := AuthSize(s.cBuf).n, s.cBuf[1] as nat;
    ForwardBuffered(s, n, more);
    assert (s.cBuf + more)[2..2 + u] == s.cBuf[2..2 + u] && (s.cBuf + more)[3 + u..n] == s.cBuf[3 + u..n];
  }

  /** The parser's answer to more bytes is the same whether or not it ran before they came. */
  lemma {:induction false} Reparse(s: State, more: seq<Byte>)
    requires s.child.None? && !s.passthrough
    ensures Deliver(ParseClient(s), more) == ParseClient(Buffer(s, more))
    decreases Rank(s.cPhase)
  {
    hide GreetingSize, AuthSize, RequestSize, TargetOf, TakeGreeting, TakeAuth, TakeRequest;
    SizesStable(s.cBuf, more);
    TakesBuffered(s, more);
    match s.cPhase
    case CGreeting => ReparseGreeting(s, more);
    case CAuth =>
      if Holds(s.cBuf, AuthSize(s.cBuf)) {
        TakeAuthBuffered(s, more);
        TakeAuthKeepsOn(s);
        Reparse(TakeAuth(s), more);
      }
    case CRequest => ReparseRequest(s, more);
    case CDone =>
  }

  lemma TakeAuthKeepsOn(s: State)
    requires Holds(s.cBuf, AuthSize(s.cBuf))
    ensures TakeAuth(s).child == s.child && TakeAuth(s).passthrough == s.passthrough && TakeAuth(s).cPhase == CRequest
  {}

  lemma {:induction false} ReparseGreeting(s: State, more: seq<Byte>)
    requires s.child.None? && !s.passthrough && s.cPhase == CGreeting
    ensures Deliver(ParseClient(s), more) == ParseClient(Buffer(s, more))
    decreases Rank(s.cPhase), 0
  {
    hide GreetingSize, AuthSize, RequestSize, TargetOf;
    TakesBuffered(s, more);
    if s.greeted || Holds(s.cBuf, GreetingSize(s.cBuf)) {
      var t := if s.greeted then s else TakeGreeting(s);
      if t.chosen.Some? {
        Reparse(t.(cPhase := ChosenPhase(t.chosen.value)), more);
      }
    }
  }

  lemma ReparseRequest(s: State, more: seq<Byte>)
    requires s.child.None? && !s.passthrough && s.cPhase == CRequest
    ensures Deliver(ParseClient(s), more) == ParseClient(Buffer(s, more))
  {
    SizesStable(s.cBuf, more);
    TakesBuffered(s, more);
    LeavingBuffered(s, more);
    hide GreetingSize, AuthSize, RequestSize, MessageSize, TargetOf, RelayRaw, Establish, Fed, Flushed;
    if Holds(s.cBuf, RequestSize(s.cBuf)) {
      hide Forward, TakeRequest;
      LeavingBuffered(TakeRequest(s), more);
      TakeRequestLeaves(s);
    }
  }

  lemma TakeRequestLeaves(s: State)
    requires Holds(s.cBuf, RequestSize(s.cBuf))
    ensures var t := TakeRequest(s);
      t.cPhase == CDone && t.sPhase == s.sPhase && t.child == s.child && t.passthrough == s.passthrough
  {}

  /** More bytes after leaving the handshake end up where they would have, had they come before. */
  lemma LeavingBuffered(s: State, more: seq<Byte>)
    requires s.child.None?
    ensures Deliver(RelayRaw(s), more) == RelayRaw(Buffer(s, more))
    ensures s.target.Some? ==> Deliver(Establish(s), more) == Establish(Buffer(s, more))
  {
    hide ParseClient;
    assert s.wire.toServer + s.cBuf + more == s.wire.toServer + (s.cBuf + more);
    assert s.wire.childClient + s.cBuf + more == s.wire.childClient + (s.cBuf + more);
  }

  /**
    Feeding `a` and then `b` leaves exactly the state, and has sent exactly the bytes, that
    feeding them in one piece does, from any state, as long as they fit the buffer.
   */
  lemma SegmentationDoesNotMatter(s: State, a: seq<Byte>, b: seq<Byte>)
    requires s.child.None? && !s.passthrough ==> |s.cBuf| + |a| + |b| <= MAX_HANDSHAKE_BUF
    ensures OnClientData(OnClientData(s, a), b) == OnClientData(s, a + b)
  {
    hide ParseClient;
    if s.child.Some? {
      assert s.wire.childClient + a + b == s.wire.childClient + (a + b);
    } else if s.passthrough {
      assert s.wire.toServer + a + b == s.wire.toServer + (a + b);
    } else {
      var t := Buffer(s, a);
      Reparse(t, b);
      BufferShrinks(t);
      assert s.cBuf + a + b == s.cBuf + (a + b);
      assert Buffer(t, b) == Buffer(s, a + b);
    }
  }

  lemma {:induction false} BufferShrinks(s: State)
    ensures |ParseClient(s).cBuf| <= |s.cBuf|
    decreases Rank(s.cPhase)
  {
    hide GreetingSize, AuthSize, RequestSize, TargetOf;
    match s.cPhase
    case CGreeting =>
      if s.greeted || Holds(s.cBuf, GreetingSize(s.cBuf)) {
        var t := if s.greeted then s else TakeGreeting(s);
        if t.chosen.Some? {
          BufferShrinks(t.(cPhase := ChosenPhase(t.chosen.value)));
        }
      }
    case CAuth =>
      if Holds(s.cBuf, AuthSize(s.cBuf)) {
        BufferShrinks(TakeAuth(s));
      }
    case CRequest =>
    case CDone =>
  }

  /** The cap is why the bytes must fit: a full buffer in one piece gives up, in two it does not. */
  lemma CapCutsTheHandshake(b: seq<Byte>)
    requires |b| == 0x1_0000
    ensures OnClientData(INITIAL, [5, 1, 0] + b).passthrough
    ensures !OnClientData(OnClientData(INITIAL, [5, 1, 0]), b).passthrough
  {
    hide ParseClient;
    var es := [FromClient([5, 1, 0])];
    GreetingAlone();
    assert Run(es[..0]) == INITIAL && Run(es) == OnClientData(INITIAL, [5, 1, 0]);
    var s := Run(es);
    assert [] + b == b;
    BeforeTheChoice(Buffer(s, b));
  }

  lemma BeforeTheChoice(s: State)
    requires s.cPhase == CGreeting && s.greeted && s.chosen.None?
    ensures ParseClient(s) == s
  {}
}
