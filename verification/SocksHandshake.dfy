/**
  A whole handshake, however it arrives: the client's three messages cut anyhow and sent ahead of
  the proxy's, the proxy's taken one per arrival. The child is there exactly when the client's have
  all come and the proxy's have all been taken, and has exactly their target and credentials.
 */
module SocksHandshake {
  import opened Bytes
  import opened Socks
  import opened SocksProgress
  import opened SocksWire

  /** What the two sides have to say: the proxy chooses `choice` and grants the request. */
  datatype Plan = Plan(ver: Byte, methods: seq<Byte>, choice: Byte, authVer: Byte, username: seq<Byte>,
                       password: seq<Byte>, reserved: Byte, target: Target, reply: seq<Byte>)

  predicate IsPlan(p: Plan) {
    && |p.methods| < 256 && p.choice in {0, 2} && |p.username| < 256 && |p.password| < 256
    && TargetOk(p.target) && IsReply(p.reply, true)
  }

  function Hello(p: Plan): seq<Byte>
    requires IsPlan(p)
  {
    EncodeGreeting(p.ver, p.methods)
  }

  function Credentials(p: Plan): seq<Byte>
    requires IsPlan(p)
  {
    if p.choice == 2 then EncodeAuth(p.authVer, p.username, p.password) else []
  }

  function Connect(p: Plan): seq<Byte>
    requires IsPlan(p)
  {
    EncodeMessage(1, p.reserved, p.target)
  }

  function ClientSays(p: Plan): seq<Byte>
    requires IsPlan(p)
  {
    Hello(p) + Credentials(p) + Connect(p)
  }

  function ProxySays(p: Plan): seq<Byte>
    requires IsPlan(p)
  {
    [5, p.choice] + (if p.choice == 2 then [1, 0] else []) + p.reply
  }

  /** What the child is to be set up with. */
  function TunnelOf(p: Plan): Tunnel {
    if p.choice == 2 then Tunnel(p.target, p.username, p.password) else Tunnel(p.target, [], [])
  }

  /** How many messages the proxy has to say, and how many bytes the first `k` of them are. */
  function Messages(p: Plan): nat {
    if p.choice == 2 then 3 else 2
  }

  function Upto(p: Plan, k: nat): (n: nat)
    requires IsPlan(p) && k <= Messages(p)
    ensures n <= |ProxySays(p)|
  {
    if k == 0 then 0 else if k == 1 then 2 else if k == 2 && p.choice == 2 then 4 else |ProxySays(p)|
  }

  /** How many of the proxy's messages are taken: one per arrival of its bytes, when the next is whole. */
  function Taken(p: Plan, es: seq<Event>): (k: nat)
    requires IsPlan(p)
    ensures k <= Messages(p)
    decreases |es|
  {
    if es == [] then 0
    else
      var k := Taken(p, es[..|es| - 1]);
      if es[|es| - 1].FromServer? && k < Messages(p) && |ServerBytes(es)| >= Upto(p, k + 1) then k + 1 else k
  }

  /** The choice does not come before the client's greeting is complete. */
  predicate InTurn(p: Plan, es: seq<Event>)
    requires IsPlan(p)
    decreases |es|
  {
    es != [] ==>
      && InTurn(p, es[..|es| - 1])
      && (es[|es| - 1].FromServer? && |ServerBytes(es)| >= 2 && |ServerBytes(es[..|es| - 1])| < 2 ==>
            |ClientBytes(es[..|es| - 1])| >= |Hello(p)|)
  }

  predicate Comparable(a: seq<Byte>, b: seq<Byte>) {
    a <= b || b <= a
  }

  /** The run is some of this handshake, or all of it and more, no more than the buffers hold. */
  predicate Follows(p: Plan, es: seq<Event>)
    requires IsPlan(p)
  {
    && Comparable(ClientBytes(es), ClientSays(p)) && Comparable(ServerBytes(es), ProxySays(p))
    && |ClientBytes(es)| <= 0x1_0000 && |ServerBytes(es)| <= 0x1_0000
    && InTurn(p, es)
  }

  // ---- messages at the front of comparable bytes ----

  lemma PrefixesCompare(a: seq<Byte>, b: seq<Byte>, c: seq<Byte>, w: seq<Byte>)
    requires a <= c && b <= w && Comparable(c, w)
    ensures Comparable(a, b)
  {}

  lemma SameMessage(a: seq<Byte>, b: seq<Byte>)
    requires Comparable(a, b)
    ensures GreetingSize(a) == Exactly(|a|) && GreetingSize(b) == Exactly(|b|) ==> a == b
    ensures AuthSize(a) == Exactly(|a|) && AuthSize(b) == Exactly(|b|) ==> a == b
    ensures RequestSize(a) == Exactly(|a|) && RequestSize(b) == Exactly(|b|) ==> a == b
  {
    var short, long := if a <= b then a else b, if a <= b then b else a;
    assert long == short + long[|short|..];
    SizesStable(short, long[|short|..]);
    hide GreetingSize, AuthSize, RequestSize;
    if |a| == |b| { assert a == b; }
  }

  /** The plan's own messages have their sizes, with anything after them. */
  lemma PlanSizes(p: Plan, more: seq<Byte>)
    requires IsPlan(p)
    ensures GreetingSize(Hello(p)) == Exactly(|Hello(p)|) && GreetingSize(Hello(p) + more) == Exactly(|Hello(p)|)
    ensures RequestSize(Connect(p)) == Exactly(|Connect(p)|) && RequestSize(Connect(p) + more) == Exactly(|Connect(p)|)
    ensures p.choice == 2 ==>
              && AuthSize(Credentials(p)) == Exactly(|Credentials(p)|)
              && AuthSize(Credentials(p) + more) == Exactly(|Credentials(p)|)
    ensures MessageSize(p.reply + more) == Exactly(|p.reply|) && |p.reply| >= 7
  {
    EncodedMessageIsRead(1, p.reserved, p.target, more);
    SizesStable(p.reply, more);
    if p.choice == 2 { SizesStable(Credentials(p), more); }
    hide MessageSize;
    SizesStable(Hello(p), more);
  }

  lemma RequestComparable(p: Plan, rest: seq<Byte>)
    requires IsPlan(p) && Comparable(rest, Connect(p))
    ensures !RequestSize(rest).Foreign?
    ensures Holds(rest, RequestSize(rest)) ==> Connect(p) <= rest
  {
    PlanSizes(p, []);
    if rest <= Connect(p) {
      assert Connect(p) == rest + Connect(p)[|rest|..];
      SizesStable(rest, Connect(p)[|rest|..]);
    } else {
      assert rest == Connect(p) + rest[|Connect(p)|..];
      PlanSizes(p, rest[|Connect(p)|..]);
    }
  }

  // ---- what was relayed, in the plan's terms ----

  /** What went upstream from a greeting on is the plan's, as far as it goes. */
  lemma RelayedAsPlanned(p: Plan, s: State, c: seq<Byte>)
    requires IsPlan(p) && ClientShape(s) && s.greeted && s.wire.toServer <= c && Comparable(c, ClientSays(p))
    requires s.chosen.Some? ==> s.chosen.value == p.choice
    ensures s.past.hello == Hello(p)
    ensures CredentialsSent(s) ==> s.past.creds == Credentials(p)
    ensures CredentialsSent(s) && s.target.Some? ==> s.past.connect == Connect(p)
  {
    var past := s.past;
    var sent := past.hello + past.creds + past.connect;
    hide GreetingSize, AuthSize, RequestSize, MessageSize, TargetOf, Hello, Credentials, Connect;
    assert past.hello <= sent && sent <= s.wire.toServer;
    PlanSizes(p, []);
    PrefixesCompare(past.hello, Hello(p), c, ClientSays(p));
    SameMessage(past.hello, Hello(p));
    assert past.hello == Hello(p);
    if CredentialsSent(s) {
      assert past.hello + past.creds <= sent;
      PrefixesCompare(past.hello + past.creds, Hello(p) + Credentials(p), c, ClientSays(p));
      AfterSame(Hello(p), past.creds, Credentials(p));
      SameMessage(past.creds, Credentials(p));
      assert past.creds == Credentials(p) by { NoCredentials(p, s); }
      if s.target.Some? {
        PrefixesCompare(sent, ClientSays(p), c, ClientSays(p));
        AfterSame(Hello(p) + Credentials(p), past.connect, Connect(p));
        SameMessage(past.connect, Connect(p));
      }
    }
  }

  lemma NoCredentials(p: Plan, s: State)
    requires IsPlan(p) && CredentialsSent(s) && s.chosen.value == p.choice
    ensures p.choice != 2 ==> s.past.creds == Credentials(p)
    ensures p.choice == 2 ==> AuthSize(s.past.creds) == Exactly(|s.past.creds|)
  {}

  lemma AfterSame(a: seq<Byte>, x: seq<Byte>, y: seq<Byte>)
    requires Comparable(a + x, a + y)
    ensures Comparable(x, y)
  {
    assert (a + x)[|a|..] == x && (a + y)[|a|..] == y;
    if a + x <= a + y { assert (a + y)[..|a + x|][|a|..] == y[..|x|]; }
    else { assert (a + x)[..|a + y|][|a|..] == x[..|y|]; }
  }

  // ---- every run of a handshake goes along with it ----

  function PhaseAt(p: Plan, k: nat): ServerPhase {
    if k == 0 then SGreeting
    else if k >= Messages(p) then SDone
    else if k == 1 && p.choice == 2 then SAuth
    else SRequest
  }

  /** The layer has taken `k` of the proxy's messages, and relayed them. */
  predicate Along(p: Plan, s: State, k: nat)
    requires IsPlan(p)
  {
    && k <= Messages(p) && !s.passthrough && s.sPhase == PhaseAt(p, k)
    && s.chosen == (if k == 0 then None else Some(p.choice)) && (k > 0 ==> s.greeted)
    && (s.past.granted <==> k == Messages(p))
    && s.wire.toClient == ProxySays(p)[..Upto(p, k)]
  }

  lemma {:induction false} StaysGreeted(s: State)
    requires s.greeted
    ensures ParseClient(s).greeted
    decreases Rank(s.cPhase)
  {
    hide TargetOf, GreetingSize, AuthSize, RequestSize;
    match s.cPhase
    case CGreeting =>
      if s.chosen.Some? {
        StaysGreeted(s.(cPhase := ChosenPhase(s.chosen.value)));
      }
    case CAuth =>
      if Holds(s.cBuf, AuthSize(s.cBuf)) {
        StaysGreeted(TakeAuth(s));
      }
    case CRequest =>
    case CDone =>
  }

  /** The plan's request is a CONNECT. */
  lemma AsksAsPlanned(p: Plan, s: State, c: seq<Byte>)
    requires IsPlan(p) && ClientShape(s) && s.greeted && s.wire.toServer <= c && Comparable(c, ClientSays(p))
    requires s.chosen == Some(p.choice)
    ensures !AsksOtherwise(s)
  {
    hide GreetingSize, AuthSize, RequestSize, MessageSize, TargetOf, Hello, Credentials, Connect, ClientShape;
    RelayedAsPlanned(p, s, c);
    var sent := s.past.hello + s.past.creds;
    if CredentialsSent(s) && sent <= s.wire.toServer {
      var rest := s.wire.toServer[|sent|..];
      assert s.wire.toServer == sent + rest;
      PrefixesCompare(s.wire.toServer, ClientSays(p), c, ClientSays(p));
      AfterSame(sent, rest, Connect(p));
      RequestComparable(p, rest);
    }
  }

  /** Driving the client's parser goes along. */
  lemma DriveAlong(p: Plan, s: State, c: seq<Byte>, k: nat)
    requires IsPlan(p) && Coherent(s) && Watching(s) && ClientShape(s) && Along(p, s, k)
    requires ClientTotal(s) == c && Comparable(c, ClientSays(p))
    ensures Along(p, ParseClient(s), k)
  {
    hide ParseClient, ClientShape, ClientSays, ProxySays, Upto, CredentialsSent;
    ParseClientAside(s);
    ParseClientGivesUp(s);
    ParseClientShape(s);
    ParseClientKeeps(s);
    var t := ParseClient(s);
    if s.greeted { StaysGreeted(s); }
    if t.passthrough {
      assert t.wire.toServer <= c by { RelayedFirst(t); }
      if k == 0 { NoneChosen(t); } else { AsksAsPlanned(p, t, c); }
      assert false;
    }
  }

  lemma RelayedFirst(s: State)
    ensures s.wire.toServer <= ClientTotal(s) && s.wire.toClient <= ServerTotal(s)
  {}

  lemma NoneChosen(s: State)
    requires s.chosen.None?
    ensures !AsksOtherwise(s)
  {}

  lemma GreetedByNow(p: Plan, s: State, c: seq<Byte>)
    requires IsPlan(p) && Coherent(s) && Watching(s) && ClientShape(s) && Settled(s) && Along(p, s, 0)
    requires ClientTotal(s) == c && Comparable(c, ClientSays(p)) && |c| >= |Hello(p)|
    ensures s.greeted
  {
    if !s.greeted {
      assert s.wire.toServer == [] + [] + [] == [];
      assert [] + [] + s.cBuf == s.cBuf == c;
      assert c == Hello(p) + c[|Hello(p)|..] by { PrefixesCompare(Hello(p), Hello(p), c, ClientSays(p)); }
      PlanSizes(p, c[|Hello(p)|..]);
    }
  }

  /** What is buffered of the proxy's is what comes after the messages taken. */
  lemma StillBuffered(p: Plan, s: State, q: seq<Byte>, k: nat)
    requires IsPlan(p) && Watching(s) && Along(p, s, k) && ServerTotal(s) == q && Comparable(q, ProxySays(p))
    ensures Upto(p, k) <= |q| && s.sBuf == q[Upto(p, k)..] && Comparable(s.sBuf, ProxySays(p)[Upto(p, k)..])
  {
    hide ProxySays, Upto;
    var sent := s.wire.toClient;
    assert q == sent + s.sBuf by { assert sent + [] == sent; }
    assert ProxySays(p) == sent + ProxySays(p)[|sent|..];
    AfterSame(sent, s.sBuf, ProxySays(p)[|sent|..]);
  }

  lemma ProxyParts(p: Plan)
    requires IsPlan(p)
    ensures ProxySays(p)[..0] == [] && ProxySays(p)[..2] == [5, p.choice]
    ensures ProxySays(p)[0] == 5 && ProxySays(p)[1] == p.choice
    ensures p.choice == 2 ==>
              ProxySays(p)[2..][0] == 1 && ProxySays(p)[2..][1] == 0 && ProxySays(p)[..4] == [5, 2, 1, 0]
    ensures ProxySays(p)[Upto(p, Messages(p) - 1)..] == p.reply && ProxySays(p)[..|ProxySays(p)|] == ProxySays(p)
    ensures ProxySays(p) == ProxySays(p)[..Upto(p, Messages(p) - 1)] + p.reply
  {
    if p.choice == 2 {
      assert [5, p.choice] + [1, 0] == [5, 2, 1, 0];
    } else {
      assert [5, p.choice] + [] == [5, p.choice];
    }
  }

  lemma ServerParserAlong(p: Plan, s: State, c: seq<Byte>, q: seq<Byte>, k: nat)
    requires IsPlan(p) && Coherent(s) && Watching(s) && ClientShape(s) && Settled(s) && Along(p, s, k)
    requires ClientTotal(s) == c && Comparable(c, ClientSays(p))
    requires ServerTotal(s) == q && Comparable(q, ProxySays(p))
    requires k == 0 && |q| >= 2 ==> |c| >= |Hello(p)|
    ensures Along(p, ParseServer(s), if k < Messages(p) && |q| >= Upto(p, k + 1) then k + 1 else k)
  {
    hide ParseClient, ClientShape, ClientSays, ProxySays, Hello, Settled;
    hide TakeMethod, TakeStatus, TakeReply, MessageSize;
    StillBuffered(p, s, q, k);
    match s.sPhase
    case SGreeting =>
      if |s.sBuf| >= 2 {
        GreetedByNow(p, s, c);
        MethodAlong(p, s, c);
      }
    case SAuth =>
      if |s.sBuf| >= 2 { StatusAlong(p, s, c); }
    case SRequest => ReplyAlong(p, s);
    case SDone =>
  }

  lemma MethodAlong(p: Plan, s: State, c: seq<Byte>)
    requires IsPlan(p) && Coherent(s) && Watching(s) && ClientShape(s) && s.greeted && Along(p, s, 0)
    requires ClientTotal(s) == c && Comparable(c, ClientSays(p))
    requires |s.sBuf| >= 2 && Comparable(s.sBuf, ProxySays(p)[0..])
    ensures s.sBuf[0] == 5 && Along(p, TakeMethod(s), 1)
  {
    hide ParseClient, ClientShape, ClientSays, ProxySays;
    ProxyParts(p);
    assert ProxySays(p)[0..] == ProxySays(p);
    assert s.sBuf[0] == 5 && s.sBuf[1] == p.choice;
    assert [] + s.sBuf[..2] == [5, p.choice];
    var m := s.sBuf[1];
    var t := TakeChoice(s).(sPhase := if m == METHOD_USER_PASS then SAuth else SRequest, cPhase := ChosenPhase(m));
    ChoiceShape(s, t);
    assert ClientTotal(t) == c;
    DriveAlong(p, t, c, 1);
  }

  lemma StatusAlong(p: Plan, s: State, c: seq<Byte>)
    requires IsPlan(p) && Coherent(s) && Watching(s) && ClientShape(s) && s.sPhase == SAuth && Along(p, s, 1)
    requires ClientTotal(s) == c && Comparable(c, ClientSays(p))
    requires |s.sBuf| >= 2 && Comparable(s.sBuf, ProxySays(p)[2..])
    ensures s.sBuf[0] == 1 && Along(p, TakeStatus(s), 2)
  {
    hide ParseClient, ClientShape, ClientSays, ProxySays;
    ProxyParts(p);
    assert s.sBuf[0] == 1 && s.sBuf[1] == 0;
    assert [5, 2] + s.sBuf[..2] == [5, 2, 1, 0];
    var t := Answer(s, 2).(sPhase := SRequest);
    StatusShape(s, t);
    assert ClientTotal(t) == c;
    DriveAlong(p, t, c, 2);
  }

  lemma ReplyAlong(p: Plan, s: State)
    requires IsPlan(p) && Coherent(s) && Watching(s) && s.sPhase == SRequest && Along(p, s, Messages(p) - 1)
    requires Comparable(s.sBuf, ProxySays(p)[Upto(p, Messages(p) - 1)..])
    ensures Along(p, ParseServer(s), if |s.sBuf| >= |p.reply| then Messages(p) else Messages(p) - 1)
    ensures |ProxySays(p)| == Upto(p, Messages(p) - 1) + |p.reply|
  {
    hide MessageSize, ProxySays;
    ProxyParts(p);
    PlanSizes(p, []);
    assert p.reply + [] == p.reply;
    if |s.sBuf| >= |p.reply| {
      var rest := s.sBuf[|p.reply|..];
      assert s.sBuf == p.reply + rest;
      PlanSizes(p, rest);
      assert s.sBuf[1] == p.reply[1] == 0 by { GrantingReply(p); }
      assert s.sBuf[..|p.reply|] == p.reply;
    } else {
      var rest := p.reply[|s.sBuf|..];
      assert p.reply == s.sBuf + rest;
      SizesStable(s.sBuf, rest);
    }
  }

  lemma GrantingReply(p: Plan)
    requires IsPlan(p)
    ensures |p.reply| >= 7 && p.reply[1] == 0
  {}

  lemma StepAlong(p: Plan, s: State, e: Event, c: seq<Byte>, q: seq<Byte>, k: nat)
    requires IsPlan(p) && Coherent(s) && ClientShape(s) && Settled(s) && Along(p, s, k)
    requires ClientTotal(s) + (if e.FromClient? then e.data else []) == c && Comparable(c, ClientSays(p))
    requires ServerTotal(s) + (if e.FromServer? then e.data else []) == q && Comparable(q, ProxySays(p))
    requires |c| <= 0x1_0000 && |q| <= 0x1_0000
    requires e.FromServer? && k == 0 && |q| >= 2 ==> |c| >= |Hello(p)|
    ensures Along(p, Handle(s, e), if e.FromServer? && k < Messages(p) && |q| >= Upto(p, k + 1) then k + 1 else k)
  {
    hide ParseClient, ParseServer, ClientShape, ClientSays, ProxySays, Settled, Hello, Upto;
    if Watching(s) {
      var t := if e.FromClient? then s.(cBuf := s.cBuf + e.data) else s.(sBuf := s.sBuf + e.data);
      assert ClientTotal(t) == c && ServerTotal(t) == q;
      MoreArrived(s, e.data);
      if e.FromClient? { DriveAlong(p, t, c, k); } else { ServerParserAlong(p, t, c, q, k); }
    }
  }

  lemma MoreArrived(s: State, data: seq<Byte>)
    requires ClientShape(s)
    ensures ClientShape(s.(cBuf := s.cBuf + data)) && ClientShape(s.(sBuf := s.sBuf + data))
    ensures Settled(s) ==> Settled(s.(sBuf := s.sBuf + data))
  {
    hide Settled, GreetingSize, AuthSize, RequestSize, TargetOf, CredentialsSent;
    ShapeStays(s, data);
    if Settled(s) { SettledStays(s, data); }
  }

  lemma ShapeStays(s: State, data: seq<Byte>)
    requires ClientShape(s)
    ensures ClientShape(s.(cBuf := s.cBuf + data)) && ClientShape(s.(sBuf := s.sBuf + data))
  {
    hide GreetingSize, AuthSize, RequestSize, TargetOf;
  }

  lemma SettledStays(s: State, data: seq<Byte>)
    requires Settled(s)
    ensures Settled(s.(sBuf := s.sBuf + data))
  {
    hide GreetingSize, AuthSize, RequestSize;
  }

  /** The bytes of a run, and of the run before its last event. */
  lemma BytesBefore(p: Plan, es: seq<Event>)
    requires IsPlan(p) && es != [] && Follows(p, es)
    ensures var front, e := es[..|es| - 1], es[|es| - 1];
      && Follows(p, front)
      && ClientBytes(es) == ClientBytes(front) + (if e.FromClient? then e.data else [])
      && ServerBytes(es) == ServerBytes(front) + (if e.FromServer? then e.data else [])
  {
    hide ClientSays, ProxySays;
  }

  /** In every run that follows the plan, the layer goes along with it. */
  lemma {:induction false} RunAlong(p: Plan, es: seq<Event>)
    requires IsPlan(p) && Follows(p, es)
    ensures Along(p, Run(es), Taken(p, es))
    ensures Taken(p, es) == 0 <==> |ServerBytes(es)| < 2
    decreases |es|
  {
    hide Handle, ClientShape, ServerShape, Settled, Along, ClientSays, ProxySays, Hello;
    if es == [] {
      assert Along(p, INITIAL, 0) by { AlongFromTheStart(p); }
    } else {
      var front, e := es[..|es| - 1], es[|es| - 1];
      BytesBefore(p, es);
      RunAlong(p, front);
      RunKeeps(front);
      RunShape(front);
      RunSettled(front);
      StepAlong(p, Run(front), e, ClientBytes(es), ServerBytes(es), Taken(p, front));
    }
  }

  lemma AlongFromTheStart(p: Plan)
    requires IsPlan(p)
    ensures Along(p, INITIAL, 0)
  {}

  /**
    A handshake that the proxy grants: the child is there if and only if all of the client's
    messages have come and all of the proxy's have been taken, whatever the order and the pieces. It
    has exactly the request's target and the credentials, and exactly the messages went upstream.
   */
  lemma HandshakeCompletes(p: Plan, es: seq<Event>)
    requires IsPlan(p) && Follows(p, es)
    ensures var s := Run(es);
      && (s.child.Some? <==> ClientSays(p) <= ClientBytes(es) && Taken(p, es) == Messages(p))
      && (s.child.Some? ==>
            && s.child.value == TunnelOf(p)
            && s.wire.toServer == ClientSays(p) && s.wire.toClient == ProxySays(p)
            && s.wire.toServer + s.wire.childClient == ClientBytes(es)
            && s.wire.toClient + s.wire.childServer == ServerBytes(es))
  {
    var s, c := Run(es), ClientBytes(es);
    RunAlong(p, es);
    RunKeeps(es);
    RunShape(es);
    RunSettled(es);
    hide Run, Taken, ClientBytes, ServerBytes, Follows, Settled, ClientShape, ServerShape, ClientSays, ProxySays;
    if s.child.Some? {
      ChildAsPlanned(p, s, c);
      assert ProxySays(p)[..|ProxySays(p)|] == ProxySays(p);
    } else if Taken(p, es) == Messages(p) && ClientSays(p) <= c {
      NothingMissing(p, s, c);
    }
  }

  lemma ChildAsPlanned(p: Plan, s: State, c: seq<Byte>)
    requires IsPlan(p) && Coherent(s) && ClientShape(s) && s.child.Some? && s.greeted && s.chosen == Some(p.choice)
    requires ClientTotal(s) == c && Comparable(c, ClientSays(p))
    ensures s.wire.toServer == ClientSays(p) <= c
    ensures s.child.value == TunnelOf(p)
  {
    RelayedFirst(s);
    RelayedAsPlanned(p, s, c);
    TargetAsPlanned(p);
    var creds := Credentials(p);
    if p.choice == 2 {
      var n := |p.username|;
      assert creds[2..2 + n] == p.username && creds[3 + n..] == p.password;
    }
  }

  lemma TargetAsPlanned(p: Plan)
    requires IsPlan(p)
    ensures MessageSize(Connect(p)) == Exactly(|Connect(p)|) && TargetOf(Connect(p)) == p.target
  {
    EncodedMessageIsRead(1, p.reserved, p.target, []);
  }

  /** With all of both sides in and no child, something that is due would be waiting. */
  lemma NothingMissing(p: Plan, s: State, c: seq<Byte>)
    requires IsPlan(p) && Coherent(s) && ClientShape(s) && !s.passthrough && s.child.None?
    requires ClientTotal(s) == c && ClientSays(p) <= c && s.past.granted && s.greeted && s.chosen == Some(p.choice)
    ensures !Settled(s)
  {
    RelayedFirst(s);
    RelayedAsPlanned(p, s, c);
    UpToTheRequest(s, c);
    var more := c[|ClientSays(p)|..];
    assert c == ClientSays(p) + more;
    hide TargetOf, GreetingSize, AuthSize, RequestSize, Hello, Credentials, Connect, ClientShape, Coherent;
    match s.cPhase
    case CGreeting =>
    case CAuth =>
      Regrouped(Hello(p), Credentials(p), Connect(p), more);
      Cancel(Hello(p), s.cBuf, Credentials(p) + (Connect(p) + more));
      PlanSizes(p, Connect(p) + more);
    case CRequest =>
      Regrouped(Hello(p), Credentials(p), Connect(p), more);
      Cancel(Hello(p) + Credentials(p), s.cBuf, Connect(p) + more);
      PlanSizes(p, more);
    case CDone =>
  }

  /** Before its request is taken, what the client sent is what was relayed and what is buffered. */
  lemma UpToTheRequest(s: State, c: seq<Byte>)
    requires Coherent(s) && ClientShape(s) && !s.passthrough && s.child.None? && ClientTotal(s) == c && s.past.granted
    ensures s.target.None? && c == s.past.hello + s.past.creds + s.cBuf
    ensures s.cPhase == CAuth ==> c == s.past.hello + s.cBuf && s.chosen == Some(METHOD_USER_PASS)
    ensures s.cPhase == CRequest ==> CredentialsSent(s)
    ensures s.cPhase != CDone
  {
    var sent := s.past.hello + s.past.creds;
    assert sent + [] == sent && sent + [] + s.cBuf == sent + s.cBuf && s.past.hello + [] == s.past.hello;
  }

  lemma Regrouped(a: seq<Byte>, b: seq<Byte>, c: seq<Byte>, d: seq<Byte>)
    ensures a + b + c + d == a + (b + (c + d)) && a + b + c + d == (a + b) + (c + d)
  {}

  lemma Cancel(a: seq<Byte>, x: seq<Byte>, y: seq<Byte>)
    requires a + x == a + y
    ensures x == y
  {
    assert (a + x)[|a|..] == x && (a + y)[|a|..] == y;
  }

  // ---- one message per arrival ----

  /** No arrival of the proxy's bytes completes two of its messages. */
  predicate OneAtATime(p: Plan, es: seq<Event>)
    requires IsPlan(p)
    decreases |es|
  {
    es != [] ==>
      && OneAtATime(p, es[..|es| - 1])
      && forall j: nat, k: nat | 0 < j < k <= Messages(p) && Upto(p, k) <= |ServerBytes(es)| ::
           |ServerBytes(es[..|es| - 1])| >= Upto(p, j)
  }

  /** Then every message that is complete is taken. */
  lemma {:induction false} AllAreTaken(p: Plan, es: seq<Event>)
    requires IsPlan(p) && OneAtATime(p, es)
    ensures forall k: nat | k <= Messages(p) :: k <= Taken(p, es) <==> Upto(p, k) <= |ServerBytes(es)|
    decreases |es|
  {
    UptoGrows(p);
    hide ProxySays, Upto;
    if es != [] {
      var front := es[..|es| - 1];
      AllAreTaken(p, front);
    }
  }

  lemma UptoGrows(p: Plan)
    requires IsPlan(p)
    ensures Upto(p, 0) == 0 && forall j: nat, k: nat | j < k <= Messages(p) :: Upto(p, j) < Upto(p, k)
    ensures Upto(p, Messages(p)) == |ProxySays(p)|
  {
    GrantingReply(p);
  }

  /** So a handshake that comes in whole, the proxy's messages apart, gets its child. */
  lemma HandshakeGetsItsChild(p: Plan, es: seq<Event>)
    requires IsPlan(p) && Follows(p, es) && OneAtATime(p, es)
    requires ClientSays(p) <= ClientBytes(es) && ProxySays(p) <= ServerBytes(es)
    ensures Run(es).child == Some(TunnelOf(p))
  {
    hide Run, Follows, ClientSays, ProxySays, Upto;
    HandshakeCompletes(p, es);
    AllAreTaken(p, es);
    UptoGrows(p);
  }

  /**
    Messages that come in one piece do not: the client sends all it has to say, the proxy answers
    all of it at once, and the layer relays the choice and sits on the rest, the grant included.
   */
  lemma JoinedReplyWaits(p: Plan)
    requires IsPlan(p)
    ensures var s := Run([FromClient(ClientSays(p)), FromServer(ProxySays(p))]);
      && s.child.None? && !s.passthrough && s.wire.toClient == [5, p.choice]
      && s.sBuf == ProxySays(p)[2..] && p.reply <= s.sBuf[|s.sBuf| - |p.reply|..]
  {
    var es := [FromClient(ClientSays(p)), FromServer(ProxySays(p))];
    PlanIsShort(p);
    JoinedFollows(p);
    RunAlong(p, es);
    HandshakeCompletes(p, es);
    RunKeeps(es);
    ProxyParts(p);
    hide Run, Follows, ClientSays;
    var s := Run(es);
    StillBuffered(p, s, ProxySays(p), 1);
    assert s.sBuf[|s.sBuf| - |p.reply|..] == p.reply;
  }

  lemma PlanIsShort(p: Plan)
    requires IsPlan(p)
    ensures |Hello(p)| <= |ClientSays(p)| <= 0x1_0000 && 2 <= |ProxySays(p)| <= 0x1_0000
  {}

  lemma JoinedFollows(p: Plan)
    requires IsPlan(p)
    ensures var es := [FromClient(ClientSays(p)), FromServer(ProxySays(p))];
      && Follows(p, es) && Taken(p, es) == 1
      && ClientBytes(es) == ClientSays(p) && ServerBytes(es) == ProxySays(p)
  {
    PlanIsShort(p);
    hide ClientSays, ProxySays, Hello;
    var c, q := ClientSays(p), ProxySays(p);
    var es := [FromClient(c), FromServer(q)];
    var one := [FromClient(c)];
    assert es[..1] == one && one[..0] == [];
    assert ClientBytes(one) == [] + c == c && ServerBytes(one) == [] + [] == [];
    assert ClientBytes(es) == c + [] == c && ServerBytes(es) == [] + q == q;
    assert Taken(p, one) == 0 && InTurn(p, one);
  }
}
