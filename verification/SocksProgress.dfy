/**
  That the relay gets on: after every event nothing of the client's that is complete and due is
  left waiting, it gives up only when it has to, and a handshake that the proxy grants ends with a
  child for exactly its target and credentials, however it arrives.
 */
module SocksProgress {
  import opened Bytes
  import opened Socks
  import opened SocksWire

  // ---- nothing due is left waiting ----

  /** The client's buffer does not begin with a message that is whole and due, or that cannot be one. */
  predicate Settled(s: State) {
    Watching(s) ==>
      match s.cPhase
      case CGreeting =>
        if s.greeted then s.chosen.None? || s.chosen.value !in {0, 2} else !Holds(s.cBuf, GreetingSize(s.cBuf))
      case CAuth => !Holds(s.cBuf, AuthSize(s.cBuf))
      case CRequest => !RequestSize(s.cBuf).Foreign? && !Holds(s.cBuf, RequestSize(s.cBuf))
      case CDone => s.target.Some?
  }

  lemma {:induction false} ParseClientSettles(s: State)
    requires Coherent(s) && Watching(s)
    ensures Settled(ParseClient(s))
    decreases Rank(s.cPhase)
  {
    hide TargetOf, GreetingSize, AuthSize, RequestSize;
    match s.cPhase
    case CGreeting =>
      if s.greeted || Holds(s.cBuf, GreetingSize(s.cBuf)) {
        var t := if s.greeted then s else TakeGreeting(s);
        if t.chosen.Some? {
          ParseClientSettles(t.(cPhase := ChosenPhase(t.chosen.value)));
        }
      }
    case CAuth =>
      if Holds(s.cBuf, AuthSize(s.cBuf)) {
        ParseClientSettles(TakeAuth(s));
      }
    case CRequest =>
    case CDone =>
  }

  lemma ParseServerSettles(s: State)
    requires Coherent(s) && Watching(s) && Settled(s)
    ensures Settled(ParseServer(s))
  {
    hide ParseClient, MessageSize, GreetingSize, AuthSize, RequestSize, TargetOf;
    match s.sPhase
    case SGreeting =>
      if |s.sBuf| >= 2 && s.sBuf[0] == 5 && Known(s.sBuf[1]) {
        var m := s.sBuf[1];
        ParseClientSettles(TakeChoice(s).(sPhase := if m == METHOD_USER_PASS then SAuth else SRequest,
                                          cPhase := ChosenPhase(m)));
      }
    case SAuth =>
      if |s.sBuf| >= 2 && s.sBuf[0] == 1 && s.sBuf[1] == 0 {
        ParseClientSettles(Answer(s, 2).(sPhase := SRequest));
      }
    case SRequest =>
    case SDone =>
  }

  lemma HandleSettles(s: State, e: Event)
    requires Coherent(s) && Settled(s)
    ensures Settled(Handle(s, e))
  {
    hide ParseClient, ParseServer, GreetingSize, AuthSize, RequestSize;
    if Watching(s) {
      var t := if e.FromClient? then s.(cBuf := s.cBuf + e.data) else s.(sBuf := s.sBuf + e.data);
      if |t.cBuf| <= MAX_HANDSHAKE_BUF && |t.sBuf| <= MAX_HANDSHAKE_BUF {
        if e.FromClient? { ParseClientSettles(t); } else { ParseServerSettles(t); }
      }
    }
  }

  /** After every run, nothing of the client's that is whole and due is waiting. */
  lemma {:induction false} RunSettled(es: seq<Event>)
    ensures Settled(Run(es))
  {
    hide Handle, Settled;
    if es == [] {
      assert Settled(INITIAL) by { NothingSent(); }
    } else {
      RunSettled(es[..|es| - 1]);
      RunKeeps(es[..|es| - 1]);
      HandleSettles(Run(es[..|es| - 1]), es[|es| - 1]);
    }
  }

  lemma NothingSent()
    ensures Settled(INITIAL)
  {}

  /** The proxy's buffer begins with a message that is whole, or with bytes that cannot be the one due. */
  predicate ProxyDue(phase: ServerPhase, buf: seq<Byte>) {
    match phase
    case SGreeting => |buf| >= 2
    case SAuth => |buf| >= 2
    case SRequest => MessageSize(buf).Foreign? || Holds(buf, MessageSize(buf))
    case SDone => false
  }

  /** An arrival of the proxy's bytes moves its phase on if and only if something is due then. */
  lemma ProxyGetsOn(s: State, data: seq<Byte>)
    requires Coherent(s) && Watching(s) && |s.sBuf + data| <= 0x1_0000
    ensures var t := Handle(s, FromServer(data));
      !t.passthrough ==> (t.sPhase != s.sPhase <==> ProxyDue(s.sPhase, s.sBuf + data))
  {
    hide ParseClient, MessageSize, TargetOf;
    var t := s.(sBuf := s.sBuf + data);
    match s.sPhase
    case SGreeting =>
      if |t.sBuf| >= 2 && t.sBuf[0] == 5 && Known(t.sBuf[1]) {
        var m := t.sBuf[1];
        ParseClientAside(TakeChoice(t).(sPhase := if m == METHOD_USER_PASS then SAuth else SRequest,
                                        cPhase := ChosenPhase(m)));
      }
    case SAuth =>
      if |t.sBuf| >= 2 && t.sBuf[0] == 1 && t.sBuf[1] == 0 {
        ParseClientAside(Answer(t, 2).(sPhase := SRequest));
      }
    case SRequest =>
    case SDone =>
  }

  // ---- when it gives up ----

  /** This event brings more than a buffer may hold. */
  predicate Overflows(s: State, e: Event) {
    Watching(s) && |if e.FromClient? then s.cBuf + e.data else s.sBuf + e.data| > 0x1_0000
  }

  predicate Overflowed(es: seq<Event>)
    decreases |es|
  {
    es != [] && (Overflowed(es[..|es| - 1]) || Overflows(Run(es[..|es| - 1]), es[|es| - 1]))
  }

  /** After the greeting and the credentials, where there are any, comes something that is no CONNECT request. */
  predicate AsksOtherwise(s: State) {
    && s.past.connect == [] && CredentialsSent(s)
    && var sent := s.past.hello + s.past.creds;
    sent <= s.wire.toServer && RequestSize(s.wire.toServer[|sent|..]).Foreign?
  }

  lemma {:induction false} ParseClientGivesUp(s: State)
    requires Coherent(s) && Watching(s) && ClientShape(s)
    ensures ParseClient(s).passthrough ==> AsksOtherwise(ParseClient(s))
    decreases Rank(s.cPhase)
  {
    hide TargetOf, GreetingSize, AuthSize, RequestSize, CredentialsSent;
    match s.cPhase
    case CGreeting =>
      if s.greeted || Holds(s.cBuf, GreetingSize(s.cBuf)) {
        if !s.greeted { TakeGreetingShape(s); }
        var t := if s.greeted then s else TakeGreeting(s);
        if t.chosen.Some? {
          ChosenShape(t, t.chosen.value);
          ParseClientGivesUp(t.(cPhase := ChosenPhase(t.chosen.value)));
        }
      }
    case CAuth =>
      if Holds(s.cBuf, AuthSize(s.cBuf)) {
        TakeAuthShape(s);
        ParseClientGivesUp(TakeAuth(s));
      }
    case CRequest =>
      if RequestSize(s.cBuf).Foreign? { RawRequest(s); }
    case CDone =>
  }

  lemma RawRequest(s: State)
    requires Coherent(s) && Watching(s) && ClientShape(s) && s.cPhase == CRequest && RequestSize(s.cBuf).Foreign?
    ensures AsksOtherwise(RelayRaw(s))
  {
    hide RequestSize, AuthSize, GreetingSize, TargetOf;
    var sent := s.past.hello + s.past.creds;
    assert sent + [] == sent;
    assert (sent + s.cBuf)[|sent|..] == s.cBuf;
  }

  lemma OtherwiseStays(s: State, more: seq<Byte>)
    requires AsksOtherwise(s)
    ensures AsksOtherwise(s.(wire := s.wire.(toServer := s.wire.toServer + more)))
  {
    var sent := s.past.hello + s.past.creds;
    var rest := s.wire.toServer[|sent|..];
    assert (s.wire.toServer + more)[|sent|..] == rest + more;
    SizesStable(rest, more);
    hide RequestSize, AuthSize;
  }

  lemma ParseServerGivesUp(s: State)
    requires Coherent(s) && Watching(s) && ClientShape(s)
    ensures ParseServer(s).passthrough ==> AsksOtherwise(ParseServer(s))
  {
    hide ParseClient, MessageSize, ClientShape, TakeMethod, TakeStatus, AsksOtherwise;
    match s.sPhase
    case SGreeting => if |s.sBuf| >= 2 { MethodGivesUp(s); }
    case SAuth => if |s.sBuf| >= 2 { StatusGivesUp(s); }
    case SRequest =>
    case SDone =>
  }

  lemma MethodGivesUp(s: State)
    requires Coherent(s) && Watching(s) && ClientShape(s) && s.sPhase == SGreeting && |s.sBuf| >= 2
    ensures TakeMethod(s).passthrough ==> AsksOtherwise(TakeMethod(s))
  {
    hide ParseClient, AsksOtherwise;
    var m := s.sBuf[1];
    if Known(m) {
      var t := TakeChoice(s).(sPhase := if m == METHOD_USER_PASS then SAuth else SRequest, cPhase := ChosenPhase(m));
      ChoiceShape(s, t);
      ParseClientGivesUp(t);
    }
  }

  lemma ChoiceShape(s: State, t: State)
    requires Coherent(s) && Watching(s) && ClientShape(s) && s.sPhase == SGreeting && |s.sBuf| >= 2 && Known(s.sBuf[1])
    requires var m := s.sBuf[1];
      t == TakeChoice(s).(sPhase := if m == METHOD_USER_PASS then SAuth else SRequest, cPhase := ChosenPhase(m))
    ensures Coherent(t) && Watching(t) && ClientShape(t)
  {
    hide GreetingSize, AuthSize, RequestSize, TargetOf;
  }

  lemma StatusGivesUp(s: State)
    requires Coherent(s) && Watching(s) && ClientShape(s) && s.sPhase == SAuth && |s.sBuf| >= 2
    ensures TakeStatus(s).passthrough ==> AsksOtherwise(TakeStatus(s))
  {
    hide ParseClient, AsksOtherwise;
    if s.sBuf[1] == 0 {
      var t := Answer(s, 2).(sPhase := SRequest);
      StatusShape(s, t);
      ParseClientGivesUp(t);
    }
  }

  lemma StatusShape(s: State, t: State)
    requires Coherent(s) && Watching(s) && ClientShape(s) && s.sPhase == SAuth && |s.sBuf| >= 2
    requires t == Answer(s, 2).(sPhase := SRequest)
    ensures Coherent(t) && Watching(t) && ClientShape(t)
  {
    hide GreetingSize, AuthSize, RequestSize, TargetOf;
  }

  lemma HandleGivesUp(s: State, e: Event)
    requires Coherent(s) && ClientShape(s)
    ensures var t := Handle(s, e);
      && (Watching(s) && t.passthrough && !Overflows(s, e) ==> AsksOtherwise(t))
      && (s.passthrough && AsksOtherwise(s) ==> AsksOtherwise(t))
      && (s.passthrough || Overflows(s, e) ==> t.passthrough)
      && (s.child.Some? ==> !t.passthrough)
  {
    hide ParseClient, ParseServer, GreetingSize, AuthSize, RequestSize, TargetOf, AsksOtherwise;
    if Watching(s) {
      var t := if e.FromClient? then s.(cBuf := s.cBuf + e.data) else s.(sBuf := s.sBuf + e.data);
      assert ClientShape(t);
      if !Overflows(s, e) {
        if e.FromClient? { ParseClientGivesUp(t); } else { ParseServerGivesUp(t); }
      }
    } else if s.passthrough && AsksOtherwise(s) {
      if e.FromClient? { OtherwiseStays(s, e.data); } else { OtherSide(s, e.data); }
    }
  }

  lemma OtherSide(s: State, more: seq<Byte>)
    requires AsksOtherwise(s)
    ensures AsksOtherwise(s.(wire := s.wire.(toClient := s.wire.toClient + more)))
  {
    hide RequestSize, AuthSize;
  }

  /** It gives up if and only if a buffer overflowed or the client asked for something that is no CONNECT. */
  lemma {:induction false} GivesUpExactly(es: seq<Event>)
    ensures Run(es).passthrough <==> Overflowed(es) || AsksOtherwise(Run(es))
  {
    hide Handle, AsksOtherwise, ClientShape, ServerShape;
    RunShape(es);
    RunKeeps(es);
    if !Run(es).passthrough { NotOtherwise(Run(es)); }
    if es != [] {
      var front, e := es[..|es| - 1], es[|es| - 1];
      GivesUpExactly(front);
      RunShape(front);
      RunKeeps(front);
      HandleGivesUp(Run(front), e);
    }
  }

  lemma NotOtherwise(s: State)
    requires ClientShape(s) && !s.passthrough
    ensures !AsksOtherwise(s)
  {
    var sent := s.past.hello + s.past.creds;
    if s.past.connect == [] {
      assert sent + [] == sent;
      assert s.wire.toServer[|sent|..] == [];
    }
  }
}
