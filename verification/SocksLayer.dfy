/**
  The relay layer as an object: its fields are the layer's own, its outputs are the bytes it
  has sent so far, and each method takes the step that `Socks` defines.
 */
module SocksLayer {
  import opened Bytes
  import opened SocksWire
  import S = Socks

  class Layer {
    var cPhase: S.ClientPhase
    var sPhase: S.ServerPhase
    var greeted: bool
    var passthrough: bool
    var chosen: Option<Byte>           // the method the proxy chose
    var clientBuf: seq<Byte>
    var serverBuf: seq<Byte>
    var target: Option<Target>
    var username: seq<Byte>
    var password: seq<Byte>
    var child: Option<S.Tunnel>
    var toServer: seq<Byte>            // sent upstream
    var toClient: seq<Byte>
    var childClient: seq<Byte>         // given to the child, as the client's
    var childServer: seq<Byte>
    ghost var past: S.Past

    /** The state the layer is in. */
    ghost function View(): S.State
      reads this
    {
      S.State(cPhase, sPhase, greeted, passthrough, chosen, clientBuf, serverBuf, target, username, password, child,
              S.Wire(toServer, toClient, childClient, childServer), past)
    }

    constructor ()
      ensures View() == S.INITIAL
    {
      cPhase, sPhase, greeted, passthrough, chosen := S.CGreeting, S.SGreeting, false, false, None;
      clientBuf, serverBuf, target, username, password, child := [], [], None, [], [], None;
      toServer, toClient, childClient, childServer := [], [], [], [];
      past := S.Past([], [], [], [], false, 0);
    }

    method OnClientData(data: seq<Byte>)
      modifies this
      ensures View() == S.OnClientData(old(View()), data)
    {
      hide S.ParseClient;
      if child.Some? {
        childClient := childClient + data;
        return;
      }
      if passthrough {
        toServer := toServer + data;
        return;
      }
      clientBuf := clientBuf + data;
      if |clientBuf| > S.MAX_HANDSHAKE_BUF {
        RelayRaw();
        return;
      }
      ParseClient();
    }

    method OnServerData(data: seq<Byte>)
      modifies this
      ensures View() == S.OnServerData(old(View()), data)
    {
      hide S.ParseServer;
      if child.Some? {
        childServer := childServer + data;
        return;
      }
      if passthrough {
        toClient := toClient + data;
        return;
      }
      serverBuf := serverBuf + data;
      if |serverBuf| > S.MAX_HANDSHAKE_BUF {
        RelayRaw();
        return;
      }
      ParseServer();
    }

    method RelayRaw()
      modifies this
      ensures View() == S.RelayRaw(old(View()))
    {
      passthrough, cPhase := true, S.CDone;
      FlushBuffers();
    }

    /** Sends on what is buffered, each way. */
    method FlushBuffers()
      modifies this
      ensures View() == S.Flushed(old(View()))
    {
      assert toServer + [] == toServer && toClient + [] == toClient;
      if clientBuf != [] {
        toServer, clientBuf := toServer + clientBuf, [];
      }
      if serverBuf != [] {
        toClient, serverBuf := toClient + serverBuf, [];
      }
    }

    method Establish()
      requires target.Some?
      modifies this
      ensures View() == S.Establish(old(View()))
    {
      hide S.Fed;
      cPhase, sPhase := S.CDone, S.SDone;
      child := Some(S.Tunnel(target.value, username, password));
      past := past.(children := past.children + 1);
      FeedChild();
    }

    /** Gives the child what is buffered, each way. */
    method FeedChild()
      modifies this
      ensures View() == S.Fed(old(View()))
    {
      assert childClient + [] == childClient && childServer + [] == childServer;
      if clientBuf != [] {
        childClient, clientBuf := childClient + clientBuf, [];
      }
      if serverBuf != [] {
        childServer, serverBuf := childServer + serverBuf, [];
      }
    }

    /** Relays the first `n` buffered bytes of the client. */
    method Forward(n: nat)
      requires n <= |clientBuf|
      modifies this`toServer, this`clientBuf
      ensures View() == S.Forward(old(View()), n)
    {
      toServer, clientBuf := toServer + clientBuf[..n], clientBuf[n..];
    }

    method Answer(n: nat)
      requires n <= |serverBuf|
      modifies this`toClient, this`serverBuf
      ensures View() == S.Answer(old(View()), n)
    {
      toClient, serverBuf := toClient + serverBuf[..n], serverBuf[n..];
    }

    method ParseClient()
      modifies this
      ensures View() == S.ParseClient(old(View()))
      decreases S.Rank(cPhase)
    {
      hide AuthSize, RequestSize, S.TakeGreeting, S.TakeAuth, S.TakeRequest, S.RelayRaw, S.Establish;
      if cPhase == S.CGreeting {
        if !greeted {
          if |clientBuf| < 2 {
            return;
          }
          var n: nat := 2 + clientBuf[1] as nat;
          if |clientBuf| < n {
            return;
          }
          TakeGreeting(n);
        }
        if chosen.Some? {
          cPhase := if chosen.value == METHOD_USER_PASS then S.CAuth else S.CRequest;
          ParseClient();
        }
      } else if cPhase == S.CAuth {
        ParseAuth();
      } else if cPhase == S.CRequest {
        ParseRequest();
      }
    }

    /** Takes the greeting, a message of `n` bytes. */
    method TakeGreeting(n: nat)
      requires n <= |clientBuf| && GreetingSize(clientBuf) == Exactly(n)
      modifies this
      ensures View() == S.TakeGreeting(old(View()))
    {
      hide GreetingSize;
      past := past.(hello := clientBuf[..n]);
      Forward(n);
      greeted := true;
    }

    method ParseAuth()
      requires cPhase == S.CAuth
      modifies this
      ensures View() == S.ParseClient(old(View()))
      decreases S.Rank(cPhase), 0
    {
      if |clientBuf| < 2 {
        return;
      }
      var ulen: nat := clientBuf[1];
      if |clientBuf| < 3 + ulen {
        return;
      }
      var plen: nat := clientBuf[2 + ulen];
      var total := 3 + ulen + plen;
      if |clientBuf| < total {
        return;
      }
      hide S.TakeAuth, S.RelayRaw, S.Establish;
      TakeAuth(ulen, total);
      ParseClient();
    }

    /** Takes the credentials, a message of `total` bytes. */
    method TakeAuth(ulen: nat, total: nat)
      requires 3 + ulen <= total <= |clientBuf| && AuthSize(clientBuf) == Exactly(total) && ulen == clientBuf[1]
      modifies this
      ensures View() == S.TakeAuth(old(View())) && cPhase == S.CRequest
    {
      hide AuthSize;
      var buf := clientBuf;
      Forward(total);
      username, password := buf[2..2 + ulen], buf[3 + ulen..total];
      past := past.(creds := buf[..total]);
      cPhase := S.CRequest;
    }

    method ParseRequest()
      requires cPhase == S.CRequest
      modifies this
      ensures View() == S.ParseClient(old(View()))
    {
      if |clientBuf| < 4 {
        return;
      }
      if clientBuf[0] != 5 || clientBuf[1] != 1 { // only CONNECT is decoded
        RelayRaw();
        return;
      }
      var atyp := clientBuf[3];
      var need: nat;
      if atyp == 1 {
        need := 4 + 4 + 2;
      } else if atyp == 4 {
        need := 4 + 16 + 2;
      } else if atyp == 3 {
        if |clientBuf| < 5 {
          return;
        }
        need := 4 + 1 + clientBuf[4] as nat + 2;
      } else {
        RelayRaw();
        return;
      }
      if |clientBuf| < need {
        return;
      }
      assert RequestSize(clientBuf) == Exactly(need);
      hide RequestSize, MessageSize, TargetOf;
      TakeRequest(need);
      if sPhase == S.SDone {
        Establish();
      }
    }

    method TakeRequest(need: nat)
      requires need <= |clientBuf| && RequestSize(clientBuf) == Exactly(need)
      modifies this
      ensures View() == S.TakeRequest(old(View())) && sPhase == old(sPhase)
    {
      var msg := clientBuf[..need];
      SizesOfMessage(clientBuf, need);
      past := past.(connect := msg);
      Forward(need);
      target := Some(TargetOf(msg));
      cPhase := S.CDone;
    }

    method ParseServer()
      modifies this
      ensures View() == S.ParseServer(old(View()))
    {
      if sPhase == S.SGreeting {
        ParseChoice();
      } else if sPhase == S.SAuth {
        ParseStatus();
      } else if sPhase == S.SRequest {
        ParseReply();
      }
    }

    method ParseChoice()
      requires sPhase == S.SGreeting
      modifies this
      ensures View() == S.ParseServer(old(View()))
    {
      hide S.ParseClient, S.TakeStatus, S.TakeReply, S.TakeChoice, MessageSize;
      if |serverBuf| < 2 {
        return;
      }
      if serverBuf[0] != 5 {
        sPhase := S.SDone;
        return;
      }
      var m := serverBuf[1];
      TakeChoice(m);
      if m == METHOD_NO_ACCEPTABLE || (m != METHOD_NONE && m != METHOD_USER_PASS) {
        sPhase := S.SDone;
        return;
      }
      sPhase := if m == METHOD_USER_PASS then S.SAuth else S.SRequest;
      cPhase := if m == METHOD_USER_PASS then S.CAuth else S.CRequest;
      ParseClient();
    }

    /** Takes the two bytes that choose method `m`. */
    method TakeChoice(m: Byte)
      requires |serverBuf| >= 2 && m == serverBuf[1]
      modifies this
      ensures View() == S.TakeChoice(old(View()))
    {
      chosen := Some(m);
      Answer(2);
    }

    method ParseStatus()
      requires sPhase == S.SAuth
      modifies this
      ensures View() == S.ParseServer(old(View()))
    {
      hide S.ParseClient, S.TakeMethod, S.TakeReply, MessageSize;
      if |serverBuf| < 2 {
        return;
      }
      if serverBuf[0] != 1 {
        sPhase := S.SDone;
        return;
      }
      var status := serverBuf[1];
      Answer(2);
      if status != 0 {
        sPhase := S.SDone;
        return;
      }
      sPhase := S.SRequest;
      ParseClient();
    }

    method ParseReply()
      requires sPhase == S.SRequest
      modifies this
      ensures View() == S.ParseServer(old(View()))
    {
      if |serverBuf| < 4 {
        return;
      }
      if serverBuf[0] != 5 {
        sPhase := S.SDone;
        return;
      }
      var atyp := serverBuf[3];
      var need: nat;
      if atyp == 1 {
        need := 4 + 4 + 2;
      } else if atyp == 4 {
        need := 4 + 16 + 2;
      } else if atyp == 3 {
        if |serverBuf| < 5 {
          return;
        }
        need := 4 + 1 + serverBuf[4] as nat + 2;
      } else {
        sPhase := S.SDone;
        return;
      }
      if |serverBuf| < need {
        return;
      }
      var rep := serverBuf[1];
      past := past.(reply := serverBuf[..need], granted := rep == 0);
      Answer(need);
      sPhase := S.SDone;
      if rep == 0 && target.Some? {
        Establish();
      }
    }
  }
}
