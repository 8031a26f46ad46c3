/**
  The SOCKS5 messages the relay recognises: sections 3, 4 and 6 of RFC 1928 and section 2
  of RFC 1929, as bytes, and how long a message at the front of a buffer is.
 */
module SocksWire {
  import opened Bytes

  const METHOD_NONE: Byte := 0x00
  const METHOD_USER_PASS: Byte := 0x02
  const METHOD_NO_ACCEPTABLE: Byte := 0xff

  datatype Address = IPv4(raw: seq<Byte>) | IPv6(raw: seq<Byte>) | Domain(raw: seq<Byte>)

  datatype Target = Target(address: Address, port: nat)

  predicate TargetOk(t: Target) {
    && t.port < 0x1_0000
    && match t.address
       case IPv4(raw) => |raw| == 4
       case IPv6(raw) => |raw| == 16
       case Domain(raw) => |raw| < 256
  }

  function EncodeGreeting(ver: Byte, methods: seq<Byte>): seq<Byte>
    requires |methods| < 256
  {
    [ver, |methods|] + methods
  }

  function EncodeAuth(ver: Byte, username: seq<Byte>, password: seq<Byte>): seq<Byte>
    requires |username| < 256 && |password| < 256
  {
    [ver, |username|] + username + [|password|] + password
  }

  function EncodeAddress(a: Address): seq<Byte>
    requires a.Domain? ==> |a.raw| < 256
  {
    match a
    case IPv4(raw) => [1] + raw
    case IPv6(raw) => [4] + raw
    case Domain(raw) => [3, |raw|] + raw
  }

  /** A CONNECT request, and with the bound address a reply to one. */
  function EncodeMessage(code: Byte, reserved: Byte, t: Target): seq<Byte>
    requires TargetOk(t)
  {
    [5, code, reserved] + EncodeAddress(t.address) + [t.port / 256, t.port % 256]
  }

  /** How much of a buffer the message at its front takes, when that can be told. */
  datatype Size = Unknown | Foreign | Exactly(n: nat)

  /** A request or reply, by its address type. */
  function MessageSize(buf: seq<Byte>): (r: Size)
    ensures r.Exactly? ==> 7 <= r.n
  {
    if |buf| < 4 then Unknown
    else if buf[0] != 5 then Foreign
    else if buf[3] == 1 then Exactly(10)
    else if buf[3] == 4 then Exactly(22)
    else if buf[3] == 3 then (if |buf| < 5 then Unknown else Exactly(7 + buf[4] as nat))
    else Foreign
  }

  /** A request that is decoded: CONNECT only. */
  function RequestSize(buf: seq<Byte>): (r: Size)
    ensures r.Exactly? ==> 7 <= r.n
  {
    if |buf| >= 4 && (buf[0] != 5 || buf[1] != 1) then Foreign else MessageSize(buf)
  }

  function GreetingSize(buf: seq<Byte>): (r: Size)
    ensures r.Exactly? ==> 2 <= r.n
  {
    if |buf| < 2 then Unknown else Exactly(2 + buf[1] as nat)
  }

  function AuthSize(buf: seq<Byte>): (r: Size)
    ensures r.Exactly? ==> |buf| >= 2 && |buf| > 2 + buf[1] as nat && 3 + buf[1] as nat <= r.n
  {
    if |buf| < 2 then Unknown
    else
      var ulen: nat := buf[1];
      if |buf| < 3 + ulen then Unknown else Exactly(3 + ulen + buf[2 + ulen] as nat)
  }

  /** All of a message of that size is in the buffer. */
  predicate Holds(buf: seq<Byte>, size: Size) {
    size.Exactly? && size.n <= |buf|
  }

  /** The target that a complete request names. */
  function TargetOf(msg: seq<Byte>): (t: Target)
    requires MessageSize(msg) == Exactly(|msg|)
    ensures TargetOk(t)
  {
    var raw := msg[(if msg[3] == 3 then 5 else 4)..|msg| - 2];
    Target(if msg[3] == 1 then IPv4(raw) else if msg[3] == 4 then IPv6(raw) else Domain(raw),
           256 * msg[|msg| - 2] as int + msg[|msg| - 1] as int)
  }

  /** A size once known does not change as more bytes arrive. */
  lemma SizesStable(buf: seq<Byte>, more: seq<Byte>)
    ensures !GreetingSize(buf).Unknown? ==> GreetingSize(buf + more) == GreetingSize(buf)
    ensures !AuthSize(buf).Unknown? ==> AuthSize(buf + more) == AuthSize(buf)
    ensures !MessageSize(buf).Unknown? ==> MessageSize(buf + more) == MessageSize(buf)
    ensures !RequestSize(buf).Unknown? ==> RequestSize(buf + more) == RequestSize(buf)
  {}

  lemma SizesOfMessage(buf: seq<Byte>, n: nat)
    requires n <= |buf|
    ensures MessageSize(buf) == Exactly(n) ==> MessageSize(buf[..n]) == Exactly(n)
  {}

  lemma GreetingIsEncoded(msg: seq<Byte>)
    requires GreetingSize(msg) == Exactly(|msg|)
    ensures msg == EncodeGreeting(msg[0], msg[2..])
  {}

  lemma AuthIsEncoded(msg: seq<Byte>)
    requires AuthSize(msg) == Exactly(|msg|)
    ensures msg == EncodeAuth(msg[0], msg[2..2 + msg[1] as nat], msg[3 + msg[1] as nat..])
  {
    var u: nat := msg[1];
    assert msg == msg[..2] + msg[2..2 + u] + msg[2 + u..3 + u] + msg[3 + u..];
  }

  lemma MessageIsEncoded(msg: seq<Byte>)
    requires MessageSize(msg) == Exactly(|msg|)
    ensures msg == EncodeMessage(msg[1], msg[2], TargetOf(msg))
  {
    var t := TargetOf(msg);
    var at := if msg[3] == 3 then 5 else 4;
    assert msg[..3] == [5, msg[1], msg[2]];
    assert msg[3..|msg| - 2] == EncodeAddress(t.address);
    assert msg[|msg| - 2..] == [t.port / 256, t.port % 256];
    assert msg == msg[..3] + msg[3..|msg| - 2] + msg[|msg| - 2..];
  }

  /** The other way round: an encoded request is one message, and names its target. */
  lemma EncodedMessageIsRead(code: Byte, reserved: Byte, t: Target, rest: seq<Byte>)
    requires TargetOk(t)
    ensures var msg := EncodeMessage(code, reserved, t);
      MessageSize(msg + rest) == Exactly(|msg|) && MessageSize(msg) == Exactly(|msg|) && TargetOf(msg) == t
  {
    var msg := EncodeMessage(code, reserved, t);
    var at := if t.address.Domain? then 5 else 4;
    assert msg[at..|msg| - 2] == t.address.raw;
    assert msg[3] == EncodeAddress(t.address)[0];
  }

  /** A client's first bytes look like SOCKS5. */
  function LooksLikeSocks5(data: seq<Byte>): bool {
    if |data| < 2 || data[0] != 5 then false
    else
      var n: nat := data[1];
      if n == 0 || |data| < 2 + n then false else METHOD_NO_ACCEPTABLE !in data[2..2 + n]
  }

  /** That is: a whole greeting that offers something, and no reply-only method, comes first. */
  lemma LooksLikeMeans(data: seq<Byte>)
    ensures LooksLikeSocks5(data) <==>
            exists methods: seq<Byte>, rest: seq<Byte> ::
              && 0 < |methods| < 256 && 0xff !in methods
              && data == EncodeGreeting(5, methods) + rest
  {
    if LooksLikeSocks5(data) {
      var n: nat := data[1];
      assert data == EncodeGreeting(5, data[2..2 + n]) + data[2 + n..];
    }
    forall methods: seq<Byte>, rest: seq<Byte>
      | 0 < |methods| < 256 && METHOD_NO_ACCEPTABLE !in methods && data == EncodeGreeting(5, methods) + rest
      ensures LooksLikeSocks5(data)
    {
      assert data[2..2 + |methods|] == methods;
    }
  }
}
