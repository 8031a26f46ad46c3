/**
  The MAX decoder: frames of a connection's two directions become messages. A session keeps
  the unfinished frame of each direction between feeds; what it emits for a direction
  depends only on the bytes of that direction, not on how or when they arrived.

  Two libraries stand behind it, zstd and a MessagePack decoder. They are parameters here,
  and the MessagePack one is partial: it may be called only on what is safe to decode.
 */
module MaxDecoder {
  import opened Bytes
  import opened Lists
  import opened Framing
  import MsgPack
  import Lz4

  const MAX_BODY := 0x80_0000 // 8 MiB

  datatype Zstd = Inflated(bytes: seq<Byte>) | TooLarge | Corrupt

  /** What decoding a body as MessagePack gives: nothing, a value JSON cannot hold, or its JSON. */
  datatype Decoded = Undecodable | NoJson | AsJson(text: seq<Byte>)

  datatype Libraries = Libraries(zstd: seq<Byte> -> Zstd, decode: seq<Byte> --> Decoded)

  /** Short enough, and one whole MessagePack value nested within the bound. */
  ghost predicate SafeToDecode(b: seq<Byte>) {
    |b| <= 0x80_0000 && MsgPack.IsValue(b)
  }

  ghost predicate Usable(libs: Libraries) {
    forall b: seq<Byte> :: SafeToDecode(b) ==> libs.decode.requires(b)
  }

  /** The bound, if any, that kept a frame from being decoded. */
  datatype Limit = NoLimit | PastCap | BodyTooLong | NestedTooDeep

  datatype Payload = Ack | Json(text: seq<Byte>) | Raw(bytes: seq<Byte>)

  datatype Message = Message(fromClient: bool, ver: Byte, cmd: Byte, number: nat, opcode: nat,
                             payload: Payload, limit: Limit)

  // ---- one frame ----

  datatype Inflation = Body(bytes: seq<Byte>) | Failed(tooLarge: bool)

  /** A frame's body, decompressed as its flag byte says. */
  function Inflate(libs: Libraries, body: seq<Byte>, flag: Byte): Inflation {
    if |body| == 0 || flag == 0 then Body(body)
    else if flag == 0xff then
      match libs.zstd(body)
      case Inflated(bytes) => Body(bytes)
      case TooLarge => Failed(true)
      case Corrupt => Failed(false)
    else
      var r := Lz4.Decompressed(body, 0, []);
      if r.capped then Failed(true) else if |r.out| == 0 then Failed(false) else Body(r.out)
  }

  function VerdictOn(b: seq<Byte>): MsgPack.Verdict {
    MsgPack.Walk(b, 0, Cons(1, Nil))
  }

  /** One attempt at decoding: the library sees only what is safe. */
  function Attempt(libs: Libraries, b: seq<Byte>): Decoded
    requires Usable(libs)
  {
    if |b| <= MAX_BODY && VerdictOn(b) == MsgPack.Accept then
      MsgPack.VerdictMeans(b);
      libs.decode(b)
    else Undecodable
  }

  /** How a body decodes: `skipped` service bytes, then a value; or not, for the reason given. */
  datatype Unpacked = Found(skipped: nat, value: Decoded) | Missing(limit: Limit)

  /** The offsets that are tried, in order. */
  predicate Tried(body: seq<Byte>, off: nat) {
    off <= 4 && off < |body|
  }

  /** What unpacking a body means: the first offset that decodes, or the bound that stopped them all. */
  ghost predicate UnpacksTo(libs: Libraries, body: seq<Byte>, u: Unpacked)
    requires Usable(libs)
  {
    if |body| > MAX_BODY then u == Missing(BodyTooLong)
    else match u
      case Found(off, value) =>
        && Tried(body, off) && value == Attempt(libs, body[off..]) && value != Undecodable
        && forall k: nat | k < off :: Attempt(libs, body[k..]) == Undecodable
      case Missing(limit) =>
        && (forall k: nat | Tried(body, k) :: Attempt(libs, body[k..]) == Undecodable)
        && (limit == NestedTooDeep || limit == NoLimit)
        && (limit == NestedTooDeep <==> exists k: nat :: Tried(body, k) && MsgPack.RunsTooDeep(body[k..]))
  }

  /** The message that one frame becomes. */
  function FrameMessage(libs: Libraries, frame: seq<Byte>, fromClient: bool): (m: Message)
    requires Usable(libs) && IsFrame(frame)
    ensures m.fromClient == fromClient
  {
    var body := frame[HEADER_LEN..];
    var made := if |body| == 0 then (Ack, NoLimit) else BodyPayload(libs, body, frame[6]);
    Message(fromClient, frame[0], frame[1], BigEndian(frame[2..4]), BigEndian(frame[4..6]), made.0, made.1)
  }

  function BodyPayload(libs: Libraries, body: seq<Byte>, flag: Byte): (Payload, Limit)
    requires Usable(libs)
  {
    match Inflate(libs, body, flag)
    case Failed(tooLarge) => (Raw(body), if tooLarge then PastCap else NoLimit)
    case Body(bytes) =>
      match Unpack(libs, bytes)
      case Found(_, AsJson(text)) => (Json(text), NoLimit)
      case Found(_, _) => (Raw(bytes), NoLimit)
      case Missing(limit) => (Raw(bytes), limit)
  }

  function Unpack(libs: Libraries, body: seq<Byte>): (u: Unpacked)
    requires Usable(libs)
    ensures u.Missing? ==> u.limit != PastCap
  {
    if |body| > MAX_BODY then Missing(BodyTooLong) else UnpackFrom(libs, body, 0, false)
  }

  function UnpackFrom(libs: Libraries, body: seq<Byte>, off: nat, deep: bool): (u: Unpacked)
    requires Usable(libs)
    ensures u.Missing? ==> u.limit != PastCap
    decreases 5 - off
  {
    if !Tried(body, off) then Missing(if deep then NestedTooDeep else NoLimit)
    else if Attempt(libs, body[off..]) != Undecodable then Found(off, Attempt(libs, body[off..]))
    else UnpackFrom(libs, body, off + 1, deep || VerdictOn(body[off..]) == MsgPack.TooDeep)
  }

  lemma {:induction false} UnpackFromMeans(libs: Libraries, body: seq<Byte>, off: nat, deep: bool)
    requires Usable(libs) && |body| <= MAX_BODY && (Tried(body, off) || off == 0 || Tried(body, off - 1))
    requires forall k: nat | k < off :: Attempt(libs, body[k..]) == Undecodable
    requires deep <==> exists k: nat :: k < off && Tried(body, k) && MsgPack.RunsTooDeep(body[k..])
    ensures UnpacksTo(libs, body, UnpackFrom(libs, body, off, deep))
    decreases 5 - off
  {
    hide MsgPack.RunsTooDeep, MsgPack.IsValue;
    if Tried(body, off) {
      MsgPack.VerdictMeans(body[off..]);
      if Attempt(libs, body[off..]) == Undecodable {
        UnpackFromMeans(libs, body, off + 1, deep || VerdictOn(body[off..]) == MsgPack.TooDeep);
      }
    }
  }

  /** Unpacking finds the first offset that decodes, and else names the bound that was hit, and only then. */
  lemma UnpackMeans(libs: Libraries, body: seq<Byte>, u: Unpacked)
    requires Usable(libs)
    ensures u == Unpack(libs, body) <==> UnpacksTo(libs, body, u)
  {
    hide MsgPack.RunsTooDeep;
    if |body| <= MAX_BODY {
      UnpackFromMeans(libs, body, 0, false);
    }
  }

  /** A frame made from its fields becomes a message with those fields; only a frame without a body is an ack. */
  lemma FieldsAreRead(libs: Libraries, ver: Byte, cmd: Byte, number: nat, opcode: nat, flag: Byte, body: seq<Byte>,
                      fromClient: bool)
    requires Usable(libs) && number < 0x1_0000 && opcode < 0x1_0000 && |body| < 0x100_0000
    ensures var f := EncodeFrame(ver, cmd, number, opcode, flag, body);
      && IsFrame(f)
      && var m := FrameMessage(libs, f, fromClient);
      && m.fromClient == fromClient && m.ver == ver && m.cmd == cmd && m.number == number && m.opcode == opcode
      && (m.payload.Ack? <==> body == [])
      && (flag == 0 && m.payload.Raw? ==> m.payload.bytes == body)
  {
    hide EncodeFrame, IsFrame, Unpack, BigEndian;
    EncodedIsFrame(ver, cmd, number, opcode, flag, body);
  }

  /** A spelled block inflates to what it means; past the cap it is too large, and nothing is no body. */
  lemma BlockInflates(libs: Libraries, flag: Byte, seqs: List<Lz4.Sequence>, last: seq<Byte>, low: nat)
    requires flag != 0 && flag != 0xff && low < 16 && Lz4.WellFormed(0, seqs)
    ensures Inflate(libs, Lz4.EncodeBlock(seqs, last, low), flag) ==
            if !Lz4.MatchesFit(0, seqs) then Failed(true)
            else if Lz4.Meaning([], seqs, last) == [] then Failed(false)
            else Body(Lz4.Meaning([], seqs, last))
  {
    hide Lz4.WellFormed, Lz4.MatchesFit, Lz4.EncodeBlock, Lz4.Decompressed, Lz4.Meaning;
    Lz4.RoundTrip(seqs, last, low);
  }

  /** So a compressed frame says what the frame of the same body without compression says. */
  lemma CompressionIsTransparent(libs: Libraries, flag: Byte, seqs: List<Lz4.Sequence>, last: seq<Byte>, low: nat,
                                 fields: seq<Byte>, fromClient: bool)
    requires Usable(libs) && |fields| == 6 && flag != 0 && flag != 0xff && low < 16
    requires Lz4.WellFormed(0, seqs) && Lz4.MatchesFit(0, seqs) && Lz4.Meaning([], seqs, last) != []
    requires |Lz4.EncodeBlock(seqs, last, low)| < 0x100_0000 && |Lz4.Meaning([], seqs, last)| < 0x100_0000
    ensures var number, opcode := BigEndian(fields[2..4]), BigEndian(fields[4..6]);
      && number < 0x1_0000 && opcode < 0x1_0000
      && var packed := EncodeFrame(fields[0], fields[1], number, opcode, flag, Lz4.EncodeBlock(seqs, last, low));
         var plain := EncodeFrame(fields[0], fields[1], number, opcode, 0, Lz4.Meaning([], seqs, last));
      && IsFrame(packed) && IsFrame(plain)
      && FrameMessage(libs, packed, fromClient) == FrameMessage(libs, plain, fromClient)
  {
    Widths();
    hide EncodeFrame, IsFrame, Unpack, BigEndian, Inflate, Lz4.WellFormed, Lz4.MatchesFit, Lz4.EncodeBlock, Lz4.Meaning;
    var number, opcode := BigEndian(fields[2..4]), BigEndian(fields[4..6]);
    var block, body := Lz4.EncodeBlock(seqs, last, low), Lz4.Meaning([], seqs, last);
    EncodedIsFrame(fields[0], fields[1], number, opcode, flag, block);
    EncodedIsFrame(fields[0], fields[1], number, opcode, 0, body);
    BlockInflates(libs, flag, seqs, last, low);
    PlainInflates(libs, body);
  }

  lemma PlainInflates(libs: Libraries, body: seq<Byte>)
    ensures Inflate(libs, body, 0) == Body(body)
  {}

  /** Nothing is lost: a payload kept raw is the frame's body, as it came or decompressed. */
  lemma RawKeepsTheBody(libs: Libraries, frame: seq<Byte>, fromClient: bool)
    requires Usable(libs) && IsFrame(frame)
    ensures var m, body := FrameMessage(libs, frame, fromClient), frame[HEADER_LEN..];
      && (m.payload.Ack? <==> body == [])
      && (m.payload.Raw? && m.payload.bytes != body ==> Inflate(libs, body, frame[6]) == Body(m.payload.bytes))
      && (m.limit == PastCap <==> body != [] && Inflate(libs, body, frame[6]) == Failed(true))
      && (m.limit != NoLimit ==> m.payload.Raw?)
  {
    hide Inflate, Unpack, FrameLength;
  }

  /** A decoded payload comes from one safe value behind at most four service bytes of the body. */
  lemma JsonComesFromOneValue(libs: Libraries, frame: seq<Byte>, fromClient: bool)
    returns (body: seq<Byte>, skipped: nat)
    requires Usable(libs) && IsFrame(frame) && FrameMessage(libs, frame, fromClient).payload.Json?
    ensures Inflate(libs, frame[HEADER_LEN..], frame[6]) == Body(body)
    ensures skipped <= 4 && skipped <= |body| && SafeToDecode(body[skipped..])
    ensures libs.decode(body[skipped..]) == AsJson(FrameMessage(libs, frame, fromClient).payload.text)
  {
    match Inflate(libs, frame[HEADER_LEN..], frame[6])
    case Failed(_) =>
    case Body(bytes) =>
      body := bytes;
      var u := Unpack(libs, body);
      UnpackMeans(libs, body, u);
      skipped := u.skipped;
      MsgPack.VerdictMeans(body[skipped..]);
  }

  /** Decompresses a frame's body. */
  method DecompressBody(libs: Libraries, body: seq<Byte>, flag: Byte) returns (r: Inflation)
    ensures r == Inflate(libs, body, flag)
  {
    if |body| == 0 || flag == 0 {
      return Body(body);
    }
    if flag == 0xff {
      return match libs.zstd(body)
        case Inflated(bytes) => Body(bytes)
        case TooLarge => Failed(true)
        case Corrupt => Failed(false);
    }
    var out, capped := Lz4.Lz4BlockDecompress(body);
    return if capped then Failed(true) else if |out| == 0 then Failed(false) else Body(out);
  }

  /** Tries to decode behind nought to four service bytes. */
  method UnpackMsgpack(libs: Libraries, body: seq<Byte>) returns (u: Unpacked)
    requires Usable(libs)
    ensures UnpacksTo(libs, body, u)
  {
    hide MsgPack.RunsTooDeep, Attempt;
    if |body| > MAX_BODY {
      return Missing(BodyTooLong);
    }
    var deep, off := false, 0;
    while off <= 4 && off < |body|
      invariant off <= 5 && off <= |body|
      invariant forall k: nat | k < off :: Attempt(libs, body[k..]) == Undecodable
      invariant deep <==> exists k: nat :: k < off && Tried(body, k) && MsgPack.RunsTooDeep(body[k..])
    {
      var value, tooDeep := DecodeMsgpackAt(libs, body[off..]);
      if value != Undecodable {
        return Found(off, value);
      }
      deep := deep || tooDeep;
      off := off + 1;
    }
    return Missing(if deep then NestedTooDeep else NoLimit);
  }

  method DecodeMsgpackAt(libs: Libraries, b: seq<Byte>) returns (value: Decoded, tooDeep: bool)
    requires Usable(libs)
    ensures value == Attempt(libs, b)
    ensures value == Undecodable && |b| <= MAX_BODY ==> (tooDeep <==> MsgPack.RunsTooDeep(b))
  {
    hide MsgPack.RunsTooDeep;
    MsgPack.VerdictMeans(b);
    if |b| > MAX_BODY {
      return Undecodable, false;
    }
    var ok, deep := MsgPack.MsgpackSane(b);
    if !ok {
      return Undecodable, deep;
    }
    return libs.decode(b), false;
  }

  /** Decodes one frame. */
  method DecodeFrame(libs: Libraries, frame: seq<Byte>, fromClient: bool) returns (m: Message)
    requires Usable(libs) && IsFrame(frame)
    ensures m == FrameMessage(libs, frame, fromClient)
  {
    var body := frame[HEADER_LEN..];
    m := Message(fromClient, frame[0], frame[1], BigEndian(frame[2..4]), BigEndian(frame[4..6]), Ack, NoLimit);
    if |body| == 0 {
      return;
    }
    var inflated := DecompressBody(libs, body, frame[6]);
    if inflated.Failed? {
      return m.(payload := Raw(body), limit := if inflated.tooLarge then PastCap else NoLimit);
    }
    var u := UnpackMsgpack(libs, inflated.bytes);
    UnpackMeans(libs, inflated.bytes, u);
    if u.Found? && u.value.AsJson? {
      m := m.(payload := Json(u.value.text));
    } else {
      m := m.(payload := Raw(inflated.bytes), limit := if u.Missing? then u.limit else NoLimit);
    }
  }

  // ---- a connection ----

  /** The messages of frames in order. */
  function FrameMessages(libs: Libraries, frames: seq<seq<Byte>>, fromClient: bool): (ms: seq<Message>)
    requires Usable(libs) && forall f <- frames :: IsFrame(f)
    ensures |ms| == |frames|
  {
    seq(|frames|, k requires 0 <= k < |frames| => FrameMessage(libs, frames[k], fromClient))
  }

  /** What one direction's whole stream amounts to. */
  function StreamMessages(libs: Libraries, stream: seq<Byte>, fromClient: bool): seq<Message>
    requires Usable(libs)
  {
    SplitIsSplit(stream);
    FrameMessages(libs, SplitFrames(stream).frames, fromClient)
  }

  /** The log after one more message: its bound is added unless it is there already. */
  function LogOne(log: seq<Limit>, m: Message): seq<Limit> {
    if m.limit == NoLimit || m.limit in log then log else log + [m.limit]
  }

  function LogAll(log: seq<Limit>, ms: seq<Message>): seq<Limit>
    decreases |ms|
  {
    if ms == [] then log else LogAll(LogOne(log, ms[0]), ms[1..])
  }

  lemma {:induction false} LogAllSnoc(log: seq<Limit>, ms: seq<Message>, m: Message)
    ensures LogAll(log, ms + [m]) == LogOne(LogAll(log, ms), m)
    decreases |ms|
  {
    if ms == [] {
      assert LogAll(LogOne(log, m), []) == LogOne(log, m);
    } else {
      assert (ms + [m])[1..] == ms[1..] + [m];
      LogAllSnoc(LogOne(log, ms[0]), ms[1..], m);
    }
  }

  predicate Distinct<T(==)>(s: seq<T>) {
    forall i, j | 0 <= i < j < |s| :: s[i] != s[j]
  }

  /** Each bound is logged once, however many messages run into it, and no other is logged. */
  lemma {:induction false} EachLimitLoggedOnce(log: seq<Limit>, ms: seq<Message>)
    requires Distinct(log)
    ensures Distinct(LogAll(log, ms)) && log <= LogAll(log, ms)
    ensures forall l :: l in LogAll(log, ms) <==> l in log || (l != NoLimit && exists m <- ms :: m.limit == l)
    decreases |ms|
  {
    if ms != [] {
      var m, next := ms[0], LogOne(log, ms[0]);
      EachLimitLoggedOnce(next, ms[1..]);
      assert ms == [m] + ms[1..];
    }
  }

  class Session {
    const libs: Libraries
    var bufs: map<bool, seq<Byte>>   // direction -> bytes of an unfinished frame
    var logged: set<Limit>
    var log: seq<Limit>              // the lines logged, by the bound they name
    ghost var fromClient: seq<Byte>  // everything fed so far
    ghost var fromServer: seq<Byte>

    ghost function Fed(client: bool): seq<Byte>
      reads this
    {
      if client then fromClient else fromServer
    }

    function Pending(client: bool): seq<Byte>
      reads this
    {
      if client in bufs then bufs[client] else []
    }

    ghost predicate Valid()
      reads this
    {
      && Usable(libs)
      && (forall d: bool :: Pending(d) == SplitFrames(Fed(d)).rest)
      && (forall l :: l in logged <==> l in log)
      && Distinct(log)
    }

    constructor (libs: Libraries)
      requires Usable(libs)
      ensures Valid() && this.libs == libs && fromClient == [] && fromServer == [] && log == []
    {
      this.libs := libs;
      bufs, logged, log := map[], {}, [];
      fromClient, fromServer := [], [];
    }

    /** Takes newly arrived bytes of one direction and returns the messages they complete. */
    method Feed(client: bool, data: seq<Byte>) returns (out: seq<Message>)
      requires Valid()
      modifies this
      ensures Valid()
      ensures Fed(client) == old(Fed(client)) + data && Fed(!client) == old(Fed(!client))
      ensures StreamMessages(libs, Fed(client), client) == old(StreamMessages(libs, Fed(client), client)) + out
      ensures log == LogAll(old(log), out)
    {
      hide FrameMessage, StreamMessages, LogAll, IsFrame, SplitFrames;
      SplitIsSplit(Pending(client) + data);
      SplitAppend(Fed(client), data);
      var rest;
      out, rest := TakeFrames(Pending(client) + data, client);
      EachLimitLoggedOnce(old(log), out);
      bufs := bufs[client := rest];
      Continued(libs, Fed(client), data, client, out);
      if client { fromClient := fromClient + data; } else { fromServer := fromServer + data; }
      assert Pending(client) == SplitFrames(Fed(client)).rest && Pending(!client) == old(Pending(!client));
    }

    /** Decodes the complete frames of `whole`, in order, up to the unfinished rest. */
    method TakeFrames(whole: seq<Byte>, client: bool) returns (out: seq<Message>, buf: seq<Byte>)
      requires Usable(libs) && forall l :: l in logged <==> l in log
      modifies this`logged, this`log
      ensures buf == SplitFrames(whole).rest && |out| == |SplitFrames(whole).frames|
      ensures forall f <- SplitFrames(whole).frames :: IsFrame(f)
      ensures forall k | 0 <= k < |out| :: out[k] == FrameMessage(libs, SplitFrames(whole).frames[k], client)
      ensures log == LogAll(old(log), out)
      ensures forall l :: l in logged <==> l in log
    {
      hide FrameMessage, IsFrame;
      ghost var frames := SplitFrames(whole).frames;
      SplitIsSplit(whole);
      buf, out := whole, [];
      var next := NextFrame(buf);
      while next.Some?
        invariant next == NextFrame(buf)
        invariant |out| <= |frames| && SplitFrames(buf) == Split(frames[|out|..], SplitFrames(whole).rest)
        invariant forall k | 0 <= k < |out| :: out[k] == FrameMessage(libs, frames[k], client)
        invariant log == LogAll(old(log), out)
        invariant forall l :: l in logged <==> l in log
        decreases |buf|
      {
        var (frame, rest) := next.value;
        assert frames[|out|..] == [frame] + SplitFrames(rest).frames;
        buf := rest;
        var m := DecodeFrame(libs, frame, client);
        LogAllSnoc(old(log), out, m);
        LogLimit(m);
        out := out + [m];
        next := NextFrame(buf);
      }
    }

    /** Logs the bound a message ran into, once per bound per connection. */
    method LogLimit(m: Message)
      requires forall l :: l in logged <==> l in log
      modifies this`logged, this`log
      ensures log == LogOne(old(log), m)
      ensures forall l :: l in logged <==> l in log
    {
      if m.limit == NoLimit || m.limit in logged {
        return;
      }
      logged := logged + {m.limit};
      log := log + [m.limit];
    }
  }

  /** What new bytes complete is what the stream's messages gain. */
  lemma Continued(libs: Libraries, stream: seq<Byte>, data: seq<Byte>, client: bool, out: seq<Message>)
    requires Usable(libs)
    requires var frames := SplitFrames(SplitFrames(stream).rest + data).frames;
      && |out| == |frames| && (forall f <- frames :: IsFrame(f))
      && forall k | 0 <= k < |out| :: out[k] == FrameMessage(libs, frames[k], client)
    ensures StreamMessages(libs, stream + data, client) == StreamMessages(libs, stream, client) + out
  {
    hide FrameMessage, IsFrame, SplitFrames;
    SplitAppend(stream, data);
    SplitIsSplit(stream);
    SplitIsSplit(stream + data);
  }

  // ---- a whole connection at once ----

  /** One directional chunk of a connection. */
  datatype Turn = Turn(fromClient: bool, data: seq<Byte>)

  /** Everything one direction carries over the turns, in order. */
  function Stream(turns: seq<Turn>, client: bool): seq<Byte> {
    if turns == [] then []
    else
      var front, last := turns[..|turns| - 1], turns[|turns| - 1];
      Stream(front, client) + if last.fromClient == client then last.data else []
  }

  /** The messages of one direction, in order. */
  function Of(ms: seq<Message>, client: bool): seq<Message> {
    if ms == [] then []
    else if ms[|ms| - 1].fromClient == client then Of(ms[..|ms| - 1], client) + [ms[|ms| - 1]]
    else Of(ms[..|ms| - 1], client)
  }

  lemma {:induction false} OfAppend(a: seq<Message>, b: seq<Message>, client: bool, d: bool)
    requires forall m <- b :: m.fromClient == client
    ensures Of(a + b, d) == if d == client then Of(a, d) + b else Of(a, d)
    decreases |b|
  {
    if b == [] {
      assert a + b == a && Of(a, d) + b == Of(a, d);
    } else {
      var front, last := b[..|b| - 1], b[|b| - 1];
      assert (a + b)[..|a + b| - 1] == a + front;
      OfAppend(a, front, client, d);
      assert Of(a, d) + front + [last] == Of(a, d) + b;
    }
  }

  /** Each direction's messages in `out` are those of its stream's frames. */
  ghost predicate DecodedApart(libs: Libraries, turns: seq<Turn>, out: seq<Message>)
    requires Usable(libs)
  {
    forall d: bool :: Of(out, d) == StreamMessages(libs, Stream(turns, d), d)
  }

  /**
    Besides, `out` grows with the turns: after each of them, the messages so far are exactly
    those that the turns so far complete.
   */
  ghost predicate DecodedInOrder(libs: Libraries, turns: seq<Turn>, out: seq<Message>)
    requires Usable(libs)
  {
    forall k | 0 <= k <= |turns| :: DecodedBy(libs, turns[..k], out)
  }

  /** The first so many of `out` are what these turns decode to. */
  ghost predicate DecodedBy(libs: Libraries, turns: seq<Turn>, out: seq<Message>)
    requires Usable(libs)
  {
    exists n | 0 <= n <= |out| :: DecodedApart(libs, turns, out[..n])
  }

  lemma DecodedAlready(libs: Libraries, turns: seq<Turn>, out: seq<Message>, more: seq<Message>)
    requires Usable(libs)
    ensures DecodedBy(libs, turns, out) ==> DecodedBy(libs, turns, out + more)
    ensures DecodedApart(libs, turns, out + more) ==> DecodedBy(libs, turns, out + more)
  {
    hide DecodedApart;
    var whole := out + more;
    assert whole[..|whole|] == whole;
    if DecodedBy(libs, turns, out) {
      var n :| 0 <= n <= |out| && DecodedApart(libs, turns, out[..n]);
      assert whole[..n] == out[..n];
    }
  }

  lemma InOrderMore(libs: Libraries, turns: seq<Turn>, t: Turn, out: seq<Message>, more: seq<Message>)
    requires Usable(libs) && DecodedInOrder(libs, turns, out) && DecodedApart(libs, turns + [t], out + more)
    ensures DecodedInOrder(libs, turns + [t], out + more)
  {
    hide DecodedApart, DecodedBy;
    var all := turns + [t];
    forall k | 0 <= k <= |all| ensures DecodedBy(libs, all[..k], out + more) {
      DecodedAlready(libs, all[..k], out, more);
      assert if k <= |turns| then all[..k] == turns[..k] else all[..k] == all;
    }
  }

  lemma TurnDecoded(libs: Libraries, turns: seq<Turn>, t: Turn, out: seq<Message>, more: seq<Message>)
    requires Usable(libs) && DecodedApart(libs, turns, out)
    requires var before := Stream(turns, t.fromClient);
      StreamMessages(libs, before + t.data, t.fromClient) == StreamMessages(libs, before, t.fromClient) + more
    ensures DecodedApart(libs, turns + [t], out + more)
    ensures forall d: bool :: Stream(turns + [t], d) == Stream(turns, d) + if d == t.fromClient then t.data else []
  {
    hide StreamMessages;
    var all := turns + [t];
    assert all[..|turns|] == turns;
    FedMessages(libs, Stream(turns, t.fromClient), t.data, t.fromClient, more);
    forall d: bool ensures Of(out + more, d) == StreamMessages(libs, Stream(all, d), d) {
      OfAppend(out, more, t.fromClient, d);
      assert Stream(turns, d) + [] == Stream(turns, d);
    }
  }

  /** The session has been fed these turns, and `out` is what it returned. */
  ghost predicate HasFed(s: Session, libs: Libraries, turns: seq<Turn>, out: seq<Message>)
    requires Usable(libs)
    reads s
  {
    && s.Valid() && s.libs == libs
    && s.fromClient == Stream(turns, true) && s.fromServer == Stream(turns, false)
    && DecodedApart(libs, turns, out) && DecodedInOrder(libs, turns, out)
    && s.log == LogAll([], out)
  }

  /** Feeds one more turn. */
  method FeedTurn(s: Session, libs: Libraries, t: Turn, ghost turns: seq<Turn>, ghost out: seq<Message>)
    returns (more: seq<Message>)
    requires Usable(libs) && HasFed(s, libs, turns, out)
    modifies s
    ensures HasFed(s, libs, turns + [t], out + more)
  {
    hide StreamMessages, LogAll, DecodedApart, DecodedInOrder, Stream, SplitFrames, Distinct;
    more := s.Feed(t.fromClient, t.data);
    TurnDecoded(libs, turns, t, out, more);
    InOrderMore(libs, turns, t, out, more);
    LogAllAppend([], out, more);
  }

  /**
    Decodes all of a connection's turns. However they cut and interleave the two streams,
    each direction yields the messages of its stream's frames, in order and as soon as they
    are complete, and every bound that some message ran into is logged once.
   */
  method DecodeTurns(libs: Libraries, turns: seq<Turn>) returns (out: seq<Message>, log: seq<Limit>)
    requires Usable(libs)
    ensures DecodedApart(libs, turns, out) && DecodedInOrder(libs, turns, out)
    ensures IsLogOf(log, out)
  {
    hide StreamMessages, LogAll, DecodedApart, DecodedInOrder, Stream, SplitFrames, Distinct, IsLogOf;
    var s := new Session(libs);
    out := [];
    NoBytesNoMessages(libs);
    LogNothing();
    assert turns[..0] == [];
    for i := 0 to |turns|
      invariant fresh(s) && HasFed(s, libs, turns[..i], out)
    {
      assert turns[..i + 1] == turns[..i] + [turns[i]];
      var more := FeedTurn(s, libs, turns[i], turns[..i], out);
      out := out + more;
    }
    assert turns[..|turns|] == turns;
    log := s.log;
    AllLogged(out);
  }

  /** Every bound that some message ran into, once each. */
  ghost predicate IsLogOf(log: seq<Limit>, out: seq<Message>) {
    Distinct(log) && forall l :: l in log <==> l != NoLimit && exists m <- out :: m.limit == l
  }

  lemma AllLogged(out: seq<Message>)
    ensures IsLogOf(LogAll([], out), out)
  {
    EachLimitLoggedOnce([], out);
  }

  lemma NoBytesNoMessages(libs: Libraries)
    requires Usable(libs)
    ensures DecodedApart(libs, [], []) && DecodedInOrder(libs, [], [])
    ensures forall d: bool :: Stream([], d) == []
  {
    var turns: seq<Turn>, out: seq<Message> := [], [];
    assert DecodedApart(libs, turns, out);
    assert turns[..0] == turns && out + out == out;
    DecodedAlready(libs, turns, out, out);
  }

  lemma LogNothing()
    ensures LogAll([], []) == []
  {}

  lemma {:induction false} LogAllAppend(log: seq<Limit>, a: seq<Message>, b: seq<Message>)
    ensures LogAll(log, a + b) == LogAll(LogAll(log, a), b)
    decreases |a|
  {
    if a == [] {
      assert a + b == b;
    } else {
      assert (a + b)[1..] == a[1..] + b;
      LogAllAppend(LogOne(log, a[0]), a[1..], b);
    }
  }

  /** What a feed emits is all of its own direction. */
  lemma FedMessages(libs: Libraries, before: seq<Byte>, data: seq<Byte>, client: bool, more: seq<Message>)
    requires Usable(libs)
    requires StreamMessages(libs, before + data, client) == StreamMessages(libs, before, client) + more
    ensures forall m <- more :: m.fromClient == client
  {
    hide FrameMessage;
    var all, n := StreamMessages(libs, before + data, client), |StreamMessages(libs, before, client)|;
    forall m <- more ensures m.fromClient == client {
      var k :| 0 <= k < |more| && more[k] == m;
      assert all[n + k] == m;
    }
  }
}
