/**
  The live WebSocket reader: RFC 6455 frames off one direction's byte stream, each emitted
  as a label and an unmasked payload, until the stream ends. Sections 5.2 (layout) and 5.3
  (masking) of RFC 6455 give the encoding it undoes.
 */
module WebSocket {
  import opened Bytes

  datatype Label = Continuation | Text | Binary | Close | Ping | Pong | Reserved

  /** What the viewer is told about one frame. */
  datatype Event = Event(kind: Label, fromClient: bool, payload: seq<Byte>)

  function OpName(op: nat): Label {
    match op
    case 0x0 => Continuation
    case 0x1 => Text
    case 0x2 => Binary
    case 0x8 => Close
    case 0x9 => Ping
    case 0xA => Pong
    case _ => Reserved
  }

  // ---- frames and their encoding ----

  /** Where the payload's length is written: in seven bits, or in 2 or 8 bytes more. */
  datatype LengthForm = Seven | Sixteen | SixtyFour

  /** A frame as it was written; `flags` are its FIN and RSV bits. */
  datatype Frame = Frame(flags: nat, opcode: nat, mask: Option<seq<Byte>>, form: LengthForm, payload: seq<Byte>)

  /** The largest length that fits a signed 64-bit integer. */
  const MAX_LENGTH := 0x7fff_ffff_ffff_ffff

  predicate Valid(f: Frame) {
    && f.flags < 16 && f.opcode < 16
    && (f.mask.Some? ==> |f.mask.value| == 4)
    && match f.form
       case Seven => |f.payload| < 126
       case Sixteen => |f.payload| < 0x1_0000
       case SixtyFour => |f.payload| <= 0x7fff_ffff_ffff_ffff
  }

  function TwoTo(n: nat): nat {
    if n == 0 then 1 else 2 * TwoTo(n - 1)
  }

  /** Exclusive or of the low `bits` bits, bit by bit. */
  function XorBits(a: nat, b: nat, bits: nat): (r: nat)
    ensures r < TwoTo(bits)
  {
    if bits == 0 then 0
    else 2 * XorBits(a / 2, b / 2, bits - 1) + (if a % 2 == b % 2 then 0 else 1)
  }

  function Xor(a: Byte, b: Byte): Byte {
    assert TwoTo(8) == 256 by { assert TwoTo(4) == 16; assert TwoTo(6) == 64; }
    XorBits(a, b, 8)
  }

  /** Each byte combined with the mask byte its position selects; masking and unmasking are the same. */
  function Masked(payload: seq<Byte>, mask: seq<Byte>): (r: seq<Byte>)
    requires |mask| == 4
    ensures |r| == |payload|
  {
    seq(|payload|, i requires 0 <= i < |payload| => Xor(payload[i], mask[i % 4]))
  }

  lemma {:induction false} XorBitsTwice(a: nat, b: nat, bits: nat)
    requires a < TwoTo(bits)
    ensures XorBits(XorBits(a, b, bits), b, bits) == a
  {
    if bits > 0 {
      XorBitsTwice(a / 2, b / 2, bits - 1);
      XorStep(a, b, bits);
      XorStep(XorBits(a, b, bits), b, bits);
    }
  }

  /** The lowest bit and the others are combined apart. */
  lemma XorStep(a: nat, b: nat, bits: nat)
    requires bits > 0
    ensures var r := XorBits(a, b, bits);
      r / 2 == XorBits(a / 2, b / 2, bits - 1) && r % 2 == (if a % 2 == b % 2 then 0 else 1)
  {}

  lemma XorTwice(a: Byte, b: Byte)
    ensures Xor(Xor(a, b), b) == a
  {
    assert TwoTo(4) == 16 && TwoTo(6) == 64 && TwoTo(8) == 256;
    hide XorBits;
    XorBitsTwice(a, b, 8);
  }

  lemma MaskedTwice(payload: seq<Byte>, mask: seq<Byte>)
    requires |mask| == 4
    ensures Masked(Masked(payload, mask), mask) == payload
  {
    forall i | 0 <= i < |payload| ensures Masked(Masked(payload, mask), mask)[i] == payload[i] {
      XorTwice(payload[i], mask[i % 4]);
    }
  }

  /** Bit `k` of a number, the lowest being bit nought. */
  function Bit(n: nat, k: nat): bool {
    if k == 0 then n % 2 == 1 else Bit(n / 2, k - 1)
  }

  lemma {:induction false} XorBitsAt(a: nat, b: nat, bits: nat, k: nat)
    requires k < bits
    ensures Bit(XorBits(a, b, bits), k) <==> (Bit(a, k) != Bit(b, k))
  {
    XorStep(a, b, bits);
    if k > 0 {
      XorBitsAt(a / 2, b / 2, bits - 1, k - 1);
    }
  }

  /** Each of the eight bits of the combined byte is set exactly when one of the two bits is and the other is not. */
  lemma XorExactly(a: Byte, b: Byte)
    ensures forall k: nat | k < 8 :: Bit(Xor(a, b), k) <==> (Bit(a, k) != Bit(b, k))
  {
    forall k: nat | k < 8 ensures Bit(Xor(a, b), k) <==> (Bit(a, k) != Bit(b, k)) {
      XorBitsAt(a, b, 8, k);
    }
  }

  function FormBytes(form: LengthForm): nat {
    match form case Seven => 0 case Sixteen => 2 case SixtyFour => 8
  }

  /** The seven-bit length field. */
  function ShortLength(f: Frame): (n: nat)
    requires Valid(f)
    ensures n < 128
  {
    match f.form case Seven => |f.payload| case Sixteen => 126 case SixtyFour => 127
  }

  function LengthBytes(f: Frame): (s: seq<Byte>)
    requires Valid(f)
    ensures |s| == FormBytes(f.form)
  {
    Widths();
    if f.form == Seven then [] else ToBigEndian(|f.payload|, FormBytes(f.form))
  }

  function MaskBytes(f: Frame): seq<Byte> {
    if f.mask.Some? then f.mask.value else []
  }

  function PayloadBytes(f: Frame): (s: seq<Byte>)
    requires Valid(f)
    ensures |s| == |f.payload|
  {
    if f.mask.Some? then Masked(f.payload, f.mask.value) else f.payload
  }

  function FirstTwo(f: Frame): seq<Byte>
    requires Valid(f)
  {
    [16 * f.flags + f.opcode, (if f.mask.Some? then 128 else 0) + ShortLength(f)]
  }

  /** The frame on the wire. */
  function Encode(f: Frame): (s: seq<Byte>)
    requires Valid(f)
    ensures |s| >= 2 + |f.payload|
  {
    FirstTwo(f) + LengthBytes(f) + MaskBytes(f) + PayloadBytes(f)
  }

  // ---- the frame at the front of a stream ----

  function FormOf(short: nat): LengthForm {
    if short == 126 then Sixteen else if short == 127 then SixtyFour else Seven
  }

  /** What stands before a payload of `len` bytes, which starts at `size`. */
  datatype Header = Header(flags: nat, opcode: nat, mask: Option<seq<Byte>>, form: LengthForm, len: nat, size: nat)

  /** The header at the front of `s`, once all of it is there. */
  function HeaderOf(s: seq<Byte>): (h: Option<Header>)
    ensures h.Some? ==> 2 <= h.value.size <= |s|
    ensures h.Some? && h.value.mask.Some? ==> |h.value.mask.value| == 4
  {
    if |s| < 2 then None
    else
      var form := FormOf(s[1] % 128);
      var maskAt := 2 + FormBytes(form);
      var dataAt := maskAt + if s[1] >= 128 then 4 else 0;
      if |s| < dataAt then None
      else
        var len := if form == Seven then s[1] % 128 else BigEndian(s[2..maskAt]);
        var mask := if s[1] >= 128 then Some(s[maskAt..dataAt]) else None;
        Some(Header(s[0] / 16, s[0] % 16, mask, form, len, dataAt))
  }

  /** A complete frame at the front of `s`, and what follows it. */
  function ReadOne(s: seq<Byte>): (r: Option<(Frame, seq<Byte>)>)
    ensures r.Some? ==> |r.value.1| + 2 + |r.value.0.payload| <= |s|
  {
    match HeaderOf(s)
    case None => None
    case Some(h) =>
      if h.len > MAX_LENGTH || |s| - h.size < h.len then None
      else
        var end := h.size + h.len;
        var data := s[h.size..end];
        var payload := if h.mask.Some? then Masked(data, h.mask.value) else data;
        Some((Frame(h.flags, h.opcode, h.mask, h.form, payload), s[end..]))
  }

  /** The length form used says which length field follows. */
  lemma HeaderIsRead(f: Frame, data: seq<Byte>)
    requires Valid(f)
    ensures var head := FirstTwo(f) + LengthBytes(f) + MaskBytes(f);
      HeaderOf(head + data) == Some(Header(f.flags, f.opcode, f.mask, f.form, |f.payload|, |head|))
  {
    hide BigEndian, LengthBytes;
    var s := FirstTwo(f) + LengthBytes(f) + MaskBytes(f) + data;
    var maskAt := 2 + FormBytes(f.form);
    assert s[0] == FirstTwo(f)[0] && s[1] == FirstTwo(f)[1];
    assert s[2..maskAt] == LengthBytes(f);
    assert f.mask.Some? ==> s[maskAt..maskAt + 4] == f.mask.value;
    LengthDecoded(f);
  }

  lemma EncodedIsRead(f: Frame, rest: seq<Byte>)
    requires Valid(f)
    ensures ReadOne(Encode(f) + rest) == Some((f, rest))
  {
    hide HeaderOf, LengthBytes;
    var head, data := FirstTwo(f) + LengthBytes(f) + MaskBytes(f), PayloadBytes(f);
    var s := Encode(f) + rest;
    assert s == head + (data + rest);
    HeaderIsRead(f, data + rest);
    LengthDecoded(f);
    assert s[|head|..|head| + |data|] == data && s[|head| + |data|..] == rest;
    if f.mask.Some? {
      MaskedTwice(f.payload, f.mask.value);
    }
  }

  lemma LengthDecoded(f: Frame)
    requires Valid(f)
    ensures f.form != Seven ==> BigEndian(LengthBytes(f)) == |f.payload|
    ensures |f.payload| <= MAX_LENGTH
    ensures FormOf(ShortLength(f)) == f.form
  {
    hide BigEndian, ToBigEndian;
    Widths();
    if f.form != Seven {
      BigEndianInverse(|f.payload|, FormBytes(f.form));
    }
  }

  /** What is read is a frame, and its encoding is what was there. */
  lemma ReadIsEncoded(s: seq<Byte>)
    requires ReadOne(s).Some?
    ensures var (f, rest) := ReadOne(s).value; Valid(f) && Encode(f) + rest == s
  {
    hide BigEndian, ToBigEndian;
    var (f, rest) := ReadOne(s).value;
    var maskAt := 2 + FormBytes(f.form);
    var dataAt := maskAt + |MaskBytes(f)|;
    var end := dataAt + |f.payload|;
    Widths();
    if f.form != Seven {
      ToBigEndianInverse(s[2..maskAt]);
    }
    if f.mask.Some? {
      MaskedTwice(s[dataAt..end], f.mask.value);
    }
    assert FirstTwo(f) == s[..2];
    assert LengthBytes(f) == s[2..maskAt];
    FivePieces(s, 2, maskAt, dataAt, end);
  }

  lemma FivePieces(s: seq<Byte>, i: nat, j: nat, k: nat, end: nat)
    requires i <= j <= k <= end <= |s|
    ensures s[..i] + s[i..j] + s[j..k] + s[k..end] + s[end..] == s
  {}

  // ---- whole streams ----

  function EncodeAll(fs: seq<Frame>): seq<Byte>
    requires forall f <- fs :: Valid(f)
  {
    if fs == [] then [] else Encode(fs[0]) + EncodeAll(fs[1..])
  }

  /** The complete frames at the front of a stream. */
  function Frames(s: seq<Byte>): seq<Frame>
    decreases |s|
  {
    match ReadOne(s)
    case None => []
    case Some((f, rest)) => [f] + Frames(rest)
  }

  function EventOf(f: Frame, fromClient: bool): Event {
    Event(OpName(f.opcode), fromClient, f.payload)
  }

  function Events(fs: seq<Frame>, fromClient: bool): seq<Event> {
    seq(|fs|, i requires 0 <= i < |fs| => EventOf(fs[i], fromClient))
  }

  /** `s` is the frames' encodings, then nothing that is a complete frame. */
  predicate IsStreamOf(s: seq<Byte>, fs: seq<Frame>, rest: seq<Byte>) {
    (forall f <- fs :: Valid(f)) && EncodeAll(fs) + rest == s && ReadOne(rest).None?
  }

  lemma {:induction false} FramesAreThere(s: seq<Byte>) returns (rest: seq<Byte>)
    ensures IsStreamOf(s, Frames(s), rest)
    decreases |s|
  {
    hide ReadOne, Encode, Valid, EncodeAll;
    if ReadOne(s).None? {
      EncodeNone();
      rest := s;
    } else {
      var (f, more) := ReadOne(s).value;
      ReadIsEncoded(s);
      ReadShrinks(s);
      rest := FramesAreThere(more);
      EncodeCons(f, Frames(more));
      assert Encode(f) + EncodeAll(Frames(more)) + rest == Encode(f) + (EncodeAll(Frames(more)) + rest);
    }
  }

  lemma EncodeNone()
    ensures EncodeAll([]) == []
  {}

  lemma EncodeCons(f: Frame, fs: seq<Frame>)
    requires Valid(f) && forall g <- fs :: Valid(g)
    ensures (forall g <- [f] + fs :: Valid(g)) && EncodeAll([f] + fs) == Encode(f) + EncodeAll(fs)
  {
    hide Encode, Valid;
    assert ([f] + fs)[1..] == fs;
  }

  lemma ReadShrinks(s: seq<Byte>)
    requires ReadOne(s).Some?
    ensures |ReadOne(s).value.1| < |s|
  {}

  /** The round trip: frames laid end to end are read back, whatever follows the last of them. */
  lemma {:induction false} EncodingsAreRead(fs: seq<Frame>, rest: seq<Byte>)
    requires forall f <- fs :: Valid(f)
    ensures Frames(EncodeAll(fs) + rest) == fs + Frames(rest)
    decreases |fs|
  {
    hide ReadOne, Encode, Valid, EncodeAll, Frames;
    if fs == [] {
      EncodeNone();
      assert EncodeAll(fs) + rest == rest;
    } else {
      var more := EncodeAll(fs[1..]) + rest;
      assert fs == [fs[0]] + fs[1..];
      EncodeCons(fs[0], fs[1..]);
      assert EncodeAll(fs) + rest == Encode(fs[0]) + more;
      EncodedIsRead(fs[0], more);
      FramesCons(Encode(fs[0]) + more, fs[0], more);
      EncodingsAreRead(fs[1..], rest);
    }
  }

  lemma FramesCons(s: seq<Byte>, f: Frame, rest: seq<Byte>)
    requires ReadOne(s) == Some((f, rest))
    ensures Frames(s) == [f] + Frames(rest)
  {
    hide ReadOne;
  }

  /** Exactly the frames whose encodings make up the stream are read from it. */
  lemma FramesExactly(s: seq<Byte>, fs: seq<Frame>)
    ensures fs == Frames(s) <==> exists rest :: IsStreamOf(s, fs, rest)
  {
    hide ReadOne, Encode, Valid;
    if fs == Frames(s) {
      var rest := FramesAreThere(s);
    }
    if exists rest :: IsStreamOf(s, fs, rest) {
      var rest :| IsStreamOf(s, fs, rest);
      EncodingsAreRead(fs, rest);
      assert fs + Frames(rest) == fs;
    }
  }

  /** A stream cut short gives the first of the frames that the whole one gives. */
  lemma TruncationIsMonotone(s: seq<Byte>, n: nat)
    requires n <= |s|
    ensures Frames(s[..n]) <= Frames(s)
  {
    hide ReadOne, Encode, Valid, EncodeAll, Frames;
    var rest := FramesAreThere(s[..n]);
    var fs := Frames(s[..n]);
    var front, tail := EncodeAll(fs), s[n..];
    assert front + (rest + tail) == s by {
      assert front + (rest + tail) == (front + rest) + tail;
    }
    EncodingsAreRead(fs, rest + tail);
  }

  /** What is emitted for each frame of a stream: its opcode's label, and its payload, unmasked bit by bit. */
  lemma EmittedExactly(s: seq<Byte>, fs: seq<Frame>, rest: seq<Byte>, fromClient: bool, i: nat)
    requires IsStreamOf(s, fs, rest) && i < |fs|
    ensures |Events(Frames(s), fromClient)| == |fs|
    ensures var e, f := Events(Frames(s), fromClient)[i], fs[i];
      && e.fromClient == fromClient && |e.payload| == |f.payload| && Labelled(f.opcode, e.kind)
      && forall j | 0 <= j < |e.payload| :: UnmaskedFrom(PayloadBytes(f)[j], MaskBytes(f), j, e.payload[j])
  {
    hide ReadOne, Encode, Valid, Frames, XorBits, Bit;
    FramesExactly(s, fs);
    var f := fs[i];
    if f.mask.Some? {
      assert Valid(f) && |f.mask.value| == 4 by { MaskIsFour(f); }
      forall j | 0 <= j < |f.payload| ensures UnmaskedFrom(PayloadBytes(f)[j], MaskBytes(f), j, f.payload[j]) {
        XorExactly(f.payload[j], f.mask.value[j % 4]);
      }
    }
  }

  lemma MaskIsFour(f: Frame)
    requires Valid(f) && f.mask.Some?
    ensures |f.mask.value| == 4
  {}

  /** The labels of the opcodes that RFC 6455 names, in section 5.2. */
  predicate Labelled(opcode: nat, kind: Label) {
    && (kind == Continuation <==> opcode == 0) && (kind == Text <==> opcode == 1) && (kind == Binary <==> opcode == 2)
    && (kind == Close <==> opcode == 8) && (kind == Ping <==> opcode == 9) && (kind == Pong <==> opcode == 10)
  }

  /** Byte `j` of a payload is the byte on the wire, each bit turned where the mask's byte has a one. */
  predicate UnmaskedFrom(wire: Byte, mask: seq<Byte>, j: nat, plain: Byte) {
    if |mask| != 4 then plain == wire
    else forall k: nat | k < 8 :: Bit(wire, k) <==> (Bit(plain, k) != Bit(mask[j % 4], k))
  }

  /** A masked text frame from section 5.7 of RFC 6455 is read as its text. */
  lemma HelloIsRead()
    ensures var s: seq<Byte> := [0x81, 0x85, 0x37, 0xfa, 0x21, 0x3d, 0x7f, 0x9f, 0x4d, 0x51, 0x58];
      Events(Frames(s), true) == [Event(Text, true, [72, 101, 108, 108, 111])]
  {
    var s: seq<Byte> := [0x81, 0x85, 0x37, 0xfa, 0x21, 0x3d, 0x7f, 0x9f, 0x4d, 0x51, 0x58];
    var mask: seq<Byte> := [0x37, 0xfa, 0x21, 0x3d];
    var f := Frame(8, 1, Some(mask), Seven, [72, 101, 108, 108, 111]);
    assert s[7..] == [] + s[7..];
    assert PayloadBytes(f) == [0x7f, 0x9f, 0x4d, 0x51, 0x58] by { HelloMasked(mask); }
    assert Encode(f) == s;
    assert EncodeAll([f]) + [] == s by { assert [f][1..] == []; EncodeNone(); }
    assert ReadOne([]).None?;
    hide Encode, ReadOne, Frames, XorBits;
    assert IsStreamOf(s, [f], []);
    FramesExactly(s, [f]);
  }

  lemma HelloMasked(mask: seq<Byte>)
    requires mask == [0x37, 0xfa, 0x21, 0x3d]
    ensures Masked([72, 101, 108, 108, 111], mask) == [0x7f, 0x9f, 0x4d, 0x51, 0x58]
  {
    hide Xor;
    HelloXors();
  }

  lemma HelloXors()
    ensures Xor(72, 0x37) == 0x7f && Xor(101, 0xfa) == 0x9f && Xor(108, 0x21) == 0x4d
    ensures Xor(108, 0x3d) == 0x51 && Xor(111, 0x37) == 0x58
  {
    FirstXors();
    hide Xor;
    XorUnrolled(108, 0x3d);
    XorUnrolled(111, 0x37);
  }

  lemma FirstXors()
    ensures Xor(72, 0x37) == 0x7f && Xor(101, 0xfa) == 0x9f && Xor(108, 0x21) == 0x4d
  {
    hide Xor;
    XorUnrolled(72, 0x37);
    XorUnrolled(101, 0xfa);
    XorUnrolled(108, 0x21);
  }

  /** Nought where two bits are the same, and one where they are not. */
  function Differ(a: nat, b: nat): nat {
    if a % 2 == b % 2 then 0 else 1
  }

  lemma XorUnrolled(a: Byte, b: Byte)
    ensures Xor(a, b) == Differ(a, b) + 2 * (Differ(a / 2, b / 2) + 2 * (Differ(a / 4, b / 4) + 2 *
                         (Differ(a / 8, b / 8) + 2 * (Differ(a / 16, b / 16) + 2 * (Differ(a / 32, b / 32) + 2 *
                         (Differ(a / 64, b / 64) + 2 * Differ(a / 128, b / 128)))))))
  {
    hide XorBits, Differ;
    Halves(a);
    Halves(b);
    XorHalf(a, b, 8);
    XorHalf(a / 2, b / 2, 7);
    XorHalf(a / 4, b / 4, 6);
    XorHalf(a / 8, b / 8, 5);
    XorHalf(a / 16, b / 16, 4);
    XorHalf(a / 32, b / 32, 3);
    XorHalf(a / 64, b / 64, 2);
    XorHalf(a / 128, b / 128, 1);
  }

  lemma Halves(a: nat)
    ensures a / 2 / 2 == a / 4 && a / 4 / 2 == a / 8 && a / 8 / 2 == a / 16 && a / 16 / 2 == a / 32
    ensures a / 32 / 2 == a / 64 && a / 64 / 2 == a / 128
  {}

  lemma XorHalf(a: nat, b: nat, bits: nat)
    requires bits > 0
    ensures XorBits(a, b, bits) == 2 * XorBits(a / 2, b / 2, bits - 1) + Differ(a, b) && XorBits(a, b, 0) == 0
  {}

  /** Bytes emitted as payloads. */
  function PayloadTotal(fs: seq<Frame>): nat {
    if fs == [] then 0 else |fs[0].payload| + PayloadTotal(fs[1..])
  }

  /** Payloads, and two bytes of header for each, have all arrived: a length that lies costs nothing. */
  lemma {:induction false} PaidFor(s: seq<Byte>)
    ensures PayloadTotal(Frames(s)) + 2 * |Frames(s)| <= |s|
    decreases |s|
  {
    if ReadOne(s).Some? {
      var (f, rest) := ReadOne(s).value;
      hide ReadOne;
      PaidFor(rest);
      assert Frames(s)[1..] == Frames(rest);
    }
  }

  // ---- the reader as the gateway runs it ----

  /** Unmasks a payload where it lies. */
  method Unmask(payload: array<Byte>, mask: seq<Byte>)
    requires |mask| == 4
    modifies payload
    ensures payload[..] == Masked(old(payload[..]), mask)
  {
    for i := 0 to payload.Length
      invariant payload[..i] == Masked(old(payload[..]), mask)[..i]
      invariant payload[i..] == old(payload[i..])
    {
      payload[i] := Xor(payload[i], mask[i % 4]);
    }
  }

  /** Reads the header at `at`, if the stream holds all of it. */
  method ReadHeader(s: seq<Byte>, at: nat) returns (ok: bool, opcode: nat, mask: Option<seq<Byte>>, ln: nat, next: nat)
    requires at <= |s|
    ensures ok <==> HeaderOf(s[at..]).Some?
    ensures ok ==> var h := HeaderOf(s[at..]).value;
      opcode == h.opcode && mask == h.mask && ln == h.len && next == at + h.size
  {
    ok, opcode, mask, ln, next := false, 0, None, 0, at;
    ghost var t := s[at..];
    if |s| - at < 2 {
      return;
    }
    var second: int := s[at + 1];
    opcode, ln, next := s[at] % 16, second % 128, at + 2;
    if ln == 126 || ln == 127 {
      var width := if ln == 126 then 2 else 8;
      if |s| - next < width {
        return;
      }
      assert s[next..next + width] == t[2..2 + width];
      ln := BigEndian(s[next..next + width]);
      next := next + width;
    }
    if second >= 128 {
      if |s| - next < 4 {
        return;
      }
      assert s[next..next + 4] == t[next - at..next - at + 4];
      mask := Some(s[next..next + 4]);
      next := next + 4;
    }
    ok := true;
  }

  lemma EventsNone(fromClient: bool)
    ensures Events([], fromClient) == []
  {}

  lemma EventsSnoc(fs: seq<Frame>, f: Frame, fromClient: bool)
    ensures Events(fs + [f], fromClient) == Events(fs, fromClient) + [EventOf(f, fromClient)]
  {}

  /** The frame at `at`, from its header and the bytes after that. */
  lemma FrameAt(s: seq<Byte>, at: nat, h: Header) returns (f: Frame)
    requires at <= |s| && HeaderOf(s[at..]) == Some(h) && h.len <= MAX_LENGTH && at + h.size + h.len <= |s|
    ensures var data := s[at + h.size..at + h.size + h.len];
      f.opcode == h.opcode && f.payload == if h.mask.Some? then Masked(data, h.mask.value) else data
    ensures Frames(s[at..]) == [f] + Frames(s[at + h.size + h.len..])
  {
    hide HeaderOf, Masked;
    var t, end := s[at..], h.size + h.len;
    assert t[h.size..end] == s[at + h.size..at + end] && t[end..] == s[at + end..];
    f := ReadOne(t).value.0;
  }

  lemma Associate(read: seq<Frame>, f: Frame, more: seq<Frame>)
    ensures read + ([f] + more) == (read + [f]) + more
  {}

  lemma NoFrameAt(s: seq<Byte>)
    requires HeaderOf(s).Some? ==>
               HeaderOf(s).value.len > MAX_LENGTH || |s| < HeaderOf(s).value.size + HeaderOf(s).value.len
    ensures Frames(s) == []
  {}

  /** Reads `s`, a whole stream, frame by frame, and collects what is emitted. */
  method ReadWSFrames(s: seq<Byte>, fromClient: bool) returns (emitted: seq<Event>)
    ensures emitted == Events(Frames(s), fromClient)
  {
    hide HeaderOf, OpName, Frames, Events, Masked, BigEndian;
    emitted := [];
    var at := 0;
    ghost var read := [];
    assert s[0..] == s;
    assert Events(read, fromClient) == [] by { EventsNone(fromClient); }
    while true
      invariant at <= |s| && emitted == Events(read, fromClient)
      invariant read + Frames(s[at..]) == Frames(s)
      decreases |s| - at
    {
      var ok, opcode, mask, ln, next := ReadHeader(s, at);
      if !ok || ln > MAX_LENGTH || |s| - next < ln {
        NoFrameAt(s[at..]);
        assert read + [] == read;
        return;
      }
      var payload := new Byte[ln](i requires 0 <= i < ln => s[next + i]);
      assert payload[..] == s[next..next + ln];
      if mask.Some? {
        Unmask(payload, mask.value);
      }
      ghost var f := FrameAt(s, at, HeaderOf(s[at..]).value);
      at := next + ln;
      EventsSnoc(read, f, fromClient);
      Associate(read, f, Frames(s[at..]));
      emitted := emitted + [Event(OpName(opcode), fromClient, payload[..])];
      read := read + [f];
    }
  }
}
