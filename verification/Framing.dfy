/**
  MAX frames: a ten-byte header whose last three bytes give the payload's length. A byte
  stream splits into frames in exactly one way, however it arrives.
 */
module Framing {
  import opened Bytes

  const HEADER_LEN := 10

  /** The whole length of the frame whose header `buf` starts with. */
  function FrameLength(buf: seq<Byte>): (n: nat)
    requires |buf| >= HEADER_LEN
    ensures HEADER_LEN <= n < HEADER_LEN + 0x100_0000
  {
    HEADER_LEN + BigEndian(buf[6..10]) % 0x100_0000
  }

  /** A frame from its fields; the payload's length takes three bytes, under the flag. */
  function EncodeFrame(ver: Byte, cmd: Byte, number: nat, opcode: nat, flag: Byte, body: seq<Byte>): (f: seq<Byte>)
    requires number < 0x1_0000 && opcode < 0x1_0000 && |body| < 0x100_0000
    ensures |f| == HEADER_LEN + |body|
  {
    Widths();
    [ver, cmd] + ToBigEndian(number, 2) + ToBigEndian(opcode, 2) + [flag] + ToBigEndian(|body|, 3) + body
  }

  /** A complete frame is there at the front. */
  predicate HasFrame(buf: seq<Byte>) {
    |buf| >= HEADER_LEN && |buf| >= FrameLength(buf)
  }

  predicate IsFrame(f: seq<Byte>) {
    HasFrame(f) && |f| == FrameLength(f)
  }

  /** The first frame and what follows it. */
  function NextFrame(buf: seq<Byte>): (r: Option<(seq<Byte>, seq<Byte>)>)
    ensures r.Some? <==> HasFrame(buf)
    ensures r.Some? ==> IsFrame(r.value.0) && r.value.0 + r.value.1 == buf
  {
    if |buf| < HEADER_LEN || |buf| < FrameLength(buf) then None
    else
      var n := FrameLength(buf);
      assert buf[..n][6..10] == buf[6..10];
      Some((buf[..n], buf[n..]))
  }

  /** A stream's complete frames, and the bytes of one still arriving. */
  datatype Split = Split(frames: seq<seq<Byte>>, rest: seq<Byte>)

  function SplitFrames(s: seq<Byte>): Split
    decreases |s|
  {
    match NextFrame(s)
    case None => Split([], s)
    case Some((frame, rest)) =>
      var more := SplitFrames(rest);
      Split([frame] + more.frames, more.rest)
  }

  function Flatten(parts: seq<seq<Byte>>): seq<Byte> {
    if parts == [] then [] else parts[0] + Flatten(parts[1..])
  }

  /** Frames laid end to end, then an unfinished one, are what a stream splits into. */
  predicate IsSplit(s: seq<Byte>, sp: Split) {
    && (forall f <- sp.frames :: IsFrame(f))
    && !HasFrame(sp.rest)
    && Flatten(sp.frames) + sp.rest == s
  }

  lemma {:induction false} SplitIsSplit(s: seq<Byte>)
    ensures IsSplit(s, SplitFrames(s))
    decreases |s|
  {
    hide FrameLength, NextFrame, Flatten;
    FlattenCons([], []);
    if HasFrame(s) {
      var (frame, rest) := NextFrame(s).value;
      var more := SplitFrames(rest);
      SplitIsSplit(rest);
      FlattenCons(frame, more.frames);
      assert frame + Flatten(more.frames) + more.rest == frame + (Flatten(more.frames) + more.rest);
    }
  }

  lemma FlattenCons(part: seq<Byte>, parts: seq<seq<Byte>>)
    ensures Flatten([]) == [] && Flatten([part] + parts) == part + Flatten(parts)
  {
    assert ([part] + parts)[1..] == parts;
  }

  /** A frame at the front is found whatever comes after it. */
  lemma FrameFound(frame: seq<Byte>, rest: seq<Byte>)
    requires IsFrame(frame)
    ensures NextFrame(frame + rest) == Some((frame, rest))
  {
    var s := frame + rest;
    assert s[6..10] == frame[6..10];
    assert s[..|frame|] == frame && s[|frame|..] == rest;
  }

  lemma {:induction false} SplitIsUnique(s: seq<Byte>, sp: Split)
    requires IsSplit(s, sp)
    ensures sp == SplitFrames(s)
    decreases |sp.frames|
  {
    if sp.frames != [] {
      var frame, more := sp.frames[0], sp.frames[1..];
      var rest := Flatten(more) + sp.rest;
      assert s == frame + rest;
      FrameFound(frame, rest);
      SplitIsUnique(rest, Split(more, sp.rest));
    } else {
      assert s == sp.rest;
    }
  }

  /** A stream splits in exactly one way into frames and an unfinished rest. */
  lemma SplitExactly(s: seq<Byte>, sp: Split)
    ensures sp == SplitFrames(s) <==> IsSplit(s, sp)
  {
    hide IsSplit, SplitFrames;
    SplitIsSplit(s);
    if IsSplit(s, sp) {
      SplitIsUnique(s, sp);
    }
  }

  /** Bytes that arrive later only add to the frames that are already complete. */
  lemma {:induction false} SplitAppend(s: seq<Byte>, t: seq<Byte>)
    ensures var first := SplitFrames(s);
      var later := SplitFrames(first.rest + t);
      SplitFrames(s + t) == Split(first.frames + later.frames, later.rest)
    decreases |s|
  {
    if HasFrame(s) {
      var (frame, rest) := NextFrame(s).value;
      assert frame + rest + t == frame + (rest + t);
      FrameFound(frame, rest + t);
      SplitAppend(rest, t);
      assert forall a: seq<seq<Byte>>, b: seq<seq<Byte>> :: [frame] + a + b == [frame] + (a + b);
    } else {
      assert forall a: seq<seq<Byte>> :: [] + a == a;
    }
  }

  /** The flag is the top byte of the length field, and no part of the length. */
  lemma LengthUnderFlag(flag: Byte, low: seq<Byte>)
    requires |low| == 3
    ensures BigEndian([flag] + low) % 0x100_0000 == BigEndian(low)
  {
    hide BigEndian;
    assert low == [low[0], low[1], low[2]] && [flag] + low == [flag, low[0], low[1], low[2]];
    FourBytes(flag, low[0], low[1], low[2]);
    Widths();
  }

  /** An encoded frame is a frame, and its fields are where they are read. */
  lemma EncodedIsFrame(ver: Byte, cmd: Byte, number: nat, opcode: nat, flag: Byte, body: seq<Byte>)
    requires number < 0x1_0000 && opcode < 0x1_0000 && |body| < 0x100_0000
    ensures var f := EncodeFrame(ver, cmd, number, opcode, flag, body);
      && IsFrame(f) && f[0] == ver && f[1] == cmd && f[6] == flag && f[10..] == body
      && BigEndian(f[2..4]) == number && BigEndian(f[4..6]) == opcode
  {
    hide BigEndian, ToBigEndian;
    Widths();
    var f := EncodeFrame(ver, cmd, number, opcode, flag, body);
    assert f[2..4] == ToBigEndian(number, 2) && f[4..6] == ToBigEndian(opcode, 2);
    assert f[6..10] == [flag] + ToBigEndian(|body|, 3);
    BigEndianInverse(number, 2);
    BigEndianInverse(opcode, 2);
    BigEndianInverse(|body|, 3);
    LengthUnderFlag(flag, ToBigEndian(|body|, 3));
  }

  /** And every frame is the encoding of the fields that are read from it. */
  lemma FrameIsEncoded(f: seq<Byte>)
    requires IsFrame(f)
    ensures |f| - HEADER_LEN < 0x100_0000 && BigEndian(f[2..4]) < 0x1_0000 && BigEndian(f[4..6]) < 0x1_0000
    ensures f == EncodeFrame(f[0], f[1], BigEndian(f[2..4]), BigEndian(f[4..6]), f[6], f[HEADER_LEN..])
  {
    hide BigEndian, ToBigEndian;
    Widths();
    ToBigEndianInverse(f[2..4]);
    ToBigEndianInverse(f[4..6]);
    ToBigEndianInverse(f[7..10]);
    assert f[6..10] == [f[6]] + f[7..10];
    LengthUnderFlag(f[6], f[7..10]);
    assert f == [f[0], f[1]] + f[2..4] + f[4..6] + [f[6]] + f[7..10] + f[10..];
  }

  /** What is left waiting is always shorter than the longest frame. */
  lemma RestIsShort(s: seq<Byte>)
    ensures |SplitFrames(s).rest| < HEADER_LEN + 0xff_ffff
  {
    SplitIsSplit(s);
  }
}
