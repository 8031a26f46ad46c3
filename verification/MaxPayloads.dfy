/**
  When a frame's payload becomes JSON, and when it is kept raw and why: in terms of the frame's
  bytes and of what the libraries say of them, and not of how the decoder goes about it.
 */
module MaxPayloads {
  import opened Bytes
  import opened Lists
  import opened Framing
  import opened MaxDecoder
  import MsgPack
  import Lz4

  /** The bytes that a flag makes of a body: itself, what zstd gives, or what the LZ4 block gives, if anything. */
  ghost predicate Yields(libs: Libraries, body: seq<Byte>, flag: Byte, bytes: seq<Byte>) {
    if flag == 0 then bytes == body
    else if flag == 0xff then libs.zstd(body) == Inflated(bytes)
    else bytes != [] && Lz4.Decompressed(body, 0, []) == Lz4.Result(bytes, false)
  }

  /** An LZ4 block yields what it means. */
  lemma BlockYields(libs: Libraries, flag: Byte, seqs: List<Lz4.Sequence>, last: seq<Byte>, low: nat, bytes: seq<Byte>)
    requires flag != 0 && flag != 0xff && low < 16 && Lz4.WellFormed(0, seqs) && Lz4.MatchesFit(0, seqs)
    requires Lz4.Meaning([], seqs, last) != []
    ensures Yields(libs, Lz4.EncodeBlock(seqs, last, low), flag, bytes) <==> bytes == Lz4.Meaning([], seqs, last)
  {
    hide Lz4.WellFormed, Lz4.MatchesFit, Lz4.EncodeBlock, Lz4.Decompressed, Lz4.Meaning;
    Lz4.RoundTrip(seqs, last, low);
  }

  /** Behind `off` service bytes, four at most, is one whole value, and the library makes something of it. */
  ghost predicate DecodesAt(libs: Libraries, bytes: seq<Byte>, off: nat, value: Decoded)
    requires Usable(libs)
  {
    && off <= 4 && off < |bytes| <= 0x80_0000 && MsgPack.IsValue(bytes[off..])
    && assert SafeToDecode(bytes[off..]); libs.decode(bytes[off..]) == value && value != Undecodable
  }

  lemma AttemptExactly(libs: Libraries, bytes: seq<Byte>, off: nat, value: Decoded)
    requires Usable(libs) && |bytes| <= 0x80_0000 && Tried(bytes, off)
    ensures DecodesAt(libs, bytes, off, value) <==> Attempt(libs, bytes[off..]) == value && value != Undecodable
  {
    hide MsgPack.IsValue, MsgPack.RunsTooDeep;
    MsgPack.VerdictMeans(bytes[off..]);
  }

  /** The first offset that decodes gives this value. */
  ghost predicate FirstDecodes(libs: Libraries, bytes: seq<Byte>, off: nat, value: Decoded)
    requires Usable(libs)
  {
    DecodesAt(libs, bytes, off, value) && forall k: nat, other | k < off :: !DecodesAt(libs, bytes, k, other)
  }

  /** Unpacking, in those terms. */
  lemma UnpackExactly(libs: Libraries, bytes: seq<Byte>)
    requires Usable(libs)
    ensures var u := Unpack(libs, bytes);
      && (forall off, value :: u == Found(off, value) <==> FirstDecodes(libs, bytes, off, value))
      && (u == Missing(BodyTooLong) <==> |bytes| > 0x80_0000)
      && (u == Missing(NestedTooDeep) <==>
            && |bytes| <= 0x80_0000 && (forall off: nat, value :: !DecodesAt(libs, bytes, off, value))
            && exists off: nat :: off <= 4 && off < |bytes| && MsgPack.RunsTooDeep(bytes[off..]))
      && u != Missing(PastCap)
  {
    hide MsgPack.RunsTooDeep, MsgPack.IsValue, Attempt, Unpack, DecodesAt;
    var u := Unpack(libs, bytes);
    UnpackMeans(libs, bytes, u);
    OnlyTried(libs, bytes);
    if |bytes| <= 0x80_0000 {
      forall off: nat, value | Tried(bytes, off)
        ensures DecodesAt(libs, bytes, off, value) <==> Attempt(libs, bytes[off..]) == value && value != Undecodable
      {
        AttemptExactly(libs, bytes, off, value);
      }
      forall off, value ensures u == Found(off, value) <==> FirstDecodes(libs, bytes, off, value) {
        FoundExactly(libs, bytes, u, off, value);
      }
    }
  }

  lemma OnlyTried(libs: Libraries, bytes: seq<Byte>)
    requires Usable(libs)
    ensures forall off: nat, value | DecodesAt(libs, bytes, off, value) :: Tried(bytes, off) && |bytes| <= 0x80_0000
  {
    hide MsgPack.IsValue;
  }

  lemma FoundExactly(libs: Libraries, bytes: seq<Byte>, u: Unpacked, off: nat, value: Decoded)
    requires Usable(libs) && |bytes| <= 0x80_0000 && UnpacksTo(libs, bytes, u)
    requires forall k: nat, v | DecodesAt(libs, bytes, k, v) :: Tried(bytes, k)
    requires forall k: nat, v | Tried(bytes, k) ::
               DecodesAt(libs, bytes, k, v) <==> Attempt(libs, bytes[k..]) == v && v != Undecodable
    ensures u == Found(off, value) <==> FirstDecodes(libs, bytes, off, value)
  {
    hide MsgPack.RunsTooDeep, MsgPack.IsValue, Attempt, DecodesAt;
    if FirstDecodes(libs, bytes, off, value) {
      assert u.Found?;
      assert DecodesAt(libs, bytes, u.skipped, u.value);
    }
    if u == Found(off, value) {
      forall k: nat, other | k < off ensures !DecodesAt(libs, bytes, k, other) {
        assert Attempt(libs, bytes[k..]) == Undecodable;
      }
    }
  }

  /**
    A frame whose body yields `bytes`: the payload is JSON exactly when the first offset at which
    there is anything to decode gives that JSON, and otherwise it is `bytes`, raw. A bound is named
    exactly when it is met: more bytes than may be decoded, or nothing to decode and too deep.
   */
  lemma PayloadExactly(libs: Libraries, frame: seq<Byte>, fromClient: bool, bytes: seq<Byte>)
    requires Usable(libs) && IsFrame(frame) && frame[10..] != [] && Yields(libs, frame[10..], frame[6], bytes)
    ensures var m := FrameMessage(libs, frame, fromClient);
      && (forall text ::
            m.payload == Json(text) <==> exists off: nat :: FirstDecodes(libs, bytes, off, AsJson(text)))
      && (!m.payload.Json? ==> m.payload == Raw(bytes))
      && (m.limit == BodyTooLong <==> |bytes| > 0x80_0000)
      && (m.limit == NestedTooDeep <==>
            && |bytes| <= 0x80_0000 && (forall off: nat, value :: !DecodesAt(libs, bytes, off, value))
            && exists off: nat :: off <= 4 && off < |bytes| && MsgPack.RunsTooDeep(bytes[off..]))
      && m.limit != PastCap
  {
    hide MsgPack.RunsTooDeep, Unpack, DecodesAt, FirstDecodes, Lz4.Decompressed, BigEndian;
    UnpackExactly(libs, bytes);
    assert Inflate(libs, frame[10..], frame[6]) == Body(bytes);
    var m, u := FrameMessage(libs, frame, fromClient), Unpack(libs, bytes);
    forall text ensures m.payload == Json(text) <==> exists off: nat :: FirstDecodes(libs, bytes, off, AsJson(text)) {
      if u.Found? { assert FirstDecodes(libs, bytes, u.skipped, u.value); }
    }
  }

  /** A body that yields nothing is kept as it came; it is past the cap exactly when the decompressor says so. */
  lemma NothingYielded(libs: Libraries, frame: seq<Byte>, fromClient: bool)
    requires Usable(libs) && IsFrame(frame) && frame[10..] != []
    requires forall bytes :: !Yields(libs, frame[10..], frame[6], bytes)
    ensures var m, body := FrameMessage(libs, frame, fromClient), frame[10..];
      && m.payload == Raw(body) && (m.limit == PastCap || m.limit == NoLimit)
      && (m.limit == PastCap <==>
            if frame[6] == 0xff then libs.zstd(body) == TooLarge else Lz4.Decompressed(body, 0, []).capped)
  {
    hide Unpack, Lz4.Decompressed, BigEndian;
    var body := frame[10..];
    assert !Yields(libs, body, frame[6], body);
    if frame[6] == 0xff {
      if libs.zstd(body).Inflated? { assert Yields(libs, body, frame[6], libs.zstd(body).bytes); }
    } else {
      var r := Lz4.Decompressed(body, 0, []);
      assert !Yields(libs, body, frame[6], r.out);
    }
  }
}
