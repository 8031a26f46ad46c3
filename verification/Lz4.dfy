/**
  Raw LZ4 blocks: what a list of sequences means, how a block spells it, and the gateway's
  decompressor, which tolerates a truncated block and stops a match that would pass a cap.
 */
module Lz4 {
  import opened Bytes
  import opened Lists

  const CAP: nat := 0x400_0000 // 64 MiB

  // ---- what a block means ----

  /** Literals, then a copy of `matchLen` bytes from `offset` back. */
  datatype Sequence = Sequence(literals: seq<Byte>, offset: nat, matchLen: nat)

  /** The `k`-th byte of a match repeats the last `offset` bytes over and over. */
  function CopyMatch(out: seq<Byte>, offset: nat, len: nat): (r: seq<Byte>)
    requires 0 < offset <= |out|
    ensures |r| == |out| + len && out <= r
  {
    out + seq(len, k requires 0 <= k < len => out[|out| - offset + k % offset])
  }

  /** The numbers in each sequence are ones a block can spell. */
  predicate Spellable(seqs: List<Sequence>)
    decreases seqs
  {
    seqs.Cons? ==>
      1 <= seqs.head.offset <= 0xffff && seqs.head.matchLen >= 4 && Spellable(seqs.tail)
  }

  /** Spellable, and after `out` bytes every match starts inside the output so far. */
  predicate WellFormed(out: nat, seqs: List<Sequence>)
    ensures WellFormed(out, seqs) ==> Spellable(seqs)
    decreases seqs
  {
    seqs.Cons? ==>
      && 1 <= seqs.head.offset <= 0xffff && seqs.head.offset <= out + |seqs.head.literals|
      && seqs.head.matchLen >= 4
      && WellFormed(out + |seqs.head.literals| + seqs.head.matchLen, seqs.tail)
  }

  /** Every match ends within the cap. */
  predicate MatchesFit(out: nat, seqs: List<Sequence>)
    decreases seqs
  {
    seqs.Cons? ==>
      var end := out + |seqs.head.literals| + seqs.head.matchLen;
      end <= 0x400_0000 && MatchesFit(end, seqs.tail)
  }

  /** The bytes that `out`, the sequences and the last literals stand for. */
  function Meaning(out: seq<Byte>, seqs: List<Sequence>, last: seq<Byte>): (r: seq<Byte>)
    requires WellFormed(|out|, seqs)
    ensures out <= r
    decreases seqs
  {
    match seqs
    case Nil => out + last
    case Cons(s, rest) => Meaning(CopyMatch(out + s.literals, s.offset, s.matchLen), rest, last)
  }

  // ---- how a block spells it ----

  /** The bytes after a nibble of 15: 255 as often as it goes, then the remainder. */
  function EncodeRun(n: nat): (s: seq<Byte>)
    ensures |s| >= 1
  {
    if n < 255 then [n] else [255] + EncodeRun(n - 255)
  }

  function Nibble(n: nat): (r: nat)
    ensures r < 16
  {
    if n < 15 then n else 15
  }

  function Extra(n: nat): seq<Byte> {
    if n < 15 then [] else EncodeRun(n - 15)
  }

  function EncodeSequence(s: Sequence): seq<Byte>
    requires 1 <= s.offset <= 0xffff && s.matchLen >= 4
  {
    [16 * Nibble(|s.literals|) + Nibble(s.matchLen - 4)] + Extra(|s.literals|) + s.literals
    + [s.offset % 256, s.offset / 256] + Extra(s.matchLen - 4)
  }

  /** The closing literals; the low nibble of their token means nothing. */
  function EncodeLast(last: seq<Byte>, low: nat): (s: seq<Byte>)
    requires low < 16
    ensures s != []
  {
    [16 * Nibble(|last|) + low] + Extra(|last|) + last
  }

  function EncodeBlock(seqs: List<Sequence>, last: seq<Byte>, low: nat): (s: seq<Byte>)
    requires low < 16 && Spellable(seqs)
    ensures s != []
  {
    match seqs
    case Nil => EncodeLast(last, low)
    case Cons(s, rest) => EncodeSequence(s) + EncodeBlock(rest, last, low)
  }

  // ---- what the decompressor does, a sequence at a time ----

  /** A length and where it ends. */
  datatype Run = Run(len: nat, next: nat)

  /** Adds up length bytes from `i` until one is not 255 or the input ends. */
  function ReadRun(src: seq<Byte>, i: nat, base: nat): (r: Run)
    requires i <= |src|
    ensures i <= r.next <= |src|
    ensures base <= r.len <= base + 255 * (r.next - i)
    decreases |src| - i
  {
    if i == |src| then Run(base, i)
    else if src[i] == 255 then ReadRun(src, i + 1, base + 255)
    else Run(base + src[i], i + 1)
  }

  function ReadLength(src: seq<Byte>, i: nat, nibble: nat): (r: Run)
    requires i <= |src| && nibble <= 15
    ensures i <= r.next <= |src|
    ensures nibble <= r.len <= nibble + 255 * (r.next - i)
  {
    if nibble == 15 then ReadRun(src, i, 15) else Run(nibble, i)
  }

  /** One sequence: the output is complete (or capped), or goes on from `next`. */
  datatype Outcome = Stop(out: seq<Byte>, capped: bool) | More(next: nat, out: seq<Byte>)

  /** The output once the literals at `i` are in, and where they end; past the input, they are cut short. */
  function TakeLiterals(src: seq<Byte>, i: nat, out: seq<Byte>): (o: Outcome)
    requires i < |src|
    ensures out <= o.out && |o.out| <= |out| + |src| - i
    ensures o.Stop? ==> !o.capped
    ensures o.More? ==> i < o.next < |src| && |o.out| < |out| + o.next - i
  {
    var lit := ReadLength(src, i + 1, src[i] / 16);
    var end := lit.next + lit.len;
    if end > |src| then Stop(out + src[lit.next..], false)
    else if end == |src| then Stop(out + src[lit.next..end], false)
    else More(end, out + src[lit.next..end])
  }

  /** The match whose offset is at `i`, under the token `token`. */
  function TakeMatch(src: seq<Byte>, i: nat, token: Byte, out: seq<Byte>): (o: Outcome)
    requires i < |src|
    ensures out <= o.out
    ensures o.Stop? ==> o.out == out
    ensures o.More? ==> i + 2 <= o.next <= |src| && |o.out| <= CAP
    ensures o.More? ==> |o.out| <= |out| + 19 + 255 * (o.next - i - 2)
  {
    if i + 2 > |src| then Stop(out, false)
    else
      var offset := OffsetAt(src, i);
      if offset == 0 || offset > |out| then Stop(out, false)
      else
        var len := ReadLength(src, i + 2, token % 16);
        if |out| + len.len + 4 > CAP then Stop(out, true)
        else More(len.next, CopyMatch(out, offset, len.len + 4))
  }

  function TakeSequence(src: seq<Byte>, i: nat, out: seq<Byte>): (o: Outcome)
    requires i < |src|
    ensures out <= o.out
    ensures o.Stop? ==> |o.out| <= |out| + |src| - i
    ensures o.More? ==> i < o.next <= |src| && |o.out| <= CAP && |o.out| <= |out| + 255 * (o.next - i)
  {
    match TakeLiterals(src, i, out)
    case Stop(all, _) => Stop(all, false)
    case More(j, part) => TakeMatch(src, j, src[i], part)
  }

  datatype Result = Result(out: seq<Byte>, capped: bool)

  /** What decompressing from `i` adds to `out`. */
  function Decompressed(src: seq<Byte>, i: nat, out: seq<Byte>): (r: Result)
    requires i <= |src|
    ensures out <= r.out
    decreases |src| - i
  {
    if i == |src| then Result(out, false)
    else match TakeSequence(src, i, out)
      case Stop(all, capped) => Result(all, capped)
      case More(next, part) => Decompressed(src, next, part)
  }

  // ---- the round trip ----

  lemma {:induction false} RunRead(src: seq<Byte>, i: nat, n: nat, base: nat)
    requires At(src, i, EncodeRun(n))
    ensures ReadRun(src, i, base) == Run(base + n, i + |EncodeRun(n)|)
    decreases n
  {
    assert src[i] == src[i..i + |EncodeRun(n)|][0];
    if n >= 255 {
      AtSplit(src, i, [255], EncodeRun(n - 255));
      RunRead(src, i + 1, n - 255, base + 255);
    }
  }

  lemma LengthRead(src: seq<Byte>, i: nat, n: nat)
    requires At(src, i, Extra(n))
    ensures ReadLength(src, i, Nibble(n)) == Run(n, i + |Extra(n)|)
  {
    if n >= 15 {
      RunRead(src, i, n - 15, 15);
    }
  }

  /** Literals under their token are read back whole, whatever the low nibble says. */
  lemma LiteralsRead(src: seq<Byte>, i: nat, lits: seq<Byte>, low: nat, out: seq<Byte>)
    requires low < 16 && At(src, i, [16 * Nibble(|lits|) + low] + Extra(|lits|) + lits)
    ensures var end := i + 1 + |Extra(|lits|)| + |lits|;
      && src[i] % 16 == low
      && TakeLiterals(src, i, out) == if end == |src| then Stop(out + lits, false) else More(end, out + lits)
  {
    hide ReadRun, EncodeRun;
    var head: seq<Byte> := [16 * Nibble(|lits|) + low];
    AtSplit(src, i, head + Extra(|lits|), lits);
    AtSplit(src, i, head, Extra(|lits|));
    assert src[i] == src[i..i + 1][0];
    LengthRead(src, i + 1, |lits|);
  }

  lemma MatchRead(src: seq<Byte>, i: nat, token: Byte, s: Sequence, out: seq<Byte>)
    requires 1 <= s.offset <= 0xffff && s.offset <= |out| && s.matchLen >= 4
    requires token % 16 == Nibble(s.matchLen - 4)
    requires At(src, i, [s.offset % 256, s.offset / 256] + Extra(s.matchLen - 4))
    ensures TakeMatch(src, i, token, out) ==
            if |out| + s.matchLen > CAP then Stop(out, true)
            else More(i + 2 + |Extra(s.matchLen - 4)|, CopyMatch(out, s.offset, s.matchLen))
  {
    hide ReadRun, EncodeRun;
    var o: seq<Byte> := [s.offset % 256, s.offset / 256];
    AtSplit(src, i, o, Extra(s.matchLen - 4));
    assert src[i] == src[i..i + 2][0] && src[i + 1] == src[i..i + 2][1];
    LengthRead(src, i + 2, s.matchLen - 4);
  }

  lemma SequenceRead(src: seq<Byte>, i: nat, s: Sequence, out: seq<Byte>)
    requires 1 <= s.offset <= 0xffff && s.offset <= |out| + |s.literals| && s.matchLen >= 4
    requires At(src, i, EncodeSequence(s))
    ensures TakeSequence(src, i, out) ==
            if |out| + |s.literals| + s.matchLen > CAP then Stop(out + s.literals, true)
            else More(i + |EncodeSequence(s)|, CopyMatch(out + s.literals, s.offset, s.matchLen))
  {
    hide TakeLiterals, TakeMatch, Extra, Nibble;
    var low := Nibble(s.matchLen - 4);
    var lead := [16 * Nibble(|s.literals|) + low] + Extra(|s.literals|) + s.literals;
    var tail := [s.offset % 256, s.offset / 256] + Extra(s.matchLen - 4);
    assert EncodeSequence(s) == lead + tail;
    AtSplit(src, i, lead, tail);
    LiteralsRead(src, i, s.literals, low, out);
    MatchRead(src, i + |lead|, src[i], s, out + s.literals);
  }

  /** The meaning, cut off before the first match that would end past the cap. */
  function CappedMeaning(out: seq<Byte>, seqs: List<Sequence>, last: seq<Byte>): (r: Result)
    requires WellFormed(|out|, seqs)
    decreases seqs
  {
    match seqs
    case Nil => Result(out + last, false)
    case Cons(s, rest) =>
      var part := out + s.literals;
      if |part| + s.matchLen > CAP then Result(part, true)
      else CappedMeaning(CopyMatch(part, s.offset, s.matchLen), rest, last)
  }

  lemma {:induction false} CappedMeaningIsPrefix(out: seq<Byte>, seqs: List<Sequence>, last: seq<Byte>)
    requires WellFormed(|out|, seqs)
    ensures CappedMeaning(out, seqs, last).capped <==> !MatchesFit(|out|, seqs)
    ensures MatchesFit(|out|, seqs) ==> CappedMeaning(out, seqs, last).out == Meaning(out, seqs, last)
    ensures !MatchesFit(|out|, seqs) ==> CappedMeaning(out, seqs, last).out < Meaning(out, seqs, last)
    decreases seqs
  {
    match seqs
    case Nil =>
    case Cons(s, rest) =>
      var next := CopyMatch(out + s.literals, s.offset, s.matchLen);
      CappedMeaningIsPrefix(next, rest, last);
  }

  lemma {:induction false} BlockRead(src: seq<Byte>, i: nat, out: seq<Byte>,
                                        seqs: List<Sequence>, last: seq<Byte>, low: nat)
    requires low < 16 && WellFormed(|out|, seqs)
    requires At(src, i, EncodeBlock(seqs, last, low)) && i + |EncodeBlock(seqs, last, low)| == |src|
    ensures Decompressed(src, i, out) == CappedMeaning(out, seqs, last)
    decreases seqs
  {
    hide TakeLiterals, TakeMatch, EncodeSequence, EncodeRun;
    match seqs
    case Nil =>
      LiteralsRead(src, i, last, low, out);
    case Cons(s, rest) =>
      AtSplit(src, i, EncodeSequence(s), EncodeBlock(rest, last, low));
      SequenceRead(src, i, s, out);
      if |out| + |s.literals| + s.matchLen <= CAP {
        BlockRead(src, i + |EncodeSequence(s)|, CopyMatch(out + s.literals, s.offset, s.matchLen), rest, last, low);
      }
  }

  /**
    A well-formed block decompresses to what it means, unless a match would end past the
    cap; then the output is what came before the first such match, and says so.
   */
  lemma RoundTrip(seqs: List<Sequence>, last: seq<Byte>, low: nat)
    requires low < 16 && WellFormed(0, seqs)
    ensures var r := Decompressed(EncodeBlock(seqs, last, low), 0, []);
      && (r.capped <==> !MatchesFit(0, seqs))
      && (MatchesFit(0, seqs) ==> r.out == Meaning([], seqs, last))
      && (!MatchesFit(0, seqs) ==> r.out < Meaning([], seqs, last))
  {
    var src := EncodeBlock(seqs, last, low);
    assert At(src, 0, src);
    BlockRead(src, 0, [], seqs, last, low);
    CappedMeaningIsPrefix([], seqs, last);
  }

  // ---- and back: what reads to its end is a spelled block ----

  /** Reading from `i` ends with literals that end the input, and no match stops it. */
  predicate EndsInLiterals(src: seq<Byte>, i: nat, out: seq<Byte>)
    requires i <= |src|
    decreases |src| - i
  {
    i < |src| &&
    var o := TakeSequence(src, i, out);
    EndsHere(src, i) || (o.More? && EndsInLiterals(src, o.next, o.out))
  }

  /** The literals at `i` are just what is left of the input. */
  predicate EndsHere(src: seq<Byte>, i: nat)
    requires i < |src|
  {
    var lit := ReadLength(src, i + 1, src[i] / 16);
    lit.next + lit.len == |src|
  }

  lemma {:induction false} RunWritten(src: seq<Byte>, i: nat, base: nat)
    requires i <= |src| && ReadRun(src, i, base).next < |src|
    ensures var r := ReadRun(src, i, base);
      At(src, i, EncodeRun(r.len - base)) && r.next == i + |EncodeRun(r.len - base)|
    decreases |src| - i
  {
    if src[i] == 255 {
      RunWritten(src, i + 1, base + 255);
      var n := ReadRun(src, i, base).len - base;
      assert At(src, i, [255]);
      AtSplit(src, i, [255], EncodeRun(n - 255));
    }
  }

  lemma LengthWritten(src: seq<Byte>, i: nat, nibble: nat)
    requires i <= |src| && nibble <= 15 && (nibble == 15 ==> ReadLength(src, i, nibble).next < |src|)
    ensures var r := ReadLength(src, i, nibble);
      Nibble(r.len) == nibble && At(src, i, Extra(r.len)) && r.next == i + |Extra(r.len)|
  {
    if nibble == 15 {
      RunWritten(src, i, 15);
    }
  }

  /** Literals that are all there are spelled under their token. */
  lemma LiteralsWritten(src: seq<Byte>, i: nat) returns (lits: seq<Byte>)
    requires i < |src|
    requires var lit := ReadLength(src, i + 1, src[i] / 16); lit.next + lit.len <= |src|
    ensures var lit := ReadLength(src, i + 1, src[i] / 16);
      && lits == src[lit.next..lit.next + lit.len] && lit.next + lit.len == i + 1 + |Extra(|lits|)| + |lits|
    ensures At(src, i, [16 * Nibble(|lits|) + src[i] % 16] + Extra(|lits|) + lits)
  {
    LengthWritten(src, i + 1, src[i] / 16);
    hide ReadRun, EncodeRun, Extra, Nibble;
    var lit := ReadLength(src, i + 1, src[i] / 16);
    lits := src[lit.next..lit.next + lit.len];
    var head: seq<Byte> := [16 * Nibble(|lits|) + src[i] % 16];
    assert At(src, i, head);
    AtSplit(src, i, head, Extra(|lits|));
    AtSplit(src, i, head + Extra(|lits|), lits);
  }

  /** A sequence that is read with something after it is spelled there. */
  lemma SequenceWritten(src: seq<Byte>, i: nat, out: seq<Byte>) returns (s: Sequence)
    requires i < |src| && TakeSequence(src, i, out).More? && TakeSequence(src, i, out).next < |src|
    ensures 1 <= s.offset <= 0xffff && s.offset <= |out| + |s.literals| && s.matchLen >= 4
    ensures |out| + |s.literals| + s.matchLen <= CAP && At(src, i, EncodeSequence(s))
  {
    var lits := LiteralsWritten(src, i);
    var j := i + 1 + |Extra(|lits|)| + |lits|;
    LiteralsTaken(src, i, out, lits, j);
    hide ReadLength, Extra, Nibble, TakeSequence, TakeMatch;
    var tail := MatchWritten(src, j, src[i], out + lits);
    s := Sequence(lits, OffsetAt(src, j), tail);
    SequenceJoined(src, i, s, src[i] % 16);
  }

  lemma SequenceJoined(src: seq<Byte>, i: nat, s: Sequence, low: nat)
    requires 1 <= s.offset <= 0xffff && s.matchLen >= 4 && low == Nibble(s.matchLen - 4)
    requires At(src, i, [16 * Nibble(|s.literals|) + low] + Extra(|s.literals|) + s.literals)
    requires At(src, i + 1 + |Extra(|s.literals|)| + |s.literals|,
                [s.offset % 256, s.offset / 256] + Extra(s.matchLen - 4))
    ensures At(src, i, EncodeSequence(s))
  {
    hide Extra, Nibble;
    var o: seq<Byte> := [s.offset % 256, s.offset / 256];
    var lead := [16 * Nibble(|s.literals|) + low] + Extra(|s.literals|) + s.literals;
    AtSplit(src, i, lead, o + Extra(s.matchLen - 4));
    assert EncodeSequence(s) == lead + (o + Extra(s.matchLen - 4));
  }

  lemma LiteralsTaken(src: seq<Byte>, i: nat, out: seq<Byte>, lits: seq<Byte>, j: nat)
    requires i < |src| && TakeSequence(src, i, out).More?
    requires var lit := ReadLength(src, i + 1, src[i] / 16);
      j == lit.next + lit.len <= |src| && lits == src[lit.next..j]
    ensures j < |src| && TakeSequence(src, i, out) == TakeMatch(src, j, src[i], out + lits)
  {
    hide ReadLength, TakeMatch;
  }

  lemma MatchWritten(src: seq<Byte>, j: nat, token: Byte, out: seq<Byte>) returns (len: nat)
    requires j < |src| && TakeMatch(src, j, token, out).More? && TakeMatch(src, j, token, out).next < |src|
    ensures len >= 4 && |out| + len <= CAP && Nibble(len - 4) == token % 16
    ensures j + 2 <= |src| && 1 <= OffsetAt(src, j) <= |out| && OffsetAt(src, j) <= 0xffff
    ensures At(src, j, [OffsetAt(src, j) % 256, OffsetAt(src, j) / 256] + Extra(len - 4))
  {
    len := ReadLength(src, j + 2, token % 16).len + 4;
    LengthWritten(src, j + 2, token % 16);
    hide ReadLength, Extra, Nibble;
    var o: seq<Byte> := [OffsetAt(src, j) % 256, OffsetAt(src, j) / 256];
    assert src[j..j + 2] == o;
    AtSplit(src, j, o, Extra(len - 4));
  }

  lemma {:induction false} BlockWritten(src: seq<Byte>, i: nat, out: seq<Byte>)
    returns (seqs: List<Sequence>, last: seq<Byte>, low: nat)
    requires i <= |src| && EndsInLiterals(src, i, out)
    ensures low < 16 && WellFormed(|out|, seqs) && MatchesFit(|out|, seqs)
    ensures src[i..] == EncodeBlock(seqs, last, low)
    decreases |src| - i
  {
    hide TakeSequence, ReadLength, CopyMatch, EncodeSequence, EncodeLast;
    if !EndsHere(src, i) {
      var s := SequenceWritten(src, i, out);
      SequenceRead(src, i, s, out);
      var next := i + |EncodeSequence(s)|;
      var rest;
      rest, last, low := BlockWritten(src, next, CopyMatch(out + s.literals, s.offset, s.matchLen));
      seqs := Cons(s, rest);
      TailSplit(src, i, EncodeSequence(s), EncodeBlock(rest, last, low));
    } else {
      last := LastWritten(src, i);
      seqs, low := Nil, src[i] % 16;
    }
  }

  lemma LastWritten(src: seq<Byte>, i: nat) returns (last: seq<Byte>)
    requires i < |src| && EndsHere(src, i)
    ensures src[i..] == EncodeLast(last, src[i] % 16)
  {
    last := LiteralsWritten(src, i);
  }

  lemma {:induction false} BlockEnds(src: seq<Byte>, i: nat, out: seq<Byte>,
                                     seqs: List<Sequence>, last: seq<Byte>, low: nat)
    requires low < 16 && WellFormed(|out|, seqs) && MatchesFit(|out|, seqs)
    requires i <= |src| && src[i..] == EncodeBlock(seqs, last, low)
    ensures EndsInLiterals(src, i, out)
    decreases seqs
  {
    hide TakeSequence, ReadLength, EncodeSequence, EncodeLast, CopyMatch;
    match seqs
    case Nil =>
      assert At(src, i, EncodeLast(last, low));
      LiteralsEnd(src, i, last, low);
    case Cons(s, rest) =>
      var next := i + |EncodeSequence(s)|;
      TailSplit(src, i, EncodeSequence(s), EncodeBlock(rest, last, low));
      SequenceRead(src, i, s, out);
      BlockEnds(src, next, CopyMatch(out + s.literals, s.offset, s.matchLen), rest, last, low);
  }

  lemma LiteralsEnd(src: seq<Byte>, i: nat, last: seq<Byte>, low: nat)
    requires low < 16 && At(src, i, EncodeLast(last, low)) && i + |EncodeLast(last, low)| == |src|
    ensures EndsHere(src, i)
  {
    hide ReadRun, EncodeRun;
    var head: seq<Byte> := [16 * Nibble(|last|) + low];
    AtSplit(src, i, head + Extra(|last|), last);
    AtSplit(src, i, head, Extra(|last|));
    assert src[i] == src[i..i + 1][0];
    LengthRead(src, i + 1, |last|);
  }

  /** An input is a well-formed block whose matches fit if and only if reading it ends in its last literals. */
  lemma BlocksExactly(src: seq<Byte>)
    ensures EndsInLiterals(src, 0, []) <==>
            exists seqs, last, low | low < 16 && WellFormed(0, seqs) && MatchesFit(0, seqs) ::
              src == EncodeBlock(seqs, last, low)
  {
    assert src[0..] == src;
    hide EndsInLiterals, WellFormed, MatchesFit, EncodeBlock;
    if EndsInLiterals(src, 0, []) {
      var seqs, last, low := BlockWritten(src, 0, []);
    }
    forall seqs, last, low |
      low < 16 && WellFormed(0, seqs) && MatchesFit(0, seqs) && src == EncodeBlock(seqs, last, low)
      ensures EndsInLiterals(src, 0, [])
    {
      BlockEnds(src, 0, [], seqs, last, low);
    }
  }

  /** A match is a periodic repeat: each byte it adds is the one `offset` before it. */
  lemma MatchRepeats(out: seq<Byte>, offset: nat, len: nat, k: nat)
    requires 0 < offset <= |out| && |out| <= k < |out| + len
    ensures CopyMatch(out, offset, len)[k] == CopyMatch(out, offset, len)[k - offset]
  {
    var j := k - |out|;
    if j >= offset {
      assert (j - offset) % offset == j % offset by { ModuloShift(j - offset, offset); }
    }
  }

  lemma ModuloShift(j: nat, m: nat)
    requires m > 0
    ensures (j + m) % m == j % m
  {
    var q, r := j / m, j % m;
    assert j + m == m * (q + 1) + r;
    DivisionUnique(j + m, m, q + 1, r);
  }

  lemma DivisionUnique(n: int, m: int, q: int, r: int)
    requires m > 0 && 0 <= r < m && n == m * q + r
    ensures n % m == r
  {
    var d := n / m - q;
    assert n == m * (n / m) + n % m;
    assert m * d == r - n % m;
    Multiple(m, d);
  }

  lemma {:induction false} Multiple(m: int, d: int)
    requires m > 0
    ensures d > 0 ==> m * d >= m
    ensures d < 0 ==> m * d <= -m
    decreases if d < 0 then -d else d
  {
    if d > 1 { Multiple(m, d - 1); }
    if d < -1 { Multiple(m, d + 1); }
  }

  // ---- truncated input ----

  lemma {:induction false} RunCut(src: seq<Byte>, n: nat, i: nat, base: nat)
    requires i <= n <= |src|
    ensures var a, b := ReadRun(src[..n], i, base), ReadRun(src, i, base);
      a == b || (a.next == n && a.len <= b.len && n <= b.next)
    decreases n - i
  {
    if i < n && src[i] == 255 {
      RunCut(src, n, i + 1, base + 255);
    }
  }

  lemma LengthCut(src: seq<Byte>, n: nat, i: nat, nibble: nat)
    requires i <= n <= |src| && nibble <= 15
    ensures var a, b := ReadLength(src[..n], i, nibble), ReadLength(src, i, nibble);
      a == b || (a.next == n && a.len <= b.len && n <= b.next)
  {
    if nibble == 15 {
      RunCut(src, n, i, 15);
    }
  }

  /** Cutting the input inside the literals loses only literals. */
  lemma LiteralsCut(src: seq<Byte>, n: nat, i: nat, out: seq<Byte>)
    requires i < n <= |src|
    ensures var a, b := TakeLiterals(src[..n], i, out), TakeLiterals(src, i, out);
      (a.More? && a == b) || (a.Stop? && a.out <= b.out)
  {
    hide ReadLength;
    LengthCut(src, n, i + 1, src[i] / 16);
    var lit := ReadLength(src, i + 1, src[i] / 16);
    if lit.next <= n {
      var stop := if lit.next + lit.len < |src| then lit.next + lit.len else |src|;
      assert n <= stop ==> src[lit.next..stop][..n - lit.next] == src[..n][lit.next..];
    }
  }

  /** Cutting it inside the match makes the match shorter, or drops it. */
  lemma MatchCut(src: seq<Byte>, n: nat, i: nat, token: Byte, out: seq<Byte>)
    requires i < n <= |src|
    requires !(TakeMatch(src, i, token, out).Stop? && TakeMatch(src, i, token, out).capped)
    ensures var a, b := TakeMatch(src[..n], i, token, out), TakeMatch(src, i, token, out);
      a == b || (a.Stop? && !a.capped && a.out <= b.out) || (a.More? && a.next == n && a.out <= b.out)
  {
    hide ReadLength;
    if i + 2 <= n {
      LengthCut(src, n, i + 2, token % 16);
    }
  }

  lemma SequenceCut(src: seq<Byte>, n: nat, i: nat, out: seq<Byte>)
    requires i < n <= |src|
    requires !(TakeSequence(src, i, out).Stop? && TakeSequence(src, i, out).capped)
    ensures var a, b := TakeSequence(src[..n], i, out), TakeSequence(src, i, out);
      || (a.More? && a == b)
      || (a.Stop? && !a.capped && a.out <= b.out)
      || (a.More? && a.next == n && a.out <= b.out)
  {
    hide TakeLiterals, TakeMatch;
    LiteralsCut(src, n, i, out);
    var b := TakeLiterals(src, i, out);
    if b.More? && b.next < n {
      MatchCut(src, n, b.next, src[i], b.out);
    }
  }

  /** Wherever the input is cut, what comes out is the beginning of what the whole would give. */
  lemma {:induction false} TruncationIsMonotone(src: seq<Byte>, n: nat, i: nat, out: seq<Byte>)
    requires i <= n <= |src| && !Decompressed(src, i, out).capped
    ensures !Decompressed(src[..n], i, out).capped
    ensures Decompressed(src[..n], i, out).out <= Decompressed(src, i, out).out
    decreases n - i
  {
    hide TakeSequence;
    if i < n {
      SequenceCut(src, n, i, out);
      var a, b := TakeSequence(src[..n], i, out), TakeSequence(src, i, out);
      if a.More? && a == b {
        TruncationIsMonotone(src, n, a.next, a.out);
      }
    }
  }

  // ---- how large the output can get ----

  lemma {:induction false} OutputBounds(src: seq<Byte>, i: nat, out: seq<Byte>)
    requires i <= |src| && |out| <= CAP + i
    ensures |Decompressed(src, i, out).out| <= |out| + 255 * (|src| - i)
    ensures |Decompressed(src, i, out).out| <= CAP + |src|
    decreases |src| - i
  {
    hide TakeSequence;
    if i < |src| {
      var o := TakeSequence(src, i, out);
      if o.More? {
        OutputBounds(src, o.next, o.out);
      }
    }
  }

  /** Some run of literals takes the output past the cap, which nothing checks. */
  predicate LiteralsPassCap(src: seq<Byte>, i: nat, out: seq<Byte>)
    requires i <= |src|
    decreases |src| - i
  {
    i < |src| &&
    (|TakeLiterals(src, i, out).out| > CAP ||
     var o := TakeSequence(src, i, out);
     o.More? && LiteralsPassCap(src, o.next, o.out))
  }

  /** The output passes the cap exactly when a run of literals takes it there. */
  lemma {:induction false} CapPassedByLiterals(src: seq<Byte>, i: nat, out: seq<Byte>)
    requires i <= |src| && |out| <= CAP
    ensures |Decompressed(src, i, out).out| > CAP <==> LiteralsPassCap(src, i, out)
    decreases |src| - i
  {
    hide TakeLiterals, TakeMatch;
    if i < |src| {
      var o := TakeSequence(src, i, out);
      if o.More? {
        CapPassedByLiterals(src, o.next, o.out);
      }
    }
  }

  /** A match that starts inside the output is reached, and would end past the cap. */
  predicate MatchPassesCap(src: seq<Byte>, i: nat, out: seq<Byte>)
    requires i <= |src|
    decreases |src| - i
  {
    i < |src| &&
    var lits, o := TakeLiterals(src, i, out), TakeSequence(src, i, out);
    || (lits.More? && lits.next + 2 <= |src|
        && 1 <= OffsetAt(src, lits.next) <= |lits.out|
        && |lits.out| + 4 + ReadLength(src, lits.next + 2, src[i] % 16).len > CAP)
    || (o.More? && MatchPassesCap(src, o.next, o.out))
  }

  function OffsetAt(src: seq<Byte>, i: nat): nat
    requires i + 2 <= |src|
  {
    src[i] as int + 256 * src[i + 1] as int
  }

  /** Capped is reported exactly when such a match is reached, and never for literals. */
  lemma {:induction false} CappedExactly(src: seq<Byte>, i: nat, out: seq<Byte>)
    requires i <= |src|
    ensures Decompressed(src, i, out).capped <==> MatchPassesCap(src, i, out)
    decreases |src| - i
  {
    hide TakeLiterals, ReadLength, CopyMatch;
    if i < |src| {
      var o := TakeSequence(src, i, out);
      if o.More? {
        CappedExactly(src, o.next, o.out);
      }
    }
  }

  /** An input whose output is past the cap, uncapped: a match up to the cap, then one more literal. */
  lemma CapCanBePassed()
    ensures exists src :: !Decompressed(src, 0, []).capped && |Decompressed(src, 0, []).out| == CAP + 1
  {
    hide Decompressed, EncodeBlock, CopyMatch;
    var s := Sequence([65], 1, CAP - 1);
    var seqs := Cons(s, Nil);
    assert WellFormed(CAP, Nil) && MatchesFit(CAP, Nil);
    assert WellFormed(0, seqs) && MatchesFit(0, seqs);
    var src := EncodeBlock(seqs, [66], 0);
    RoundTrip(seqs, [66], 0);
    assert Meaning([], seqs, [66]) == Meaning(CopyMatch([] + [65], 1, CAP - 1), Nil, [66]);
    assert !Decompressed(src, 0, []).capped;
  }

  // ---- the decompressor as the gateway runs it ----

  lemma {:induction false} RunShift(src: seq<Byte>, i: nat, base: nat, more: nat)
    requires i <= |src|
    ensures ReadRun(src, i, base + more) == ReadRun(src, i, base).(len := ReadRun(src, i, base).len + more)
    decreases |src| - i
  {
    if i < |src| && src[i] == 255 {
      RunShift(src, i + 1, base + 255, more);
    }
  }

  /** A length that starts in a nibble: after a 15, bytes are added for as long as they are 255. */
  method ReadLengthBytes(src: seq<Byte>, i: nat, nibble: nat, more: nat) returns (len: nat, next: nat)
    requires i <= |src| && nibble <= 15
    ensures Run(len, next) == ReadLength(src, i, nibble).(len := ReadLength(src, i, nibble).len + more)
  {
    len, next := nibble + more, i;
    if nibble == 15 {
      RunShift(src, i, 15, more);
      while next < |src|
        invariant i <= next <= |src|
        invariant ReadRun(src, next, len) == ReadRun(src, i, 15 + more)
      {
        var b := src[next];
        next := next + 1;
        len := len + b;
        if b != 0xff {
          break;
        }
      }
    }
  }

  lemma OneSequence(src: seq<Byte>, i: nat, out: seq<Byte>)
    requires i < |src|
    ensures Decompressed(src, i, out) ==
            match TakeSequence(src, i, out)
            case Stop(all, capped) => Result(all, capped)
            case More(next, part) => Decompressed(src, next, part)
  {
    hide TakeSequence;
  }

  /** Decompresses a block, reporting whether it stopped at the cap. */
  method Lz4BlockDecompress(src: seq<Byte>) returns (out: seq<Byte>, capped: bool)
    ensures Result(out, capped) == Decompressed(src, 0, [])
  {
    hide ReadLength, CopyMatch, Decompressed;
    out, capped := [], false;
    var i, n := 0, |src|;
    while i < n
      invariant i <= n
      invariant Decompressed(src, i, out) == Decompressed(src, 0, [])
    {
      OneSequence(src, i, out);
      ghost var at, before := i, out;
      var token := src[i];
      var litLen;
      litLen, i := ReadLengthBytes(src, i + 1, token / 16, 0);
      if i + litLen > n { // truncated: take what is there
        return out + src[i..n], false;
      }
      out := out + src[i..i + litLen];
      i := i + litLen;
      if i >= n { // the last literals, with no match after them
        return out, false;
      }
      assert TakeLiterals(src, at, before) == More(i, out);
      hide TakeLiterals;
      if i + 2 > n {
        return out, false;
      }
      var offset := src[i] as int + src[i + 1] as int * 256;
      i := i + 2;
      if offset == 0 || offset > |out| {
        return out, false;
      }
      var matchLen;
      matchLen, i := ReadLengthBytes(src, i, token % 16, 4);
      if |out| + matchLen > CAP {
        return out, true; // a bomb, not a message
      }
      out := CopyBytes(out, offset, matchLen);
    }
    OneEnd(src, out);
  }

  lemma OneEnd(src: seq<Byte>, out: seq<Byte>)
    ensures Decompressed(src, |src|, out) == Result(out, false)
  {}

  lemma CopyNext(out: seq<Byte>, offset: nat, j: nat)
    requires 0 < offset <= |out|
    ensures var part := CopyMatch(out, offset, j);
      part + [part[|out| - offset + j]] == CopyMatch(out, offset, j + 1)
  {
    var part, whole := CopyMatch(out, offset, j), CopyMatch(out, offset, j + 1);
    MatchRepeats(out, offset, j + 1, |out| + j);
    assert whole[..|out| + j] == part;
    assert whole == whole[..|out| + j] + [whole[|out| + j]];
  }

  /** Appends the match byte by byte, so that it may run into what it appends. */
  method CopyBytes(before: seq<Byte>, offset: nat, matchLen: nat) returns (out: seq<Byte>)
    requires 0 < offset <= |before|
    ensures out == CopyMatch(before, offset, matchLen)
  {
    var start := |before| - offset;
    out := before;
    assert out == CopyMatch(before, offset, 0);
    hide CopyMatch;
    for j := 0 to matchLen
      invariant out == CopyMatch(before, offset, j)
    {
      CopyNext(before, offset, j);
      out := out + [out[start + j]];
    }
  }
}
