/**
  What the decompressor makes of a block that is cut short, byte for byte: the sequences before
  the cut, and of the one it falls into the literals that arrived and as much of the match as its
  length says so far. And what it makes of an offset that leads nowhere.
 */
module Lz4Cuts {
  import opened Bytes
  import opened Lists
  import opened Lz4

  function EncodeSequences(seqs: List<Sequence>): seq<Byte>
    requires Spellable(seqs)
  {
    match seqs
    case Nil => []
    case Cons(s, rest) => EncodeSequence(s) + EncodeSequences(rest)
  }

  /** How many of `n` literals are among the first `j` bytes, after `head` bytes of token and length. */
  function Arrived(j: nat, head: nat, n: nat): (k: nat)
    ensures k <= n && k <= j && (j >= head + n ==> k == n) && (j <= head ==> k == 0)
    ensures head <= j <= head + n ==> k == j - head
  {
    if j <= head then 0 else if j - head < n then j - head else n
  }

  /** The bytes before the literals of a sequence. */
  function HeadSize(n: nat): nat {
    1 + |Extra(n)|
  }

  /** What the first `j` bytes of a sequence add, fewer than all. */
  function CutMeaning(out: seq<Byte>, s: Sequence, j: nat): Result
    requires 1 <= s.offset <= |out| + |s.literals|
  {
    var part, at := out + s.literals, HeadSize(|s.literals|) + |s.literals|;
    if j <= at + 1 then Result(out + s.literals[..Arrived(j, HeadSize(|s.literals|), |s.literals|)], false)
    else
      var len := 19 + 255 * (j - at - 2);
      if |part| + len > 0x400_0000 then Result(part, true) else Result(CopyMatch(part, s.offset, len), false)
  }

  /** What stands from `i` to the end is the first `j` bytes of `whole`. */
  ghost predicate CutAt(src: seq<Byte>, i: nat, whole: seq<Byte>, j: nat) {
    i <= |src| && j <= |whole| && src[i..] == whole[..j]
  }

  lemma CutSplit(src: seq<Byte>, i: nat, a: seq<Byte>, b: seq<Byte>, j: nat)
    requires CutAt(src, i, a + b, j)
    ensures |src| == i + j
    ensures j >= |a| ==> At(src, i, a) && CutAt(src, i + |a|, b, j - |a|)
    ensures j <= |a| ==> CutAt(src, i, a, j)
  {
    if j >= |a| {
      assert src[i..i + |a|] == src[i..][..|a|] == a;
      assert src[i + |a|..] == src[i..][|a|..] == (a + b)[..j][|a|..] == b[..j - |a|];
    } else {
      assert (a + b)[..j] == a[..j];
    }
  }

  lemma {:induction false} RunCutAt(src: seq<Byte>, i: nat, n: nat, base: nat, j: nat)
    requires CutAt(src, i, EncodeRun(n), j) && j < |EncodeRun(n)|
    ensures ReadRun(src, i, base) == Run(base + 255 * j, |src|)
    decreases n
  {
    if j > 0 {
      assert n >= 255;
      CutSplit(src, i, [255], EncodeRun(n - 255), j);
      assert src[i] == src[i..i + 1][0];
      RunCutAt(src, i + 1, n - 255, base + 255, j - 1);
    }
  }

  /** Of literals cut short, or whose length is, exactly those that arrived are taken. */
  lemma LiteralsCutAt(src: seq<Byte>, i: nat, lits: seq<Byte>, low: nat, out: seq<Byte>, j: nat)
    requires low < 16 && 1 <= j < HeadSize(|lits|) + |lits|
    requires CutAt(src, i, [16 * Nibble(|lits|) + low] + Extra(|lits|) + lits, j)
    ensures i < |src| && TakeLiterals(src, i, out) == Stop(out + lits[..Arrived(j, HeadSize(|lits|), |lits|)], false)
  {
    var token: seq<Byte> := [16 * Nibble(|lits|) + low];
    var extra := Extra(|lits|);
    hide ReadRun, EncodeRun, ReadLength, Extra, TakeLiterals, Nibble;
    assert token + extra + lits == token + (extra + lits);
    CutSplit(src, i, token, extra + lits, j);
    assert src[i] == src[i..i + 1][0] == token[0];
    assert src[i] / 16 == Nibble(|lits|) by { HighNibble(Nibble(|lits|), low); }
    CutSplit(src, i + 1, extra, lits, j - 1);
    if j - 1 < |extra| {
      LengthCutAt(src, i + 1, |lits|, j - 1);
      TakesWhatIsThere(src, i, out);
      assert src[|src|..] == [] && lits[..0] == [];
    } else {
      LengthRead(src, i + 1, |lits|);
      TakesWhatIsThere(src, i, out);
    }
  }

  lemma HighNibble(high: nat, low: nat)
    requires low < 16
    ensures (16 * high + low) / 16 == high
  {}

  lemma TakesWhatIsThere(src: seq<Byte>, i: nat, out: seq<Byte>)
    requires i < |src|
    ensures var lit := ReadLength(src, i + 1, src[i] / 16);
      lit.next + lit.len > |src| ==> TakeLiterals(src, i, out) == Stop(out + src[lit.next..], false)
  {
    hide ReadLength;
  }

  lemma LengthCutAt(src: seq<Byte>, i: nat, n: nat, j: nat)
    requires CutAt(src, i, Extra(n), j) && j < |Extra(n)|
    ensures Nibble(n) == 15 && ReadLength(src, i, 15) == Run(15 + 255 * j, |src|)
  {
    RunCutAt(src, i, n - 15, 15, j);
  }

  /** The last literals of a block, cut short. */
  lemma LastCutAt(src: seq<Byte>, i: nat, last: seq<Byte>, low: nat, out: seq<Byte>, j: nat)
    requires low < 16 && CutAt(src, i, EncodeLast(last, low), j) && j < |EncodeLast(last, low)|
    ensures Decompressed(src, i, out) == Result(out + last[..Arrived(j, HeadSize(|last|), |last|)], false)
  {
    if j > 0 {
      LiteralsCutAt(src, i, last, low, out, j);
    }
  }

  /** A sequence up to its offset, and from there. */
  function Lead(s: Sequence): seq<Byte>
    requires s.matchLen >= 4
  {
    [16 * Nibble(|s.literals|) + Nibble(s.matchLen - 4)] + Extra(|s.literals|) + s.literals
  }

  function Tail(s: Sequence): seq<Byte>
    requires 1 <= s.offset <= 0xffff && s.matchLen >= 4
  {
    [s.offset % 256, s.offset / 256] + Extra(s.matchLen - 4)
  }

  lemma LeadAndTail(s: Sequence)
    requires 1 <= s.offset <= 0xffff && s.matchLen >= 4
    ensures EncodeSequence(s) == Lead(s) + Tail(s) && |Lead(s)| == HeadSize(|s.literals|) + |s.literals|
  {
    hide Extra, Nibble;
  }

  /** A sequence cut short. */
  lemma SequenceCutAt(src: seq<Byte>, i: nat, s: Sequence, out: seq<Byte>, j: nat)
    requires 1 <= s.offset <= 0xffff && s.offset <= |out| + |s.literals| && s.matchLen >= 4
    requires CutAt(src, i, EncodeSequence(s), j) && j < |EncodeSequence(s)|
    ensures Decompressed(src, i, out) == CutMeaning(out, s, j)
  {
    hide EncodeSequence, Decompressed, CopyMatch, Lead, Tail, TakeMatch, TakeLiterals, HeadSize, Arrived, CutAt;
    LeadAndTail(s);
    CutSplit(src, i, Lead(s), Tail(s), j);
    if j == 0 {
      assert out + s.literals[..0] == out;
      NothingLeft(src, out);
    } else if j < |Lead(s)| {
      CutInLead(src, i, s, out, j);
    } else {
      CutInTail(src, i, s, out, j - |Lead(s)|);
    }
  }

  lemma CutInTail(src: seq<Byte>, i: nat, s: Sequence, out: seq<Byte>, k: nat)
    requires 1 <= s.offset <= 0xffff && s.offset <= |out| + |s.literals| && s.matchLen >= 4
    requires At(src, i, Lead(s)) && CutAt(src, i + |Lead(s)|, Tail(s), k) && k < |Tail(s)|
    requires |src| == i + |Lead(s)| + k
    ensures Decompressed(src, i, out) == CutMeaning(out, s, |Lead(s)| + k)
  {
    hide EncodeSequence, Decompressed, CopyMatch, Lead, Tail, TakeMatch, TakeLiterals, HeadSize, CutAt, CutMeaning, At;
    LeadAndTail(s);
    LeadRead(src, i, s, out);
    CutMeant(out, s, k);
    if k == 0 {
      EndsInside(src, i, out);
    } else {
      MatchCutAt(src, i + |Lead(s)|, src[i], s, out + s.literals, k);
      EndsInMatch(src, i, out);
    }
  }

  lemma CutMeant(out: seq<Byte>, s: Sequence, k: nat)
    requires 1 <= s.offset <= |out| + |s.literals|
    ensures var part, r := out + s.literals, CutMeaning(out, s, HeadSize(|s.literals|) + |s.literals| + k);
      && (k <= 1 ==> r == Result(part, false))
      && (k >= 2 && |part| + 19 + 255 * (k - 2) > 0x400_0000 ==> r == Result(part, true))
      && (k >= 2 && |part| + 19 + 255 * (k - 2) <= 0x400_0000 ==>
            r == Result(CopyMatch(part, s.offset, 19 + 255 * (k - 2)), false))
  {
    hide CopyMatch, HeadSize;
    assert s.literals[..|s.literals|] == s.literals;
  }

  lemma CutInLead(src: seq<Byte>, i: nat, s: Sequence, out: seq<Byte>, j: nat)
    requires s.matchLen >= 4 && 1 <= j < |Lead(s)| && CutAt(src, i, Lead(s), j)
    ensures Decompressed(src, i, out) ==
            Result(out + s.literals[..Arrived(j, HeadSize(|s.literals|), |s.literals|)], false)
  {
    hide Decompressed, TakeLiterals, Extra, Nibble;
    LiteralsCutAt(src, i, s.literals, Nibble(s.matchLen - 4), out, j);
    EndsInside(src, i, out);
  }

  lemma LeadRead(src: seq<Byte>, i: nat, s: Sequence, out: seq<Byte>)
    requires s.matchLen >= 4 && At(src, i, Lead(s))
    ensures var end := i + |Lead(s)|;
      && i < |src| && src[i] % 16 == Nibble(s.matchLen - 4)
      && TakeLiterals(src, i, out) ==
         if end == |src| then Stop(out + s.literals, false) else More(end, out + s.literals)
  {
    hide TakeLiterals, Extra, Nibble;
    LiteralsRead(src, i, s.literals, Nibble(s.matchLen - 4), out);
  }

  lemma NothingLeft(src: seq<Byte>, out: seq<Byte>)
    ensures Decompressed(src, |src|, out) == Result(out, false)
  {}

  lemma EndsInside(src: seq<Byte>, i: nat, out: seq<Byte>)
    requires i < |src| && TakeLiterals(src, i, out).Stop?
    ensures Decompressed(src, i, out) == Result(TakeLiterals(src, i, out).out, false)
  {
    hide TakeLiterals;
  }

  lemma EndsInMatch(src: seq<Byte>, i: nat, out: seq<Byte>)
    requires i < |src| && TakeLiterals(src, i, out).More?
    requires var lits := TakeLiterals(src, i, out);
      var o := TakeMatch(src, lits.next, src[i], lits.out); o.More? ==> o.next == |src|
    ensures var lits := TakeLiterals(src, i, out);
      var o := TakeMatch(src, lits.next, src[i], lits.out);
      Decompressed(src, i, out) == Result(o.out, o.Stop? && o.capped)
  {
    hide TakeLiterals, TakeMatch;
  }

  lemma MatchCutAt(src: seq<Byte>, i: nat, token: Byte, s: Sequence, part: seq<Byte>, j: nat)
    requires 1 <= s.offset <= 0xffff && s.offset <= |part| && s.matchLen >= 4 && token % 16 == Nibble(s.matchLen - 4)
    requires 1 <= j < |Tail(s)| && CutAt(src, i, Tail(s), j)
    ensures i < |src| && TakeMatch(src, i, token, part) ==
            if j == 1 then Stop(part, false)
            else if |part| + 19 + 255 * (j - 2) > 0x400_0000 then Stop(part, true)
            else More(|src|, CopyMatch(part, s.offset, 19 + 255 * (j - 2)))
  {
    var o: seq<Byte> := [s.offset % 256, s.offset / 256];
    hide ReadLength, Extra, Nibble, CopyMatch, TakeMatch;
    CutSplit(src, i, o, Extra(s.matchLen - 4), j);
    if j == 1 {
      OffsetMissing(src, i, token, part);
    } else {
      assert src[i] == src[i..i + 2][0] && src[i + 1] == src[i..i + 2][1];
      LengthCutAt(src, i + 2, s.matchLen - 4, j - 2);
      MatchSoFar(src, i, token, s.offset, part);
    }
  }

  lemma OffsetMissing(src: seq<Byte>, i: nat, token: Byte, part: seq<Byte>)
    requires |src| == i + 1
    ensures TakeMatch(src, i, token, part) == Stop(part, false)
  {}

  lemma MatchSoFar(src: seq<Byte>, i: nat, token: Byte, offset: nat, part: seq<Byte>)
    requires i + 2 <= |src| && 1 <= offset <= 0xffff && offset <= |part|
    requires src[i] == offset % 256 && src[i + 1] == offset / 256
    ensures var run := ReadLength(src, i + 2, token % 16);
      TakeMatch(src, i, token, part) ==
      if |part| + run.len + 4 > 0x400_0000 then Stop(part, true)
      else More(run.next, CopyMatch(part, offset, run.len + 4))
  {
    hide ReadLength, CopyMatch;
    assert OffsetAt(src, i) == offset;
  }

  /** Whole sequences that fit are read as what they mean, whatever comes after them. */
  lemma {:induction false} SequencesRead(src: seq<Byte>, i: nat, out: seq<Byte>, seqs: List<Sequence>)
    requires WellFormed(|out|, seqs) && MatchesFit(|out|, seqs) && At(src, i, EncodeSequences(seqs))
    ensures Decompressed(src, i, out) == Decompressed(src, i + |EncodeSequences(seqs)|, Meaning(out, seqs, []))
    decreases seqs
  {
    hide TakeSequence, EncodeSequence, CopyMatch;
    match seqs
    case Nil =>
      assert out + [] == out;
    case Cons(s, rest) =>
      AtSplit(src, i, EncodeSequence(s), EncodeSequences(rest));
      SequenceRead(src, i, s, out);
      SomethingThere(src, i, s);
      SequencesRead(src, i + |EncodeSequence(s)|, CopyMatch(out + s.literals, s.offset, s.matchLen), rest);
  }

  lemma SomethingThere(src: seq<Byte>, i: nat, s: Sequence)
    requires 1 <= s.offset <= 0xffff && s.matchLen >= 4 && At(src, i, EncodeSequence(s))
    ensures i < |src|
  {}

  /**
    A block cut inside the sequence after `front`: the output is what `front` means, then the
    literals that arrived, and then, if the offset did and the cut is in the match's length, a
    match as long as the length is so far, unless that would pass the cap.
   */
  lemma CutExactly(front: List<Sequence>, s: Sequence, j: nat)
    requires WellFormed(0, front) && MatchesFit(0, front)
    requires 1 <= s.offset <= 0xffff && s.offset <= |Meaning([], front, [])| + |s.literals| && s.matchLen >= 4
    requires j < |EncodeSequence(s)|
    ensures Decompressed(EncodeSequences(front) + EncodeSequence(s)[..j], 0, []) ==
            CutMeaning(Meaning([], front, []), s, j)
  {
    hide Decompressed, EncodeSequence, EncodeSequences, CutMeaning, Meaning, WellFormed, MatchesFit;
    var a, b := EncodeSequences(front), EncodeSequence(s)[..j];
    var src := a + b;
    assert At(src, 0, a) && src[|a|..] == b;
    SequencesRead(src, 0, [], front);
    SequenceCutAt(src, |a|, s, Meaning([], front, []), j);
  }

  /** And cut inside its last literals. */
  lemma LastCutExactly(front: List<Sequence>, last: seq<Byte>, low: nat, j: nat)
    requires WellFormed(0, front) && MatchesFit(0, front) && low < 16 && j < |EncodeLast(last, low)|
    ensures Decompressed(EncodeSequences(front) + EncodeLast(last, low)[..j], 0, []) ==
            Result(Meaning([], front, []) + last[..Arrived(j, HeadSize(|last|), |last|)], false)
  {
    hide Decompressed, EncodeLast, EncodeSequences, Meaning, MatchesFit;
    var a, b := EncodeSequences(front), EncodeLast(last, low)[..j];
    var src := a + b;
    assert At(src, 0, a) && src[|a|..] == b;
    SequencesRead(src, 0, [], front);
    LastCutAt(src, |a|, last, low, Meaning([], front, []), j);
  }

  /** An offset of nought, or one past the start of the output, ends it after the literals; what follows is not read. */
  lemma BadOffsetExactly(front: List<Sequence>, lits: seq<Byte>, low: nat, offset: nat, more: seq<Byte>)
    requires WellFormed(0, front) && MatchesFit(0, front) && low < 16 && offset <= 0xffff
    requires offset == 0 || offset > |Meaning([], front, [])| + |lits|
    ensures Decompressed(EncodeSequences(front) + EncodeLast(lits, low) + [offset % 256, offset / 256] + more, 0, []) ==
            Result(Meaning([], front, []) + lits, false)
  {
    hide EncodeSequences, Meaning, MatchesFit, TakeLiterals, EncodeLast;
    var a, b, o: seq<Byte> := EncodeSequences(front), EncodeLast(lits, low), [offset % 256, offset / 256];
    var src := a + b + o + more;
    assert src == a + (b + o + more);
    assert At(src, 0, a) && At(src, |a|, b);
    SequencesRead(src, 0, [], front);
    EndedByOffset(src, |a|, lits, low, offset, Meaning([], front, []));
  }

  lemma EndedByOffset(src: seq<Byte>, i: nat, lits: seq<Byte>, low: nat, offset: nat, out: seq<Byte>)
    requires low < 16 && offset <= 0xffff && (offset == 0 || offset > |out| + |lits|)
    requires var j := i + |EncodeLast(lits, low)|;
      At(src, i, EncodeLast(lits, low)) && j + 2 <= |src| && src[j] == offset % 256 && src[j + 1] == offset / 256
    ensures Decompressed(src, i, out) == Result(out + lits, false)
  {
    hide TakeLiterals, TakeMatch, Extra, Nibble, ReadLength, CopyMatch, Decompressed;
    LiteralsRead(src, i, lits, low, out);
    OffsetNowhere(src, i + |EncodeLast(lits, low)|, src[i], offset, out + lits);
    EndsInMatch(src, i, out);
  }

  lemma OffsetNowhere(src: seq<Byte>, j: nat, token: Byte, offset: nat, part: seq<Byte>)
    requires j + 2 <= |src| && offset <= 0xffff && src[j] == offset % 256 && src[j + 1] == offset / 256
    requires offset == 0 || offset > |part|
    ensures TakeMatch(src, j, token, part) == Stop(part, false)
  {
    hide ReadLength, CopyMatch;
    assert OffsetAt(src, j) == offset;
  }
}
