/**
  The cursor tokens a caller hands back: a session's id, a bar, and a position in its
  timeline as two decimal numbers with a colon between them.
 */
module Cursors {
  import opened Bytes
  import opened Timeline

  function Digit(d: nat): char
    requires d < 10
  {
    '0' + d as char
  }

  function DecimalNat(n: nat): (s: string)
    ensures |s| >= 1 && forall c <- s :: '0' <= c <= '9'
  {
    if n < 10 then [Digit(n)] else DecimalNat(n / 10) + [Digit(n % 10)]
  }

  function Decimal(n: int): string {
    if n < 0 then "-" + DecimalNat(-n) else DecimalNat(n)
  }

  /** Decimal digits, at least one. */
  function ParseDigits(s: string): Option<nat> {
    if s == [] then None
    else
      var c := s[|s| - 1];
      if !('0' <= c <= '9') then None
      else
        var d := c as int - '0' as int;
        if |s| == 1 then Some(d)
        else match ParseDigits(s[..|s| - 1]) case None => None case Some(n) => Some(10 * n + d)
  }

  function ParseInt(s: string): Option<int> {
    if s != [] && s[0] == '-' then
      match ParseDigits(s[1..]) case None => None case Some(n) => Some(-(n as int))
    else match ParseDigits(s) case None => None case Some(n) => Some(n)
  }

  /** What is before the first `c`, and what is after it; nothing, if there is none. */
  function Partition(s: string, c: char): (r: (string, string)) {
    if s == [] then ([], [])
    else if s[0] == c then ([], s[1..])
    else var rest := Partition(s[1..], c); ([s[0]] + rest.0, rest.1)
  }

  /** The numbers a cursor can carry: a signed and an unsigned 64-bit one. */
  predicate InRange(k: Key) {
    -0x8000_0000_0000_0000 <= k.ts < 0x8000_0000_0000_0000 && 0 <= k.frame < 0x1_0000_0000_0000_0000
  }

  function CursorString(k: Key): string {
    Decimal(k.ts) + ":" + Decimal(k.frame)
  }

  datatype Parsed = NoCursor | At(key: Key) | BadCursor

  function ParseCursor(token: string): Parsed {
    if token == [] then NoCursor
    else
      var (ts, frame) := Partition(token, ':');
      match (ParseInt(ts), ParseInt(frame))
      case (Some(t), Some(f)) => if InRange(Key(t, f)) then At(Key(t, f)) else BadCursor
      case _ => BadCursor
  }

  lemma {:induction false} DigitsParsed(n: nat)
    ensures ParseDigits(DecimalNat(n)) == Some(n)
  {
    if n >= 10 {
      DigitsParsed(n / 10);
      assert DecimalNat(n)[..|DecimalNat(n)| - 1] == DecimalNat(n / 10);
    }
  }

  lemma IntParsed(n: int)
    ensures ParseInt(Decimal(n)) == Some(n)
  {
    hide ParseDigits, DecimalNat;
    if n < 0 {
      DigitsParsed(-n);
      assert Decimal(n)[1..] == DecimalNat(-n);
    } else {
      DigitsParsed(n);
      assert DecimalNat(n)[0] in DecimalNat(n);
    }
  }

  lemma {:induction false} PartitionAt(before: string, c: char, after: string)
    requires c !in before
    ensures Partition(before + [c] + after, c) == (before, after)
  {
    var s := before + [c] + after;
    if before == [] {
      assert s[1..] == after;
    } else {
      assert before[0] in before && before == [before[0]] + before[1..];
      PartitionAt(before[1..], c, after);
      assert s[1..] == before[1..] + [c] + after;
    }
  }

  lemma {:induction false} PartitionFirst(s: string, c: char)
    requires c in s
    ensures c !in Partition(s, c).0 && s == Partition(s, c).0 + [c] + Partition(s, c).1
  {
    if s[0] == c {
      assert s == [c] + s[1..];
    } else {
      PartitionFirst(s[1..], c);
      assert s == [s[0]] + s[1..];
    }
  }

  /** A decimal number holds no separator. */
  lemma DecimalPlain(n: int)
    ensures ':' !in Decimal(n) && Decimal(n) != []
  {
    var digits := DecimalNat(if n < 0 then -n else n);
    assert ':' !in digits;
  }

  /** A position is read back from its token. */
  lemma CursorRoundTrip(k: Key)
    requires InRange(k)
    ensures ParseCursor(CursorString(k)) == At(k)
  {
    hide Decimal, ParseInt;
    DecimalPlain(k.ts);
    PartitionAt(Decimal(k.ts), ':', Decimal(k.frame));
    IntParsed(k.ts);
    IntParsed(k.frame);
  }

  // ---- exactly the tokens that are read ----

  predicate AllDigits(s: string) {
    forall i | 0 <= i < |s| :: '0' <= s[i] <= '9'
  }

  /** A decimal digit's place counts ten times the place after it. */
  function Value(s: string): nat
    requires AllDigits(s)
  {
    if s == [] then 0 else Value(s[..|s| - 1]) * 10 + (s[|s| - 1] as int - 48)
  }

  /** Digits, at least one, perhaps after a minus sign. */
  predicate IsNumber(s: string, n: int) {
    var digits := if s != [] && s[0] == '-' then s[1..] else s;
    && digits != [] && AllDigits(digits)
    && n == if s[0] == '-' then -(Value(digits) as int) else Value(digits)
  }

  lemma {:induction false} DigitsExactly(s: string)
    ensures ParseDigits(s).Some? <==> s != [] && AllDigits(s)
    ensures ParseDigits(s).Some? ==> ParseDigits(s).value == Value(s)
  {
    if |s| > 1 {
      var front, last := s[..|s| - 1], s[|s| - 1];
      DigitsExactly(front);
      assert s == front + [last];
    } else if |s| == 1 {
      assert s[..0] == [];
    }
  }

  lemma NumberExactly(s: string, n: int)
    ensures ParseInt(s) == Some(n) <==> IsNumber(s, n)
  {
    hide ParseDigits, Value;
    DigitsExactly(s);
    if s != [] { DigitsExactly(s[1..]); }
  }

  lemma NumberPlain(s: string, n: int)
    requires IsNumber(s, n)
    ensures ':' !in s
  {
    hide Value;
    assert s[0] == '-' ==> s == ['-'] + s[1..];
  }

  /**
    A token is a position if and only if it is two numbers with a colon between them that are
    in range; an empty one is none, and every other is refused.
   */
  lemma ParsedExactly(token: string, k: Key)
    ensures ParseCursor(token) == At(k) <==>
            InRange(k) && exists a, b | IsNumber(a, k.ts) && IsNumber(b, k.frame) :: token == a + ":" + b
    ensures ParseCursor(token).NoCursor? <==> token == []
  {
    hide ParseInt, IsNumber;
    if ParseCursor(token) == At(k) {
      var (ts, frame) := Partition(token, ':');
      NumberExactly(ts, k.ts);
      NumberExactly(frame, k.frame);
      if ':' in token {
        PartitionFirst(token, ':');
      } else {
        PartitionNone(token, ':');
        assert ParseInt([]).None? by { NoNumber(); }
      }
    }
    forall a, b | IsNumber(a, k.ts) && IsNumber(b, k.frame) && token == a + ":" + b && InRange(k)
      ensures ParseCursor(token) == At(k)
    {
      NumberPlain(a, k.ts);
      PartitionAt(a, ':', b);
      NumberExactly(a, k.ts);
      NumberExactly(b, k.frame);
    }
  }

  lemma NoNumber()
    ensures ParseInt([]).None?
  {}

  /** What a search cursor names: a session, and a position in it unless there is none. */
  function SearchToken(sid: string, k: Key): string {
    sid + "|" + CursorString(k)
  }

  function ParseSearchToken(token: string): (string, Parsed) {
    var (sid, pos) := Partition(token, '|');
    (sid, ParseCursor(pos))
  }

  lemma {:induction false} NoBarInDigits(s: string)
    requires ParseDigits(s).Some?
    ensures '|' !in s
  {
    if |s| > 1 {
      NoBarInDigits(s[..|s| - 1]);
    }
  }

  lemma NoBarInInt(s: string)
    requires ParseInt(s).Some?
    ensures '|' !in s
  {
    if s[0] == '-' {
      NoBarInDigits(s[1..]);
      assert s == [s[0]] + s[1..];
    } else {
      NoBarInDigits(s);
    }
  }

  /** A position token with a bar in it is refused. */
  lemma BarIsBad(token: string)
    requires '|' in token
    ensures ParseCursor(token) == BadCursor
  {
    hide ParseInt;
    var (ts, frame) := Partition(token, ':');
    if ':' in token {
      PartitionFirst(token, ':');
    } else {
      PartitionNone(token, ':');
    }
    if ParseInt(ts).Some? { NoBarInInt(ts); }
    if ParseInt(frame).Some? { NoBarInInt(frame); }
  }

  lemma {:induction false} PartitionNone(s: string, c: char)
    requires c !in s
    ensures Partition(s, c) == (s, [])
  {
    if s != [] {
      assert s[0] in s && s == [s[0]] + s[1..];
      PartitionNone(s[1..], c);
    }
  }

  /** The token a search gives out is read back exactly when the session's id holds no bar, and else refused. */
  lemma SearchTokenRoundTrip(sid: string, k: Key)
    requires InRange(k)
    ensures ParseSearchToken(SearchToken(sid, k)) == (sid, At(k)) <==> '|' !in sid
    ensures '|' in sid ==> ParseSearchToken(SearchToken(sid, k)).1 == BadCursor
  {
    hide Decimal, ParseCursor, CursorString;
    var pos := CursorString(k);
    if '|' !in sid {
      PartitionAt(sid, '|', pos);
      CursorRoundTrip(k);
    } else {
      PartitionFirst(sid, '|');
      var (a, b) := Partition(sid, '|');
      assert SearchToken(sid, k) == a + ['|'] + (b + "|" + pos);
      PartitionAt(a, '|', b + "|" + pos);
      BarIsBad(b + "|" + pos);
    }
  }
}
