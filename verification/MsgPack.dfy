/**
  The gateway's MessagePack check: an explicit stack of "values still to read", walked over
  the bytes without building anything, that decides whether a body may be handed to the
  decoding library. The main results say that it accepts exactly the encodings the grammar
  allows, up to a nesting bound, and blames the bound exactly when the bound is at fault.
 */
module MsgPack {
  import opened Bytes
  import opened Lists
  import opened MsgPackGrammar
  import opened MsgPackHeader

  const MAX_DEPTH := 64

  datatype Verdict = Accept | Reject | TooDeep

  /** One turn of the walk: it ends, or goes on from another position and stack. */
  datatype Next = Halt(verdict: Verdict) | Go(i: nat, stack: List<nat>)

  function Step(b: seq<Byte>, i: nat, stack: List<nat>): (n: Next)
    requires i <= |b|
    ensures n.Go? ==> i <= n.i <= |b| && (i < n.i || n.stack < stack)
  {
    match stack
    case Nil => Halt(if i == |b| then Accept else Reject)
    case Cons(left, outer) =>
      if left == 0 then Go(i, outer)
      else if i >= |b| then Halt(Reject)
      else match HeaderAt(b, i)
        case None => Halt(Reject)
        case Some(h) =>
          if h.count == 0 then Go(h.next, Cons(left - 1, outer))
          else if h.count > |b| - h.next then Halt(Reject)
          else if Length(stack) >= MAX_DEPTH then Halt(TooDeep)
          else Go(h.next, Cons(h.count, Cons(left - 1, outer)))
  }

  /** What the walk decides from position `i` with `stack` values outstanding, innermost first. */
  function Walk(b: seq<Byte>, i: nat, stack: List<nat>): Verdict
    requires i <= |b|
    decreases |b| - i, stack
  {
    match Step(b, i, stack)
    case Halt(verdict) => verdict
    case Go(j, next) => Walk(b, j, next)
  }

  /** `b` is the encoding of one value, nested within the bound. */
  ghost predicate IsValue(b: seq<Byte>) {
    exists v :: Encodes(v, b) && Depth(v) < 64
  }

  ghost predicate Encodes(v: Value, b: seq<Byte>) {
    WellFormed(v) && Encode(v) == b
  }

  // ---- every encoding within the bound is accepted ----

  lemma OneStep(b: seq<Byte>, i: nat, stack: List<nat>, j: nat, next: List<nat>)
    requires i <= |b| && Step(b, i, stack) == Go(j, next)
    ensures Walk(b, i, stack) == Walk(b, j, next)
  {
    hide Step;
  }

  /** The walk steps over one whole value, whatever surrounds it. */
  lemma {:induction false} WalkValue(b: seq<Byte>, i: nat, left: nat, outer: List<nat>, v: Value)
    requires WellFormed(v) && At(b, i, Encode(v))
    requires left > 0 && Length(outer) + 1 + Depth(v) <= MAX_DEPTH
    ensures Walk(b, i, Cons(left, outer)) == Walk(b, i + |Encode(v)|, Cons(left - 1, outer))
    decreases v, 1
  {
    hide Walk, Step, HeaderAt, Head;
    if v.Container? && v.items.Cons? {
      var inner, end := i + |Head(v)|, i + |Encode(v)|;
      AtSplit(b, i, Head(v), EncodeAll(v.items));
      StepHead(b, i, left, outer, v);
      OneStep(b, i, Cons(left, outer), inner, Cons(v.open.count, Cons(left - 1, outer)));
      WalkAll(b, inner, v.open.count, Cons(left - 1, outer), v.items);
      StepClose(b, end, Cons(left - 1, outer));
      OneStep(b, end, Cons(0, Cons(left - 1, outer)), end, Cons(left - 1, outer));
    } else {
      StepHead(b, i, left, outer, v);
      OneStep(b, i, Cons(left, outer), i + |Head(v)|, Cons(left - 1, outer));
    }
  }

  lemma StepClose(b: seq<Byte>, i: nat, outer: List<nat>)
    requires i <= |b|
    ensures Step(b, i, Cons(0, outer)) == Go(i, outer)
  {}

  /** One step reads a value's head, and goes inside if there is anything inside. */
  lemma StepHead(b: seq<Byte>, i: nat, left: nat, outer: List<nat>, v: Value)
    requires WellFormed(v) && At(b, i, Head(v))
    requires v.Container? ==> i + |Head(v)| + Length(v.items) <= |b|
    requires left > 0 && Length(outer) + 1 + Depth(v) <= MAX_DEPTH
    ensures Step(b, i, Cons(left, outer)) ==
            Go(i + |Head(v)|, if v.Container? && v.items.Cons? then Cons(v.open.count, Cons(left - 1, outer))
                              else Cons(left - 1, outer))
  {
    assert Fits(v);
    hide HeaderAt, Head;
    HeadRead(b, i, v);
  }

  lemma {:induction false} WalkAll(b: seq<Byte>, i: nat, left: nat, outer: List<nat>, vs: List<Value>)
    requires AllWellFormed(vs) && At(b, i, EncodeAll(vs))
    requires left >= Length(vs) && Length(outer) + 1 + DepthAll(vs) <= MAX_DEPTH
    ensures Walk(b, i, Cons(left, outer)) == Walk(b, i + |EncodeAll(vs)|, Cons(left - Length(vs), outer))
    decreases vs, 0
  {
    hide Step, Encode, Walk;
    match vs
    case Nil =>
    case Cons(v, rest) =>
      AtSplit(b, i, Encode(v), EncodeAll(rest));
      WalkValue(b, i, left, outer, v);
      WalkAll(b, i + |Encode(v)|, left - 1, outer, rest);
  }

  lemma {:induction false} EncodingsAccepted(v: Value)
    requires WellFormed(v) && Depth(v) < MAX_DEPTH
    ensures Walk(Encode(v), 0, Cons(1, Nil)) == Accept
  {
    var b := Encode(v);
    assert At(b, 0, b);
    WalkValue(b, 0, 1, Nil, v);
    assert Step(b, |b|, Cons(0, Nil)) == Go(|b|, Nil);
    assert Step(b, |b|, Nil) == Halt(Accept);
  }

  // ---- what the walk has read so far, in the grammar's terms ----

  /** The containers open at some point, innermost first, with the values complete in each. */
  datatype Path =
    | Root(done: List<Value>)
    | Inside(open: Opening, done: List<Value>, outer: Path)
  {
    /** How many containers are open. */
    function Level(): nat {
      if Root? then 0 else 1 + outer.Level()
    }

    function Count(): nat {
      if Root? then 1 else open.count
    }

    function Left(): int {
      Count() - Length(done)
    }

    /** Each open container is one of the values of the one around it, and nothing is too deep. */
    predicate Ok() {
      && AllWellFormed(done)
      && Left() >= 0
      && Level() + DepthAll(done) < MAX_DEPTH
      && (Inside? ==> OpeningFits(open) && open.count > 0 && outer.Ok() && outer.Left() > 0)
    }

    /** The bytes that lead here. */
    function Bytes(): seq<Byte>
      requires Ok()
    {
      if Root? then EncodeAll(done) else outer.Bytes() + OpeningBytes(open) + EncodeAll(done)
    }

    /** What each open container still has to read. */
    function Stack(): (s: List<nat>)
      requires Ok()
      ensures Length(s) == Level() + 1
      ensures s.head == Left()
    {
      if Root? then Cons(Left(), Nil)
      else Cons(Left(), Cons(outer.Left() - 1, outer.Stack().tail))
    }

    /** One more value complete in the innermost container. */
    function Add(v: Value): Path {
      this.(done := Snoc(done, v))
    }
  }

  lemma AddOk(p: Path, v: Value)
    requires p.Ok() && p.Left() > 0 && WellFormed(v) && p.Level() + Depth(v) < MAX_DEPTH
    ensures p.Add(v).Ok() && p.Add(v).Bytes() == p.Bytes() + Encode(v)
    ensures p.Add(v).Stack() == Cons(p.Left() - 1, p.Stack().tail)
  {
    hide OpeningBytes, Encode, EncodeAll, OpeningFits, Depth, DepthAll, WellFormed, AllWellFormed, Length, Snoc;
    EncodeSnoc(p.done, v);
    DepthSnoc(p.done, v);
    assert p.Add(v).Level() == p.Level();
    if p.Inside? {
      var lead := p.outer.Bytes() + OpeningBytes(p.open);
      assert lead + (EncodeAll(p.done) + Encode(v)) == lead + EncodeAll(p.done) + Encode(v);
    }
  }

  lemma OpenOk(p: Path, o: Opening)
    requires p.Ok() && p.Left() > 0 && OpeningFits(o) && o.count > 0 && p.Level() + 1 < MAX_DEPTH
    ensures Inside(o, Nil, p).Ok() && Inside(o, Nil, p).Bytes() == p.Bytes() + OpeningBytes(o)
    ensures Inside(o, Nil, p).Stack() == Cons(o.count, Cons(p.Left() - 1, p.Stack().tail))
  {
    assert p.Bytes() + OpeningBytes(o) + [] == p.Bytes() + OpeningBytes(o);
  }

  /** A full container is a value of the one around it. */
  lemma CloseOk(p: Path)
    requires p.Ok() && p.Inside? && p.Left() == 0
    ensures var v := Container(p.open, p.done);
      && WellFormed(v) && p.outer.Add(v).Ok() && p.outer.Add(v).Bytes() == p.Bytes()
      && p.outer.Add(v).Stack() == p.Stack().tail
  {
    hide OpeningBytes, OpeningFits;
    var v := Container(p.open, p.done);
    AddOk(p.outer, v);
    assert p.outer.Bytes() + (OpeningBytes(p.open) + EncodeAll(p.done)) == p.Bytes();
  }

  /**
    `b` runs into the bound: it starts with the headers of 64 containers nested in one
    another, each with at least one value and no more than there are bytes left, and
    everything before and between those headers is in order.
   */
  ghost predicate RunsTooDeep(b: seq<Byte>) {
    exists p, o :: TooDeepAt(b, p, o)
  }

  ghost predicate TooDeepAt(b: seq<Byte>, p: Path, o: Opening) {
    && p.Ok() && p.Level() == 63 && p.Left() > 0 && OpeningFits(o) && o.count > 0
    && CountsFit(b, p)
    && At(b, 0, p.Bytes() + OpeningBytes(o))
    && o.count <= |b| - |p.Bytes() + OpeningBytes(o)|
  }

  /** No open container declares more values than bytes were left after its header. */
  predicate CountsFit(b: seq<Byte>, p: Path)
    requires p.Ok()
  {
    p.Inside? ==>
      && p.open.count <= |b| - |p.outer.Bytes() + OpeningBytes(p.open)|
      && CountsFit(b, p.outer)
  }

  /** The walk's verdict means what it says, from anywhere the walk can be. */
  lemma {:induction false} WalkMeans(b: seq<Byte>, p: Path)
    requires p.Ok() && CountsFit(b, p) && At(b, 0, p.Bytes())
    ensures Walk(b, |p.Bytes()|, p.Stack()) == Accept ==> IsValue(b)
    ensures Walk(b, |p.Bytes()|, p.Stack()) == TooDeep ==> RunsTooDeep(b)
    decreases |b| - |p.Bytes()|, p.Level()
  {
    hide HeaderAt, OpeningBytes, OpeningFits, IsValue, RunsTooDeep;
    var i, stack := |p.Bytes()|, p.Stack();
    if p.Left() == 0 {
      if p.Root? {
        RootMeans(b, p);
      } else {
        var v := Container(p.open, p.done);
        CloseOk(p);
        WalkMeans(b, p.outer.Add(v));
      }
    } else if i < |b| && HeaderAt(b, i).Some? {
      var h := HeaderAt(b, i).value;
      if h.count == 0 {
        var q := LeafPath(b, p);
        WalkMeans(b, q);
      } else if h.count <= |b| - h.next {
        var o := OpeningWritten(b, i);
        assert At(b, 0, p.Bytes() + OpeningBytes(o)) by { AtSplit(b, 0, p.Bytes(), OpeningBytes(o)); }
        if p.Level() + 1 < MAX_DEPTH {
          OpenOk(p, o);
          WalkMeans(b, Inside(o, Nil, p));
        } else {
          TooDeepMeans(b, p, o);
        }
      }
    }
  }

  lemma LeafPath(b: seq<Byte>, p: Path) returns (q: Path)
    requires p.Ok() && CountsFit(b, p) && At(b, 0, p.Bytes()) && p.Left() > 0
    requires |p.Bytes()| < |b| && HeaderAt(b, |p.Bytes()|).Some? && HeaderAt(b, |p.Bytes()|).value.count == 0
    ensures q.Ok() && CountsFit(b, q) && At(b, 0, q.Bytes())
    ensures |q.Bytes()| == HeaderAt(b, |p.Bytes()|).value.next
    ensures q.Stack() == Cons(p.Left() - 1, p.Stack().tail)
  {
    hide HeaderAt, OpeningBytes, OpeningFits, Encode;
    var v := LeafWritten(b, |p.Bytes()|);
    AddOk(p, v);
    AtSplit(b, 0, p.Bytes(), Encode(v));
    q := p.Add(v);
  }

  lemma TooDeepMeans(b: seq<Byte>, p: Path, o: Opening)
    requires TooDeepAt(b, p, o)
    ensures RunsTooDeep(b)
  {}

  lemma RootMeans(b: seq<Byte>, p: Path)
    requires p.Ok() && p.Root? && p.Left() == 0 && At(b, 0, p.Bytes())
    ensures Walk(b, |p.Bytes()|, p.Stack()) == Accept ==> IsValue(b)
    ensures Walk(b, |p.Bytes()|, p.Stack()) != TooDeep
  {
    var i := |p.Bytes()|;
    var v := p.done.head;
    assert p.done == Cons(v, Nil) by { assert Length(p.done.tail) == 0; }
    assert EncodeAll(Cons(v, Nil)) == Encode(v) + EncodeAll(Nil);
    assert p.Stack() == Cons(0, Nil);
    assert Step(b, i, Cons(0, Nil)) == Go(i, Nil);
    if i == |b| {
      assert b[0..|b|] == b;
      assert Encodes(v, b) && Depth(v) <= DepthAll(p.done);
    }
    assert Walk(b, i, Nil) == if i == |b| then Accept else Reject;
  }

  /** The walk gets to wherever the bytes lead. */
  lemma {:induction false} Reaches(b: seq<Byte>, p: Path)
    requires p.Ok() && CountsFit(b, p) && At(b, 0, p.Bytes())
    ensures Walk(b, 0, Cons(1, Nil)) == Walk(b, |p.Bytes()|, p.Stack())
    decreases p
  {
    hide Walk, Step, OpeningBytes, OpeningFits, EncodeAll, AllWellFormed;
    match p
    case Root(done) =>
      WalkAll(b, 0, 1, Nil, done);
    case Inside(o, done, outer) =>
      var at := |outer.Bytes()|;
      var next := at + |OpeningBytes(o)|;
      AtSplit(b, 0, outer.Bytes() + OpeningBytes(o), EncodeAll(done));
      AtSplit(b, 0, outer.Bytes(), OpeningBytes(o));
      Reaches(b, outer);
      StepOpen(b, at, outer.Stack(), o);
      var rest := Cons(outer.Left() - 1, outer.Stack().tail);
      OneStep(b, at, outer.Stack(), next, Cons(o.count, rest));
      WalkAll(b, next, o.count, rest, done);
  }

  lemma StepOpen(b: seq<Byte>, i: nat, stack: List<nat>, o: Opening)
    requires stack.Cons? && stack.head > 0 && OpeningFits(o) && o.count > 0
    requires At(b, i, OpeningBytes(o)) && o.count <= |b| - (i + |OpeningBytes(o)|)
    ensures Step(b, i, stack) ==
            if Length(stack) >= MAX_DEPTH then Halt(TooDeep)
            else Go(i + |OpeningBytes(o)|, Cons(o.count, Cons(stack.head - 1, stack.tail)))
  {
    hide HeaderAt, OpeningBytes;
    OpeningRead(b, i, o);
  }

  lemma TooDeepReported(b: seq<Byte>)
    requires RunsTooDeep(b)
    ensures Walk(b, 0, Cons(1, Nil)) == TooDeep
  {
    hide OpeningBytes, OpeningFits;
    var p, o :| TooDeepAt(b, p, o);
    AtSplit(b, 0, p.Bytes(), OpeningBytes(o));
    Reaches(b, p);
    StepOpen(b, |p.Bytes()|, p.Stack(), o);
  }

  /** The verdict in the grammar's terms, for every input. */
  lemma VerdictMeans(b: seq<Byte>)
    ensures Walk(b, 0, Cons(1, Nil)) == Accept <==> IsValue(b)
    ensures Walk(b, 0, Cons(1, Nil)) == TooDeep <==> RunsTooDeep(b)
  {
    hide Walk, RunsTooDeep;
    var start := Root(Nil);
    assert start.Ok() && start.Bytes() == [] && start.Stack() == Cons(1, Nil);
    WalkMeans(b, start);
    if IsValue(b) {
      var v :| Encodes(v, b) && Depth(v) < MAX_DEPTH;
      EncodingsAccepted(v);
    }
    if RunsTooDeep(b) {
      TooDeepReported(b);
    }
  }

  /** What an accepted input declares, over all its containers, is less than its length. */
  lemma AllocationBounded(b: seq<Byte>, v: Value)
    requires Encodes(v, b)
    ensures Declared(v) < |b|
  {
    DeclaredIsPaidFor(v);
  }

  // ---- the walk as the gateway runs it ----

  /** Reads a big-endian length of `width` bytes at `i`, moving past it. */
  method ReadLength(b: seq<Byte>, i: nat, width: nat) returns (n: nat, next: nat, ok: bool)
    requires i <= |b|
    ensures ok <==> LengthAt(b, i, width).Some?
    ensures ok ==> n == LengthAt(b, i, width).value && next == i + width <= |b|
  {
    if width > |b| - i {
      return 0, i, false;
    }
    n, ok := 0, true;
    for k := 0 to width
      invariant n == BigEndian(b[i..i + k])
    {
      assert b[i..i + k + 1][..k] == b[i..i + k];
      n := n * 256 + b[i + k];
    }
    next := i + width;
  }

  lemma LowBits(c: Byte)
    ensures 0x80 <= c <= 0x8f ==> c % 16 == c - 0x80
    ensures 0x90 <= c <= 0x9f ==> c % 16 == c - 0x90
    ensures 0xa0 <= c <= 0xbf ==> c % 32 == c - 0xa0
  {}

  /** The tag at `i` and its length field, if it has one: how much to skip, then how many values follow. */
  method ReadTag(b: seq<Byte>, i: nat) returns (ok: bool, next: nat, skip: nat, count: nat)
    requires i < |b|
    ensures ok ==> next <= |b|
    ensures HeaderAt(b, i) ==
            if ok && skip <= |b| - next then Some(Header(next + skip, count)) else None
  {
    hide LengthAt;
    var c := b[i];
    LowBits(c);
    ok, next, skip, count := true, i + 1, 0, 0;
    if c <= 0x7f || c >= 0xe0 || c == 0xc0 || c == 0xc2 || c == 0xc3 {
    } else if c <= 0x8f {
      count := 2 * (c % 16);
    } else if c <= 0x9f {
      count := c % 16;
    } else if c <= 0xbf {
      skip := c % 32;
    } else if 0xc4 <= c <= 0xc9 || 0xd9 <= c <= 0xdf {
      ok, next, skip, count := ReadSizedTag(b, i);
    } else if c == 0xcc || c == 0xd0 {
      skip := 1;
    } else if c == 0xcd || c == 0xd1 {
      skip := 2;
    } else if c == 0xca || c == 0xce || c == 0xd2 {
      skip := 4;
    } else if c == 0xcb || c == 0xcf || c == 0xd3 {
      skip := 8;
    } else if 0xd4 <= c <= 0xd8 {
      skip := 1 + (if c == 0xd4 then 1 else if c == 0xd5 then 2 else if c == 0xd6 then 4
                   else if c == 0xd7 then 8 else 16);
    } else {
      ok := false; // 0xc1 is never used
    }
  }

  /** The same for a tag that a length field follows. */
  method ReadSizedTag(b: seq<Byte>, i: nat) returns (ok: bool, next: nat, skip: nat, count: nat)
    requires i < |b| && (0xc4 <= b[i] <= 0xc9 || 0xd9 <= b[i] <= 0xdf)
    ensures ok ==> next <= |b|
    ensures HeaderAt(b, i) ==
            if ok && skip <= |b| - next then Some(Header(next + skip, count)) else None
  {
    hide LengthAt;
    var c := b[i];
    ok, next, skip, count := true, i + 1, 0, 0;
    if c == 0xc4 || c == 0xd9 {
      skip, next, ok := ReadLength(b, next, 1);
    } else if c == 0xc5 || c == 0xda {
      skip, next, ok := ReadLength(b, next, 2);
    } else if c == 0xc6 || c == 0xdb {
      skip, next, ok := ReadLength(b, next, 4);
    } else if 0xc7 <= c <= 0xc9 {
      skip, next, ok := ReadLength(b, next, if c == 0xc7 then 1 else if c == 0xc8 then 2 else 4);
      skip := skip + 1;
    } else if c == 0xdc {
      count, next, ok := ReadLength(b, next, 2);
    } else if c == 0xdd {
      count, next, ok := ReadLength(b, next, 4);
    } else {
      count, next, ok := ReadLength(b, next, if c == 0xde then 2 else 4);
      count := 2 * count;
    }
  }

  /** A stack kept with its top last, as a list with its top first. */
  function AsList(s: seq<nat>): (l: List<nat>)
    ensures Length(l) == |s|
  {
    if s == [] then Nil else Cons(s[|s| - 1], AsList(s[..|s| - 1]))
  }

  /** Whether `b` is exactly one value that is safe to decode, and whether nesting is what failed it. */
  method MsgpackSane(b: seq<Byte>) returns (ok: bool, tooDeep: bool)
    ensures ok <==> IsValue(b)
    ensures tooDeep <==> RunsTooDeep(b)
  {
    VerdictMeans(b);
    hide HeaderAt, IsValue, RunsTooDeep;
    var i := 0;
    var stack: seq<nat> := [1]; // values still to read in each open container; the root holds one
    assert AsList(stack) == Cons(1, Nil);
    while |stack| > 0
      invariant i <= |b|
      invariant Walk(b, i, AsList(stack)) == Walk(b, 0, Cons(1, Nil))
      decreases |b| - i, |stack|
    {
      var top := |stack| - 1;
      ghost var outer := stack[..top];
      if stack[top] == 0 {
        stack := stack[..top];
        continue;
      }
      stack := stack[top := stack[top] - 1];
      assert stack[..top] == outer;
      if i >= |b| {
        return false, false;
      }
      var known, next, skip, count := ReadTag(b, i);
      if !known || skip > |b| - next {
        return false, false;
      }
      i := next + skip;
      if count > 0 {
        if count > |b| - i {
          return false, false;
        }
        if |stack| >= MAX_DEPTH {
          return false, true;
        }
        assert (stack + [count])[..|stack|] == stack;
        stack := stack + [count];
      }
    }
    return i == |b|, false;
  }
}
