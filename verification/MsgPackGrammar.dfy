/**
  The MessagePack encoding, as the specification's section "Formats" gives it: values and
  the bytes that spell them. Nothing here looks at how the gateway walks those bytes.

  A value keeps the form it was written in, so non-minimal encodings (a short string under
  str32, say) are values of their own and the grammar covers every encoder.
 */
module MsgPackGrammar {
  import opened Bytes
  import opened Lists

  /** How a length or count is written: inside the tag, or in 1, 2 or 4 bytes after it. */
  datatype Form = Fix | L8 | L16 | L32

  datatype Value =
    | NilValue
    | Bool(on: bool)
    | Small(n: int)                                  // positive and negative fixint
    | UInt(raw: seq<Byte>)                           // uint 8/16/32/64
    | SInt(raw: seq<Byte>)                           // int 8/16/32/64
    | Float(raw: seq<Byte>)                          // float 32/64
    | Str(form: Form, raw: seq<Byte>)
    | Bin(form: Form, raw: seq<Byte>)
    | FixExt(kind: Byte, raw: seq<Byte>)
    | Ext(form: Form, kind: Byte, raw: seq<Byte>)
    | Container(open: Opening, items: List<Value>)    // a map's keys and values alternate

  /** The header of an array or map: `count` values follow, two per map entry. */
  datatype Opening = Opening(isMap: bool, form: Form, count: nat)

  function Log2(width: nat): nat {
    if width == 1 then 0 else if width == 2 then 1 else if width == 4 then 2
    else if width == 8 then 3 else 4
  }

  /** The number of bytes a form's length field takes. */
  function FormWidth(form: Form): nat {
    match form case Fix => 0 case L8 => 1 case L16 => 2 case L32 => 4
  }

  predicate OpeningFits(o: Opening) {
    var n := if o.isMap then o.count / 2 else o.count;
    && (o.isMap ==> o.count % 2 == 0)
    && match o.form
       case Fix => n < 16
       case L8 => false
       case L16 => n < 0x1_0000
       case L32 => n < 0x1_0000_0000
  }

  predicate LengthFits(form: Form, n: nat, fixLimit: nat) {
    match form
    case Fix => n < fixLimit
    case L8 => n < 0x100
    case L16 => n < 0x1_0000
    case L32 => n < 0x1_0000_0000
  }

  /** The value's own header can be written; says nothing of the items inside it. */
  predicate Fits(v: Value) {
    match v
    case NilValue => true
    case Bool(_) => true
    case Small(n) => -32 <= n < 128
    case UInt(raw) => |raw| in {1, 2, 4, 8}
    case SInt(raw) => |raw| in {1, 2, 4, 8}
    case Float(raw) => |raw| in {4, 8}
    case Str(form, raw) => LengthFits(form, |raw|, 32)
    case Bin(form, raw) => LengthFits(form, |raw|, 0)
    case FixExt(_, raw) => |raw| in {1, 2, 4, 8, 16}
    case Ext(form, _, raw) => LengthFits(form, |raw|, 0)
    case Container(open, items) => OpeningFits(open) && open.count == Length(items)
  }

  predicate WellFormed(v: Value)
    decreases v, 1
  {
    Fits(v) && (v.Container? ==> AllWellFormed(v.items))
  }

  predicate AllWellFormed(vs: List<Value>)
    decreases vs, 0
  {
    vs.Cons? ==> WellFormed(vs.head) && AllWellFormed(vs.tail)
  }

  /** The bytes of a length under `form`, when it is not inside the tag. */
  function LengthBytes(form: Form, n: nat): (s: seq<Byte>)
    requires form != Fix ==> LengthFits(form, n, 0)
    ensures |s| == FormWidth(form)
  {
    Widths();
    if form == Fix then [] else ToBigEndian(n, FormWidth(form))
  }

  /** An array's or map's tag and count. */
  function OpeningBytes(o: Opening): (s: seq<Byte>)
    requires OpeningFits(o)
    ensures |s| >= 1
  {
    var n := if o.isMap then o.count / 2 else o.count;
    var tag: Byte :=
      if o.form == Fix then (if o.isMap then 0x80 else 0x90) + n
      else (if o.isMap then 0xde else 0xdc) + (if o.form == L16 then 0 else 1);
    [tag] + LengthBytes(o.form, n)
  }

  /** A value's bytes up to its items: all of it, for a value that has none. */
  function Head(v: Value): (s: seq<Byte>)
    requires Fits(v)
    ensures |s| >= 1
  {
    match v
    case NilValue => [0xc0]
    case Bool(on) => [if on then 0xc3 else 0xc2]
    case Small(n) => [if n < 0 then 0x100 + n else n]
    case UInt(raw) => [0xcc + Log2(|raw|)] + raw
    case SInt(raw) => [0xd0 + Log2(|raw|)] + raw
    case Float(raw) => [0xca + Log2(|raw|) - 2] + raw
    case Str(form, raw) =>
      var tag: Byte := if form == Fix then 0xa0 + |raw| else 0xd9 + Log2(FormWidth(form));
      [tag] + LengthBytes(form, |raw|) + raw
    case Bin(form, raw) => [0xc4 + Log2(FormWidth(form))] + LengthBytes(form, |raw|) + raw
    case FixExt(kind, raw) => [0xd4 + Log2(|raw|), kind] + raw
    case Ext(form, kind, raw) =>
      [0xc7 + Log2(FormWidth(form))] + LengthBytes(form, |raw|) + [kind] + raw
    case Container(open, _) => OpeningBytes(open)
  }

  /** The encoding of one value. */
  function Encode(v: Value): (s: seq<Byte>)
    requires WellFormed(v)
    ensures |s| >= 1
    decreases v, 1
  {
    if v.Container? && v.items.Cons? then Head(v) + EncodeAll(v.items) else Head(v)
  }

  /** The encodings of several values, end to end. */
  function EncodeAll(vs: List<Value>): (s: seq<Byte>)
    requires AllWellFormed(vs)
    ensures |s| >= Length(vs)
    decreases vs, 0
  {
    match vs case Nil => [] case Cons(v, rest) => Encode(v) + EncodeAll(rest)
  }

  /** How many non-empty containers are nested in the value, counting itself. */
  function Depth(v: Value): nat
    decreases v, 1
  {
    if v.Container? && v.items.Cons? then 1 + DepthAll(v.items) else 0
  }

  function DepthAll(vs: List<Value>): (d: nat)
    decreases vs, 0
  {
    match vs
    case Nil => 0
    case Cons(v, rest) => var a, b := Depth(v), DepthAll(rest); if a > b then a else b
  }

  /** The element counts that the containers in a value declare, added up. */
  function Declared(v: Value): nat
    decreases v, 1
  {
    if v.Container? then v.open.count + DeclaredAll(v.items) else 0
  }

  function DeclaredAll(vs: List<Value>): nat
    decreases vs, 0
  {
    match vs case Nil => 0 case Cons(v, rest) => Declared(v) + DeclaredAll(rest)
  }

  lemma {:induction false} EncodeSnoc(vs: List<Value>, v: Value)
    requires AllWellFormed(vs) && WellFormed(v)
    ensures AllWellFormed(Snoc(vs, v))
    ensures EncodeAll(Snoc(vs, v)) == EncodeAll(vs) + Encode(v)
  {
    match vs
    case Nil => assert EncodeAll(Cons(v, Nil)) == Encode(v) + EncodeAll(Nil);
    case Cons(_, rest) => EncodeSnoc(rest, v);
  }

  lemma {:induction false} DepthSnoc(vs: List<Value>, v: Value)
    ensures DepthAll(Snoc(vs, v)) == if Depth(v) > DepthAll(vs) then Depth(v) else DepthAll(vs)
  {
    match vs
    case Nil =>
    case Cons(_, rest) => DepthSnoc(rest, v);
  }

  /** Every declared element costs at least one byte, so an encoding pays for what it declares. */
  lemma {:induction false} DeclaredIsPaidFor(v: Value)
    requires WellFormed(v)
    ensures Declared(v) + 1 <= |Encode(v)|
    decreases v, 1
  {
    if v.Container? {
      DeclaredAllIsPaidFor(v.items);
    }
  }

  lemma {:induction false} DeclaredAllIsPaidFor(vs: List<Value>)
    requires AllWellFormed(vs)
    ensures DeclaredAll(vs) + Length(vs) <= |EncodeAll(vs)|
    decreases vs, 0
  {
    match vs
    case Nil =>
    case Cons(v, rest) =>
      DeclaredIsPaidFor(v);
      DeclaredAllIsPaidFor(rest);
  }
}
