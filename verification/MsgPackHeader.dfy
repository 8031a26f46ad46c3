/** One step of the MessagePack walk: reading a value's header, and what the grammar says it is. */
module MsgPackHeader {
  import opened Bytes
  import opened Lists
  import opened MsgPackGrammar

  /** Where the header (with the blob of a value that holds no values) ends, and how many values follow it. */
  datatype Header = Header(next: nat, count: nat)

  /** What one tag byte announces. */
  datatype Kind =
    | Blob(skip: nat)                          // so many bytes, then the value is over
    | Count(count: nat)                        // so many values
    | LengthBlob(width: nat, extra: nat)       // a length field, then that many bytes and `extra` more
    | LengthCount(width: nat, each: nat)       // a count field, then `each` values per count
    | Unused

  function KindOf(c: Byte): (k: Kind) {
    if c <= 0x7f || c >= 0xe0 || c == 0xc0 || c == 0xc2 || c == 0xc3 then Blob(0)
    else if c <= 0x8f then Count(2 * (c - 0x80))
    else if c <= 0x9f then Count(c - 0x90)
    else if c <= 0xbf then Blob(c - 0xa0)
    else if c == 0xc4 || c == 0xd9 then LengthBlob(1, 0)
    else if c == 0xc5 || c == 0xda then LengthBlob(2, 0)
    else if c == 0xc6 || c == 0xdb then LengthBlob(4, 0)
    else if c == 0xc7 then LengthBlob(1, 1)
    else if c == 0xc8 then LengthBlob(2, 1)
    else if c == 0xc9 then LengthBlob(4, 1)
    else if c == 0xcc || c == 0xd0 then Blob(1)
    else if c == 0xcd || c == 0xd1 then Blob(2)
    else if c == 0xca || c == 0xce || c == 0xd2 then Blob(4)
    else if c == 0xcb || c == 0xcf || c == 0xd3 then Blob(8)
    else if c == 0xd4 then Blob(2)
    else if c == 0xd5 then Blob(3)
    else if c == 0xd6 then Blob(5)
    else if c == 0xd7 then Blob(9)
    else if c == 0xd8 then Blob(17)
    else if c == 0xdc then LengthCount(2, 1)
    else if c == 0xdd then LengthCount(4, 1)
    else if c == 0xde then LengthCount(2, 2)
    else if c == 0xdf then LengthCount(4, 2)
    else Unused
  }

  function LengthAt(b: seq<Byte>, i: nat, width: nat): (n: Option<nat>) {
    if width > |b| - i then None else Some(BigEndian(b[i..i + width]))
  }

  function Skip(b: seq<Byte>, j: nat, skip: nat): (h: Option<Header>) {
    if skip > |b| - j then None else Some(Header(j + skip, 0))
  }

  /** The header at `i`, when the input holds all of it. */
  function HeaderAt(b: seq<Byte>, i: nat): (h: Option<Header>)
    requires i < |b|
    ensures h.Some? ==> i < h.value.next <= |b|
  {
    match KindOf(b[i])
    case Blob(skip) => Skip(b, i + 1, skip)
    case Count(n) => Some(Header(i + 1, n))
    case LengthBlob(width, extra) =>
      (match LengthAt(b, i + 1, width)
       case None => None
       case Some(n) => Skip(b, i + 1 + width, n + extra))
    case LengthCount(width, each) =>
      (match LengthAt(b, i + 1, width)
       case None => None
       case Some(n) => Some(Header(i + 1 + width, each * n)))
    case Unused => None
  }

  lemma LengthRead(b: seq<Byte>, i: nat, form: Form, n: nat)
    requires form != Fix && LengthFits(form, n, 0)
    requires At(b, i, LengthBytes(form, n))
    ensures LengthAt(b, i, FormWidth(form)) == Some(n)
  {
    hide BigEndian, ToBigEndian, Pow256;
    Widths();
    BigEndianInverse(n, FormWidth(form));
  }

  lemma LengthWritten(b: seq<Byte>, i: nat, form: Form)
    requires form != Fix && LengthAt(b, i, FormWidth(form)).Some?
    ensures LengthFits(form, LengthAt(b, i, FormWidth(form)).value, 0)
    ensures LengthBytes(form, LengthAt(b, i, FormWidth(form)).value) == b[i..i + FormWidth(form)]
  {
    hide BigEndian, ToBigEndian, Pow256;
    Widths();
    ToBigEndianInverse(b[i..i + FormWidth(form)]);
  }

  lemma FirstByte(b: seq<Byte>, i: nat, part: seq<Byte>)
    requires part != [] && At(b, i, part)
    ensures b[i] == part[0]
  {
    assert b[i] == b[i..i + |part|][0];
  }

  /** A tag, a length field and what follows it, found one after the other. */
  lemma Parts(b: seq<Byte>, i: nat, c: Byte, form: Form, n: nat, rest: seq<Byte>)
    requires form != Fix && LengthFits(form, n, 0)
    requires At(b, i, [c] + LengthBytes(form, n) + rest)
    ensures b[i] == c && LengthAt(b, i + 1, FormWidth(form)) == Some(n)
  {
    hide BigEndian, LengthBytes, KindOf, HeaderAt;
    FirstByte(b, i, [c] + LengthBytes(form, n) + rest);
    AtSplit(b, i, [c] + LengthBytes(form, n), rest);
    AtSplit(b, i, [c], LengthBytes(form, n));
    LengthRead(b, i + 1, form, n);
  }

  lemma OpeningRead(b: seq<Byte>, i: nat, o: Opening)
    requires OpeningFits(o) && At(b, i, OpeningBytes(o))
    ensures HeaderAt(b, i) == Some(Header(i + |OpeningBytes(o)|, o.count))
  {
    hide BigEndian, ToBigEndian;
    var n := if o.isMap then o.count / 2 else o.count;
    FirstByte(b, i, OpeningBytes(o));
    if o.form != Fix {
      assert OpeningBytes(o) == [OpeningBytes(o)[0]] + LengthBytes(o.form, n) + [];
      Parts(b, i, OpeningBytes(o)[0], o.form, n, []);
    }
  }

  /** A value's head is read as exactly that head. */
  lemma HeadRead(b: seq<Byte>, i: nat, v: Value)
    requires Fits(v) && At(b, i, Head(v))
    ensures HeaderAt(b, i) == Some(Header(i + |Head(v)|, if v.Container? then v.open.count else 0))
  {
    FirstByte(b, i, Head(v));
    if v.Container? {
      OpeningRead(b, i, v.open);
    } else if v.Bin? || v.Ext? || (v.Str? && v.form != Fix) {
      LengthBlobRead(b, i, v);
    }
  }

  /** What a blob with a length field is made of, and what its tag announces. */
  lemma LengthBlobParts(v: Value, rest: seq<Byte>)
    requires Fits(v) && (v.Bin? || v.Ext? || (v.Str? && v.form != Fix))
    requires rest == if v.Ext? then [v.kind] + v.raw else v.raw
    ensures Head(v) == [Head(v)[0]] + LengthBytes(v.form, |v.raw|) + rest
    ensures KindOf(Head(v)[0]) == LengthBlob(FormWidth(v.form), |rest| - |v.raw|)
    ensures v.form != Fix && LengthFits(v.form, |v.raw|, 0)
  {
    hide BigEndian, ToBigEndian;
    if v.Ext? {
      var front := [Head(v)[0]] + LengthBytes(v.form, |v.raw|);
      assert front + ([v.kind] + v.raw) == front + [v.kind] + v.raw;
    }
  }

  lemma LengthBlobRead(b: seq<Byte>, i: nat, v: Value)
    requires v.Bin? || v.Ext? || (v.Str? && v.form != Fix)
    requires Fits(v) && At(b, i, Head(v))
    ensures HeaderAt(b, i) == Some(Header(i + |Head(v)|, 0))
  {
    hide BigEndian, KindOf, Head, LengthBytes;
    var rest := if v.Ext? then [v.kind] + v.raw else v.raw;
    LengthBlobParts(v, rest);
    Parts(b, i, Head(v)[0], v.form, |v.raw|, rest);
  }

  /** A header that opens nothing is the whole encoding of a value. */
  lemma LeafWritten(b: seq<Byte>, i: nat) returns (v: Value)
    requires i < |b| && HeaderAt(b, i).Some? && HeaderAt(b, i).value.count == 0
    ensures WellFormed(v) && Depth(v) == 0
    ensures Encode(v) == b[i..HeaderAt(b, i).value.next]
  {
    var k := KindOf(b[i]);
    if k.Blob? {
      v := BlobWritten(b, i);
    } else if k.LengthBlob? {
      v := LengthBlobWritten(b, i);
    } else {
      var o := OpeningWritten(b, i);
      v := Container(o, Nil);
    }
  }

  /** A header with values after it is the opening of an array or map that holds them. */
  lemma OpeningWritten(b: seq<Byte>, i: nat) returns (o: Opening)
    requires i < |b| && HeaderAt(b, i).Some?
    requires KindOf(b[i]).Count? || KindOf(b[i]).LengthCount? || HeaderAt(b, i).value.count > 0
    ensures OpeningFits(o) && o.count == HeaderAt(b, i).value.count
    ensures OpeningBytes(o) == b[i..HeaderAt(b, i).value.next]
  {
    var h := HeaderAt(b, i).value;
    if KindOf(b[i]).Count? {
      o := Opening(b[i] <= 0x8f, Fix, h.count);
      assert b[i..h.next] == [b[i]] == OpeningBytes(o);
    } else {
      var form := LengthCountTags(b[i]);
      hide BigEndian, ToBigEndian, KindOf;
      LengthWritten(b, i + 1, form);
      o := Opening(b[i] >= 0xde, form, h.count);
      assert b[i..h.next] == [b[i]] + b[i + 1..i + 1 + FormWidth(form)];
    }
  }

  /** The four tags with a count field, by family and width. */
  lemma LengthCountTags(c: Byte) returns (form: Form)
    requires KindOf(c).LengthCount?
    ensures form in {L16, L32} && KindOf(c) == LengthCount(FormWidth(form), if c >= 0xde then 2 else 1)
    ensures c == (if c >= 0xde then 0xde else 0xdc) + if form == L16 then 0 else 1
  {
    form := if c % 2 == 0 then L16 else L32;
  }

  lemma BlobWritten(b: seq<Byte>, i: nat) returns (v: Value)
    requires i < |b| && HeaderAt(b, i).Some? && KindOf(b[i]).Blob?
    ensures Fits(v) && !v.Container? && Head(v) == b[i..HeaderAt(b, i).value.next]
  {
    var c, end := b[i], HeaderAt(b, i).value.next;
    var body := b[i + 1..end];
    assert b[i..end] == [c] + body;
    if c >= 0xe0 { v := Small(c as int - 0x100); }
    else if c <= 0x7f { v := Small(c); }
    else if c <= 0xbf { v := Str(Fix, body); }
    else if c == 0xc0 { v := NilValue; }
    else if c <= 0xc3 { v := Bool(c == 0xc3); }
    else if c <= 0xcb { v := Float(body); }
    else if c <= 0xcf { v := UInt(body); }
    else if c <= 0xd3 { v := SInt(body); }
    else {
      v := FixExt(body[0], body[1..]);
      assert body == [body[0]] + body[1..];
    }
  }

  /** The nine tags with a length field, by family and width. */
  lemma LengthBlobTags(c: Byte) returns (form: Form)
    requires KindOf(c).LengthBlob?
    ensures form != Fix && FormWidth(form) == KindOf(c).width
    ensures c == Log2(FormWidth(form)) + if KindOf(c).extra == 1 then 0xc7 else if c <= 0xc6 then 0xc4 else 0xd9
    ensures KindOf(c).extra <= 1
  {
    var w := KindOf(c).width;
    form := if w == 1 then L8 else if w == 2 then L16 else L32;
  }

  lemma LengthBlobWritten(b: seq<Byte>, i: nat) returns (v: Value)
    requires i < |b| && HeaderAt(b, i).Some? && KindOf(b[i]).LengthBlob?
    ensures Fits(v) && !v.Container? && Head(v) == b[i..HeaderAt(b, i).value.next]
  {
    hide BigEndian, ToBigEndian;
    var end := HeaderAt(b, i).value.next;
    var form := LengthBlobTags(b[i]);
    var mid := i + 1 + FormWidth(form);
    LengthWritten(b, i + 1, form);
    assert b[i..end] == [b[i]] + b[i + 1..mid] + b[mid..end];
    v := LengthBlobValue(b[i], form, b[mid..end]);
  }

  lemma LengthBlobValue(c: Byte, form: Form, rest: seq<Byte>) returns (v: Value)
    requires KindOf(c).LengthBlob? && form != Fix
    requires c == Log2(FormWidth(form)) + if KindOf(c).extra == 1 then 0xc7 else if c <= 0xc6 then 0xc4 else 0xd9
    requires KindOf(c).extra <= |rest| && LengthFits(form, |rest| - KindOf(c).extra, 0)
    requires KindOf(c).extra <= 1
    ensures Fits(v) && !v.Container?
    ensures Head(v) == [c] + LengthBytes(form, |rest| - KindOf(c).extra) + rest
  {
    if KindOf(c).extra == 1 {
      v := Ext(form, rest[0], rest[1..]);
      assert rest == [rest[0]] + rest[1..];
    } else if c <= 0xc6 {
      v := Bin(form, rest);
    } else {
      v := Str(form, rest);
    }
  }
}
