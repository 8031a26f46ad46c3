/** Bytes, big-endian numbers and the sequence facts that the wire formats share. */
module Bytes {

  type Byte = b: int | 0 <= b < 256

  datatype Option<+T> = None | Some(value: T)

  function Pow256(n: nat): (p: nat)
    ensures p >= 1
  {
    if n == 0 then 1 else 256 * Pow256(n - 1)
  }

  /** The number that `s` spells, most significant byte first. */
  function BigEndian(s: seq<Byte>): (n: nat)
    ensures n < Pow256(|s|)
  {
    if s == [] then 0 else 256 * BigEndian(s[..|s| - 1]) + s[|s| - 1]
  }

  /** `n` in `width` bytes, most significant byte first. */
  function ToBigEndian(n: nat, width: nat): (s: seq<Byte>)
    requires n < Pow256(width)
    ensures |s| == width
  {
    if width == 0 then [] else ToBigEndian(n / 256, width - 1) + [n % 256]
  }

  lemma {:induction false} BigEndianInverse(n: nat, width: nat)
    requires n < Pow256(width)
    ensures BigEndian(ToBigEndian(n, width)) == n
  {
    if width > 0 {
      BigEndianInverse(n / 256, width - 1);
      var s := ToBigEndian(n, width);
      assert s[..width - 1] == ToBigEndian(n / 256, width - 1);
    }
  }

  lemma {:induction false} ToBigEndianInverse(s: seq<Byte>)
    ensures ToBigEndian(BigEndian(s), |s|) == s
  {
    if s != [] {
      var front := s[..|s| - 1];
      ToBigEndianInverse(front);
      assert BigEndian(s) / 256 == BigEndian(front);
      assert s == front + [s[|s| - 1]];
    }
  }

  /** The first of four bytes counts for its place. */
  lemma FourBytes(a: Byte, b: Byte, c: Byte, d: Byte)
    ensures BigEndian([a, b, c, d]) == 0x100_0000 * a + BigEndian([b, c, d])
  {
    assert [a, b, c, d][..3] == [a, b, c] && [a, b, c][..2] == [a, b] && [a, b][..1] == [a] && [a][..0] == [];
    assert [b, c, d][..2] == [b, c] && [b, c][..1] == [b] && [b][..0] == [];
    assert BigEndian([a]) == a && BigEndian([b]) == b;
    assert BigEndian([a, b]) == 256 * a + b && BigEndian([b, c]) == 256 * b + c;
    assert BigEndian([a, b, c]) == 256 * (256 * a + b) + c;
  }

  /** The widths that occur on the wire, spelled out. */
  lemma Widths()
    ensures Pow256(1) == 0x100 && Pow256(2) == 0x1_0000
    ensures Pow256(3) == 0x100_0000 && Pow256(4) == 0x1_0000_0000
    ensures Pow256(8) == 0x1_0000_0000_0000_0000
  {
    assert Pow256(5) == 256 * Pow256(4);
    assert Pow256(6) == 256 * Pow256(5);
    assert Pow256(7) == 256 * Pow256(6);
  }

  /** `part` sits in `s` at position `i`. */
  ghost predicate At<T>(s: seq<T>, i: nat, part: seq<T>)
  {
    i + |part| <= |s| && s[i..i + |part|] == part
  }

  /** What stands from `i` to the end is `x` and then `y`. */
  lemma TailSplit<T>(s: seq<T>, i: nat, x: seq<T>, y: seq<T>)
    requires i <= |s|
    ensures s[i..] == x + y <==> At(s, i, x) && s[i + |x|..] == y
  {
    if s[i..] == x + y {
      assert s[i..][..|x|] == x && s[i..][|x|..] == y;
    }
    if At(s, i, x) {
      assert s[i..] == s[i..i + |x|] + s[i + |x|..];
    }
  }

  lemma AtSplit<T>(s: seq<T>, i: nat, x: seq<T>, y: seq<T>)
    ensures At(s, i, x + y) <==> At(s, i, x) && At(s, i + |x|, y)
  {
    if At(s, i, x + y) {
      assert s[i..i + |x|] == (x + y)[..|x|] == x;
      assert s[i + |x|..i + |x| + |y|] == (x + y)[|x|..] == y;
    }
    if At(s, i, x) && At(s, i + |x|, y) {
      assert s[i..i + |x| + |y|] == s[i..i + |x|] + s[i + |x|..i + |x| + |y|];
    }
  }
}
