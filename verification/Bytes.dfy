/** Byte strings, Python's slices, and big-endian words as `struct.pack` writes them. */
module Bytes {
  type byte = x: int | 0 <= x < 256
  type bytes = seq<byte>

  const SLASH: byte := 0x2F
  const COMMA: byte := 0x2C

  /** A Python slice bound: a negative bound counts from the end, and both ends are clamped. */
  function Bound(i: int, n: nat): (r: nat)
    ensures r <= n
  {
    if i < 0 then (if i + n < 0 then 0 else i + n) else if i > n then n else i
  }

  /** Python's `s[lo:hi]`, defined for every pair of integers. */
  function Slice(s: bytes, lo: int, hi: int): bytes {
    var a, b := Bound(lo, |s|), Bound(hi, |s|);
    if a <= b then s[a..b] else []
  }

  /** Python's `s[lo:]`. */
  function From(s: bytes, lo: int): bytes {
    s[Bound(lo, |s|)..]
  }

  function Zeros(n: nat): (z: bytes)
    ensures |z| == n
  {
    seq(n, _ => 0)
  }

  /** `w` is written in `d` at offset `i`. */
  predicate At(d: bytes, i: int, w: bytes) {
    0 <= i && i + |w| <= |d| && d[i..i + |w|] == w
  }

  /** What is written in two parts is written part by part. */
  lemma AtAppend(d: bytes, i: int, a: bytes, b: bytes)
    ensures At(d, i, a + b) <==> At(d, i, a) && At(d, i + |a|, b)
  {
    if At(d, i, a + b) {
      var w := d[i..i + |a + b|];
      assert w[..|a|] == a && w[|a|..] == b;
    }
    if At(d, i, a) && At(d, i + |a|, b) {
      assert d[i..i + |a + b|] == d[i..i + |a|] + d[i + |a|..i + |a + b|];
    }
  }

  lemma SliceAt(d: bytes, i: int, w: bytes)
    requires At(d, i, w)
    ensures Slice(d, i, i + |w|) == w && |From(d, i)| == |d| - i
  {
  }

  // ----- big-endian words

  function Pow256(k: nat): (p: nat)
    ensures p > 0
  {
    if k == 0 then 1 else 256 * Pow256(k - 1)
  }

  function ToBE(v: nat, k: nat): (w: bytes)
    ensures |w| == k
  {
    if k == 0 then [] else ToBE(v / 256, k - 1) + [v % 256]
  }

  function FromBE(w: bytes): nat {
    if w == [] then 0 else FromBE(w[..|w| - 1]) * 256 + w[|w| - 1]
  }

  lemma {:induction false} FromToBE(v: nat, k: nat)
    requires v < Pow256(k)
    ensures FromBE(ToBE(v, k)) == v
  {
    if k > 0 {
      FromToBE(v / 256, k - 1);
      assert ToBE(v, k)[..k - 1] == ToBE(v / 256, k - 1);
    }
  }

  lemma {:induction false} ToFromBE(w: bytes)
    ensures FromBE(w) < Pow256(|w|)
    ensures ToBE(FromBE(w), |w|) == w
  {
    if w != [] {
      ToFromBE(w[..|w| - 1]);
      assert w == w[..|w| - 1] + [w[|w| - 1]];
    }
  }

  lemma FourByteWord(a: byte, b: byte, c: byte, e: byte)
    ensures FromBE([a, b, c, e]) == a * 0x100_0000 + b * 0x1_0000 + c * 0x100 + e
  {
    assert [a, b, c, e][..3] == [a, b, c] && [a, b, c][..2] == [a, b] && [a, b][..1] == [a] && [a][..0] == [];
    assert FromBE([a, b]) == FromBE([a]) * 256 + b;
  }

  lemma Powers()
    ensures Pow256(4) == 0x1_0000_0000
    ensures Pow256(8) == 0x1_0000_0000_0000_0000
  {
    assert Pow256(4) == 256 * Pow256(3) == 256 * 256 * Pow256(2);
    assert Pow256(8) == 256 * 256 * 256 * 256 * Pow256(4) by {
      assert Pow256(8) == 256 * Pow256(7) == 256 * 256 * Pow256(6);
      assert Pow256(6) == 256 * Pow256(5) == 256 * 256 * Pow256(4);
    }
  }
}
