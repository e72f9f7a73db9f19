/** Bytes inside 64-bit little-endian memory words, for the copying and zeroing loops of the heap. */
module Bytes {
  import opened Machine

  function Pow256(n: nat): (r: nat)
    ensures 0 < r
  {
    if n == 0 then 1 else 256 * Pow256(n - 1)
  }

  /** Byte `k` of word `w`, byte 0 being the lowest. */
  function ByteOf(w: nat, k: nat): (b: nat)
    ensures b < 256
  {
    if k == 0 then w % 256 else ByteOf(w / 256, k - 1)
  }

  /** Word `w` with byte `k` replaced by `b`. */
  function WithByte(w: nat, k: nat, b: nat): nat
    requires b < 256
  {
    if k == 0 then w - w % 256 + b else WithByte(w / 256, k - 1, b) * 256 + w % 256
  }

  lemma {:induction false} WithByteReads(w: nat, k: nat, b: nat, j: nat)
    requires b < 256
    ensures ByteOf(WithByte(w, k, b), j) == if j == k then b else ByteOf(w, j)
    decreases k
  {
    if k > 0 && j > 0 {
      assert WithByte(w, k, b) / 256 == WithByte(w / 256, k - 1, b);
      WithByteReads(w / 256, k - 1, b, j - 1);
    } else if j > 0 {
      assert WithByte(w, 0, b) / 256 == w / 256;
    }
  }

  lemma {:induction false} WithByteFits(w: nat, k: nat, b: nat, n: nat)
    requires b < 256 && k < n && w < Pow256(n)
    ensures WithByte(w, k, b) < Pow256(n)
    decreases k
  {
    var rest := Pow256(n - 1);
    if k > 0 {
      WithByteFits(w / 256, k - 1, b, n - 1);
    }
  }

  lemma WordBytes()
    ensures Pow256(8) == U64
  {
    assert Pow256(4) == 0x1_0000_0000;
    assert Pow256(5) == 256 * Pow256(4);
    assert Pow256(6) == 256 * Pow256(5);
    assert Pow256(7) == 256 * Pow256(6);
  }

  /** The lowest byte of a word is byte 0. */
  lemma {:induction false} ByteIsShift(w: nat, k: nat)
    ensures ByteOf(w, k) == w / Pow256(k) % 256
    decreases k
  {
    if k > 0 {
      ByteIsShift(w / 256, k - 1);
      TwoQuotients(w, Pow256(k - 1));
    }
  }

  lemma TwoQuotients(w: nat, d: nat)
    requires 0 < d
    ensures w / (256 * d) == w / 256 / d
  {
    var q, r := w / 256 / d, w / 256 % d;
    assert w / 256 == q * d + r;
    assert w == 256 * (q * d) + 256 * r + w % 256;
    assert 256 * (q * d) == q * (256 * d);
    UniqueQuotient(w, 256 * d, q, 256 * r + w % 256);
  }

  /** The byte at address `a`. */
  function ByteAt(m: seq<Word>, a: nat): (b: nat)
    ensures b < 256
  {
    ByteOf(Ld(m, a / 8), a % 8)
  }

  /** The word at `a / 8` after the byte at `a` is set to `b`. */
  function Patched(w: Word, a: nat, b: nat): Word
    requires b < 256
  {
    WordBytes();
    WithByteFits(w, a % 8, b, 8);
    WithByte(w, a % 8, b)
  }

  /** Writing one byte changes no other byte. */
  lemma PatchedBytes(m: seq<Word>, a: nat, b: nat)
    requires b < 256 && a / 8 < |m|
    ensures var m' := Put(m, a / 8, Patched(Ld(m, a / 8), a, b));
      forall x: nat :: ByteAt(m', x) == if x == a then b else ByteAt(m, x)
  {
    var w := Ld(m, a / 8);
    var m' := Put(m, a / 8, Patched(w, a, b));
    forall x: nat
      ensures ByteAt(m', x) == if x == a then b else ByteAt(m, x)
    {
      if x / 8 == a / 8 {
        WithByteReads(w, a % 8, b, x % 8);
        assert x == a <==> x % 8 == a % 8;
      }
    }
  }

  /** The `n` bytes from address `a` on. */
  function BytesAt(m: seq<Word>, a: nat, n: nat): (r: seq<int>)
    ensures |r| == n
  {
    seq(n, i requires 0 <= i < n => ByteAt(m, a + i))
  }
}
