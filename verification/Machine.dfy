/** The machine the kernel runs on: 64-bit words, pages, and physical memory. */
module Machine {

  const U32 := 0x1_0000_0000
  const U64 := 0x1_0000_0000_0000_0000

  const PAGE_SIZE := 4096

  /** Words in one page: a page table, a slab and a large block are all made of such pages. */
  const PAGE_WORDS := 512

  type Word = x: int | 0 <= x < U64

  datatype Option<+T> = None | Some(value: T)

  /** `ALIGN_UP(n, 8)`: the sum wraps at 64 bits before the low bits are masked off. */
  function AlignUp8(n: Word): (r: Word)
    ensures r % 8 == 0
    ensures if n + 7 < U64 then n <= r < n + 8 else r == 0
  {
    var s := (n + 7) % U64;
    s - s % 8
  }

  /** `ALIGN_UP(n, PAGE_SIZE)`, wrapping in the same way. */
  function AlignUpPage(n: Word): (r: Word)
    ensures r % PAGE_SIZE == 0
    ensures if n + PAGE_SIZE <= U64 then n <= r < n + PAGE_SIZE else r == 0
  {
    var s := (n + PAGE_SIZE - 1) % U64;
    s - s % PAGE_SIZE
  }

  /** Physical memory as 64-bit cells; cell `k` is the word at byte address `8 * k`. */
  class Ram {
    const cells: array<Word>

    constructor (size: nat)
      ensures cells.Length == size && fresh(cells)
    {
      cells := new Word[size];
    }

    ghost function View(): (v: seq<Word>)
      reads cells
      ensures |v| == cells.Length
    {
      cells[..]
    }

    function Load(k: nat): (w: Word)
      requires k < cells.Length
      reads cells
      ensures w == View()[k]
    {
      cells[k]
    }

    method Store(k: nat, w: Word)
      requires k < cells.Length
      modifies cells
      ensures View() == Put(old(View()), k, w)
    {
      cells[k] := w;
    }

    /** `memset(page, 0, PAGE_SIZE)`. */
    method ZeroPage(p: nat)
      requires (p + 1) * PAGE_WORDS <= cells.Length
      modifies cells
      ensures View() == Zeroed(old(View()), p)
    {
      for i := 0 to PAGE_WORDS
        invariant forall k :: 0 <= k < cells.Length ==>
          cells[k] == if p * PAGE_WORDS <= k < p * PAGE_WORDS + i then 0 else old(cells[k])
      {
        cells[p * PAGE_WORDS + i] := 0;
      }
    }
  }

  /** Memory `m` with word `k` set to `v`. */
  ghost function Put(m: seq<Word>, k: nat, v: Word): (r: seq<Word>)
    requires k < |m|
    ensures |r| == |m|
  {
    m[k := v]
  }

  /** Memory `m` with page `p` cleared. */
  ghost function Zeroed(m: seq<Word>, p: nat): (r: seq<Word>)
    requires (p + 1) * PAGE_WORDS <= |m|
    ensures |r| == |m|
  {
    seq(|m|, k requires 0 <= k < |m| => if p * PAGE_WORDS <= k < (p + 1) * PAGE_WORDS then 0 else m[k])
  }

  /** Word `k`, reading 0 where there is no memory. */
  function Ld(m: seq<Word>, k: nat): Word {
    if k < |m| then m[k] else 0
  }

  /** Word `i` of page `p`. */
  function Entry(m: seq<Word>, p: nat, i: nat): Word {
    Ld(m, p * PAGE_WORDS + i)
  }

  /** Memory `b` differs from `a` only inside `pages`. */
  ghost predicate SameOutside(a: seq<Word>, b: seq<Word>, pages: set<nat>) {
    && |a| == |b|
    && forall p, i {:trigger Entry(b, p, i)} :: p !in pages && 0 <= i < 512 ==> Entry(b, p, i) == Entry(a, p, i)
  }

  lemma SameOutsideTwice(a: seq<Word>, b: seq<Word>, c: seq<Word>, inner: set<nat>, outer: set<nat>)
    requires SameOutside(a, b, inner) && SameOutside(b, c, outer) && inner <= outer
    ensures SameOutside(a, c, outer)
  {
    forall p, i | p !in outer && 0 <= i < 512
      ensures Entry(c, p, i) == Entry(a, p, i)
    {
      assert Entry(c, p, i) == Entry(b, p, i) && Entry(b, p, i) == Entry(a, p, i);
    }
  }

  lemma PutInside(m: seq<Word>, k: nat, v: Word, pages: set<nat>)
    requires k < |m| && k / PAGE_WORDS in pages
    ensures SameOutside(m, Put(m, k, v), pages)
  {
  }

  // Bitwise or, for flag words that may overlap an address field

  function Pow2(n: nat): (r: nat)
    ensures 0 < r
  {
    if n == 0 then 1 else 2 * Pow2(n - 1)
  }

  function BitOr(x: nat, y: nat): (r: nat)
    ensures r % 2 == 1 <==> x % 2 == 1 || y % 2 == 1
  {
    if x == 0 then y
    else if y == 0 then x
    else (if x % 2 == 1 || y % 2 == 1 then 1 else 0) + 2 * BitOr(x / 2, y / 2)
  }

  /** Bit `k` of the or is set exactly when it is set in either word. */
  lemma {:induction false} BitOrBits(x: nat, y: nat, k: nat)
    ensures BitOr(x, y) / Pow2(k) % 2 == 1 <==> x / Pow2(k) % 2 == 1 || y / Pow2(k) % 2 == 1
    decreases k
  {
    if k > 0 {
      OrHalves(x, y);
      BitOrBits(x / 2, y / 2, k - 1);
      HalfThenShift(x, k);
      HalfThenShift(y, k);
      HalfThenShift(BitOr(x, y), k);
    }
  }

  lemma HalfThenShift(x: nat, k: nat)
    requires 0 < k
    ensures x / Pow2(k) == x / 2 / Pow2(k - 1)
  {
    var h, d := x / 2, Pow2(k - 1);
    assert h == h / d * d + h % d;
    assert x == h / d * (2 * d) + (2 * (h % d) + x % 2);
    UniqueQuotient(x, 2 * d, h / d, 2 * (h % d) + x % 2);
  }

  lemma Multiples(d: nat, a: nat, b: nat)
    requires a < b
    ensures a * d + d <= b * d
  {
    assert b * d == a * d + (b - a) * d;
    assert (b - a) * d == d + (b - a - 1) * d;
  }

  lemma UniqueQuotient(n: nat, d: nat, q: nat, r: nat)
    requires 0 < d && n == q * d + r && r < d
    ensures n / d == q
  {
    var q' := n / d;
    var r' := n % d;
    assert n == q' * d + r' && 0 <= r' < d;
    if q' < q {
      Multiples(d, q', q);
    } else if q < q' {
      Multiples(d, q, q');
    }
  }

  lemma {:induction false} BitOrFits(x: nat, y: nat, n: nat)
    requires x < Pow2(n) && y < Pow2(n)
    ensures BitOr(x, y) < Pow2(n)
    decreases n
  {
    if n > 0 && x != 0 && y != 0 {
      BitOrFits(x / 2, y / 2, n - 1);
    }
  }

  lemma OrStep(y: nat, r: nat, f: nat)
    requires BitOr(y + r / 2, f / 2) == y + BitOr(r / 2, f / 2)
    ensures BitOr(2 * y + r, f) == 2 * y + BitOr(r, f)
  {
    hide BitOr;
    assert (2 * y + r) / 2 == y + r / 2 && (2 * y + r) % 2 == r % 2;
    OrHalves(2 * y + r, f);
    OrHalves(r, f);
  }

  /** `q << k`. */
  function Shifted(q: nat, k: nat): nat {
    if k == 0 then q else 2 * Shifted(q, k - 1)
  }

  /** Or with a number below 2^k leaves the bits from k on alone. */
  lemma {:induction false} BitOrLow(q: nat, r: nat, f: nat, k: nat)
    requires r < Pow2(k) && f < Pow2(k)
    ensures BitOr(Shifted(q, k) + r, f) == Shifted(q, k) + BitOr(r, f)
    decreases k
  {
    hide BitOr;
    if k == 0 {
      OrNothing(q);
    } else {
      BitOrLow(q, r / 2, f / 2, k - 1);
      OrStep(Shifted(q, k - 1), r, f);
    }
  }

  lemma Shifted10(q: nat)
    ensures Shifted(q, 10) == q * 1024
  {
    assert Shifted(q, 1) == q * 2;
    assert Shifted(q, 3) == q * 8;
    assert Shifted(q, 5) == q * 32;
    assert Shifted(q, 7) == q * 128;
    assert Shifted(q, 9) == q * 512;
  }

  lemma OrNothing(x: nat)
    ensures BitOr(x, 0) == x && BitOr(0, 0) == 0
  {
  }

  lemma OrHalves(x: nat, y: nat)
    ensures BitOr(x, y) == (if x % 2 == 1 || y % 2 == 1 then 1 else 0) + 2 * BitOr(x / 2, y / 2)
  {
  }

  lemma WordIs64Bits()
    ensures Pow2(64) == U64 && Pow2(10) == 1024
  {
    assert Pow2(10) == 1024;
    assert Pow2(20) == 0x10_0000;
    assert Pow2(30) == 0x4000_0000;
    assert Pow2(40) == 0x100_0000_0000;
    assert Pow2(50) == 0x4_0000_0000_0000;
    assert Pow2(60) == 0x1000_0000_0000_0000;
  }
}
