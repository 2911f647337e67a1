/** Bytes, big-endian fields, and 64-bit registers with the shifts and masks applied to them. */
module Words {
  import opened Bits

  type byte = b: int | 0 <= b < 256

  const WORD: nat := 0x1_0000_0000_0000_0000

  type u64 = w: int | 0 <= w < WORD

  /** A 64-bit register as its bits, the most significant first. */
  type Word = w: seq<bool> | |w| == 64 witness seq(64, _ => false)

  function Pow2(n: nat): (p: nat)
    ensures p >= 1
  {
    if n == 0 then 1 else 2 * Pow2(n - 1)
  }

  /** The `n` low bits of `v`, most significant first. */
  function BitsOf(v: nat, n: nat): (s: seq<bool>)
    ensures |s| == n
  {
    if n == 0 then [] else BitsOf(v / 2, n - 1) + [v % 2 == 1]
  }

  /** The number a bit string denotes, most significant bit first. */
  function FromBits(s: seq<bool>): nat {
    if s == [] then 0 else 2 * FromBits(s[..|s| - 1]) + (if s[|s| - 1] then 1 else 0)
  }

  function Zeros(n: nat): (s: seq<bool>)
    ensures |s| == n && forall i :: 0 <= i < n ==> !s[i]
  {
    seq(n, _ => false)
  }

  /** The register holding the number `v`. */
  function ToWord(v: u64): Word {
    BitsOf(v, 64)
  }

  /** The number in a register. */
  function WordValue(w: Word): u64 {
    FromBitsBound(w);
    Pow2Of64();
    FromBits(w)
  }

  /** `x << k`: the bits that leave the register are lost. */
  function Shl(x: Word, k: nat): (r: Word)
    requires k < 64
    ensures forall i :: 0 <= i < 64 ==> r[i] == (i + k < 64 && x[i + k])
  {
    seq(64, i requires 0 <= i < 64 => i + k < 64 && x[i + k])
  }

  /** `x >> k` */
  function Shr(x: Word, k: nat): (r: Word)
    requires k < 64
    ensures forall i :: 0 <= i < 64 ==> r[i] == (i >= k && x[i - k])
  {
    seq(64, i requires 0 <= i < 64 => i >= k && x[i - k])
  }

  /** `x | y` */
  function Or(x: Word, y: Word): (r: Word)
    ensures forall i :: 0 <= i < 64 ==> r[i] == (x[i] || y[i])
  {
    seq(64, i requires 0 <= i < 64 => x[i] || y[i])
  }

  /** `x.count_ones()` */
  function CountOnes(x: Word): nat {
    Rank(x, true, 64)
  }

  /** `n` bytes of `v`, big-endian. */
  function BeBytes(v: nat, n: nat): (s: seq<byte>)
    ensures |s| == n
  {
    if n == 0 then [] else BeBytes(v / 256, n - 1) + [v % 256]
  }

  function FromBe(s: seq<byte>): nat {
    if s == [] then 0 else 256 * FromBe(s[..|s| - 1]) + s[|s| - 1]
  }

  /** All bits of a byte buffer in order. */
  function BufferBits(buf: seq<byte>): (s: seq<bool>)
    ensures |s| == 8 * |buf|
  {
    if buf == [] then [] else BufferBits(buf[..|buf| - 1]) + BitsOf(buf[|buf| - 1], 8)
  }

  /** The eight bytes `put_u64` writes: the bits of the register, eight at a time. */
  function PutU64(x: Word): (s: seq<byte>)
    ensures |s| == 8
  {
    seq(8, k requires 0 <= k < 8 => ByteOf(x[8 * k..8 * k + 8]))
  }

  /** `BigEndian::read_u64(&buf[at..])`: the 64 bits from byte `at` on, in order. */
  function ReadU64(buf: seq<byte>, at: nat): Word
    requires at + 8 <= |buf|
  {
    BufferBits(buf)[8 * at..8 * at + 64]
  }

  function AllButLast<T>(s: seq<T>): seq<T> {
    if s == [] then [] else s[..|s| - 1]
  }

  function ByteOf(bits: seq<bool>): byte
    requires |bits| == 8
  {
    FromBitsBound(bits);
    Pow2Of64();
    FromBits(bits)
  }

  // Powers of two

  lemma Pow2Of64()
    ensures Pow2(8) == 256 && Pow2(64) == WORD
  {
    Pow2Sum(8, 8);
    Pow2Sum(16, 16);
    Pow2Sum(32, 32);
    assert Pow2(8) == 256;
  }

  lemma {:induction false} Pow2Sum(a: nat, b: nat)
    ensures Pow2(a + b) == Pow2(a) * Pow2(b)
  {
    if a > 0 {
      Pow2Sum(a - 1, b);
    }
  }

  lemma {:induction false} Pow2Monotone(a: nat, b: nat)
    requires a <= b
    ensures Pow2(a) <= Pow2(b)
  {
    if a < b {
      Pow2Monotone(a, b - 1);
    }
  }

  /** `v` halved `k` times. */
  function Halved(v: nat, k: nat): (r: nat)
    ensures r <= v
  {
    if k == 0 then v else Halved(v / 2, k - 1)
  }

  /** `v` doubled `k` times. */
  function Doubled(v: nat, k: nat): nat {
    if k == 0 then v else 2 * Doubled(v, k - 1)
  }

  /** Bits taken by `n` fields of `width` bits each. */
  function Span(width: nat, n: nat): nat {
    if n == 0 then 0 else Span(width, n - 1) + width
  }

  lemma {:induction false} SpanIsProduct(width: nat, n: nat)
    ensures Span(width, n) == width * n
  {
    if n > 0 {
      SpanIsProduct(width, n - 1);
    }
  }

  lemma MulDistributes(a: int, b: int, c: int)
    ensures (a - b) * c == a * c - b * c
  {}

  lemma MulMonotone(a: int, b: int, c: nat)
    requires a <= b
    ensures a * c <= b * c
  {}

  /** Euclidean division is determined by its equation. */
  lemma EuclidUnique(d: nat, q: int, r: int, q': int, r': int)
    requires 0 <= r < d && 0 <= r' < d
    requires q * d + r == q' * d + r'
    ensures q == q' && r == r'
  {
    MulDistributes(q, q', d);
    MulDistributes(q', q, d);
    if q > q' {
      MulMonotone(1, q - q', d);
    } else if q < q' {
      MulMonotone(1, q' - q, d);
    }
  }

  lemma {:induction false} SpanMonotone(width: nat, m: nat, n: nat)
    requires m <= n
    ensures Span(width, m) <= Span(width, n)
  {
    if m < n {
      SpanMonotone(width, m, n - 1);
    }
  }

  lemma {:induction false} DoubledIsProduct(v: nat, k: nat)
    ensures Doubled(v, k) == v * Pow2(k)
  {
    if k > 0 {
      DoubledIsProduct(v, k - 1);
      assert v * (2 * Pow2(k - 1)) == 2 * (v * Pow2(k - 1));
    }
  }

  lemma HalvedTwice(v: nat, k: nat)
    requires k >= 2
    ensures Halved(v, k) == Halved(v / 4, k - 2)
  {
    assert Halved(v, k) == Halved(v / 2, k - 1) == Halved(v / 2 / 2, k - 2);
  }

  lemma EightTimes(v: nat)
    ensures Halved(v, 8) == v / 256 && Doubled(v, 8) == 256 * v
  {
    HalvedTwice(v, 8);
    HalvedTwice(v / 4, 6);
    HalvedTwice(v / 16, 4);
    HalvedTwice(v / 64, 2);
    assert Doubled(v, 1) == 2 * v;
    assert Doubled(v, 3) == 8 * v;
    assert Doubled(v, 5) == 32 * v;
    assert Doubled(v, 7) == 128 * v;
  }

  lemma {:induction false} HalvedBound(v: nat, n: nat, k: nat)
    requires v < Pow2(n + k)
    ensures Halved(v, k) < Pow2(n)
  {
    if k > 0 {
      HalvedBound(v / 2, n, k - 1);
    }
  }

  /** Halving `k` times is dividing by `2^k`: what the halvings drop is less than `2^k`. */
  lemma {:induction false} HalvedIsQuotient(v: nat, k: nat)
    ensures Doubled(Halved(v, k), k) <= v < Doubled(Halved(v, k) + 1, k)
  {
    if k > 0 {
      HalvedIsQuotient(v / 2, k - 1);
    }
  }

  lemma {:induction false} HalvedOuter(v: nat, k: nat)
    requires k >= 1
    ensures Halved(v, k) == Halved(v, k - 1) / 2
  {
    if k > 1 {
      HalvedOuter(v / 2, k - 1);
    }
  }

  // Bits of numbers

  lemma {:induction false} BitsOfSplit(v: nat, a: nat, b: nat)
    ensures BitsOf(v, a + b) == BitsOf(Halved(v, b), a) + BitsOf(v, b)
    decreases b
  {
    if b > 0 {
      BitsOfSplit(v / 2, a, b - 1);
      var hi, lo, last := BitsOf(Halved(v, b), a), BitsOf(v / 2, b - 1), [v % 2 == 1];
      assert (hi + lo) + last == hi + (lo + last);
    }
  }

  lemma {:induction false} BitsOfZero(n: nat)
    ensures BitsOf(0, n) == Zeros(n)
  {
    if n > 0 {
      BitsOfZero(n - 1);
    }
  }

  /** Adding a multiple of `2^n` does not touch the `n` low bits. */
  lemma {:induction false} BitsOfPeriodic(v: nat, m: nat, n: nat)
    ensures BitsOf(v + Doubled(m, n), n) == BitsOf(v, n)
  {
    if n > 0 {
      BitsOfPeriodic(v / 2, m, n - 1);
    }
  }

  lemma {:induction false} FromBitsOf(v: nat, n: nat)
    requires v < Pow2(n)
    ensures FromBits(BitsOf(v, n)) == v
  {
    if n > 0 {
      FromBitsOf(v / 2, n - 1);
      assert BitsOf(v, n)[..n - 1] == BitsOf(v / 2, n - 1);
    }
  }

  lemma {:induction false} BitsOfFrom(s: seq<bool>)
    ensures BitsOf(FromBits(s), |s|) == s
  {
    if s != [] {
      BitsOfFrom(s[..|s| - 1]);
      assert s == s[..|s| - 1] + [s[|s| - 1]];
    }
  }

  lemma {:induction false} FromBitsBound(s: seq<bool>)
    ensures FromBits(s) < Pow2(|s|)
  {
    if s != [] {
      FromBitsBound(s[..|s| - 1]);
    }
  }

  lemma WordOfValue(v: u64)
    ensures WordValue(ToWord(v)) == v
  {
    Pow2Of64();
    FromBitsOf(v, 64);
  }

  /** A value that fits in `n` bits, seen in a register: zeros above its `n` bits. */
  lemma SmallWord(v: u64, n: nat)
    requires n <= 64 && v < Pow2(n)
    ensures forall i :: 0 <= i < 64 ==> ToWord(v)[i] == (i >= 64 - n && BitsOf(v, n)[i - (64 - n)])
  {
    BitsOfSplit(v, 64 - n, n);
    HalvedBound(v, 0, n);
    BitsOfZero(64 - n);
  }

  // What the register shifts do to the number in the register

  lemma {:induction false} FromBitsAppend(s: seq<bool>, t: seq<bool>)
    ensures FromBits(s + t) == Doubled(FromBits(s), |t|) + FromBits(t)
  {
    if t == [] {
      assert s + t == s;
    } else {
      assert (s + t)[..|s + t| - 1] == s + t[..|t| - 1];
      FromBitsAppend(s, t[..|t| - 1]);
    }
  }

  lemma {:induction false} FromBitsZeros(n: nat)
    ensures FromBits(Zeros(n)) == 0
  {
    if n > 0 {
      assert Zeros(n)[..n - 1] == Zeros(n - 1);
      FromBitsZeros(n - 1);
    }
  }

  lemma Distribute(a: nat, b: nat, c: nat, d: nat)
    ensures (a * b + c) * d == a * (b * d) + c * d
  {
    assert (a * b + c) * d == (a * b) * d + c * d;
    assert (a * b) * d == a * (b * d);
  }

  /** `x << k` is the product with `2^k`, less the bits that left the register. */
  lemma ShlIsProduct(x: Word, k: nat)
    requires k < 64
    ensures WordValue(x) * Pow2(k) == FromBits(x[..k]) * WORD + WordValue(Shl(x, k))
  {
    SplitValue(x, k);
    ShiftedValue(x, k);
    Pow2Sum(64 - k, k);
    Pow2Of64();
    Regroup(WordValue(x), FromBits(x[..k]), FromBits(x[k..]), Pow2(64 - k), Pow2(k));
  }

  lemma Regroup(v: nat, hi: nat, lo: nat, p: nat, q: nat)
    requires v == hi * p + lo && p * q == WORD
    ensures v * q == hi * WORD + lo * q
  {
    Distribute(hi, p, lo, q);
  }

  /** A register's number, from its first bits and the others. */
  lemma SplitValue(x: Word, k: nat)
    requires k <= 64
    ensures WordValue(x) == FromBits(x[..k]) * Pow2(64 - k) + FromBits(x[k..])
  {
    FromBitsAppend(x[..k], x[k..]);
    assert x == x[..k] + x[k..];
    DoubledIsProduct(FromBits(x[..k]), 64 - k);
  }

  lemma ShiftedValue(x: Word, k: nat)
    requires k < 64
    ensures WordValue(Shl(x, k)) == FromBits(x[k..]) * Pow2(k)
  {
    assert Shl(x, k) == x[k..] + Zeros(k);
    FromBitsAppend(x[k..], Zeros(k));
    FromBitsZeros(k);
    DoubledIsProduct(FromBits(x[k..]), k);
  }

  /** `x >> k` is the quotient by `2^k`. */
  lemma ShrIsQuotient(x: Word, k: nat)
    requires k < 64
    ensures WordValue(x) == WordValue(Shr(x, k)) * Pow2(k) + FromBits(x[64 - k..])
    ensures FromBits(x[64 - k..]) < Pow2(k)
  {
    var hi := x[..64 - k];
    FromBitsAppend(hi, x[64 - k..]);
    assert x == hi + x[64 - k..];
    assert Shr(x, k) == Zeros(k) + hi;
    FromBitsAppend(Zeros(k), hi);
    FromBitsZeros(k);
    DoubledIsProduct(0, 64 - k);
    DoubledIsProduct(FromBits(hi), k);
    FromBitsBound(x[64 - k..]);
  }

  // Buffers

  lemma {:induction false} BufferBitsAppend(a: seq<byte>, b: seq<byte>)
    ensures BufferBits(a + b) == BufferBits(a) + BufferBits(b)
  {
    if b == [] {
      assert a + b == a;
    } else {
      var init, last := b[..|b| - 1], BitsOf(b[|b| - 1], 8);
      assert (a + b)[..|a + b| - 1] == a + init;
      BufferBitsAppend(a, init);
      assert (BufferBits(a) + BufferBits(init)) + last == BufferBits(a) + (BufferBits(init) + last);
    }
  }

  lemma BufferBitsSlice(buf: seq<byte>, lo: nat, hi: nat)
    requires lo <= hi <= |buf|
    ensures forall i :: 0 <= i < 8 * (hi - lo) ==> BufferBits(buf[lo..hi])[i] == BufferBits(buf)[8 * lo + i]
  {
    assert buf == buf[..lo] + buf[lo..hi] + buf[hi..];
    BufferBitsAppend(buf[..lo] + buf[lo..hi], buf[hi..]);
    BufferBitsAppend(buf[..lo], buf[lo..hi]);
  }

  lemma {:induction false} BufferBitsOfBe(v: nat, n: nat)
    ensures BufferBits(BeBytes(v, n)) == BitsOf(v, 8 * n)
  {
    if n > 0 {
      BufferBitsOfBe(v / 256, n - 1);
      BitsOfSplit(v, 8 * (n - 1), 8);
      EightTimes(v);
      EightTimes(v / 256);
      BitsOfPeriodic(v % 256, v / 256, 8);
      assert BeBytes(v, n)[..n - 1] == BeBytes(v / 256, n - 1);
    }
  }

  lemma {:induction false} FromBeIsFromBits(s: seq<byte>)
    ensures FromBe(s) == FromBits(BufferBits(s))
  {
    if s != [] {
      var init, last := s[..|s| - 1], s[|s| - 1];
      FromBeIsFromBits(init);
      FromBitsOf(last, 8) by { Pow2Of64(); }
      FromBitsAppend(BufferBits(init), BitsOf(last, 8));
      EightTimes(FromBe(init));
    }
  }

  /** A big-endian field that is wide enough reads back as the number written. */
  lemma FromBeOfBe(v: nat, n: nat)
    requires v < Pow2(8 * n)
    ensures FromBe(BeBytes(v, n)) == v
  {
    FromBeIsFromBits(BeBytes(v, n));
    BufferBitsOfBe(v, n);
    FromBitsOf(v, 8 * n);
  }

  /** The register `w` is bits `at` to `at + 64`. */
  ghost predicate IsWord(w: Word, bits: seq<bool>, at: nat) {
    at + 64 <= |bits| && forall i :: 0 <= i < 64 ==> w[i] == bits[at + i]
  }

  lemma ReadU64Bits(buf: seq<byte>, at: nat)
    requires at + 8 <= |buf|
    ensures IsWord(ReadU64(buf, at), BufferBits(buf), 8 * at)
  {}

  /** The register read from a buffer is the big-endian number of its eight bytes. */
  lemma ReadU64IsBigEndian(buf: seq<byte>, at: nat)
    requires at + 8 <= |buf|
    ensures FromBe(buf[at..at + 8]) == WordValue(ReadU64(buf, at))
  {
    FromBeIsFromBits(buf[at..at + 8]);
    BufferBitsSlice(buf, at, at + 8);
    assert BufferBits(buf[at..at + 8]) == ReadU64(buf, at);
  }

  /** `written'` is `written` and one more word. */
  ghost predicate Extends(written: seq<bool>, word: Word, written': seq<bool>) {
    && |written'| == |written| + 64
    && (forall i :: 0 <= i < |written| ==> written'[i] == written[i])
    && IsWord(word, written', |written|)
  }

  lemma BitsOfByteOf(bits: seq<bool>)
    requires |bits| == 8
    ensures BitsOf(ByteOf(bits), 8) == bits
  {
    BitsOfFrom(bits);
  }

  lemma {:induction false} BitsOfBytes(x: Word, s: seq<byte>, k: nat)
    requires |s| == k <= 8 && forall j :: 0 <= j < k ==> s[j] == ByteOf(x[8 * j..8 * j + 8])
    ensures BufferBits(s) == x[..8 * k]
  {
    if k > 0 {
      var group := x[8 * (k - 1)..8 * k];
      BitsOfBytes(x, s[..k - 1], k - 1);
      BitsOfByteOf(group);
      NextGroup(x, 8 * (k - 1));
    }
  }

  lemma NextGroup(x: Word, at: nat)
    requires at + 8 <= 64
    ensures x[..at] + x[at..at + 8] == x[..at + 8]
  {}

  lemma PutU64IsWord(x: Word)
    ensures BufferBits(PutU64(x)) == x
  {
    BitsOfBytes(x, PutU64(x), 8);
    assert x[..64] == x;
  }

  /** A word written at the end of a buffer is there, and the bits before it are untouched. */
  lemma PutU64Bits(buf: seq<byte>, x: Word)
    ensures Extends(BufferBits(buf), x, BufferBits(buf + PutU64(x)))
  {
    BufferBitsAppend(buf, PutU64(x));
    PutU64IsWord(x);
  }

  /** The bytes of a register are the big-endian bytes of its number. */
  lemma PutU64IsBigEndian(x: Word)
    ensures FromBe(PutU64(x)) == WordValue(x)
  {
    FromBeIsFromBits(PutU64(x));
    PutU64IsWord(x);
  }
}
