/** Big integers as byte strings whose lexicographic order is the numeric one, for magnitudes up to 8191 bytes. */
module BigIntegers {
  import opened Words
  import opened Results
  import opened ByteStrings
  import L = LogArrays

  const NEGATIVE_ZERO: byte := 0x7F

  /** Longest magnitude whose size still sorts right. */
  const MAX_ORDERED_BYTES := 8191

  const U32: nat := 0x1_0000_0000

  // Complement

  function Flip(b: byte): byte {
    255 - b
  }

  function FlipAll(s: Bytes): (r: Bytes)
    ensures |r| == |s| && forall i :: 0 <= i < |r| ==> r[i] == Flip(s[i])
  {
    seq(|s|, i requires 0 <= i < |s| => Flip(s[i]))
  }

  lemma FlipTwice(s: Bytes)
    ensures FlipAll(FlipAll(s)) == s
  {}

  lemma FlipAppend(s: Bytes, t: Bytes)
    ensures FlipAll(s + t) == FlipAll(s) + FlipAll(t)
  {}

  /** Complementing turns the order around, as long as neither string begins the other. */
  lemma FlipReverses(a: Bytes, b: Bytes)
    requires PrefixFree(a, b)
    ensures PrefixFree(FlipAll(a), FlipAll(b))
    ensures Compare(FlipAll(a), FlipAll(b)) == Compare(b, a)
  {
    var n := CommonPrefix(a, b);
    CommonPrefixIsUnique(FlipAll(a), FlipAll(b), n, CommonPrefix(FlipAll(a), FlipAll(b)));
    CompareAt(FlipAll(a), FlipAll(b), n);
    CompareAt(b, a, n);
  }

  lemma FirstByteDecides(a: Bytes, b: Bytes)
    requires a != [] && b != [] && a[0] < b[0]
    ensures Compare(a, b) == Less && PrefixFree(a, b)
  {
    CommonPrefixIsUnique(a, b, 0, CommonPrefix(a, b));
  }

  // The size of a magnitude

  /** The groups of seven bits above the last one, all marked as continued. */
  function SizeHead(r: nat): (s: Bytes)
    ensures |s| >= 1
  {
    if r >= 0x80 then SizeHead(r / 0x80) + [0x80 + r % 0x80]
    else if r >= 0x40 then [0xC0, 0x80 + r]
    else [0xC0 + r]
  }

  /** The code of a size. */
  function SizeCode(n: nat): (s: Bytes)
    ensures |s| >= 1
  {
    if n == 0 then [NEGATIVE_ZERO]
    else if n >= 0x80 then SizeHead(n / 0x80) + [n % 0x80]
    else if n >= 0x40 then [0xC0, n]
    else [0x80 + n]
  }

  function Reversed(s: Bytes): (r: Bytes)
    ensures |r| == |s| && forall i :: 0 <= i < |r| ==> r[i] == s[|s| - 1 - i]
  {
    seq(|s|, i requires 0 <= i < |s| => s[|s| - 1 - i])
  }

  lemma ReversedPush(v: Bytes, b: byte)
    ensures Reversed(v + [b]) == [b] + Reversed(v)
  {}

  /** The groups of seven bits written so far, and those still in the remainder, make up the code. */
  ghost predicate Encoding(size: nat, remainder: nat, last: bool, v: Bytes) {
    if last then remainder == size && v == []
    else if remainder == 0 then Reversed(v) == SizeCode(size)
    else SizeHead(remainder) + Reversed(v) == SizeCode(size)
  }

  /** The bytes for the lowest seven bits of the remainder, and the padded first byte if they only just fit. */
  method EncodeGroup(remainder: nat, last: bool, ghost size: nat, v: Bytes) returns (r: Bytes)
    requires remainder > 0 && Encoding(size, remainder, last, v)
    ensures Encoding(size, remainder / 0x80, false, r)
  {
    if remainder >= 0x80 {
      var b := (if last then 0 else 0x80) + remainder % 0x80;
      EncodeMiddle(size, remainder, last, v, b);
      r := v + [b];
    } else if remainder >= 0x40 {
      var b := (if last then 0 else 0x80) + remainder % 0x80;
      EncodePadded(size, remainder, last, v, b);
      r := v + [b] + [0xC0];
    } else {
      var b := 0x80 + (if last then 0 else 0x40) + remainder % 0x40;
      ReversedPush(v, b);
      r := v + [b];
    }
  }

  lemma EncodeMiddle(size: nat, remainder: nat, last: bool, v: Bytes, b: byte)
    requires Encoding(size, remainder, last, v) && remainder >= 0x80
    requires b == (if last then 0 else 0x80) + remainder % 0x80
    ensures Encoding(size, remainder / 0x80, false, v + [b])
  {
    ReversedPush(v, b);
    MoveOver(remainder, b, Reversed(v), last);
    assert SizeCode(size) + [] == SizeCode(size);
  }

  lemma EncodePadded(size: nat, remainder: nat, last: bool, v: Bytes, b: byte)
    requires Encoding(size, remainder, last, v) && 0x40 <= remainder < 0x80
    requires b == (if last then 0 else 0x80) + remainder % 0x80
    ensures Encoding(size, 0, false, v + [b] + [0xC0])
  {
    ReversedPush(v, b);
    ReversedPush(v + [b], 0xC0);
    assert [0xC0] + ([b] + Reversed(v)) == [0xC0, b] + Reversed(v);
  }

  /** `size_encode`: the bytes of the code, last one first. */
  method SizeEncode(size: nat) returns (v: Bytes)
    requires size < U32
    ensures Reversed(v) == SizeCode(size)
  {
    if size == 0 {
      return [NEGATIVE_ZERO];
    }
    var remainder := size;
    v := [];
    var last := true;
    while remainder > 0
      invariant Encoding(size, remainder, last, v)
      invariant last ==> remainder > 0
    {
      v := EncodeGroup(remainder, last, size, v);
      remainder := remainder / 0x80;
      last := false;
    }
  }

  lemma MoveOver(r: nat, b: byte, done: Bytes, last: bool)
    requires r >= 0x80 && b == (if last then 0 else 0x80) + r % 0x80
    ensures SizeHead(r / 0x80) + ([b] + done) == (if last then SizeCode(r) else SizeHead(r)) + done
  {
    assert SizeHead(r / 0x80) + ([b] + done) == SizeHead(r / 0x80) + [b] + done;
  }

  // What the bytes of a size code spell

  /** Seven bits from each byte, six from the first. */
  function SizeValue(s: Bytes): nat {
    if s == [] then 0
    else if |s| == 1 then s[0] % 0x40
    else 0x80 * SizeValue(s[..|s| - 1]) + s[|s| - 1] % 0x80
  }

  /** A byte that says that more follow. */
  ghost predicate Continues(b: byte, first: bool) {
    if first then b >= 0xC0 else b >= 0x80
  }

  ghost predicate AllContinue(s: Bytes) {
    forall i :: 0 <= i < |s| ==> Continues(s[i], i == 0)
  }

  lemma {:induction false} HeadSpells(r: nat)
    ensures SizeValue(SizeHead(r)) == r && AllContinue(SizeHead(r))
  {
    if r >= 0x80 {
      HeadSpells(r / 0x80);
      assert SizeHead(r)[..|SizeHead(r)| - 1] == SizeHead(r / 0x80);
    } else if r >= 0x40 {
      assert SizeHead(r)[..1] == [0xC0];
    }
  }

  /** A size code is continued up to its last byte, and spells the size. */
  lemma CodeSpells(n: nat)
    requires n >= 1
    ensures var s := SizeCode(n); var k := |s| - 1;
      SizeValue(s) == n && AllContinue(s[..k]) && !Continues(s[k], k == 0) && s[0] >= 0x80
  {
    var s := SizeCode(n);
    var k := |s| - 1;
    if n >= 0x80 {
      HeadSpells(n / 0x80);
      assert s[..k] == SizeHead(n / 0x80);
      assert Continues(s[..k][0], true);
    } else if n >= 0x40 {
      assert s[..k] == [0xC0];
    }
  }

  /** Bytes that spell a size: a first one for the sign, continued up to the last, and the groups of seven bits. */
  ghost predicate Spells(t: Bytes, n: nat) {
    && t != [] && t[0] >= 0x80 && SizeValue(t) == n
    && AllContinue(t[..|t| - 1]) && !Continues(t[|t| - 1], |t| == 1)
  }

  /** Of all continued groups with one value, the head of the code is the shortest, and the only one so short. */
  lemma {:induction false} HeadIsShortest(u: Bytes, r: nat)
    requires u != [] && AllContinue(u) && SizeValue(u) == r
    ensures |SizeHead(r)| <= |u| && (|SizeHead(r)| == |u| ==> u == SizeHead(r))
  {
    assert Continues(u[0], true);
    if |u| > 1 {
      var init, last := u[..|u| - 1], u[|u| - 1];
      assert Continues(last, false);
      assert forall i :: 0 <= i < |init| ==> init[i] == u[i];
      HeadIsShortest(init, SizeValue(init));
      LastGroup(r, SizeValue(init), last % 0x80);
      assert u == init + [last];
    }
  }

  lemma LastGroup(r: nat, high: nat, low: nat)
    requires r == 0x80 * high + low && low < 0x80
    ensures r / 0x80 == high && r % 0x80 == low
  {}

  /** The code is the shortest spelling of its size, and the only one so short. */
  lemma CodeIsShortest(t: Bytes, n: nat)
    requires n >= 1 && Spells(t, n)
    ensures Spells(SizeCode(n), n)
    ensures |SizeCode(n)| <= |t| && (|SizeCode(n)| == |t| ==> t == SizeCode(n))
  {
    CodeSpells(n);
    if |t| > 1 {
      var init, last := t[..|t| - 1], t[|t| - 1];
      HeadIsShortest(init, SizeValue(init));
      LastGroup(n, SizeValue(init), last % 0x80);
      assert t == init + [last];
    }
  }

  // Storage

  function Abs(v: int): nat {
    if v < 0 then -v else v
  }

  /** Bytes for a magnitude and one bit more. */
  function NumBytes(m: nat): (n: nat)
    ensures n >= 1
  {
    L.BitLength(m) / 8 + 1
  }

  function Magnitude(m: nat): Bytes {
    SizeCode(NumBytes(m)) + BeBytes(m, NumBytes(m))
  }

  /** The stored form: size and magnitude, complemented for negative numbers. */
  function Storage(v: int): Bytes {
    if v < 0 then FlipAll(Magnitude(-v)) else Magnitude(v)
  }

  /** The size is kept in 32 bits. */
  predicate Storable(v: int) {
    L.BitLength(Abs(v)) + 1 < U32
  }

  lemma NumBytesBounds(m: nat, n: nat)
    requires n >= 1
    ensures NumBytes(m) <= n <==> m < Pow2(8 * n - 1)
    ensures m < Pow2(8 * NumBytes(m))
  {
    L.BitLengthBounds(m, 8 * n - 1);
    L.BitLengthBounds(m, 8 * NumBytes(m));
  }

  // Order

  lemma {:induction false} BeOrder(x: nat, y: nat, n: nat)
    requires x < y < Pow2(8 * n)
    ensures Compare(BeBytes(x, n), BeBytes(y, n)) == Less && PrefixFree(BeBytes(x, n), BeBytes(y, n))
  {
    if n > 0 {
      Pow2Sum(8, 8 * n - 8);
      assert Pow2(8) == 256 by { Pow2Sum(4, 4); }
      if x / 256 < y / 256 {
        BeOrder(x / 256, y / 256, n - 1);
        CompareExtends(BeBytes(x / 256, n - 1), BeBytes(y / 256, n - 1), [x % 256], [y % 256]);
      } else {
        FirstByteDecides([x % 256], [y % 256]);
        CompareSharedPrefix(BeBytes(x / 256, n - 1), [x % 256], [y % 256]);
      }
    }
  }

  /** Up to 8191 the codes of sizes sort as the sizes do. */
  lemma SizeOrder(m: nat, n: nat)
    requires 1 <= m < n <= MAX_ORDERED_BYTES
    ensures Compare(SizeCode(m), SizeCode(n)) == Less && PrefixFree(SizeCode(m), SizeCode(n))
  {
    if m < 0x40 || m / 0x80 < n / 0x80 {
      FirstByteDecides(SizeCode(m), SizeCode(n));
    } else {
      FirstByteDecides([m % 0x80], [n % 0x80]);
      CompareSharedPrefix([0xC0 + m / 0x80], [m % 0x80], [n % 0x80]);
    }
  }

  lemma SameSizeOrder(x: nat, y: nat, n: nat)
    requires x < y < Pow2(8 * n)
    ensures var c := SizeCode(n);
      Compare(c + BeBytes(x, n), c + BeBytes(y, n)) == Less && PrefixFree(c + BeBytes(x, n), c + BeBytes(y, n))
  {
    BeOrder(x, y, n);
    CompareSharedPrefix(SizeCode(n), BeBytes(x, n), BeBytes(y, n));
  }

  lemma LessSizeOrder(x: nat, y: nat, m: nat, n: nat)
    requires 1 <= m < n <= MAX_ORDERED_BYTES
    ensures var a, b := SizeCode(m) + BeBytes(x, m), SizeCode(n) + BeBytes(y, n);
      Compare(a, b) == Less && PrefixFree(a, b)
  {
    SizeOrder(m, n);
    CompareExtends(SizeCode(m), SizeCode(n), BeBytes(x, m), BeBytes(y, n));
  }

  lemma SizedOrder(x: nat, y: nat, m: nat, n: nat, a: Bytes, b: Bytes)
    requires x < y < Pow2(8 * n) && 1 <= m <= n <= MAX_ORDERED_BYTES
    requires a == SizeCode(m) + BeBytes(x, m) && b == SizeCode(n) + BeBytes(y, n)
    ensures Compare(a, b) == Less && PrefixFree(a, b)
  {
    if m < n {
      LessSizeOrder(x, y, m, n);
    } else {
      SameSizeOrder(x, y, n);
    }
  }

  lemma MagnitudeOrder(x: nat, y: nat)
    requires x < y && NumBytes(y) <= MAX_ORDERED_BYTES
    ensures Compare(Magnitude(x), Magnitude(y)) == Less && PrefixFree(Magnitude(x), Magnitude(y))
  {
    NumBytesBounds(y, NumBytes(y));
    NumBytesBounds(x, NumBytes(y));
    SizedOrder(x, y, NumBytes(x), NumBytes(y), Magnitude(x), Magnitude(y));
  }

  /** The first byte tells the sign. */
  lemma SignByte(v: int)
    ensures Storage(v) != [] && (if v < 0 then Storage(v)[0] < NEGATIVE_ZERO else Storage(v)[0] > 0x80)
  {
    CodeSpells(NumBytes(Abs(v)));
    FirstIsNotBare(NumBytes(Abs(v)));
  }

  lemma FirstIsNotBare(n: nat)
    requires n >= 1
    ensures SizeCode(n)[0] > 0x80
  {
    CodeSpells(n);
    if n >= 0x80 {
      HeadSpells(n / 0x80);
      assert SizeCode(n)[..|SizeCode(n)| - 1] == SizeHead(n / 0x80);
      assert Continues(SizeHead(n / 0x80)[0], true);
    }
  }

  /** Stored integers sort as the numbers do, and none begins another. */
  lemma StorageOrder(a: int, b: int)
    requires a < b && NumBytes(Abs(a)) <= MAX_ORDERED_BYTES && NumBytes(Abs(b)) <= MAX_ORDERED_BYTES
    ensures Compare(Storage(a), Storage(b)) == Less && PrefixFree(Storage(a), Storage(b))
  {
    if a < 0 <= b {
      SignsOrder(a, b);
    } else if a >= 0 {
      PositiveOrder(a, b);
    } else {
      NegativeOrder(a, b);
    }
  }

  lemma SignsOrder(a: int, b: int)
    requires a < 0 <= b
    ensures Compare(Storage(a), Storage(b)) == Less && PrefixFree(Storage(a), Storage(b))
  {
    SignByte(a);
    SignByte(b);
    FirstByteDecides(Storage(a), Storage(b));
  }

  lemma PositiveOrder(a: nat, b: nat)
    requires a < b && NumBytes(b) <= MAX_ORDERED_BYTES
    ensures Compare(Storage(a), Storage(b)) == Less && PrefixFree(Storage(a), Storage(b))
  {
    MagnitudeOrder(a, b);
  }

  lemma NegativeOrder(a: int, b: int)
    requires a < b < 0 && NumBytes(-a) <= MAX_ORDERED_BYTES
    ensures Compare(Storage(a), Storage(b)) == Less && PrefixFree(Storage(a), Storage(b))
  {
    FlippedOrder(-b, -a);
  }

  lemma FlippedOrder(x: nat, y: nat)
    requires x < y && NumBytes(y) <= MAX_ORDERED_BYTES
    ensures var a, b := FlipAll(Magnitude(y)), FlipAll(Magnitude(x)); Compare(a, b) == Less && PrefixFree(a, b)
  {
    MagnitudeOrder(x, y);
    PrefixFreeFlips(Magnitude(y), Magnitude(x));
    FlipReverses(Magnitude(y), Magnitude(x));
  }

  lemma PrefixFreeFlips(a: Bytes, b: Bytes)
    requires PrefixFree(b, a)
    ensures PrefixFree(a, b)
  {
    CommonPrefixIsUnique(a, b, CommonPrefix(b, a), CommonPrefix(a, b));
  }

  lemma {:induction false} BitLengthOfPow2(k: nat)
    ensures L.BitLength(Pow2(k)) == k + 1
  {
    if k > 0 {
      BitLengthOfPow2(k - 1);
    }
  }

  /** All integers of up to `n` bytes are stored in order. */
  ghost predicate OrderedUpTo(n: nat) {
    forall a: int, b: int :: a < b && NumBytes(Abs(a)) <= n && NumBytes(Abs(b)) <= n ==>
      Compare(Storage(a), Storage(b)) == Less
  }

  /** The bound is exact: one byte more, and a number of 8192 bytes sorts below one of 128. */
  lemma OrderBound(n: nat)
    ensures OrderedUpTo(n) <==> n <= MAX_ORDERED_BYTES
  {
    if n <= MAX_ORDERED_BYTES {
      forall a: int, b: int | a < b && NumBytes(Abs(a)) <= n && NumBytes(Abs(b)) <= n
        ensures Compare(Storage(a), Storage(b)) == Less
      {
        StorageOrder(a, b);
      }
    } else {
      SizeInversion(127, MAX_ORDERED_BYTES);
    }
  }

  lemma SizeCodesInverted()
    ensures SizeCode(128) == [0xC1, 0x00] && SizeCode(8192) == [0xC0, 0xC0, 0x00]
  {
    assert SizeHead(64) == [0xC0, 0xC0];
  }

  lemma NumBytesOfPow2(k: nat)
    ensures NumBytes(Pow2(8 * k)) == k + 1
  {
    BitLengthOfPow2(8 * k);
  }

  /** The powers of two with `m` and `n` bytes below their leading bit are in the order of `m` and `n`. */
  lemma PowersGrow(m: nat, n: nat)
    requires m < n
    ensures Pow2(8 * m) < Pow2(8 * n)
  {
    BitLengthOfPow2(8 * m);
    L.BitLengthBounds(Pow2(8 * m), 8 * n);
  }

  lemma PowerHead(k: nat)
    ensures Storage(Pow2(8 * k)) == SizeCode(k + 1) + BeBytes(Pow2(8 * k), k + 1)
  {
    NumBytesOfPow2(k);
  }

  /** With `m` and `n` for 127 and 8191: a number of 8192 bytes sorts below a smaller one of 128. */
  lemma SizeInversion(m: nat, n: nat)
    requires m == 127 && n == MAX_ORDERED_BYTES
    ensures Pow2(8 * m) < Pow2(8 * n) && NumBytes(Pow2(8 * m)) == 128 && NumBytes(Pow2(8 * n)) == 8192
    ensures Compare(Storage(Pow2(8 * m)), Storage(Pow2(8 * n))) == Greater
  {
    PowersGrow(m, n);
    NumBytesOfPow2(m);
    NumBytesOfPow2(n);
    PowerHead(m);
    PowerHead(n);
    SizeCodesInverted();
    FirstByteDecides(Storage(Pow2(8 * n)), Storage(Pow2(8 * m)));
    CompareFlips(Storage(Pow2(8 * n)), Storage(Pow2(8 * m)));
  }

  lemma SmallPowers()
    ensures Pow2(7) == 0x80 && Pow2(15) == 0x8000
  {
    Pow2Sum(3, 4);
    Pow2Sum(7, 8);
    Pow2Of64();
  }

  lemma OneByte(v: nat)
    requires v < 0x100
    ensures BeBytes(v, 1) == [v]
  {
    assert BeBytes(v / 0x100, 0) == [];
  }

  lemma OneByteMagnitude(v: nat)
    requires v < 0x80
    ensures Magnitude(v) == [0x81, v]
  {
    SmallPowers();
    NumBytesBounds(v, 1);
    OneByte(v);
  }

  lemma TwoByteMagnitude(v: nat)
    requires 0x80 <= v < 0x8000
    ensures Magnitude(v) == [0x82, v / 0x100, v % 0x100]
  {
    SmallPowers();
    NumBytesBounds(v, 1);
    NumBytesBounds(v, 2);
    OneByte(v / 0x100);
    assert BeBytes(v, 2) == [v / 0x100, v % 0x100];
  }

  /** Below 128 there is a size of one and a byte; for a negative integer both are complemented. */
  lemma StoredInOneByte(v: int)
    requires -0x80 < v < 0x80
    ensures Storage(v) == if v >= 0 then [0x81, v] else [0x7E, 0xFF + v]
    ensures NEGATIVE_ZERO == 0xFF - 0x80
  {
    OneByteMagnitude(Abs(v));
  }

  /** From there up to 32767 there are two bytes, the higher one first. */
  lemma StoredInTwoBytes(v: int)
    requires 0x80 <= Abs(v) < 0x8000
    ensures var hi, lo := Abs(v) / 0x100, Abs(v) % 0x100;
      Storage(v) == if v >= 0 then [0x82, hi, lo] else [0x7D, 0xFF - hi, 0xFF - lo]
  {
    TwoByteMagnitude(Abs(v));
  }

  // Encoding

  method ReverseInPlace(a: array<byte>)
    modifies a
    ensures a[..] == Reversed(old(a[..]))
  {
    var n, i := a.Length, 0;
    while i < n / 2
      invariant 0 <= i <= n / 2
      invariant forall k :: 0 <= k < i ==> a[k] == old(a[n - 1 - k]) && a[n - 1 - k] == old(a[k])
      invariant forall k :: i <= k < n - i ==> a[k] == old(a[k])
    {
      a[i], a[n - 1 - i] := a[n - 1 - i], a[i];
      i := i + 1;
    }
  }

  method FlipInPlace(a: array<byte>)
    modifies a
    ensures a[..] == FlipAll(old(a[..]))
  {
    for i := 0 to a.Length
      invariant forall k :: 0 <= k < i ==> a[k] == Flip(old(a[k]))
      invariant forall k :: i <= k < a.Length ==> a[k] == old(a[k])
    {
      a[i] := Flip(a[i]);
    }
  }

  /** The low bytes first, as they are shifted out. */
  method LittleEndian(m: nat, n: nat) returns (v: Bytes)
    ensures Reversed(v) == BeBytes(m, n)
  {
    v := [];
    var rest := m;
    ghost var want := BeBytes(m, n);
    for i := 0 to n
      invariant BeBytes(rest, n - i) + Reversed(v) == want
    {
      ghost var done := Reversed(v);
      ReversedPush(v, rest % 256);
      assert BeBytes(rest / 256, n - i - 1) + ([rest % 256] + done) ==
        BeBytes(rest / 256, n - i - 1) + [rest % 256] + done;
      v := v + [rest % 256];
      rest := rest / 256;
    }
    assert [] + Reversed(v) == Reversed(v);
  }

  lemma ReversedAppend(s: Bytes, t: Bytes)
    ensures Reversed(s + t) == Reversed(t) + Reversed(s)
  {}

  lemma FlipReversed(s: Bytes)
    ensures Reversed(FlipAll(s)) == FlipAll(Reversed(s))
  {}

  /** `bigint_to_storage`: built backwards, complemented for negative numbers, then turned around. */
  method BigintToStorage(bigint: int) returns (r: Bytes)
    requires Storable(bigint)
    ensures r == Storage(bigint)
  {
    var m := Abs(bigint);
    var size := L.BitLength(m) + 1;
    var numBytes := size / 8 + if size % 8 != 0 then 1 else 0;
    assert numBytes == NumBytes(m);
    var sizeBytes := SizeEncode(numBytes);
    var number := LittleEndian(m, numBytes);
    ReversedAppend(number, sizeBytes);
    var all := number + sizeBytes;
    var vec := new byte[|all|](i requires 0 <= i < |all| => all[i]);
    assert vec[..] == all;
    if bigint < 0 {
      FlipInPlace(vec);
      FlipReversed(all);
    }
    ReverseInPlace(vec);
    r := vec[..];
  }

  // Decoding

  /** A size code as it stands in a stored number. */
  function SignedCode(n: nat, positive: bool): Bytes {
    if positive then SizeCode(n) else FlipAll(SizeCode(n))
  }

  function Unsigned(b: byte, positive: bool): byte {
    if positive then b else Flip(b)
  }

  lemma {:induction false} SizeValueGrows(s: Bytes, i: nat)
    requires 1 <= i <= |s|
    ensures SizeValue(s[..i]) <= SizeValue(s) && (i < |s| ==> 0x80 * SizeValue(s[..i]) <= SizeValue(s))
    decreases |s|
  {
    if i < |s| {
      var init := s[..|s| - 1];
      SizeValueGrows(init, i);
      assert init[..i] == s[..i];
    } else {
      assert s[..i] == s;
    }
  }

  /** Byte `i` of a code: it continues unless it is the last, and adds its bits to what was read. */
  lemma CodeByte(n: nat, s: Bytes, i: nat, size: nat)
    requires 1 <= n < U32 && s == SizeCode(n) && i < |s|
    requires size == if i == 0 then 0 else 0x80 * SizeValue(s[..i])
    ensures s[0] >= 0x80
    ensures var val := if i == 0 then s[0] % 0x40 else s[i] % 0x80;
      && (Continues(s[i], i == 0) <==> i + 1 < |s|)
      && (i + 1 == |s| ==> size + val == n)
      && (i + 1 < |s| ==> size + val == SizeValue(s[..i + 1]) && 0x80 * (size + val) < U32)
  {
    var k := |s| - 1;
    CodeSpells(n);
    if i < k {
      assert s[..k][i] == s[i];
      SizeValueGrows(s, i + 1);
    } else {
      assert s[..i + 1] == s;
    }
    assert s[..i + 1][..i] == s[..i];
  }

  /** Whether a byte ends the size, and the bits it adds: the first byte has a sign and six bits, the others seven. */
  function SizeByte(vi: byte, first: bool): (bool, nat) {
    if first then (vi / 0x40 % 2 == 0, vi % 0x40) else (vi < 0x80, vi % 0x80)
  }

  /** `i` bytes of a well-formed size are read. */
  ghost predicate Sizing(v: Bytes, n: nat, positive: bool, rest: Bytes, i: nat, size: nat, sign: bool) {
    && 1 <= n < U32 && v == SignedCode(n, positive) + rest && i < |SizeCode(n)|
    && (i > 0 ==> sign == positive)
    && size == (if i == 0 then 0 else 0x80 * SizeValue(SizeCode(n)[..i]))
  }

  lemma SizingByte(v: Bytes, n: nat, positive: bool, rest: Bytes, i: nat, size: nat, sign: bool)
    requires Sizing(v, n, positive, rest, i, size, sign)
    ensures i < |v| && v[i] == Unsigned(SizeCode(n)[i], positive)
    ensures i == 0 ==> (v[i] >= 0x80 <==> positive)
  {
    CodeByte(n, SizeCode(n), 0, 0);
    assert v[i] == SignedCode(n, positive)[i];
  }

  lemma SizingStep(v: Bytes, n: nat, positive: bool, rest: Bytes, i: nat, size: nat, vi: byte)
    requires Sizing(v, n, positive, rest, i, size, positive) && vi == SizeCode(n)[i]
    ensures var (done, val) := SizeByte(vi, i == 0);
      && (done ==> size + val == n && i + 1 == |SizeCode(n)|)
      && (!done ==> Sizing(v, n, positive, rest, i + 1, (size + val) * 0x80 % U32, positive))
  {
    CodeByte(n, SizeCode(n), i, size);
  }

  /** One byte of a size: whether it is the last, the sign, and the size with its bits. */
  method DecodeSizeByte(v: Bytes, i: nat, was: bool, size: nat, ghost n: nat, ghost positive: bool, ghost rest: Bytes)
      returns (done: bool, sign: bool, size': nat)
    requires i < |v| && size < U32 && size % 0x80 == 0
    ensures size' < U32 && (!done ==> size' % 0x80 == 0)
    ensures Sizing(v, n, positive, rest, i, size, was) ==> sign == positive
    ensures Sizing(v, n, positive, rest, i, size, was) && done ==> size' == n && i + 1 == |SizeCode(n)|
    ensures Sizing(v, n, positive, rest, i, size, was) && !done ==> Sizing(v, n, positive, rest, i + 1, size', sign)
    ensures i == 0 && size == 0 && v[0] == NEGATIVE_ZERO ==> done && !sign && size' == 0
  {
    ghost var good := Sizing(v, n, positive, rest, i, size, was);
    if good {
      SizingByte(v, n, positive, rest, i, size, was);
    }
    sign := if i == 0 then v[i] >= 0x80 else was;
    var vi := Unsigned(v[i], sign);
    if good {
      SizingStep(v, n, positive, rest, i, size, vi);
    }
    var (last, val) := SizeByte(vi, i == 0);
    done := last;
    size' := NextSize(size, val, last);
  }

  /** The bits of a byte put behind those read so far, and room made for the next. */
  function NextSize(size: nat, val: nat, last: bool): (r: nat)
    requires size < U32 && size % 0x80 == 0 && val < 0x80
    ensures r < U32 && (!last ==> r % 0x80 == 0)
  {
    if last then size + val else (size + val) * 0x80 % U32
  }

  /** `size_decode`: the sign, the size, and how many bytes they took. */
  method SizeDecode(v: Bytes, ghost n: nat, ghost positive: bool, ghost rest: Bytes)
      returns (sign: bool, size: nat, i: nat)
    ensures i <= |v| && size < U32
    ensures v == SignedCode(n, positive) + rest && 1 <= n < U32 ==> sign == positive && size == n && i == |SizeCode(n)|
    ensures v != [] && v[0] == NEGATIVE_ZERO ==> !sign && size == 0 && i == 1
  {
    ghost var good := v == SignedCode(n, positive) + rest && 1 <= n < U32;
    size, sign, i := 0, true, 0;
    while i < |v|
      invariant i <= |v| && size < U32 && size % 0x80 == 0
      invariant good ==> Sizing(v, n, positive, rest, i, size, sign)
      invariant v != [] && v[0] == NEGATIVE_ZERO ==> i == 0 && size == 0
    {
      var done;
      done, sign, size := DecodeSizeByte(v, i, sign, size, n, positive, rest);
      i := i + 1;
      if done {
        return;
      }
    }
    if good {
      SizingByte(v, n, positive, rest, i, size, sign);
    }
  }

  /** The magnitude's bytes, put together again. */
  method ReadMagnitude(bytes: Bytes, size: nat, positive: bool) returns (m: nat)
    requires size <= |bytes|
    ensures m == FromBe(if positive then bytes[..size] else FlipAll(bytes[..size]))
  {
    m := 0;
    ghost var norm := if positive then bytes else FlipAll(bytes);
    for k := 0 to size
      invariant m == FromBe(norm[..k])
    {
      assert norm[..k + 1][..k] == norm[..k];
      m := m * 256 + Unsigned(bytes[k], positive);
    }
    assert FlipAll(bytes[..size]) == FlipAll(bytes)[..size];
  }

  /** The magnitude of a stored number, as it stands. */
  function SignedNumber(v: int): Bytes {
    var m := Abs(v);
    if v >= 0 then BeBytes(m, NumBytes(m)) else FlipAll(BeBytes(m, NumBytes(m)))
  }

  lemma StorageParts(v: int, rest: Bytes)
    ensures Storage(v) + rest == SignedCode(NumBytes(Abs(v)), v >= 0) + (SignedNumber(v) + rest)
  {
    var m := Abs(v);
    FlipAppend(SizeCode(NumBytes(m)), BeBytes(m, NumBytes(m)));
    var code, number := SignedCode(NumBytes(m), v >= 0), SignedNumber(v);
    assert code + number + rest == code + (number + rest);
  }

  lemma NumberReads(v: int, body: Bytes, rest: Bytes, n: nat)
    requires body == SignedNumber(v) + rest && n == NumBytes(Abs(v))
    ensures n <= |body| && body[n..] == rest
    ensures FromBe(if v >= 0 then body[..n] else FlipAll(body[..n])) == Abs(v)
  {
    NumBytesBounds(Abs(v), n);
    FromBeOfBe(Abs(v), n);
    FlipTwice(BeBytes(Abs(v), n));
    assert body[..n] == SignedNumber(v);
  }

  /** The number behind a size. */
  method ReadNumber(body: Bytes, size: nat, isPos: bool, ghost v: int, ghost rest: Bytes)
      returns (r: Option<(int, bool, Bytes)>)
    ensures body == SignedNumber(v) + rest && size == NumBytes(Abs(v)) && isPos == (v >= 0) ==>
      r == Some((v, v >= 0, rest))
  {
    if body == SignedNumber(v) + rest && size == NumBytes(Abs(v)) {
      NumberReads(v, body, rest, size);
    }
    if size > |body| {
      return None;
    }
    var m := ReadMagnitude(body, size, isPos);
    var number: int := m;
    if !isPos {
      number := 0 - number;
    }
    r := Some((number, isPos, body[size..]));
  }

  lemma NumBytesFit(v: int)
    requires Storable(v)
    ensures NumBytes(Abs(v)) < U32
  {}

  /** `storage_to_bigint_and_sign`: the number, its sign, and what follows it; nothing if bytes are missing. */
  method StorageToBigint(bytes: Bytes, ghost v: int, ghost rest: Bytes) returns (r: Option<(int, bool, Bytes)>)
    ensures Storable(v) && bytes == Storage(v) + rest ==> r == Some((v, v >= 0, rest))
    ensures bytes == [NEGATIVE_ZERO] + rest ==> r == Some((0, false, rest))
  {
    ghost var more := SignedNumber(v) + rest;
    StorageParts(v, rest);
    if Storable(v) {
      NumBytesFit(v);
    }
    var isPos, size, i := SizeDecode(bytes, NumBytes(Abs(v)), v >= 0, more);
    var body := bytes[i..];
    if size == 0 {
      return Some((0, isPos, body));
    }
    if bytes == SignedCode(NumBytes(Abs(v)), v >= 0) + more && Storable(v) {
      assert body == more;
    }
    r := ReadNumber(body, size, isPos, v, rest);
  }
}
