/** Decimals as byte strings in numeric order: a stored integer, then the fraction two digits to a byte. */
module Decimals {
  import opened Words
  import opened Results
  import opened ByteStrings
  import opened BigIntegers
  import opened DecimalDigits

  // Two digits, or a last single one, in a number below 128

  function CentaryEncode(s: Digits): (i: byte)
    requires 1 <= |s| <= 2
    ensures 1 <= i <= 110
  {
    TwoDigits(s);
    if |s| == 1 then IntValue(s) * 11 + 1
    else
      var o := IntValue(s) / 10 + 1;
      IntValue(s) + o + 1
  }

  /** One or two digits behind the point, counted in hundredths. */
  function Hundredths(s: Digits): (n: nat)
    requires 1 <= |s| <= 2
    ensures n < 100
  {
    10 * DigitOf(s[0]) + if |s| == 1 then 0 else DigitOf(s[1])
  }

  lemma TwoDigits(s: Digits)
    requires 1 <= |s| <= 2
    ensures IntValue(s) == if |s| == 1 then DigitOf(s[0]) else Hundredths(s)
    ensures FracValue(s) == Hundredths(s) as real / 100.0
  {
    assert s[..|s| - 1] == if |s| == 1 then [] else [s[0]];
    if |s| == 2 {
      assert [s[0]][..0] == [];
      assert s[1..] == [s[1]];
    }
  }

  /** At least two digits. */
  function ShowTwo(n: nat): Digits {
    if n < 10 then ['0'] + Show(n) else Show(n)
  }

  function CentaryDecode(i: byte): Digits
    requires i >= 1
  {
    var j := i - 1;
    if j % 11 == 0 then Show(j / 11) else ShowTwo(j - j / 11 - 1)
  }

  lemma CentaryRoundTrip(s: Digits)
    requires 1 <= |s| <= 2
    ensures CentaryDecode(CentaryEncode(s)) == s
  {
    TwoDigits(s);
    DigitChar(s[0]);
    if |s| == 2 {
      DigitChar(s[1]);
      PairBack(s, DigitOf(s[0]), DigitOf(s[1]), CentaryEncode(s));
    }
  }

  /** Every number from 1 to 110 is a code, so that being in order fixes them all. */
  lemma CentaryOnto(i: byte)
    requires 1 <= i <= 110
    ensures 1 <= |CentaryDecode(i)| <= 2 && CentaryEncode(CentaryDecode(i)) == i
  {
    var j := i - 1;
    if j % 11 == 0 {
      DigitCode(j / 11);
    } else {
      ShowPair(j / 11, j % 11 - 1);
      PairCode(j / 11, j % 11 - 1);
    }
  }

  lemma DigitCode(d: nat)
    requires d < 10
    ensures CentaryEncode([CharOf(d)]) == 11 * d + 1
  {
    TwoDigits([CharOf(d)]);
  }

  lemma PairCode(d: nat, e: nat)
    requires d < 10 && e < 10
    ensures CentaryEncode([CharOf(d), CharOf(e)]) == 11 * d + e + 2
  {
    TwoDigits([CharOf(d), CharOf(e)]);
  }

  lemma PairBack(s: Digits, d: nat, e: nat, code: byte)
    requires |s| == 2 && d < 10 && e < 10 && s == [CharOf(d), CharOf(e)] && code == 11 * d + e + 2
    ensures CentaryDecode(code) == s
  {
    ShowPair(d, e);
  }

  lemma ShowPair(d: nat, e: nat)
    requires d < 10 && e < 10
    ensures ShowTwo(10 * d + e) == [CharOf(d), CharOf(e)]
  {
    var n := 10 * d + e;
    assert n / 10 == d && n % 10 == e;
    if n >= 10 {
      assert Show(n) == Show(d) + [CharOf(e)];
    }
  }

  /** Smaller digits, or none, make a smaller number. */
  lemma CentaryOrder(s: Digits, t: Digits)
    requires 1 <= |s| <= 2 && 1 <= |t| <= 2
    ensures Hundredths(s) < Hundredths(t) ==> CentaryEncode(s) < CentaryEncode(t)
    ensures Hundredths(s) == Hundredths(t) && |s| < |t| ==> CentaryEncode(s) < CentaryEncode(t)
    ensures Hundredths(s) == Hundredths(t) && |s| == |t| ==> CentaryEncode(s) == CentaryEncode(t)
  {
    CentaryByDigits(s);
    CentaryByDigits(t);
  }

  lemma CentaryByDigits(s: Digits)
    requires 1 <= |s| <= 2
    ensures CentaryEncode(s) == 11 * DigitOf(s[0]) + 1 + if |s| == 1 then 0 else DigitOf(s[1]) + 1
  {
    TwoDigits(s);
  }

  // Fractions

  /** The bytes of a fraction that has digits: the low bit says that more follow. */
  function Pieces(f: Digits): (s: Bytes)
    requires f != []
    ensures |s| >= 1 && s[0] >= 2
  {
    if |f| <= 2 then [2 * CentaryEncode(f)] else [2 * CentaryEncode(f[..2]) + 1] + Pieces(f[2..])
  }

  function FractionCode(f: Digits): (s: Bytes)
    ensures |s| >= 1
  {
    if f == [] then [0] else Pieces(f)
  }

  /** Two digits to a byte, and one byte for none. */
  lemma {:induction false} FractionSize(f: Digits)
    ensures f == [] ==> FractionCode(f) == [0]
    ensures f != [] ==> |FractionCode(f)| == (|f| + 1) / 2
  {
    if |f| > 2 {
      FractionSize(f[2..]);
    }
  }

  /** Each byte: twice the code of two digits or a last one, and one more if there are others to come. */
  lemma {:induction false} FractionByte(f: Digits, i: nat, end: nat)
    requires 2 * i < |f| && end == if 2 * i + 2 > |f| then |f| else 2 * i + 2
    ensures i < |FractionCode(f)|
    ensures FractionCode(f)[i] == 2 * CentaryEncode(f[2 * i..end]) + if end == |f| then 0 else 1
    decreases |f|
  {
    if i > 0 {
      FractionByte(f[2..], i - 1, end - 2);
      assert f[2..][2 * (i - 1)..end - 2] == f[2 * i..end];
    } else {
      assert f[0..end] == if |f| <= 2 then f else f[..2];
    }
  }

  /** A fraction is its first two digits and a hundredth of the rest. */
  lemma FracSplit(f: Digits)
    requires |f| > 2
    ensures FracValue(f) == FracValue(f[..2]) + FracValue(f[2..]) / 100.0
  {
    TwoDigits(f[..2]);
    assert f[1..][1..] == f[2..];
  }

  lemma SamePiece(a: byte, x: Bytes, y: Bytes)
    ensures Compare([a] + x, [a] + y) == Compare(x, y)
    ensures PrefixFree(x, y) ==> PrefixFree([a] + x, [a] + y)
  {
    CompareSharedPrefix([a], x, y);
  }

  lemma {:induction false} PiecesOrder(f: Digits, g: Digits)
    requires f != [] && g != [] && FracValue(f) < FracValue(g)
    ensures Compare(Pieces(f), Pieces(g)) == Less && PrefixFree(Pieces(f), Pieces(g))
    decreases |f|
  {
    var a, b := if |f| <= 2 then f else f[..2], if |g| <= 2 then g else g[..2];
    if |f| > 2 {
      FracSplit(f);
    }
    if |g| > 2 {
      FracSplit(g);
    }
    TwoDigits(a);
    TwoDigits(b);
    WholeHundredths(Hundredths(a), Hundredths(b), FracValue(f), FracValue(g));
    CentaryOrder(a, b);
    if |f| > 2 && |g| > 2 && Hundredths(a) == Hundredths(b) {
      PiecesOrder(f[2..], g[2..]);
      SamePiece(Pieces(f)[0], Pieces(f[2..]), Pieces(g[2..]));
    } else {
      FirstByteDecides(Pieces(f), Pieces(g));
    }
  }

  /** What follows two digits is less than a hundredth, so it cannot turn their order around. */
  lemma WholeHundredths(m: int, n: int, u: real, v: real)
    requires m as real / 100.0 <= u < v < (n + 1) as real / 100.0
    ensures m <= n
  {}

  /** Stored fractions sort as their values do. */
  lemma FractionOrder(f: Digits, g: Digits)
    requires FracValue(f) < FracValue(g)
    ensures Compare(FractionCode(f), FractionCode(g)) == Less && PrefixFree(FractionCode(f), FractionCode(g))
  {
    if f == [] {
      FirstByteDecides(FractionCode(f), FractionCode(g));
    } else {
      PiecesOrder(f, g);
    }
  }

  /** The digits below `at` are written. */
  ghost predicate Encoded(f: Digits, at: nat, bcd: Bytes)
    requires f != []
  {
    at <= |f| && (if at == |f| then bcd == Pieces(f) else bcd + Pieces(f[at..]) == Pieces(f))
  }

  lemma EncodePiece(f: Digits, at: nat, end: nat, bcd: Bytes, b: byte)
    requires f != [] && Encoded(f, at, bcd) && at < end <= |f| && end == (if at + 2 > |f| then at + 1 else at + 2)
    requires b == 2 * CentaryEncode(f[at..end]) + if end == |f| then 0 else 1
    ensures Encoded(f, end, bcd + [b])
  {
    var g := f[at..];
    if end == |f| {
      assert f[at..end] == g;
    } else {
      assert g[..2] == f[at..end] && g[2..] == f[end..];
      Associate(bcd, [b], Pieces(f[end..]));
    }
  }

  /** `encode_fraction`: two digits at a time. */
  method EncodeFraction(fraction: Option<Digits>) returns (bcd: Bytes)
    ensures bcd == FractionCode(if fraction.Some? then fraction.value else [])
  {
    if fraction.None? || fraction.value == [] {
      return [0];
    }
    var f := fraction.value;
    var len := |f|;
    var size := len / 2 + if len % 2 != 0 then 1 else 0;
    bcd := [];
    assert f[0..] == f;
    for i := 0 to size
      invariant Encoded(f, if i == size then len else 2 * i, bcd)
    {
      var last := if i * 2 + 2 > len then i * 2 + 1 else i * 2 + 2;
      var b := 2 * CentaryEncode(f[2 * i..last]) + if i != size - 1 then 1 else 0;
      EncodePiece(f, 2 * i, last, bcd, b);
      bcd := bcd + [b];
    }
  }

  /** `left` is still to be read from position `at` on, after `done`. */
  ghost predicate Pending(bytes: Bytes, isPos: bool, f: Digits, rest: Bytes, at: nat, done: Digits, left: Digits) {
    left != [] && done + left == f && at <= |bytes| && bytes[at..] == Signed(Pieces(left), isPos) + rest
  }

  /** A stored part as it stands: complemented for negative numbers. */
  function Signed(s: Bytes, isPos: bool): Bytes {
    if isPos then s else FlipAll(s)
  }

  lemma PieceByte(bytes: Bytes, isPos: bool, rest: Bytes, at: nat, code: Bytes)
    requires at <= |bytes| && bytes[at..] == Signed(code, isPos) + rest && code != []
    ensures at < |bytes| && Unsigned(bytes[at], isPos) == code[0]
    ensures bytes[at + 1..] == Signed(code[1..], isPos) + rest
  {
    assert bytes[at..][0] == Signed(code, isPos)[0];
    assert bytes[at + 1..] == bytes[at..][1..];
    assert Signed(code, isPos)[1..] == Signed(code[1..], isPos);
  }

  lemma TakeTwo(f: Digits, done: Digits, left: Digits)
    requires |left| > 2 && done + left == f
    ensures done + left[..2] + left[2..] == f
  {
    assert left[..2] + left[2..] == left;
  }

  /** The last byte of a fraction. */
  lemma DecodeLast(bytes: Bytes, isPos: bool, f: Digits, rest: Bytes, at: nat, done: Digits, left: Digits)
    requires Pending(bytes, isPos, f, rest, at, done, left) && |left| <= 2
    ensures at < |bytes|
    ensures var b := Unsigned(bytes[at], isPos);
      b / 2 >= 1 && (|CentaryDecode(b / 2)| == 1 || b % 2 == 0) && done + CentaryDecode(b / 2) == f
    ensures bytes[at + 1..] == rest
  {
    PieceByte(bytes, isPos, rest, at, Pieces(left));
    CentaryRoundTrip(left);
    assert Signed(Pieces(left)[1..], isPos) + rest == rest;
  }

  /** Any other byte: two digits, and more to come. */
  lemma DecodeMore(bytes: Bytes, isPos: bool, f: Digits, rest: Bytes, at: nat, done: Digits, left: Digits)
    requires Pending(bytes, isPos, f, rest, at, done, left) && |left| > 2
    ensures at < |bytes|
    ensures var b := Unsigned(bytes[at], isPos);
      b / 2 >= 1 && b % 2 == 1 && CentaryDecode(b / 2) == left[..2]
    ensures Pending(bytes, isPos, f, rest, at + 1, done + left[..2], left[2..])
  {
    PieceByte(bytes, isPos, rest, at, Pieces(left));
    CentaryRoundTrip(left[..2]);
    TakeTwo(f, done, left);
    assert Pieces(left)[1..] == Pieces(left[2..]);
  }

  /** One turn of the loop: the digits of a byte and whether they are the last; nothing for a byte that is no code. */
  method DecodeByte(bytes: Bytes, isPos: bool, at: nat, ghost f: Digits, ghost rest: Bytes, ghost done: Digits,
                    ghost left: Digits)
      returns (r: Option<Digits>, last: bool)
    requires at < |bytes|
    ensures Pending(bytes, isPos, f, rest, at, done, left) ==> r.Some? && (last <==> |left| <= 2)
    ensures Pending(bytes, isPos, f, rest, at, done, left) && |left| <= 2 ==>
      done + r.value == f && bytes[at + 1..] == rest
    ensures Pending(bytes, isPos, f, rest, at, done, left) && |left| > 2 ==>
      Pending(bytes, isPos, f, rest, at + 1, done + r.value, left[2..])
  {
    if Pending(bytes, isPos, f, rest, at, done, left) {
      if |left| <= 2 {
        DecodeLast(bytes, isPos, f, rest, at, done, left);
      } else {
        DecodeMore(bytes, isPos, f, rest, at, done, left);
      }
    }
    var b := Unsigned(bytes[at], isPos);
    if b / 2 == 0 {
      return None, true;
    }
    var res := CentaryDecode(b / 2);
    r, last := Some(res), |res| == 1 || b % 2 == 0;
  }

  /** The loop: byte after byte until the last; the digits, and the bytes not read. */
  method DecodeDigits(bytes: Bytes, isPos: bool, ghost f: Digits, ghost rest: Bytes)
      returns (r: Option<(Digits, Bytes)>)
    ensures Pending(bytes, isPos, f, rest, 0, [], f) ==> r == Some((f, rest))
  {
    ghost var good := Pending(bytes, isPos, f, rest, 0, [], f);
    var s: Digits := [];
    var at := 0;
    ghost var left := f;
    while at < |bytes|
      invariant at <= |bytes| && (good ==> Pending(bytes, isPos, f, rest, at, s, left))
    {
      var res, last := DecodeByte(bytes, isPos, at, f, rest, s, left);
      if res.None? {
        return None;
      }
      s := s + res.value;
      if last {
        return Some((s, bytes[at + 1..]));
      }
      at := at + 1;
      left := if |left| > 2 then left[2..] else left;
    }
    r := Some((s, []));
  }

  /**
   * `decode_fraction`: the digits of a stored fraction and the bytes not read; nothing if the bytes are not one. The
   * byte that stands for no fraction is only looked at, not read.
   */
  method DecodeFraction(bytes: Bytes, isPos: bool, ghost f: Digits, ghost rest: Bytes)
      returns (r: Option<(Digits, Bytes)>)
    ensures bytes == Signed(FractionCode(f), isPos) + rest ==> r == Some((f, if f == [] then bytes else rest))
  {
    if bytes == Signed(FractionCode(f), isPos) + rest {
      FirstOfFraction(bytes, isPos, f, rest);
    }
    if bytes == [] {
      return None;
    }
    if Unsigned(bytes[0], isPos) == 0 {
      return Some(([], bytes));
    }
    r := DecodeDigits(bytes, isPos, f, rest);
  }

  lemma FirstOfFraction(bytes: Bytes, isPos: bool, f: Digits, rest: Bytes)
    requires bytes == Signed(FractionCode(f), isPos) + rest
    ensures bytes != [] && (Unsigned(bytes[0], isPos) == 0 <==> f == [])
    ensures f != [] ==> Pending(bytes, isPos, f, rest, 0, [], f)
  {
    assert bytes[0] == Signed(FractionCode(f), isPos)[0];
    assert bytes[0..] == bytes;
    if f != [] {
      assert [] + f == f;
    }
  }

  // Numbers: a sign, the integer part with it, and a fraction

  datatype Number = Number(isNeg: bool, integer: int, fraction: Digits) {
    /** The integer part carries the sign, unless it is zero. */
    ghost predicate Consistent() {
      if isNeg then integer <= 0 else integer >= 0
    }

    function Value(): real {
      if isNeg then integer as real - FracValue(fraction) else integer as real + FracValue(fraction)
    }

    ghost predicate Ordered() {
      Consistent() && NumBytes(Abs(integer)) <= MAX_ORDERED_BYTES
    }
  }

  function IntegerBytes(isNeg: bool, integer: int): Bytes {
    if integer == 0 && isNeg then [NEGATIVE_ZERO] else Storage(integer)
  }

  function Stored(n: Number): Bytes {
    IntegerBytes(n.isNeg, n.integer) + Signed(FractionCode(n.fraction), !n.isNeg)
  }

  /** `integer_and_fraction_to_storage` */
  method IntegerAndFractionToStorage(isNeg: bool, integer: int, fraction: Option<Digits>) returns (r: Bytes)
    requires Storable(integer)
    ensures r == Stored(Number(isNeg, integer, if fraction.Some? then fraction.value else []))
  {
    var prefix := BigintToStorage(integer);
    if integer == 0 && isNeg {
      prefix := [NEGATIVE_ZERO];
    }
    var suffix := EncodeFraction(fraction);
    if isNeg {
      var elts := new byte[|suffix|](i requires 0 <= i < |suffix| => suffix[i]);
      assert elts[..] == suffix;
      FlipInPlace(elts);
      suffix := elts[..];
    }
    r := prefix + suffix;
  }

  /** The sign is in the first byte, negative zero above every other negative integer. */
  lemma IntegerBytesOrder(x: Number, y: Number)
    requires x.Ordered() && y.Ordered()
    requires (x.isNeg && !y.isNeg) || (x.isNeg == y.isNeg && x.integer < y.integer)
    ensures var a, b := IntegerBytes(x.isNeg, x.integer), IntegerBytes(y.isNeg, y.integer);
      Compare(a, b) == Less && PrefixFree(a, b)
  {
    SignByte(x.integer);
    SignByte(y.integer);
    if x.isNeg && (x.integer == 0 || y.integer == 0 || !y.isNeg) {
      FirstByteDecides(IntegerBytes(x.isNeg, x.integer), IntegerBytes(y.isNeg, y.integer));
    } else {
      StorageOrder(x.integer, y.integer);
    }
  }

  lemma FractionPartOrder(prefix: Bytes, f: Digits, g: Digits, isNeg: bool)
    requires if isNeg then FracValue(g) < FracValue(f) else FracValue(f) < FracValue(g)
    ensures var a, b := prefix + Signed(FractionCode(f), !isNeg), prefix + Signed(FractionCode(g), !isNeg);
      Compare(a, b) == Less && PrefixFree(a, b)
  {
    if isNeg {
      FractionOrder(g, f);
      PrefixFreeFlips(FractionCode(f), FractionCode(g));
      FlipReverses(FractionCode(f), FractionCode(g));
    } else {
      FractionOrder(f, g);
    }
    CompareSharedPrefix(prefix, Signed(FractionCode(f), !isNeg), Signed(FractionCode(g), !isNeg));
  }

  /** A smaller number has smaller bytes: across signs, negative zero, and fractions of any length. */
  lemma NumberOrder(x: Number, y: Number)
    requires x.Ordered() && y.Ordered() && x.Value() < y.Value()
    ensures Compare(Stored(x), Stored(y)) == Less && PrefixFree(Stored(x), Stored(y))
  {
    IntegersFirst(x, y);
    if x.isNeg == y.isNeg && x.integer == y.integer {
      FractionPartOrder(IntegerBytes(x.isNeg, x.integer), x.fraction, y.fraction, x.isNeg);
    } else {
      IntegerBytesOrder(x, y);
      CompareExtends(IntegerBytes(x.isNeg, x.integer), IntegerBytes(y.isNeg, y.integer),
                     Signed(FractionCode(x.fraction), !x.isNeg), Signed(FractionCode(y.fraction), !y.isNeg));
    }
  }

  lemma IntegersFirst(x: Number, y: Number)
    requires x.Consistent() && y.Consistent() && x.Value() < y.Value()
    ensures x.isNeg || !y.isNeg
    ensures x.isNeg == y.isNeg ==> x.integer <= y.integer
    ensures x.isNeg == y.isNeg && x.integer == y.integer ==>
      if x.isNeg then FracValue(y.fraction) < FracValue(x.fraction) else FracValue(x.fraction) < FracValue(y.fraction)
  {}

  /** The other way round: smaller bytes never mean a greater number, so only equal values are left to tie-breaks. */
  lemma BytesOrder(x: Number, y: Number)
    requires x.Ordered() && y.Ordered() && Compare(Stored(x), Stored(y)) == Less
    ensures x.Value() <= y.Value()
  {
    if y.Value() < x.Value() {
      NumberOrder(y, x);
      CompareFlips(Stored(x), Stored(y));
    }
  }

  // Equal numbers

  /** A digit and a rest below one: equal sums have equal digits. */
  lemma LeadingDigit(d: nat, e: nat, u: real, v: real)
    requires 0.0 <= u < 1.0 && 0.0 <= v < 1.0 && (d as real + u) / 10.0 == (e as real + v) / 10.0
    ensures d == e && u == v
  {
    assert d as real + u == e as real + v;
  }

  lemma {:induction false} WorthNothing(f: Digits)
    requires FracValue(f) == 0.0
    ensures f == ZeroDigits(|f|)
  {
    if f != [] {
      LeadingDigit(DigitOf(f[0]), 0, FracValue(f[1..]), 0.0);
      DigitChar(f[0]);
      WorthNothing(f[1..]);
      ZerosFront(|f|);
    }
  }

  /** Fractions of one value are the same up to zeros at the end. */
  lemma {:induction false} EqualFractions(f: Digits, g: Digits)
    requires FracValue(f) == FracValue(g) && |f| <= |g|
    ensures g == f + ZeroDigits(|g| - |f|)
  {
    if f == [] {
      WorthNothing(g);
    } else {
      LeadingDigit(DigitOf(f[0]), DigitOf(g[0]), FracValue(f[1..]), FracValue(g[1..]));
      DigitChar(f[0]);
      DigitChar(g[0]);
      EqualFractions(f[1..], g[1..]);
      assert f == [f[0]] + f[1..] && g == [g[0]] + g[1..];
    }
  }

  lemma {:induction false} OnlyTrailingZeros(f: Digits, k: nat)
    ensures AllDigits(f + ZeroDigits(k)) && FracValue(f + ZeroDigits(k)) == FracValue(f)
  {
    if f == [] {
      assert f + ZeroDigits(k) == ZeroDigits(k);
      OnlyZeros(k);
    } else {
      OnlyTrailingZeros(f[1..], k);
      assert (f + ZeroDigits(k))[1..] == f[1..] + ZeroDigits(k);
    }
  }

  /** The same fraction, but for zeros at the end. */
  ghost predicate SameFraction(f: Digits, g: Digits) {
    if |f| <= |g| then g == f + ZeroDigits(|g| - |f|) else f == g + ZeroDigits(|f| - |g|)
  }

  lemma SameFractionIsEqual(f: Digits, g: Digits)
    ensures FracValue(f) == FracValue(g) <==> SameFraction(f, g)
  {
    if |f| <= |g| {
      OnlyTrailingZeros(f, |g| - |f|);
    } else {
      OnlyTrailingZeros(g, |f| - |g|);
    }
    if FracValue(f) == FracValue(g) {
      if |f| <= |g| {
        EqualFractions(f, g);
      } else {
        EqualFractions(g, f);
      }
    }
  }

  /** Integers and what is added to them below one: equal sums are equal in both. */
  lemma SamePart(i: int, j: int, u: real, v: real)
    requires 0.0 <= u < 1.0 && 0.0 <= v < 1.0
    ensures i as real + u == j as real + v <==> i == j && u == v
    ensures i as real - u == j as real - v <==> i == j && u == v
  {
    if i as real + u == j as real + v {
      assert -1 < i - j < 1;
    }
    if i as real - u == j as real - v {
      assert -1 < i - j < 1;
    }
  }

  lemma EqualSigned(x: Number, y: Number, u: real, v: real)
    requires x.Consistent() && y.Consistent() && u == FracValue(x.fraction) && v == FracValue(y.fraction)
    ensures x.Value() == y.Value() <==>
      x.integer == y.integer && u == v && (x.isNeg == y.isNeg || (x.integer == 0 && u == 0.0))
  {
    SamePart(x.integer, y.integer, u, v);
  }

  /** Numbers are equal exactly when they differ only in zeros at the end and in the sign of zero. */
  lemma EqualNumbers(x: Number, y: Number)
    requires x.Consistent() && y.Consistent()
    ensures x.Value() == y.Value() <==>
      && x.integer == y.integer && SameFraction(x.fraction, y.fraction)
      && (x.isNeg == y.isNeg || (x.integer == 0 && FracValue(x.fraction) == 0.0))
  {
    SameFractionIsEqual(x.fraction, y.fraction);
    EqualSigned(x, y, FracValue(x.fraction), FracValue(y.fraction));
  }
}
