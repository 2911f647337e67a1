/** Decimal digit strings and the numbers they denote before and after the point. */
module DecimalDigits {
  predicate IsDigit(c: char) {
    '0' <= c <= '9'
  }

  predicate AllDigits(s: string) {
    forall i :: 0 <= i < |s| ==> IsDigit(s[i])
  }

  type Digits = s: string | AllDigits(s)

  function DigitOf(c: char): (d: nat)
    requires IsDigit(c)
    ensures d < 10
  {
    c as int - '0' as int
  }

  function CharOf(d: nat): (c: char)
    requires d < 10
    ensures IsDigit(c) && DigitOf(c) == d
  {
    ('0' as int + d) as char
  }

  /** The number before the point. */
  function IntValue(s: Digits): nat {
    if s == [] then 0 else 10 * IntValue(s[..|s| - 1]) + DigitOf(s[|s| - 1])
  }

  /** The number behind the point. */
  function FracValue(s: Digits): (r: real)
    ensures 0.0 <= r < 1.0
  {
    if s == [] then 0.0 else (DigitOf(s[0]) as real + FracValue(s[1..])) / 10.0
  }

  function ZeroDigits(k: nat): (s: Digits)
    ensures |s| == k
  {
    if k == 0 then [] else ZeroDigits(k - 1) + ['0']
  }

  /** Decimal notation without leading zeros. */
  function Show(n: nat): (s: Digits)
    ensures |s| >= 1
  {
    if n < 10 then [CharOf(n)] else Show(n / 10) + [CharOf(n % 10)]
  }

  predicate Canonical(s: Digits) {
    |s| == 1 || (|s| > 1 && s[0] != '0')
  }

  lemma ValuePush(s: Digits, c: char)
    requires IsDigit(c)
    ensures AllDigits(s + [c]) && IntValue(s + [c]) == 10 * IntValue(s) + DigitOf(c)
  {
    assert (s + [c])[..|s|] == s;
  }

  lemma {:induction false} ShowValue(n: nat)
    ensures IntValue(Show(n)) == n && Canonical(Show(n)) && (n > 0 ==> Show(n)[0] != '0')
  {
    if n >= 10 {
      ShowValue(n / 10);
      ValuePush(Show(n / 10), CharOf(n % 10));
    } else {
      ValuePush([], CharOf(n));
      assert [] + [CharOf(n)] == [CharOf(n)];
    }
  }

  lemma {:induction false} ValuePositive(s: Digits)
    requires s != [] && s[0] != '0'
    ensures IntValue(s) > 0
  {
    if |s| > 1 {
      ValuePositive(s[..|s| - 1]);
    }
  }

  lemma DigitChar(c: char)
    requires IsDigit(c)
    ensures CharOf(DigitOf(c)) == c
  {}

  /** A canonical numeral is what its number is shown as. */
  lemma {:induction false} CanonicalShow(s: Digits)
    requires Canonical(s)
    ensures Show(IntValue(s)) == s
  {
    var init, last := s[..|s| - 1], s[|s| - 1];
    DigitChar(last);
    if |s| > 1 {
      assert init[0] == s[0];
      ValuePositive(init);
      CanonicalShow(init);
    }
  }

  lemma ShowIsCanonical(s: Digits)
    requires s != []
    ensures Show(IntValue(s)) == s <==> Canonical(s)
  {
    if Canonical(s) {
      CanonicalShow(s);
    } else {
      ShowValue(IntValue(s));
    }
  }

  // Moving the point

  /** The number with the point behind digit `p`. */
  function PointValue(s: Digits, p: nat): real
    requires p <= |s|
  {
    IntValue(s[..p]) as real + FracValue(s[p..])
  }

  function Pow10(e: int): real
    decreases if e < 0 then -e else e
  {
    if e == 0 then 1.0 else if e > 0 then 10.0 * Pow10(e - 1) else Pow10(e + 1) / 10.0
  }

  lemma PointRight(s: Digits, p: nat)
    requires p < |s|
    ensures PointValue(s, p + 1) == 10.0 * PointValue(s, p)
  {
    assert s[..p + 1] == s[..p] + [s[p]];
    ValuePush(s[..p], s[p]);
    assert s[p..][1..] == s[p + 1..];
  }

  /** `v` times ten to the `e`. */
  function Scaled(v: real, e: int): real
    decreases if e < 0 then -e else e
  {
    if e == 0 then v else if e > 0 then 10.0 * Scaled(v, e - 1) else Scaled(v, e + 1) / 10.0
  }

  lemma {:induction false} ScaledIsProduct(v: real, e: int)
    ensures Scaled(v, e) == v * Pow10(e)
    decreases if e < 0 then -e else e
  {
    if e > 0 {
      ScaledIsProduct(v, e - 1);
      TenTimes(v, Pow10(e - 1), Scaled(v, e - 1));
    } else if e < 0 {
      ScaledIsProduct(v, e + 1);
      TenthOf(v, Pow10(e + 1), Scaled(v, e));
    }
  }

  /** Moving the point by `e` places is multiplying by a power of ten. */
  lemma {:induction false} MovePoint(s: Digits, p: nat, e: int)
    requires 0 <= p <= |s| && 0 <= p + e <= |s|
    ensures PointValue(s, p + e) == Scaled(PointValue(s, p), e)
    decreases if e < 0 then -e else e
  {
    if e > 0 {
      MovePoint(s, p, e - 1);
      PointRight(s, p + e - 1);
    } else if e < 0 {
      MovePoint(s, p, e + 1);
      PointRight(s, p + e);
    }
  }

  lemma TenTimes(v: real, q: real, w: real)
    requires w == v * q
    ensures 10.0 * w == v * (10.0 * q)
  {}

  lemma TenthOf(v: real, q: real, w: real)
    requires 10.0 * w == v * q
    ensures w == v * (q / 10.0)
  {
    assert v * (q / 10.0) == v * q / 10.0;
  }

  lemma {:induction false} FracZeros(s: Digits, k: nat)
    ensures AllDigits(s + ZeroDigits(k)) && FracValue(s + ZeroDigits(k)) == FracValue(s)
    decreases |s|
  {
    if s == [] {
      assert s + ZeroDigits(k) == ZeroDigits(k);
      OnlyZeros(k);
    } else {
      FracZeros(s[1..], k);
      assert (s + ZeroDigits(k))[1..] == s[1..] + ZeroDigits(k);
    }
  }

  lemma {:induction false} ZerosFront(k: nat)
    requires k > 0
    ensures ZeroDigits(k)[0] == '0' && ZeroDigits(k)[1..] == ZeroDigits(k - 1)
  {
    if k > 1 {
      ZerosFront(k - 1);
      assert ZeroDigits(k)[1..] == ZeroDigits(k - 1)[1..] + ['0'];
    }
  }

  lemma {:induction false} OnlyZeros(k: nat)
    ensures FracValue(ZeroDigits(k)) == 0.0 && IntValue(ZeroDigits(k)) == 0
  {
    if k > 0 {
      OnlyZeros(k - 1);
      ZerosFront(k);
      ValuePush(ZeroDigits(k - 1), '0');
    }
  }

  lemma {:induction false} LeadingZeros(k: nat, s: Digits)
    ensures AllDigits(ZeroDigits(k) + s) && IntValue(ZeroDigits(k) + s) == IntValue(s)
  {
    if s == [] {
      assert ZeroDigits(k) + s == ZeroDigits(k);
      OnlyZeros(k);
    } else {
      LeadingZeros(k, s[..|s| - 1]);
      assert (ZeroDigits(k) + s)[..k + |s| - 1] == ZeroDigits(k) + s[..|s| - 1];
    }
  }
}
