/** Decimal numerals, plain and scientific, and the way they come back from storage. */
module DecimalTexts {
  import opened Results
  import opened ByteStrings
  import opened BigIntegers
  import opened DecimalDigits
  import opened Decimals

  /** A numeral already taken apart: sign, digits before and behind the point, and the exponent of ten, if written. */
  datatype Decimal = Decimal(negative: bool, integer: Digits, fraction: Option<Digits>, exponent: Option<int>) {
    ghost predicate WellFormed() {
      integer != [] && (exponent.Some? ==> InRange(integer, FractionDigits(), exponent.value))
    }

    function FractionDigits(): Digits {
      if fraction.Some? then fraction.value else []
    }

    function Mantissa(): real {
      IntValue(integer) as real + FracValue(FractionDigits())
    }

    /** The number written: the mantissa times ten to the exponent. */
    function Meaning(): real {
      var scaled := if exponent.Some? then TimesPower(Mantissa(), exponent.value) else Mantissa();
      if negative then 0.0 - scaled else scaled
    }
  }

  function TimesPower(mantissa: real, exp: int): real {
    mantissa * Pow10(exp)
  }

  lemma ScaledByPower(mantissa: real, exp: int)
    ensures Scaled(mantissa, exp) == TimesPower(mantissa, exp)
  {
    ScaledIsProduct(mantissa, exp);
  }

  const I32: nat := 0x8000_0000

  /** The lengths and the exponent are added up in 32-bit integers. */
  ghost predicate InRange(integer: Digits, fraction: Digits, exp: int) {
    -(I32 as int) < exp < I32 && |integer| + |fraction| + (if exp < 0 then -exp else exp) < I32 - 2
  }

  // Scientific notation: shifting the point

  function PointAndZeros(k: nat): string {
    "0." + ZeroDigits(k)
  }

  /** What `parse` makes of a string: no number unless it is all digits. */
  function ParseOrZero(s: string): nat {
    if s != [] && AllDigits(s) then IntValue(s) else 0
  }

  /** Both paddings, the joined digits, and the place of the point. */
  function Combined(integer: Digits, fraction: Digits, exp: int): (r: (string, int))
  {
    var leftPad := if -exp > |integer| then PointAndZeros(-exp - |integer|) else "";
    var rightPad := if exp > |fraction| then ZeroDigits(exp - |fraction|) else "";
    (leftPad + integer + fraction + rightPad, |leftPad| + |integer| + exp)
  }

  /** The three cases: zeros in front and a fraction only, the point among the digits, zeros behind and no fraction. */
  lemma Cases(integer: Digits, fraction: Digits, exp: int)
    ensures var (combined, shift) := Combined(integer, fraction, exp);
      && 0 <= shift <= |combined| && AllDigits(combined[shift..])
      && (-exp > |integer| ==>
            combined[..shift] == "0." && combined[shift..] == ZeroDigits(-exp - |integer|) + (integer + fraction))
      && (-exp <= |integer| ==>
            combined == integer + fraction + ZeroDigits(if exp > |fraction| then exp - |fraction| else 0)
                                && shift == |integer| + exp)
  {
    var (combined, shift) := Combined(integer, fraction, exp);
    if -exp > |integer| {
      var zeros := ZeroDigits(-exp - |integer|);
      assert combined == "0." + (zeros + (integer + fraction));
      assert combined[shift..] == zeros + (integer + fraction);
    } else {
      assert [] + integer == integer;
    }
  }

  /** The integer and fraction that are stored for a numeral. */
  function ToNumber(d: Decimal): (n: Number)
    requires d.integer != []
  {
    if d.exponent.None? then
      Number(d.negative, if d.negative then 0 - IntValue(d.integer) else IntValue(d.integer), d.FractionDigits())
    else
      Cases(d.integer, d.FractionDigits(), d.exponent.value);
      var (combined, shift) := Combined(d.integer, d.FractionDigits(), d.exponent.value);
      var m := ParseOrZero(combined[..shift]);
      Number(d.negative, if d.negative then 0 - m else m, combined[shift..])
  }

  lemma PointBetween(s: Digits, a: Digits, b: Digits, p: nat)
    requires s == a + b && p == |a|
    ensures PointValue(s, p) == IntValue(a) as real + FracValue(b)
  {
    assert s[..p] == a && s[p..] == b;
  }

  lemma Regroup(a: string, b: string, c: string, d: string)
    ensures a + (b + c) + d == (a + b) + (c + d)
  {}

  /** Digits with zeros in front or behind still denote the same number around the point. */
  lemma PaddedPoint(s: Digits, integer: Digits, fraction: Digits, front: nat, back: nat)
    requires s == ZeroDigits(front) + (integer + fraction) + ZeroDigits(back)
    ensures PointValue(s, front + |integer|) == IntValue(integer) as real + FracValue(fraction)
  {
    LeadingZeros(front, integer);
    FracZeros(fraction, back);
    Regroup(ZeroDigits(front), integer, fraction, ZeroDigits(back));
    PointBetween(s, ZeroDigits(front) + integer, fraction + ZeroDigits(back), front + |integer|);
  }

  lemma DigitsJoin(a: Digits, b: Digits)
    ensures AllDigits(a + b)
  {}

  /** The padded digits with the point moved by the exponent. */
  lemma MovedPoint(s: Digits, integer: Digits, fraction: Digits, exp: int, front: nat, back: nat)
    requires front == if -exp > |integer| then -exp - |integer| else 0
    requires back == if exp > |fraction| then exp - |fraction| else 0
    requires s == ZeroDigits(front) + (integer + fraction) + ZeroDigits(back)
    ensures 0 <= front + |integer| + exp <= |s|
    ensures PointValue(s, front + |integer| + exp) == Scaled(IntValue(integer) as real + FracValue(fraction), exp)
  {
    PaddedPoint(s, integer, fraction, front, back);
    MovePoint(s, front + |integer|, exp);
  }

  /** The number that stands on both sides of a place. */
  ghost predicate Denotes(combined: string, shift: int, v: real) {
    && 0 <= shift <= |combined| && AllDigits(combined[shift..])
    && ParseOrZero(combined[..shift]) as real + FracValue(combined[shift..]) == v
  }

  lemma PointOnly(combined: string, s: Digits, v: real)
    requires |combined| >= 2 && combined[..2] == "0." && combined[2..] == s && PointValue(s, 0) == v
    ensures Denotes(combined, 2, v)
  {
    assert s[..0] == [] && s[0..] == s;
    assert combined[..2][1] == '.';
    assert !AllDigits(combined[..2]);
  }

  lemma PointInside(s: Digits, shift: nat, v: real)
    requires shift <= |s| && PointValue(s, shift) == v
    ensures Denotes(s, shift, v)
  {}

  /** The point lands in front of all digits. */
  lemma PointInFront(integer: Digits, fraction: Digits, exp: int, combined: string, shift: int)
    requires -exp > |integer| && (combined, shift) == Combined(integer, fraction, exp)
    ensures Denotes(combined, shift, Scaled(IntValue(integer) as real + FracValue(fraction), exp))
  {
    var front := -exp - |integer|;
    var s: Digits := ZeroDigits(front) + (integer + fraction);
    Cases(integer, fraction, exp);
    assert s + ZeroDigits(0) == s;
    MovedPoint(s, integer, fraction, exp, front, 0);
    PointOnly(combined, s, PointValue(s, 0));
  }

  /** The point lands among the digits, or zeros are put behind them up to it. */
  lemma PointAmong(integer: Digits, fraction: Digits, exp: int, combined: string, shift: int)
    requires -exp <= |integer| && (combined, shift) == Combined(integer, fraction, exp)
    ensures Denotes(combined, shift, Scaled(IntValue(integer) as real + FracValue(fraction), exp))
  {
    var back := if exp > |fraction| then exp - |fraction| else 0;
    Cases(integer, fraction, exp);
    assert ZeroDigits(0) + (integer + fraction) == integer + fraction;
    DigitsJoin(integer, fraction);
    DigitsJoin(integer + fraction, ZeroDigits(back));
    MovedPoint(combined, integer, fraction, exp, 0, back);
    PointInside(combined, shift, PointValue(combined, shift));
  }

  lemma ScientificScaled(integer: Digits, fraction: Digits, exp: int, combined: string, shift: int)
    requires (combined, shift) == Combined(integer, fraction, exp)
    ensures Denotes(combined, shift, Scaled(IntValue(integer) as real + FracValue(fraction), exp))
  {
    if -exp > |integer| {
      PointInFront(integer, fraction, exp, combined, shift);
    } else {
      PointAmong(integer, fraction, exp, combined, shift);
    }
  }

  /** Scientific notation is stored as the mantissa times the power of ten, wherever the point lands. */
  lemma ScientificValue(integer: Digits, fraction: Digits, exp: int)
    ensures var (combined, shift) := Combined(integer, fraction, exp);
      Denotes(combined, shift, TimesPower(IntValue(integer) as real + FracValue(fraction), exp))
  {
    var (combined, shift) := Combined(integer, fraction, exp);
    ScientificScaled(integer, fraction, exp, combined, shift);
    ScaledByPower(IntValue(integer) as real + FracValue(fraction), exp);
  }

  /** Storing keeps the number: plain and scientific numerals denote what their bytes do. */
  lemma MeaningKept(d: Decimal)
    requires d.integer != []
    ensures ToNumber(d).Consistent() && ToNumber(d).Value() == d.Meaning()
  {
    if d.exponent.Some? {
      ScientificValue(d.integer, d.FractionDigits(), d.exponent.value);
    }
  }

  /** Digits left behind the point once it has been moved. */
  function PlacesAfter(d: Decimal): nat {
    var places, exp := |d.FractionDigits()|, if d.exponent.Some? then d.exponent.value else 0;
    if exp >= places then 0 else places - exp
  }

  /** The sign is kept, and the fraction has just the digits that are left behind the moved point. */
  lemma PlacesKept(d: Decimal)
    requires d.integer != []
    ensures ToNumber(d).isNeg == d.negative && |ToNumber(d).fraction| == PlacesAfter(d)
    ensures d.exponent.None? ==> ToNumber(d).fraction == d.FractionDigits()
  {
    if d.exponent.Some? {
      Cases(d.integer, d.FractionDigits(), d.exponent.value);
    }
  }

  /** A numeral with an exponent is stored with the very bytes of the plain one that has the point moved. */
  lemma ScientificIsPlain(d: Decimal, p: Decimal)
    requires d.integer != [] && p.integer != [] && p.exponent.None?
    requires d.negative == p.negative && d.Meaning() == p.Meaning() && |p.FractionDigits()| == PlacesAfter(d)
    ensures ToNumber(d) == ToNumber(p)
  {
    MeaningKept(d);
    MeaningKept(p);
    PlacesKept(d);
    PlacesKept(p);
    EqualNumbers(ToNumber(d), ToNumber(p));
    SameLength(ToNumber(d).fraction, ToNumber(p).fraction);
  }

  lemma SameLength(f: Digits, g: Digits)
    requires SameFraction(f, g) && |f| == |g|
    ensures f == g
  {}

  /** `decimal_to_storage` */
  method DecimalToStorage(d: Decimal) returns (r: Bytes)
    requires d.WellFormed() && Storable(ToNumber(d).integer)
    ensures r == Stored(ToNumber(d))
  {
    if d.exponent.None? {
      var integerPart: int := IntValue(d.integer);
      if d.negative {
        integerPart := 0 - integerPart;
      }
      r := IntegerAndFractionToStorage(d.negative, integerPart, d.fraction);
    } else {
      Cases(d.integer, d.FractionDigits(), d.exponent.value);
      var (combined, shift) := Combined(d.integer, d.FractionDigits(), d.exponent.value);
      var integerPart: int := ParseOrZero(combined[..shift]);
      if d.negative {
        integerPart := 0 - integerPart;
      }
      var fraction: Digits := combined[shift..];
      r := IntegerAndFractionToStorage(d.negative, integerPart, if fraction == [] then None else Some(fraction));
    }
  }

  /** Numerals sort by their bytes as the numbers they denote do. */
  lemma DecimalOrder(d: Decimal, e: Decimal)
    requires d.integer != [] && e.integer != [] && ToNumber(d).Ordered() && ToNumber(e).Ordered()
    ensures d.Meaning() < e.Meaning() ==> Compare(Stored(ToNumber(d)), Stored(ToNumber(e))) == Less
    ensures Compare(Stored(ToNumber(d)), Stored(ToNumber(e))) == Less ==> d.Meaning() <= e.Meaning()
  {
    MeaningKept(d);
    MeaningKept(e);
    if d.Meaning() < e.Meaning() {
      NumberOrder(ToNumber(d), ToNumber(e));
    } else if Compare(Stored(ToNumber(d)), Stored(ToNumber(e))) == Less {
      BytesOrder(ToNumber(d), ToNumber(e));
    }
  }

  // Coming back

  /** The numeral that is printed for a stored number. */
  function Shown(n: Number): Decimal {
    if n.fraction == [] then Decimal(n.integer < 0, Show(Abs(n.integer)), None, None)
    else Decimal(n.integer < 0 || (n.integer == 0 && n.isNeg), Show(Abs(n.integer)), Some(n.fraction), None)
  }

  /** The integer part of a stored number; the second result says that it is not negative. */
  method ReadInteger(bytes: Bytes, ghost n: Number, ghost rest: Bytes) returns (r: Option<(int, bool, Bytes)>)
    ensures n.Consistent() && Storable(n.integer) && bytes == IntegerBytes(n.isNeg, n.integer) + rest
        ==> r == Some((n.integer, !n.isNeg, rest))
  {
    r := StorageToBigint(bytes, n.integer, rest);
  }

  /** `storage_to_decimal`; nothing if the bytes are not a stored number. */
  method StorageToDecimal(bytes: Bytes, ghost n: Number, ghost rest: Bytes) returns (r: Option<Decimal>)
    ensures n.Consistent() && Storable(n.integer) && bytes == Stored(n) + rest ==> r == Some(Shown(n))
  {
    ghost var fractionPart := Signed(FractionCode(n.fraction), !n.isNeg) + rest;
    Associate(IntegerBytes(n.isNeg, n.integer), Signed(FractionCode(n.fraction), !n.isNeg), rest);
    var number := ReadInteger(bytes, n, fractionPart);
    if number.None? {
      return None;
    }
    var (integer, isPos, body) := number.value;
    var fraction := DecodeFraction(body, isPos, n.fraction, rest);
    if fraction.None? {
      return None;
    }
    var (digits, _) := fraction.value;
    if digits == [] {
      r := Some(Decimal(integer < 0, Show(Abs(integer)), None, None));
    } else {
      r := Some(Decimal(integer < 0 || (integer == 0 && !isPos), Show(Abs(integer)), Some(digits), None));
    }
  }

  /**
   * A plain numeral comes back as it was written exactly when its integer part has no leading zeros, it does not end in
   * a point, and it is not a zero with a sign and no fraction.
   */
  lemma RoundTrip(d: Decimal)
    requires d.integer != [] && d.exponent.None?
    ensures Shown(ToNumber(d)) == d
      <==> Canonical(d.integer) && d.fraction != Some([]) &&
           !(d.negative && IntValue(d.integer) == 0 && d.fraction.None?)
  {
    ShowIsCanonical(d.integer);
  }

  /**
   * The numeral that comes back: plain, without leading zeros, with the digits stored behind the point and no point if
   * there are none, and with a sign unless the number is zero without a fraction.
   */
  lemma ShownExactly(n: Number)
    requires n.Consistent()
    ensures var d := Shown(n);
      && d.exponent.None? && d.integer != [] && Canonical(d.integer) && IntValue(d.integer) == Abs(n.integer)
      && d.FractionDigits() == n.fraction && (d.fraction.None? <==> n.fraction == [])
      && (d.negative <==> n.isNeg && (n.integer != 0 || n.fraction != []))
  {
    ShowValue(Abs(n.integer));
  }

  /** Storing what came back gives the same bytes, except for negative zero without a fraction. */
  lemma ShownStored(n: Number)
    requires n.Consistent()
    ensures Shown(n).integer != []
    ensures ToNumber(Shown(n)) == n <==> !(n.isNeg && n.integer == 0 && n.fraction == [])
  {
    ShownExactly(n);
  }

  /** What comes back always denotes the same number. */
  lemma ShownMeaning(n: Number)
    requires n.Consistent()
    ensures Shown(n).Meaning() == n.Value()
  {
    ShowValue(Abs(n.integer));
  }
}
