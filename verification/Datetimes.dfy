/** Timestamps stored as decimals of seconds: their bytes sort chronologically. */
module Datetimes {
  import opened Words
  import opened Results
  import opened ByteStrings
  import opened BigIntegers
  import opened DecimalDigits
  import opened Decimals
  import opened DecimalTexts
  import L = LogArrays

  const NANOS := 1_000_000_000

  /** Seconds since the epoch, rounded down, and the nanoseconds after them: more than a second within a leap second. */
  datatype DateTime = DateTime(seconds: int, nanos: nat) {
    ghost predicate Valid() {
      -0x8000_0000_0000_0000 <= seconds < 0x8000_0000_0000_0000 && nanos < 2 * NANOS
    }

    predicate Leap() {
      nanos >= NANOS
    }

    /** Taking the nanoseconds off a second underflows. */
    predicate Underflows() {
      seconds < 0 && nanos > NANOS
    }

    ghost predicate Before(t: DateTime) {
      seconds < t.seconds || (seconds == t.seconds && nanos < t.nanos)
    }

    function Instant(): real {
      seconds as real + nanos as real / 1_000_000_000.0
    }
  }

  /** `datetime_to_parts`: before the epoch, whole seconds count towards it and the rest points away from it. */
  function ToParts(t: DateTime): (bool, int, int) {
    if t.seconds < 0 && t.nanos != 0 then (true, t.seconds + 1, NANOS - t.nanos)
    else (t.seconds < 0, t.seconds, t.nanos)
  }

  /** `n` in at least `w` digits. */
  function Padded(n: nat, w: nat): (s: Digits)
    ensures |s| >= w
  {
    if w == 0 && n == 0 then [] else Padded(n / 10, if w == 0 then 0 else w - 1) + [CharOf(n % 10)]
  }

  /** Three, six or nine digits, whichever are enough; none for a whole second. */
  function Fraction(nanos: nat): Option<Digits> {
    if nanos == 0 then None
    else if nanos % 1_000_000 == 0 then Some(Padded(nanos / 1_000_000, 3))
    else if nanos % 1_000 == 0 then Some(Padded(nanos / 1_000, 6))
    else Some(Padded(nanos, 9))
  }

  function FractionDigits(nanos: nat): Digits {
    if Fraction(nanos).Some? then Fraction(nanos).value else []
  }

  function ToNumber(t: DateTime): Number
    requires !t.Underflows()
  {
    var (isNeg, seconds, nanos) := ToParts(t);
    Number(isNeg, seconds, FractionDigits(nanos))
  }

  // Digits of nanoseconds

  function TenTo(w: nat): nat {
    if w == 0 then 1 else 10 * TenTo(w - 1)
  }

  lemma {:induction false} PaddedValue(n: nat, w: nat)
    ensures IntValue(Padded(n, w)) == n
  {
    if w > 0 || n > 0 {
      PaddedValue(n / 10, if w == 0 then 0 else w - 1);
      ValuePush(Padded(n / 10, if w == 0 then 0 else w - 1), CharOf(n % 10));
    }
  }

  lemma {:induction false} PaddedLength(n: nat, w: nat)
    requires n < 10 * TenTo(w)
    ensures |Padded(n, w)| == if n < TenTo(w) then w else w + 1
  {
    if w > 0 {
      PaddedLength(n / 10, w - 1);
    } else if n > 0 {
      assert n / 10 == 0;
    }
  }

  /** All digits behind the point: the number they make, scaled down. */
  lemma FracOfInt(s: Digits, w: nat)
    requires |s| == w
    ensures FracValue(s) == Scaled(IntValue(s) as real, 0 - w)
  {
    MovePoint(s, w, 0 - w);
    assert s[..w] == s && s[w..] == [] && s[..0] == [] && s[0..] == s;
  }

  lemma ScaledThousandth(v: real, e: int)
    requires e <= 0
    ensures Scaled(v, e - 3) == Scaled(v, e) / 1000.0
  {
    assert Scaled(v, e - 3) == Scaled(v, e - 2) / 10.0;
    assert Scaled(v, e - 2) == Scaled(v, e - 1) / 10.0;
    assert Scaled(v, e - 1) == Scaled(v, e) / 10.0;
  }

  lemma TenToNine()
    ensures TenTo(3) == 1_000 && TenTo(6) == 1_000_000 && TenTo(9) == 1_000_000_000
  {
    assert TenTo(2) == 100;
    assert TenTo(4) == 10 * TenTo(3) && TenTo(5) == 10 * TenTo(4);
    assert TenTo(7) == 10 * TenTo(6) && TenTo(8) == 10 * TenTo(7);
  }

  /** How many digits are printed for nanoseconds, and their value: leap seconds take a digit more. */
  lemma FractionShape(nanos: nat, w: nat, m: nat)
    requires 0 < nanos < 2 * NANOS
    requires if nanos % 1_000_000 == 0 then w == 3 && m == nanos / 1_000_000
             else if nanos % 1_000 == 0 then w == 6 && m == nanos / 1_000 else w == 9 && m == nanos
    ensures FractionDigits(nanos) == Padded(m, w) && IntValue(FractionDigits(nanos)) == m
    ensures |FractionDigits(nanos)| == if nanos < NANOS then w else w + 1
  {
    TenToNine();
    PaddedLength(m, w);
    PaddedValue(m, w);
  }

  /** No digits for a whole second, else three, six or nine, and no fewer would do; one more within a leap second. */
  lemma FractionLength(nanos: nat)
    requires nanos < 2 * NANOS
    ensures var n := |FractionDigits(nanos)| - if nanos < NANOS then 0 else 1;
      && (n == 0 <==> nanos == 0)
      && (n <= 3 <==> nanos % 1_000_000 == 0) && (n <= 6 <==> nanos % 1_000 == 0)
      && (n == 0 || n == 3 || n == 6 || n == 9)
  {
    if nanos > 0 {
      FractionShape(nanos, Width(nanos), Printed(nanos));
    }
  }

  function Width(nanos: nat): nat {
    if nanos % 1_000_000 == 0 then 3 else if nanos % 1_000 == 0 then 6 else 9
  }

  function Printed(nanos: nat): nat {
    if nanos % 1_000_000 == 0 then nanos / 1_000_000 else if nanos % 1_000 == 0 then nanos / 1_000 else nanos
  }

  lemma ScaledTenth(v: real, e: int)
    requires e <= 0
    ensures Scaled(v, e - 1) == Scaled(v, e) / 10.0
  {}

  lemma PrintedScaled(nanos: nat)
    ensures Scaled(Printed(nanos) as real, 0 - Width(nanos)) == nanos as real / 1_000_000_000.0
  {
    var m := Printed(nanos) as real;
    ScaledThousandth(m, 0);
    ScaledThousandth(m, -3);
    ScaledThousandth(m, -6);
  }

  /** The fraction is worth the nanoseconds, but a tenth of them within a leap second. */
  lemma FractionValue(nanos: nat)
    requires nanos < 2 * NANOS
    ensures FracValue(FractionDigits(nanos)) ==
      nanos as real / if nanos < NANOS then 1_000_000_000.0 else 10_000_000_000.0
  {
    if nanos != 0 {
      var f, w, m := FractionDigits(nanos), Width(nanos), Printed(nanos);
      FractionShape(nanos, w, m);
      FracOfInt(f, |f|);
      PrintedScaled(nanos);
      ScaledTenth(m as real, -(w as int));
    }
  }

  /** The stored number is the instant, unless the timestamp is in a leap second after the epoch. */
  lemma PartsKeepInstant(t: DateTime)
    requires t.Valid() && !t.Underflows()
    ensures ToNumber(t).Consistent() && (ToNumber(t).isNeg <==> t.seconds < 0)
    ensures ToNumber(t).Value() == t.Instant() <==> !t.Leap() || t.seconds < 0
  {
    var (_, _, nanos) := ToParts(t);
    FractionValue(nanos);
  }

  lemma SecondsFit(t: DateTime)
    requires t.Valid() && !t.Underflows()
    ensures Storable(ToNumber(t).integer) && ToNumber(t).Ordered()
  {
    var m := Abs(ToNumber(t).integer);
    Pow2Of64();
    Pow2Monotone(64, 71);
    NumBytesBounds(m, 9);
    L.BitLengthBounds(m, 71);
    PartsKeepInstant(t);
  }

  lemma EarlierIsLess(t: DateTime, u: DateTime)
    requires t.Before(u) && !t.Leap()
    ensures t.Instant() < u.Instant()
  {}

  lemma EarlierSortsFirst(t: DateTime, u: DateTime)
    requires t.Valid() && u.Valid() && !t.Leap() && !u.Leap() && t.Before(u)
    ensures Compare(Stored(ToNumber(t)), Stored(ToNumber(u))) == Less
  {
    EarlierIsLess(t, u);
    PartsKeepInstant(t);
    PartsKeepInstant(u);
    SecondsFit(t);
    SecondsFit(u);
    NumberOrder(ToNumber(t), ToNumber(u));
  }

  /** The bytes sort as the timestamps do, outside of leap seconds. */
  lemma ChronologicalOrder(t: DateTime, u: DateTime)
    requires t.Valid() && u.Valid() && !t.Leap() && !u.Leap()
    ensures Compare(Stored(ToNumber(t)), Stored(ToNumber(u))) == Less <==> t.Before(u)
  {
    if t.Before(u) {
      EarlierSortsFirst(t, u);
    } else if u.Before(t) {
      EarlierSortsFirst(u, t);
      CompareFlips(Stored(ToNumber(u)), Stored(ToNumber(t)));
    } else {
      CompareEqual(Stored(ToNumber(t)), Stored(ToNumber(u)));
    }
  }

  /** Every leap second after the epoch sorts below the middle of the second it belongs to, which comes before it. */
  lemma LeapMisordered(t: DateTime, u: DateTime)
    requires t.Valid() && t.Leap() && t.seconds >= 0 && u == DateTime(t.seconds, 500_000_000)
    ensures u.Before(t) && Compare(Stored(ToNumber(t)), Stored(ToNumber(u))) == Less
  {
    FractionValue(t.nanos);
    FractionValue(u.nanos);
    SecondsFit(t);
    SecondsFit(u);
    NumberOrder(ToNumber(t), ToNumber(u));
  }

  /** Before the epoch, a second and all the nanoseconds of another are stored as the next second is. */
  lemma LeapTies(t: DateTime, u: DateTime)
    requires t.seconds < -1 && t.nanos == NANOS && u == DateTime(t.seconds + 1, 0)
    ensures t.Before(u) && Stored(ToNumber(t)) == Stored(ToNumber(u))
  {}

  ghost predicate Agree(t: DateTime, u: DateTime)
    requires !t.Underflows() && !u.Underflows()
  {
    Compare(Stored(ToNumber(t)), Stored(ToNumber(u))) == Less <==> t.Before(u)
  }

  /** Against every timestamp outside of leap seconds, the bytes sort as the timestamps do. */
  ghost predicate SortsRight(t: DateTime)
    requires !t.Underflows()
  {
    forall u: DateTime :: u.Valid() && !u.Leap() ==> Agree(t, u) && Agree(u, t)
  }

  /** The second before the epoch and all the nanoseconds of another: stored as negative zero, right below the epoch. */
  lemma LastBeforeEpoch(t: DateTime, u: DateTime)
    requires t == DateTime(-1, NANOS) && u.Valid() && !u.Leap()
    ensures Agree(t, u) && Agree(u, t)
  {
    var m, n := ToNumber(t), ToNumber(u);
    SecondsFit(t);
    SecondsFit(u);
    PartsKeepInstant(t);
    PartsKeepInstant(u);
    if u.seconds < 0 {
      NumberOrder(n, m);
      CompareFlips(Stored(n), Stored(m));
    } else {
      IntegerBytesOrder(m, n);
      CompareExtends(IntegerBytes(m.isNeg, m.integer), IntegerBytes(n.isNeg, n.integer),
                     Signed(FractionCode(m.fraction), !m.isNeg), Signed(FractionCode(n.fraction), !n.isNeg));
      CompareFlips(Stored(m), Stored(n));
    }
  }

  /** Every other storable leap second is out of place. */
  lemma LeapOutOfPlace(t: DateTime)
    requires t.Valid() && !t.Underflows() && t.Leap() && t != DateTime(-1, NANOS)
    ensures !SortsRight(t)
  {
    if t.seconds >= 0 {
      var u := DateTime(t.seconds, 500_000_000);
      LeapMisordered(t, u);
      assert !Agree(t, u);
    } else {
      var u := DateTime(t.seconds + 1, 0);
      LeapTies(t, u);
      CompareEqual(Stored(ToNumber(t)), Stored(ToNumber(u)));
      assert !Agree(t, u);
    }
  }

  /** Exactly when a timestamp sorts right: outside of leap seconds, and in the one case just before the epoch. */
  lemma OrderCondition(t: DateTime)
    requires t.Valid() && !t.Underflows()
    ensures SortsRight(t) <==> !t.Leap() || t == DateTime(-1, NANOS)
  {
    if t.Leap() && t != DateTime(-1, NANOS) {
      LeapOutOfPlace(t);
    } else {
      forall u: DateTime | u.Valid() && !u.Leap()
        ensures Agree(t, u) && Agree(u, t)
      {
        if t.Leap() {
          LastBeforeEpoch(t, u);
        } else {
          ChronologicalOrder(t, u);
          ChronologicalOrder(u, t);
        }
      }
    }
  }

  /** `datetime_to_storage`; nothing where it panics. */
  method DatetimeToStorage(t: DateTime) returns (r: Option<Bytes>)
    requires t.Valid()
    ensures r == if t.Underflows() then None else Some(Stored(ToNumber(t)))
  {
    var (isNeg, seconds, nanos) := ToParts(t);
    if nanos < 0 {
      return None;
    }
    SecondsFit(t);
    var bytes := IntegerAndFractionToStorage(isNeg, seconds, Fraction(nanos));
    r := Some(bytes);
  }

  // Coming back

  function Times(v: nat, k: nat): nat {
    if k == 0 then v else 10 * Times(v, k - 1)
  }

  lemma {:induction false} ZerosBehind(s: Digits, k: nat)
    ensures AllDigits(s + ZeroDigits(k)) && IntValue(s + ZeroDigits(k)) == Times(IntValue(s), k)
  {
    if k == 0 {
      assert s + ZeroDigits(0) == s;
    } else {
      ZerosBehind(s, k - 1);
      assert s + ZeroDigits(k) == s + ZeroDigits(k - 1) + ['0'];
      ValuePush(s + ZeroDigits(k - 1), '0');
    }
  }

  lemma TimesThousand(v: nat, k: nat)
    ensures Times(v, k + 3) == 1000 * Times(v, k)
  {
    assert Times(v, k + 3) == 10 * Times(v, k + 2);
    assert Times(v, k + 2) == 10 * Times(v, k + 1);
  }

  lemma PrintedTimes(nanos: nat)
    ensures Times(Printed(nanos), 9 - Width(nanos)) == nanos
  {
    TimesThousand(Printed(nanos), 0);
    TimesThousand(Printed(nanos), 3);
  }

  /** Filled up to nine digits, a fraction reads as the nanoseconds, but as a tenth of them within a leap second. */
  lemma NanosRead(nanos: nat, f: Digits)
    requires 0 < nanos < 2 * NANOS && f == FractionDigits(nanos) && |f| <= 9
    ensures f != [] && AllDigits(f + ZeroDigits(9 - |f|))
    ensures IntValue(f + ZeroDigits(9 - |f|)) * (if nanos < NANOS then 1 else 10) == nanos
  {
    FractionShape(nanos, Width(nanos), Printed(nanos));
    ZerosBehind(f, 9 - |f|);
    PrintedTimes(nanos);
  }

  /** Seconds, and the fraction filled up to nine digits, told apart by sign; nothing if there are more. */
  function FromParts(isPos: bool, seconds: int, fraction: Digits): Option<DateTime>
  {
    if fraction == [] then Some(DateTime(seconds, 0))
    else if |fraction| > 9 then None
    else
      DigitsJoin(fraction, ZeroDigits(9 - |fraction|));
      var nanos := IntValue(fraction + ZeroDigits(9 - |fraction|));
      if isPos then Some(DateTime(seconds, nanos))
      else if nanos > NANOS then None
      else Some(DateTime(seconds - 1, NANOS - nanos))
  }

  /** Putting a timestamp together undoes taking it apart, except within a leap second. */
  lemma PartsBack(t: DateTime, n: Number)
    requires t.Valid() && !t.Underflows() && n == ToNumber(t)
    ensures FromParts(!n.isNeg, n.integer, n.fraction) == Some(t) <==> !t.Leap()
  {
    var (isNeg, seconds, nanos) := ToParts(t);
    if nanos > 0 {
      FractionShape(nanos, Width(nanos), Printed(nanos));
      if |n.fraction| <= 9 {
        NanosRead(nanos, n.fraction);
      }
    }
  }

  /** `storage_to_datetime`; nothing if the bytes are not a stored timestamp. */
  method StorageToDatetime(bytes: Bytes, ghost t: DateTime, ghost rest: Bytes) returns (r: Option<DateTime>)
    ensures t.Valid() && !t.Underflows() && bytes == Stored(ToNumber(t)) + rest ==> (r == Some(t) <==> !t.Leap())
  {
    ghost var n := if t.Valid() && !t.Underflows() then ToNumber(t) else Number(false, 0, []);
    if t.Valid() && !t.Underflows() {
      SecondsFit(t);
      PartsBack(t, n);
    }
    ghost var fractionPart := Signed(FractionCode(n.fraction), !n.isNeg) + rest;
    Associate(IntegerBytes(n.isNeg, n.integer), Signed(FractionCode(n.fraction), !n.isNeg), rest);
    var number := ReadInteger(bytes, n, fractionPart);
    if number.None? {
      return None;
    }
    var (seconds, isPos, body) := number.value;
    var fraction := DecodeFraction(body, isPos, n.fraction, rest);
    if fraction.None? {
      return None;
    }
    r := FromParts(isPos, seconds, fraction.value.0);
  }
}
