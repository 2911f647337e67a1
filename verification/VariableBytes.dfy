/** Variable-byte numbers: seven bits a byte, low bits first, the last byte marked by its top bit. */
module VariableBytes {
  import opened Words
  import opened Results
  import opened ByteStrings
  import L = LogArrays

  const MAX_ENCODING_LEN := 10

  datatype DecodeError = EncodedValueTooLarge | UnexpectedEndOfBuffer | UnexpectedEncodingLen

  predicate IsLastEncodedByte(b: byte) {
    b >= 0x80
  }

  function ClearMsb(b: byte): byte {
    b % 0x80
  }

  function SetMsb(b: byte): byte
    requires b < 0x80
  {
    b + 0x80
  }

  /** `shift` is at the last possible byte and the byte does not fit in the one bit left. */
  predicate MaxByteTooLarge(shift: nat, b: byte) {
    shift == 63 && b > 0x81
  }

  function EncodingLen(num: u64): nat {
    if num == 0 then 1 else (6 + L.BitLength(num)) / 7
  }

  // The code as a mathematical object

  /** The number spelled by the low seven bits of each byte. */
  function Value(s: Bytes): nat {
    if s == [] then 0 else s[0] % 0x80 + 0x80 * Value(s[1..])
  }

  function Encode(num: nat): (s: Bytes)
    ensures |s| >= 1
  {
    if num >= 0x80 then [num % 0x80] + Encode(num / 0x80) else [num + 0x80]
  }

  ghost predicate Unmarked(s: Bytes) {
    forall i :: 0 <= i < |s| ==> !IsLastEncodedByte(s[i])
  }

  /** Byte `k` is the first marked one. */
  ghost predicate FirstMarked(s: Bytes, k: nat) {
    k < |s| && IsLastEncodedByte(s[k]) && forall i :: 0 <= i < k ==> !IsLastEncodedByte(s[i])
  }

  /** Only the last byte is marked. */
  ghost predicate Terminated(s: Bytes) {
    |s| >= 1 && FirstMarked(s, |s| - 1)
  }

  lemma {:induction false} EncodeSpells(num: nat)
    ensures Terminated(Encode(num)) && Value(Encode(num)) == num
  {
    if num >= 0x80 {
      EncodeSpells(num / 0x80);
      MarkedAfter(num % 0x80, Encode(num / 0x80));
    }
  }

  /** Seven bits a byte, the lowest first. */
  lemma EncodedInOneOrTwo(num: nat)
    requires num < 0x4000
    ensures Encode(num) == if num < 0x80 then [0x80 + num] else [num % 0x80, 0x80 + num / 0x80]
  {
    assert num >= 0x80 ==> Encode(num / 0x80) == [0x80 + num / 0x80];
  }

  lemma MarkedAfter(b: byte, s: Bytes)
    requires b < 0x80 && Terminated(s)
    ensures Terminated([b] + s) && Value([b] + s) == b + 0x80 * Value(s)
  {
    assert ([b] + s)[1..] == s;
  }

  lemma {:induction false} EncodeLength(num: u64)
    ensures |Encode(num)| == EncodingLen(num) <= MAX_ENCODING_LEN
  {
    L.BitLengthBounds(num, 64);
    Pow2Of64();
    L.BitLengthBounds(num, 7);
    assert Pow2(7) == 0x80 by { Pow2Sum(3, 4); }
    if num >= 0x80 {
      EncodeLength(num / 0x80);
      SevenFewer(num);
    }
  }

  lemma HalfFewer(num: nat, half: nat)
    requires num >= 1 && half == num / 2
    ensures L.BitLength(num) == 1 + L.BitLength(half)
  {}

  lemma QuarterFewer(num: nat, quarter: nat)
    requires num >= 4 && quarter == num / 4
    ensures L.BitLength(num) == 2 + L.BitLength(quarter)
  {
    HalfFewer(num, num / 2);
    HalfFewer(num / 2, quarter);
  }

  lemma SevenFewer(num: nat)
    requires num >= 0x80
    ensures L.BitLength(num) == 7 + L.BitLength(num / 0x80)
  {
    QuarterFewer(num, num / 4);
    QuarterFewer(num / 4, num / 16);
    QuarterFewer(num / 16, num / 64);
    HalfFewer(num / 64, num / 0x80);
  }

  // Encoding

  method PutByte(buf: array<byte>, i: nat, b: byte, ghost done: Bytes, ghost tail: Bytes)
    requires i < buf.Length && buf[..i] == done && buf[i..] == tail
    modifies buf
    ensures buf[..i + 1] == done + [b] && buf[i + 1..] == tail[1..]
  {
    buf[i] := b;
  }

  /** Writes the code of `num` at the start of a buffer that has room for it. */
  method EncodeUnchecked(buf: array<byte>, num: u64) returns (n: nat)
    requires EncodingLen(num) <= buf.Length
    modifies buf
    ensures n == EncodingLen(num) && buf[..n] == Encode(num)
    ensures buf[n..] == old(buf[n..])
  {
    EncodeLength(num);
    var i, rest := 0, num;
    ghost var before, done := buf[..], [];
    while rest >= 0x80
      invariant i + |Encode(rest)| == |Encode(num)| <= buf.Length
      invariant buf[..i] == done && done + Encode(rest) == Encode(num)
      invariant buf[i..] == before[i..]
      decreases rest
    {
      EncodeStep(done, rest);
      PutByte(buf, i, ClearMsb(rest % 256), done, before[i..]);
      done := done + [rest % 0x80];
      rest := rest / 0x80;
      i := i + 1;
    }
    PutByte(buf, i, SetMsb(rest), done, before[i..]);
    n := i + 1;
  }

  lemma EncodeStep(done: Bytes, rest: nat)
    requires rest >= 0x80
    ensures done + Encode(rest) == done + [rest % 0x80] + Encode(rest / 0x80)
    ensures |Encode(rest)| == 1 + |Encode(rest / 0x80)|
  {
    assert done + ([rest % 0x80] + Encode(rest / 0x80)) == done + [rest % 0x80] + Encode(rest / 0x80);
  }

  method EncodeSlice(buf: array<byte>, num: u64) returns (n: Option<nat>)
    modifies buf
    ensures n == if EncodingLen(num) > buf.Length then None else Some(EncodingLen(num))
    ensures n.Some? ==> buf[..n.value] == Encode(num) && buf[n.value..] == old(buf[n.value..])
    ensures n.None? ==> buf[..] == old(buf[..])
  {
    if EncodingLen(num) > buf.Length {
      n := None;
    } else {
      var i := EncodeUnchecked(buf, num);
      n := Some(i);
    }
  }

  method EncodeVec(num: u64) returns (r: Bytes)
    ensures r == Encode(num)
  {
    EncodeLength(num);
    var vec := new byte[EncodingLen(num)](_ => 0);
    var n := EncodeUnchecked(vec, num);
    r := vec[..];
  }

  method EncodeArray(num: u64) returns (buf: array<byte>, size: nat)
    ensures fresh(buf) && buf.Length == MAX_ENCODING_LEN && size <= MAX_ENCODING_LEN
    ensures buf[..size] == Encode(num) && forall i :: size <= i < MAX_ENCODING_LEN ==> buf[i] == 0
  {
    EncodeLength(num);
    buf := new byte[MAX_ENCODING_LEN](_ => 0);
    ghost var zeros := buf[..];
    size := EncodeUnchecked(buf, num);
    ZerosBehind(buf[..], zeros, size);
  }

  lemma ZerosBehind(a: Bytes, zeros: Bytes, n: nat)
    requires |a| == |zeros| && n <= |a| && a[n..] == zeros[n..] && forall i :: 0 <= i < |zeros| ==> zeros[i] == 0
    ensures forall i :: n <= i < |a| ==> a[i] == 0
  {
    forall i | n <= i < |a|
      ensures a[i] == 0
    {
      assert a[i] == a[n..][i - n] == zeros[n..][i - n];
    }
  }

  // Decoding

  /** `num | (b << shift)` in 64 bits, where `num` has only bits below `shift`. */
  function OrShifted(num: nat, b: nat, shift: nat): nat {
    num + b * Pow2(shift) % WORD
  }

  /** What `decode_buf` must say about a buffer. */
  ghost predicate Decodes(buf: Bytes, r: Result<(u64, nat), DecodeError>) {
    match r
    case Ok((num, n)) => n <= |buf| && n <= MAX_ENCODING_LEN && Terminated(buf[..n]) && num == Value(buf[..n])
    case Err(EncodedValueTooLarge) =>
      |buf| >= MAX_ENCODING_LEN && Terminated(buf[..MAX_ENCODING_LEN]) && Value(buf[..MAX_ENCODING_LEN]) >= WORD
    case Err(UnexpectedEndOfBuffer) => |buf| < MAX_ENCODING_LEN && Unmarked(buf)
    case Err(UnexpectedEncodingLen) => |buf| >= MAX_ENCODING_LEN && Unmarked(buf[..MAX_ENCODING_LEN])
  }

  lemma {:induction false} ValuePush(s: Bytes, b: byte)
    ensures Value(s + [b]) == Value(s) + b % 0x80 * Pow2(7 * |s|)
  {
    if s == [] {
      assert Pow2(0) == 1;
    } else {
      ValuePush(s[1..], b);
      assert (s + [b])[1..] == s[1..] + [b];
      assert Pow2(7) == 0x80 by { Pow2Sum(3, 4); }
      Pow2Sum(7, 7 * |s| - 7);
      PullOut(b % 0x80, Pow2(7 * |s| - 7));
    }
  }

  lemma PullOut(b: nat, p: nat)
    ensures 0x80 * (b * p) == b * (0x80 * p)
  {}

  lemma {:induction false} ValueBound(s: Bytes, n: nat)
    requires n == 7 * |s|
    ensures Value(s) < Pow2(n)
  {
    if s == [] {
      assert Pow2(0) == 1;
    } else {
      ValueBound(s[1..], n - 7);
      assert Pow2(7) == 0x80 by { Pow2Sum(3, 4); }
      Pow2Sum(7, n - 7);
      LowDigit(s[0] % 0x80, Value(s[1..]), Pow2(n - 7));
    }
  }

  lemma LowDigit(d: nat, v: nat, p: nat)
    requires d < 0x80 && v < p
    ensures d + 0x80 * v < 0x80 * p
  {}

  /** One more byte below the top one: the sum still fits the register. */
  lemma AddByte(s: Bytes, b: byte, v: nat, shift: nat, p: nat)
    requires shift == 7 * |s| < 63 && v == b % 0x80 && p == Pow2(shift)
    ensures Value(s + [b]) < WORD && OrShifted(Value(s), v, shift) == Value(s + [b])
  {
    ValuePush(s, b);
    ValueBound(s, shift);
    Pow2Of64();
    assert Pow2(7) == 0x80 by { Pow2Sum(3, 4); }
    Pow2Sum(shift, 7);
    Pow2Monotone(shift + 7, 64);
    InRoom(Value(s), v, p, 0x80);
  }

  /** The tenth byte has room for one bit. */
  lemma AddTopByte(s: Bytes, b: byte, v: nat, p: nat)
    requires |s| == 9 && v == b % 0x80 && p == Pow2(63)
    ensures v <= 1 ==> Value(s + [b]) < WORD && OrShifted(Value(s), v, 63) == Value(s + [b])
    ensures v > 1 ==> Value(s + [b]) >= WORD
  {
    ValuePush(s, b);
    ValueBound(s, 63);
    Pow2Of64();
    assert Pow2(64) == 2 * p;
    if v <= 1 {
      InRoom(Value(s), v, p, 2);
    } else {
      MulMonotone(2, v, p);
    }
  }

  lemma InRoom(low: nat, v: nat, p: nat, d: nat)
    requires low < p && v < d && d * p <= WORD
    ensures low + v * p < WORD && v * p % WORD == v * p
  {
    MulMonotone(v + 1, d, p);
    assert (v + 1) * p == v * p + p;
  }

  /** `count` bytes are read, none of them the last one. */
  ghost predicate Reading(buf: Bytes, count: nat, num: nat, shift: nat) {
    && count <= |buf| && count < MAX_ENCODING_LEN && shift == 7 * count
    && Unmarked(buf[..count]) && num == Value(buf[..count])
  }

  lemma ReadLast(buf: Bytes, count: nat, num: nat, shift: nat, b: byte)
    requires Reading(buf, count, num, shift) && count < |buf| && b == buf[count] && IsLastEncodedByte(b)
    ensures MaxByteTooLarge(shift, b) ==> Decodes(buf, Err(EncodedValueTooLarge))
    ensures !MaxByteTooLarge(shift, b) ==>
      OrShifted(num, ClearMsb(b), shift) < WORD && Decodes(buf, Ok((OrShifted(num, ClearMsb(b), shift), count + 1)))
  {
    var s := buf[..count];
    assert buf[..count + 1] == s + [b];
    if shift < 63 {
      AddByte(s, b, ClearMsb(b), shift, Pow2(shift));
    } else {
      AddTopByte(s, b, ClearMsb(b), Pow2(shift));
    }
  }

  lemma ReadNone(buf: Bytes, count: nat, num: nat, shift: nat)
    requires Reading(buf, count, num, shift) && count == |buf|
    ensures Decodes(buf, Err(UnexpectedEndOfBuffer))
  {
    assert buf[..count] == buf;
  }

  lemma ReadMore(buf: Bytes, count: nat, num: nat, shift: nat, b: byte)
    requires Reading(buf, count, num, shift) && count < |buf| && b == buf[count] && !IsLastEncodedByte(b)
    ensures shift + 7 > 64 ==> Decodes(buf, Err(UnexpectedEncodingLen))
    ensures shift + 7 <= 64 ==> Reading(buf, count + 1, OrShifted(num, b, shift), shift + 7)
  {
    var s := buf[..count];
    assert buf[..count + 1] == s + [b];
    if shift < 63 {
      AddByte(s, b, b, shift, Pow2(shift));
    }
  }

  /** What both decoders do with one byte: an answer, or the next state of the register. */
  method DecodeByte(b: byte, count: nat, num: nat, shift: nat, ghost buf: Bytes)
      returns (r: Option<Result<(u64, nat), DecodeError>>, num': nat, shift': nat)
    requires Reading(buf, count, num, shift) && count < |buf| && b == buf[count]
    ensures r.Some? ==> Decodes(buf, r.value) && (r.value.Ok? ==> r.value.value.1 == count + 1)
    ensures r.None? ==> Reading(buf, count + 1, num', shift')
  {
    num', shift' := num, shift;
    if IsLastEncodedByte(b) {
      ReadLast(buf, count, num, shift, b);
      if MaxByteTooLarge(shift, b) {
        r := Some(Err(EncodedValueTooLarge));
      } else {
        r := Some(Ok((OrShifted(num, ClearMsb(b), shift), count + 1)));
      }
      return;
    }
    ReadMore(buf, count, num, shift, b);
    num' := OrShifted(num, b, shift);
    shift' := shift + 7;
    r := if shift' > 64 then Some(Err(UnexpectedEncodingLen)) else None;
  }

  method DecodeBuf(buf: Bytes) returns (r: Result<(u64, nat), DecodeError>)
    ensures Decodes(buf, r)
  {
    var num, shift, count := 0, 0, 0;
    while true
      invariant Reading(buf, count, num, shift)
      decreases |buf| - count
    {
      if count == |buf| {
        ReadNone(buf, count, num, shift);
        return Err(UnexpectedEndOfBuffer);
      }
      var answer;
      answer, num, shift := DecodeByte(buf[count], count, num, shift, buf);
      if answer.Some? {
        return answer.value;
      }
      count := count + 1;
    }
  }

  lemma MarkedInside(s: Bytes, t: Bytes, k: nat)
    requires FirstMarked(s, k)
    ensures FirstMarked(s + t, k)
  {
    assert forall i :: 0 <= i <= k ==> (s + t)[i] == s[i];
  }

  /** Only one prefix of a buffer is a code. */
  lemma TerminatedOnce(buf: Bytes, m: nat, n: nat)
    requires m <= |buf| && n <= |buf| && Terminated(buf[..m]) && Terminated(buf[..n])
    ensures m == n
  {
    assert buf[..m] + buf[m..] == buf && buf[..n] + buf[n..] == buf;
    MarkedInside(buf[..m], buf[m..], m - 1);
    MarkedInside(buf[..n], buf[n..], n - 1);
  }

  lemma MarkedMeansMarked(buf: Bytes, k: nat, n: nat)
    requires FirstMarked(buf, k) && k < n <= |buf|
    ensures !Unmarked(buf[..n])
  {
    assert buf[..n][k] == buf[k];
  }

  /** Decoding the code of a number followed by anything gives the number and the code's length. */
  lemma DecodeUndoesEncode(buf: Bytes, num: u64, rest: Bytes, r: Result<(u64, nat), DecodeError>)
    requires buf == Encode(num) + rest && Decodes(buf, r)
    ensures r == Ok((num, EncodingLen(num)))
  {
    var s, len := Encode(num), EncodingLen(num);
    EncodeSpells(num);
    EncodeLength(num);
    assert buf[..len] == s;
    MarkedInside(s, rest, len - 1);
    match r {
      case Ok((_, n)) =>
        TerminatedOnce(buf, len, n);
      case Err(EncodedValueTooLarge) =>
        TerminatedOnce(buf, len, MAX_ENCODING_LEN);
      case Err(UnexpectedEndOfBuffer) =>
      case Err(UnexpectedEncodingLen) =>
        MarkedMeansMarked(buf, len - 1, MAX_ENCODING_LEN);
    }
  }

  /** Decodes a number at the front of a buffer and drops it, as `decode_buf` advances its argument. */
  method TakeNumber(buf: Bytes, ghost num: u64, ghost rest: Bytes) returns (r: Result<(u64, Bytes), DecodeError>)
    ensures buf == Encode(num) + rest ==> r == Ok((num, rest))
  {
    var d := DecodeBuf(buf);
    EncodeLength(num);
    if buf == Encode(num) + rest {
      DecodeUndoesEncode(buf, num, rest, d);
    }
    match d {
      case Ok((n, len)) => r := Ok((n, buf[len..]));
      case Err(e) => r := Err(e);
    }
  }
}
