/** Packed arrays of fixed-width integers: builder, reader, slices and searches. */
module LogArrays {
  import opened Words
  import opened BitStreams
  import opened Results

  const MAX_LOGARRAY_LEN: nat := 0xFF_FFFF_FFFF_FFFF

  datatype LogArrayError =
    | InputBufferTooSmall(size: nat)
    | WidthTooLarge(width: nat)
    | UnexpectedInputBufferSize(size: nat, expected: nat, len: nat, width: nat)

  /** The elements one after the other, `width` bits each. */
  function Packed(vals: seq<u64>, width: nat): (s: seq<bool>)
    ensures |s| == Span(width, |vals|)
  {
    if vals == [] then [] else Packed(vals[..|vals| - 1], width) + BitsOf(vals[|vals| - 1], width)
  }

  ghost predicate Fits(vals: seq<u64>, width: nat) {
    forall i :: 0 <= i < |vals| ==> vals[i] < Pow2(width)
  }

  lemma {:induction false} PackedAt(vals: seq<u64>, width: nat, i: nat)
    requires i < |vals|
    ensures Span(width, i) + width <= |Packed(vals, width)|
    ensures forall k :: 0 <= k < width ==> Packed(vals, width)[Span(width, i) + k] == BitsOf(vals[i], width)[k]
  {
    var n := |vals| - 1;
    LastApart(vals, width, n);
    if i < n {
      PackedAt(vals[..n], width, i);
    }
  }

  lemma LastApart(vals: seq<u64>, width: nat, n: nat)
    requires |vals| == n + 1
    ensures Packed(vals, width) == Packed(vals[..n], width) + BitsOf(vals[n], width)
    ensures |Packed(vals[..n], width)| == Span(width, n)
  {}

  lemma PackedPush(vals: seq<u64>, v: u64, width: nat)
    ensures Packed(vals + [v], width) == Packed(vals, width) + BitsOf(v, width)
  {
    assert (vals + [v])[..|vals|] == vals;
  }

  // The control word

  function ControlWord(len: nat, width: byte): (s: seq<byte>)
    requires len <= MAX_LOGARRAY_LEN
    ensures |s| == 8
  {
    BeBytes(len % 0x1_0000_0000, 4) + BeBytes(len / 0x1_0000_0000 % 0x100_0000, 4)[0 := width]
  }

  function ParseControlWord(buf: seq<byte>): (nat, byte)
    requires |buf| >= 8
  {
    var len1 := FromBe(buf[..4]);
    var len2 := FromBe(buf[4..8]) % 0x100_0000;
    (len2 * 0x1_0000_0000 + len1, buf[4])
  }

  lemma FromBeOfFour(s: seq<byte>)
    requires |s| == 4
    ensures FromBe(s) == 0x100_0000 * (s[0] as int) + 0x1_0000 * (s[1] as int) + 0x100 * (s[2] as int) + s[3] as int
  {
    assert s[..3][..2] == s[..2] && s[..2][..1] == s[..1] && s[..1][..0] == [];
    assert FromBe(s[..1]) == s[0];
    assert FromBe(s[..2]) == 0x100 * (s[0] as int) + s[1] as int;
    assert FromBe(s[..3]) == 0x100 * FromBe(s[..2]) + s[2];
  }

  lemma FourBytes(v: nat)
    requires v < 0x1_0000_0000
    ensures FromBe(BeBytes(v, 4)) == v
    ensures v < 0x100_0000 ==> BeBytes(v, 4)[0] == 0
  {
    FromBeOfBe(v, 4) by { Pow2Of64(); Pow2Sum(16, 16); Pow2Sum(8, 8); }
    FromBeOfFour(BeBytes(v, 4));
  }

  lemma WidthOverTopByte(v: nat, width: byte)
    requires v < 0x100_0000
    ensures FromBe(BeBytes(v, 4)[0 := width]) % 0x100_0000 == v
  {
    FourBytes(v);
    FromBeOfFour(BeBytes(v, 4));
    FromBeOfFour(BeBytes(v, 4)[0 := width]);
  }

  /** Where the parts of the control word stand: the low half of the length, the width, the rest of the length. */
  lemma ControlWordBytes(len: nat, width: byte)
    requires len <= MAX_LOGARRAY_LEN
    ensures var buf := ControlWord(len, width);
      FromBe(buf[..4]) == len % 0x1_0000_0000 && buf[4] == width && FromBe(buf[5..8]) == len / 0x1_0000_0000
  {
    var buf := ControlWord(len, width);
    var len1, len2 := len % 0x1_0000_0000, len / 0x1_0000_0000;
    assert buf[..4] == BeBytes(len1, 4) && buf[4..8] == BeBytes(len2, 4)[0 := width];
    FourBytes(len1);
    WidthOverTopByte(len2, width);
    ThreeBytes(buf[4..8]);
    assert buf[4..8][1..] == buf[5..8];
  }

  /** The three bytes behind the first of four. */
  lemma ThreeBytes(s: seq<byte>)
    requires |s| == 4
    ensures FromBe(s) % 0x100_0000 == FromBe(s[1..])
  {
    FromBeOfFour(s);
    FromBeOfFour([0] + s[1..]);
    FromBeOfThree(s[1..]);
  }

  lemma FromBeOfThree(s: seq<byte>)
    requires |s| == 3
    ensures FromBe(s) == 0x1_0000 * (s[0] as int) + 0x100 * (s[1] as int) + s[2] as int
  {
    assert s[..2][..1] == s[..1] && s[..1][..0] == [];
    assert FromBe(s[..1]) == s[0];
    assert FromBe(s[..2]) == 0x100 * (s[0] as int) + s[1] as int;
  }

  /** What is read from there. */
  lemma ParsedControlWord(buf: seq<byte>)
    requires |buf| >= 8
    ensures ParseControlWord(buf) == (FromBe(buf[..4]) + 0x1_0000_0000 * FromBe(buf[5..8]), buf[4])
  {
    ThreeBytes(buf[4..8]);
    assert buf[4..8][1..] == buf[5..8];
  }

  lemma ControlWordRoundTrip(len: nat, width: byte)
    requires len <= MAX_LOGARRAY_LEN
    ensures ParseControlWord(ControlWord(len, width)) == (len, width)
  {
    var buf := ControlWord(len, width);
    var len1, len2 := len % 0x1_0000_0000, len / 0x1_0000_0000;
    assert buf[..4] == BeBytes(len1, 4);
    assert buf[4..8] == BeBytes(len2, 4)[0 := width];
    FourBytes(len1);
    WidthOverTopByte(len2, width);
  }

  // Reading

  /** Words needed to read `width` bits from bit `bit` on are inside the buffer. */
  predicate InBuffer(buf: seq<byte>, bit: nat, width: nat) {
    bit / 64 * 8 + 8 <= |buf| && (bit % 64 + width > 64 ==> bit / 64 * 8 + 16 <= |buf|)
  }

  /** The element lies in one word: leading zeros in, then all the way to the right. */
  function FromOneWord(word: Word, offset: nat, width: nat): Word
    requires 1 <= width && offset + width <= 64
  {
    Shr(Shl(word, offset), 64 - width)
  }

  /** The element is split: the low end of the first word, then the top of the second. */
  function FromTwoWords(firstWord: Word, secondWord: Word, offset: nat, width: nat): Word
    requires offset < 64 && width <= 64 && offset + width > 64
  {
    var firstWidth := 64 - offset;
    var secondWidth := width - firstWidth;
    Or(Shl(Shr(Shl(firstWord, offset), offset), secondWidth), Shr(secondWord, 64 - secondWidth))
  }

  /** Reads one element: from one word, or from two when it crosses a word boundary. */
  function ReadElement(buf: seq<byte>, bit: nat, width: nat): Word
    requires 1 <= width <= 64 && InBuffer(buf, bit, width)
  {
    var at := bit / 64 * 8;
    var offset := bit % 64;
    if offset + width <= 64 then
      FromOneWord(ReadU64(buf, at), offset, width)
    else
      FromTwoWords(ReadU64(buf, at), ReadU64(buf, at + 8), offset, width)
  }

  /** The low `width` bits of the word `r` are the bits from `bit` on, and the others are zero. */
  ghost predicate IsField(r: Word, bits: seq<bool>, bit: nat, width: nat)
    requires width <= 64 && bit + width <= |bits|
  {
    forall i :: 0 <= i < 64 ==> r[i] == (i >= 64 - width && bits[bit + i - (64 - width)])
  }

  lemma OneWordElement(bits: seq<bool>, at: nat, w: Word, offset: nat, bit: nat, width: nat)
    requires width >= 1 && offset + width <= 64 && bit == at + offset && IsWord(w, bits, at)
    ensures IsField(FromOneWord(w, offset, width), bits, bit, width)
  {}

  lemma TwoWordElement(bits: seq<bool>, at: nat, w: Word, at': nat, w': Word, offset: nat, bit: nat, width: nat)
    requires offset < 64 && width <= 64 && offset + width > 64 && at' == at + 64 && bit == at + offset
    requires IsWord(w, bits, at) && IsWord(w', bits, at')
    ensures IsField(FromTwoWords(w, w', offset, width), bits, bit, width)
  {}

  lemma ElementAtIsField(bits: seq<bool>, at: nat, w: Word, w': Word, offset: nat, bit: nat, width: nat, r: Word)
    requires 1 <= width <= 64 && offset < 64 && bit == at + offset
    requires IsWord(w, bits, at) && (offset + width > 64 ==> IsWord(w', bits, at + 64))
    requires r == if offset + width <= 64 then FromOneWord(w, offset, width) else FromTwoWords(w, w', offset, width)
    ensures bit + width <= |bits|
    ensures IsField(r, bits, bit, width)
  {
    if offset + width <= 64 {
      OneWordElement(bits, at, w, offset, bit, width);
    } else {
      TwoWordElement(bits, at, w, at + 64, w', offset, bit, width);
    }
  }

  /** An element is made of its own `width` bits, whether or not they cross a word boundary. */
  lemma ElementIsField(buf: seq<byte>, bit: nat, width: nat)
    requires 1 <= width <= 64 && InBuffer(buf, bit, width)
    ensures bit + width <= 8 * |buf|
    ensures IsField(ReadElement(buf, bit, width), BufferBits(buf), bit, width)
  {
    var at, offset, w := bit / 64 * 8, bit % 64, ReadU64(buf, bit / 64 * 8);
    ReadU64Bits(buf, at);
    var w' := w;
    if offset + width > 64 {
      w' := ReadU64(buf, at + 8);
      ReadU64Bits(buf, at + 8);
    }
    ElementAtIsField(BufferBits(buf), 8 * at, w, w', offset, bit, width, ReadElement(buf, bit, width));
  }

  lemma FieldIsValue(r: Word, bits: seq<bool>, bit: nat, width: nat, v: u64)
    requires width <= 64 && v < Pow2(width) && bit + width <= |bits|
    requires IsField(r, bits, bit, width)
    requires forall k :: 0 <= k < width ==> bits[bit + k] == BitsOf(v, width)[k]
    ensures WordValue(r) == v
  {
    SmallWord(v, width);
    var w := ToWord(v);
    forall i | 0 <= i < 64
      ensures r[i] == w[i]
    {
      if i >= 64 - width {
        assert bits[bit + (i - (64 - width))] == BitsOf(v, width)[i - (64 - width)];
      }
    }
    assert r == w;
    WordOfValue(v);
  }

  lemma InBufferWhenWithin(buf: seq<byte>, bit: nat, width: nat, total: nat)
    requires 1 <= width <= 64 && bit + width <= total && (total + 63) / 64 * 8 <= |buf|
    ensures InBuffer(buf, bit, width)
  {}

  datatype LogArray = LogArray(first: nat, len: nat, width: nat, buf: seq<byte>) {
    /** Every element lies in whole words of the buffer. */
    ghost predicate Valid() {
      && width <= 64
      && (len > 0 ==> width >= 1)
      && (Span(width, first + len) + 63) / 64 * 8 <= |buf|
    }

    lemma EntryInBuffer(index: nat)
      requires Valid() && index < len
      ensures width * (first + index) == Span(width, first + index)
      ensures InBuffer(buf, Span(width, first + index), width)
    {
      SpanIsProduct(width, first + index);
      SpanMonotone(width, first + index + 1, first + len);
      InBufferWhenWithin(buf, Span(width, first + index), width, Span(width, first + len));
    }

    function Entry(index: nat): u64
      requires Valid() && index < len
    {
      EntryInBuffer(index);
      WordValue(ReadElement(buf, width * (first + index), width))
    }

    function Slice(offset: nat, length: nat): LogArray
      requires offset + length <= len
    {
      LogArray(first + offset, length, width, buf)
    }

    /** The array reads back as `vals`. */
    ghost predicate Holds(vals: seq<u64>) {
      && Valid()
      && len == |vals|
      && forall i :: 0 <= i < len ==> Entry(i) == vals[i]
    }

    lemma SliceValid(offset: nat, length: nat)
      requires Valid() && offset + length <= len
      ensures Slice(offset, length).Valid()
    {
      SpanMonotone(width, first + offset + length, first + len);
    }

    lemma SliceHolds(vals: seq<u64>, offset: nat, length: nat)
      requires Holds(vals) && offset + length <= len
      ensures Slice(offset, length).Holds(vals[offset..offset + length])
    {
      SliceValid(offset, length);
      var sub := Slice(offset, length);
      forall i | 0 <= i < length
        ensures sub.Entry(i) == vals[offset + i]
      {
        assert sub.first + i == first + (offset + i);
        assert sub.Entry(i) == Entry(offset + i);
      }
    }
  }

  function ExpectedSize(len: nat, width: nat): nat {
    (len * width + 127) / 64 * 8
  }

  function DataSize(len: nat, width: nat): nat {
    var bits := width * len;
    (bits / 64 + if bits % 64 == 0 then 0 else 1) * 8
  }

  function Parse(buf: seq<byte>): Result<LogArray, LogArrayError> {
    var size := |buf|;
    if size < 8 then
      Err(InputBufferTooSmall(size))
    else
      var (len, width) := ParseControlWord(buf[size - 8..]);
      if width > 64 then
        Err(WidthTooLarge(width))
      else if size != ExpectedSize(len, width) then
        Err(UnexpectedInputBufferSize(size, ExpectedSize(len, width), len, width))
      else
        Ok(LogArray(0, len, width, buf))
  }

  function ParseHeaderFirst(buf: seq<byte>): Result<(LogArray, seq<byte>), LogArrayError> {
    var size := |buf|;
    if size < 8 then
      Err(InputBufferTooSmall(size))
    else
      var (len, width) := ParseControlWord(buf[..8]);
      if width > 64 then
        Err(WidthTooLarge(width))
      else if size < ExpectedSize(len, width) then
        Err(UnexpectedInputBufferSize(size, ExpectedSize(len, width), len, width))
      else
        var numBytes := DataSize(len, width);
        DataSizeFits(len, width);
        Ok((LogArray(0, len, width, buf[8..8 + numBytes]), buf[8 + numBytes..]))
  }

  /** `data` is exactly the packed elements. */
  ghost predicate IsData(data: seq<byte>, vals: seq<u64>, width: nat) {
    IsPadded(data, Packed(vals, width))
  }

  ghost predicate Storable(vals: seq<u64>, width: nat) {
    && |vals| <= MAX_LOGARRAY_LEN
    && width <= 64
    && (vals != [] ==> width >= 1)
    && Fits(vals, width)
  }

  lemma DataSizeFits(len: nat, width: nat)
    ensures DataSize(len, width) == (Span(width, len) + 63) / 64 * 8
    ensures ExpectedSize(len, width) == DataSize(len, width) + 8
  {
    SpanIsProduct(width, len);
    SizeInWords(Span(width, len));
    assert len * width == width * len;
  }

  lemma SizeInWords(bits: nat)
    ensures (bits / 64 + if bits % 64 == 0 then 0 else 1) * 8 == (bits + 63) / 64 * 8
    ensures (bits + 127) / 64 * 8 == (bits + 63) / 64 * 8 + 8
  {}

  lemma DataHolds(data: seq<byte>, tail: seq<byte>, vals: seq<u64>, width: nat)
    requires Storable(vals, width) && IsData(data, vals, width)
    ensures LogArray(0, |vals|, width, data + tail).Holds(vals)
  {
    var a := LogArray(0, |vals|, width, data + tail);
    assert a.Valid();
    forall i | 0 <= i < a.len
      ensures a.Entry(i) == vals[i]
    {
      a.EntryInBuffer(i);
      PackedAt(vals, width, i);
      PaddedField(data, tail, Packed(vals, width), Span(width, i), width, vals[i]);
    }
  }

  lemma PaddedField(data: seq<byte>, tail: seq<byte>, bits: seq<bool>, bit: nat, width: nat, v: u64)
    requires IsPadded(data, bits) && bit + width <= |bits|
    requires 1 <= width <= 64 && v < Pow2(width) && InBuffer(data + tail, bit, width)
    requires forall k :: 0 <= k < width ==> bits[bit + k] == BitsOf(v, width)[k]
    ensures WordValue(ReadElement(data + tail, bit, width)) == v
  {
    BufferBitsAppend(data, tail);
    forall k | 0 <= k < width
      ensures BufferBits(data + tail)[bit + k] == BitsOf(v, width)[k]
    {
      assert BufferBits(data)[bit + k] == bits[bit + k];
    }
    FieldOfBuffer(data + tail, width, bit, v);
  }

  lemma FieldOfBuffer(buf: seq<byte>, width: nat, bit: nat, v: u64)
    requires 1 <= width <= 64 && v < Pow2(width) && InBuffer(buf, bit, width)
    requires bit + width <= 8 * |buf|
    requires forall k :: 0 <= k < width ==> BufferBits(buf)[bit + k] == BitsOf(v, width)[k]
    ensures WordValue(ReadElement(buf, bit, width)) == v
  {
    ElementIsField(buf, bit, width);
    FieldIsValue(ReadElement(buf, bit, width), BufferBits(buf), bit, width, v);
  }

  lemma ParseAccepts(data: seq<byte>, len: nat, width: nat)
    requires len <= MAX_LOGARRAY_LEN && width <= 64 && |data| == DataSize(len, width)
    ensures var buf := data + ControlWord(len, width);
      Parse(buf) == Ok(LogArray(0, len, width, buf))
  {
    var buf := data + ControlWord(len, width);
    assert buf[|data|..] == ControlWord(len, width);
    ControlWordRoundTrip(len, width);
    DataSizeFits(len, width);
  }

  /** Packing round trip: a finished buffer passes validation and reads back element by element. */
  lemma ParseUndoesBuild(data: seq<byte>, vals: seq<u64>, width: nat)
    requires Storable(vals, width) && IsData(data, vals, width)
    ensures var r := Parse(data + ControlWord(|vals|, width));
      r.Ok? && r.value.Holds(vals) && r.value.width == width
  {
    DataSizeFits(|vals|, width);
    ParseAccepts(data, |vals|, width);
    DataHolds(data, ControlWord(|vals|, width), vals, width);
  }

  ghost predicate HeaderFirstReadsBack(buf: seq<byte>, vals: seq<u64>, width: nat, rest: seq<byte>) {
    var r := ParseHeaderFirst(buf);
    r.Ok? && r.value.0.Holds(vals) && r.value.0.width == width && r.value.1 == rest
  }

  lemma ParseHeaderFirstAccepts(data: seq<byte>, len: nat, width: nat, rest: seq<byte>)
    requires len <= MAX_LOGARRAY_LEN && width <= 64 && |data| == DataSize(len, width)
    ensures ParseHeaderFirst(ControlWord(len, width) + data + rest) == Ok((LogArray(0, len, width, data), rest))
  {
    var buf := ControlWord(len, width) + data + rest;
    assert buf[..8] == ControlWord(len, width);
    ControlWordRoundTrip(len, width);
    DataSizeFits(len, width);
    assert buf[8..8 + |data|] == data && buf[8 + |data|..] == rest;
  }

  lemma ParseHeaderFirstUndoesBuild(data: seq<byte>, vals: seq<u64>, width: nat, rest: seq<byte>)
    requires Storable(vals, width) && IsData(data, vals, width)
    ensures HeaderFirstReadsBack(ControlWord(|vals|, width) + data + rest, vals, width, rest)
  {
    DataSizeFits(|vals|, width);
    ParseHeaderFirstAccepts(data, |vals|, width, rest);
    DataHolds(data, [], vals, width);
    assert data + [] == data;
  }

  // Writing

  /** `val` holds the bits of `field` in its low end, and zeros above. */
  ghost predicate Carries(val: Word, field: seq<bool>) {
    |field| <= 64 && forall i :: 0 <= i < 64 ==> val[i] == (i >= 64 - |field| && field[i - (64 - |field|)])
  }

  /** The current word with an element of `width` bits put behind the `offset` bits that it has. */
  function FillWord(current: Word, element: Word, width: nat, offset: nat): Word
    requires 1 <= width <= 64 && offset < 64
  {
    Or(current, Shr(Shl(element, 64 - width), offset))
  }

  /** The last `left` bits of an element, at the start of a word. */
  function RestOf(element: Word, left: nat): Word
    requires left < 64
  {
    if left == 0 then Zeros(64) else Shl(element, 64 - left)
  }

  /** The element fits in the word being filled. */
  lemma ElementFits(written: seq<bool>, current: Word, offset: nat, bits: seq<bool>, val: Word, field: seq<bool>,
                    filled: Word, offset': nat, bits': seq<bool>)
    requires Spells(written, current, offset, bits) && Carries(val, field)
    requires |field| >= 1 && offset' == offset + |field| < 64 && bits' == bits + field
    requires filled == FillWord(current, val, |field|, offset)
    ensures Spells(written, filled, offset', bits')
  {}

  /** The element fills the word; the low bits that did not fit start the next one. */
  lemma ElementFills(written: seq<bool>, current: Word, offset: nat, bits: seq<bool>, val: Word, field: seq<bool>,
                     full: Word, written': seq<bool>, rest: Word, left: nat, bits': seq<bool>)
    requires Spells(written, current, offset, bits) && Carries(val, field)
    requires |field| >= 1 && offset + |field| == 64 + left && bits' == bits + field
    requires full == FillWord(current, val, |field|, offset)
    requires Extends(written, full, written') && rest == RestOf(val, left)
    ensures Spells(written', rest, left, bits')
  {
    FullWord(current, offset, bits, val, field, full, |written|);
    NextWord(val, field, 64 - offset, rest);
    WordWritten(written, bits, full, written', field, bits');
  }

  /** The words written are the bits up to there. */
  lemma WordWritten(written: seq<bool>, bits: seq<bool>, full: Word, written': seq<bool>, field: seq<bool>,
                    bits': seq<bool>)
    requires |written| <= |bits| && |written| + 64 <= |bits'| && bits' == bits + field
    requires Extends(written, full, written')
    requires forall i :: 0 <= i < |written| ==> written[i] == bits[i]
    requires forall i :: 0 <= i < 64 ==> full[i] == bits'[|written| + i]
    ensures forall i :: 0 <= i < |written'| ==> written'[i] == bits'[i]
  {
    WindowsAgree(written', bits', full, |written|);
  }

  /** The word that is now full: what was there, and the first bits of the element. */
  lemma FullWord(current: Word, offset: nat, bits: seq<bool>, val: Word, field: seq<bool>, full: Word, n: nat)
    requires |bits| == n + offset && offset < 64 && offset + |field| >= 64 && |field| >= 1 && Carries(val, field)
    requires forall i :: 0 <= i < 64 ==> current[i] == (i < offset && bits[n + i])
    requires full == FillWord(current, val, |field|, offset)
    ensures forall i :: 0 <= i < 64 ==> full[i] == (bits + field)[n + i]
  {}

  lemma NextWord(val: Word, field: seq<bool>, used: nat, rest: Word)
    requires Carries(val, field) && 0 < used <= |field| && |field| - used < 64
    requires rest == RestOf(val, |field| - used)
    ensures forall i :: 0 <= i < 64 ==> rest[i] == (i < |field| - used && field[used + i])
  {}

  lemma AppendNext(a: seq<u64>, b: seq<u64>, i: nat)
    requires i < |b|
    ensures a + b[..i + 1] == a + b[..i] + [b[i]]
  {}

  /** What a builder holding `vals` has written out and pending. */
  ghost predicate HoldsPacked(written: seq<bool>, current: Word, offset: nat, vals: seq<u64>, width: nat) {
    Spells(written, current, offset, Packed(vals, width))
  }

  lemma PushedInRoom(written: seq<bool>, current: Word, offset: nat, vals: seq<u64>, width: nat, val: u64,
                     word: Word, filled: Word, offset': nat)
    requires HoldsPacked(written, current, offset, vals, width)
    requires 1 <= width <= 64 && offset' == offset + width < 64 && Carries(word, BitsOf(val, width))
    requires filled == FillWord(current, word, width, offset)
    ensures HoldsPacked(written, filled, offset', vals + [val], width)
  {
    PackedPush(vals, val, width);
    ElementFits(written, current, offset, Packed(vals, width), word, BitsOf(val, width), filled, offset',
                Packed(vals + [val], width));
  }

  lemma PushedOverEdge(written: seq<bool>, current: Word, offset: nat, vals: seq<u64>, width: nat, val: u64,
                       word: Word, filled: Word, written': seq<bool>, rest: Word, left: nat)
    requires HoldsPacked(written, current, offset, vals, width)
    requires 1 <= width <= 64 && offset + width == 64 + left && Carries(word, BitsOf(val, width))
    requires filled == FillWord(current, word, width, offset)
    requires Extends(written, filled, written')
    requires rest == RestOf(word, left)
    ensures HoldsPacked(written', rest, left, vals + [val], width)
  {
    PackedPush(vals, val, width);
    var bits, field := Packed(vals, width), BitsOf(val, width);
    ElementFills(written, current, offset, bits, word, field, filled, written', rest, left, bits + field);
  }

  lemma FlushedIsData(buf: seq<byte>, current: Word, offset: nat, vals: seq<u64>, width: nat, data: seq<byte>)
    requires HoldsPacked(BufferBits(buf), current, offset, vals, width)
    requires data == if offset != 0 then buf + PutU64(current) else buf
    ensures |vals| * width % 64 == offset && IsData(data, vals, width)
  {
    SpanIsProduct(width, |vals|);
    PutU64Bits(buf, current);
    Flushed(BufferBits(buf), current, offset, Packed(vals, width), BufferBits(data));
  }

  class LogArrayBufBuilder {
    var buf: seq<byte>
    const width: nat
    var current: Word
    var offset: nat
    var count: nat
    /** Everything pushed so far. */
    ghost var Contents: seq<u64>

    ghost predicate Valid()
      reads this
    {
      && width <= 64
      && count == |Contents|
      && (Contents != [] ==> width >= 1)
      && Fits(Contents, width)
      && offset < 64
      && HoldsPacked(BufferBits(buf), current, offset, Contents, width)
    }

    constructor (width: nat)
      requires width <= 64
      ensures Valid() && Contents == [] && this.width == width
    {
      this.width := width;
      buf, current, offset, count := [], Zeros(64), 0, 0;
      Contents := [];
    }

    method Push(val: u64)
      requires Valid()
      requires width >= 1 && val < Pow2(width)
      modifies this
      ensures Valid() && Contents == old(Contents) + [val]
    {
      var word := ToWord(val);
      var filled := FillWord(current, word, width, offset);
      SmallWord(val, width);
      if offset + width < 64 {
        PushedInRoom(BufferBits(buf), current, offset, Contents, width, val, word, filled, offset + width);
        current := filled;
        offset := offset + width;
        count := count + 1;
        Contents := Contents + [val];
      } else {
        PushOverEdge(val, word, filled);
      }
    }

    /** The element fills the word, which is written out; what is left of the element starts the next one. */
    method PushOverEdge(val: u64, word: Word, filled: Word)
      requires Valid() && 1 <= width && val < Pow2(width)
      requires Carries(word, BitsOf(val, width)) && 64 <= offset + width
      requires filled == FillWord(current, word, width, offset)
      modifies this
      ensures Valid() && Contents == old(Contents) + [val]
    {
      var left := offset + width - 64;
      var rest := RestOf(word, left);
      PutU64Bits(buf, filled);
      PushedOverEdge(BufferBits(buf), current, offset, Contents, width, val, word, filled,
                     BufferBits(buf + PutU64(filled)), rest, left);
      buf := buf + PutU64(filled);
      current := rest;
      offset := left;
      count := count + 1;
      Contents := Contents + [val];
    }

    method PushVec(vals: seq<u64>)
      requires Valid()
      requires vals != [] ==> width >= 1
      requires Fits(vals, width)
      modifies this
      ensures Valid() && Contents == old(Contents) + vals
    {
      ghost var before := Contents;
      for i := 0 to |vals|
        invariant Valid() && Contents == before + vals[..i]
      {
        AppendNext(before, vals, i);
        Push(vals[i]);
      }
      assert before + vals[..|vals|] == before + vals;
    }

    method FinalizeData()
      requires Valid()
      modifies this
      ensures IsData(buf, old(Contents), width)
    {
      FlushedIsData(buf, current, offset, Contents, width, if offset != 0 then buf + PutU64(current) else buf);
      if count * width % 64 != 0 {
        buf := buf + PutU64(current);
      }
    }

    method Finalize() returns (r: seq<byte>)
      requires Valid() && |Contents| <= MAX_LOGARRAY_LEN
      modifies this
      ensures IsData(buf, old(Contents), width) && r == buf + ControlWord(|old(Contents)|, width)
      ensures Parse(r).Ok? && Parse(r).value.Holds(old(Contents)) && Parse(r).value.width == width
    {
      var len := count;
      FinalizeData();
      r := buf + ControlWord(len, width);
      ParseUndoesBuild(buf, old(Contents), width);
    }
  }

  ghost predicate HoldsNats(a: LogArray, vals: seq<nat>) {
    (forall i :: 0 <= i < |vals| ==> vals[i] < WORD) && a.Holds(vals)
  }

  // Late builder: the width is known only at the end

  /** `64 - v.leading_zeros()` */
  function BitLength(v: nat): nat {
    if v == 0 then 0 else 1 + BitLength(v / 2)
  }

  function CalculateWidth(v: nat): nat {
    if BitLength(v) == 0 then 1 else BitLength(v)
  }

  lemma {:induction false} BitLengthBounds(v: nat, n: nat)
    ensures BitLength(v) <= n <==> v < Pow2(n)
  {
    if v > 0 && n > 0 {
      BitLengthBounds(v / 2, n - 1);
    }
  }

  /** The width is the least positive one the value fits in. */
  lemma CalculateWidthIsLeast(v: u64, n: nat)
    requires n >= 1
    ensures CalculateWidth(v) <= n <==> v < Pow2(n)
    ensures 1 <= CalculateWidth(v) <= 64
  {
    BitLengthBounds(v, n);
    BitLengthBounds(v, 64);
    Pow2Of64();
  }

  /** The least positive width that all values fit in; none is needed for no values. */
  ghost predicate IsWidthOf(width: nat, vals: seq<nat>) {
    && (width == 0 <==> vals == [])
    && (forall i :: 0 <= i < |vals| ==> vals[i] < Pow2(width))
    && (width > 1 ==> exists i :: 0 <= i < |vals| && vals[i] >= Pow2(width - 1))
  }

  /** One more value: the width grows to that of the value if that is greater. */
  lemma WidthPush(width: nat, vals: seq<nat>, val: u64, w: nat)
    requires IsWidthOf(width, vals) && w == CalculateWidth(val)
    ensures IsWidthOf(if width < w then w else width, vals + [val])
  {
    var width', vals' := if width < w then w else width, vals + [val];
    CalculateWidthIsLeast(val, w);
    Pow2Monotone(width, width');
    Pow2Monotone(w, width');
    if width' > 1 {
      if width < w {
        CalculateWidthIsLeast(val, w - 1);
        assert vals'[|vals|] >= Pow2(width' - 1);
      } else {
        var i :| 0 <= i < |vals| && vals[i] >= Pow2(width - 1);
        assert vals'[i] >= Pow2(width' - 1);
      }
    }
  }

  class LateLogArrayBufBuilder {
    var vals: seq<u64>
    var width: nat
    /** Everything ever pushed, what was popped again included. */
    ghost var Pushed: seq<u64>

    ghost predicate Valid()
      reads this
    {
      && width <= 64
      && (vals != [] ==> width >= 1)
      && Fits(vals, width)
      && IsWidthOf(width, Pushed)
    }

    constructor ()
      ensures Valid() && vals == [] && Pushed == []
    {
      vals, width, Pushed := [], 0, [];
    }

    method Push(val: u64)
      requires Valid()
      modifies this
      ensures Valid() && vals == old(vals) + [val] && Pushed == old(Pushed) + [val]
    {
      vals := vals + [val];
      var w := CalculateWidth(val);
      CalculateWidthIsLeast(val, w);
      WidthPush(width, Pushed, val, w);
      Pushed := Pushed + [val];
      if width < w {
        width := w;
      }
      forall i | 0 <= i < |vals|
        ensures vals[i] < Pow2(width)
      {
        Pow2Monotone(old(width), width);
        Pow2Monotone(w, width);
      }
    }

    method Pop() returns (r: Option<u64>)
      requires Valid()
      modifies this`vals
      ensures Valid()
      ensures if old(vals) == [] then r == None && vals == []
              else r == Some(old(vals)[|old(vals)| - 1]) && vals == old(vals)[..|old(vals)| - 1]
    {
      if vals == [] {
        r := None;
      } else {
        r := Some(vals[|vals| - 1]);
        vals := vals[..|vals| - 1];
      }
    }

    method Finalize() returns (r: seq<byte>)
      requires Valid() && |vals| <= MAX_LOGARRAY_LEN
      ensures Parse(r).Ok? && Parse(r).value.Holds(vals)
      ensures Parse(r).value.width == width && IsWidthOf(width, Pushed)
    {
      var builder := new LogArrayBufBuilder(width);
      builder.PushVec(vals);
      assert builder.Contents == vals;
      r := builder.Finalize();
    }

    /** The header goes in front; whatever follows the array in the buffer is handed back. */
    method FinalizeHeaderFirst() returns (r: seq<byte>)
      requires Valid() && |vals| <= MAX_LOGARRAY_LEN
      ensures forall rest :: HeaderFirstReadsBack(r + rest, vals, width, rest)
      ensures IsWidthOf(width, Pushed)
    {
      var word := ControlWord(|vals|, width);
      var builder := new LogArrayBufBuilder(width);
      builder.PushVec(vals);
      assert builder.Contents == vals;
      builder.FinalizeData();
      ghost var data := builder.buf;
      r := word + builder.buf;
      forall rest
        ensures HeaderFirstReadsBack(r + rest, vals, width, rest)
      {
        ParseHeaderFirstUndoesBuild(data, vals, width, rest);
      }
    }
  }

  // Searching a sorted array

  ghost predicate Sorted(vals: seq<nat>) {
    forall i, j :: 0 <= i <= j < |vals| ==> vals[i] <= vals[j]
  }

  /** The check of a build with debug assertions: whether no element is less than the one before it. */
  method IsMonotonic(a: LogArray, ghost vals: seq<u64>) returns (r: bool)
    requires a.Holds(vals)
    ensures r <==> Sorted(vals)
  {
    if a.len == 0 {
      return true;
    }
    var pred := a.Entry(0);
    for i := 1 to a.len
      invariant pred == vals[i - 1] && Sorted(vals[..i])
    {
      var succ := a.Entry(i);
      SortedStep(vals, i);
      if pred > succ {
        return false;
      }
      pred := succ;
    }
    assert vals[..a.len] == vals;
    r := true;
  }

  lemma SortedStep(vals: seq<u64>, i: nat)
    requires 1 <= i < |vals| && Sorted(vals[..i])
    ensures Sorted(vals[..i + 1]) <==> vals[i - 1] <= vals[i]
    ensures vals[i - 1] > vals[i] ==> !Sorted(vals)
  {
    forall j | 0 <= j < i
      ensures vals[j] <= vals[i - 1]
    {
      assert vals[..i][j] <= vals[..i][i - 1];
    }
    if Sorted(vals[..i + 1]) {
      assert vals[..i + 1][i - 1] <= vals[..i + 1][i];
    }
  }

  /** `MonotonicLogArray::parse`: the array or what is wrong with the buffer; nothing where the check fails. */
  method ParseMonotonic(bytes: seq<byte>, ghost vals: seq<nat>) returns (r: Option<Result<LogArray, LogArrayError>>)
    requires Parse(bytes).Ok? ==> HoldsNats(Parse(bytes).value, vals)
    ensures r == if Parse(bytes).Ok? && !Sorted(vals) then None else Some(Parse(bytes))
  {
    var parsed := Parse(bytes);
    if parsed.Err? {
      return Some(parsed);
    }
    var monotonic := IsMonotonic(parsed.value, vals);
    r := if monotonic then Some(parsed) else None;
  }

  /** Where `element` is, or else the place it would be inserted at. */
  method NearestIndexOf(a: LogArray, element: u64, ghost vals: seq<u64>) returns (r: nat)
    requires a.Holds(vals) && Sorted(vals)
    ensures r <= |vals|
    ensures (r < |vals| && vals[r] == element)
      || ((forall i :: 0 <= i < r ==> vals[i] < element) && (forall i :: r <= i < |vals| ==> element < vals[i]))
  {
    if a.len == 0 {
      return 0;
    }
    var min, max := 0, a.len - 1;
    while min <= max
      invariant 0 <= min <= max + 1 <= |vals|
      invariant forall i :: 0 <= i < min ==> vals[i] < element
      invariant forall i :: max < i < |vals| ==> element < vals[i]
    {
      var mid := (min + max) / 2;
      var e := a.Entry(mid);
      if element == e {
        return mid;
      } else if element > e {
        min := mid + 1;
      } else {
        if mid == 0 {
          return 0;
        }
        max := mid - 1;
      }
    }
    return (min + max) / 2 + 1;
  }

  method IndexOf(a: LogArray, element: u64, ghost vals: seq<u64>) returns (r: Option<nat>)
    requires a.Holds(vals) && Sorted(vals)
    ensures r.None? <==> element !in vals
    ensures r.Some? ==> r.value < |vals| && vals[r.value] == element
  {
    var index := NearestIndexOf(a, element, vals);
    if index >= a.len || a.Entry(index) != element {
      r := None;
    } else {
      r := Some(index);
    }
  }
}
