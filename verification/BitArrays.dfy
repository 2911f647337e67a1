/** Plain bit arrays: builder, reader and the iterator over their 64-bit blocks. */
module BitArrays {
  import opened Words
  import opened BitStreams
  import opened Results

  datatype BitArrayError =
    | InputBufferTooSmall(size: nat)
    | UnexpectedInputBufferSize(size: nat, expected: nat, len: nat)

  datatype BitArray = BitArray(len: u64, buf: seq<byte>) {
    /** The array holds exactly `bits`; the buffer pads them with zeros. */
    ghost predicate Holds(bits: seq<bool>) {
      len == |bits| && IsPadded(buf, bits)
    }

    function Get(index: nat): bool
      requires index / 8 < |buf|
    {
      BitsOf(buf[index / 8], 8)[index % 8]
    }

    /** Every bit reads back as it was stored. */
    lemma GetIsBit(bits: seq<bool>, index: nat)
      requires Holds(bits) && index < len
      ensures index / 8 < |buf| && Get(index) == bits[index]
    {
      assert index < 8 * |buf|;
      BitOfByte(buf, index / 8, index % 8);
    }
  }

  lemma {:induction false} BitOfByte(buf: seq<byte>, at: nat, k: nat)
    requires at < |buf| && k < 8
    ensures BufferBits(buf)[8 * at + k] == BitsOf(buf[at], 8)[k]
  {
    if at < |buf| - 1 {
      BitOfByte(buf[..|buf| - 1], at, k);
    }
  }

  function ExpectedSize(len: nat): nat {
    if len % 64 == 0 then len / 64 * 8 + 8 else len / 64 * 8 + 16
  }

  function ParseBits(buf: seq<byte>): Result<BitArray, BitArrayError> {
    var size := |buf|;
    if size < 8 then
      Err(InputBufferTooSmall(size))
    else
      var len := WordValue(ReadU64(buf, size - 8));
      if size != ExpectedSize(len) then
        Err(UnexpectedInputBufferSize(size, ExpectedSize(len), len))
      else
        Ok(BitArray(len, buf[..size - 8]))
  }

  lemma SizeInBytes(len: nat)
    ensures ExpectedSize(len) == (len + 63) / 64 * 8 + 8
  {}

  lemma LastWord(data: seq<byte>, w: Word)
    ensures ReadU64(data + PutU64(w), |data|) == w
  {
    PutU64Bits(data, w);
    ReadU64Bits(data + PutU64(w), |data|);
    var r := ReadU64(data + PutU64(w), |data|);
    forall i | 0 <= i < 64
      ensures r[i] == w[i]
    {
      assert w[i] == BufferBits(data + PutU64(w))[8 * |data| + i];
    }
    assert r == w;
  }

  /** A finished buffer: the padded bits, then their number. */
  ghost predicate IsBuffer(buf: seq<byte>, bits: seq<bool>) {
    && |bits| < WORD
    && |buf| == (|bits| + 63) / 64 * 8 + 8
    && IsPadded(buf[..|buf| - 8], bits)
    && buf[|buf| - 8..] == PutU64(ToWord(|bits|))
  }

  /** Round trip: a finished buffer parses to the bits pushed. */
  lemma ParseBitsUndoesBuild(buf: seq<byte>, bits: seq<bool>)
    requires IsBuffer(buf, bits)
    ensures ParseBits(buf).Ok? && ParseBits(buf).value.Holds(bits)
  {
    var data := buf[..|buf| - 8];
    assert buf == data + PutU64(ToWord(|bits|));
    LastWord(data, ToWord(|bits|));
    WordOfValue(|bits|);
    SizeInBytes(|bits|);
  }

  /** The word with only its top bit set. */
  const TOP_BIT: Word := [true] + Zeros(63)

  lemma BitFits(written: seq<bool>, current: Word, offset: nat, bits: seq<bool>, bit: bool, current': Word)
    requires Spells(written, current, offset, bits)
    requires current' == if bit then Or(current, Shr(TOP_BIT, offset)) else current
    ensures forall i :: 0 <= i < offset + 1 ==> current'[i] == (bits + [bit])[|written| + i]
    ensures forall i :: offset + 1 <= i < 64 ==> !current'[i]
  {}

  lemma BitPushed(written: seq<bool>, current: Word, count: nat, bits: seq<bool>, bit: bool,
                  written': seq<bool>, current': Word, filled: Word)
    requires Spells(written, current, count % 64, bits)
    requires filled == if bit then Or(current, Shr(TOP_BIT, count % 64)) else current
    requires if (count + 1) % 64 == 0 then Extends(written, filled, written') && current' == Zeros(64)
             else written' == written && current' == filled
    ensures Spells(written', current', (count + 1) % 64, bits + [bit])
  {
    BitFits(written, current, count % 64, bits, bit, filled);
    if (count + 1) % 64 == 0 {
      WindowsAgree(written', bits + [bit], filled, |written|);
    }
  }

  class BitArrayBufBuilder {
    var dest: seq<byte>
    var current: Word
    var count: nat
    /** Everything pushed so far. */
    ghost var Contents: seq<bool>

    ghost predicate Valid()
      reads this
    {
      count == |Contents| && Spells(BufferBits(dest), current, count % 64, Contents)
    }

    constructor ()
      ensures Valid() && Contents == []
    {
      dest, current, count := [], Zeros(64), 0;
      Contents := [];
    }

    method Push(bit: bool)
      requires Valid()
      modifies this
      ensures Valid() && Contents == old(Contents) + [bit]
    {
      ghost var written, before := BufferBits(dest), current;
      if bit {
        var pos := count % 64;
        current := Or(current, Shr(TOP_BIT, pos));
      }
      ghost var filled := current;
      count := count + 1;
      if count % 64 == 0 {
        PutU64Bits(dest, current);
        dest := dest + PutU64(current);
        current := Zeros(64);
      }
      BitPushed(written, before, count - 1, Contents, bit, BufferBits(dest), current, filled);
      Contents := Contents + [bit];
    }

    method PushAll(bits: seq<bool>)
      requires Valid()
      modifies this
      ensures Valid() && Contents == old(Contents) + bits
    {
      ghost var before := Contents;
      for i := 0 to |bits|
        invariant Valid() && Contents == before + bits[..i]
      {
        AppendNext(before, bits, i);
        Push(bits[i]);
      }
      assert bits[..|bits|] == bits;
    }

    method Finalize() returns (r: seq<byte>)
      requires Valid() && |Contents| < WORD
      modifies this
      ensures IsBuffer(r, old(Contents))
    {
      var n := count;
      FinishedBits(dest, current, Contents);
      if n % 64 != 0 {
        dest := dest + PutU64(current);
      }
      r := dest + PutU64(ToWord(n));
      assert r[..|r| - 8] == dest;
    }
  }

  lemma AppendNext(a: seq<bool>, b: seq<bool>, i: nat)
    requires i < |b|
    ensures a + b[..i + 1] == a + b[..i] + [b[i]]
  {}

  lemma FinishedBits(dest: seq<byte>, current: Word, bits: seq<bool>)
    requires Spells(BufferBits(dest), current, |bits| % 64, bits)
    ensures IsPadded(if |bits| % 64 != 0 then dest + PutU64(current) else dest, bits)
  {
    var data := if |bits| % 64 != 0 then dest + PutU64(current) else dest;
    PutU64Bits(dest, current);
    Flushed(BufferBits(dest), current, |bits| % 64, bits, BufferBits(data));
  }

  // Blocks

  /** All whole words of a buffer. */
  function WordsOf(buf: seq<byte>): (s: seq<Word>)
    ensures |s| == |buf| / 8
  {
    seq(|buf| / 8, i requires 0 <= i < |buf| / 8 => ReadU64(buf, 8 * i))
  }

  lemma ReadInSlice(buf: seq<byte>, lo: nat, hi: nat, at: nat, at': nat)
    requires lo <= hi <= |buf| && at + 8 <= hi - lo && at' == lo + at
    ensures ReadU64(buf[lo..hi], at) == ReadU64(buf, at')
  {
    BufferBitsSlice(buf, lo, hi);
    var w, w' := ReadU64(buf[lo..hi], at), ReadU64(buf, at');
    forall i | 0 <= i < 64
      ensures w[i] == w'[i]
    {
      assert w[i] == BufferBits(buf[lo..hi])[8 * at + i] == BufferBits(buf)[8 * lo + (8 * at + i)];
    }
    assert w == w';
  }

  lemma WordsOfRest(buf: seq<byte>)
    requires |buf| >= 8
    ensures WordsOf(buf) == [ReadU64(buf, 0)] + WordsOf(buf[8..])
  {
    assert buf[8..] == buf[8..|buf|];
    forall i | 0 <= i < |buf| / 8 - 1
      ensures ReadU64(buf[8..], 8 * i) == ReadU64(buf, 8 * (i + 1))
    {
      ReadInSlice(buf, 8, |buf|, 8 * i, 8 * (i + 1));
    }
  }

  lemma OneBehind<T>(x: T, s: seq<T>)
    requires s != []
    ensures ([x] + s)[..|s|] == [x] + s[..|s| - 1]
    ensures ([x] + s[..|s| - 1])[1..] == s[..|s| - 1]
  {}

  /** Iterates over the words of a bit array buffer, one word behind, so that the final word (the
      length) is never handed out. */
  class BitArrayBlockIterator {
    var buf: seq<byte>
    var readahead: Option<Word>
    /** The words still to be handed out. */
    ghost var Rest: seq<Word>

    ghost predicate Valid()
      reads this
    {
      Rest == AllButLast((if readahead.Some? then [readahead.value] else []) + WordsOf(buf))
    }

    constructor (buf: seq<byte>)
      ensures Valid() && Rest == AllButLast(WordsOf(buf))
    {
      this.buf := buf;
      readahead := None;
      Rest := AllButLast([] + WordsOf(buf));
    }

    method Next() returns (r: Option<Word>)
      requires Valid()
      modifies this
      ensures Valid()
      ensures if old(Rest) == [] then r == None && Rest == []
              else r == Some(old(Rest)[0]) && Rest == old(Rest)[1..]
      decreases |buf|
    {
      if |buf| < 8 {
        return None;
      }
      var word := ReadU64(buf, 0);
      WordsOfRest(buf);
      var previous := readahead;
      buf := buf[8..];
      readahead := Some(word);
      if previous.Some? {
        OneBehind(previous.value, [word] + WordsOf(buf));
        r := previous;
        Rest := Rest[1..];
      } else {
        r := Next();
      }
    }
  }

  /** The iterator over a finished buffer hands out exactly the blocks of the bits. */
  lemma BlocksOfBuffer(buf: seq<byte>, bits: seq<bool>)
    requires IsBuffer(buf, bits)
    ensures |WordsOf(buf)| == (|bits| + 63) / 64 + 1
    ensures AllButLast(WordsOf(buf)) == WordsOf(buf[..|buf| - 8])
  {
    var n := |buf| / 8 - 1;
    assert buf[..|buf| - 8] == buf[0..|buf| - 8];
    forall i | 0 <= i < n
      ensures ReadU64(buf, 8 * i) == ReadU64(buf[..|buf| - 8], 8 * i)
    {
      ReadInSlice(buf, 0, |buf| - 8, 8 * i, 8 * i);
    }
  }
}
