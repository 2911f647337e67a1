/** Front-coded blocks: up to eight strings, each stored as what it shares with the one before and the rest. */
module DictBlocks {
  import opened Words
  import opened Results
  import opened ByteStrings
  import V = VariableBytes

  const BLOCK_SIZE := 8

  datatype SizedDictError = InvalidCoding | NotEnoughData | Panicked

  // The control word: the record size and the number of entries

  predicate KnownSize(recordSize: Option<nat>) {
    recordSize == None || recordSize == Some(4) || recordSize == Some(8)
  }

  function RecordSizeEncoding(recordSize: Option<nat>): nat
    requires KnownSize(recordSize)
  {
    match recordSize
    case None => 0
    case Some(n) => if n == 4 then 3 * 8 else 4 * 8
  }

  function CreateBlockControlWord(recordSize: Option<nat>, records: nat): byte
    requires KnownSize(recordSize) && 1 <= records <= BLOCK_SIZE
  {
    records - 1 + RecordSizeEncoding(recordSize)
  }

  function RecordSizeDecoding(enc: byte): Result<Option<nat>, SizedDictError> {
    if enc / 8 == 0 then Ok(None)
    else if enc / 8 == 3 then Ok(Some(4))
    else if enc / 8 == 4 then Ok(Some(8))
    else Err(Panicked)
  }

  function ParseBlockControlRecords(cw: byte): nat {
    cw % 8 + 1
  }

  lemma ControlWordRoundTrip(recordSize: Option<nat>, records: nat)
    requires KnownSize(recordSize) && 1 <= records <= BLOCK_SIZE
    ensures RecordSizeDecoding(CreateBlockControlWord(recordSize, records)) == Ok(recordSize)
    ensures ParseBlockControlRecords(CreateBlockControlWord(recordSize, records)) == records
  {}

  /** The control word: the code of the record size in the upper bits, the number of entries less one below. */
  lemma ControlWordBits(recordSize: Option<nat>, records: nat)
    requires KnownSize(recordSize) && 1 <= records <= BLOCK_SIZE
    ensures var cw := CreateBlockControlWord(recordSize, records);
      && (cw / 8 == 0 <==> recordSize == None)
      && (cw / 8 == 3 <==> recordSize == Some(4))
      && (cw / 8 == 4 <==> recordSize == Some(8))
      && cw % 8 + 1 == records
  {}

  /** What is read from any byte: these three codes, and a panic for all others. */
  lemma ControlWordRead(cw: byte)
    ensures RecordSizeDecoding(cw) == Ok(None) <==> cw < 8
    ensures RecordSizeDecoding(cw) == Ok(Some(4)) <==> 24 <= cw < 32
    ensures RecordSizeDecoding(cw) == Ok(Some(8)) <==> 32 <= cw < 40
    ensures RecordSizeDecoding(cw) == Err(Panicked) <==> 8 <= cw < 24 || 40 <= cw
  {}

  // What a block of strings is

  /** Strings a block can hold. */
  predicate Blockable(recordSize: Option<nat>, strings: seq<Bytes>) {
    && 1 <= |strings| <= BLOCK_SIZE
    && KnownSize(recordSize)
    && (forall i :: 0 <= i < |strings| ==> |strings[i]| < WORD)
    && (recordSize.Some? ==> forall i :: 0 <= i < |strings| ==> |strings[i]| == recordSize.value)
  }

  /** Bytes shared by entry `i` and the one before it. */
  function Shared(strings: seq<Bytes>, i: nat): nat
    requires 1 <= i < |strings|
  {
    CommonPrefix(strings[i - 1], strings[i])
  }

  function Suffix(strings: seq<Bytes>, i: nat): Bytes
    requires 1 <= i < |strings|
  {
    strings[i][Shared(strings, i)..]
  }

  function SuffixesFrom(strings: seq<Bytes>, i: nat): Bytes
    requires 1 <= i
    decreases |strings| - i
  {
    if i >= |strings| then [] else Suffix(strings, i) + SuffixesFrom(strings, i + 1)
  }

  /** The shared lengths of the first `n` slots of a header; slots without an entry are 0. */
  function Shareds(strings: seq<Bytes>, n: nat): (s: seq<nat>)
    ensures |s| == BLOCK_SIZE - 1
    ensures forall k :: 0 <= k < |s| ==> s[k] == if k < n && k + 1 < |strings| then Shared(strings, k + 1) else 0
  {
    seq(BLOCK_SIZE - 1, k requires 0 <= k => if k < n && k + 1 < |strings| then Shared(strings, k + 1) else 0)
  }

  function Sizes(strings: seq<Bytes>, n: nat): (s: seq<nat>)
    ensures |s| == BLOCK_SIZE - 1
    ensures forall k :: 0 <= k < |s| ==> s[k] == if k < n && k + 1 < |strings| then |Suffix(strings, k + 1)| else 0
  {
    seq(BLOCK_SIZE - 1, k requires 0 <= k => if k < n && k + 1 < |strings| then |Suffix(strings, k + 1)| else 0)
  }

  /** The lengths stored for one entry: the suffix length is left out when the record size gives it. */
  function LengthsOf(recordSize: Option<nat>, shared: nat, size: nat): Bytes {
    V.Encode(shared) + (if recordSize == None then V.Encode(size) else [])
  }

  /** The lengths stored for the entries from `i` on. */
  function LengthsFrom(recordSize: Option<nat>, strings: seq<Bytes>, i: nat): Bytes
    requires 1 <= i
    decreases |strings| - i
  {
    if i >= |strings| then []
    else
      LengthsOf(recordSize, Shared(strings, i), |Suffix(strings, i)|) + LengthsFrom(recordSize, strings, i + 1)
  }

  /** The whole block. */
  function BlockBytes(recordSize: Option<nat>, strings: seq<Bytes>): Bytes
    requires Blockable(recordSize, strings)
  {
    [CreateBlockControlWord(recordSize, |strings|)] + V.Encode(|strings[0]|) + strings[0]
    + LengthsFrom(recordSize, strings, 1) + SuffixesFrom(strings, 1)
  }

  lemma LengthsOfTwo(recordSize: Option<nat>, strings: seq<Bytes>, n: nat)
    requires |strings| == 2 && n == Shared(strings, 1)
    ensures LengthsFrom(recordSize, strings, 1) ==
      V.Encode(n) + if recordSize == None then V.Encode(|strings[1]| - n) else []
  {
    assert LengthsFrom(recordSize, strings, 2) == [];
    assert LengthsFrom(recordSize, strings, 1) == LengthsOf(recordSize, n, |strings[1]| - n) + [];
  }

  lemma SuffixesOfTwo(strings: seq<Bytes>, n: nat)
    requires |strings| == 2 && n == Shared(strings, 1)
    ensures SuffixesFrom(strings, 1) == strings[1][n..]
  {
    assert SuffixesFrom(strings, 2) == [];
    assert SuffixesFrom(strings, 1) == strings[1][n..] + [];
  }

  /** A block of two strings, part by part. */
  lemma BlockOfTwo(recordSize: Option<nat>, strings: seq<Bytes>, n: nat)
    requires Blockable(recordSize, strings) && |strings| == 2 && n == CommonPrefix(strings[0], strings[1])
    ensures BlockBytes(recordSize, strings) ==
      [if recordSize == None then 0x01 else if recordSize == Some(4) then 0x19 else 0x21]
      + V.Encode(|strings[0]|) + strings[0]
      + (V.Encode(n) + if recordSize == None then V.Encode(|strings[1]| - n) else [])
      + strings[1][n..]
  {
    LengthsOfTwo(recordSize, strings, n);
    SuffixesOfTwo(strings, n);
  }

  /** Sum of the first `n`. */
  function Sum(s: seq<nat>, n: nat): nat
    requires n <= |s|
  {
    if n == 0 then 0 else Sum(s, n - 1) + s[n - 1]
  }

  // Building

  method BuildEntry(recordSize: Option<nat>, last: Bytes, cur: Bytes) returns (lengths: Bytes, size: nat, suffix: Bytes)
    requires |cur| < WORD
    ensures suffix == cur[CommonPrefix(last, cur)..]
    ensures lengths == LengthsOf(recordSize, CommonPrefix(last, cur), |suffix|) && size == |lengths|
  {
    var commonPrefix := FindCommonPrefix(last, cur);
    suffix := cur[commonPrefix..];
    lengths, size := BuildLengths(recordSize, commonPrefix, |cur| - commonPrefix);
  }

  /** The stored lengths, and the suffixes still to be written. */
  method BuildEntries(recordSize: Option<nat>, slices: seq<Bytes>) returns (r: Bytes, size: nat, suffixes: seq<Bytes>)
    requires Blockable(recordSize, slices)
    ensures r == LengthsFrom(recordSize, slices, 1) && size == |r|
    ensures Joined(suffixes) == SuffixesFrom(slices, 1)
  {
    r, size, suffixes := [], 0, [];
    var last := slices[0];
    for i := 1 to |slices|
      invariant last == slices[i - 1] && size == |r|
      invariant r + LengthsFrom(recordSize, slices, i) == LengthsFrom(recordSize, slices, 1)
      invariant Joined(suffixes) + SuffixesFrom(slices, i) == SuffixesFrom(slices, 1)
    {
      var lengths, lengthsLen, suffix := BuildEntry(recordSize, last, slices[i]);
      LengthsStep(recordSize, slices, i, r, Shared(slices, i), |suffix|);
      JoinedPush(suffixes, suffix, SuffixesFrom(slices, i + 1));
      r, size := r + lengths, size + lengthsLen;
      suffixes := suffixes + [suffix];
      last := slices[i];
    }
    assert r + [] == r;
    assert Joined(suffixes) + [] == Joined(suffixes);
  }

  method WriteAll(suffixes: seq<Bytes>) returns (r: Bytes, size: nat)
    ensures r == Joined(suffixes) && size == |r|
  {
    r, size := [], 0;
    for i := 0 to |suffixes|
      invariant size == |r| && r == Joined(suffixes[..i])
    {
      JoinedPush(suffixes[..i], suffixes[i], []);
      assert suffixes[..i + 1] == suffixes[..i] + [suffixes[i]];
      r, size := r + suffixes[i], size + |suffixes[i]|;
    }
    assert suffixes[..|suffixes|] == suffixes;
  }

  /** Appends the block of the strings to a buffer and returns how many bytes it took. */
  method BuildBlockUnchecked(recordSize: Option<nat>, buf: Bytes, slices: seq<Bytes>) returns (r: Bytes, size: nat)
    requires Blockable(recordSize, slices)
    ensures r == buf + BlockBytes(recordSize, slices) && size == |BlockBytes(recordSize, slices)|
  {
    var cw := CreateBlockControlWord(recordSize, |slices|);
    var vbyte, vbyteLen := V.EncodeArray(|slices[0]|);
    var lengths, lengthsSize, suffixes := BuildEntries(recordSize, slices);
    var rest, restSize := WriteAll(suffixes);
    size := 1 + vbyteLen + |slices[0]| + lengthsSize + restSize;
    r := buf + ([cw] + vbyte[..vbyteLen] + slices[0] + lengths + rest);
  }

  method BuildLengths(recordSize: Option<nat>, commonPrefix: u64, suffixLen: u64) returns (r: Bytes, size: nat)
    ensures r == LengthsOf(recordSize, commonPrefix, suffixLen) && size == |r|
  {
    var vbyte, vbyteLen := V.EncodeArray(commonPrefix);
    r, size := vbyte[..vbyteLen], vbyteLen;
    if recordSize == None {
      var more, moreLen := V.EncodeArray(suffixLen);
      r, size := r + more[..moreLen], size + moreLen;
    }
  }

  function Joined(chunks: seq<Bytes>): Bytes {
    if chunks == [] then [] else Joined(chunks[..|chunks| - 1]) + chunks[|chunks| - 1]
  }

  lemma JoinedPush(chunks: seq<Bytes>, c: Bytes, rest: Bytes)
    ensures Joined(chunks + [c]) == Joined(chunks) + c
    ensures Joined(chunks + [c]) + rest == Joined(chunks) + (c + rest)
  {
    assert (chunks + [c])[..|chunks|] == chunks;
  }

  lemma LengthsStep(recordSize: Option<nat>, strings: seq<Bytes>, i: nat, out: Bytes, shared: nat, size: nat)
    requires 1 <= i < |strings| && shared == Shared(strings, i) && size == |Suffix(strings, i)|
    ensures out + LengthsFrom(recordSize, strings, i)
         == out + LengthsOf(recordSize, shared, size) + LengthsFrom(recordSize, strings, i + 1)
  {
    Associate(out, LengthsOf(recordSize, shared, size), LengthsFrom(recordSize, strings, i + 1));
  }

  // Parsing

  datatype SizedBlockHeader = SizedBlockHeader(
    head: Bytes, numEntries: nat, bufferLength: nat, sizes: seq<nat>, shareds: seq<nat>) {

    /** The header of the block that holds `strings`. */
    ghost predicate Describes(strings: seq<Bytes>) {
      && 1 <= |strings| <= BLOCK_SIZE
      && head == strings[0] && numEntries == |strings|
      && sizes == Sizes(strings, BLOCK_SIZE) && shareds == Shareds(strings, BLOCK_SIZE)
      && bufferLength == |SuffixesFrom(strings, 1)|
    }
  }

  /** `good` input: a block of `strings` followed by anything. */
  ghost predicate HoldsBlock(buf: Bytes, recordSize: Option<nat>, strings: seq<Bytes>, rest: Bytes) {
    Blockable(recordSize, strings) && buf == BlockBytes(recordSize, strings) + rest
  }

  function ToDictError(e: V.DecodeError): SizedDictError {
    if e == V.UnexpectedEndOfBuffer then NotEnoughData else InvalidCoding
  }

  /** The lengths of one entry. */
  method TakeLengths(buf: Bytes, recordSize: Option<nat>, ghost shared: u64, ghost size: u64, ghost rest: Bytes)
      returns (r: Result<(nat, nat, Bytes), SizedDictError>)
    ensures
      buf == LengthsOf(recordSize, shared, size) + rest && (recordSize.Some? ==> shared + size == recordSize.value)
      ==> r == Ok((shared, size, rest))
  {
    ghost var more := (if recordSize == None then V.Encode(size) else []) + rest;
    assert LengthsOf(recordSize, shared, size) + rest == V.Encode(shared) + more;
    var first := V.TakeNumber(buf, shared, more);
    if first.Err? {
      return Err(ToDictError(first.error));
    }
    var (s, buf') := first.value;
    if recordSize == None {
      var second := V.TakeNumber(buf', size, rest);
      if second.Err? {
        return Err(ToDictError(second.error));
      }
      return Ok((s, second.value.0, second.value.1));
    }
    if recordSize.value < s {
      return Err(Panicked);
    }
    assert [] + rest == rest;
    r := Ok((s, recordSize.value - s, buf'));
  }

  lemma SlotFilled(strings: seq<Bytes>, i: nat, sizes: seq<nat>, shareds: seq<nat>)
    requires i + 1 < |strings| <= BLOCK_SIZE && sizes == Sizes(strings, i) && shareds == Shareds(strings, i)
    ensures sizes[i := |Suffix(strings, i + 1)|] == Sizes(strings, i + 1)
    ensures shareds[i := Shared(strings, i + 1)] == Shareds(strings, i + 1)
  {}

  lemma SlotsFull(strings: seq<Bytes>, n: nat)
    requires |strings| - 1 <= n <= BLOCK_SIZE
    ensures Sizes(strings, n) == Sizes(strings, BLOCK_SIZE) && Shareds(strings, n) == Shareds(strings, BLOCK_SIZE)
  {}

  /** The first `i` slots are filled from a block of `strings`. */
  ghost predicate Filling(recordSize: Option<nat>, strings: seq<Bytes>, rest: Bytes, i: nat,
                          sizes: seq<nat>, shareds: seq<nat>, buf: Bytes) {
    && Blockable(recordSize, strings)
    && sizes == Sizes(strings, i) && shareds == Shareds(strings, i)
    && buf == LengthsFrom(recordSize, strings, i + 1) + rest
  }

  method ParseEntry(buf: Bytes, recordSize: Option<nat>, i: nat, sizes: seq<nat>, shareds: seq<nat>,
                    ghost strings: seq<Bytes>, ghost rest: Bytes)
      returns (r: Result<(seq<nat>, seq<nat>, Bytes), SizedDictError>)
    requires i < BLOCK_SIZE - 1 == |sizes| == |shareds|
    ensures r.Ok? ==> |r.value.0| == |r.value.1| == BLOCK_SIZE - 1
    ensures Filling(recordSize, strings, rest, i, sizes, shareds, buf) && i + 1 < |strings| ==>
      r.Ok? && Filling(recordSize, strings, rest, i + 1, r.value.0, r.value.1, r.value.2)
  {
    ghost var good := Filling(recordSize, strings, rest, i, sizes, shareds, buf) && i + 1 < |strings|;
    ghost var shared, size, more := 0, 0, [];
    if good {
      shared, size := Shared(strings, i + 1), |Suffix(strings, i + 1)|;
      more := LengthsFrom(recordSize, strings, i + 2) + rest;
      FillSlot(recordSize, strings, rest, i, sizes, shareds, buf, shared, size, more);
    }
    var lengths := TakeLengths(buf, recordSize, shared, size, more);
    if lengths.Err? {
      return Err(lengths.error);
    }
    r := Ok((sizes[i := lengths.value.1], shareds[i := lengths.value.0], lengths.value.2));
  }

  lemma FillSlot(recordSize: Option<nat>, strings: seq<Bytes>, rest: Bytes, i: nat, sizes: seq<nat>, shareds: seq<nat>,
                 buf: Bytes, shared: nat, size: nat, more: Bytes)
    requires Filling(recordSize, strings, rest, i, sizes, shareds, buf) && i + 1 < |strings|
    requires shared == Shared(strings, i + 1) && size == |Suffix(strings, i + 1)|
    requires more == LengthsFrom(recordSize, strings, i + 2) + rest
    ensures shared < WORD && size < WORD && (recordSize.Some? ==> shared + size == recordSize.value)
    ensures buf == LengthsOf(recordSize, shared, size) + more
    ensures Filling(recordSize, strings, rest, i + 1, sizes[i := size], shareds[i := shared], more)
  {
    SlotFilled(strings, i, sizes, shareds);
    NextLengths(recordSize, strings, i + 1, shared, size, buf, rest, more);
  }

  lemma NextLengths(recordSize: Option<nat>, strings: seq<Bytes>, i: nat, shared: nat, size: nat, buf: Bytes,
                    rest: Bytes, more: Bytes)
    requires 1 <= i < |strings| && shared == Shared(strings, i) && size == |Suffix(strings, i)|
    requires buf == LengthsFrom(recordSize, strings, i) + rest && more == LengthsFrom(recordSize, strings, i + 1) + rest
    ensures buf == LengthsOf(recordSize, shared, size) + more
  {
    Associate(LengthsOf(recordSize, shared, size), LengthsFrom(recordSize, strings, i + 1), rest);
  }

  /** Fills the slots of a header. */
  method ParseEntries(bytes: Bytes, recordSize: Option<nat>, numEntries: nat, ghost strings: seq<Bytes>,
                      ghost rest: Bytes)
      returns (r: Result<(seq<nat>, seq<nat>, Bytes), SizedDictError>)
    requires 1 <= numEntries <= BLOCK_SIZE
    ensures r.Ok? ==> |r.value.0| == |r.value.1| == BLOCK_SIZE - 1
    ensures
      Blockable(recordSize, strings) && numEntries == |strings| && bytes == LengthsFrom(recordSize, strings, 1) + rest
      ==> r == Ok((Sizes(strings, BLOCK_SIZE), Shareds(strings, BLOCK_SIZE), rest))
  {
    ghost var good := Blockable(recordSize, strings) && numEntries == |strings| &&
      bytes == LengthsFrom(recordSize, strings, 1) + rest;
    var sizes: seq<nat> := seq(BLOCK_SIZE - 1, _ => 0);
    var shareds: seq<nat> := seq(BLOCK_SIZE - 1, _ => 0);
    var buf := bytes;
    if good {
      assert sizes == Sizes(strings, 0) && shareds == Shareds(strings, 0);
    }
    for i := 0 to numEntries - 1
      invariant |sizes| == |shareds| == BLOCK_SIZE - 1
      invariant good ==> Filling(recordSize, strings, rest, i, sizes, shareds, buf)
    {
      var next := ParseEntry(buf, recordSize, i, sizes, shareds, strings, rest);
      if next.Err? {
        return next;
      }
      sizes, shareds, buf := next.value.0, next.value.1, next.value.2;
    }
    if good {
      SlotsFull(strings, numEntries - 1);
      assert [] + rest == rest;
    }
    r := Ok((sizes, shareds, buf));
  }

  /** The suffixes from entry `i` on start where the sizes before it add up to. */
  lemma {:induction false} SuffixesAt(strings: seq<Bytes>, sizes: seq<nat>, i: nat)
    requires 1 <= i <= BLOCK_SIZE && |strings| <= BLOCK_SIZE && sizes == Sizes(strings, BLOCK_SIZE)
    ensures Sum(sizes, i - 1) <= |SuffixesFrom(strings, 1)|
    ensures SuffixesFrom(strings, 1)[Sum(sizes, i - 1)..] == SuffixesFrom(strings, i)
  {
    if i > 1 {
      SuffixesAt(strings, sizes, i - 1);
      DropFront(SuffixesFrom(strings, 1), Sum(sizes, i - 2), sizes[i - 2],
                SuffixesFrom(strings, i - 1), SuffixesFrom(strings, i));
    }
  }

  lemma TakeFrom(all: Bytes, at: nat, end: nat, here: Bytes, front: Bytes)
    requires at <= |all| && all[at..] == here && |front| <= |here| && here[..|front|] == front && end == at + |front|
    ensures end <= |all| && all[at..end] == front
  {
    assert all[at..][..|front|] == all[at..end];
  }

  lemma SliceFront(all: Bytes, at: nat, end: nat, n: nat)
    requires at + n <= end <= |all|
    ensures all[at..at + n] == all[at..end][..n]
  {}

  lemma DropFront(all: Bytes, at: nat, size: nat, here: Bytes, next: Bytes)
    requires at <= |all| && all[at..] == here && size <= |here| && here[size..] == next
    ensures at + size <= |all| && all[at + size..] == next
  {
    assert all[at..][size..] == all[at + size..];
  }

  method ParseHeader(bytes: Bytes, ghost recordSize: Option<nat>, ghost strings: seq<Bytes>, ghost rest: Bytes)
      returns (r: Result<(SizedBlockHeader, Bytes), SizedDictError>)
    ensures HoldsBlock(bytes, recordSize, strings, rest) ==>
      r.Ok? && r.value.0.Describes(strings) && r.value.1 == SuffixesFrom(strings, 1) + rest
  {
    ghost var good := HoldsBlock(bytes, recordSize, strings, rest);
    ghost var first, more, parts: Bytes := [], [], [];
    if good {
      first := strings[0];
      more := SuffixesFrom(strings, 1) + rest;
      parts := LengthsFrom(recordSize, strings, 1) + more;
      BlockParts(bytes, recordSize, strings, rest, more, parts);
    }
    if bytes == [] {
      return Err(Panicked);
    }
    var cw := bytes[0];
    var size := RecordSizeDecoding(cw);
    if size.Err? {
      return Err(size.error);
    }
    var numEntries := ParseBlockControlRecords(cw);
    var firstSize := V.TakeNumber(bytes[1..], if good then |first| else 0, first + parts);
    if firstSize.Err? {
      return Err(ToDictError(firstSize.error));
    }
    var (headLen, buf) := firstSize.value;
    if headLen > |buf| {
      return Err(Panicked);
    }
    var entries := ParseEntries(buf[headLen..], size.value, numEntries, strings, more);
    if entries.Err? {
      return Err(entries.error);
    }
    var (sizes, shareds, buf') := entries.value;
    if good {
      SuffixesAt(strings, sizes, BLOCK_SIZE);
    }
    r := Ok((SizedBlockHeader(buf[..headLen], numEntries, Sum(sizes, BLOCK_SIZE - 1), sizes, shareds), buf'));
  }

  lemma Regroup(c: byte, a: Bytes, b: Bytes, lengths: Bytes, suffixes: Bytes, rest: Bytes)
    ensures ([c] + a + b + lengths + suffixes + rest)[1..] == a + (b + (lengths + (suffixes + rest)))
    ensures ([c] + a + b + lengths + suffixes + rest)[0] == c
  {}

  lemma BlockParts(bytes: Bytes, recordSize: Option<nat>, strings: seq<Bytes>, rest: Bytes, more: Bytes, parts: Bytes)
    requires HoldsBlock(bytes, recordSize, strings, rest)
    requires more == SuffixesFrom(strings, 1) + rest && parts == LengthsFrom(recordSize, strings, 1) + more
    ensures bytes != [] && bytes[0] == CreateBlockControlWord(recordSize, |strings|)
    ensures bytes[1..] == V.Encode(|strings[0]|) + (strings[0] + parts)
    ensures RecordSizeDecoding(bytes[0]) == Ok(recordSize) && ParseBlockControlRecords(bytes[0]) == |strings|
  {
    var cw := CreateBlockControlWord(recordSize, |strings|);
    ControlWordRoundTrip(recordSize, |strings|);
    Regroup(cw, V.Encode(|strings[0]|), strings[0], LengthsFrom(recordSize, strings, 1), SuffixesFrom(strings, 1),
            rest);
  }

  // Entries

  /** `size_of::<Bytes>()`: what a chunk costs beside its bytes. */
  const HANDLE_SIZE := 32

  /** A string in one piece or in several. */
  datatype SizedDictEntry = Single(bytes: Bytes) | Rope(parts: seq<Bytes>) {
    function Chunks(): seq<Bytes> {
      match this
      case Single(b) => [b]
      case Rope(v) => v
    }

    function ToBytes(): Bytes {
      Joined(Chunks())
    }
  }

  /** Empty, or ending in a chunk that is not. */
  ghost predicate WellEnded(e: SizedDictEntry) {
    e.Chunks() != [] && (e.ToBytes() == [] || e.Chunks()[|e.Chunks()| - 1] != [])
  }

  /** Copies the chunks into one when that is smaller; the bytes stay the same. */
  function NewOptimized(parts: seq<Bytes>): (r: SizedDictEntry)
    ensures r.ToBytes() == Joined(parts)
    ensures r.Single? <==> HANDLE_SIZE + |Joined(parts)| < HANDLE_SIZE * |parts|
    ensures parts != [] && parts[|parts| - 1] != [] ==> WellEnded(r)
  {
    JoinedPush([], Joined(parts), []);
    if HANDLE_SIZE + |Joined(parts)| < HANDLE_SIZE * |parts| then Single(Joined(parts)) else Rope(parts)
  }

  datatype IdLookupResult = Found(id: nat) | Closest(id: nat) | NotFound {
    function Offset(offset: nat): IdLookupResult {
      match this
      case Found(i) => Found(i + offset)
      case Closest(i) => Closest(i + offset)
      case NotFound => NotFound
    }

    function Default(default: nat): IdLookupResult {
      if NotFound? then Closest(default) else this
    }
  }

  /** The least of `s[lo..hi]`. */
  function Least(s: seq<nat>, lo: nat, hi: nat): nat
    requires lo < hi <= |s|
    decreases hi - lo
  {
    if lo + 1 == hi then s[lo] else Min(s[lo], Least(s, lo + 1, hi))
  }

  function Min(a: nat, b: nat): nat {
    if a < b then a else b
  }

  /** Running minima of the shared lengths before entry `index`, newest first, up to a zero. */
  ghost predicate AreMinima(v: seq<nat>, shareds: seq<nat>, index: nat)
    requires index <= |shareds|
  {
    && |v| <= index
    && (forall k :: 0 <= k < |v| ==> v[k] == Least(shareds, index - 1 - k, index))
    && (|v| < index ==> shareds[index - 1 - |v|] == 0)
  }

  method RunningMinima(shareds: seq<nat>, index: nat) returns (v: seq<nat>)
    requires 1 <= index <= |shareds|
    ensures AreMinima(v, shareds, index)
  {
    var last := shareds[index - 1];
    if last == 0 {
      return [];
    }
    v := [last];
    for i := index - 1 downto 0
      invariant |v| == index - i && last == v[|v| - 1]
      invariant forall k :: 0 <= k < |v| ==> v[k] == Least(shareds, index - 1 - k, index)
    {
      var shared := shareds[i];
      if shared == 0 {
        return;
      }
      if shared < last {
        v := v + [shared];
        last := shared;
      } else {
        v := v + [last];
      }
    }
  }

  /** What entry `e` keeps in the block: the head whole, the others their suffix. */
  function Piece(strings: seq<Bytes>, e: nat): Bytes
    requires e < |strings|
  {
    if e == 0 then strings[0] else Suffix(strings, e)
  }

  /** Entries agree on as many bytes as every pair of neighbours between them shares. */
  lemma {:induction false} AgreeOnLeast(strings: seq<Bytes>, shareds: seq<nat>, e: nat, index: nat)
    requires e < index < |strings| <= BLOCK_SIZE && shareds == Shareds(strings, BLOCK_SIZE)
    ensures Agree(strings[e], strings[index], Least(shareds, e, index))
    decreases index - e
  {
    if e + 1 < index {
      AgreeOnLeast(strings, shareds, e + 1, index);
      var m := Least(shareds, e, index);
      forall i | 0 <= i < m
        ensures strings[e][i] == strings[index][i]
      {
        assert strings[e][i] == strings[e + 1][i];
      }
    }
  }

  /** Where the piece of entry `e` starts among the suffixes; the head is kept apart. */
  function PieceOffset(sizes: seq<nat>, e: nat): nat
    requires e <= |sizes|
  {
    if e == 0 then 0 else Sum(sizes, e - 1)
  }

  /** The next piece supplies the bytes between two successive minima. */
  lemma NextPiece(strings: seq<Bytes>, shareds: seq<nat>, e: nat, index: nat, taken: nat, m: nat)
    requires e < index < |strings| <= BLOCK_SIZE && shareds == Shareds(strings, BLOCK_SIZE)
    requires m == Least(shareds, e, index)
    requires taken == if e == 0 then 0 else Min(shareds[e - 1], m)
    ensures taken <= m <= |strings[index]|
    ensures m - taken <= |Piece(strings, e)|
    ensures taken < m ==> Piece(strings, e)[..m - taken] == strings[index][taken..m]
  {
    AgreeOnLeast(strings, shareds, e, index);
    if taken < m {
      assert Piece(strings, e) == strings[e][taken..];
      AgreeInside(strings[e], strings[index], taken, m);
    }
  }

  lemma ExtendShared(s: Bytes, taken: nat, shared: nat, slices: seq<Bytes>, slice: Bytes)
    requires taken <= shared <= |s| && Joined(slices) == s[..taken] && slice == s[taken..shared]
    ensures Joined(slices + [slice]) == s[..shared]
  {
    JoinedPush(slices, slice, []);
    assert s[..taken] + s[taken..shared] == s[..shared];
  }

  lemma AgreeInside(a: Bytes, b: Bytes, taken: nat, m: nat)
    requires Agree(a, b, m) && taken <= m
    ensures a[taken..][..m - taken] == b[taken..m]
  {}

  datatype SizedDictBlock = SizedDictBlock(header: SizedBlockHeader, data: Bytes) {
    ghost predicate Holds(strings: seq<Bytes>) {
      header.Describes(strings) && data == SuffixesFrom(strings, 1)
    }

    /** A slot's suffix is a slice of the data; slots without an entry are empty. */
    lemma SlotInData(strings: seq<Bytes>, ix: nat, at: nat, end: nat)
      requires Holds(strings) && ix < BLOCK_SIZE - 1
      requires at == Sum(header.sizes, ix) && end == at + header.sizes[ix]
      ensures at <= end <= |data|
      ensures data[at..end] == if ix + 1 < |strings| then Suffix(strings, ix + 1) else []
    {
      SuffixesAt(strings, header.sizes, ix + 1);
      if ix + 1 < |strings| {
        FrontSuffix(strings, ix + 1, SuffixesFrom(strings, ix + 1), header.sizes[ix]);
        TakeFrom(data, at, end, SuffixesFrom(strings, ix + 1), Suffix(strings, ix + 1));
      }
    }

    /** Takes the first `n` bytes of the piece of entry `e`. */
    method TakePiece(e: nat, offset: nat, n: nat, ghost strings: seq<Bytes>) returns (slice: Bytes)
      requires Holds(strings) && e < |strings| && n <= |Piece(strings, e)| && offset == PieceOffset(header.sizes, e)
      ensures slice == Piece(strings, e)[..n]
    {
      if e == 0 {
        return header.head[..n];
      }
      var end := offset + header.sizes[e - 1];
      SlotInData(strings, e - 1, offset, end);
      SliceFront(data, offset, end, n);
      slice := data[offset..offset + n];
    }

    /** What one running minimum adds to the slices taken so far. */
    method TakeNext(e: nat, index: nat, offset: nat, taken: nat, shared: nat, slices: seq<Bytes>,
                    ghost strings: seq<Bytes>)
        returns (more: seq<Bytes>)
      requires Holds(strings) && e < index < |strings| && offset == PieceOffset(header.sizes, e)
      requires shared == Least(header.shareds, e, index)
      requires taken == if e == 0 then 0 else Min(header.shareds[e - 1], shared)
      requires taken <= |strings[index]| && Joined(slices) == strings[index][..taken]
      ensures taken <= shared <= |strings[index]| && Joined(more) == strings[index][..shared]
    {
      NextPiece(strings, header.shareds, e, index, taken, shared);
      if shared == taken {
        return slices;
      }
      var slice := TakePiece(e, offset, shared - taken, strings);
      ExtendShared(strings[index], taken, shared, slices, slice);
      more := slices + [slice];
    }

    /** The slices that make up what entry `index` shares with the one before it, and where its suffix starts. */
    method TakeShared(index: nat, v: seq<nat>, ghost strings: seq<Bytes>) returns (slices: seq<Bytes>, offset: nat)
      requires Holds(strings) && 1 <= index < |strings| && AreMinima(v, header.shareds, index)
      ensures Joined(slices) == strings[index][..Shared(strings, index)]
      ensures offset == PieceOffset(header.sizes, index)
    {
      var start := index - |v|;
      var taken := 0;
      slices := [];
      offset := if start == 0 then 0 else Sum(header.sizes, start - 1);
      for ix := 0 to |v|
        invariant taken == if ix == 0 then 0 else v[|v| - ix]
        invariant taken <= |strings[index]| && Joined(slices) == strings[index][..taken]
        invariant offset == PieceOffset(header.sizes, start + ix)
      {
        var e, shared := start + ix, v[|v| - 1 - ix];
        slices := TakeNext(e, index, offset, taken, shared, slices, strings);
        taken := shared;
        if e != 0 {
          offset := offset + header.sizes[e - 1];
        }
      }
      assert taken == Shared(strings, index);
    }

    /** Entry `index`, put together from the pieces of the entries before it. */
    method Entry(index: nat, ghost strings: seq<Bytes>) returns (r: SizedDictEntry)
      requires Holds(strings) && index < |strings|
      ensures r.ToBytes() == strings[index]
      ensures index == 0 || Suffix(strings, index) != [] ==> WellEnded(r)
    {
      if index == 0 {
        HeadRope(header.head);
        return Rope([header.head]);
      }
      var v := RunningMinima(header.shareds, index);
      var slices, offset := TakeShared(index, v, strings);
      var suffixSize := header.sizes[index - 1];
      SlotInData(strings, index - 1, offset, offset + suffixSize);
      var suffix := data[offset..offset + suffixSize];
      JoinSuffix(strings, index, slices, suffix);
      r := NewOptimized(slices + [suffix]);
    }

    /** Looks a string up without putting any entry together. */
    method Id(slice: Bytes, ghost strings: seq<Bytes>) returns (r: IdLookupResult)
      requires Holds(strings) && Sorted(strings)
      ensures r == LinearId(strings, slice, 0)
    {
      var commonPrefix, ordering := FindCommonPrefixOrd(slice, header.head);
      CompareFlips(slice, header.head);
      CompareEqual(slice, header.head);
      CompareEqual(header.head, slice);
      match ordering {
        case Equal => return Found(0);
        case Less => return NotFound;
        case Greater =>
      }
      var offset := 0;
      for ix := 0 to BLOCK_SIZE - 1
        invariant Passed(strings, slice, ix, commonPrefix)
        invariant offset == Sum(header.sizes, ix) <= |data|
      {
        var shared, end := header.shareds[ix], offset + header.sizes[ix];
        SlotInData(strings, ix, offset, end);
        var answer, n := ScanSlot(slice, ix, commonPrefix, shared, data[offset..end], strings);
        if answer.Some? {
          return answer.value;
        }
        offset, commonPrefix := end, n;
      }
      r := Closest(header.numEntries - 1);
    }
  }

  // Lookup

  ghost predicate Sorted(strings: seq<Bytes>) {
    forall i :: 1 <= i < |strings| ==> Compare(strings[i - 1], strings[i]) != Greater
  }

  /** The reference lookup: walk over the strings from `i` on, past those that are less. */
  function LinearId(strings: seq<Bytes>, slice: Bytes, i: nat): IdLookupResult
    decreases |strings| - i
  {
    if i < |strings| && Compare(strings[i], slice) == Less then LinearId(strings, slice, i + 1)
    else if i < |strings| && strings[i] == slice then Found(i)
    else if i == 0 then NotFound
    else Closest(i - 1)
  }

  /** Slots below `ix` are passed: their entries are less than `slice`, the last one sharing `n` bytes with it. */
  ghost predicate Passed(strings: seq<Bytes>, slice: Bytes, ix: nat, n: nat)
    requires 1 <= |strings|
  {
    var last := if ix < |strings| then ix else |strings| - 1;
    && Compare(strings[last], slice) == Less
    && (ix < |strings| ==> n == CommonPrefix(slice, strings[ix]))
    && (ix >= |strings| ==> n == 0)
    && n <= |slice|
    && LinearId(strings, slice, 0) == LinearId(strings, slice, last + 1)
  }

  /** What the two shared lengths say about the next entry, before looking at its suffix. */
  lemma NextEntry(prev: Bytes, next: Bytes, slice: Bytes, n: nat, shared: nat)
    requires Compare(prev, slice) == Less && Compare(prev, next) != Greater
    requires n == CommonPrefix(slice, prev) && shared == CommonPrefix(prev, next)
    ensures shared < n ==> Compare(next, slice) == Greater && next != slice
    ensures shared > n ==> Compare(next, slice) == Less && CommonPrefix(slice, next) == n
    ensures shared == n ==> Agree(slice, next, n)
  {
    CompareAt(prev, slice, n);
    CompareAt(prev, next, shared);
    if shared < n {
      CompareAt(next, slice, shared);
      CompareEqual(next, slice);
    } else if shared > n {
      assert prev[n] == next[n];
      CompareAt(next, slice, n);
      CommonPrefixIsUnique(slice, next, n, CommonPrefix(slice, next));
    }
  }

  /** What one slot does to the lookup. */
  lemma PassSlot(strings: seq<Bytes>, slice: Bytes, ix: nat, n: nat, shared: nat, suffix: Bytes)
    requires 1 <= |strings| <= BLOCK_SIZE
    requires Passed(strings, slice, ix, n) && Sorted(strings) && ix < BLOCK_SIZE - 1
    requires shared == if ix + 1 < |strings| then Shared(strings, ix + 1) else 0
    requires suffix == if ix + 1 < |strings| then Suffix(strings, ix + 1) else []
    ensures shared < n ==> LinearId(strings, slice, 0) == Closest(ix)
    ensures shared > n ==> Passed(strings, slice, ix + 1, n)
    ensures shared == n ==>
      match Compare(slice[n..], suffix)
      case Equal => LinearId(strings, slice, 0) == Found(ix + 1)
      case Less => LinearId(strings, slice, 0) == Closest(ix)
      case Greater => Passed(strings, slice, ix + 1, n + CommonPrefix(slice[n..], suffix))
  {
    if ix + 1 < |strings| {
      NextEntry(strings[ix], strings[ix + 1], slice, n, shared);
      if shared == n {
        PassBySuffix(slice, strings[ix + 1], n, CommonPrefix(slice[n..], suffix));
      }
    } else {
      PassEmpty(slice);
    }
  }

  lemma PassBySuffix(slice: Bytes, next: Bytes, n: nat, m: nat)
    requires Agree(slice, next, n) && m == CommonPrefix(slice[n..], next[n..])
    ensures Compare(slice[n..], next[n..]) == Equal ==> slice == next && Compare(next, slice) == Equal
    ensures Compare(slice[n..], next[n..]) == Less ==> Compare(next, slice) == Greater && next != slice
    ensures Compare(slice[n..], next[n..]) == Greater ==>
      Compare(next, slice) == Less && CommonPrefix(slice, next) == n + m
  {
    CompareAfterPrefix(slice, next, n, m);
    CommonPrefixIsUnique(slice, next, n + m, CommonPrefix(slice, next));
    CompareEqual(slice, next);
    CompareEqual(next, slice);
    CompareFlips(slice, next);
    CompareFlips(next, slice);
  }

  /** One turn of the lookup loop: an answer, or the common prefix with the entry passed. */
  method ScanSlot(slice: Bytes, ix: nat, commonPrefix: nat, shared: nat, suffix: Bytes, ghost strings: seq<Bytes>)
      returns (answer: Option<IdLookupResult>, n: nat)
    requires 1 <= |strings| <= BLOCK_SIZE
    requires Passed(strings, slice, ix, commonPrefix) && Sorted(strings) && ix < BLOCK_SIZE - 1
    requires shared == if ix + 1 < |strings| then Shared(strings, ix + 1) else 0
    requires suffix == if ix + 1 < |strings| then Suffix(strings, ix + 1) else []
    ensures answer.Some? ==> answer.value == LinearId(strings, slice, 0)
    ensures answer.None? ==> Passed(strings, slice, ix + 1, n)
  {
    answer, n := None, commonPrefix;
    PassSlot(strings, slice, ix, commonPrefix, shared, suffix);
    if shared < commonPrefix {
      answer := Some(Closest(ix));
    } else if shared == commonPrefix {
      var newCommonPrefix, order := FindCommonPrefixOrd(slice[commonPrefix..], suffix);
      match order {
        case Equal => answer := Some(Found(ix + 1));
        case Less => answer := Some(Closest(ix));
        case Greater => n := commonPrefix + newCommonPrefix;
      }
    }
  }

  lemma PassEmpty(slice: Bytes)
    ensures Compare(slice, []) == (if slice == [] then Equal else Greater)
    ensures CommonPrefix(slice, []) == 0 && slice[0..] == slice
    ensures forall s :: Compare(s, slice) == Less ==> slice != []
  {}

  /** In a strictly sorted block every suffix has a byte, so every entry is well ended. */
  lemma StrictSuffix(strings: seq<Bytes>, i: nat)
    requires 1 <= i < |strings| && Compare(strings[i - 1], strings[i]) == Less
    ensures Suffix(strings, i) != []
  {
    CompareAt(strings[i - 1], strings[i], Shared(strings, i));
  }

  lemma JoinSuffix(strings: seq<Bytes>, i: nat, slices: seq<Bytes>, suffix: Bytes)
    requires 1 <= i < |strings| && Joined(slices) == strings[i][..Shared(strings, i)] && suffix == Suffix(strings, i)
    ensures Joined(slices + [suffix]) == strings[i]
  {
    JoinedPush(slices, suffix, []);
    SplitAt(strings[i], Shared(strings, i));
  }

  lemma SplitAt(s: Bytes, n: nat)
    requires n <= |s|
    ensures s[..n] + s[n..] == s
  {}

  lemma {:induction false} LessThroughSorted(strings: seq<Bytes>, slice: Bytes, i: nat, j: nat)
    requires Sorted(strings) && i <= j < |strings|
    ensures Compare(slice, strings[i]) == Less ==> Compare(slice, strings[j]) == Less
    decreases j
  {
    if i < j {
      LessThroughSorted(strings, slice, i, j - 1);
      CompareEqual(strings[j - 1], strings[j]);
      if Compare(slice, strings[i]) == Less && Compare(strings[j - 1], strings[j]) == Less {
        LessIsTransitive(slice, strings[j - 1], strings[j]);
      }
    }
  }

  /** What the reference lookup finds in a sorted list: the first equal string, or the last one below. */
  ghost predicate IsLookup(strings: seq<Bytes>, slice: Bytes, r: IdLookupResult) {
    match r
    case Found(k) =>
      k < |strings| && strings[k] == slice && forall j :: 0 <= j < k ==> Compare(strings[j], slice) == Less
    case Closest(k) =>
      && k < |strings|
      && (forall j :: 0 <= j <= k ==> Compare(strings[j], slice) == Less)
      && (forall j :: k < j < |strings| ==> Compare(slice, strings[j]) == Less)
    case NotFound => forall j :: 0 <= j < |strings| ==> Compare(slice, strings[j]) == Less
  }

  lemma {:induction false} LinearIdIsLookup(strings: seq<Bytes>, slice: Bytes, i: nat)
    requires Sorted(strings) && i <= |strings|
    requires forall j :: 0 <= j < i ==> Compare(strings[j], slice) == Less
    ensures IsLookup(strings, slice, LinearId(strings, slice, i))
    decreases |strings| - i
  {
    if i < |strings| {
      if Compare(strings[i], slice) == Less {
        LinearIdIsLookup(strings, slice, i + 1);
      } else if strings[i] != slice {
        CompareEqual(strings[i], slice);
        CompareFlips(slice, strings[i]);
        forall j | i <= j < |strings|
          ensures Compare(slice, strings[j]) == Less
        {
          LessThroughSorted(strings, slice, i, j);
        }
      }
    }
  }

  method ParseBlock(bytes: Bytes, ghost recordSize: Option<nat>, ghost strings: seq<Bytes>, ghost rest: Bytes)
      returns (r: Result<(SizedDictBlock, Bytes), SizedDictError>)
    ensures HoldsBlock(bytes, recordSize, strings, rest) ==>
      r.Ok? && r.value.0.Holds(strings) && r.value.1 == rest
  {
    var parsed := ParseHeader(bytes, recordSize, strings, rest);
    if parsed.Err? {
      return Err(parsed.error);
    }
    var (header, buf) := parsed.value;
    if |buf| < header.bufferLength {
      return Err(NotEnoughData);
    }
    r := Ok((SizedDictBlock(header, buf[..header.bufferLength]), buf[header.bufferLength..]));
  }

  /** The first string of a block, read without its header. */
  method BlockHead(block: Bytes, ghost recordSize: Option<nat>, ghost strings: seq<Bytes>, ghost rest: Bytes)
      returns (r: Result<Bytes, SizedDictError>)
    ensures HoldsBlock(block, recordSize, strings, rest) ==> r == Ok(strings[0])
  {
    ghost var good := HoldsBlock(block, recordSize, strings, rest);
    ghost var first, parts: Bytes := [], [];
    if good {
      first := strings[0];
      ghost var more := SuffixesFrom(strings, 1) + rest;
      parts := LengthsFrom(recordSize, strings, 1) + more;
      BlockParts(block, recordSize, strings, rest, more, parts);
    }
    if block == [] {
      return Err(Panicked);
    }
    var size := V.TakeNumber(block[1..], if good then |first| else 0, first + parts);
    if size.Err? {
      return Err(ToDictError(size.error));
    }
    var (headLen, buf) := size.value;
    if headLen > |buf| {
      return Err(Panicked);
    }
    r := Ok(buf[..headLen]);
  }

  // Iteration

  lemma {:induction false} JoinedPrefix(chunks: seq<Bytes>, k: nat)
    requires k <= |chunks|
    ensures |Joined(chunks[..k])| <= |Joined(chunks)|
    ensures Joined(chunks)[..|Joined(chunks[..k])|] == Joined(chunks[..k])
    decreases |chunks|
  {
    if k == |chunks| {
      assert chunks[..k] == chunks;
    } else {
      var init := chunks[..|chunks| - 1];
      JoinedPrefix(init, k);
      assert init[..k] == chunks[..k];
    }
  }

  /** Cuts a rope after `n` bytes, in place of copying them. */
  method TruncateRope(rope: seq<Bytes>, n: nat) returns (r: seq<Bytes>)
    requires rope != [] && n <= |Joined(rope)|
    ensures r != [] && Joined(r) == Joined(rope)[..n]
    ensures IsCut(rope, n, r)
  {
    var shared: nat, k: nat := n, 0;
    while k < |rope|
      invariant k < |rope|
      invariant shared + |Joined(rope[..k])| == n && (k > 0 ==> shared > 0)
    {
      var x := rope[k];
      RopeChunk(rope, k, x, Joined(rope[..k]));
      if |x| < shared {
        shared := shared - |x|;
        WholeRope(rope, k + 1);
        k := k + 1;
      } else {
        CutInside(Joined(rope), Joined(rope[..k]), x, shared);
        JoinedPush(rope[..k], x[..shared], []);
        CutAt(rope, n, k, shared);
        return rope[..k] + [x[..shared]];
      }
    }
    assert false;
  }

  /** Whole chunks, as long as they leave some of the `n` bytes over, and the start of the next. */
  ghost predicate IsCut(rope: seq<Bytes>, n: nat, r: seq<Bytes>) {
    && 1 <= |r| <= |rope|
    && r[..|r| - 1] == rope[..|r| - 1] && r[|r| - 1] <= rope[|r| - 1]
    && (|r| > 1 ==> |Joined(rope[..|r| - 1])| < n)
  }

  lemma CutAt(rope: seq<Bytes>, n: nat, k: nat, m: nat)
    requires k < |rope| && m <= |rope[k]| && (k > 0 ==> |Joined(rope[..k])| < n)
    ensures IsCut(rope, n, rope[..k] + [rope[k][..m]])
  {}

  lemma RopeChunk(rope: seq<Bytes>, k: nat, x: Bytes, front: Bytes)
    requires k < |rope| && x == rope[k] && front == Joined(rope[..k])
    ensures Joined(rope[..k + 1]) == front + x
    ensures |front| + |x| <= |Joined(rope)| && Joined(rope)[..|front| + |x|] == front + x
  {
    assert rope[..k + 1] == rope[..k] + [x];
    JoinedPush(rope[..k], x, []);
    JoinedPrefix(rope, k + 1);
  }

  lemma WholeRope(rope: seq<Bytes>, k: nat)
    requires k <= |rope|
    ensures k == |rope| ==> rope[..k] == rope
  {}

  lemma CutInside(all: Bytes, front: Bytes, x: Bytes, n: nat)
    requires n <= |x| && |front| + |x| <= |all| && all[..|front| + |x|] == front + x
    ensures all[..|front| + n] == front + x[..n]
  {
    assert all[..|front| + n] == all[..|front| + |x|][..|front| + n];
  }

  lemma HeadRope(head: Bytes)
    ensures Joined([head]) == head && WellEnded(NewOptimized([head]))
  {
    JoinedPush([], head, []);
    assert [] + [head] == [head];
  }

  lemma SlotOf(header: SizedBlockHeader, strings: seq<Bytes>, ix: nat)
    requires header.Describes(strings) && ix + 1 < |strings|
    ensures |header.sizes| == |header.shareds| == BLOCK_SIZE - 1 && header.numEntries == |strings|
    ensures header.sizes[ix] == |Suffix(strings, ix + 1)| && header.shareds[ix] == Shared(strings, ix + 1)
  {}

  class SizedBlockIterator {
    const header: SizedBlockHeader
    var data: Bytes
    var ix: nat
    var last: Option<seq<Bytes>>
    ghost const strings: seq<Bytes>
    /** How many entries have been returned. */
    ghost var position: nat

    ghost predicate Valid()
      reads this
    {
      && header.Describes(strings) && position <= |strings|
      && (last.None? ==> ix == 0 == position && data == SuffixesFrom(strings, 1))
      && (last.Some? ==> ix + 1 == position && Following(last.value, position))
    }

    /** The last entry's rope, and the suffixes from entry `next` on. */
    ghost predicate Following(rope: seq<Bytes>, next: nat)
      reads this`data
    {
      1 <= next <= |strings| && data == SuffixesFrom(strings, next) && rope != [] && Joined(rope) == strings[next - 1]
    }

    constructor (block: SizedDictBlock, ghost strings: seq<Bytes>)
      requires block.Holds(strings)
      ensures Valid() && position == 0 && this.strings == strings
    {
      header, data, ix, last := block.header, block.data, 0, None;
      this.strings, position := strings, 0;
    }

    /** Cuts the last entry's rope down to what the next one shares with it and adds the next suffix. */
    method ExtendRope(rope: seq<Bytes>, size: nat, shared: nat, ghost i: nat) returns (next: seq<Bytes>)
      requires Following(rope, i) && i < |strings| && size == |Suffix(strings, i)| && shared == Shared(strings, i)
      modifies this`data
      ensures Following(next, i + 1) && next[|next| - 1] == Suffix(strings, i)
    {
      FrontSuffix(strings, i, data, size);
      var cut := TruncateRope(rope, shared);
      var suffix := data[..size];
      data := data[size..];
      JoinedPush(cut, suffix, []);
      SplitAt(strings[i], shared);
      next := cut + [suffix];
    }

    method Next() returns (r: Option<SizedDictEntry>)
      requires Valid()
      modifies this
      ensures Valid()
      ensures r.Some? <==> old(position) < |strings|
      ensures r.Some? ==> r.value.ToBytes() == strings[old(position)] && position == old(position) + 1
      ensures r.None? ==> position == old(position)
      ensures r.Some? && (old(position) == 0 || Suffix(strings, old(position)) != []) ==> WellEnded(r.value)
    {
      if last.None? {
        HeadRope(header.head);
        last, position := Some([header.head]), 1;
        return Some(NewOptimized([header.head]));
      }
      if ix >= header.numEntries - 1 {
        return None;
      }
      var entry := Advance(last.value);
      r := Some(entry);
    }

    /** Every entry but the head, from the one before it. */
    method Advance(rope: seq<Bytes>) returns (r: SizedDictEntry)
      requires Valid() && last == Some(rope) && position < |strings|
      modifies this
      ensures Valid() && position == old(position) + 1 && r.ToBytes() == strings[old(position)]
      ensures Suffix(strings, old(position)) != [] ==> WellEnded(r)
    {
      ghost var i := position;
      SlotOf(header, strings, ix);
      var next := ExtendRope(rope, header.sizes[ix], header.shareds[ix], i);
      ix, last, position := ix + 1, Some(next), i + 1;
      r := NewOptimized(next);
    }
  }

  lemma FrontSuffix(strings: seq<Bytes>, i: nat, data: Bytes, size: nat)
    requires 1 <= i < |strings| && data == SuffixesFrom(strings, i) && size == |Suffix(strings, i)|
    ensures size <= |data| && data[..size] == Suffix(strings, i) && data[size..] == SuffixesFrom(strings, i + 1)
  {}
}
