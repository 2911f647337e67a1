/** Streaming a dictionary: blocks parsed off a reader, one entry at a time. */
module DictStreams {
  import opened Words
  import opened Results
  import opened ByteStrings
  import opened DictBlocks
  import opened DictReaders
  import V = VariableBytes

  /** `read_exact`: reads until `n` bytes have come, or none does. */
  method ReadExact(reader: DontReadLastU64Reader, n: nat) returns (r: Result<Bytes, IoError>)
    requires reader.Valid()
    modifies reader
    ensures reader.Valid()
    ensures r.Ok? <==> n <= |old(reader.Left())|
    ensures r.Ok? ==> r.value == old(reader.Left())[..n] && reader.Left() == old(reader.Left())[n..]
    ensures r.Err? ==> reader.Left() == []
  {
    var got: Bytes := [];
    ghost var all := reader.Left();
    while |got| < n
      invariant reader.Valid() && |got| <= n && got + reader.Left() == all
    {
      var part := new byte[n - |got|];
      ghost var before := reader.Left();
      var read := reader.Read(part);
      if read.Err? || read.value == 0 {
        return Err(UnexpectedEof);
      }
      Took(all, got, before, part[..], read.value, reader.Left());
      got := got + part[..read.value];
    }
    assert all[..n] == got && all[n..] == reader.Left();
    r := Ok(got);
  }

  lemma Took(all: Bytes, got: Bytes, before: Bytes, part: Bytes, n: nat, after: Bytes)
    requires got + before == all && IsServed(before, after, part, n)
    ensures got + part[..n] + after == all
  {
    assert before == part[..n] + after;
  }

  /** One byte, if there is one. */
  method ReadByte(reader: DontReadLastU64Reader, ghost all: Bytes, ghost count: nat) returns (r: Option<byte>)
    requires reader.Valid() && count <= |all| && reader.Left() == all[count..]
    modifies reader
    ensures reader.Valid() && (r.None? <==> count == |all|)
    ensures r.Some? ==> r.value == all[count] && reader.Left() == all[count + 1..]
  {
    var read := ReadExact(reader, 1);
    if read.Err? {
      return None;
    }
    assert all[count..][1..] == all[count + 1..];
    r := Some(read.value[0]);
  }

  /** `decode_reader`: a number read byte by byte. */
  method DecodeReader(reader: DontReadLastU64Reader) returns (r: Result<(u64, nat), V.DecodeError>)
    requires reader.Valid()
    modifies reader
    ensures reader.Valid() && V.Decodes(old(reader.Left()), r)
    ensures r.Ok? ==> reader.Left() == old(reader.Left())[r.value.1..]
  {
    var num, shift, count := 0, 0, 0;
    ghost var all := reader.Left();
    while true
      invariant reader.Valid() && V.Reading(all, count, num, shift)
      invariant reader.Left() == all[count..]
      decreases |all| - count
    {
      var read := ReadByte(reader, all, count);
      if read.None? {
        V.ReadNone(all, count, num, shift);
        return Err(V.UnexpectedEndOfBuffer);
      }
      var answer;
      answer, num, shift := V.DecodeByte(read.value, count, num, shift, all);
      if answer.Some? {
        return answer.value;
      }
      count := count + 1;
    }
  }

  /** The number at the front of the stream. */
  method ReadNumber(reader: DontReadLastU64Reader, ghost num: u64, ghost rest: Bytes)
      returns (r: Result<u64, V.DecodeError>)
    requires reader.Valid()
    modifies reader
    ensures reader.Valid()
    ensures old(reader.Left()) == V.Encode(num) + rest ==> r == Ok(num) && reader.Left() == rest
  {
    ghost var all := reader.Left();
    var d := DecodeReader(reader);
    V.EncodeLength(num);
    if all == V.Encode(num) + rest {
      V.DecodeUndoesEncode(all, num, rest, d);
    }
    match d {
      case Ok((n, _)) => r := Ok(n);
      case Err(e) => r := Err(e);
    }
  }

  /** The lengths of one entry. */
  method ReadLengths(reader: DontReadLastU64Reader, recordSize: Option<nat>, ghost shared: u64, ghost size: u64,
                     ghost rest: Bytes)
      returns (r: Result<(nat, nat), SizedDictError>)
    requires reader.Valid()
    modifies reader
    ensures reader.Valid()
    ensures old(reader.Left()) == LengthsOf(recordSize, shared, size) + rest ==>
      (recordSize.Some? ==> shared + size == recordSize.value) ==> r == Ok((shared, size)) && reader.Left() == rest
  {
    ghost var more := (if recordSize == None then V.Encode(size) else []) + rest;
    assert LengthsOf(recordSize, shared, size) + rest == V.Encode(shared) + more;
    var first := ReadNumber(reader, shared, more);
    if first.Err? {
      return Err(ToDictError(first.error));
    }
    var s := first.value;
    if recordSize == None {
      var second := ReadNumber(reader, size, rest);
      if second.Err? {
        return Err(ToDictError(second.error));
      }
      return Ok((s, second.value));
    }
    if recordSize.value < s {
      return Err(Panicked);
    }
    assert [] + rest == rest;
    r := Ok((s, recordSize.value - s));
  }

  /** The next slot of a header. */
  method ReadEntry(reader: DontReadLastU64Reader, recordSize: Option<nat>, i: nat, sizes: seq<nat>, shareds: seq<nat>,
                   ghost strings: seq<Bytes>, ghost rest: Bytes)
      returns (r: Result<(seq<nat>, seq<nat>), SizedDictError>)
    requires reader.Valid() && i < BLOCK_SIZE - 1 == |sizes| == |shareds|
    modifies reader
    ensures reader.Valid()
    ensures r.Ok? ==> |r.value.0| == |r.value.1| == BLOCK_SIZE - 1
    ensures Filling(recordSize, strings, rest, i, sizes, shareds, old(reader.Left())) && i + 1 < |strings| ==>
      r.Ok? && Filling(recordSize, strings, rest, i + 1, r.value.0, r.value.1, reader.Left())
  {
    ghost var good := Filling(recordSize, strings, rest, i, sizes, shareds, reader.Left()) && i + 1 < |strings|;
    ghost var shared, size, more := 0, 0, [];
    if good {
      shared, size := Shared(strings, i + 1), |Suffix(strings, i + 1)|;
      more := LengthsFrom(recordSize, strings, i + 2) + rest;
      FillSlot(recordSize, strings, rest, i, sizes, shareds, reader.Left(), shared, size, more);
    }
    var lengths := ReadLengths(reader, recordSize, shared, size, more);
    if lengths.Err? {
      return Err(lengths.error);
    }
    r := Ok((sizes[i := lengths.value.1], shareds[i := lengths.value.0]));
  }

  method ReadEntries(reader: DontReadLastU64Reader, recordSize: Option<nat>, numEntries: nat,
                     ghost strings: seq<Bytes>, ghost rest: Bytes)
      returns (r: Result<(seq<nat>, seq<nat>), SizedDictError>)
    requires reader.Valid() && 1 <= numEntries <= BLOCK_SIZE
    modifies reader
    ensures reader.Valid()
    ensures r.Ok? ==> |r.value.0| == |r.value.1| == BLOCK_SIZE - 1
    ensures Blockable(recordSize, strings) && numEntries == |strings| ==>
      old(reader.Left()) == LengthsFrom(recordSize, strings, 1) + rest ==>
      r == Ok((Sizes(strings, BLOCK_SIZE), Shareds(strings, BLOCK_SIZE))) && reader.Left() == rest
  {
    ghost var good := Blockable(recordSize, strings) && numEntries == |strings|
                      && reader.Left() == LengthsFrom(recordSize, strings, 1) + rest;
    var sizes: seq<nat> := seq(BLOCK_SIZE - 1, _ => 0);
    var shareds: seq<nat> := seq(BLOCK_SIZE - 1, _ => 0);
    if good {
      assert sizes == Sizes(strings, 0) && shareds == Shareds(strings, 0);
    }
    for i := 0 to numEntries - 1
      invariant reader.Valid() && |sizes| == |shareds| == BLOCK_SIZE - 1
      invariant good ==> Filling(recordSize, strings, rest, i, sizes, shareds, reader.Left())
    {
      var next := ReadEntry(reader, recordSize, i, sizes, shareds, strings, rest);
      if next.Err? {
        return next;
      }
      sizes, shareds := next.value.0, next.value.1;
    }
    if good {
      SlotsFull(strings, numEntries - 1);
      assert [] + rest == rest;
    }
    r := Ok((sizes, shareds));
  }

  /** What follows the head of a block. */
  function AfterHead(recordSize: Option<nat>, strings: seq<Bytes>, rest: Bytes): Bytes {
    LengthsFrom(recordSize, strings, 1) + (SuffixesFrom(strings, 1) + rest)
  }

  /** A string behind its length. */
  method ReadString(reader: DontReadLastU64Reader, ghost s: Bytes, ghost rest: Bytes)
      returns (r: Result<Bytes, StreamError>)
    requires reader.Valid() && |s| < WORD
    modifies reader
    ensures reader.Valid()
    ensures old(reader.Left()) == V.Encode(|s|) + (s + rest) ==> r == Ok(s) && reader.Left() == rest
  {
    var size := ReadNumber(reader, |s|, s + rest);
    if size.Err? {
      return Err(Dict(ToDictError(size.error)));
    }
    var bytes := ReadExact(reader, size.value);
    if bytes.Err? {
      return Err(Io(bytes.error));
    }
    r := Ok(bytes.value);
  }

  /** The part of a block before its lengths: control word and head. */
  method ReadHead(reader: DontReadLastU64Reader, ghost recordSize: Option<nat>, ghost strings: seq<Bytes>,
                  ghost rest: Bytes)
      returns (r: Result<(Option<nat>, nat, Bytes), StreamError>)
    requires reader.Valid()
    modifies reader
    ensures reader.Valid() && (r.Ok? ==> 1 <= r.value.1 <= BLOCK_SIZE)
    ensures HoldsBlock(old(reader.Left()), recordSize, strings, rest) ==>
      r == Ok((recordSize, |strings|, strings[0])) && reader.Left() == AfterHead(recordSize, strings, rest)
    ensures old(reader.Left()) == [] ==> r == Err(Io(UnexpectedEof)) && reader.Left() == []
  {
    ghost var good := HoldsBlock(reader.Left(), recordSize, strings, rest);
    ghost var first, parts: Bytes := [], [];
    if good {
      first := strings[0];
      ghost var more := SuffixesFrom(strings, 1) + rest;
      parts := LengthsFrom(recordSize, strings, 1) + more;
      BlockParts(reader.Left(), recordSize, strings, rest, more, parts);
    }
    var cw := ReadExact(reader, 1);
    if cw.Err? {
      return Err(Io(UnexpectedEof));
    }
    var size := RecordSizeDecoding(cw.value[0]);
    if size.Err? {
      return Err(Dict(size.error));
    }
    var head := ReadString(reader, first, parts);
    if head.Err? {
      return Err(head.error);
    }
    r := Ok((size.value, ParseBlockControlRecords(cw.value[0]), head.value));
  }

  datatype StreamError = Io(io: IoError) | Dict(dict: SizedDictError)

  predicate IsUnexpectedEof(e: StreamError) {
    e.Io? || e.dict == NotEnoughData
  }

  /** A whole block off the stream. */
  method ParseFromReader(reader: DontReadLastU64Reader, ghost recordSize: Option<nat>, ghost strings: seq<Bytes>,
                         ghost rest: Bytes)
      returns (r: Result<SizedDictBlock, StreamError>)
    requires reader.Valid()
    modifies reader
    ensures reader.Valid()
    ensures HoldsBlock(old(reader.Left()), recordSize, strings, rest) ==>
      r.Ok? && r.value.Holds(strings) && reader.Left() == rest
    ensures old(reader.Left()) == [] ==> r == Err(Io(UnexpectedEof)) && reader.Left() == []
  {
    ghost var good := HoldsBlock(reader.Left(), recordSize, strings, rest);
    ghost var more := SuffixesFrom(strings, 1) + rest;
    var start := ReadHead(reader, recordSize, strings, rest);
    if start.Err? {
      return Err(start.error);
    }
    var (size, numEntries, head) := start.value;
    var entries := ReadEntries(reader, size, numEntries, strings, more);
    if entries.Err? {
      return Err(Dict(entries.error));
    }
    var (sizes, shareds) := entries.value;
    if good {
      SuffixesAt(strings, sizes, BLOCK_SIZE);
    }
    var header := SizedBlockHeader(head, numEntries, Sum(sizes, BLOCK_SIZE - 1), sizes, shareds);
    var data := ReadExact(reader, header.bufferLength);
    if data.Err? {
      return Err(Io(data.error));
    }
    r := Ok(SizedDictBlock(header, data.value));
  }
}
