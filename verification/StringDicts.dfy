/**
 * A dictionary of strings alone: eight strings a block, the last block's end popped off, the number of ids behind the
 * data.
 */
module StringDicts {
  import opened Words
  import opened Results
  import opened ByteStrings
  import opened DictBlocks
  import opened SizedDicts
  import opened TypedDicts
  import opened TypedDictBuilders
  import L = LogArrays

  /** What the two buffers hold: blocks that spell the strings, full but for the last. */
  ghost predicate IsStringDict(offsets: Bytes, data: Bytes, blocks: seq<Block>, strings: seq<Bytes>) {
    && IsSegment(blocks, None, strings)
    && L.Parse(offsets).Ok? && HoldsEnds(L.Parse(offsets).value, blocks)
    && L.IsWidthOf(L.Parse(offsets).value.width, Ends(blocks))
    && |data| >= 8 && data[..|data| - 8] == AllBytes(blocks) && FromBe(data[|data| - 8..]) == |strings|
  }

  /** `new`: nothing is written yet. */
  method NewBuilder() returns (builder: SizedDictBufBuilder)
    ensures fresh(builder) && builder.Valid() && builder.Contents == []
    ensures builder.recordSize == None && builder.handed == [] && builder.handedIds == 0
  {
    builder := new SizedDictBufBuilder(None, 0, 0, [], [], []);
  }

  lemma TakeNext(start: seq<Bytes>, strings: seq<Bytes>, i: nat)
    requires i < |strings|
    ensures start + strings[..i] + [strings[i]] == start + strings[..i + 1]
  {}

  method AddAll(builder: SizedDictBufBuilder, strings: seq<Bytes>) returns (ids: seq<nat>)
    requires builder.Valid() && AllFit(builder.recordSize, strings)
    modifies builder
    ensures builder.Valid() && builder.Contents == old(builder.Contents) + strings
    ensures builder.recordSize == old(builder.recordSize)
    ensures ids == Numbers(builder.handedIds + |old(builder.Contents)|, |strings|)
  {
    ids := [];
    ghost var start := builder.Contents;
    for i := 0 to |strings|
      invariant builder.Valid() && builder.recordSize == old(builder.recordSize)
      invariant builder.Contents == start + strings[..i]
      invariant ids == Numbers(builder.handedIds + |start|, i)
    {
      NumbersNext(ids, builder.handedIds + |start|, i);
      TakeNext(start, strings, i);
      var id := builder.Add(strings[i]);
      ids := ids + [id];
    }
    assert strings[..|strings|] == strings;
  }

  lemma AllEnds(blocks: seq<Block>, ends: seq<nat>)
    requires ends == Ends(blocks) && |AllBytes(blocks)| < WORD
    ensures forall i :: 0 <= i < |ends| ==> ends[i] < WORD
  {
    EndsBound(blocks);
  }

  lemma {:induction false} StringsInFull(blocks: seq<Block>)
    requires Full(blocks, None)
    ensures |Flatten(blocks)| == BLOCK_SIZE * |blocks|
  {
    if blocks != [] {
      StringsInFull(blocks[..|blocks| - 1]);
    }
  }

  /** A block holds at most eight strings. */
  lemma StringsFit(blocks: seq<Block>, strings: seq<Bytes>)
    requires IsSegment(blocks, None, strings) && |blocks| <= L.MAX_LOGARRAY_LEN
    ensures |strings| < WORD
  {
    if blocks != [] {
      StringsInFull(blocks[..|blocks| - 1]);
    }
  }

  /** The offsets without the last, and the data with the number of ids behind it. */
  method Pack(ends: seq<nat>, bytes: Bytes, idOffset: nat, ghost blocks: seq<Block>, ghost strings: seq<Bytes>)
      returns (offsets: Bytes, data: Bytes)
    requires IsSegment(blocks, None, strings) && bytes == AllBytes(blocks) && ends == Ends(blocks)
    requires |bytes| < WORD && |ends| <= L.MAX_LOGARRAY_LEN && idOffset == |strings|
    ensures IsStringDict(offsets, data, blocks, strings)
  {
    StringsFit(blocks, strings);
    AllEnds(blocks, ends);
    offsets := BuildOffsets(ends);
    data := bytes + PutU64(ToWord(idOffset));
    CountBehind(bytes, idOffset, data);
  }

  lemma NoneHanded(handed: seq<Block>, mine: seq<Block>)
    requires handed == []
    ensures handed + mine == mine
  {}

  /** The parts a builder that wrote nothing before hands over. */
  method TakeParts(builder: SizedDictBufBuilder)
      returns (ends: seq<nat>, bytes: Bytes, idOffset: nat, ghost blocks: seq<Block>)
    requires builder.Valid() && builder.handed == [] && builder.handedIds == 0
    modifies builder
    ensures IsSegment(blocks, old(builder.recordSize), old(builder.Contents))
    ensures bytes == AllBytes(blocks) && ends == Ends(blocks) && idOffset == |old(builder.Contents)|
    ensures |bytes| == old(builder.Size()) && |ends| <= |old(builder.offsets)| + 1
  {
    var blockOffset;
    ends, bytes, blockOffset, idOffset, blocks := builder.Finalize();
    NoneHanded(builder.handed, blocks);
  }

  method Finalize(builder: SizedDictBufBuilder) returns (offsets: Bytes, data: Bytes, ghost blocks: seq<Block>)
    requires builder.Valid() && builder.recordSize == None && builder.handed == [] && builder.handedIds == 0
    requires builder.Size() < WORD && |builder.offsets| < L.MAX_LOGARRAY_LEN
    modifies builder
    ensures IsStringDict(offsets, data, blocks, old(builder.Contents))
  {
    ghost var strings := builder.Contents;
    var ends, bytes, idOffset;
    ends, bytes, idOffset, blocks := TakeParts(builder);
    offsets, data := Pack(ends, bytes, idOffset, blocks, strings);
  }

  lemma EndsPlaced(offsets: L.LogArray, blocks: seq<Block>)
    requires HoldsEnds(offsets, blocks)
    ensures forall b :: 0 <= b < offsets.len ==> offsets.Entry(b) == |AllBytes(blocks[..b + 1])|
  {
    forall b | 0 <= b < offsets.len
      ensures offsets.Entry(b) == |AllBytes(blocks[..b + 1])|
    {
      EndEntry(offsets, blocks, b);
    }
  }

  /** Parsing the buffers of a builder gives the dictionary of the strings added. */
  method Parse(offsets: Bytes, data: Bytes, ghost blocks: seq<Block>, ghost strings: seq<Bytes>)
      returns (dict: SizedDict)
    requires IsStringDict(offsets, data, blocks, strings)
    ensures dict.Holds(blocks) && Flatten(blocks) == strings
  {
    SegmentIsRegular(blocks, None, strings);
    EndsSorted(blocks);
    var ends := L.ParseMonotonic(offsets, AllButLast(Ends(blocks)));
    EndsPlaced(ends.value.value, blocks);
    dict := SizedDict(ends.value.value, data[..|data| - 8], 0);
  }
}
