/** The typed dictionary: global ids over all segments, recovered from the blocks by gap arithmetic. */
module TypedDicts {
  import opened Words
  import opened Results
  import opened ByteStrings
  import opened DictBlocks
  import opened SizedDicts
  import opened TypedSegments
  import L = LogArrays

  // Gaps: the unused places of each segment's last block

  function Gap(s: Segment): nat {
    if s.blocks == [] then 0 else BLOCK_SIZE - |s.blocks[|s.blocks| - 1].strings|
  }

  function Gaps(segs: seq<Segment>): nat {
    if segs == [] then 0 else Gaps(segs[..|segs| - 1]) + Gap(segs[|segs| - 1])
  }

  lemma SegmentCount(s: Segment)
    requires s.Good()
    ensures |s.Strings()| + Gap(s) == BLOCK_SIZE * |s.blocks| && Regular(s.blocks)
  {
    SegmentIsRegular(s.blocks, RecordSize(s.kind), s.Strings());
    FlattenAt(s.blocks, |s.blocks| - 1);
  }

  /** Strings and gaps together fill the blocks. */
  lemma {:induction false} CountAndGaps(segs: seq<Segment>)
    requires AllGood(segs)
    ensures Count(segs) + Gaps(segs) == BLOCK_SIZE * |AllBlocks(segs)|
    ensures |segs| <= |AllBlocks(segs)|
  {
    if segs != [] {
      CountAndGaps(segs[..|segs| - 1]);
      SegmentCount(segs[|segs| - 1]);
    }
  }

  lemma GapsStep(segs: seq<Segment>, i: nat)
    requires i < |segs|
    ensures Gaps(segs[..i + 1]) == Gaps(segs[..i]) + Gap(segs[i])
  {
    assert segs[..i + 1][..i] == segs[..i];
  }

  lemma GoodPrefix(segs: seq<Segment>, i: nat)
    requires AllGood(segs) && i <= |segs|
    ensures AllGood(segs[..i])
  {}

  /** Number of entries of the block that starts at `offset`, from its control word. */
  method BlockLen(data: Bytes, offset: nat, ghost blocks: seq<Block>, ghost b: nat) returns (r: nat)
    requires b < |blocks| && AllBytes(blocks) <= data && offset == |AllBytes(blocks[..b])|
    ensures r == |blocks[b].strings|
  {
    ghost var rest := BlockTail(data, blocks, b, offset);
    ghost var rs, strings := blocks[b].recordSize, blocks[b].strings;
    BlockParts(data[offset..], rs, strings, rest, SuffixesFrom(strings, 1) + rest,
               LengthsFrom(rs, strings, 1) + (SuffixesFrom(strings, 1) + rest));
    r := ParseBlockControlRecords(data[offset]);
  }

  /** The block offsets array holds every block's end but the last. */
  ghost predicate HoldsEnds(offsets: L.LogArray, blocks: seq<Block>) {
    L.HoldsNats(offsets, AllButLast(Ends(blocks)))
  }

  lemma EndEntry(offsets: L.LogArray, blocks: seq<Block>, k: nat)
    requires HoldsEnds(offsets, blocks) && k + 1 < |blocks|
    ensures offsets.Valid() && offsets.len == |blocks| - 1 && offsets.Entry(k) == |AllBytes(blocks[..k + 1])|
  {
    EndsAt(blocks, k);
  }

  /** Where block `b` starts, read off the array of ends. */
  method BlockStart(offsets: L.LogArray, b: nat, ghost blocks: seq<Block>) returns (r: nat)
    requires HoldsEnds(offsets, blocks) && b < |blocks|
    ensures r == |AllBytes(blocks[..b])|
  {
    if b == 0 {
      return 0;
    }
    EndEntry(offsets, blocks, b - 1);
    r := offsets.Entry(b - 1);
  }

  /** The last block of segment `i` is the last of the blocks up to there. */
  lemma LastBlockOf(segs: seq<Segment>, i: nat, b: nat)
    requires AllGood(segs) && i < |segs| && b == Pred(|AllBlocks(segs[..i + 1])|)
    ensures b < |AllBlocks(segs)| && b + 1 == |AllBlocks(segs[..i + 1])|
    ensures Gap(segs[i]) == BLOCK_SIZE - |AllBlocks(segs)[b].strings|
  {
    var tail := SegmentInside(segs, i);
    NextPrefix(segs, i);
    var before, mine := AllBlocks(segs[..i]), segs[i].blocks;
    assert (before + (mine + tail))[|before| + |mine| - 1] == mine[|mine| - 1];
  }

  /** The parts a finished builder leaves behind. */
  ghost predicate IsBuilt(typesPresent: Bytes, typeOffsets: Bytes, blockOffsets: Bytes, data: Bytes,
                          segs: seq<Segment>) {
    && AllGood(segs)
    && L.Parse(typesPresent).Ok? && L.Parse(typesPresent).value.Holds(Kinds(segs))
    && L.Parse(typeOffsets).Ok? && L.HoldsNats(L.Parse(typeOffsets).value, AllButLast(LastBlocks(segs)))
    && L.Parse(blockOffsets).Ok? && HoldsEnds(L.Parse(blockOffsets).value, AllBlocks(segs))
    && |data| >= 8 && data[..|data| - 8] == AllBytes(AllBlocks(segs))
  }

  lemma {:induction false} EndsBound(blocks: seq<Block>)
    ensures forall i :: 0 <= i < |blocks| ==> Ends(blocks)[i] <= |AllBytes(blocks)|
  {
    if blocks != [] {
      EndsBound(blocks[..|blocks| - 1]);
    }
  }

  lemma {:induction false} LastBlocksBound(segs: seq<Segment>)
    ensures forall i :: 0 <= i < |segs| ==> LastBlocks(segs)[i] <= Pred(|AllBlocks(segs)|)
  {
    if segs != [] {
      LastBlocksBound(segs[..|segs| - 1]);
    }
  }

  lemma {:induction false} EndsSorted(blocks: seq<Block>)
    ensures L.Sorted(Ends(blocks)) && L.Sorted(AllButLast(Ends(blocks)))
  {
    if blocks != [] {
      EndsSorted(blocks[..|blocks| - 1]);
      EndsBound(blocks);
    }
  }

  lemma {:induction false} LastBlocksSorted(segs: seq<Segment>)
    ensures L.Sorted(LastBlocks(segs)) && L.Sorted(AllButLast(LastBlocks(segs)))
  {
    if segs != [] {
      LastBlocksSorted(segs[..|segs| - 1]);
      LastBlocksBound(segs);
    }
  }

  /** The arrays have the least widths for what was pushed: of the block ends that is also the one left out. */
  ghost predicate AreTight(typesPresent: Bytes, typeOffsets: Bytes, blockOffsets: Bytes, segs: seq<Segment>) {
    && L.Parse(typesPresent).Ok? && L.IsWidthOf(L.Parse(typesPresent).value.width, Kinds(segs))
    && L.Parse(typeOffsets).Ok? && L.IsWidthOf(L.Parse(typeOffsets).value.width, AllButLast(LastBlocks(segs)))
    && L.Parse(blockOffsets).Ok? && L.IsWidthOf(L.Parse(blockOffsets).value.width, Ends(AllBlocks(segs)))
  }

  // Reading the parts

  /** One turn of the tally loop: the next segment's gap, and its last id. */
  method TallyType(typeOffset: nat, tally: nat, blockOffsets: L.LogArray, data: Bytes, ghost segs: seq<Segment>,
                   ghost j: nat)
      returns (tally': nat, idOffset: nat)
    requires AllGood(segs) && j < |segs| && HoldsEnds(blockOffsets, AllBlocks(segs))
    requires AllBytes(AllBlocks(segs)) <= data
    requires typeOffset == Pred(|AllBlocks(segs[..j + 1])|) && tally == Gaps(segs[..j])
    ensures tally' == Gaps(segs[..j + 1]) && idOffset == Count(segs[..j + 1])
  {
    ghost var blocks := AllBlocks(segs);
    LastBlockOf(segs, j, typeOffset);
    var offset := BlockStart(blockOffsets, typeOffset, blocks);
    var lastBlockLen := BlockLen(data, offset, blocks, typeOffset);
    var gap := BLOCK_SIZE - lastBlockLen;
    tally' := tally + gap;
    GapsStep(segs, j);
    GoodPrefix(segs, j + 1);
    CountAndGaps(segs[..j + 1]);
    idOffset := (typeOffset + 1) * 8 - tally';
  }

  /** The loop over the type offsets: the last id of each segment but the last. */
  method TallyTypes(typeOffsets: L.LogArray, blockOffsets: L.LogArray, data: Bytes, ghost segs: seq<Segment>)
      returns (tally: nat, typeIdOffsets: seq<nat>)
    requires AllGood(segs) && segs != []
    requires L.HoldsNats(typeOffsets, AllButLast(LastBlocks(segs))) && HoldsEnds(blockOffsets, AllBlocks(segs))
    requires AllBytes(AllBlocks(segs)) <= data
    ensures tally == Gaps(segs[..|segs| - 1]) && typeIdOffsets == Counts(segs[..|segs| - 1])
  {
    tally, typeIdOffsets := 0, [];
    for j := 0 to typeOffsets.len
      invariant tally == Gaps(segs[..j]) && typeIdOffsets == Counts(segs[..j])
    {
      LastBlocksAt(segs, j);
      ghost var before := typeIdOffsets;
      var idOffset;
      tally, idOffset := TallyType(typeOffsets.Entry(j), tally, blockOffsets, data, segs, j);
      CountsStep(segs, j);
      typeIdOffsets := typeIdOffsets + [idOffset];
    }
  }

  lemma CountsStep(segs: seq<Segment>, j: nat)
    requires j < |segs|
    ensures Counts(segs[..j + 1]) == Counts(segs[..j]) + [Count(segs[..j + 1])]
  {
    assert segs[..j + 1][..j] == segs[..j];
  }

  lemma CountFromGaps(segs: seq<Segment>, last: nat)
    requires AllGood(segs) && segs != [] && last == Pred(|AllBlocks(segs)|)
    ensures last + 1 == |AllBlocks(segs)|
    ensures Count(segs) ==
      (last + 1) * BLOCK_SIZE - Gaps(segs[..|segs| - 1]) - (BLOCK_SIZE - |AllBlocks(segs)[last].strings|)
    ensures last == 0 ==> Gaps(segs[..|segs| - 1]) == 0
  {
    CountAndGaps(segs);
    assert segs[..|segs|] == segs;
    LastBlockOf(segs, |segs| - 1, last);
  }

  method LastBlockLen(blockOffsets: L.LogArray, data: Bytes, ghost blocks: seq<Block>) returns (r: nat)
    requires HoldsEnds(blockOffsets, blocks) && AllBytes(blocks) <= data && |blocks| > 1
    ensures r == |blocks[|blocks| - 1].strings|
  {
    EndEntry(blockOffsets, blocks, |blocks| - 2);
    r := BlockLen(data, blockOffsets.Entry(blockOffsets.len - 1), blocks, |blocks| - 1);
  }

  /** The number of entries, from the number of blocks and the gaps. */
  method CountEntries(blockOffsets: L.LogArray, data: Bytes, tally: nat, ghost segs: seq<Segment>) returns (n: nat)
    requires AllGood(segs) && segs != [] && HoldsEnds(blockOffsets, AllBlocks(segs))
    requires AllBytes(AllBlocks(segs)) <= data
    requires tally == Gaps(segs[..|segs| - 1])
    ensures n == Count(segs)
  {
    ghost var blocks := AllBlocks(segs);
    ghost var last := Pred(|blocks|);
    CountFromGaps(segs, last);
    if blockOffsets.len == 0 {
      n := BlockLen(data, 0, blocks, last);
    } else {
      var lastLen := LastBlockLen(blockOffsets, data, blocks);
      var lastGap := BLOCK_SIZE - lastLen;
      n := (blockOffsets.len + 1) * BLOCK_SIZE - tally - lastGap;
    }
  }

  /** The dictionary read from what a builder left behind; none if the datatypes are not in order. */
  method FromParts(typesPresent: Bytes, typeOffsets: Bytes, blockOffsets: Bytes, data: Bytes, ghost segs: seq<Segment>)
      returns (r: Option<TypedDict>)
    requires IsBuilt(typesPresent, typeOffsets, blockOffsets, data, segs)
    ensures r.Some? <==> L.Sorted(Kinds(segs))
    ensures r.Some? ==> r.value.Holds(segs)
  {
    var types := L.ParseMonotonic(typesPresent, Kinds(segs));
    if types.None? {
      return None;
    }
    LastBlocksSorted(segs);
    EndsSorted(AllBlocks(segs));
    var offsets := L.ParseMonotonic(typeOffsets, AllButLast(LastBlocks(segs)));
    var blocks := L.ParseMonotonic(blockOffsets, AllButLast(Ends(AllBlocks(segs))));
    var dict := Assemble(types.value.value, offsets.value.value, blocks.value.value, data, segs);
    r := Some(dict);
  }

  method Assemble(types: L.LogArray, offsets: L.LogArray, blocks: L.LogArray, data: Bytes, ghost segs: seq<Segment>)
      returns (r: TypedDict)
    requires AllGood(segs) && types.Holds(Kinds(segs)) && L.HoldsNats(offsets, AllButLast(LastBlocks(segs)))
    requires HoldsEnds(blocks, AllBlocks(segs)) && |data| >= 8 && data[..|data| - 8] == AllBytes(AllBlocks(segs))
    ensures r.Holds(segs)
  {
    var kept := data[..|data| - 8];
    if types.len == 0 {
      return TypedDict(types, offsets, blocks, [], 0, kept);
    }
    assert kept <= data;
    var tally, typeIdOffsets := TallyTypes(offsets, blocks, data, segs);
    var numEntries := CountEntries(blocks, data, tally, segs);
    r := TypedDict(types, offsets, blocks, typeIdOffsets, numEntries, kept);
  }

  datatype TypedDict = TypedDict(
    typesPresent: L.LogArray, typeOffsets: L.LogArray, blockOffsets: L.LogArray,
    typeIdOffsets: seq<nat>, numEntries: nat, data: Bytes) {

    ghost predicate Holds(segs: seq<Segment>) {
      && AllGood(segs)
      && typesPresent.Holds(Kinds(segs))
      && L.HoldsNats(typeOffsets, AllButLast(LastBlocks(segs)))
      && HoldsEnds(blockOffsets, AllBlocks(segs))
      && typeIdOffsets == AllButLast(Counts(segs))
      && numEntries == Count(segs)
      && data == AllBytes(AllBlocks(segs))
    }

    /** Where segment `i` starts: the number of the block before it, its offset in the data, and its first id. */
    method SegmentStart(i: nat, ghost segs: seq<Segment>) returns (typeOffset: nat, blockOffset: nat, idOffset: nat)
      requires Holds(segs) && i < |segs|
      ensures typeOffset == Pred(|AllBlocks(segs[..i])|) && (i > 0 ==> typeOffset + 1 == |AllBlocks(segs[..i])|)
      ensures blockOffset == |AllBytes(AllBlocks(segs[..i]))| && idOffset == Count(segs[..i])
    {
      IdOffsets(segs);
      if i == 0 {
        return 0, 0, 0;
      }
      idOffset := LastId(i - 1, segs);
      typeOffset := NextOffset(i - 1, segs);
      blockOffset := EndOfTypes(i, typeOffset, segs);
    }

    /** The last id of a segment that is not the last. */
    method LastId(i: nat, ghost segs: seq<Segment>) returns (r: nat)
      requires Holds(segs) && i < |typeIdOffsets|
      ensures i + 1 < |segs| && r == Count(segs[..i + 1])
    {
      CountsAt(segs, i);
      r := typeIdOffsets[i];
    }

    lemma IdOffsets(segs: seq<Segment>)
      requires Holds(segs)
      ensures |typeIdOffsets| == if segs == [] then 0 else |segs| - 1
    {}

    method EndOfTypes(i: nat, typeOffset: nat, ghost segs: seq<Segment>) returns (r: nat)
      requires Holds(segs) && i < |segs| && typeOffset + 1 == |AllBlocks(segs[..i])|
      ensures r == |AllBytes(AllBlocks(segs[..i]))|
    {
      assert segs[i].Good();
      BlocksBefore(segs, i);
      EndEntry(blockOffsets, AllBlocks(segs), typeOffset);
      r := blockOffsets.Entry(typeOffset);
    }

    /** How many of a segment's block ends the array holds: all but the last. */
    method SegmentLen(i: nat, typeOffset: nat, ghost segs: seq<Segment>) returns (len: nat)
      requires Holds(segs) && i < |segs|
      requires typeOffset == Pred(|AllBlocks(segs[..i])|) && (i > 0 ==> typeOffset + 1 == |AllBlocks(segs[..i])|)
      ensures len + 1 == |segs[i].blocks|
    {
      SegmentBlocks(segs, i);
      if i == typesPresent.len - 1 {
        len := blockOffsets.len - typeOffset - if i == 0 then 0 else 1;
      } else {
        var nextOffset := NextOffset(i, segs);
        len := nextOffset - typeOffset - if i == 0 then 0 else 1;
      }
    }

    method NextOffset(i: nat, ghost segs: seq<Segment>) returns (r: nat)
      requires Holds(segs) && i + 1 < |segs|
      ensures r + 1 == |AllBlocks(segs[..i + 1])|
    {
      LastBlocksAt(segs, i);
      r := typeOffsets.Entry(i);
      LastBlockOf(segs, i, r);
    }

    method InnerTypeSegment(i: nat, ghost segs: seq<Segment>) returns (dict: SizedDict, idOffset: nat)
      requires Holds(segs) && i < |segs|
      ensures dict.Holds(segs[i].blocks) && idOffset == Count(segs[..i])
    {
      var typeOffset, blockOffset, id := SegmentStart(i, segs);
      var len := SegmentLen(i, typeOffset, segs);
      var at := if len == 0 || i == 0 then 0 else typeOffset + 1;
      ghost var tail := SegmentInside(segs, i);
      SegmentCount(segs[i]);
      dict := CutDict(at, len, blockOffset, AllBlocks(segs[..i]), segs[i].blocks, tail, segs);
      idOffset := id;
    }

    /** The part of the data and of the block ends that belongs to one segment. */
    method CutDict(at: nat, len: nat, blockOffset: nat, ghost before: seq<Block>, ghost mine: seq<Block>,
                   ghost tail: seq<Block>, ghost segs: seq<Segment>) returns (dict: SizedDict)
      requires HoldsEnds(blockOffsets, AllBlocks(segs)) && data == AllBytes(AllBlocks(segs))
      requires AllBlocks(segs) == before + (mine + tail)
      requires blockOffset == |AllBytes(before)| && Regular(mine)
      requires len + 1 == |mine| && (len > 0 ==> at == |before|) && (len == 0 ==> at == 0)
      ensures dict.Holds(mine)
    {
      SliceInside(AllBlocks(segs), before, mine, tail, data, blockOffset);
      SliceOfEnds(blockOffsets, AllBlocks(segs), before, mine, tail, at, len, blockOffset);
      dict := SizedDict(blockOffsets.Slice(at, len), data[blockOffset..], blockOffset);
    }

    /** Behind the last id offset there is only the last segment. */
    lemma LastIndex(segs: seq<Segment>, r: nat)
      requires Holds(segs) && r == |typeIdOffsets| && Count(segs) > 0
      ensures r < |segs| && Count(segs[..r + 1]) == Count(segs)
    {
      IdOffsets(segs);
      AllSegments(segs, r + 1);
    }

    /** The segment an id falls into. */
    method TypeIndexForId(id: nat, ghost segs: seq<Segment>) returns (r: nat)
      requires Holds(segs) && 1 <= id <= Count(segs)
      ensures r < |segs| && Count(segs[..r]) < id <= Count(segs[..r + 1])
    {
      for ix := 0 to |typeIdOffsets|
        invariant Count(segs[..ix]) < id
      {
        var last := LastId(ix, segs);
        if last > id - 1 {
          return ix;
        }
      }
      r := |typeIdOffsets|;
      LastIndex(segs, r);
    }

    /** Entry `id`, counted from 1 over all segments. */
    method Entry(id: nat, ghost segs: seq<Segment>) returns (r: Option<TypedDictEntry>)
      requires Holds(segs) && id >= 1
      ensures r.None? <==> id > Count(segs)
      ensures r.Some? ==> (r.value.kind, r.value.entry.ToBytes()) == Entries(segs)[id - 1]
      ensures r.Some? && Ordered(segs) ==> WellEnded(r.value.entry)
    {
      if id > numEntries {
        return None;
      }
      var typeIndex := TypeIndexForId(id, segs);
      var e := EntryOfSegment(typeIndex, id, segs);
      r := Some(e);
    }

    method EntryOfSegment(i: nat, id: nat, ghost segs: seq<Segment>) returns (r: TypedDictEntry)
      requires Holds(segs) && i < |segs| && Count(segs[..i]) < id <= Count(segs[..i + 1])
      ensures id <= Count(segs) && (r.kind, r.entry.ToBytes()) == Entries(segs)[id - 1]
      ensures StrictlySorted(segs[i].Strings()) ==> WellEnded(r.entry)
    {
      var dict, offset := InnerTypeSegment(i, segs);
      var kind := TypeForTypeIndex(i, segs);
      r := EntryInSegment(dict, kind, offset, id, i, segs);
    }

    method EntryInSegment(dict: SizedDict, kind: u64, offset: nat, id: nat, ghost i: nat, ghost segs: seq<Segment>)
        returns (r: TypedDictEntry)
      requires i < |segs| && dict.Holds(segs[i].blocks) && kind == segs[i].kind
      requires offset == Count(segs[..i]) && offset < id <= Count(segs[..i + 1])
      ensures id <= Count(segs) && (r.kind, r.entry.ToBytes()) == Entries(segs)[id - 1]
      ensures StrictlySorted(segs[i].Strings()) ==> WellEnded(r.entry)
    {
      SegmentEntry(segs, i, id, offset);
      var e := EntryOfDict(dict, id - offset, segs[i].blocks, segs[i].Strings());
      r := TypedDictEntry(kind, e);
    }

    method EntryOfDict(dict: SizedDict, index: nat, ghost blocks: seq<Block>, ghost strings: seq<Bytes>)
        returns (r: SizedDictEntry)
      requires dict.Holds(blocks) && strings == Flatten(blocks) && 1 <= index <= |strings|
      ensures r.ToBytes() == strings[index - 1]
      ensures StrictlySorted(strings) ==> WellEnded(r)
    {
      var e := dict.Entry(index, blocks);
      r := e.value;
    }

    method TypeForTypeIndex(i: nat, ghost segs: seq<Segment>) returns (r: u64)
      requires Holds(segs) && i < |segs|
      ensures r == segs[i].kind
    {
      KindsAt(segs, i);
      r := typesPresent.Entry(i);
    }

    /** Looks a string of one datatype up; ids count from 1 over all segments. */
    method IdSlice(kind: u64, slice: Bytes, ghost segs: seq<Segment>) returns (r: IdLookupResult)
      requires Holds(segs) && Ordered(segs)
      ensures r == if kind in Kinds(segs) then LinearTyped(Entries(segs), kind, slice, 0).Offset(1) else NotFound
    {
      KindsSorted(segs);
      var found := L.IndexOf(typesPresent, kind, Kinds(segs));
      if found.None? {
        return NotFound;
      }
      var i := found.value;
      KindsAt(segs, i);
      var dict, offset := InnerTypeSegment(i, segs);
      var result := dict.Id(slice, segs[i].blocks);
      SegmentAnswers(segs, i, slice, offset);
      AcrossByOffset(LinearId(segs[i].Strings(), slice, 0), offset);
      r := result.Offset(offset);
      if offset != 0 {
        r := r.Default(offset);
      }
    }
  }

  /** The blocks before a segment are those up to the last one of the segment before it. */
  lemma BlocksBefore(segs: seq<Segment>, i: nat)
    requires i <= |segs|
    ensures |AllBlocks(segs[..i])| <= |AllBlocks(segs)|
    ensures AllBlocks(segs)[..|AllBlocks(segs[..i])|] == AllBlocks(segs[..i])
    ensures i < |segs| && segs[i].blocks != [] ==> |AllBlocks(segs[..i])| < |AllBlocks(segs)|
  {
    if i < |segs| {
      var tail := SegmentInside(segs, i);
    } else {
      assert segs[..i] == segs;
    }
  }

  /** The data of a segment, behind that of the ones before it. */
  lemma SliceInside(all: seq<Block>, before: seq<Block>, mine: seq<Block>, tail: seq<Block>, data: Bytes, offset: nat)
    requires all == before + (mine + tail) && data == AllBytes(all) && offset == |AllBytes(before)|
    ensures offset <= |data| && AllBytes(mine) <= data[offset..]
  {
    AllBytesAppend(before, mine + tail);
    AllBytesAppend(mine, tail);
  }

  /** The slice of the array of ends that belongs to one segment. */
  lemma SliceOfEnds(offsets: L.LogArray, all: seq<Block>, before: seq<Block>, mine: seq<Block>, tail: seq<Block>,
                    at: nat, len: nat, base: nat)
    requires HoldsEnds(offsets, all) && all == before + (mine + tail) && base == |AllBytes(before)|
    requires len + 1 == |mine| && (len > 0 ==> at == |before|) && (len == 0 ==> at == 0)
    ensures offsets.len == |all| - 1 && at + len <= offsets.len
    ensures offsets.Slice(at, len).Valid()
    ensures forall b :: 0 <= b < len ==> offsets.Slice(at, len).Entry(b) == base + |AllBytes(mine[..b + 1])|
  {
    offsets.SliceHolds(AllButLast(Ends(all)), at, len);
    forall b | 0 <= b < len
      ensures offsets.Slice(at, len).Entry(b) == base + |AllBytes(mine[..b + 1])|
    {
      EndInside(all, before, mine, tail, b, at + b);
      SliceEntry(offsets, AllButLast(Ends(all)), at, len, b);
    }
  }

  lemma SliceEntry(offsets: L.LogArray, vals: seq<nat>, at: nat, len: nat, b: nat)
    requires L.HoldsNats(offsets, vals) && at + len <= offsets.len && b < len
    ensures offsets.Slice(at, len).Valid() && offsets.Slice(at, len).Entry(b) == vals[at + b]
  {
    offsets.SliceHolds(vals, at, len);
    assert vals[at..at + len][b] == vals[at + b];
  }

  lemma SegmentBlocks(segs: seq<Segment>, i: nat)
    requires AllGood(segs) && i < |segs|
    ensures |AllBlocks(segs[..i + 1])| == |AllBlocks(segs[..i])| + |segs[i].blocks|
    ensures segs[i].blocks != [] && (i == |segs| - 1 ==> segs[..i + 1] == segs)
  {
    NextPrefix(segs, i);
    assert segs[i].Good();
  }

  /** A block of the segment ends where the bytes before the segment and its own blocks say. */
  lemma EndInside(all: seq<Block>, before: seq<Block>, mine: seq<Block>, tail: seq<Block>, b: nat, at: nat)
    requires all == before + (mine + tail) && b + 1 < |mine| && at == |before| + b
    ensures AllButLast(Ends(all))[at] == |AllBytes(before)| + |AllBytes(mine[..b + 1])|
  {
    EndsAt(all, at);
    assert all[..at + 1] == before + mine[..b + 1];
    AllBytesAppend(before, mine[..b + 1]);
  }

  lemma AllSegments(segs: seq<Segment>, n: nat)
    ensures n == |segs| ==> Count(segs[..n]) == Count(segs)
  {
    if n == |segs| {
      assert segs[..n] == segs;
    }
  }

  lemma SegmentEntry(segs: seq<Segment>, i: nat, id: nat, offset: nat)
    requires i < |segs| && offset == Count(segs[..i]) && offset < id <= Count(segs[..i + 1])
    ensures id - offset <= |segs[i].Strings()| && id <= Count(segs)
    ensures Entries(segs)[id - 1] == (segs[i].kind, segs[i].Strings()[id - offset - 1])
  {
    NextPrefix(segs, i);
    EntriesAt(segs, i, id - offset - 1);
  }

  datatype TypedDictEntry = TypedDictEntry(kind: u64, entry: SizedDictEntry)

  // Lookup over all segments

  /** Datatypes strictly increase, and so do the strings of each. */
  ghost predicate Ordered(segs: seq<Segment>) {
    && (forall i, j :: 0 <= i < j < |segs| ==> segs[i].kind < segs[j].kind)
    && (forall i :: 0 <= i < |segs| ==> StrictlySorted(segs[i].Strings()))
  }

  predicate Below(e: TypedString, kind: u64, slice: Bytes) {
    e.0 < kind || (e.0 == kind && Compare(e.1, slice) == Less)
  }

  /** The reference lookup: walk over all typed strings from `i` on, past those that are below. */
  function LinearTyped(entries: seq<TypedString>, kind: u64, slice: Bytes, i: nat): IdLookupResult
    decreases |entries| - i
  {
    if i < |entries| && Below(entries[i], kind, slice) then LinearTyped(entries, kind, slice, i + 1)
    else if i < |entries| && entries[i] == (kind, slice) then Found(i)
    else if i == 0 then NotFound
    else Closest(i - 1)
  }

  lemma KindsSorted(segs: seq<Segment>)
    requires Ordered(segs)
    ensures L.Sorted(Kinds(segs))
  {
    forall i, j | 0 <= i <= j < |segs|
      ensures Kinds(segs)[i] <= Kinds(segs)[j]
    {
      KindsAt(segs, i);
      KindsAt(segs, j);
    }
  }

  /** A segment of a lesser datatype is walked past. */
  lemma {:induction false} SkipSegment(segs: seq<Segment>, i: nat, kind: u64, slice: Bytes, k: nat, c: nat)
    requires i < |segs| && segs[i].kind < kind && k <= |segs[i].Strings()| && c == Count(segs[..i])
    ensures LinearTyped(Entries(segs), kind, slice, c + k) ==
      LinearTyped(Entries(segs), kind, slice, Count(segs[..i + 1]))
    decreases |segs[i].Strings()| - k
  {
    NextPrefix(segs, i);
    if k < |segs[i].Strings()| {
      EntriesAt(segs, i, k);
      SkipSegment(segs, i, kind, slice, k + 1, c);
    }
  }

  lemma {:induction false} SkipSegments(segs: seq<Segment>, i: nat, kind: u64, slice: Bytes)
    requires i <= |segs| && forall j :: 0 <= j < i ==> segs[j].kind < kind
    ensures LinearTyped(Entries(segs), kind, slice, 0) == LinearTyped(Entries(segs), kind, slice, Count(segs[..i]))
  {
    if i > 0 {
      SkipSegments(segs, i - 1, kind, slice);
      SkipSegment(segs, i - 1, kind, slice, 0, Count(segs[..i - 1]));
    }
  }

  /** A segment's answer among `c` smaller strings: none below it means the last of those. */
  function Across(r: IdLookupResult, c: nat): IdLookupResult {
    match r
    case NotFound => if c == 0 then NotFound else Closest(c - 1)
    case Found(k) => Found(k + c)
    case Closest(k) => Closest(k + c)
  }

  lemma WalkHere(entries: seq<TypedString>, kind: u64, strings: seq<Bytes>, slice: Bytes, k: nat, c: nat)
    requires k < |strings| && c + k < |entries| && entries[c + k] == (kind, strings[k])
    requires LinearTyped(entries, kind, slice, c + k + 1) == Across(LinearId(strings, slice, k + 1), c)
    ensures LinearTyped(entries, kind, slice, c + k) == Across(LinearId(strings, slice, k), c)
  {}

  lemma WalkOut(entries: seq<TypedString>, kind: u64, strings: seq<Bytes>, slice: Bytes, n: nat, c: nat)
    requires strings != [] && n == c + |strings| && (n < |entries| ==> entries[n].0 > kind)
    ensures LinearTyped(entries, kind, slice, n) == Across(LinearId(strings, slice, |strings|), c)
  {}

  ghost predicate NextIsGreater(segs: seq<Segment>, i: nat)
    requires i < |segs|
  {
    i + 1 < |segs| ==> segs[i + 1].Strings() != [] && segs[i].kind < segs[i + 1].kind
  }

  /** Inside its segment the walk is the one over the segment's own strings. */
  lemma {:induction false} WalkSegment(segs: seq<Segment>, i: nat, slice: Bytes, strings: seq<Bytes>, k: nat, c: nat)
    requires i < |segs| && NextIsGreater(segs, i) && strings == segs[i].Strings() != []
    requires k <= |strings| && c == Count(segs[..i])
    ensures LinearTyped(Entries(segs), segs[i].kind, slice, c + k) == Across(LinearId(strings, slice, k), c)
    decreases |strings| - k
  {
    if k < |strings| {
      EntriesAt(segs, i, k);
      WalkSegment(segs, i, slice, strings, k + 1, c);
      WalkHere(Entries(segs), segs[i].kind, strings, slice, k, c);
    } else {
      SegmentEnd(segs, i, c + k);
      WalkOut(Entries(segs), segs[i].kind, strings, slice, c + k, c);
    }
  }

  /** What comes after a segment has a greater datatype. */
  lemma SegmentEnd(segs: seq<Segment>, i: nat, n: nat)
    requires i < |segs| && NextIsGreater(segs, i) && n == Count(segs[..i]) + |segs[i].Strings()|
    ensures n < |Entries(segs)| ==> Entries(segs)[n].0 > segs[i].kind
  {
    NextPrefix(segs, i);
    if i + 1 < |segs| {
      FirstOfNext(segs, i + 1, n);
    } else {
      WholeCount(segs, i + 1);
    }
  }

  lemma FirstOfNext(segs: seq<Segment>, i: nat, n: nat)
    requires i < |segs| && segs[i].Strings() != [] && n == Count(segs[..i])
    ensures n < |Entries(segs)| && Entries(segs)[n].0 == segs[i].kind
  {
    EntriesAt(segs, i, 0);
  }

  lemma WholeCount(segs: seq<Segment>, n: nat)
    requires n == |segs|
    ensures Count(segs[..n]) == Count(segs)
  {
    assert segs[..n] == segs;
  }

  lemma SegmentNotEmpty(s: Segment)
    requires s.Good()
    ensures |s.Strings()| > 0
  {
    SegmentCount(s);
  }

  lemma SegmentAnswers(segs: seq<Segment>, i: nat, slice: Bytes, c: nat)
    requires AllGood(segs) && Ordered(segs) && i < |segs| && c == Count(segs[..i])
    ensures LinearTyped(Entries(segs), segs[i].kind, slice, 0) == Across(LinearId(segs[i].Strings(), slice, 0), c)
  {
    SkipSegments(segs, i, segs[i].kind, slice);
    SegmentNotEmpty(segs[i]);
    if i + 1 < |segs| {
      SegmentNotEmpty(segs[i + 1]);
    }
    WalkSegment(segs, i, slice, segs[i].Strings(), 0, c);
  }

  lemma AcrossByOffset(r: IdLookupResult, c: nat)
    ensures Across(r, c).Offset(1) == if c != 0 then r.Offset(1).Offset(c).Default(c) else r.Offset(1).Offset(c)
  {}
}
