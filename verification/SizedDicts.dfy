/** Dictionaries: front-coded blocks one after the other, and where each of them ends. */
module SizedDicts {
  import opened Words
  import opened Results
  import opened ByteStrings
  import opened DictBlocks
  import L = LogArrays

  // Lists of blocks

  datatype StringBlock = StringBlock(recordSize: Option<nat>, strings: seq<Bytes>)

  type Block = b: StringBlock | Blockable(b.recordSize, b.strings) witness StringBlock(None, [[]])

  function BytesOf(b: Block): Bytes {
    BlockBytes(b.recordSize, b.strings)
  }

  function AllBytes(blocks: seq<Block>): Bytes {
    if blocks == [] then [] else AllBytes(blocks[..|blocks| - 1]) + BytesOf(blocks[|blocks| - 1])
  }

  /** Where each block ends. */
  function Ends(blocks: seq<Block>): (s: seq<nat>)
    ensures |s| == |blocks|
  {
    if blocks == [] then [] else Ends(blocks[..|blocks| - 1]) + [|AllBytes(blocks)|]
  }

  function Flatten(blocks: seq<Block>): seq<Bytes> {
    if blocks == [] then [] else Flatten(blocks[..|blocks| - 1]) + blocks[|blocks| - 1].strings
  }

  /** All blocks but the last are full. */
  ghost predicate Regular(blocks: seq<Block>) {
    forall b :: 0 <= b < |blocks| - 1 ==> |blocks[b].strings| == BLOCK_SIZE
  }

  lemma PushBytes(blocks: seq<Block>, b: Block)
    ensures AllBytes(blocks + [b]) == AllBytes(blocks) + BytesOf(b)
  {
    assert (blocks + [b])[..|blocks|] == blocks;
  }

  lemma PushBlock(blocks: seq<Block>, b: Block)
    ensures AllBytes(blocks + [b]) == AllBytes(blocks) + BytesOf(b)
    ensures Ends(blocks + [b]) == Ends(blocks) + [|AllBytes(blocks)| + |BytesOf(b)|]
    ensures Flatten(blocks + [b]) == Flatten(blocks) + b.strings
  {
    PushBytes(blocks, b);
    PushStrings(blocks, b);
    PushEnd(blocks, b, |AllBytes(blocks)| + |BytesOf(b)|);
  }

  lemma PushStrings(blocks: seq<Block>, b: Block)
    ensures Flatten(blocks + [b]) == Flatten(blocks) + b.strings
  {
    assert (blocks + [b])[..|blocks|] == blocks;
  }

  lemma PushEnd(blocks: seq<Block>, b: Block, end: nat)
    requires |AllBytes(blocks + [b])| == end
    ensures Ends(blocks + [b]) == Ends(blocks) + [end]
  {
    assert (blocks + [b])[..|blocks|] == blocks;
  }

  lemma {:induction false} AllBytesAppend(p: seq<Block>, q: seq<Block>)
    ensures AllBytes(p + q) == AllBytes(p) + AllBytes(q)
  {
    if q == [] {
      assert p + q == p;
    } else {
      var init, last := q[..|q| - 1], q[|q| - 1];
      AllBytesAppend(p, init);
      LastApart(p, q, init, last);
      PushBytes(p + init, last);
      Associate(AllBytes(p), AllBytes(init), BytesOf(last));
    }
  }

  lemma LastApart(p: seq<Block>, q: seq<Block>, init: seq<Block>, last: Block)
    requires q != [] && init == q[..|q| - 1] && last == q[|q| - 1]
    ensures p + q == p + init + [last]
  {}

  lemma {:induction false} EndsAt(blocks: seq<Block>, k: nat)
    requires k < |blocks|
    ensures Ends(blocks)[k] == |AllBytes(blocks[..k + 1])|
    decreases |blocks|
  {
    var init := blocks[..|blocks| - 1];
    if k < |init| {
      EndsAt(init, k);
      assert init[..k + 1] == blocks[..k + 1];
    } else {
      assert blocks[..k + 1] == blocks;
    }
  }

  lemma SplitBlocks(blocks: seq<Block>, b: nat)
    requires b < |blocks|
    ensures blocks == blocks[..b] + [blocks[b]] + blocks[b + 1..]
  {}

  lemma BlockBetween(front: seq<Block>, b: Block, back: seq<Block>)
    ensures AllBytes(front + [b] + back) == AllBytes(front) + (BytesOf(b) + AllBytes(back))
  {
    AllBytesAppend(front + [b], back);
    PushBlock(front, b);
    Associate(AllBytes(front), BytesOf(b), AllBytes(back));
  }

  /** A block starts where the ones before it end. */
  lemma BlockInside(blocks: seq<Block>, b: nat)
    requires b < |blocks|
    ensures AllBytes(blocks) == AllBytes(blocks[..b]) + (BytesOf(blocks[b]) + AllBytes(blocks[b + 1..]))
  {
    SplitBlocks(blocks, b);
    BlockBetween(blocks[..b], blocks[b], blocks[b + 1..]);
  }

  lemma {:induction false} FlattenAt(blocks: seq<Block>, b: nat)
    requires Regular(blocks) && b < |blocks|
    ensures BLOCK_SIZE * b + |blocks[b].strings| <= |Flatten(blocks)|
    ensures Flatten(blocks)[BLOCK_SIZE * b..BLOCK_SIZE * b + |blocks[b].strings|] == blocks[b].strings
    ensures b == |blocks| - 1 ==> |Flatten(blocks)| == BLOCK_SIZE * b + |blocks[b].strings|
    decreases |blocks|
  {
    var init, last := blocks[..|blocks| - 1], blocks[|blocks| - 1];
    if b < |init| {
      FlattenAt(init, b);
    } else if b > 0 {
      FlattenAt(init, b - 1);
    }
  }

  // Building

  /** A string that may be added to a block with this record size. */
  predicate Fits(recordSize: Option<nat>, s: Bytes) {
    |s| < WORD && (recordSize.Some? ==> |s| == recordSize.value)
  }

  /** Full blocks with one record size. */
  ghost predicate Full(blocks: seq<Block>, recordSize: Option<nat>) {
    blocks == [] ||
    var last := blocks[|blocks| - 1];
    Full(blocks[..|blocks| - 1], recordSize) && last.recordSize == recordSize && |last.strings| == BLOCK_SIZE
  }

  lemma {:induction false} FullAt(blocks: seq<Block>, recordSize: Option<nat>, b: nat)
    requires Full(blocks, recordSize) && b < |blocks|
    ensures |blocks[b].strings| == BLOCK_SIZE && blocks[b].recordSize == recordSize
    decreases |blocks|
  {
    if b < |blocks| - 1 {
      FullAt(blocks[..|blocks| - 1], recordSize, b);
    }
  }

  /** The finished blocks of one segment. */
  ghost predicate IsSegment(blocks: seq<Block>, recordSize: Option<nat>, strings: seq<Bytes>) {
    && Flatten(blocks) == strings
    && (blocks != [] ==> Full(blocks[..|blocks| - 1], recordSize) && blocks[|blocks| - 1].recordSize == recordSize)
  }

  lemma SegmentIsRegular(blocks: seq<Block>, recordSize: Option<nat>, strings: seq<Bytes>)
    requires IsSegment(blocks, recordSize, strings)
    ensures Regular(blocks)
  {
    forall b | 0 <= b < |blocks| - 1
      ensures |blocks[b].strings| == BLOCK_SIZE
    {
      FullAt(blocks[..|blocks| - 1], recordSize, b);
    }
  }

  ghost predicate AllFit(recordSize: Option<nat>, strings: seq<Bytes>) {
    forall i :: 0 <= i < |strings| ==> Fits(recordSize, strings[i])
  }

  /** The strings added are in full blocks or in the current one. */
  ghost predicate Adding(recordSize: Option<nat>, blocks: seq<Block>, current: seq<Bytes>, strings: seq<Bytes>) {
    && KnownSize(recordSize) && Full(blocks, recordSize) && AllFit(recordSize, current)
    && Flatten(blocks) + current == strings
  }

  /** The data written is that of these blocks. */
  ghost predicate Written(blocks: seq<Block>, data: Bytes, blockOffset: nat, offsets: seq<nat>) {
    data == AllBytes(blocks) && blockOffset == |AllBytes(blocks)| && offsets == Ends(blocks)
  }

  lemma AddString(recordSize: Option<nat>, blocks: seq<Block>, current: seq<Bytes>, strings: seq<Bytes>, s: Bytes)
    requires Adding(recordSize, blocks, current, strings) && Fits(recordSize, s)
    ensures Adding(recordSize, blocks, current + [s], strings + [s])
  {
    Associate2(Flatten(blocks), current, [s]);
  }

  /** A full current block becomes one of the blocks. */
  lemma CloseBlock(recordSize: Option<nat>, blocks: seq<Block>, block: Block, strings: seq<Bytes>, handed: seq<Block>)
    requires Adding(recordSize, blocks, block.strings, strings) && block.recordSize == recordSize
    ensures |block.strings| == BLOCK_SIZE ==> Adding(recordSize, blocks + [block], [], strings)
    ensures IsSegment(blocks + [block], recordSize, strings)
    ensures handed + blocks + [block] == handed + (blocks + [block])
  {
    PushBlock(blocks, block);
    assert (blocks + [block])[..|blocks|] == blocks;
    assert Flatten(blocks + [block]) + [] == Flatten(blocks + [block]);
  }

  lemma NoOpenBlock(recordSize: Option<nat>, blocks: seq<Block>, strings: seq<Bytes>)
    requires Adding(recordSize, blocks, [], strings)
    ensures IsSegment(blocks, recordSize, strings)
  {
    assert Flatten(blocks) + [] == Flatten(blocks);
  }

  class SizedDictBufBuilder {
    var recordSize: Option<nat>
    var blockOffset: nat
    var idOffset: nat
    var offsets: seq<nat>
    var dataBuf: Bytes
    var currentBlock: seq<Bytes>
    /** The blocks that were handed over, those written since, and the strings added. */
    ghost const handed: seq<Block>
    ghost const handedIds: nat
    ghost var mine: seq<Block>
    ghost var Contents: seq<Bytes>

    ghost predicate Valid()
      reads this
    {
      && Adding(recordSize, mine, currentBlock, Contents) && |currentBlock| < BLOCK_SIZE
      && Written(handed + mine, dataBuf, blockOffset, offsets)
      && idOffset == handedIds + |Contents|
    }

    /** How many bytes there are once the current block is written. */
    ghost function Size(): nat
      requires Valid()
      reads this
    {
      |dataBuf| + if currentBlock == [] then 0 else |BlockBytes(recordSize, currentBlock)|
    }

    constructor (recordSize: Option<nat>, blockOffset: nat, idOffset: nat, offsets: seq<nat>, dataBuf: Bytes,
                 ghost handed: seq<Block>)
      requires KnownSize(recordSize) && Written(handed, dataBuf, blockOffset, offsets)
      ensures Valid() && Contents == [] && this.recordSize == recordSize
      ensures this.handed == handed && handedIds == idOffset
    {
      this.recordSize, this.blockOffset, this.idOffset := recordSize, blockOffset, idOffset;
      this.offsets, this.dataBuf, this.currentBlock := offsets, dataBuf, [];
      this.handed, handedIds, mine, Contents := handed, idOffset, [], [];
      new;
      assert handed + [] == handed;
    }

    /** Writes the current block out. */
    method WriteBlock(ghost blocks: seq<Block>) returns (ghost block: Block)
      requires 1 <= |currentBlock| <= BLOCK_SIZE && KnownSize(recordSize) && AllFit(recordSize, currentBlock)
      requires Written(blocks, dataBuf, blockOffset, offsets)
      modifies this`dataBuf, this`blockOffset, this`offsets
      ensures block.strings == currentBlock && block.recordSize == recordSize
      ensures Written(blocks + [block], dataBuf, blockOffset, offsets)
      ensures |dataBuf| == |old(dataBuf)| + |BlockBytes(recordSize, currentBlock)|
    {
      assert Blockable(recordSize, currentBlock);
      block := StringBlock(recordSize, currentBlock);
      PushBlock(blocks, block);
      var r, size := BuildBlockUnchecked(recordSize, dataBuf, currentBlock);
      dataBuf := r;
      blockOffset := blockOffset + size;
      offsets := offsets + [blockOffset];
    }

    method Add(value: Bytes) returns (id: nat)
      requires Valid() && Fits(recordSize, value)
      modifies this
      ensures Valid() && Contents == old(Contents) + [value] && recordSize == old(recordSize)
      ensures id == idOffset == handedIds + |Contents|
    {
      AddString(recordSize, mine, currentBlock, Contents, value);
      currentBlock := currentBlock + [value];
      Contents := Contents + [value];
      idOffset := idOffset + 1;
      if |currentBlock| == BLOCK_SIZE {
        ghost var block := WriteBlock(handed + mine);
        CloseBlock(recordSize, mine, block, Contents, handed);
        mine := mine + [block];
        currentBlock := [];
      }
      id := idOffset;
    }

    /** Writes what is left and hands the parts over. */
    method Finalize()
        returns (offsets': seq<nat>, data: Bytes, blockOffset': nat, idOffset': nat, ghost segment: seq<Block>)
      requires Valid()
      modifies this
      ensures IsSegment(segment, old(recordSize), old(Contents))
      ensures Written(handed + segment, data, blockOffset', offsets')
      ensures idOffset' == handedIds + |old(Contents)|
      ensures |data| == old(Size()) && |offsets'| <= |old(offsets)| + 1
      ensures old(Contents) != [] ==> segment != []
    {
      segment := mine;
      if |currentBlock| > 0 {
        ghost var block := WriteBlock(handed + mine);
        CloseBlock(recordSize, mine, block, Contents, handed);
        segment := mine + [block];
      } else {
        NoOpenBlock(recordSize, mine, Contents);
      }
      offsets', data, blockOffset', idOffset' := offsets, dataBuf, blockOffset, idOffset;
    }
  }

  lemma Associate2(a: seq<Bytes>, b: seq<Bytes>, c: seq<Bytes>)
    ensures a + b + c == a + (b + c)
  {}

  // Reading

  ghost predicate StrictlySorted(strings: seq<Bytes>) {
    forall i :: 1 <= i < |strings| ==> Compare(strings[i - 1], strings[i]) == Less
  }

  datatype SizedDict = SizedDict(offsets: L.LogArray, data: Bytes, dictOffset: nat) {
    /** The dictionary of these blocks; its data may be followed by anything. */
    ghost predicate Holds(blocks: seq<Block>) {
      && Regular(blocks) && offsets.Valid()
      && (blocks == [] ==> data == [] && offsets.len == 0)
      && (blocks != [] ==> offsets.len == |blocks| - 1)
      && AllBytes(blocks) <= data
      && forall b :: 0 <= b < offsets.len ==> offsets.Entry(b) == dictOffset + |AllBytes(blocks[..b + 1])|
    }

    method BlockOffset(index: nat, ghost blocks: seq<Block>) returns (offset: nat)
      requires Holds(blocks) && index < |blocks|
      ensures offset == |AllBytes(blocks[..index])|
    {
      offset := if index == 0 then 0 else offsets.Entry(index - 1) - dictOffset;
    }

    /** The data from a block on. */
    method BlockBytesAt(index: nat, ghost blocks: seq<Block>) returns (r: Bytes, ghost rest: Bytes)
      requires Holds(blocks) && index < |blocks|
      ensures HoldsBlock(r, blocks[index].recordSize, blocks[index].strings, rest)
    {
      var offset := BlockOffset(index, blocks);
      BlockInside(blocks, index);
      r := data[offset..];
      rest := BlockTail(data, blocks, index, offset);
    }

    method BlockAt(index: nat, ghost blocks: seq<Block>) returns (r: SizedDictBlock)
      requires Holds(blocks) && index < |blocks|
      ensures r.Holds(blocks[index].strings)
    {
      var bytes, rest := BlockBytesAt(index, blocks);
      var parsed := ParseBlock(bytes, blocks[index].recordSize, blocks[index].strings, rest);
      r := parsed.value.0;
    }

    method BlockHeadAt(index: nat, ghost blocks: seq<Block>) returns (r: Bytes)
      requires Holds(blocks) && index < |blocks|
      ensures r == blocks[index].strings[0]
    {
      var bytes, rest := BlockBytesAt(index, blocks);
      var head := BlockHead(bytes, blocks[index].recordSize, blocks[index].strings, rest);
      r := head.value;
    }

    method BlockNumElements(index: nat, ghost blocks: seq<Block>) returns (r: nat)
      requires Holds(blocks) && (index < |blocks| || blocks == [])
      ensures r == if blocks == [] then 0 else |blocks[index].strings|
    {
      BlocksCounted(blocks);
      if |data| == 0 {
        return 0;
      }
      var offset := BlockOffset(index, blocks);
      var bytes, rest := BlockBytesAt(index, blocks);
      ghost var recordSize, strings := blocks[index].recordSize, blocks[index].strings;
      BlockParts(bytes, recordSize, strings, rest, SuffixesFrom(strings, 1) + rest,
                 LengthsFrom(recordSize, strings, 1) + (SuffixesFrom(strings, 1) + rest));
      r := ParseBlockControlRecords(bytes[0]);
    }

    function NumBlocks(): nat {
      if |data| == 0 then 0 else offsets.len + 1
    }

    method NumEntries(ghost blocks: seq<Block>) returns (r: nat)
      requires Holds(blocks)
      ensures r == |Flatten(blocks)|
    {
      BlocksCounted(blocks);
      var numBlocks := NumBlocks();
      if numBlocks == 0 {
        return 0;
      }
      var lastBlockSize := BlockNumElements(numBlocks - 1, blocks);
      FlattenAt(blocks, numBlocks - 1);
      r := (numBlocks - 1) * BLOCK_SIZE + lastBlockSize;
    }

    lemma BlocksCounted(blocks: seq<Block>)
      requires Holds(blocks)
      ensures NumBlocks() == |blocks|
    {
      if blocks != [] {
        BlockInside(blocks, 0);
      }
    }

    /** Entry `index`, counted from 1. */
    method Entry(index: nat, ghost blocks: seq<Block>) returns (r: Option<SizedDictEntry>)
      requires Holds(blocks) && index >= 1
      ensures r.None? <==> index > |Flatten(blocks)|
      ensures r.Some? ==> r.value.ToBytes() == Flatten(blocks)[index - 1]
      ensures r.Some? && StrictlySorted(Flatten(blocks)) ==> WellEnded(r.value)
    {
      var numEntries := NumEntries(blocks);
      if index > numEntries {
        return None;
      }
      var b, k := (index - 1) / 8, (index - 1) % 8;
      EntryPlace(blocks, index - 1, b, k);
      var block := BlockAt(b, blocks);
      var entry := block.Entry(k, blocks[b].strings);
      r := Some(entry);
    }

    /** The last block whose head is not above the string, or the answer itself. */
    method FindBlock(slice: Bytes, ghost blocks: seq<Block>) returns (answer: Option<IdLookupResult>, found: nat)
      requires Holds(blocks) && blocks != [] && StrictlySorted(Flatten(blocks))
      ensures answer.Some? ==> answer.value == LinearId(Flatten(blocks), slice, 0).Offset(1)
      ensures answer.None? ==> found < |blocks| && Compare(blocks[found].strings[0], slice) == Less
      ensures answer.None? && found + 1 < |blocks| ==> Compare(slice, blocks[found + 1].strings[0]) == Less
    {
      var min: nat, max: nat := 0, offsets.len;
      answer := None;
      while min <= max
        invariant min <= max + 1 <= |blocks|
        invariant min > 0 ==> Compare(blocks[min - 1].strings[0], slice) == Less
        invariant max + 1 < |blocks| ==> Compare(slice, blocks[max + 1].strings[0]) == Less
        decreases max + 1 - min
      {
        var mid := (min + max) / 2;
        var headSlice := BlockHeadAt(mid, blocks);
        HeadAnswers(blocks, mid, slice);
        CompareFlips(headSlice, slice);
        match Compare(slice, headSlice) {
          case Less =>
            if mid == 0 {
              return Some(NotFound), 0;
            }
            max := mid - 1;
          case Greater => min := mid + 1;
          case Equal => return Some(Found(mid * BLOCK_SIZE + 1)), 0;
        }
      }
      found := max;
    }

    /** `id`, numbering the entries from 1. */
    method Id(slice: Bytes, ghost blocks: seq<Block>) returns (r: IdLookupResult)
      requires Holds(blocks) && StrictlySorted(Flatten(blocks))
      ensures r == LinearId(Flatten(blocks), slice, 0).Offset(1)
    {
      BlocksCounted(blocks);
      if |data| == 0 {
        return NotFound;
      }
      var answer, found := FindBlock(slice, blocks);
      if answer.Some? {
        return answer.value;
      }
      var block := BlockAt(found, blocks);
      BlockSorted(blocks, found);
      var blockId := block.Id(slice, blocks[found].strings);
      BlockAnswers(blocks, found, slice);
      var offset := found * BLOCK_SIZE + 1;
      r := blockId.Offset(offset).Default(offset - 1);
    }
  }

  lemma BlockSorted(blocks: seq<Block>, b: nat)
    requires Regular(blocks) && b < |blocks| && StrictlySorted(Flatten(blocks))
    ensures Sorted(blocks[b].strings)
  {
    FlattenAt(blocks, b);
    SliceSorted(Flatten(blocks), blocks[b].strings, BLOCK_SIZE * b);
  }

  lemma SliceSorted(all: seq<Bytes>, strings: seq<Bytes>, n: nat)
    requires StrictlySorted(all) && n + |strings| <= |all| && all[n..n + |strings|] == strings
    ensures Sorted(strings)
  {
    forall i | 1 <= i < |strings|
      ensures Compare(strings[i - 1], strings[i]) != Greater
    {
      assert Compare(all[n + i - 1], all[n + i]) == Less;
      assert all[n..n + |strings|][i] == all[n + i] && all[n..n + |strings|][i - 1] == all[n + i - 1];
    }
  }

  /** Strings below one that is not above `slice` may be skipped. */
  lemma {:induction false} SkipBelow(strings: seq<Bytes>, slice: Bytes, i: nat)
    requires StrictlySorted(strings) && i < |strings| && Compare(strings[i], slice) != Greater
    ensures LinearId(strings, slice, 0) == LinearId(strings, slice, i)
  {
    if i > 0 {
      CompareEqual(strings[i], slice);
      if Compare(strings[i], slice) == Less {
        LessIsTransitive(strings[i - 1], strings[i], slice);
      }
      SkipBelow(strings, slice, i - 1);
    }
  }

  /** What the head of a block says. */
  lemma HeadAnswers(blocks: seq<Block>, b: nat, slice: Bytes)
    requires Regular(blocks) && b < |blocks| && StrictlySorted(Flatten(blocks))
    ensures var head := blocks[b].strings[0];
      && (Compare(slice, head) == Equal ==> LinearId(Flatten(blocks), slice, 0) == Found(b * BLOCK_SIZE))
      && (Compare(slice, head) == Less && b == 0 ==> LinearId(Flatten(blocks), slice, 0) == NotFound)
  {
    HeadOfBlock(blocks, b, 8 * b);
    var strings, head := Flatten(blocks), blocks[b].strings[0];
    CompareFlips(slice, head);
    CompareEqual(slice, head);
    CompareEqual(head, slice);
    if slice == head {
      SkipBelow(strings, slice, 8 * b);
    }
  }

  /** Inside a block the reference lookup over all strings is the one over the block. */
  lemma {:induction false} LinearInBlock(strings: seq<Bytes>, block: seq<Bytes>, n: nat, slice: Bytes, k: nat)
    requires 1 <= k <= |block| && n + |block| <= |strings| && strings[n..n + |block|] == block
    requires n + |block| < |strings| ==> Compare(slice, strings[n + |block|]) == Less
    ensures LinearId(strings, slice, n + k) == LinearId(block, slice, k).Offset(n)
    decreases |block| - k
  {
    if k < |block| {
      assert strings[n..n + |block|][k] == strings[n + k];
      LinearInBlock(strings, block, n, slice, k + 1);
    } else if n + k < |strings| {
      CompareFlips(slice, strings[n + k]);
      CompareEqual(slice, strings[n + k]);
    }
  }

  /** The block the string belongs to answers for the whole dictionary. */
  lemma BlockAnswers(blocks: seq<Block>, b: nat, slice: Bytes)
    requires Regular(blocks) && b < |blocks| && StrictlySorted(Flatten(blocks))
    requires Compare(blocks[b].strings[0], slice) == Less
    requires b + 1 < |blocks| ==> Compare(slice, blocks[b + 1].strings[0]) == Less
    ensures !LinearId(blocks[b].strings, slice, 0).NotFound?
    ensures LinearId(Flatten(blocks), slice, 0) == LinearId(blocks[b].strings, slice, 0).Offset(b * BLOCK_SIZE)
  {
    var strings, block, n := Flatten(blocks), blocks[b].strings, 8 * b;
    BlockOfAll(blocks, b, n);
    SkipBelow(strings, slice, n);
    LinearInBlock(strings, block, n, slice, 1);
    LinearPastHead(block, slice, 1);
  }

  /** Block `b` is a slice of all strings, and the next block's head comes right behind it. */
  lemma BlockOfAll(blocks: seq<Block>, b: nat, n: nat)
    requires Regular(blocks) && b < |blocks| && n == 8 * b
    ensures n < n + |blocks[b].strings| <= |Flatten(blocks)|
    ensures Flatten(blocks)[n..n + |blocks[b].strings|] == blocks[b].strings &&
      Flatten(blocks)[n] == blocks[b].strings[0]
    ensures b + 1 < |blocks| ==>
      |blocks[b].strings| == 8 && n + 8 < |Flatten(blocks)| && Flatten(blocks)[n + 8] == blocks[b + 1].strings[0]
    ensures b + 1 == |blocks| ==> n + |blocks[b].strings| == |Flatten(blocks)|
  {
    FlattenAt(blocks, b);
    HeadOfBlock(blocks, b, n);
    if b + 1 < |blocks| {
      HeadOfBlock(blocks, b + 1, n + 8);
    }
  }

  lemma HeadOfBlock(blocks: seq<Block>, b: nat, n: nat)
    requires Regular(blocks) && b < |blocks| && n == 8 * b
    ensures n < |Flatten(blocks)| && blocks[b].strings[0] == Flatten(blocks)[n]
  {
    FlattenAt(blocks, b);
    assert Flatten(blocks)[n..n + |blocks[b].strings|][0] == Flatten(blocks)[n];
  }

  lemma {:induction false} LinearPastHead(strings: seq<Bytes>, slice: Bytes, i: nat)
    requires 1 <= i <= |strings|
    ensures !LinearId(strings, slice, i).NotFound?
    decreases |strings| - i
  {
    if i < |strings| {
      LinearPastHead(strings, slice, i + 1);
    }
  }

  lemma {:induction false} BlockTail(data: Bytes, blocks: seq<Block>, b: nat, offset: nat) returns (rest: Bytes)
    requires AllBytes(blocks) <= data && b < |blocks| && offset == |AllBytes(blocks[..b])|
    ensures offset <= |data| && data[offset..] == BytesOf(blocks[b]) + rest
  {
    BlockInside(blocks, b);
    var front, here, back := AllBytes(blocks[..b]), BytesOf(blocks[b]), AllBytes(blocks[b + 1..]);
    rest := back + data[|AllBytes(blocks)|..];
    TailOf(data, AllBytes(blocks), front, here, back);
  }

  lemma TailOf(data: Bytes, all: Bytes, front: Bytes, here: Bytes, back: Bytes)
    requires all == front + (here + back) && all <= data
    ensures data[|front|..] == here + (back + data[|all|..])
  {
    assert data == all + data[|all|..];
    assert data == front + (here + (back + data[|all|..]));
  }

  /** Where the entry with number `i` is. */
  lemma EntryPlace(blocks: seq<Block>, i: nat, b: nat, k: nat)
    requires Regular(blocks) && i < |Flatten(blocks)| && b == i / 8 && k == i % 8
    ensures b < |blocks| && k < |blocks[b].strings| && blocks[b].strings[k] == Flatten(blocks)[i]
    ensures StrictlySorted(Flatten(blocks)) && k > 0 ==> Suffix(blocks[b].strings, k) != []
  {
    var n := |blocks| - 1;
    FlattenAt(blocks, n);
    FlattenAt(blocks, b);
    var strings := blocks[b].strings;
    assert Flatten(blocks)[8 * b..8 * b + |strings|][k] == Flatten(blocks)[i];
    if StrictlySorted(Flatten(blocks)) && k > 0 {
      assert Flatten(blocks)[8 * b..8 * b + |strings|][k - 1] == Flatten(blocks)[i - 1];
      StrictSuffix(strings, k);
    }
  }
}
