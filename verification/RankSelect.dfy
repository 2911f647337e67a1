/** Rank and select over an indexed bit array. */
module RankSelect {
  import opened Bits
  import opened Words
  import opened BitStreams
  import opened Results
  import opened BitIndexes
  import A = BitArrays
  import L = LogArrays

  /** Rank in `bits` followed by endless zeros: what the index counts past the end. */
  ghost function Filled(bits: seq<bool>, b: bool, i: nat): nat {
    if i <= |bits| then Rank(bits, b, i)
    else Rank(bits, b, |bits|) + if b then 0 else i - |bits|
  }

  lemma FilledMonotone(bits: seq<bool>, b: bool, i: nat, j: nat)
    requires i <= j
    ensures Filled(bits, b, i) <= Filled(bits, b, j) <= Filled(bits, b, i) + (j - i)
  {
    RankMonotone(bits, b, if i <= |bits| then i else |bits|, if j <= |bits| then j else |bits|);
  }

  /**
   * What a select answers. `Panics` stands for a failed assertion, an access out of bounds, or an overflow, in a build
   * that checks for all of these.
   */
  datatype Selected = Found(pos: nat) | Absent | Panics

  datatype BitIndex = BitIndex(bitArray: A.BitArray, blocks: L.LogArray, sblocks: L.LogArray) {
    ghost function AllWords(): seq<Word> {
      A.WordsOf(bitArray.buf)
    }

    /** The array holds `bits`, and the two index levels are the ranks of its blocks. */
    ghost predicate Holds(bits: seq<bool>) {
      && bitArray.Holds(bits)
      && L.HoldsNats(blocks, BlockRanks(AllWords(), |AllWords()|))
      && L.HoldsNats(sblocks, SblockRanks(AllWords(), (|AllWords()| + SBLOCK_SIZE - 1) / SBLOCK_SIZE))
    }

    lemma Sizes(bits: seq<bool>)
      requires Holds(bits)
      ensures bitArray.len == |bits|
      ensures blocks.len == |AllWords()| == (|bits| + 63) / 64 == |bitArray.buf| / 8 && |bitArray.buf| % 8 == 0
      ensures sblocks.len == (blocks.len + SBLOCK_SIZE - 1) / SBLOCK_SIZE
      ensures blocks.Valid() && sblocks.Valid()
    {}

    lemma Entries(bits: seq<bool>, block: nat)
      requires Holds(bits) && block < blocks.len
      ensures blocks.Valid() && blocks.Entry(block) == BlockRank(AllWords(), block)
    {
      BlockRankAt(AllWords(), |AllWords()|, block);
    }

    lemma SblockEntries(bits: seq<bool>, sblock: nat)
      requires Holds(bits) && sblock < sblocks.len
      ensures sblocks.Valid() && sblocks.Entry(sblock) == SblockRank(AllWords(), sblock)
    {
      SblockRankAt(AllWords(), sblocks.len, sblock);
    }

    /** The words of the buffer are the blocks of the bits. */
    lemma Blocks(bits: seq<bool>)
      requires Holds(bits)
      ensures AreBlocks(AllWords(), bits)
    {
      forall block | 0 <= block < |AllWords()|
        ensures IsBlock(AllWords()[block], bits, block)
      {
        ReadU64Bits(bitArray.buf, 8 * block);
        PaddedWord(BufferBits(bitArray.buf), bits, AllWords()[block], block, 8 * (8 * block));
      }
    }

    function Block(block: nat): Word
      requires 8 * block + 8 <= |bitArray.buf|
    {
      ReadU64(bitArray.buf, 8 * block)
    }

    /** Ones up to and including `index`. */
    function Rank1(index: nat, ghost bits: seq<bool>): (r: nat)
      requires Holds(bits) && index < |bits|
      ensures r == Rank(bits, true, index + 1)
    {
      Sizes(bits);
      var block := index / 64;
      var sblock := block / SBLOCK_SIZE;
      Rank1Steps(bits, index, block, sblock);
      var blockRank := blocks.Entry(block);
      var sblockRank := sblocks.Entry(sblock);
      var onesInBlock := CountOnes(Shr(Block(block), 63 - index % 64));
      sblockRank - blockRank + onesInBlock
    }

    /** A block's start, from its superblock's rank and its own. */
    lemma OnesBefore(bits: seq<bool>, block: nat, sblock: nat, at: nat)
      requires Holds(bits) && block < blocks.len && sblock == block / SBLOCK_SIZE && at == 64 * block
      ensures sblock < sblocks.len && blocks.Valid() && sblocks.Valid()
      ensures sblocks.Entry(sblock) - blocks.Entry(block) == Filled(bits, true, at)
    {
      Sizes(bits);
      Entries(bits, block);
      SblockEntries(bits, sblock);
      Blocks(bits);
      OnesOfBlocks(AllWords(), bits, block, at);
    }

    lemma Rank1Steps(bits: seq<bool>, index: nat, block: nat, sblock: nat)
      requires Holds(bits) && index < |bits| && block == index / 64 && sblock == block / SBLOCK_SIZE
      ensures block < blocks.len && sblock < sblocks.len && blocks.Valid() && sblocks.Valid()
      ensures 8 * block + 8 <= |bitArray.buf|
      ensures sblocks.Entry(sblock) - blocks.Entry(block) == Rank(bits, true, 64 * block)
      ensures CountOnes(Shr(Block(block), 63 - index % 64))
           == Rank(bits, true, index + 1) - Rank(bits, true, 64 * block)
    {
      Sizes(bits);
      OnesBefore(bits, block, sblock, 64 * block);
      Blocks(bits);
      assert AllWords()[block] == Block(block);
      OnesUpTo(bits, Block(block), block, index % 64, index + 1, 64 * block);
    }

    /** Ones in `[start, end)`. */
    function Rank1FromRange(start: nat, end: nat, ghost bits: seq<bool>): (r: nat)
      requires Holds(bits) && start <= end <= |bits|
      ensures r == Rank(bits, true, end) - Rank(bits, true, start)
    {
      if start == end then 0
      else
        RankMonotone(bits, true, start, end);
        var rank := Rank1(end - 1, bits);
        if start != 0 then rank - Rank1(start - 1, bits) else rank
    }

    /** Zeros up to and including `index`. */
    function Rank0(index: nat, ghost bits: seq<bool>): (r: nat)
      requires Holds(bits) && index < |bits|
      ensures r == Rank(bits, false, index + 1)
    {
      RankComplement(bits, index + 1);
      1 + index - Rank1(index, bits)
    }

    /** Zeros in `[start, end)`. */
    function Rank0FromRange(start: nat, end: nat, ghost bits: seq<bool>): (r: nat)
      requires Holds(bits) && start <= end <= |bits|
      ensures r == Rank(bits, false, end) - Rank(bits, false, start)
    {
      if start == end then 0
      else
        RankMonotone(bits, false, start, end);
        var rank := Rank0(end - 1, bits);
        if start != 0 then rank - Rank0(start - 1, bits) else rank
    }

    /** `rank1_from_range` or `rank0_from_range`. */
    method RankFromRange(b: bool, start: nat, end: nat, ghost bits: seq<bool>) returns (r: nat)
      requires Holds(bits) && start <= end <= |bits|
      ensures r == Rank(bits, b, end) - Rank(bits, b, start)
    {
      r := if b then Rank1FromRange(start, end, bits) else Rank0FromRange(start, end, bits);
    }

    method Get(index: nat, ghost bits: seq<bool>) returns (r: bool)
      requires Holds(bits) && index < |bits|
      ensures r == bits[index]
    {
      bitArray.GetIsBit(bits, index);
      r := bitArray.Get(index);
    }

    // Select

    function Len(): nat {
      bitArray.len
    }

    /** Bits equal to `b` up to the end of a superblock, padding included. */
    method SblockCount(b: bool, sblock: nat, ghost bits: seq<bool>, ghost end: nat) returns (r: nat)
      requires Holds(bits) && sblock < sblocks.len && end == SBLOCK_SIZE * 64 * (sblock + 1)
      ensures r == Filled(bits, b, end)
    {
      SblockEntries(bits, sblock);
      Blocks(bits);
      OnesOfBlocks(AllWords(), bits, SBLOCK_SIZE * (sblock + 1), end);
      FilledComplement(bits, end);
      var entry := sblocks.Entry(sblock);
      r := if b then entry else (1 + sblock) * SBLOCK_SIZE * 64 - entry;
    }

    /** A block's entry: the ones between its start and the end of its superblock. */
    lemma OnesBehind(bits: seq<bool>, block: nat, at: nat, next: nat, end: nat)
      requires Holds(bits) && block < blocks.len && next == SBLOCK_SIZE * (block / SBLOCK_SIZE + 1)
      requires at == 64 * block && end == 64 * next
      ensures blocks.Valid() && Filled(bits, true, at) + blocks.Entry(block) == Filled(bits, true, end)
    {
      Entries(bits, block);
      Blocks(bits);
      OnesOfBlocks(AllWords(), bits, block, at);
      OnesOfBlocks(AllWords(), bits, next, end);
    }

    /** Bits equal to `b` from the start of a block to the end of its superblock, padding included. */
    method BlockCount(b: bool, block: nat, ghost bits: seq<bool>, ghost at: nat, ghost sblock: nat, ghost end: nat)
      returns (r: nat)
      requires Holds(bits) && block < blocks.len && block / SBLOCK_SIZE == sblock
      requires at == 64 * block && end == SBLOCK_SIZE * 64 * (sblock + 1)
      ensures Filled(bits, b, at) + r == Filled(bits, b, end)
    {
      OnesBehind(bits, block, at, SBLOCK_SIZE * (sblock + 1), end);
      FilledComplement(bits, at);
      FilledComplement(bits, end);
      FilledMonotone(bits, b, at, end);
      var entry := blocks.Entry(block);
      r := if b then entry else (SBLOCK_SIZE - block % SBLOCK_SIZE) * 64 - entry;
    }

    /** The superblock a search may not go past. */
    function LastSblock(end: Option<nat>): int {
      match end
      case Some(e) => e / (64 * SBLOCK_SIZE)
      case None => sblocks.len - 1
    }

    /** Binary search for the superblock in which `rank` is reached, between those of `start` and `end`. */
    method SelectSblock(b: bool, rank: nat, start: nat, end: Option<nat>, ghost bits: seq<bool>) returns (mid: nat)
      requires Holds(bits) && start < |bits|
      requires end.Some? ==> start <= end.value <= |bits|
      ensures start / (64 * SBLOCK_SIZE) <= mid <= LastSblock(end) <= sblocks.len
      ensures mid > start / (64 * SBLOCK_SIZE) ==> Filled(bits, b, SBLOCK_SIZE * 64 * mid) < rank
      ensures mid < LastSblock(end) ==> Filled(bits, b, SBLOCK_SIZE * 64 * (mid + 1)) >= rank
    {
      SblockRange(bits, start, end);
      mid := BisectSblocks(b, rank, start / (64 * SBLOCK_SIZE), LastSblock(end), bits);
    }

    /** Whether the count up to the end of a superblock is below `rank`. */
    method EndsBelow(b: bool, rank: nat, sblock: nat, ghost bits: seq<bool>) returns (r: bool)
      requires Holds(bits) && sblock < sblocks.len
      ensures r <==> Filled(bits, b, SBLOCK_SIZE * 64 * (sblock + 1)) < rank
    {
      var count := SblockCount(b, sblock, bits, SBLOCK_SIZE * 64 * (sblock + 1));
      r := count < rank;
    }

    method BisectSblocks(b: bool, rank: nat, first: nat, last: nat, ghost bits: seq<bool>) returns (mid: nat)
      requires Holds(bits) && first <= last <= sblocks.len
      ensures first <= mid <= last
      ensures mid > first ==> Filled(bits, b, SBLOCK_SIZE * 64 * mid) < rank
      ensures mid < last ==> Filled(bits, b, SBLOCK_SIZE * 64 * (mid + 1)) >= rank
    {
      var lo, hi := first, last;
      while true
        invariant first <= lo <= hi <= last
        invariant lo > first ==> Filled(bits, b, SBLOCK_SIZE * 64 * lo) < rank
        invariant hi < last ==> Filled(bits, b, SBLOCK_SIZE * 64 * (hi + 1)) >= rank
        decreases hi - lo
      {
        mid := (lo + hi) / 2;
        if lo == hi {
          break;
        }
        var below := EndsBelow(b, rank, mid, bits);
        if below {
          lo := mid + 1;
        } else {
          hi := mid;
        }
      }
    }

    lemma SblockRange(bits: seq<bool>, start: nat, end: Option<nat>)
      requires Holds(bits) && start < |bits|
      requires end.Some? ==> start <= end.value <= |bits|
      ensures start / (64 * SBLOCK_SIZE) <= LastSblock(end) <= sblocks.len
      ensures start / (64 * SBLOCK_SIZE) < sblocks.len
      ensures LastSblock(end) == sblocks.len <==> end.Some? && end.value == |bits| && |bits| % (64 * SBLOCK_SIZE) == 0
    {
      Sizes(bits);
    }

    /** Binary search for the rightmost block of the superblock with more than `subrank` from its start. */
    method SelectBlock(b: bool, sblock: nat, subrank: nat, ghost bits: seq<bool>, ghost total: nat) returns (mid: nat)
      requires Holds(bits) && sblock < sblocks.len
      requires total == Filled(bits, b, SBLOCK_SIZE * 64 * (sblock + 1))
      ensures SBLOCK_SIZE * sblock <= mid < blocks.len && mid < SBLOCK_SIZE * (sblock + 1)
      ensures mid > SBLOCK_SIZE * sblock ==> Filled(bits, b, 64 * mid) + subrank < total
      ensures mid + 1 < blocks.len && mid + 1 < SBLOCK_SIZE * (sblock + 1) ==>
        Filled(bits, b, 64 * (mid + 1)) + subrank >= total
    {
      Sizes(bits);
      var lo := sblock * SBLOCK_SIZE;
      var hi := lo + SBLOCK_SIZE - 1;
      if hi > blocks.len - 1 {
        hi := blocks.len - 1;
      }
      mid := BisectBlocks(b, lo, hi, sblock, subrank, bits, total);
    }

    method BisectBlocks(b: bool, first: nat, last: nat, ghost sblock: nat, subrank: nat, ghost bits: seq<bool>,
                        ghost total: nat)
      returns (mid: nat)
      requires Holds(bits) && SBLOCK_SIZE * sblock == first <= last < blocks.len && last < SBLOCK_SIZE * (sblock + 1)
      requires total == Filled(bits, b, SBLOCK_SIZE * 64 * (sblock + 1))
      ensures first <= mid <= last
      ensures mid > first ==> Filled(bits, b, 64 * mid) + subrank < total
      ensures mid < last ==> Filled(bits, b, 64 * (mid + 1)) + subrank >= total
    {
      var lo, hi := first, last;
      while true
        invariant first <= lo <= hi <= last
        invariant lo > first ==> Filled(bits, b, 64 * lo) + subrank < total
        invariant hi < last ==> Filled(bits, b, 64 * (hi + 1)) + subrank >= total
        decreases hi - lo
      {
        mid := (lo + hi + 1) / 2;
        if lo == hi {
          break;
        }
        var r := BlockCount(b, mid, bits, 64 * mid, sblock, SBLOCK_SIZE * 64 * (sblock + 1));
        if r > subrank {
          lo := mid;
        } else {
          hi := mid - 1;
        }
      }
    }

    /** Reads a block out of the buffer. */
    method ReadBlock(block: nat, ghost bits: seq<bool>) returns (word: Word)
      requires Holds(bits) && block < blocks.len
      ensures IsBlock(word, bits, block)
    {
      Sizes(bits);
      Blocks(bits);
      word := Block(block);
      assert word == AllWords()[block];
    }

    /** Select by scanning, for ranges that lie within one cache line. */
    method SelectLinear(b: bool, subrank: nat, start: nat, end: Option<nat>, ghost bits: seq<bool>)
        returns (r: Selected)
      requires Holds(bits) && start <= EndOr(end, |bits|) <= |bits|
      requires UseLinearBitscan(start, EndOr(end, |bits|))
      ensures 1 <= subrank ==> !r.Panics? && Answers(r, bits, b, Rank(bits, b, start) + subrank, start, end)
      ensures subrank == 0 ==> r == SelectZero(bits, b, start, end)
      ensures r.Found? ==> r.pos < |bits|
    {
      Sizes(bits);
      if end.Some? && start >= end.value {
        return Absent;
      }
      if subrank == 0 {
        if start >= Len() {
          return Panics;
        }
        var bit := Get(start, bits);
        return if bit == b then Absent else Found(start);
      }
      var stop := EndOr(end, bitArray.len);
      var left := subrank;
      for i := start to stop
        invariant 1 <= left && Rank(bits, b, i) + left == Rank(bits, b, start) + subrank
      {
        bitArray.GetIsBit(bits, i);
        if bitArray.Get(i) == b {
          left := left - 1;
          if left == 0 {
            return Found(i);
          }
        }
      }
      return Absent;
    }

    /** Bits equal to `b` before `start`. */
    method RankBefore(b: bool, start: nat, ghost bits: seq<bool>) returns (r: nat)
      requires Holds(bits) && start <= |bits|
      ensures r == Rank(bits, b, start)
    {
      if start == 0 {
        r := 0;
      } else if b {
        r := Rank1(start - 1, bits);
      } else {
        r := Rank0(start - 1, bits);
      }
    }

    /** Select through the index: superblock search, block search, scan of one word. */
    method SelectIndexed(b: bool, subrank: nat, rank: nat, start: nat, end: Option<nat>, ghost bits: seq<bool>)
      returns (r: Selected)
      requires Holds(bits) && start <= EndOr(end, |bits|) <= |bits|
      requires Rank(bits, b, start) + subrank == rank && !UseLinearBitscan(start, EndOr(end, |bits|))
      ensures 1 <= subrank ==> Answers(r, bits, b, rank, start, end)
      ensures 1 <= subrank ==> (r.Panics? <==> RunsOffIndex(bits, b, rank, end) || LandsShort(bits, b, rank, end))
      ensures subrank == 0 ==> r == SelectZero(bits, b, start, end)
    {
      Sizes(bits);
      var sblock := SelectSblock(b, rank, start, end, bits);
      if subrank == 0 {
        ZeroSblock(bits, b, start, end, sblock);
      } else {
        AfterSblock(bits, b, rank, start, end, sblock);
      }
      if sblock >= sblocks.len {
        return Panics;
      }
      var sblockRank := SblockCount(b, sblock, bits, SBLOCK_SIZE * 64 * (sblock + 1));
      if sblockRank < rank {
        return Absent;
      }
      var block := SelectBlock(b, sblock, sblockRank - rank, bits, sblockRank);
      if subrank == 0 {
        ZeroBlock(bits, b, start, sblock, block);
      } else {
        AfterBlock(bits, b, rank, end, sblock, block);
      }
      r := SelectInBlock(b, subrank, rank, start, end, sblock, sblockRank, block, bits);
    }

    /** How many bits equal to `b` into the block the one asked for is. */
    method RankInBlock(b: bool, rank: nat, sblockRank: nat, block: nat, ghost bits: seq<bool>, ghost sblock: nat,
                       ghost total: nat)
      returns (r: nat)
      requires Holds(bits) && block < blocks.len && block / SBLOCK_SIZE == sblock
      requires total == SBLOCK_SIZE * 64 * (sblock + 1)
      requires sblockRank == Filled(bits, b, total) && rank <= sblockRank && Filled(bits, b, 64 * block) <= rank
      ensures Filled(bits, b, 64 * block) + r == rank
    {
      var blockSubrank := BlockCount(b, block, bits, 64 * block, sblock, total);
      r := rank - (sblockRank - blockSubrank);
    }

    method SelectInBlock(b: bool, subrank: nat, rank: nat, start: nat, end: Option<nat>, ghost sblock: nat,
                         sblockRank: nat, block: nat, ghost bits: seq<bool>) returns (r: Selected)
      requires Holds(bits) && start <= EndOr(end, |bits|) <= |bits|
      requires Rank(bits, b, start) + subrank == rank && !UseLinearBitscan(start, EndOr(end, |bits|))
      requires block < blocks.len && SBLOCK_SIZE * sblock <= block < SBLOCK_SIZE * (sblock + 1)
      requires sblockRank == Filled(bits, b, SBLOCK_SIZE * 64 * (sblock + 1)) && rank <= sblockRank
      requires if subrank == 0 then ZeroSettled(bits, b, start, block) else Settled(bits, b, rank, end, block)
      ensures 1 <= subrank ==> Answers(r, bits, b, rank, start, end) && (r.Panics? <==> LandsShort(bits, b, rank, end))
      ensures subrank == 0 ==> r == SelectZero(bits, b, start, end)
    {
      Sizes(bits);
      assert block / SBLOCK_SIZE == sblock;
      var rankInBlock := RankInBlock(b, rank, sblockRank, block, bits, sblock, SBLOCK_SIZE * 64 * (sblock + 1));
      if subrank == 0 {
        FilledMonotone(bits, b, 64 * block, 64 * block + 64);
      }
      if rankInBlock > 64 {
        return Panics;
      }
      var word := ReadBlock(block, bits);
      r := ScanBlock(bits, b, subrank, rank, start, end, block, word, rankInBlock);
    }

    /** Scans the block the index has settled on. Counting down from zero underflows. */
    method ScanBlock(ghost bits: seq<bool>, b: bool, subrank: nat, ghost rank: nat, start: nat, end: Option<nat>,
                     block: nat, word: Word, rankInBlock: nat) returns (r: Selected)
      requires Holds(bits) && start <= EndOr(end, |bits|) <= |bits|
      requires Rank(bits, b, start) + subrank == rank && !UseLinearBitscan(start, EndOr(end, |bits|))
      requires block < NumBlocks(|bits|) && IsBlock(word, bits, block)
      requires Filled(bits, b, 64 * block) + rankInBlock == rank && rankInBlock <= 64
      requires if subrank == 0 then ZeroSettled(bits, b, start, block) else Settled(bits, b, rank, end, block)
      ensures 1 <= subrank ==> Answers(r, bits, b, rank, start, end) && !r.Panics?
      ensures subrank == 0 ==> r == SelectZero(bits, b, start, end)
    {
      var i, underflow := ScanWord(b, word, rankInBlock);
      AnyScanned(bits, b, word, block, 64 * block, subrank, rank, start, end, rankInBlock, i, underflow);
      if underflow {
        return Panics;
      }
      if i == 64 {
        return Absent;
      }
      r := Place(bits, b, subrank, rank, start, end, 64 * block + i);
    }

    /** The last step: a position outside the range is no answer, but for rank 0 its start may be. */
    method Place(ghost bits: seq<bool>, b: bool, subrank: nat, ghost rank: nat, start: nat, end: Option<nat>,
                 result: nat)
      returns (r: Selected)
      requires Holds(bits) && start <= EndOr(end, |bits|) <= |bits|
      requires Rank(bits, b, start) + subrank == rank && !UseLinearBitscan(start, EndOr(end, |bits|))
      requires result < 64 * NumBlocks(|bits|)
      requires Filled(bits, b, result) + 1 == rank && (if result < |bits| then bits[result] else false) == b
      ensures 1 <= subrank ==> Answers(r, bits, b, rank, start, end) && !r.Panics?
      ensures subrank == 0 ==> r == if bits[start] == b then Absent else Found(start)
    {
      PlaceOf(bits, b, subrank, rank, start, end, result);
      var atStart := false;
      if result < start && (end.None? || start < end.value) && subrank == 0 {
        var bit := Get(start, bits);
        atStart := bit != b;
      }
      if atStart {
        r := Found(start);
      } else if result < start || (end.Some? && result >= end.value) {
        r := Absent;
      } else {
        r := Found(result);
      }
    }

    /** The `subrank`-th bit equal to `b` from `start` on, before `end` (or anywhere). */
    method SelectFromRangeOpt(b: bool, subrank: nat, start: nat, end: Option<nat>, ghost bits: seq<bool>)
      returns (r: Selected)
      requires Holds(bits) && start <= EndOr(end, |bits|) <= |bits|
      ensures 1 <= subrank ==> Answers(r, bits, b, Rank(bits, b, start) + subrank, start, end)
      ensures 1 <= subrank ==> (r.Panics? <==> IndexFails(bits, b, Rank(bits, b, start) + subrank, start, end))
      ensures subrank == 0 ==> r == SelectZero(bits, b, start, end)
      ensures r.Found? && UseLinearBitscan(start, EndOr(end, |bits|)) ==> r.pos < |bits|
    {
      Sizes(bits);
      if UseLinearBitscan(start, EndOr(end, Len())) {
        r := SelectLinear(b, subrank, start, end, bits);
      } else {
        var before := RankBefore(b, start, bits);
        if Overflows(start, before + subrank) {
          return Panics;
        }
        r := SelectIndexed(b, subrank, before + subrank, start, end, bits);
      }
    }

    /** `select1_from_range` and `select0_from_range`: exact, except that the index may fail on a
        bit that is not there. */
    method SelectFromRange(b: bool, subrank: nat, start: nat, end: nat, ghost bits: seq<bool>) returns (r: Selected)
      requires Holds(bits) && start <= end <= |bits|
      ensures 1 <= subrank && Rank(bits, b, end) >= Rank(bits, b, start) + subrank ==>
        r.Found? && r.pos < end && IsKth(bits, b, start, subrank, r.pos)
      ensures 1 <= subrank && Rank(bits, b, end) < Rank(bits, b, start) + subrank ==> !r.Found?
      ensures 1 <= subrank ==> (r.Panics? <==> IndexFails(bits, b, Rank(bits, b, start) + subrank, start, Some(end)))
      ensures subrank == 0 ==> r == SelectZero(bits, b, start, Some(end))
    {
      r := SelectFromRangeOpt(b, subrank, start, Some(end), bits);
      if 1 <= subrank {
        AnswerIsSelect(r, bits, b, subrank, start, end);
      }
    }

    /** `select1`: the position of the `rank`-th 1-bit, for every rank from 1 on; it never fails on those. */
    method Select1(rank: nat, ghost bits: seq<bool>) returns (r: Selected)
      requires Holds(bits)
      ensures 1 <= rank <= Rank(bits, true, |bits|) ==> r.Found? && IsKth(bits, true, 0, rank, r.pos)
      ensures rank > Rank(bits, true, |bits|) ==> r == Absent
      ensures rank == 0 ==> r == SelectZero(bits, true, 0, None)
    {
      r := SelectFromRangeOpt(true, rank, 0, None, bits);
      if 1 <= rank {
        OneAnswered(bits, rank, r);
      }
    }

    /** `select0`: right for every 0-bit there is. Past them it may answer with a padding bit. */
    method Select0(rank: nat, ghost bits: seq<bool>) returns (r: Selected)
      requires Holds(bits)
      ensures 1 <= rank <= Rank(bits, false, |bits|) ==> r.Found? && IsKth(bits, false, 0, rank, r.pos)
      ensures rank > Rank(bits, false, |bits|) ==> PastZeros(bits, rank - Rank(bits, false, |bits|), r)
      ensures rank == 0 ==> r == SelectZero(bits, false, 0, None)
    {
      r := SelectFromRangeOpt(false, rank, 0, None, bits);
      if 1 <= rank {
        ZeroAnswered(bits, rank, r);
      }
    }
  }

  /** The answer to a 0-bit `k` past the last: the `k`-th padding bit if the index is used and there are that many. */
  ghost predicate PastZeros(bits: seq<bool>, k: nat, r: Selected) {
    if !UseLinearBitscan(0, |bits|) && k <= 64 * NumBlocks(|bits|) - |bits|
    then r == Found(|bits| + k - 1)
    else !r.Found?
  }

  /** There are no ones in the padding. */
  lemma OneAnswered(bits: seq<bool>, rank: nat, r: Selected)
    requires 1 <= rank && Answers(r, bits, true, rank, 0, None)
    ensures rank <= Rank(bits, true, |bits|) ==> r.Found? && IsKth(bits, true, 0, rank, r.pos)
    ensures rank > Rank(bits, true, |bits|) ==> r == Absent
  {
    if r.Found? {
      RankMonotone(bits, true, r.pos + 1, |bits|);
    }
  }

  lemma ZeroFound(bits: seq<bool>, rank: nat, pos: nat)
    requires 1 <= rank && Answers(Found(pos), bits, false, rank, 0, None)
    ensures rank <= Rank(bits, false, |bits|) ==> IsKth(bits, false, 0, rank, pos)
    ensures rank > Rank(bits, false, |bits|) ==>
      pos == |bits| + (rank - Rank(bits, false, |bits|)) - 1 && pos < 64 * NumBlocks(|bits|)
  {
    if pos < |bits| {
      RankMonotone(bits, false, pos + 1, |bits|);
    }
  }

  lemma ZeroAnswered(bits: seq<bool>, rank: nat, r: Selected)
    requires 1 <= rank && Answers(r, bits, false, rank, 0, None)
    requires r.Found? && UseLinearBitscan(0, |bits|) ==> r.pos < |bits|
    ensures rank <= Rank(bits, false, |bits|) ==> r.Found? && IsKth(bits, false, 0, rank, r.pos)
    ensures rank > Rank(bits, false, |bits|) ==> PastZeros(bits, rank - Rank(bits, false, |bits|), r)
  {
    if r.Found? {
      ZeroFound(bits, rank, r.pos);
    } else if r.Panics? {
      ZeroMissing(bits, rank);
    }
  }

  lemma ZeroMissing(bits: seq<bool>, rank: nat)
    requires IndexFails(bits, false, rank, 0, None)
    ensures rank > Filled(bits, false, 64 * NumBlocks(|bits|)) >= Rank(bits, false, |bits|)
  {
    var padded := 64 * NumBlocks(|bits|);
    FilledMonotone(bits, false, |bits|, padded);
    FilledMonotone(bits, false, padded - 64, padded);
  }

  lemma {:induction false} BlockRankAt(blocks: seq<Word>, n: nat, b: nat)
    requires b < n
    ensures BlockRanks(blocks, n)[b] == BlockRank(blocks, b)
  {
    if b < n - 1 {
      BlockRankAt(blocks, n - 1, b);
    }
  }

  lemma {:induction false} SblockRankAt(blocks: seq<Word>, n: nat, b: nat)
    requires b < n
    ensures SblockRanks(blocks, n)[b] == SblockRank(blocks, b)
  {
    if b < n - 1 {
      SblockRankAt(blocks, n - 1, b);
    }
  }

  lemma PaddedWord(padded: seq<bool>, bits: seq<bool>, w: Word, block: nat, at: nat)
    requires IsPaddedTo(padded, bits) && IsWord(w, padded, at) && at == 64 * block
    ensures IsBlock(w, bits, block)
  {}

  /** `w` is block number `block` of `bits`, with zeros past the end. */
  ghost predicate IsBlock(w: Word, bits: seq<bool>, block: nat) {
    forall i :: 0 <= i < 64 ==> w[i] == (64 * block + i < |bits| && bits[64 * block + i])
  }

  ghost predicate AreBlocks(blocks: seq<Word>, bits: seq<bool>) {
    |blocks| == (|bits| + 63) / 64 && forall b :: 0 <= b < |blocks| ==> IsBlock(blocks[b], bits, b)
  }

  /** The ones counted block by block are the ones of the bits. */
  lemma {:induction false} OnesOfBlocks(blocks: seq<Word>, bits: seq<bool>, b: nat, at: nat)
    requires AreBlocks(blocks, bits) && at == 64 * b
    ensures BlockOnes(blocks, b) == Filled(bits, true, at)
    decreases b
  {
    if b > 0 {
      OnesOfBlocks(blocks, bits, b - 1, at - 64);
      if b <= |blocks| {
        OnesOfBlock(bits, blocks[b - 1], b - 1, at - 64, at);
      }
    }
  }

  lemma OnesUpTo(bits: seq<bool>, w: Word, block: nat, k: nat, end: nat, at: nat)
    requires IsBlock(w, bits, block) && k < 64 && at == 64 * block && end == at + k + 1 <= |bits|
    ensures CountOnes(Shr(w, 63 - k)) == Rank(bits, true, end) - Rank(bits, true, at)
  {
    ShiftedOnes(w, k);
    RankOfWindow(bits, w, true, at, k + 1);
  }

  lemma OnesOfBlock(bits: seq<bool>, w: Word, block: nat, at: nat, next: nat)
    requires at == 64 * block < |bits| && next == at + 64 && IsBlock(w, bits, block)
    ensures CountOnes(w) == Filled(bits, true, next) - Filled(bits, true, at)
  {
    var k := if next <= |bits| then 64 else |bits| - at;
    RankOfWindow(bits, w, true, at, k);
    RankOfTail(w, k);
  }

  lemma {:induction false} RankOfTail(w: seq<bool>, k: nat)
    requires k <= |w| && forall i :: k <= i < |w| ==> !w[i]
    ensures Rank(w, true, |w|) == Rank(w, true, k)
    decreases |w|
  {
    if k < |w| {
      RankOfTail(w[..|w| - 1], k);
      RankAgrees(w, w[..|w| - 1], true, |w| - 1);
      RankAgrees(w, w[..|w| - 1], true, k);
    }
  }

  /** Shifting out the bits after position `k` leaves the ones up to and including it. */
  lemma ShiftedOnes(w: Word, k: nat)
    requires k < 64
    ensures CountOnes(Shr(w, 63 - k)) == Rank(w, true, k + 1)
  {
    var r := Shr(w, 63 - k);
    RankOfZeros(r, 63 - k);
    RankOfWindow(r, w, true, 63 - k, k + 1);
  }

  lemma FilledComplement(bits: seq<bool>, i: nat)
    ensures Filled(bits, true, i) + Filled(bits, false, i) == i
  {
    RankComplement(bits, if i <= |bits| then i else |bits|);
  }

  lemma ShiftedView(num: Word, word: Word, i: nat)
    requires i < 64 && num == word[i..] + Zeros(i)
    ensures num[0] == word[i]
    ensures Shl(num, 1) == word[i + 1..] + Zeros(i + 1)
  {}

  /**
   * Scans one word from the top for its `tally`-th bit equal to `b`; 64 when it has too few. For the zeroth, the first
   * such bit makes the count underflow.
   */
  method ScanWord(b: bool, word: Word, tally: nat) returns (i: nat, underflow: bool)
    ensures IsScan(word, b, tally, i, underflow)
  {
    var num, left := word, tally;
    i, underflow := 0, false;
    while i < 64
      invariant i <= 64 && !underflow && Rank(word, b, i) + left == tally && (left == 0 ==> tally == 0)
      invariant num == word[i..] + Zeros(i)
    {
      ShiftedView(num, word, i);
      if num[0] == b {
        RankMonotone(word, b, i + 1, 64);
        if left == 0 {
          underflow := true;
          return;
        }
        left := left - 1;
        if left == 0 {
          return;
        }
      }
      num := Shl(num, 1);
      i := i + 1;
    }
  }

  // What the index says about positions

  lemma FilledStep(bits: seq<bool>, b: bool, i: nat)
    ensures Filled(bits, b, i + 1) == Filled(bits, b, i) + if (i < |bits| && bits[i]) == b then 1 else 0
  {}

  lemma {:induction false} FilledInBlock(bits: seq<bool>, b: bool, w: Word, block: nat, at: nat, i: nat)
    requires IsBlock(w, bits, block) && at == 64 * block && i <= 64
    ensures Filled(bits, b, at + i) == Filled(bits, b, at) + Rank(w, b, i)
  {
    if i > 0 {
      FilledInBlock(bits, b, w, block, at, i - 1);
      FilledStep(bits, b, at + (i - 1));
      assert w[i - 1] == (64 * block + (i - 1) < |bits| && bits[64 * block + (i - 1)]);
    }
  }

  function UseLinearBitscan(start: nat, end: nat): bool {
    start / (8 * 64) == end / (8 * 64)
  }

  function EndOr(end: Option<nat>, len: nat): nat {
    if end.Some? then end.value else len
  }

  /** Where a search over superblocks may at most end. */
  function LastSblockOf(len: nat, end: Option<nat>): int {
    match end
    case Some(e) => e / (64 * SBLOCK_SIZE)
    case None => NumSblocks(len) - 1
  }

  function NumBlocks(len: nat): nat {
    (len + 63) / 64
  }

  function NumSblocks(len: nat): nat {
    (NumBlocks(len) + SBLOCK_SIZE - 1) / SBLOCK_SIZE
  }

  /** The search runs off the superblock index: the range ends where a full last superblock ends, and
      the bit asked for is not there. */
  ghost predicate RunsOffIndex(bits: seq<bool>, b: bool, rank: nat, end: Option<nat>) {
    end == Some(|bits|) && |bits| % (64 * SBLOCK_SIZE) == 0 && Rank(bits, b, |bits|) < rank
  }

  /** Blocks missing from the last superblock count as zeros: the search settles on the last block,
      more than a block's worth short of the zero it was asked for. */
  ghost predicate LandsShort(bits: seq<bool>, b: bool, rank: nat, end: Option<nat>) {
    && !b && bits != [] && LastSblockOf(|bits|, end) == NumSblocks(|bits|) - 1
    && Filled(bits, b, 64 * (NumBlocks(|bits|) - 1)) + 64 < rank
    && rank <= Filled(bits, b, 64 * SBLOCK_SIZE * NumSblocks(|bits|))
  }

  /** What a select may answer, by what is in the range; `rank` is counted from the start of the bits. */
  ghost predicate Answers(r: Selected, bits: seq<bool>, b: bool, rank: nat, start: nat, end: Option<nat>)
    requires start <= EndOr(end, |bits|) <= |bits|
  {
    match r
    case Found(pos) =>
      && start <= pos < 64 * NumBlocks(|bits|) && (end.Some? ==> pos < end.value)
      && Filled(bits, b, pos) + 1 == rank
      && (if pos < |bits| then bits[pos] else false) == b
    case Absent =>
      && Rank(bits, b, EndOr(end, |bits|)) < rank
      && (end.None? && !UseLinearBitscan(start, |bits|) ==> Filled(bits, b, 64 * NumBlocks(|bits|)) < rank)
    case Panics => IndexFails(bits, b, rank, start, end)
  }

  /** The rank before the range is added to the one asked for in 64 bits. */
  predicate Overflows(start: nat, rank: nat) {
    start > 0 && rank >= WORD
  }

  /** Exactly when a select of rank 1 or more panics. */
  ghost predicate IndexFails(bits: seq<bool>, b: bool, rank: nat, start: nat, end: Option<nat>) {
    && !UseLinearBitscan(start, EndOr(end, |bits|))
    && (Overflows(start, rank) || RunsOffIndex(bits, b, rank, end) || LandsShort(bits, b, rank, end))
  }

  /** The start of the superblock a position is in. */
  function SblockStart(i: nat): nat {
    SBLOCK_SIZE * 64 * (i / (SBLOCK_SIZE * 64))
  }

  /**
   * What a select of rank 0 answers: the start of the range unless that holds `b`. The index answers so exactly if its
   * superblock holds a `b` before the start; if not, it panics or finds nothing by what the superblock's first block
   * holds.
   */
  ghost function SelectZero(bits: seq<bool>, b: bool, start: nat, end: Option<nat>): Selected
    requires start <= EndOr(end, |bits|) <= |bits|
  {
    var first := SblockStart(start);
    if end.Some? && start == end.value then Absent
    else if start == |bits| then Panics
    else if UseLinearBitscan(start, EndOr(end, |bits|)) || Filled(bits, b, first) < Rank(bits, b, start) then
      if bits[start] == b then Absent else Found(start)
    else if Filled(bits, b, first + 64) > Filled(bits, b, first) then Panics
    else Absent
  }

  /** The block in which a bit that is asked for lies, if it is there. */
  ghost predicate Settled(bits: seq<bool>, b: bool, rank: nat, end: Option<nat>, block: nat) {
    && Filled(bits, b, 64 * block) < rank
    && (Filled(bits, b, 64 * block) + 64 < rank <==> LandsShort(bits, b, rank, end))
    && (Filled(bits, b, 64 * block + 64) < rank ==> Filled(bits, b, 64 * NumBlocks(|bits|)) < rank)
  }

  /** For rank 0, the block of the last `b` before the start; the superblock's first one if it has none. */
  ghost predicate ZeroSettled(bits: seq<bool>, b: bool, start: nat, block: nat)
    requires start <= |bits|
  {
    var first, rank := SblockStart(start), Rank(bits, b, start);
    if Filled(bits, b, first) == rank then 64 * block == first
    else Filled(bits, b, 64 * block) < rank <= Filled(bits, b, 64 * block + 64) && Filled(bits, b, first) < rank
  }

  /** What the scan of a word may have come to. */
  ghost predicate IsScan(word: Word, b: bool, tally: nat, i: nat, underflow: bool) {
    && i <= 64
    && (i < 64 ==> word[i] == b && (if tally == 0 then underflow else Rank(word, b, i) + 1 == tally))
    && (i == 64 ==> Rank(word, b, 64) < tally || Rank(word, b, 64) == tally == 0)
    && (underflow <==> tally == 0 && Rank(word, b, 64) > 0)
  }

  /** The bit found, in terms of all bits. */
  lemma ScanFound(bits: seq<bool>, b: bool, word: Word, block: nat, at: nat, rank: nat, tally: nat, i: nat)
    requires IsBlock(word, bits, block) && at == 64 * block && i < 64 && block < NumBlocks(|bits|)
    requires Filled(bits, b, at) + tally == rank && IsScan(word, b, tally, i, false)
    ensures Filled(bits, b, at + i) + 1 == rank && at + i < 64 * NumBlocks(|bits|)
    ensures (if at + i < |bits| then bits[at + i] else false) == b
  {
    FilledInBlock(bits, b, word, block, at, i);
    assert word[i] == (64 * block + i < |bits| && bits[64 * block + i]);
  }

  lemma Scanned(bits: seq<bool>, b: bool, word: Word, block: nat, at: nat, rank: nat, start: nat, end: Option<nat>,
                tally: nat, i: nat, underflow: bool)
    requires start <= EndOr(end, |bits|) <= |bits| && block < NumBlocks(|bits|)
    requires IsBlock(word, bits, block) && at == 64 * block && IsScan(word, b, tally, i, underflow)
    requires Filled(bits, b, at) + tally == rank && Settled(bits, b, rank, end, block)
    ensures !underflow && (i == 64 ==> Answers(Absent, bits, b, rank, start, end))
    ensures i < 64 ==> Filled(bits, b, at + i) + 1 == rank && at + i < 64 * NumBlocks(|bits|)
    ensures i < 64 ==> (if at + i < |bits| then bits[at + i] else false) == b
  {
    if i < 64 {
      ScanFound(bits, b, word, block, at, rank, tally, i);
    } else {
      FilledInBlock(bits, b, word, block, at, 64);
      FilledMonotone(bits, b, EndOr(end, |bits|), 64 * NumBlocks(|bits|));
    }
  }

  /** The scan for rank 0 ended without a bit: it underflowed, or ran through. */
  lemma ZeroEnded(bits: seq<bool>, b: bool, start: nat, end: Option<nat>, at: nat, underflow: bool)
    requires start <= EndOr(end, |bits|) <= |bits| && start < |bits| && (end.Some? ==> start < end.value)
    requires !UseLinearBitscan(start, EndOr(end, |bits|))
    requires at == SblockStart(start) && Filled(bits, b, at) == Rank(bits, b, start)
    requires underflow <==> Filled(bits, b, at + 64) > Filled(bits, b, at)
    ensures SelectZero(bits, b, start, end) == if underflow then Panics else Absent
  {}

  lemma ZeroScanned(bits: seq<bool>, b: bool, word: Word, block: nat, at: nat, start: nat, end: Option<nat>,
                    tally: nat, i: nat, underflow: bool)
    requires start <= EndOr(end, |bits|) <= |bits| && block < NumBlocks(|bits|)
    requires !UseLinearBitscan(start, EndOr(end, |bits|))
    requires IsBlock(word, bits, block) && at == 64 * block && IsScan(word, b, tally, i, underflow)
    requires Filled(bits, b, at) + tally == Rank(bits, b, start) && ZeroSettled(bits, b, start, block)
    ensures underflow ==> SelectZero(bits, b, start, end) == Panics
    ensures i == 64 && !underflow ==> SelectZero(bits, b, start, end) == Absent
    ensures i < 64 && !underflow ==>
      Filled(bits, b, at + i) + 1 == Rank(bits, b, start) && at + i < 64 * NumBlocks(|bits|)
    ensures i < 64 && !underflow ==> (if at + i < |bits| then bits[at + i] else false) == b
    ensures i < 64 && !underflow ==> Filled(bits, b, SblockStart(start)) < Rank(bits, b, start)
  {
    FilledInBlock(bits, b, word, block, at, 64);
    if i < 64 && !underflow {
      ScanFound(bits, b, word, block, at, Rank(bits, b, start), tally, i);
    } else {
      ZeroEnded(bits, b, start, end, at, underflow);
    }
  }

  lemma AnyScanned(bits: seq<bool>, b: bool, word: Word, block: nat, at: nat, subrank: nat, rank: nat, start: nat,
                   end: Option<nat>, tally: nat, i: nat, underflow: bool)
    requires start <= EndOr(end, |bits|) <= |bits| && block < NumBlocks(|bits|)
    requires !UseLinearBitscan(start, EndOr(end, |bits|)) && Rank(bits, b, start) + subrank == rank
    requires IsBlock(word, bits, block) && at == 64 * block && IsScan(word, b, tally, i, underflow)
    requires Filled(bits, b, at) + tally == rank
    requires if subrank == 0 then ZeroSettled(bits, b, start, block) else Settled(bits, b, rank, end, block)
    ensures underflow ==> subrank == 0 && SelectZero(bits, b, start, end) == Panics
    ensures i == 64 && !underflow && subrank == 0 ==> SelectZero(bits, b, start, end) == Absent
    ensures i == 64 && subrank > 0 ==> Answers(Absent, bits, b, rank, start, end)
    ensures i < 64 && !underflow ==> Filled(bits, b, at + i) + 1 == rank && at + i < 64 * NumBlocks(|bits|)
    ensures i < 64 && !underflow ==> (if at + i < |bits| then bits[at + i] else false) == b
    ensures i < 64 && !underflow && subrank == 0 ==> Filled(bits, b, SblockStart(start)) < Rank(bits, b, start)
  {
    if subrank == 0 {
      ZeroScanned(bits, b, word, block, at, start, end, tally, i, underflow);
    } else {
      Scanned(bits, b, word, block, at, rank, start, end, tally, i, underflow);
    }
  }

  lemma ZeroSblock(bits: seq<bool>, b: bool, start: nat, end: Option<nat>, sblock: nat)
    requires start <= EndOr(end, |bits|) <= |bits| && start < |bits|
    requires start / (64 * SBLOCK_SIZE) <= sblock <= LastSblockOf(|bits|, end)
    requires sblock > start / (64 * SBLOCK_SIZE) ==> Filled(bits, b, SBLOCK_SIZE * 64 * sblock) < Rank(bits, b, start)
    ensures sblock == start / (64 * SBLOCK_SIZE) < NumSblocks(|bits|)
    ensures Filled(bits, b, SBLOCK_SIZE * 64 * (sblock + 1)) >= Rank(bits, b, start)
  {
    FilledMonotone(bits, b, start, SBLOCK_SIZE * 64 * (sblock + 1));
    if sblock > start / (64 * SBLOCK_SIZE) {
      FilledMonotone(bits, b, start, SBLOCK_SIZE * 64 * sblock);
    }
  }

  lemma ZeroBlock(bits: seq<bool>, b: bool, start: nat, sblock: nat, block: nat)
    requires start < |bits| && sblock == start / (64 * SBLOCK_SIZE)
    requires SBLOCK_SIZE * sblock <= block < SBLOCK_SIZE * (sblock + 1) && block < NumBlocks(|bits|)
    requires block > SBLOCK_SIZE * sblock ==> Filled(bits, b, 64 * block) < Rank(bits, b, start)
    requires block + 1 < NumBlocks(|bits|) && block + 1 < SBLOCK_SIZE * (sblock + 1) ==>
      Filled(bits, b, 64 * (block + 1)) >= Rank(bits, b, start)
    ensures ZeroSettled(bits, b, start, block) && Filled(bits, b, 64 * block) <= Rank(bits, b, start)
  {
    FilledMonotone(bits, b, SblockStart(start), start);
    FilledMonotone(bits, b, SblockStart(start), 64 * block);
    StartReached(bits, b, start, sblock, block);
  }

  lemma StartReached(bits: seq<bool>, b: bool, start: nat, sblock: nat, block: nat)
    requires start < |bits| && sblock == start / (64 * SBLOCK_SIZE)
    requires block < SBLOCK_SIZE * (sblock + 1) && block < NumBlocks(|bits|)
    requires block + 1 < NumBlocks(|bits|) && block + 1 < SBLOCK_SIZE * (sblock + 1) ==>
      Filled(bits, b, 64 * (block + 1)) >= Rank(bits, b, start)
    ensures Filled(bits, b, 64 * block + 64) >= Rank(bits, b, start)
  {
    if start <= 64 * block + 64 {
      FilledMonotone(bits, b, start, 64 * block + 64);
    }
  }

  lemma PlaceOf(bits: seq<bool>, b: bool, subrank: nat, rank: nat, start: nat, end: Option<nat>, result: nat)
    requires start <= EndOr(end, |bits|) <= |bits| && Rank(bits, b, start) + subrank == rank
    requires Filled(bits, b, result) + 1 == rank && (if result < |bits| then bits[result] else false) == b
    ensures result < start <==> subrank == 0
    ensures end.Some? && end.value <= result ==> Rank(bits, b, end.value) < rank
  {
    FilledStep(bits, b, result);
    if result < start {
      FilledMonotone(bits, b, result + 1, start);
    } else {
      FilledMonotone(bits, b, start, result);
    }
    if end.Some? && end.value <= result {
      FilledMonotone(bits, b, end.value, result);
    }
  }

  lemma AnswerIsSelect(r: Selected, bits: seq<bool>, b: bool, subrank: nat, start: nat, end: nat)
    requires start <= end <= |bits| < WORD && 1 <= subrank
    requires Answers(r, bits, b, Rank(bits, b, start) + subrank, start, Some(end))
    ensures if Rank(bits, b, end) >= Rank(bits, b, start) + subrank
            then r.Found? && r.pos < end && IsKth(bits, b, start, subrank, r.pos)
            else !r.Found?
  {
    if r.Panics? {
      PanicsOnlyWhenMissing(bits, b, Rank(bits, b, start) + subrank, start, Some(end));
    } else if r.Found? {
      FoundIsKth(bits, b, subrank, start, end, r.pos);
    }
  }

  lemma FoundIsKth(bits: seq<bool>, b: bool, subrank: nat, start: nat, end: nat, pos: nat)
    requires start <= pos < end <= |bits| && bits[pos] == b && Rank(bits, b, pos) + 1 == Rank(bits, b, start) + subrank
    ensures IsKth(bits, b, start, subrank, pos) && Rank(bits, b, end) >= Rank(bits, b, start) + subrank
  {
    RankMonotone(bits, b, pos + 1, end);
  }

  /** When a select panics, the bit asked for is not in the range. */
  lemma PanicsOnlyWhenMissing(bits: seq<bool>, b: bool, rank: nat, start: nat, end: Option<nat>)
    requires EndOr(end, |bits|) <= |bits| < WORD && IndexFails(bits, b, rank, start, end)
    ensures Rank(bits, b, EndOr(end, |bits|)) < rank
  {
    RankMonotone(bits, b, EndOr(end, |bits|), |bits|);
    if LandsShort(bits, b, rank, end) {
      var last := 64 * (NumBlocks(|bits|) - 1);
      FilledMonotone(bits, b, last, |bits|);
    }
  }

  lemma {:induction false} RankOfZeroBits(s: seq<bool>, i: nat)
    requires i <= |s| && forall k :: 0 <= k < i ==> !s[k]
    ensures Rank(s, true, i) == 0 && Rank(s, false, i) == i
  {
    if i > 0 {
      RankOfZeroBits(s, i - 1);
    }
  }

  /** The first one of 3328 zeros up to their end: the search runs off the index. */
  lemma RunsOff(bits: seq<bool>)
    requires bits == Zeros(3328)
    ensures IndexFails(bits, true, 1, 0, Some(3328))
  {
    RankOfZeroBits(bits, 3328);
  }

  /** The 513th of 512 zeros: the search lands on the last block, 65 zeros short. */
  lemma FallsShort(bits: seq<bool>)
    requires bits == Zeros(512)
    ensures IndexFails(bits, false, 513, 0, None)
  {
    RankOfZeroBits(bits, 448);
    RankOfZeroBits(bits, 512);
  }

  /** The greatest 64-bit rank behind a one: the sum of ranks overflows. */
  lemma RankOverflows(bits: seq<bool>)
    requires bits == [true] + Zeros(1023)
    ensures IndexFails(bits, true, Rank(bits, true, 1) + (WORD - 1), 1, Some(1024))
  {
    assert Rank(bits, true, 1) == 1;
  }

  /** Rank 0 from a set bit on: the scan counts down from 0. A word less, and it rightly finds nothing. */
  lemma ZeroUnderflows(bits: seq<bool>)
    requires bits == [true] + Zeros(511)
    ensures SelectZero(bits, true, 0, None) == Panics && SelectZero(bits, true, 0, Some(448)) == Absent
  {
    assert Rank(bits, true, 1) == 1;
    RankMonotone(bits, true, 1, 64);
  }

  lemma SblockStartsBelow(bits: seq<bool>, b: bool, rank: nat, start: nat, sblock: nat, here: nat)
    requires start <= |bits| && Rank(bits, b, start) < rank && here == SBLOCK_SIZE * 64 * sblock
    requires start / (64 * SBLOCK_SIZE) <= sblock
    requires sblock > start / (64 * SBLOCK_SIZE) ==> Filled(bits, b, here) < rank
    ensures Filled(bits, b, here) < rank
  {
    if here <= start {
      FilledMonotone(bits, b, here, start);
    }
  }

  lemma RangeEndsBefore(bits: seq<bool>, b: bool, rank: nat, end: Option<nat>, sblock: nat, next: nat)
    requires EndOr(end, |bits|) <= |bits| && sblock <= LastSblockOf(|bits|, end)
    requires next == SBLOCK_SIZE * 64 * (sblock + 1)
    requires sblock < LastSblockOf(|bits|, end) ==> Filled(bits, b, next) >= rank
    requires Filled(bits, b, next) < rank
    ensures Rank(bits, b, EndOr(end, |bits|)) < rank
    ensures end.None? ==> Filled(bits, b, 64 * NumBlocks(|bits|)) < rank
  {
    FilledMonotone(bits, b, EndOr(end, |bits|), next);
    if end.None? {
      FilledMonotone(bits, b, 64 * NumBlocks(|bits|), next);
    }
  }

  /** The searched superblock is past the index exactly when the search runs off it. */
  lemma PastIndex(bits: seq<bool>, b: bool, rank: nat, start: nat, end: Option<nat>, sblock: nat, here: nat)
    requires start <= EndOr(end, |bits|) <= |bits| && start < |bits|
    requires start / (64 * SBLOCK_SIZE) <= sblock <= LastSblockOf(|bits|, end) && here == SBLOCK_SIZE * 64 * sblock
    requires Filled(bits, b, here) < rank
    requires sblock < LastSblockOf(|bits|, end) ==> Filled(bits, b, here + SBLOCK_SIZE * 64) >= rank
    ensures sblock >= NumSblocks(|bits|) <==> RunsOffIndex(bits, b, rank, end)
  {
    if sblock < LastSblockOf(|bits|, end) && here + SBLOCK_SIZE * 64 <= |bits| {
      FilledMonotone(bits, b, here + SBLOCK_SIZE * 64, |bits|);
    }
  }

  lemma ShortOnlyInLast(bits: seq<bool>, b: bool, rank: nat, end: Option<nat>, sblock: nat, next: nat)
    requires sblock <= LastSblockOf(|bits|, end) && next == SBLOCK_SIZE * 64 * (sblock + 1)
    requires sblock < LastSblockOf(|bits|, end) ==> Filled(bits, b, next) >= rank
    requires LandsShort(bits, b, rank, end)
    ensures sblock == NumSblocks(|bits|) - 1
  {
    var last := 64 * (NumBlocks(|bits|) - 1);
    if next <= last {
      FilledMonotone(bits, b, next, last);
    }
  }

  /** What the superblock search has settled. */
  lemma AfterSblock(bits: seq<bool>, b: bool, rank: nat, start: nat, end: Option<nat>, sblock: nat)
    requires start <= EndOr(end, |bits|) <= |bits| && start < |bits| && Rank(bits, b, start) < rank
    requires start / (64 * SBLOCK_SIZE) <= sblock <= LastSblockOf(|bits|, end)
    requires sblock > start / (64 * SBLOCK_SIZE) ==> Filled(bits, b, SBLOCK_SIZE * 64 * sblock) < rank
    requires sblock < LastSblockOf(|bits|, end) ==> Filled(bits, b, SBLOCK_SIZE * 64 * (sblock + 1)) >= rank
    ensures sblock >= NumSblocks(|bits|) <==> RunsOffIndex(bits, b, rank, end)
    ensures Filled(bits, b, SBLOCK_SIZE * 64 * sblock) < rank
    ensures Filled(bits, b, SBLOCK_SIZE * 64 * (sblock + 1)) < rank ==>
      && Rank(bits, b, EndOr(end, |bits|)) < rank
      && (end.None? ==> Filled(bits, b, 64 * NumBlocks(|bits|)) < rank)
    ensures LandsShort(bits, b, rank, end) ==>
      sblock == NumSblocks(|bits|) - 1 && Filled(bits, b, SBLOCK_SIZE * 64 * (sblock + 1)) >= rank
  {
    var here, next := SBLOCK_SIZE * 64 * sblock, SBLOCK_SIZE * 64 * (sblock + 1);
    SblockStartsBelow(bits, b, rank, start, sblock, here);
    PastIndex(bits, b, rank, start, end, sblock, here);
    if Filled(bits, b, next) < rank {
      RangeEndsBefore(bits, b, rank, end, sblock, next);
    }
    if LandsShort(bits, b, rank, end) {
      ShortOnlyInLast(bits, b, rank, end, sblock, next);
    }
  }

  /** What the block search has settled. */
  lemma AfterBlock(bits: seq<bool>, b: bool, rank: nat, end: Option<nat>, sblock: nat, block: nat)
    requires SBLOCK_SIZE * sblock <= block < SBLOCK_SIZE * (sblock + 1) && block < NumBlocks(|bits|)
    requires EndOr(end, |bits|) <= |bits| && sblock <= LastSblockOf(|bits|, end)
    requires Filled(bits, b, SBLOCK_SIZE * 64 * sblock) < rank <= Filled(bits, b, SBLOCK_SIZE * 64 * (sblock + 1))
    requires block > SBLOCK_SIZE * sblock ==> Filled(bits, b, 64 * block) < rank
    requires block + 1 < NumBlocks(|bits|) && block + 1 < SBLOCK_SIZE * (sblock + 1) ==>
      Filled(bits, b, 64 * (block + 1)) >= rank
    ensures Settled(bits, b, rank, end, block)
  {
    if block == SBLOCK_SIZE * sblock {
      assert 64 * block == SBLOCK_SIZE * 64 * sblock;
    }
    if block + 1 < NumBlocks(|bits|) {
      FilledMonotone(bits, b, 64 * block, 64 * block + 64);
      BlockInside(bits, b, rank, end, sblock, block);
    } else {
      BlockAtEnd(bits, b, rank, end, sblock, block, 64 * block);
    }
  }

  /** In the last block, the bit may be missing. */
  lemma BlockAtEnd(bits: seq<bool>, b: bool, rank: nat, end: Option<nat>, sblock: nat, block: nat, at: nat)
    requires SBLOCK_SIZE * sblock <= block < SBLOCK_SIZE * (sblock + 1) && block + 1 == NumBlocks(|bits|)
    requires at == 64 * block
    requires EndOr(end, |bits|) <= |bits| && sblock <= LastSblockOf(|bits|, end)
    requires Filled(bits, b, at) < rank <= Filled(bits, b, SBLOCK_SIZE * 64 * (sblock + 1))
    ensures Settled(bits, b, rank, end, block)
  {
    FilledMonotone(bits, b, at, at + 64);
    assert sblock == NumSblocks(|bits|) - 1;
  }

  /** Before the last block, the bit is in the block settled on. */
  lemma BlockInside(bits: seq<bool>, b: bool, rank: nat, end: Option<nat>, sblock: nat, block: nat)
    requires SBLOCK_SIZE * sblock <= block < SBLOCK_SIZE * (sblock + 1) && block + 1 < NumBlocks(|bits|)
    requires rank <= Filled(bits, b, SBLOCK_SIZE * 64 * (sblock + 1))
    requires block + 1 < SBLOCK_SIZE * (sblock + 1) ==> Filled(bits, b, 64 * (block + 1)) >= rank
    ensures Filled(bits, b, 64 * block + 64) >= rank && !LandsShort(bits, b, rank, end)
  {
    FilledMonotone(bits, b, 64 * block + 64, 64 * (NumBlocks(|bits|) - 1));
  }

  // From buffers

  /** Puts an index together from its three buffers; `None` if their sizes do not fit together. */
  function FromMaps(bitBuf: seq<byte>, blockBuf: seq<byte>, sblockBuf: seq<byte>): Option<BitIndex> {
    var bitArray, blocks, sblocks := A.ParseBits(bitBuf), L.Parse(blockBuf), L.Parse(sblockBuf);
    if bitArray.Ok? && blocks.Ok? && sblocks.Ok?
       && sblocks.value.len == (blocks.value.len + SBLOCK_SIZE - 1) / SBLOCK_SIZE
       && blocks.value.len == (bitArray.value.len + 63) / 64
    then Some(BitIndex(bitArray.value, blocks.value, sblocks.value))
    else None
  }

  /** An index built from a finished bit buffer holds its bits. */
  lemma IndexHolds(bitBuf: seq<byte>, blockBuf: seq<byte>, sblockBuf: seq<byte>, bits: seq<bool>)
    requires A.IsBuffer(bitBuf, bits) && IsIndexOf(blockBuf, sblockBuf, AllButLast(A.WordsOf(bitBuf)))
    ensures FromMaps(bitBuf, blockBuf, sblockBuf).Some? && FromMaps(bitBuf, blockBuf, sblockBuf).value.Holds(bits)
  {
    A.ParseBitsUndoesBuild(bitBuf, bits);
    A.BlocksOfBuffer(bitBuf, bits);
    PartsHold(A.ParseBits(bitBuf).value, bitBuf, L.Parse(blockBuf).value, L.Parse(sblockBuf).value, bits,
              A.WordsOf(bitBuf[..|bitBuf| - 8]));
  }

  lemma PartsHold(bitArray: A.BitArray, bitBuf: seq<byte>, blocks: L.LogArray, sblocks: L.LogArray, bits: seq<bool>,
                  words: seq<Word>)
    requires bitArray.Holds(bits) && |bitBuf| >= 8 && bitArray.buf == bitBuf[..|bitBuf| - 8]
    requires words == A.WordsOf(bitArray.buf)
    requires |words| == (|bits| + 63) / 64 && L.HoldsNats(blocks, BlockRanks(words, |words|))
    requires L.HoldsNats(sblocks, SblockRanks(words, (|words| + SBLOCK_SIZE - 1) / SBLOCK_SIZE))
    ensures BitIndex(bitArray, blocks, sblocks).Holds(bits)
    ensures blocks.len == (bitArray.len + 63) / 64 && sblocks.len == (blocks.len + SBLOCK_SIZE - 1) / SBLOCK_SIZE
  {}

  /** Builds an indexed bit array out of a list of bits. */
  method IndexBits(bits: seq<bool>) returns (r: BitIndex)
    requires |bits| < WORD && NumBlocks(|bits|) <= L.MAX_LOGARRAY_LEN
    ensures r.Holds(bits)
  {
    var builder := new A.BitArrayBufBuilder();
    builder.PushAll(bits);
    assert builder.Contents == bits;
    var bitBuf := builder.Finalize();
    A.BlocksOfBuffer(bitBuf, bits);
    var iter := new A.BitArrayBlockIterator(bitBuf);
    var blockBuf, sblockBuf := BuildFromBlockIter(iter);
    IndexHolds(bitBuf, blockBuf, sblockBuf, bits);
    r := FromMaps(bitBuf, blockBuf, sblockBuf).value;
  }

  lemma RankOfKth(bits: seq<bool>, k: nat, p: nat)
    requires IsKth(bits, true, 0, k, p)
    ensures p < |bits| && Rank(bits, true, p + 1) == k
  {}

  /** Ranking a selected position gives the rank back, for every rank there is. */
  method RankOfSelected(index: BitIndex, rank: nat, ghost bits: seq<bool>) returns (r: Option<nat>)
    requires index.Holds(bits) && 1 <= rank
    ensures r == if rank <= Rank(bits, true, |bits|) then Some(rank) else None
  {
    var p := index.Select1(rank, bits);
    if !p.Found? {
      return None;
    }
    RankOfKth(bits, rank, p.pos);
    var k := RankUpTo(index, p.pos, bits);
    r := Some(k);
  }

  method RankUpTo(index: BitIndex, i: nat, ghost bits: seq<bool>) returns (r: nat)
    requires index.Holds(bits) && i < |bits|
    ensures r == Rank(bits, true, i + 1)
  {
    r := index.Rank1(i, bits);
  }
}
