/** The two-level index over a bit array: how it is built, and rank on top of it. */
module BitIndexes {
  import opened Words
  import opened Results
  import A = BitArrays
  import L = LogArrays

  /** Blocks of 64 bits in a superblock. */
  const SBLOCK_SIZE: nat := 52
  /** Ones in the first `b` blocks; blocks past the end have none. */
  function BlockOnes(blocks: seq<Word>, b: nat): nat {
    if b == 0 then 0
    else BlockOnes(blocks, b - 1) + if b <= |blocks| then CountOnes(blocks[b - 1]) else 0
  }

  lemma {:induction false} BlockOnesMonotone(blocks: seq<Word>, a: nat, b: nat)
    requires a <= b
    ensures BlockOnes(blocks, a) <= BlockOnes(blocks, b) <= BlockOnes(blocks, a) + 64 * (b - a)
  {
    if a < b {
      BlockOnesMonotone(blocks, a, b - 1);
    }
  }

  lemma {:induction false} BlockOnesPastEnd(blocks: seq<Word>, b: nat)
    requires b >= |blocks|
    ensures BlockOnes(blocks, b) == BlockOnes(blocks, |blocks|)
  {
    if b > |blocks| {
      BlockOnesPastEnd(blocks, b - 1);
    }
  }

  /** What the index stores for a block: the ones from its start to the end of its superblock. */
  function BlockRank(blocks: seq<Word>, b: nat): nat {
    BlockOnesMonotone(blocks, b, SBLOCK_SIZE * (b / SBLOCK_SIZE + 1));
    BlockOnes(blocks, SBLOCK_SIZE * (b / SBLOCK_SIZE + 1)) - BlockOnes(blocks, b)
  }

  /** What the index stores for a superblock: all ones up to its end. */
  function SblockRank(blocks: seq<Word>, sblock: nat): nat {
    BlockOnes(blocks, SBLOCK_SIZE * (sblock + 1))
  }

  /** The ranks of the first `n` blocks. */
  function BlockRanks(blocks: seq<Word>, n: nat): (s: seq<nat>)
    ensures |s| == n
  {
    if n == 0 then [] else BlockRanks(blocks, n - 1) + [BlockRank(blocks, n - 1)]
  }

  /** The ranks of the first `n` superblocks. */
  function SblockRanks(blocks: seq<Word>, n: nat): (s: seq<nat>)
    ensures |s| == n
  {
    if n == 0 then [] else SblockRanks(blocks, n - 1) + [SblockRank(blocks, n - 1)]
  }

  // Building

  function Sum(ranks: seq<nat>): nat {
    if ranks == [] then 0 else Sum(ranks[..|ranks| - 1]) + ranks[|ranks| - 1]
  }

  lemma {:induction false} RanksTelescope(blocks: seq<Word>, ranks: seq<nat>, from: nat)
    requires from + |ranks| <= |blocks|
    requires forall i :: 0 <= i < |ranks| ==> ranks[i] == CountOnes(blocks[from + i])
    ensures Sum(ranks) == BlockOnes(blocks, from + |ranks|) - BlockOnes(blocks, from)
  {
    if ranks != [] {
      RanksTelescope(blocks, ranks[..|ranks| - 1], from);
    }
  }

  /** `rest` is what is left of `all` from `done` on. */
  ghost predicate IsRest(all: seq<Word>, done: nat, rest: seq<Word>) {
    done <= |all| && rest == all[done..]
  }

  /** `chunk` is the next part of `all`: only the last one may be short. */
  ghost predicate IsChunk(all: seq<Word>, done: nat, chunk: seq<Word>) {
    && done + |chunk| <= |all|
    && |chunk| <= SBLOCK_SIZE && (|chunk| == SBLOCK_SIZE || done + |chunk| == |all|)
    && chunk == all[done..done + |chunk|]
  }

  lemma RestShrinks(all: seq<Word>, done: nat, rest: seq<Word>)
    requires IsRest(all, done, rest) && rest != []
    ensures done < |all| && rest[0] == all[done] && IsRest(all, done + 1, rest[1..])
  {}

  /** The next block of all, if there is one. */
  method TakeBlock(iter: A.BitArrayBlockIterator, ghost all: seq<Word>, ghost at: nat) returns (next: Option<Word>)
    requires iter.Valid() && IsRest(all, at, iter.Rest)
    modifies iter
    ensures iter.Valid()
    ensures next.None? ==> at == |all| && IsRest(all, at, iter.Rest)
    ensures next.Some? ==> at < |all| && next.value == all[at] && IsRest(all, at + 1, iter.Rest)
  {
    ghost var rest := iter.Rest;
    next := iter.Next();
    if next.Some? {
      RestShrinks(all, at, rest);
    }
  }

  lemma ChunkGrows(all: seq<Word>, done: nat, at: nat)
    requires done <= at < |all|
    ensures all[done..at] + [all[at]] == all[done..at + 1]
  {}

  /** A superblock's worth of blocks from the iterator, or what is left. */
  method NextChunk(iter: A.BitArrayBlockIterator, ghost all: seq<Word>, ghost done: nat)
    returns (chunk: seq<Word>, ghost rest: seq<Word>)
    requires iter.Valid() && IsRest(all, done, iter.Rest)
    modifies iter
    ensures iter.Valid()
    ensures IsChunk(all, done, chunk)
    ensures rest == iter.Rest && IsRest(all, done + |chunk|, rest)
  {
    chunk := [];
    ghost var at := done;
    while |chunk| < SBLOCK_SIZE
      invariant |chunk| <= SBLOCK_SIZE && at == done + |chunk| <= |all|
      invariant iter.Valid() && IsRest(all, at, iter.Rest)
      invariant chunk == all[done..at]
    {
      var next := TakeBlock(iter, all, at);
      if next.None? {
        break;
      }
      ChunkGrows(all, done, at);
      chunk, at := chunk + [next.value], at + 1;
    }
    rest := iter.Rest;
  }

  lemma RankWidth(v: nat)
    requires v <= SBLOCK_SIZE * 64
    ensures v < Pow2(L.BitLength(SBLOCK_SIZE * 64)) && 1 <= L.BitLength(SBLOCK_SIZE * 64) <= 64
  {
    L.BitLengthBounds(SBLOCK_SIZE * 64, L.BitLength(SBLOCK_SIZE * 64));
    L.BitLengthBounds(SBLOCK_SIZE * 64, 64);
    Pow2Of64();
  }

  /** In the chunk that makes up superblock `c`, a block's rank runs to the end of the chunk. */
  lemma RankWithinChunk(blocks: seq<Word>, c: nat, count: nat, b: nat, next: nat)
    requires SBLOCK_SIZE * c <= b < next == SBLOCK_SIZE * c + count && count <= SBLOCK_SIZE
    requires count == SBLOCK_SIZE || next == |blocks|
    ensures BlockRank(blocks, b) == BlockOnes(blocks, next) - BlockOnes(blocks, b) <= SBLOCK_SIZE * 64
    ensures SblockRank(blocks, c) == BlockOnes(blocks, next)
  {
    assert b / SBLOCK_SIZE == c;
    if count < SBLOCK_SIZE {
      BlockOnesPastEnd(blocks, SBLOCK_SIZE * (c + 1));
    }
    BlockOnesMonotone(blocks, b, SBLOCK_SIZE * (c + 1));
  }

  /** The entries of superblock `c`: each block gets the ones from its start to the chunk's end. */
  method ChunkEntries(ranks: seq<nat>, total: nat, ghost blocks: seq<Word>, ghost c: nat, ghost from: nat,
                      ghost next: nat)
    returns (entries: seq<nat>)
    requires from == SBLOCK_SIZE * c && next == from + |ranks| <= |blocks|
    requires |ranks| == SBLOCK_SIZE || (|ranks| < SBLOCK_SIZE && next == |blocks|)
    requires forall i :: 0 <= i < |ranks| ==> ranks[i] == CountOnes(blocks[from + i])
    requires BlockOnes(blocks, from) + total == BlockOnes(blocks, next)
    ensures BlockRanks(blocks, from) + entries == BlockRanks(blocks, next)
  {
    var subrank := total;
    ghost var b := from;
    entries := [];
    for i := 0 to |ranks|
      invariant b == from + i
      invariant BlockOnes(blocks, b) + subrank == BlockOnes(blocks, next)
      invariant BlockRanks(blocks, from) + entries == BlockRanks(blocks, b)
    {
      RankWithinChunk(blocks, c, |ranks|, b, next);
      BlockOnesMonotone(blocks, b + 1, next);
      entries := entries + [subrank];
      subrank := subrank - ranks[i];
      b := b + 1;
    }
  }

  /** The two buffers parse to the block ranks and the superblock ranks. */
  ghost predicate IsIndexOf(blocks: seq<byte>, sblocks: seq<byte>, words: seq<Word>) {
    && L.Parse(blocks).Ok? && L.HoldsNats(L.Parse(blocks).value, BlockRanks(words, |words|))
    && L.Parse(sblocks).Ok?
    && L.HoldsNats(L.Parse(sblocks).value, SblockRanks(words, (|words| + SBLOCK_SIZE - 1) / SBLOCK_SIZE))
  }

  lemma {:induction false} BlockRanksFit(blocks: seq<Word>, n: nat)
    ensures forall i :: 0 <= i < n ==> BlockRanks(blocks, n)[i] == BlockRank(blocks, i) <= SBLOCK_SIZE * 64
  {
    if n > 0 {
      BlockRanksFit(blocks, n - 1);
      var b := n - 1;
      BlockOnesMonotone(blocks, b, SBLOCK_SIZE * (b / SBLOCK_SIZE + 1));
    }
  }

  lemma {:induction false} SblockRanksFit(blocks: seq<Word>, n: nat)
    requires |blocks| <= L.MAX_LOGARRAY_LEN
    ensures forall i :: 0 <= i < n ==> SblockRanks(blocks, n)[i] == SblockRank(blocks, i) < WORD
  {
    if n > 0 {
      SblockRanksFit(blocks, n - 1);
      var end := SBLOCK_SIZE * n;
      if end > |blocks| {
        BlockOnesPastEnd(blocks, end);
      }
      BlockOnesMonotone(blocks, 0, if end > |blocks| then |blocks| else end);
    }
  }

  /** Writes `vals` as a packed array of the given width. */
  method WriteArray(vals: seq<u64>, width: nat) returns (r: seq<byte>)
    requires 1 <= width <= 64 && L.Fits(vals, width) && |vals| <= L.MAX_LOGARRAY_LEN
    ensures L.Parse(r).Ok? && L.Parse(r).value.Holds(vals) && L.Parse(r).value.width == width
  {
    var builder := new L.LogArrayBufBuilder(width);
    builder.PushVec(vals);
    assert builder.Contents == vals;
    r := builder.Finalize();
  }

  /** What one chunk adds: the superblock's ones, and its entry. */
  lemma ChunkAdds(all: seq<Word>, c: nat, from: nat, chunk: seq<Word>, ranks: seq<nat>, next: nat)
    requires IsChunk(all, from, chunk) && chunk != [] && from == SBLOCK_SIZE * c && next == from + |chunk|
    requires |ranks| == |chunk| && forall i :: 0 <= i < |ranks| ==> ranks[i] == CountOnes(chunk[i])
    ensures forall i :: 0 <= i < |ranks| ==> ranks[i] == CountOnes(all[from + i])
    ensures BlockOnes(all, from) + Sum(ranks) == BlockOnes(all, next)
    ensures SblockRanks(all, c) + [BlockOnes(all, next)] == SblockRanks(all, c + 1)
  {
    RanksTelescope(all, ranks, from);
    RankWithinChunk(all, c, |chunk|, from, next);
  }

  /** What has been counted after `done` blocks, the last of them in superblock `c - 1`. */
  ghost predicate IsCounted(all: seq<Word>, c: nat, done: nat, blocks: seq<nat>, sblocks: seq<nat>, sblockRank: nat) {
    && (done == SBLOCK_SIZE * c || (done == |all| && SBLOCK_SIZE * (c - 1) < done < SBLOCK_SIZE * c))
    && sblockRank == BlockOnes(all, done)
    && blocks == BlockRanks(all, done)
    && sblocks == SblockRanks(all, c)
  }

  /** Counts one chunk: an entry per block and one for the superblock. */
  method CountChunk(chunk: seq<Word>, blocks: seq<nat>, sblocks: seq<nat>, sblockRank: nat,
                    ghost all: seq<Word>, ghost c: nat, ghost done: nat, ghost next: nat)
    returns (blocks': seq<nat>, sblocks': seq<nat>, sblockRank': nat)
    requires IsCounted(all, c, done, blocks, sblocks, sblockRank)
    requires IsChunk(all, done, chunk) && chunk != [] && next == done + |chunk|
    ensures IsCounted(all, c + 1, next, blocks', sblocks', sblockRank')
  {
    var ranks := seq(|chunk|, i requires 0 <= i < |chunk| => CountOnes(chunk[i]));
    ChunkAdds(all, c, done, chunk, ranks, next);
    var total := Sum(ranks);
    sblockRank' := sblockRank + total;
    var entries := ChunkEntries(ranks, total, all, c, done, next);
    blocks' := blocks + entries;
    sblocks' := sblocks + [sblockRank'];
  }

  /** The ranks of all blocks and superblocks, chunk by chunk. */
  method CountRanks(iter: A.BitArrayBlockIterator) returns (blocks: seq<nat>, sblocks: seq<nat>)
    requires iter.Valid()
    modifies iter
    ensures var all := old(iter.Rest);
      && blocks == BlockRanks(all, |all|)
      && sblocks == SblockRanks(all, (|all| + SBLOCK_SIZE - 1) / SBLOCK_SIZE)
  {
    ghost var all := iter.Rest;
    ghost var c, done, rest := 0, 0, all;
    blocks, sblocks := [], [];
    var sblockRank := 0;
    var chunk;
    CountedNone(all);
    chunk, rest := NextChunk(iter, all, 0);
    while chunk != []
      invariant IsChunk(all, done, chunk)
      invariant iter.Valid() && rest == iter.Rest && IsRest(all, done + |chunk|, rest)
      invariant IsCounted(all, c, done, blocks, sblocks, sblockRank)
      decreases |all| - done
    {
      ghost var next := done + |chunk|;
      blocks, sblocks, sblockRank := CountChunk(chunk, blocks, sblocks, sblockRank, all, c, done, next);
      done, c := next, c + 1;
      chunk, rest := NextChunk(iter, all, done);
    }
    CountedAll(all, c, done, blocks, sblocks, sblockRank);
  }

  lemma CountedAll(all: seq<Word>, c: nat, done: nat, blocks: seq<nat>, sblocks: seq<nat>, sblockRank: nat)
    requires IsCounted(all, c, done, blocks, sblocks, sblockRank) && done == |all|
    ensures c == (|all| + SBLOCK_SIZE - 1) / SBLOCK_SIZE
  {}

  lemma CountedNone(all: seq<Word>)
    ensures IsCounted(all, 0, 0, [], [], 0)
  {}

  /** The ones of a superblock are counted in twelve bits. */
  lemma TwelveBits()
    ensures L.BitLength(SBLOCK_SIZE * 64) == 12
  {
    assert L.BitLength(13) == 4;
    assert L.BitLength(3328) == 4 + L.BitLength(208) && L.BitLength(208) == 4 + L.BitLength(13);
  }

  /** Builds the index of the blocks the iterator hands out: both arrays read back as the ranks. */
  method BuildFromBlockIter(iter: A.BitArrayBlockIterator) returns (blocks: seq<byte>, sblocks: seq<byte>)
    requires iter.Valid() && |iter.Rest| <= L.MAX_LOGARRAY_LEN
    modifies iter
    ensures IsIndexOf(blocks, sblocks, old(iter.Rest))
    ensures L.Parse(blocks).value.width == 12 && L.Parse(sblocks).value.width == 64
  {
    ghost var all := iter.Rest;
    var blockRanks, sblockRanks := CountRanks(iter);
    BlockRanksFit(all, |all|);
    SblockRanksFit(all, |sblockRanks|);
    RankWidth(SBLOCK_SIZE * 64);
    TwelveBits();
    Pow2Of64();
    blocks := WriteArray(blockRanks, L.BitLength(SBLOCK_SIZE * 64));
    sblocks := WriteArray(sblockRanks, 64);
  }
}
