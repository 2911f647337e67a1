/** Iterating over a dictionary while it streams in: the entries come out as they were built. */
module DictIterators {
  import opened Results
  import opened ByteStrings
  import opened DictBlocks
  import opened SizedDicts
  import opened DictReaders
  import opened DictStreams

  /** The blocks from `b` on. */
  lemma NextBlock(blocks: seq<Block>, b: nat)
    requires b < |blocks|
    ensures AllBytes(blocks[b..]) == BytesOf(blocks[b]) + AllBytes(blocks[b + 1..])
  {
    var rest := blocks[b..];
    BlockInside(rest, 0);
    assert rest[1..] == blocks[b + 1..] && rest[..0] == [];
    assert [] + (BytesOf(rest[0]) + AllBytes(rest[1..])) == BytesOf(rest[0]) + AllBytes(rest[1..]);
  }

  class TfcDictIterator {
    const reader: DontReadLastU64Reader
    var currentBlock: SizedBlockIterator?
    var startOfBlock: bool
    var done: bool
    ghost const blocks: seq<Block>
    /** How many blocks have been begun, and how many entries have come out. */
    ghost var begun: nat
    ghost var yielded: nat

    /** The stream is right behind the last block begun. */
    ghost predicate Synced()
      reads this`begun, reader
    {
      reader.Valid() && begun <= |blocks| && reader.Left() == AllBytes(blocks[begun..])
    }

    ghost predicate Valid()
      reads this, reader, currentBlock
    {
      && Synced()
      && (currentBlock == null ==> begun == 0 && yielded == 0)
      && (currentBlock != null ==>
            && InBlock(currentBlock) && !startOfBlock
            && yielded == Before(blocks, begun - 1) + currentBlock.position)
      && (done ==> begun == |blocks| && (currentBlock == null || currentBlock.position == |currentBlock.strings|))
    }

    ghost predicate InBlock(current: SizedBlockIterator)
      reads this`begun, this`startOfBlock, current
    {
      && 1 <= begun <= |blocks| && current.Valid() && current.strings == blocks[begun - 1].strings
      && (startOfBlock <==> current.position == 0)
    }

    constructor (reader: DontReadLastU64Reader, ghost blocks: seq<Block>)
      requires reader.Valid() && reader.Left() == AllBytes(blocks)
      ensures Valid() && yielded == 0 && begun == 0 && !done && currentBlock == null
      ensures this.blocks == blocks && this.reader == reader
    {
      this.reader, this.blocks := reader, blocks;
      currentBlock, startOfBlock, done, begun, yielded := null, false, false, 0, 0;
      new;
      assert blocks[0..] == blocks;
    }

    /** The next entry of the current block, if it has one left. */
    method NextInBlock(current: SizedBlockIterator) returns (r: Option<(SizedDictEntry, bool)>)
      requires InBlock(current)
      modifies this`startOfBlock, current
      ensures InBlock(current)
      ensures r.None? ==> old(current.position) == |current.strings| == current.position
      ensures r.Some? ==> old(current.position) < |current.strings| && current.position == old(current.position) + 1
      ensures r.Some? ==> r.value.0.ToBytes() == current.strings[old(current.position)]
      ensures r.Some? ==> (r.value.1 <==> old(current.position) == 0)
    {
      var entry := current.Next();
      if entry.None? {
        return None;
      }
      r := Some((entry.value, startOfBlock));
      startOfBlock := false;
    }

    /** Reads the next block off the stream, or finds that there is none. */
    method ReadBlock() returns (parsed: Result<SizedDictBlock, StreamError>)
      requires Synced()
      modifies reader
      ensures reader.Valid()
      ensures begun < |blocks| ==> parsed.Ok? && parsed.value.Holds(blocks[begun].strings)
      ensures begun < |blocks| ==> reader.Left() == AllBytes(blocks[begun + 1..])
      ensures begun == |blocks| ==> parsed == Err(Io(UnexpectedEof)) && reader.Left() == AllBytes(blocks[begun..])
    {
      ghost var next := Upcoming(blocks, begun);
      parsed := ParseFromReader(reader, next.0.recordSize, next.0.strings, next.1);
    }

    /** Begins the next block, or finds that there is none. */
    method BeginBlock() returns (error: Option<StreamError>)
      requires Synced() && !done
      modifies this`begun, this`done, this`startOfBlock, this`currentBlock, reader
      ensures Synced()
      ensures error.None? <==> old(begun) < |blocks|
      ensures error.None? ==> begun == old(begun) + 1 && !done && currentBlock != null
      ensures error.None? ==> fresh(currentBlock) && InBlock(currentBlock) && currentBlock.position == 0
      ensures error.Some? ==>
        begun == old(begun) && currentBlock == old(currentBlock) && startOfBlock == old(startOfBlock)
      ensures error.Some? ==> error == Some(Io(UnexpectedEof)) && done
    {
      var parsed := ReadBlock();
      if parsed.Err? {
        done := true;
        return Some(parsed.error);
      }
      var iter := new SizedBlockIterator(parsed.value, blocks[begun].strings);
      startOfBlock, currentBlock, begun := true, iter, begun + 1;
      error := None;
    }

    /** Goes on with the block begun. */
    method Continue(current: SizedBlockIterator) returns (r: Option<(SizedDictEntry, bool)>)
      requires Valid() && !done && current == currentBlock
      modifies this`startOfBlock, this`yielded, current
      ensures Valid() && (r.None? ==> yielded == old(yielded) && current.position == |current.strings|)
      ensures r.Some? ==> Emitted(blocks, r.value, old(yielded), yielded, begun, begun)
    {
      ghost var n, k := yielded, current.position;
      r := NextInBlock(current);
      if r.Some? {
        EmitEntry(blocks, r.value, n, begun, begun, k);
        yielded := yielded + 1;
      }
    }

    /** The head of a block just begun. */
    method FirstOfBlock(current: SizedBlockIterator, ghost n: nat) returns (r: (SizedDictEntry, bool))
      requires Synced() && !done
      requires current == currentBlock && InBlock(current) && current.position == 0 && n == Before(blocks, begun - 1)
      modifies this`startOfBlock, this`yielded, current
      ensures Valid() && yielded == n + 1 && Emitted(blocks, r, n, n + 1, begun - 1, begun)
    {
      var entry := NextInBlock(current);
      r := entry.value;
      EmitEntry(blocks, r, n, begun - 1, begun, 0);
      yielded := n + 1;
    }

    /** Starts on the next block, when there is one. */
    method Advance() returns (r: StreamItem)
      requires Valid() && !done && (currentBlock == null || currentBlock.position == |currentBlock.strings|)
      modifies this, reader
      ensures Valid()
      ensures currentBlock != old(currentBlock) ==> fresh(currentBlock)
      ensures r.End? ==> yielded == old(yielded) == |Flatten(blocks)| && begun == old(begun)
      ensures !r.End? ==> r.Entry? && Emitted(blocks, r.item, old(yielded), yielded, old(begun), begun)
    {
      ghost var n := yielded;
      EndOfBlock(blocks, begun);
      var error := BeginBlock();
      if error.Some? {
        return if IsUnexpectedEof(error.value) then End else Failed(error.value);
      }
      var entry := FirstOfBlock(currentBlock, n);
      r := Entry(entry);
    }

    /** The next entry with whether it begins a block; an error, or the end of the dictionary. */
    method Next() returns (r: StreamItem)
      requires Valid()
      modifies this, reader, currentBlock
      ensures Valid()
      ensures currentBlock != old(currentBlock) ==> fresh(currentBlock)
      ensures r.End? ==> yielded == old(yielded) == |Flatten(blocks)| && begun == old(begun)
      ensures !r.End? ==> r.Entry? && Emitted(blocks, r.item, old(yielded), yielded, old(begun), begun)
    {
      if done {
        EndOfBlock(blocks, begun);
        return End;
      }
      if currentBlock != null {
        var entry := Continue(currentBlock);
        if entry.Some? {
          return Entry(entry.value);
        }
      }
      r := Advance();
    }
  }

  /** What an iterator hands out: an entry and whether it begins a block, an error, or nothing any more. */
  datatype StreamItem = Entry(item: (SizedDictEntry, bool)) | Failed(error: StreamError) | End

  /** How many strings the first `b` blocks hold. */
  function Before(blocks: seq<Block>, b: nat): nat {
    if b > |blocks| then 0 else |Flatten(blocks[..b])|
  }

  /** One entry came out: the next of all, and whether a block was begun for it. */
  ghost predicate Emitted(blocks: seq<Block>, item: (SizedDictEntry, bool), n: nat, n': nat, begun: nat, begun': nat) {
    && n' == n + 1 <= |Flatten(blocks)| && item.0.ToBytes() == Flatten(blocks)[n]
    && begun' == begun + (if item.1 then 1 else 0)
    && 1 <= begun' <= |blocks| && Before(blocks, begun' - 1) <= n < Before(blocks, begun')
  }

  lemma BeforeStep(blocks: seq<Block>, b: nat)
    requires b < |blocks|
    ensures Before(blocks, b + 1) == Before(blocks, b) + |blocks[b].strings|
  {
    assert blocks[..b + 1] == blocks[..b] + [blocks[b]];
    PushStrings(blocks[..b], blocks[b]);
  }

  /** The strings of a block among all. */
  lemma {:induction false} StringsAt(blocks: seq<Block>, b: nat, k: nat, n: nat)
    requires b < |blocks| && k < |blocks[b].strings| && n == Before(blocks, b) + k
    ensures n < |Flatten(blocks)| && Flatten(blocks)[n] == blocks[b].strings[k]
    decreases |blocks|
  {
    var init := blocks[..|blocks| - 1];
    if b < |init| {
      assert init[..b] == blocks[..b];
      StringsAt(init, b, k, n);
    }
  }

  /** Entry `k` of the last block begun, as one of all. */
  lemma EmitEntry(blocks: seq<Block>, item: (SizedDictEntry, bool), n: nat, was: nat, begun: nat, k: nat)
    requires 1 <= begun <= |blocks| && k < |blocks[begun - 1].strings|
    requires item.0.ToBytes() == blocks[begun - 1].strings[k] && begun == was + (if item.1 then 1 else 0)
    requires n == Before(blocks, begun - 1) + k
    ensures Emitted(blocks, item, n, n + 1, was, begun)
  {
    StringsAt(blocks, begun - 1, k, n);
    BeforeStep(blocks, begun - 1);
  }

  /** Where a finished block ends: everything has come out, or the next block starts. */
  lemma EndOfBlock(blocks: seq<Block>, begun: nat)
    requires begun <= |blocks|
    ensures begun == 0 ==> Before(blocks, begun) == 0
    ensures begun > 0 ==> Before(blocks, begun) == Before(blocks, begun - 1) + |blocks[begun - 1].strings|
    ensures begun == |blocks| ==> Before(blocks, begun) == |Flatten(blocks)|
  {
    if begun > 0 {
      BeforeStep(blocks, begun - 1);
    }
    assert blocks[..|blocks|] == blocks;
  }

  /** What the stream holds: the next block and the bytes behind it, or nothing. */
  lemma Upcoming(blocks: seq<Block>, b: nat) returns (next: (Block, Bytes))
    requires b <= |blocks|
    ensures b < |blocks| ==> next.0 == blocks[b] && next.1 == AllBytes(blocks[b + 1..])
    ensures b < |blocks| ==> HoldsBlock(AllBytes(blocks[b..]), next.0.recordSize, next.0.strings, next.1)
    ensures b == |blocks| ==> AllBytes(blocks[b..]) == []
  {
    next := (StringBlock(None, [[]]), []);
    if b < |blocks| {
      NextBlock(blocks, b);
      next := (blocks[b], AllBytes(blocks[b + 1..]));
    }
  }
}
