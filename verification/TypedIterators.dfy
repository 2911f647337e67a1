/** Streaming a typed dictionary: the datatype of each entry is told by counting blocks. */
module TypedIterators {
  import opened Words
  import opened Results
  import opened ByteStrings
  import opened DictBlocks
  import opened SizedDicts
  import opened TypedSegments
  import opened TypedDicts
  import opened DictReaders
  import opened DictStreams
  import opened DictIterators
  import L = LogArrays

  lemma {:induction false} BeforeMonotone(blocks: seq<Block>, a: nat, b: nat)
    requires a <= b <= |blocks|
    ensures Before(blocks, a) <= Before(blocks, b)
    decreases b
  {
    if a < b {
      BeforeMonotone(blocks, a, b - 1);
      BeforeStep(blocks, b - 1);
    }
  }

  lemma {:induction false} FlattenAppend(p: seq<Block>, q: seq<Block>)
    ensures Flatten(p + q) == Flatten(p) + Flatten(q)
  {
    if q == [] {
      assert p + q == p;
    } else {
      var init, last := q[..|q| - 1], q[|q| - 1];
      FlattenAppend(p, init);
      LastApart(p, q, init, last);
      PushStrings(p + init, last);
      Associate2(Flatten(p), Flatten(init), last.strings);
    }
  }

  lemma {:induction false} StringsCounted(segs: seq<Segment>)
    ensures |Flatten(AllBlocks(segs))| == Count(segs)
  {
    if segs != [] {
      StringsCounted(segs[..|segs| - 1]);
      FlattenAppend(AllBlocks(segs[..|segs| - 1]), segs[|segs| - 1].blocks);
    }
  }

  /** The strings of the entries are those of the blocks. */
  lemma {:induction false} EntryString(segs: seq<Segment>, n: nat)
    requires n < Count(segs)
    ensures n < |Flatten(AllBlocks(segs))| && Entries(segs)[n].1 == Flatten(AllBlocks(segs))[n]
  {
    var init, last := segs[..|segs| - 1], segs[|segs| - 1];
    StringsCounted(init);
    FlattenAppend(AllBlocks(init), last.blocks);
    if n < Count(init) {
      EntryString(init, n);
    }
  }

  /** Strings before a segment, counted over blocks and over segments. */
  lemma CountIsBefore(segs: seq<Segment>, i: nat)
    requires i <= |segs|
    ensures Before(AllBlocks(segs), |AllBlocks(segs[..i])|) == Count(segs[..i])
  {
    BlocksBefore(segs, i);
    StringsCounted(segs[..i]);
  }

  /** Block `b` is one of segment `i`. */
  ghost predicate InSegment(segs: seq<Segment>, b: nat, i: nat) {
    i < |segs| && |AllBlocks(segs[..i])| <= b < |AllBlocks(segs[..i + 1])|
  }

  /** An entry of a block of segment `i` has that segment's datatype. */
  lemma KindOfEntry(segs: seq<Segment>, b: nat, i: nat, n: nat)
    requires InSegment(segs, b, i) && b < |AllBlocks(segs)|
    requires Before(AllBlocks(segs), b) <= n < Before(AllBlocks(segs), b + 1)
    ensures n < Count(segs) && n < |Flatten(AllBlocks(segs))|
    ensures Entries(segs)[n] == (segs[i].kind, Flatten(AllBlocks(segs))[n])
  {
    BlocksBefore(segs, i + 1);
    CountIsBefore(segs, i);
    CountIsBefore(segs, i + 1);
    BeforeMonotone(AllBlocks(segs), |AllBlocks(segs[..i])|, b);
    BeforeMonotone(AllBlocks(segs), b + 1, |AllBlocks(segs[..i + 1])|);
    NextPrefix(segs, i);
    EntriesAt(segs, i, n - Count(segs[..i]));
    EntryString(segs, n);
  }

  /** The next block is in the same segment or, at the boundary, the first of the next one. */
  lemma NextSegment(segs: seq<Segment>, b: nat, i: nat)
    requires AllGood(segs) && b < |AllBlocks(segs)|
    requires if b == 0 then i == 0 else InSegment(segs, b - 1, i)
    ensures b > 0 && i + 1 < |segs| && b == |AllBlocks(segs[..i + 1])| ==> InSegment(segs, b, i + 1)
    ensures !(b > 0 && i + 1 < |segs| && b == |AllBlocks(segs[..i + 1])|) ==> InSegment(segs, b, i)
  {
    if b == 0 {
      SegmentBlocks(segs, 0);
      assert segs[..0] == [];
    } else if i + 1 < |segs| {
      SegmentBlocks(segs, i + 1);
    } else {
      assert segs[..i + 1] == segs;
    }
  }

  class TfcTypedDictIterator {
    const inner: TfcDictIterator
    const typesPresent: L.LogArray
    const typeOffsets: L.LogArray
    var blockIndex: nat
    var offset: nat
    ghost const segs: seq<Segment>

    ghost predicate Valid()
      reads this, inner, inner.reader, inner.currentBlock
    {
      inner.Valid() && Placed()
    }

    /** The block and segment counters, in step with the inner iterator. */
    ghost predicate Placed()
      reads this, inner`begun
    {
      && inner.blocks == AllBlocks(segs)
      && typesPresent.Holds(Kinds(segs)) && blockIndex == inner.begun && Placing(blockIndex, offset)
    }

    constructor (reader: DontReadLastU64Reader, typesPresent: L.LogArray, typeOffsets: L.LogArray,
                 ghost segs: seq<Segment>)
      requires reader.Valid() && reader.Left() == AllBytes(AllBlocks(segs)) && AllGood(segs)
      requires typesPresent.Holds(Kinds(segs)) && L.HoldsNats(typeOffsets, AllButLast(LastBlocks(segs)))
      ensures Valid() && inner.yielded == 0 && this.segs == segs && inner.reader == reader
      ensures fresh(inner) && inner.currentBlock == null
    {
      inner := new TfcDictIterator(reader, AllBlocks(segs));
      this.typesPresent, this.typeOffsets, this.segs := typesPresent, typeOffsets, segs;
      blockIndex, offset := 0, 0;
    }

    /** Whether block `block`, coming after segment `offset` was met last, is the first of the next segment. */
    method AtBoundary(block: nat, offset: nat) returns (r: bool)
      requires Placing(block, offset) && block < |AllBlocks(segs)|
      ensures r <==> block > 0 && offset + 1 < |segs| && block == |AllBlocks(segs[..offset + 1])|
    {
      if block == 0 || offset >= typeOffsets.len {
        return false;
      }
      LastBlocksAt(segs, offset);
      LastBlockOf(segs, offset, typeOffsets.Entry(offset));
      r := block == typeOffsets.Entry(offset) + 1;
    }

    /** `block` blocks have begun, the last of them in segment `offset`. */
    ghost predicate Placing(block: nat, offset: nat) {
      && AllGood(segs) && L.HoldsNats(typeOffsets, AllButLast(LastBlocks(segs)))
      && (if block == 0 then offset == 0 else InSegment(segs, block - 1, offset))
    }

    /** The segment counter once block `block` begins: it may be the first of its segment. */
    method CountBlock(block: nat, offset: nat) returns (offset': nat)
      requires Placing(block, offset) && block < |AllBlocks(segs)|
      ensures InSegment(segs, block, offset')
    {
      NextSegment(segs, block, offset);
      var boundary := AtBoundary(block, offset);
      offset' := if boundary then offset + 1 else offset;
    }

    /** The counters after an entry, which may be the first of its block. */
    method CountUp(begins: bool, block: nat, offset: nat, ghost b: nat) returns (block': nat, offset': nat)
      requires Placing(block, offset)
      requires b + 1 == (if begins then block + 1 else block) && b < |AllBlocks(segs)|
      ensures block' == b + 1 && InSegment(segs, b, offset')
    {
      block', offset' := block, offset;
      if begins {
        offset' := CountBlock(block, offset);
        block' := block + 1;
      }
    }

    /** The counters after an entry, and its datatype. */
    method CountEntry(begins: bool, block: nat, offset: nat, ghost b: nat, ghost n: nat)
        returns (kind: u64, block': nat, offset': nat)
      requires Placing(block, offset) && typesPresent.Holds(Kinds(segs))
      requires b + 1 == (if begins then block + 1 else block) && b < |AllBlocks(segs)|
      requires Before(AllBlocks(segs), b) <= n < Before(AllBlocks(segs), b + 1)
      ensures block' == b + 1 && InSegment(segs, b, offset')
      ensures n < Count(segs) && n < |Flatten(AllBlocks(segs))|
      ensures Entries(segs)[n] == (kind, Flatten(AllBlocks(segs))[n])
    {
      block', offset' := CountUp(begins, block, offset, b);
      KindOfEntry(segs, b, offset', n);
      kind := PresentKind(offset');
    }

    method PresentKind(i: nat) returns (kind: u64)
      requires typesPresent.Holds(Kinds(segs)) && i < |segs|
      ensures kind == segs[i].kind
    {
      KindsAt(segs, i);
      kind := typesPresent.Entry(i);
    }

    /** The counters and the item with its datatype, once an item came out. */
    method Classify(item: StreamItem, block: nat, offset: nat, ghost begun: nat, ghost n: nat, ghost n': nat)
        returns (r: TypedItem, block': nat, offset': nat)
      requires Placing(block, offset) && typesPresent.Holds(Kinds(segs))
      requires item.End? ==> begun == block && n' == n == |Flatten(AllBlocks(segs))|
      requires !item.End? ==> item.Entry? && Emitted(AllBlocks(segs), item.item, n, n', block, begun)
      ensures block' == begun && Placing(block', offset') && Handed(segs, r, n, n')
    {
      StringsCounted(segs);
      var kind := 0;
      block', offset' := block, offset;
      if item.Entry? {
        kind, block', offset' := CountItem(item.item, block, offset, begun, n, n');
      }
      r := WithKind(item, kind);
    }

    method CountItem(item: (SizedDictEntry, bool), block: nat, offset: nat, ghost begun: nat, ghost n: nat,
                     ghost n': nat)
        returns (kind: u64, block': nat, offset': nat)
      requires Placing(block, offset) && typesPresent.Holds(Kinds(segs))
      requires Emitted(AllBlocks(segs), item, n, n', block, begun)
      ensures block' == begun && Placing(block', offset')
      ensures n' == n + 1 <= Count(segs) && (kind, item.0.ToBytes()) == Entries(segs)[n]
    {
      kind, block', offset' := CountEntry(item.1, block, offset, begun - 1, n);
    }

    /** Gives an item that came out its datatype. */
    method AddKind(item: StreamItem, ghost begun: nat, ghost n: nat, ghost n': nat) returns (r: TypedItem)
      requires inner.Valid() && Placing(blockIndex, offset) && typesPresent.Holds(Kinds(segs))
      requires item.End? ==> begun == blockIndex && n' == n == |Flatten(AllBlocks(segs))|
      requires !item.End? ==> item.Entry? && Emitted(AllBlocks(segs), item.item, n, n', blockIndex, begun)
      modifies this`blockIndex, this`offset
      ensures inner.Valid() && blockIndex == begun && Placing(blockIndex, offset) && Handed(segs, r, n, n')
    {
      var block, at;
      r, block, at := Classify(item, blockIndex, offset, begun, n, n');
      Move(block, at);
    }

    /** Sets the counters; the inner iterator has no part in them. */
    method Move(block: nat, at: nat)
      requires inner.Valid()
      modifies this`blockIndex, this`offset
      ensures inner.Valid() && blockIndex == block && offset == at
    {
      blockIndex, offset := block, at;
    }

    /** The next typed entry; an error, or the end of the dictionary. */
    method Next() returns (r: TypedItem)
      requires Valid()
      modifies this, inner, inner.reader, inner.currentBlock
      ensures Valid()
      ensures inner.currentBlock != old(inner.currentBlock) ==> fresh(inner.currentBlock)
      ensures Handed(segs, r, old(inner.yielded), inner.yielded)
    {
      ghost var n := inner.yielded;
      var item := inner.Next();
      r := AddKind(item, inner.begun, n, inner.yielded);
    }

    /** One more turn of a run that has handed out `out`. */
    method Turn(out: seq<TypedString>) returns (out': seq<TypedString>, more: bool)
      requires Valid() && IsRun(segs, out, inner.yielded)
      modifies this, inner, inner.reader, inner.currentBlock
      ensures Valid() && IsRun(segs, out', inner.yielded)
      ensures inner.currentBlock != old(inner.currentBlock) ==> fresh(inner.currentBlock)
      ensures if more then inner.yielded == old(inner.yielded) + 1 else out' == Entries(segs)
    {
      ghost var n := inner.yielded;
      var r := Next();
      OneMore(out, segs, r, n, inner.yielded);
      out', more := if r.TypedEntry? then out + [TypedBytes(r.item)] else out, r.TypedEntry?;
    }

    /** Run from the start to its end, the iterator has handed out all typed strings, in order. */
    method Collect() returns (out: seq<TypedString>)
      requires Valid() && inner.yielded == 0
      modifies this, inner, inner.reader, inner.currentBlock
      ensures out == Entries(segs)
    {
      out := [];
      var more := true;
      while more
        invariant Valid() && IsRun(segs, out, inner.yielded)
        invariant inner.currentBlock != old(inner.currentBlock) ==> fresh(inner.currentBlock)
        invariant !more ==> out == Entries(segs)
        decreases Count(segs) - inner.yielded, more
      {
        out, more := Turn(out);
      }
    }
  }

  /** What came out so far. */
  ghost predicate IsRun(segs: seq<Segment>, out: seq<TypedString>, n: nat) {
    n <= Count(segs) == |Entries(segs)| && out == Entries(segs)[..n]
  }

  /** What is learnt from an item. */
  function TypedBytes(e: TypedDictEntry): TypedString {
    (e.kind, e.entry.ToBytes())
  }

  lemma OneMore(out: seq<TypedString>, segs: seq<Segment>, r: TypedItem, n: nat, n': nat)
    requires IsRun(segs, out, n) && Handed(segs, r, n, n')
    ensures r.TypedEntry? ==> n' == n + 1 && IsRun(segs, out + [TypedBytes(r.item)], n')
    ensures !r.TypedEntry? ==> n' == n && out == Entries(segs)
  {}

  /** The `n`-th typed entry came out, or there is none left. */
  ghost predicate Handed(segs: seq<Segment>, r: TypedItem, n: nat, n': nat) {
    match r
    case TypedEntry(e) => n' == n + 1 <= Count(segs) && (e.kind, e.entry.ToBytes()) == Entries(segs)[n]
    case TypedFailed(_) => false
    case TypedEnd => n' == n == Count(segs)
  }

  function WithKind(item: StreamItem, kind: u64): TypedItem {
    match item
    case Entry((entry, _)) => TypedEntry(TypedDictEntry(kind, entry))
    case Failed(e) => TypedFailed(e)
    case End => TypedEnd
  }

  datatype TypedItem = TypedEntry(item: TypedDictEntry) | TypedFailed(error: StreamError) | TypedEnd

  /**
   * `new`: an iterator over the buffers a dictionary builder left behind; it will hand out exactly the entries built.
   * None if the datatypes are not in order.
   */
  method NewIterator(typesPresent: Bytes, typeOffsets: Bytes, data: Bytes, ghost blockOffsets: Bytes,
                     ghost segs: seq<Segment>)
      returns (r: Option<TfcTypedDictIterator>)
    requires IsBuilt(typesPresent, typeOffsets, blockOffsets, data, segs)
    ensures r.Some? <==> L.Sorted(Kinds(segs))
    ensures r.Some? ==> fresh(r.value) && fresh(r.value.inner) && fresh(r.value.inner.reader)
    ensures r.Some? ==> r.value.inner.currentBlock == null && r.value.inner.yielded == 0
    ensures r.Some? ==> r.value.Valid() && r.value.segs == segs
  {
    var types := L.ParseMonotonic(typesPresent, Kinds(segs));
    if types.None? {
      return None;
    }
    LastBlocksSorted(segs);
    var offsets := L.ParseMonotonic(typeOffsets, AllButLast(LastBlocks(segs)));
    var reader := new DontReadLastU64Reader(data);
    var iter := new TfcTypedDictIterator(reader, types.value.value, offsets.value.value, segs);
    r := Some(iter);
  }

  /** Streaming a builder's buffers from start to end gives back the typed strings built. */
  method StreamEntries(typesPresent: Bytes, typeOffsets: Bytes, data: Bytes, ghost blockOffsets: Bytes,
                       ghost segs: seq<Segment>)
      returns (r: Option<seq<TypedString>>)
    requires IsBuilt(typesPresent, typeOffsets, blockOffsets, data, segs)
    ensures r == if L.Sorted(Kinds(segs)) then Some(Entries(segs)) else None
  {
    var iter := NewIterator(typesPresent, typeOffsets, data, blockOffsets, segs);
    if iter.None? {
      return None;
    }
    var out := iter.value.Collect();
    r := Some(out);
  }
}
