/** Building a typed dictionary: one segment after another into shared block offsets and data. */
module TypedDictBuilders {
  import opened Words
  import opened Results
  import opened ByteStrings
  import opened DictBlocks
  import opened SizedDicts
  import opened TypedSegments
  import opened TypedDicts
  import L = LogArrays

  /** What has been handed in so far: closed segments, and the open one's datatype and strings. */
  ghost predicate Collected(contents: seq<TypedString>, finished: seq<Segment>, current: Option<u64>,
                            open: seq<Bytes>) {
    match current
    case None => finished == [] && open == [] && contents == []
    case Some(kind) => open != [] && contents == Entries(finished) + Tagged(kind, open)
  }

  /** Neighbouring segments have different datatypes. */
  ghost predicate Changing(kinds: seq<u64>) {
    forall i :: 1 <= i < |kinds| ==> kinds[i - 1] != kinds[i]
  }

  /** The two small arrays: the datatypes, and the last block of each closed segment. */
  ghost predicate Listed(typesPresent: seq<u64>, typeOffsets: seq<nat>, finished: seq<Segment>, current: Option<u64>) {
    && typesPresent == Kinds(finished) + (if current.None? then [] else [current.value])
    && Changing(typesPresent)
    && typeOffsets == LastBlocks(finished)
  }

  lemma OpenFirst(kind: u64, s: Bytes)
    ensures Collected([(kind, s)], [], Some(kind), [s])
  {
    assert Entries([]) + Tagged(kind, [s]) == [(kind, s)];
  }

  lemma PushSame(contents: seq<TypedString>, finished: seq<Segment>, kind: u64, open: seq<Bytes>, s: Bytes)
    requires Collected(contents, finished, Some(kind), open)
    ensures Collected(contents + [(kind, s)], finished, Some(kind), open + [s])
  {
    assert Tagged(kind, open + [s]) == Tagged(kind, open) + [(kind, s)];
    assert Entries(finished) + (Tagged(kind, open) + [(kind, s)]) ==
      Entries(finished) + Tagged(kind, open) + [(kind, s)];
  }

  /** Closing a segment and opening the next one. */
  lemma PushNext(contents: seq<TypedString>, finished: seq<Segment>, kind: u64, open: seq<Bytes>, done: Segment,
                 next: u64, s: Bytes)
    requires Collected(contents, finished, Some(kind), open) && done.kind == kind && done.Strings() == open
    ensures Collected(contents + [(next, s)], finished + [done], Some(next), [s])
  {
    PushSegment(finished, done);
    assert Tagged(next, [s]) == [(next, s)];
  }

  lemma ListNext(typesPresent: seq<u64>, typeOffsets: seq<nat>, finished: seq<Segment>, kind: u64, done: Segment,
                 next: u64, n: nat)
    requires Listed(typesPresent, typeOffsets, finished, Some(kind)) && done.kind == kind != next
    requires n == |AllBlocks(finished + [done])| && n > 0
    ensures Listed(typesPresent + [next], typeOffsets + [n - 1], finished + [done], Some(next))
  {
    PushSegment(finished, done);
    PushLast(finished, done);
  }

  /** What was written is the blocks of the segments, the new one included. */
  lemma CloseSegment(finished: seq<Segment>, done: Segment, data: Bytes, blockOffset: nat, offsets: seq<nat>)
    requires Written(AllBlocks(finished) + done.blocks, data, blockOffset, offsets) && done.blocks != []
    ensures Written(AllBlocks(finished + [done]), data, blockOffset, offsets)
    ensures |offsets| == |AllBlocks(finished + [done])| > 0
    ensures Count(finished + [done]) == Count(finished) + |done.Strings()|
  {
    PushSegment(finished, done);
  }

  lemma GoodPush(segs: seq<Segment>, s: Segment)
    requires AllGood(segs) && s.Good()
    ensures AllGood(segs + [s])
  {}

  ghost predicate AllFitTyped(entries: seq<TypedString>) {
    forall i :: 0 <= i < |entries| ==> Fits(RecordSize(entries[i].0), entries[i].1)
  }

  /** The numbers from `n + 1` on. */
  function Numbers(n: nat, len: nat): seq<nat> {
    if len == 0 then [] else Numbers(n, len - 1) + [n + len]
  }

  /** What adding the first `i` entries has come to. */
  ghost predicate IsAdded(start: seq<TypedString>, entries: seq<TypedString>, i: nat, contents: seq<TypedString>,
                          ids: seq<nat>) {
    i <= |entries| && contents == start + entries[..i] && ids == Numbers(|start|, i)
  }

  lemma AddedNext(start: seq<TypedString>, entries: seq<TypedString>, i: nat, contents: seq<TypedString>, ids: seq<nat>,
                  contents': seq<TypedString>, id: nat)
    requires IsAdded(start, entries, i, contents, ids) && i < |entries|
    requires contents' == contents + [(entries[i].0, entries[i].1)] && id == |contents'|
    ensures IsAdded(start, entries, i + 1, contents', ids + [id])
  {
    TakeOneMore(start, entries, i);
    NumbersNext(ids, |start|, i);
  }

  lemma NumbersNext(ids: seq<nat>, n: nat, len: nat)
    requires ids == Numbers(n, len)
    ensures ids + [n + len + 1] == Numbers(n, len + 1)
  {}

  lemma TakeOneMore(start: seq<TypedString>, entries: seq<TypedString>, i: nat)
    requires i < |entries|
    ensures start + entries[..i] + [entries[i]] == start + entries[..i + 1]
    ensures (entries[i].0, entries[i].1) == entries[i]
  {}

  class TypedDictBufBuilder {
    var typesPresent: seq<u64>
    var typeOffsets: seq<nat>
    var sized: SizedDictBufBuilder
    var currentDatatype: Option<u64>
    ghost var finished: seq<Segment>
    ghost var Contents: seq<TypedString>

    /** The open segment's builder carries on from the finished ones. */
    ghost predicate IsOpen()
      reads this`sized, this`finished, this`currentDatatype, sized
    {
      && sized.Valid() && sized.handed == AllBlocks(finished) && sized.handedIds == Count(finished)
      && (currentDatatype.Some? ==> sized.Contents != [] && sized.recordSize == RecordSize(currentDatatype.value))
    }

    ghost predicate Valid()
      reads this, sized
    {
      && IsOpen()
      && AllGood(finished)
      && Listed(typesPresent, typeOffsets, finished, currentDatatype)
      && Collected(Contents, finished, currentDatatype, sized.Contents)
    }

    constructor ()
      ensures Valid() && Contents == [] && fresh(sized)
    {
      typesPresent, typeOffsets, currentDatatype := [], [], None;
      finished, Contents := [], [];
      sized := new SizedDictBufBuilder(None, 0, 0, [], [], []);
    }

    /** Closes the open segment. */
    method CloseType() returns (offsets: seq<nat>, data: Bytes, blockOffset: nat, idOffset: nat, ghost done: Segment)
      requires IsOpen() && currentDatatype.Some?
      modifies sized
      ensures done.Good() && done.kind == currentDatatype.value && done.Strings() == old(sized.Contents)
      ensures Written(AllBlocks(finished + [done]), data, blockOffset, offsets)
      ensures |offsets| == |AllBlocks(finished + [done])| > 0
      ensures idOffset == Count(finished + [done])
    {
      ghost var segment;
      offsets, data, blockOffset, idOffset, segment := sized.Finalize();
      done := Segment(currentDatatype.value, segment);
      CloseSegment(finished, done, data, blockOffset, offsets);
    }

    /** Closes the open segment and starts one for another datatype. */
    method SwitchType(kind: u64) returns (ghost done: Segment)
      requires IsOpen() && currentDatatype.Some? && currentDatatype != Some(kind)
      requires Listed(typesPresent, typeOffsets, finished, currentDatatype)
      modifies this, sized
      ensures sized.Valid() && fresh(sized) && sized.Contents == [] && sized.recordSize == RecordSize(kind)
      ensures done.Good() && done.kind == old(currentDatatype).value && done.Strings() == old(sized.Contents)
      ensures finished == old(finished) + [done] && Contents == old(Contents) && currentDatatype == Some(kind)
      ensures sized.handed == AllBlocks(finished) && sized.handedIds == Count(finished)
      ensures Listed(typesPresent, typeOffsets, finished, Some(kind))
    {
      var offsets, data, blockOffset, idOffset;
      offsets, data, blockOffset, idOffset, done := CloseType();
      ListNext(typesPresent, typeOffsets, finished, currentDatatype.value, done, kind, |offsets|);
      ghost var all := finished + [done];
      var next := new SizedDictBufBuilder(RecordSize(kind), blockOffset, idOffset, offsets, data, AllBlocks(all));
      Install(next, kind, all, |offsets| - 1);
    }

    /** The new segment's builder takes over. */
    method Install(next: SizedDictBufBuilder, kind: u64, ghost all: seq<Segment>, lastBlock: nat)
      requires next.Valid()
      modifies this`sized, this`currentDatatype, this`finished, this`typesPresent, this`typeOffsets
      ensures next.Valid() && sized == next && currentDatatype == Some(kind) && finished == all
      ensures typesPresent == old(typesPresent) + [kind] && typeOffsets == old(typeOffsets) + [lastBlock]
    {
      sized, currentDatatype, finished := next, Some(kind), all;
      typesPresent, typeOffsets := typesPresent + [kind], typeOffsets + [lastBlock];
    }

    /** The very first datatype. */
    method FirstType(kind: u64)
      requires Valid() && currentDatatype.None?
      modifies this`currentDatatype, this`typesPresent, sized`recordSize
      ensures sized.Valid() && sized.recordSize == RecordSize(kind) && sized.Contents == []
      ensures currentDatatype == Some(kind) && Listed(typesPresent, typeOffsets, finished, Some(kind))
    {
      NothingWritten(sized.mine, sized.recordSize, sized.currentBlock);
      currentDatatype := Some(kind);
      typesPresent := typesPresent + [kind];
      sized.recordSize := RecordSize(kind);
    }

    /** Makes the open segment one of this datatype. */
    method OpenFor(kind: u64, ghost value: Bytes)
      requires Valid()
      modifies this, sized`recordSize, sized
      ensures sized == old(sized) || fresh(sized)
      ensures sized.Valid() && sized.recordSize == RecordSize(kind) && currentDatatype == Some(kind)
      ensures Contents == old(Contents) && AllGood(finished)
      ensures sized.handed == AllBlocks(finished) && sized.handedIds == Count(finished)
      ensures Listed(typesPresent, typeOffsets, finished, currentDatatype)
      ensures Collected(Contents + [(kind, value)], finished, currentDatatype, sized.Contents + [value])
    {
      if currentDatatype.None? {
        FirstType(kind);
        OpenFirst(kind, value);
      } else if currentDatatype == Some(kind) {
        PushSame(Contents, finished, kind, sized.Contents, value);
      } else {
        ghost var before, open, last := finished, sized.Contents, currentDatatype.value;
        ghost var done := SwitchType(kind);
        PushNext(Contents, before, last, open, done, kind, value);
        GoodPush(before, done);
      }
    }

    /** Adds a string of a datatype and returns its global id. */
    method Add(kind: u64, value: Bytes) returns (id: nat)
      requires Valid() && Fits(RecordSize(kind), value)
      modifies this, sized
      ensures Valid() && Contents == old(Contents) + [(kind, value)] && id == |Contents|
      ensures sized == old(sized) || fresh(sized)
    {
      OpenFor(kind, value);
      id := sized.Add(value);
      Contents := Contents + [(kind, value)];
    }

    /** Adds a whole list; the ids are the places in it. */
    method AddAll(entries: seq<TypedString>) returns (ids: seq<nat>)
      requires Valid() && AllFitTyped(entries)
      modifies this, sized
      ensures Valid() && Contents == old(Contents) + entries
      ensures ids == Numbers(|old(Contents)|, |entries|)
      ensures sized == old(sized) || fresh(sized)
    {
      ids := [];
      ghost var start := Contents;
      for i := 0 to |entries|
        invariant Valid() && IsAdded(start, entries, i, Contents, ids)
        invariant sized == old(sized) || fresh(sized)
      {
        ghost var before := Contents;
        var id := Add(entries[i].0, entries[i].1);
        AddedNext(start, entries, i, before, ids, Contents, id);
        ids := ids + [id];
      }
      assert entries[..|entries|] == entries;
    }

    /** The four buffers, and the segments they hold. */
    method Finalize() returns (types: Bytes, offsets: Bytes, blocks: Bytes, data: Bytes, ghost segs: seq<Segment>)
      requires Valid()
      requires sized.Size() < WORD && |sized.offsets| < L.MAX_LOGARRAY_LEN
      modifies this, sized
      ensures IsBuilt(types, offsets, blocks, data, segs) && Entries(segs) == old(Contents)
      ensures AreTight(types, offsets, blocks, segs) && FromBe(data[|data| - 8..]) == |old(Contents)|
      ensures SortedEntries(old(Contents)) ==> Ordered(segs)
    {
      ghost var open := sized.Contents;
      var ends, bytes, _, idOffset, segment := sized.Finalize();
      segs := Closed(Contents, finished, currentDatatype, open, segment, typesPresent, typeOffsets);
      if SortedEntries(Contents) {
        OrderedSegments(segs);
      }
      types, offsets, blocks, data := BuildParts(typesPresent, typeOffsets, ends, bytes, idOffset, segs);
    }
  }

  /** The three arrays, and the data with the number of ids behind it. */
  method BuildParts(typesPresent: seq<u64>, typeOffsets: seq<nat>, ends: seq<nat>, bytes: Bytes, idOffset: nat,
                    ghost segs: seq<Segment>)
      returns (types: Bytes, offsets: Bytes, blocks: Bytes, data: Bytes)
    requires AllGood(segs) && typesPresent == Kinds(segs) && typeOffsets == AllButLast(LastBlocks(segs))
    requires bytes == AllBytes(AllBlocks(segs)) && ends == Ends(AllBlocks(segs)) && idOffset == Count(segs)
    requires |bytes| < WORD && |ends| <= L.MAX_LOGARRAY_LEN
    ensures IsBuilt(types, offsets, blocks, data, segs) && AreTight(types, offsets, blocks, segs)
    ensures FromBe(data[|data| - 8..]) == Count(segs)
  {
    BuiltBounds(segs, typeOffsets, ends);
    types := BuildArray(typesPresent);
    offsets := BuildArray(typeOffsets);
    blocks := BuildOffsets(ends);
    data := bytes + PutU64(ToWord(idOffset));
    CountBehind(bytes, idOffset, data);
  }

  /** The eight bytes behind the data are the count, big-endian. */
  lemma CountBehind(bytes: Bytes, count: u64, data: Bytes)
    requires data == bytes + PutU64(ToWord(count))
    ensures |data| >= 8 && data[..|data| - 8] == bytes && FromBe(data[|data| - 8..]) == count
  {
    assert data[|data| - 8..] == PutU64(ToWord(count));
    PutU64IsBigEndian(ToWord(count));
    WordOfValue(count);
  }

  /** A builder that was given nothing has written nothing. */
  lemma NothingWritten(blocks: seq<Block>, recordSize: Option<nat>, current: seq<Bytes>)
    requires Flatten(blocks) + current == []
    ensures blocks == []
  {}

  /** The open segment, if there is one, joins the finished ones. */
  lemma Closed(contents: seq<TypedString>, finished: seq<Segment>, current: Option<u64>, open: seq<Bytes>,
               segment: seq<Block>,
               typesPresent: seq<u64>, typeOffsets: seq<nat>) returns (segs: seq<Segment>)
    requires Collected(contents, finished, current, open) && Listed(typesPresent, typeOffsets, finished, current)
    requires AllGood(finished) && Flatten(segment) == open
    requires current.Some? ==> IsSegment(segment, RecordSize(current.value), open)
    ensures AllGood(segs) && Entries(segs) == contents
    ensures AllBlocks(segs) == AllBlocks(finished) + segment
    ensures Count(segs) == Count(finished) + |open|
    ensures typesPresent == Kinds(segs) && typeOffsets == AllButLast(LastBlocks(segs)) && Changing(Kinds(segs))
  {
    if current.None? {
      NothingWritten(segment, None, []);
      segs := [];
    } else {
      var s := Segment(current.value, segment);
      segs := finished + [s];
      PushSegment(finished, s);
      PushLast(finished, s);
      GoodPush(finished, s);
    }
  }

  /** The input the dictionary is for: grouped by increasing datatype, strictly increasing within each. */
  ghost predicate SortedEntries(entries: seq<TypedString>) {
    forall i :: 1 <= i < |entries| ==> Below(entries[i - 1], entries[i].0, entries[i].1)
  }

  predicate Above(e: TypedString, kind: u64, slice: Bytes) {
    kind < e.0 || (kind == e.0 && Compare(slice, e.1) == Less)
  }

  /**
   * What a lookup over all typed strings finds: the string itself, or the last one below it, all later ones being
   * above.
   */
  ghost predicate IsTypedLookup(entries: seq<TypedString>, kind: u64, slice: Bytes, r: IdLookupResult) {
    match r
    case Found(k) => k < |entries| && entries[k] == (kind, slice)
    case Closest(k) =>
      && k < |entries|
      && (forall j :: 0 <= j <= k ==> Below(entries[j], kind, slice))
      && (forall j :: k < j < |entries| ==> Above(entries[j], kind, slice))
    case NotFound => forall j :: 0 <= j < |entries| ==> Above(entries[j], kind, slice)
  }

  lemma AboveNext(e: TypedString, f: TypedString, kind: u64, slice: Bytes)
    requires Above(e, kind, slice) && Below(e, f.0, f.1)
    ensures Above(f, kind, slice)
  {
    if kind == e.0 == f.0 {
      LessIsTransitive(slice, e.1, f.1);
    }
  }

  lemma {:induction false} AboveFrom(entries: seq<TypedString>, kind: u64, slice: Bytes, i: nat, j: nat)
    requires SortedEntries(entries) && i <= j < |entries| && Above(entries[i], kind, slice)
    ensures Above(entries[j], kind, slice)
    decreases j
  {
    if i < j {
      AboveFrom(entries, kind, slice, i, j - 1);
      AboveNext(entries[j - 1], entries[j], kind, slice);
    }
  }

  lemma ThreeWays(e: TypedString, kind: u64, slice: Bytes)
    ensures Below(e, kind, slice) || e == (kind, slice) || Above(e, kind, slice)
  {
    if e.0 == kind && e.1 != slice {
      CompareEqual(e.1, slice);
      CompareFlips(slice, e.1);
    }
  }

  /** On sorted input, the walk over all typed strings finds just that. */
  lemma {:induction false} LinearTypedIsLookup(entries: seq<TypedString>, kind: u64, slice: Bytes, i: nat)
    requires SortedEntries(entries) && i <= |entries|
    requires forall j :: 0 <= j < i ==> Below(entries[j], kind, slice)
    ensures IsTypedLookup(entries, kind, slice, LinearTyped(entries, kind, slice, i))
    decreases |entries| - i
  {
    if i < |entries| {
      ThreeWays(entries[i], kind, slice);
      if Below(entries[i], kind, slice) {
        LinearTypedIsLookup(entries, kind, slice, i + 1);
      } else if entries[i] != (kind, slice) {
        forall j | i <= j < |entries|
          ensures Above(entries[j], kind, slice)
        {
          AboveFrom(entries, kind, slice, i, j);
        }
      }
    }
  }

  lemma BelowNext(e: TypedString, f: TypedString, g: TypedString)
    requires Below(e, f.0, f.1) && Below(f, g.0, g.1)
    ensures Below(e, g.0, g.1)
  {
    if e.0 == f.0 == g.0 {
      LessIsTransitive(e.1, f.1, g.1);
    }
  }

  lemma {:induction false} BelowUpTo(entries: seq<TypedString>, i: nat, k: nat)
    requires SortedEntries(entries) && i < k < |entries|
    ensures Below(entries[i], entries[k].0, entries[k].1)
    decreases k
  {
    if i < k - 1 {
      BelowUpTo(entries, i, k - 1);
      BelowNext(entries[i], entries[k - 1], entries[k]);
    }
  }

  lemma NotBelowItself(e: TypedString)
    ensures !Below(e, e.0, e.1)
  {
    CompareEqual(e.1, e.1);
  }

  lemma {:induction false} WalkUpTo(entries: seq<TypedString>, k: nat, i: nat)
    requires SortedEntries(entries) && i <= k < |entries|
    ensures LinearTyped(entries, entries[k].0, entries[k].1, i) == Found(k)
    decreases k - i
  {
    if i < k {
      BelowUpTo(entries, i, k);
      WalkUpTo(entries, k, i + 1);
    } else {
      NotBelowItself(entries[k]);
    }
  }

  /** On sorted input, looking a string up finds its own place. */
  lemma FindsItself(entries: seq<TypedString>, k: nat)
    requires SortedEntries(entries) && k < |entries|
    ensures LinearTyped(entries, entries[k].0, entries[k].1, 0) == Found(k)
  {
    WalkUpTo(entries, k, 0);
  }

  lemma StringStep(entries: seq<TypedString>, segs: seq<Segment>, i: nat, k: nat, at: nat)
    requires i < |segs| && 1 <= k < |segs[i].Strings()| && entries == Entries(segs) && at == Count(segs[..i]) + k
    requires at < |entries| ==> Below(entries[at - 1], entries[at].0, entries[at].1)
    ensures Compare(segs[i].Strings()[k - 1], segs[i].Strings()[k]) == Less
  {
    EntriesAt(segs, i, k - 1);
    EntriesAt(segs, i, k);
  }

  lemma SegmentSorted(segs: seq<Segment>, i: nat)
    requires i < |segs| && SortedEntries(Entries(segs))
    ensures StrictlySorted(segs[i].Strings())
  {
    var strings, entries, c := segs[i].Strings(), Entries(segs), Count(segs[..i]);
    forall k | 1 <= k < |strings|
      ensures Compare(strings[k - 1], strings[k]) == Less
    {
      StringStep(entries, segs, i, k, c + k);
    }
  }

  lemma LastOfSegment(segs: seq<Segment>, i: nat, k: nat, at: nat)
    requires i < |segs| && |segs[i].Strings()| == k + 1 && at == Count(segs[..i]) + k
    ensures at < |Entries(segs)| && Entries(segs)[at].0 == segs[i].kind
    ensures Count(segs[..i + 1]) == at + 1
  {
    NextPrefix(segs, i);
    EntryAt(segs, i, k, at);
  }

  lemma NeighboursIncrease(segs: seq<Segment>, i: nat, entries: seq<TypedString>, at: nat)
    requires i + 1 < |segs| && segs[i].Strings() != [] && segs[i + 1].Strings() != []
    requires entries == Entries(segs) && at + 1 == Count(segs[..i]) + |segs[i].Strings()|
    requires Changing(Kinds(segs)) && SortedEntries(entries)
    ensures segs[i].kind < segs[i + 1].kind
  {
    KindsAt(segs, i);
    KindsAt(segs, i + 1);
    LastOfSegment(segs, i, |segs[i].Strings()| - 1, at);
    FirstOfNext(segs, i + 1, at + 1);
    assert Below(entries[at], entries[at + 1].0, entries[at + 1].1);
  }

  lemma {:induction false} KindsIncrease(segs: seq<Segment>, i: nat, j: nat)
    requires AllGood(segs) && Changing(Kinds(segs)) && SortedEntries(Entries(segs)) && i < j < |segs|
    ensures segs[i].kind < segs[j].kind
    decreases j
  {
    SegmentNotEmpty(segs[j - 1]);
    SegmentNotEmpty(segs[j]);
    NeighboursIncrease(segs, j - 1, Entries(segs), Count(segs[..j - 1]) + |segs[j - 1].Strings()| - 1);
    if i < j - 1 {
      KindsIncrease(segs, i, j - 1);
    }
  }

  /** Sorted input makes ordered segments. */
  lemma OrderedSegments(segs: seq<Segment>)
    requires AllGood(segs) && Changing(Kinds(segs)) && SortedEntries(Entries(segs))
    ensures Ordered(segs)
  {
    forall i, j | 0 <= i < j < |segs|
      ensures segs[i].kind < segs[j].kind
    {
      KindsIncrease(segs, i, j);
    }
    forall i | 0 <= i < |segs|
      ensures StrictlySorted(segs[i].Strings())
    {
      SegmentSorted(segs, i);
    }
  }

  /** Everything the arrays hold fits when the data and the number of blocks do. */
  lemma BuiltBounds(segs: seq<Segment>, typeOffsets: seq<nat>, ends: seq<nat>)
    requires AllGood(segs) && typeOffsets == AllButLast(LastBlocks(segs)) && ends == Ends(AllBlocks(segs))
    requires |AllBytes(AllBlocks(segs))| < WORD && |ends| <= L.MAX_LOGARRAY_LEN
    ensures |segs| <= L.MAX_LOGARRAY_LEN && Count(segs) < WORD
    ensures forall i :: 0 <= i < |typeOffsets| ==> typeOffsets[i] < WORD
    ensures forall i :: 0 <= i < |ends| ==> ends[i] < WORD
  {
    CountAndGaps(segs);
    LastBlocksBound(segs);
    EndsBound(AllBlocks(segs));
    forall i | 0 <= i < |typeOffsets|
      ensures typeOffsets[i] < WORD
    {
      assert typeOffsets[i] == LastBlocks(segs)[i];
    }
  }

  method BuildArray(vals: seq<u64>) returns (r: Bytes)
    requires |vals| <= L.MAX_LOGARRAY_LEN
    ensures L.Parse(r).Ok? && L.Parse(r).value.Holds(vals) && L.IsWidthOf(L.Parse(r).value.width, vals)
  {
    var builder := PushVals(vals);
    r := builder.Finalize();
  }

  /** The last offset is implied by the size of the data, so it is popped off again; the width still covers it. */
  method BuildOffsets(vals: seq<u64>) returns (r: Bytes)
    requires |vals| <= L.MAX_LOGARRAY_LEN
    ensures L.Parse(r).Ok? && L.Parse(r).value.Holds(AllButLast(vals)) && L.IsWidthOf(L.Parse(r).value.width, vals)
  {
    var builder := PushVals(vals);
    var _ := builder.Pop();
    r := builder.Finalize();
  }

  method PushVals(vals: seq<u64>) returns (builder: L.LateLogArrayBufBuilder)
    ensures fresh(builder) && builder.Valid() && builder.vals == builder.Pushed == vals
  {
    builder := new L.LateLogArrayBufBuilder();
    for i := 0 to |vals|
      invariant builder.Valid() && builder.vals == builder.Pushed == vals[..i]
    {
      builder.Push(vals[i]);
      assert vals[..i + 1] == vals[..i] + [vals[i]];
    }
    assert vals[..|vals|] == vals;
  }
}
