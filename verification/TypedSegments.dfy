/** Typed dictionaries as lists of segments: one run of blocks for each datatype. */
module TypedSegments {
  import opened Words
  import opened Results
  import opened ByteStrings
  import opened DictBlocks
  import opened SizedDicts

  // The datatypes of a fixed width, by their numbers.
  const UINT32: u64 := 1
  const INT32: u64 := 2
  const FLOAT32: u64 := 3
  const UINT64: u64 := 4
  const INT64: u64 := 5
  const FLOAT64: u64 := 6

  /** `Datatype::record_size` */
  function RecordSize(kind: u64): (r: Option<nat>)
    ensures KnownSize(r)
    ensures r == Some(4) <==> kind == UINT32 || kind == INT32 || kind == FLOAT32
    ensures r == Some(8) <==> kind == UINT64 || kind == INT64 || kind == FLOAT64
  {
    if 1 <= kind <= 3 then Some(4) else if 4 <= kind <= 6 then Some(8) else None
  }

  type TypedString = (u64, Bytes)

  datatype Segment = Segment(kind: u64, blocks: seq<Block>) {
    function Strings(): seq<Bytes> {
      Flatten(blocks)
    }

    ghost predicate Good() {
      blocks != [] && IsSegment(blocks, RecordSize(kind), Strings())
    }
  }

  ghost predicate AllGood(segs: seq<Segment>) {
    forall i :: 0 <= i < |segs| ==> segs[i].Good()
  }

  function AllBlocks(segs: seq<Segment>): seq<Block> {
    if segs == [] then [] else AllBlocks(segs[..|segs| - 1]) + segs[|segs| - 1].blocks
  }

  /** Number of strings. */
  function Count(segs: seq<Segment>): nat {
    if segs == [] then 0 else Count(segs[..|segs| - 1]) + |segs[|segs| - 1].Strings()|
  }

  function Kinds(segs: seq<Segment>): (s: seq<u64>)
    ensures |s| == |segs|
  {
    if segs == [] then [] else Kinds(segs[..|segs| - 1]) + [segs[|segs| - 1].kind]
  }

  function Tagged(kind: u64, strings: seq<Bytes>): (s: seq<TypedString>)
    ensures |s| == |strings|
    ensures forall i :: 0 <= i < |s| ==> s[i] == (kind, strings[i])
  {
    seq(|strings|, i requires 0 <= i < |strings| => (kind, strings[i]))
  }

  /** All strings with their datatypes, in order. */
  function Entries(segs: seq<Segment>): (s: seq<TypedString>)
    ensures |s| == Count(segs)
  {
    if segs == [] then []
    else Entries(segs[..|segs| - 1]) + Tagged(segs[|segs| - 1].kind, segs[|segs| - 1].Strings())
  }

  function Pred(n: nat): nat {
    if n == 0 then 0 else n - 1
  }

  /** For each segment, the number of its last block. */
  function LastBlocks(segs: seq<Segment>): (s: seq<nat>)
    ensures |s| == |segs|
  {
    if segs == [] then [] else LastBlocks(segs[..|segs| - 1]) + [Pred(|AllBlocks(segs)|)]
  }

  /** For each segment, the number of strings up to its end. */
  function Counts(segs: seq<Segment>): (s: seq<nat>)
    ensures |s| == |segs|
  {
    if segs == [] then [] else Counts(segs[..|segs| - 1]) + [Count(segs)]
  }

  lemma PushSegment(segs: seq<Segment>, s: Segment)
    ensures AllBlocks(segs + [s]) == AllBlocks(segs) + s.blocks
    ensures Count(segs + [s]) == Count(segs) + |s.Strings()|
    ensures Kinds(segs + [s]) == Kinds(segs) + [s.kind]
    ensures Entries(segs + [s]) == Entries(segs) + Tagged(s.kind, s.Strings())
  {
    assert (segs + [s])[..|segs|] == segs;
  }

  lemma PushLast(segs: seq<Segment>, s: Segment)
    ensures LastBlocks(segs + [s]) == LastBlocks(segs) + [Pred(|AllBlocks(segs + [s])|)]
  {
    assert (segs + [s])[..|segs|] == segs;
  }

  // Per-segment views

  lemma {:induction false} KindsAt(segs: seq<Segment>, i: nat)
    requires i < |segs|
    ensures Kinds(segs)[i] == segs[i].kind
    decreases |segs|
  {
    if i < |segs| - 1 {
      KindsAt(segs[..|segs| - 1], i);
    }
  }

  lemma {:induction false} LastBlocksAt(segs: seq<Segment>, i: nat)
    requires i < |segs|
    ensures LastBlocks(segs)[i] == Pred(|AllBlocks(segs[..i + 1])|)
    decreases |segs|
  {
    var init := segs[..|segs| - 1];
    if i < |init| {
      LastBlocksAt(init, i);
      assert init[..i + 1] == segs[..i + 1];
    } else {
      assert segs[..i + 1] == segs;
    }
  }

  lemma {:induction false} CountsAt(segs: seq<Segment>, i: nat)
    requires i < |segs|
    ensures Counts(segs)[i] == Count(segs[..i + 1])
    decreases |segs|
  {
    var init := segs[..|segs| - 1];
    if i < |init| {
      CountsAt(init, i);
      assert init[..i + 1] == segs[..i + 1];
    } else {
      assert segs[..i + 1] == segs;
    }
  }

  lemma NextPrefix(segs: seq<Segment>, i: nat)
    requires i < |segs|
    ensures segs[..i + 1] == segs[..i] + [segs[i]]
    ensures AllBlocks(segs[..i + 1]) == AllBlocks(segs[..i]) + segs[i].blocks
    ensures Count(segs[..i + 1]) == Count(segs[..i]) + |segs[i].Strings()|
  {
    assert segs[..i + 1] == segs[..i] + [segs[i]];
    PushSegment(segs[..i], segs[i]);
  }

  /** The blocks of the first segments come first. */
  lemma {:induction false} BlocksOfPrefix(segs: seq<Segment>, i: nat) returns (tail: seq<Block>)
    requires i <= |segs|
    ensures AllBlocks(segs) == AllBlocks(segs[..i]) + tail
    decreases |segs|
  {
    if i == |segs| {
      assert segs[..i] == segs;
      tail := [];
      assert AllBlocks(segs) + [] == AllBlocks(segs);
    } else {
      var init, last := segs[..|segs| - 1], segs[|segs| - 1];
      var less := BlocksOfPrefix(init, i);
      assert init[..i] == segs[..i];
      tail := less + last.blocks;
      JoinBlocks(AllBlocks(segs[..i]), less, last.blocks);
    }
  }

  lemma JoinBlocks(a: seq<Block>, b: seq<Block>, c: seq<Block>)
    ensures a + b + c == a + (b + c)
  {}

  /** One segment's blocks among the others. */
  lemma SegmentInside(segs: seq<Segment>, i: nat) returns (tail: seq<Block>)
    requires i < |segs|
    ensures AllBlocks(segs) == AllBlocks(segs[..i]) + (segs[i].blocks + tail)
  {
    tail := BlocksOfPrefix(segs, i + 1);
    NextPrefix(segs, i);
    JoinBlocks(AllBlocks(segs[..i]), segs[i].blocks, tail);
  }

  lemma {:induction false} CountMonotone(segs: seq<Segment>, i: nat, j: nat)
    requires i <= j <= |segs|
    ensures Count(segs[..i]) <= Count(segs[..j])
    decreases j
  {
    if i < j {
      CountMonotone(segs, i, j - 1);
      NextPrefix(segs, j - 1);
    }
  }

  lemma {:induction false} EntriesAt(segs: seq<Segment>, i: nat, k: nat)
    requires i < |segs| && k < |segs[i].Strings()|
    ensures Count(segs[..i]) + k < Count(segs)
    ensures Entries(segs)[Count(segs[..i]) + k] == (segs[i].kind, segs[i].Strings()[k])
    decreases |segs|
  {
    var init := segs[..|segs| - 1];
    if i < |init| {
      EntriesAt(init, i, k);
      assert init[..i] == segs[..i];
    }
  }

  lemma EntryAt(segs: seq<Segment>, i: nat, k: nat, at: nat)
    requires i < |segs| && k < |segs[i].Strings()| && at == Count(segs[..i]) + k
    ensures at < |Entries(segs)| && Entries(segs)[at] == (segs[i].kind, segs[i].Strings()[k])
  {
    EntriesAt(segs, i, k);
  }
}
