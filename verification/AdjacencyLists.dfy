/** Adjacency lists: pairs stored as a packed array of right sides and a bit index of group ends. */
module AdjacencyLists {
  import opened Bits
  import opened Words
  import opened Results
  import opened RankSelect
  import L = LogArrays

  type Pair = (nat, u64)

  // What is stored

  /** Strictly increasing pairs with positive sides: the input the builder accepts. */
  ghost predicate Ordered(ps: seq<Pair>) {
    ps == [] ||
    var init, p := ps[..|ps| - 1], ps[|ps| - 1];
    && Ordered(init) && p.0 >= 1 && p.1 >= 1
    && (p.0 > LastLeft(init) || (p.0 == LastLeft(init) && p.1 > LastRight(init)))
  }

  function LastLeft(ps: seq<Pair>): nat {
    if ps == [] then 0 else ps[|ps| - 1].0
  }

  function LastRight(ps: seq<Pair>): u64 {
    if ps == [] then 0 else ps[|ps| - 1].1
  }

  function Repeat<T>(x: T, n: nat): (s: seq<T>)
    ensures |s| == n
  {
    if n == 0 then [] else Repeat(x, n - 1) + [x]
  }

  /** One entry with right side 0 for each left side in `[from, to)`. */
  function Holes(from: nat, to: nat): seq<Pair> {
    if from >= to then [] else Holes(from, to - 1) + [(to - 1, 0)]
  }

  /** The pairs with the missing left sides filled in. */
  function Padded(ps: seq<Pair>): seq<Pair> {
    if ps == [] then []
    else
      var init, p := ps[..|ps| - 1], ps[|ps| - 1];
      Padded(init) + Holes(LastLeft(init) + 1, p.0) + [p]
  }

  function Rights(p: seq<Pair>): (s: seq<u64>)
    ensures |s| == |p|
  {
    if p == [] then [] else Rights(p[..|p| - 1]) + [p[|p| - 1].1]
  }

  /** For all entries but the last: whether the next one has another left side. */
  function LagBits(p: seq<Pair>): (s: seq<bool>)
    ensures |s| == if p == [] then 0 else |p| - 1
  {
    if |p| <= 1 then [] else LagBits(p[..|p| - 1]) + [p[|p| - 2].0 != p[|p| - 1].0]
  }

  /** One bit per entry, set on the last of each left side. */
  function EndBits(p: seq<Pair>): (s: seq<bool>)
    ensures |s| == |p|
  {
    if p == [] then [] else LagBits(p) + [true]
  }

  lemma {:induction false} LagBitAt(p: seq<Pair>, i: nat)
    requires i + 1 < |p|
    ensures LagBits(p)[i] <==> p[i].0 != p[i + 1].0
    decreases |p|
  {
    if i + 2 < |p| {
      LagBitAt(p[..|p| - 1], i);
    }
  }

  /** A bit is set exactly for the last entry of its left side. */
  lemma EndBitAt(p: seq<Pair>, i: nat)
    requires i < |p|
    ensures EndBits(p)[i] <==> i + 1 == |p| || p[i].0 != p[i + 1].0
  {
    if i + 1 < |p| {
      LagBitAt(p, i);
    }
  }

  /** Left sides run from 1 without gaps. */
  ghost predicate Gapless(p: seq<Pair>) {
    |p| == 0 ||
    (if |p| == 1 then p[0].0 == 1
     else Gapless(p[..|p| - 1]) && p[|p| - 2].0 <= p[|p| - 1].0 <= p[|p| - 2].0 + 1)
  }

  lemma {:induction false} HolesGapless(p: seq<Pair>, from: nat, to: nat)
    requires Gapless(p) && from == LastLeft(p) + 1
    ensures Gapless(p + Holes(from, to))
    ensures from <= to ==> LastLeft(p + Holes(from, to)) == to - 1
    ensures from > to ==> Holes(from, to) == []
  {
    if from >= to {
      assert p + Holes(from, to) == p;
    } else {
      HolesGapless(p, from, to - 1);
      HolesStep(p, from, to);
      AppendGapless(p + Holes(from, to - 1), (to - 1, 0));
    }
  }

  lemma AppendGapless(p: seq<Pair>, e: Pair)
    requires Gapless(p) && e.0 >= 1 && LastLeft(p) <= e.0 <= LastLeft(p) + 1
    ensures Gapless(p + [e])
  {
    assert (p + [e])[..|p|] == p;
  }

  lemma HolesStep(p: seq<Pair>, from: nat, to: nat)
    requires from < to
    ensures p + Holes(from, to) == p + Holes(from, to - 1) + [(to - 1, 0)]
  {}

  lemma PaddedSplit(ps: seq<Pair>, init: seq<Pair>, p: Pair, q: seq<Pair>)
    requires ps != [] && init == ps[..|ps| - 1] && p == ps[|ps| - 1]
    requires q == Padded(init) + Holes(LastLeft(init) + 1, p.0)
    ensures Padded(ps) == q + [p]
  {}

  lemma {:induction false} PaddedGapless(ps: seq<Pair>)
    requires Ordered(ps)
    ensures Gapless(Padded(ps)) && LastLeft(Padded(ps)) == LastLeft(ps)
    ensures ps == [] <==> Padded(ps) == []
  {
    if ps != [] {
      var init, p := ps[..|ps| - 1], ps[|ps| - 1];
      var q := Padded(init) + Holes(LastLeft(init) + 1, p.0);
      PaddedGapless(init);
      HolesGapless(Padded(init), LastLeft(init) + 1, p.0);
      PaddedSplit(ps, init, p, q);
      AppendGapless(q, p);
    }
  }

  /** An entry's left side is one more than the group ends before it. */
  lemma {:induction false} LeftIsRank(p: seq<Pair>, i: nat)
    requires Gapless(p) && i < |p|
    ensures p[i].0 == 1 + Rank(EndBits(p), true, i)
  {
    var n := |p| - 1;
    if i < n {
      LeftIsRank(p[..n], i);
      RankAgrees(EndBits(p), EndBits(p[..n]), true, i);
    } else if n > 0 {
      LeftIsRank(p[..n], n - 1);
      RankAgrees(EndBits(p), EndBits(p[..n]), true, n - 1);
    }
  }

  ghost predicate RightsFit(ps: seq<Pair>, width: nat) {
    ps == [] || (RightsFit(ps[..|ps| - 1], width) && ps[|ps| - 1].1 < Pow2(width))
  }

  // Building

  /** The two streams after the pairs `ps`: the bit stream lags one entry behind. */
  ghost predicate Streams(ps: seq<Pair>, bits: seq<bool>, nums: seq<u64>) {
    nums == Rights(Padded(ps)) && bits == LagBits(Padded(ps))
  }

  class AdjacencyListBuilder {
    const width: nat
    var bits: seq<bool>
    var nums: seq<u64>
    var lastLeft: nat
    var lastRight: u64
    /** Everything pushed so far. */
    ghost var Contents: seq<Pair>

    ghost predicate Valid()
      reads this
    {
      && Ordered(Contents)
      && lastLeft == LastLeft(Contents) && lastRight == LastRight(Contents)
      && Streams(Contents, bits, nums)
      && RightsFit(Contents, width)
    }

    constructor (width: nat)
      ensures Valid() && Contents == [] && this.width == width
    {
      this.width := width;
      bits, nums, lastLeft, lastRight := [], [], 0, 0;
      Contents := [];
    }

    /** Closes the skipped groups: set bits, and a 0 for each hole. */
    method PushHoles(bitskip: nat, holes: nat)
      modifies this`bits, this`nums
      ensures bits == old(bits) + Repeat(true, bitskip) && nums == old(nums) + Repeat<u64>(0, holes)
    {
      for i := 0 to bitskip
        invariant bits == old(bits) + Repeat(true, i) && nums == old(nums)
      {
        bits := bits + [true];
      }
      for i := 0 to holes
        invariant bits == old(bits) + Repeat(true, bitskip) && nums == old(nums) + Repeat<u64>(0, i)
      {
        nums := nums + [0];
      }
    }

    /** What a push for another left side writes before the right side. */
    method PushSkipped(left: nat, ghost right: u64, ghost ps: seq<Pair>)
      requires Ordered(ps) && lastLeft == LastLeft(ps) && left > lastLeft && Streams(ps, bits, nums)
      modifies this`bits, this`nums
      ensures Streams(ps + [(left, right)], bits, nums + [right])
    {
      var skip := left - lastLeft;
      EmptyLeft(ps);
      if lastLeft == 0 {
        // no entry before it, so one bit fewer
        FirstLeftStreams(ps, left, right, bits, nums);
        PushHoles(skip - 1, skip - 1);
      } else {
        NextLeftStreams(ps, left, right, skip, bits, nums);
        PushHoles(skip, skip - 1);
      }
    }

    /** What a push writes to the two streams. */
    method PushStreams(left: nat, right: u64, ghost ps: seq<Pair>)
      requires Ordered(ps) && lastLeft == LastLeft(ps) && Streams(ps, bits, nums)
      requires left >= 1 && left >= lastLeft
      modifies this`bits, this`nums
      ensures Streams(ps + [(left, right)], bits, nums)
    {
      if left == lastLeft {
        SameLeftStreams(ps, left, right, bits, nums);
        bits := bits + [false];
      } else {
        PushSkipped(left, right, ps);
      }
      nums := nums + [right];
    }

    /** Adds a pair; left sides that were skipped become holes. */
    method Push(left: nat, right: u64)
      requires Valid() && left >= 1 && 1 <= right < Pow2(width)
      requires left > LastLeft(Contents) || (left == LastLeft(Contents) && right > LastRight(Contents))
      modifies this
      ensures Valid() && Contents == old(Contents) + [(left, right)]
      ensures |nums| == |bits| + 1
    {
      OrderedPush(Contents, left, right);
      FitPush(Contents, left, right, width);
      PushStreams(left, right, Contents);
      StreamLengths(Contents, left, right, bits, nums);
      lastLeft, lastRight := left, right;
      Contents := Contents + [(left, right)];
    }

    method PushAll(pairs: seq<Pair>)
      requires Valid() && Ordered(Contents + pairs) && RightsFit(Contents + pairs, width)
      modifies this
      ensures Valid() && Contents == old(Contents) + pairs
    {
      ghost var start := Contents;
      for i := 0 to |pairs|
        invariant Valid() && Contents == start + pairs[..i]
      {
        PairComesNext(start, pairs, width, i);
        Push(pairs[i].0, pairs[i].1);
      }
      assert pairs[..|pairs|] == pairs;
    }

    /** Writes the missing last bit, then stores and indexes the two streams. */
    method Finalize() returns (r: AdjacencyList)
      requires Valid() && (nums != [] ==> 1 <= width) && width <= 64
      requires |nums| <= L.MAX_LOGARRAY_LEN
      modifies this
      ensures r.Holds(Padded(old(Contents))) && r.nums.width == width
    {
      ghost var ps := Contents;
      var last := if nums != [] then [true] else [];
      bits := bits + last;
      assert bits == EndBits(Padded(ps));
      var bitIndex := IndexBits(bits);
      PaddedFits(ps, width);
      var builder := new L.LogArrayBufBuilder(width);
      builder.PushVec(nums);
      assert builder.Contents == nums;
      var numBuf := builder.Finalize();
      PaddedGapless(ps);
      r := AdjacencyList(L.Parse(numBuf).value, bitIndex);
    }
  }

  /** Every pair of an ordered list may be pushed after the ones before it. */
  lemma {:induction false} PairInOrder(ps: seq<Pair>, width: nat, i: nat)
    requires Ordered(ps) && RightsFit(ps, width) && i < |ps|
    ensures ps[i].0 >= 1 && 1 <= ps[i].1 < Pow2(width)
    ensures ps[i].0 > LastLeft(ps[..i]) || (ps[i].0 == LastLeft(ps[..i]) && ps[i].1 > LastRight(ps[..i]))
    decreases |ps|
  {
    var n := |ps| - 1;
    if i < n {
      PairInOrder(ps[..n], width, i);
      assert ps[..n][..i] == ps[..i];
    }
  }

  /** The next pair of `pairs` may follow what is there and the pairs before it. */
  lemma PairComesNext(start: seq<Pair>, pairs: seq<Pair>, width: nat, i: nat)
    requires Ordered(start + pairs) && RightsFit(start + pairs, width) && i < |pairs|
    ensures var before := start + pairs[..i];
      && pairs[i].0 >= 1 && 1 <= pairs[i].1 < Pow2(width)
      && (pairs[i].0 > LastLeft(before) || (pairs[i].0 == LastLeft(before) && pairs[i].1 > LastRight(before)))
    ensures start + pairs[..i + 1] == start + pairs[..i] + [(pairs[i].0, pairs[i].1)]
  {
    var all := start + pairs;
    PairInOrder(all, width, |start| + i);
    assert all[..|start| + i] == start + pairs[..i];
    assert all[|start| + i] == pairs[i];
  }

  lemma FitPush(ps: seq<Pair>, left: nat, right: u64, width: nat)
    requires RightsFit(ps, width) && right < Pow2(width)
    ensures RightsFit(ps + [(left, right)], width)
  {
    assert (ps + [(left, right)])[..|ps|] == ps;
  }

  lemma FitsEntry(p: seq<Pair>, e: Pair, width: nat)
    requires L.Fits(Rights(p), width) && e.1 < Pow2(width)
    ensures L.Fits(Rights(p + [e]), width)
  {
    LagAppend(p, e);
  }

  lemma {:induction false} HolesFit(p: seq<Pair>, from: nat, to: nat, width: nat)
    requires L.Fits(Rights(p), width)
    ensures L.Fits(Rights(p + Holes(from, to)), width)
  {
    if from >= to {
      assert p + Holes(from, to) == p;
    } else {
      HolesFit(p, from, to - 1, width);
      HolesStep(p, from, to);
      FitsEntry(p + Holes(from, to - 1), (to - 1, 0), width);
    }
  }

  lemma {:induction false} PaddedFits(ps: seq<Pair>, width: nat)
    requires RightsFit(ps, width)
    ensures L.Fits(Rights(Padded(ps)), width)
  {
    if ps != [] {
      var init, p := ps[..|ps| - 1], ps[|ps| - 1];
      PaddedFits(init, width);
      HolesFit(Padded(init), LastLeft(init) + 1, p.0, width);
      FitsEntry(Padded(init) + Holes(LastLeft(init) + 1, p.0), p, width);
    }
  }

  lemma EmptyLeft(ps: seq<Pair>)
    requires Ordered(ps)
    ensures LastLeft(ps) == 0 <==> ps == []
  {}

  lemma LagAppend(p: seq<Pair>, e: Pair)
    ensures LagBits(p + [e]) == if p == [] then [] else LagBits(p) + [p[|p| - 1].0 != e.0]
    ensures Rights(p + [e]) == Rights(p) + [e.1]
  {
    assert (p + [e])[..|p|] == p;
  }

  lemma RightsNext(q: seq<Pair>, e: Pair, rights: seq<u64>, n: nat)
    requires e.1 == 0 && Rights(q) == rights + Repeat<u64>(0, n)
    ensures Rights(q + [e]) == rights + Repeat<u64>(0, n + 1)
  {
    LagAppend(q, e);
    assert rights + Repeat<u64>(0, n) + [0] == rights + (Repeat<u64>(0, n) + [0]);
  }

  lemma {:induction false} HolesRights(p: seq<Pair>, from: nat, to: nat, skipped: nat)
    requires to == from + skipped
    ensures Rights(p + Holes(from, to)) == Rights(p) + Repeat<u64>(0, skipped)
  {
    if skipped == 0 {
      assert p + Holes(from, to) == p;
    } else {
      HolesRights(p, from, to - 1, skipped - 1);
      HolesStep(p, from, to);
      RightsNext(p + Holes(from, to - 1), (to - 1, 0), Rights(p), skipped - 1);
    }
  }

  lemma {:induction false} HolesLast(p: seq<Pair>, from: nat, to: nat)
    requires from == LastLeft(p) + 1 <= to && (p == [] <==> from == 1)
    ensures LastLeft(p + Holes(from, to)) == to - 1
    ensures p + Holes(from, to) == [] <==> p == [] && from == to
  {
    if from == to {
      assert p + Holes(from, to) == p;
    } else {
      HolesStep(p, from, to);
    }
  }

  lemma {:induction false} HolesLag(p: seq<Pair>, from: nat, to: nat, skipped: nat)
    requires from == LastLeft(p) + 1 && to == from + skipped && p != [] && from > 1
    ensures LagBits(p + Holes(from, to)) == LagBits(p) + Repeat(true, skipped)
  {
    if skipped == 0 {
      assert p + Holes(from, to) == p;
    } else {
      HolesLag(p, from, to - 1, skipped - 1);
      HolesLast(p, from, to - 1);
      HolesStep(p, from, to);
      LagNext(p + Holes(from, to - 1), (to - 1, 0), LagBits(p), skipped - 1);
    }
  }

  lemma {:induction false} FirstHolesLag(p: seq<Pair>, to: nat, skipped: nat)
    requires to == 1 + skipped && p == []
    ensures LagBits(p + Holes(1, to)) == LagBits(p) + Repeat(true, if skipped > 0 then skipped - 1 else 0)
  {
    if skipped == 0 {
      assert p + Holes(1, to) == p;
    } else {
      FirstHolesLag(p, to - 1, skipped - 1);
      HolesLast(p, 1, to - 1);
      HolesStep(p, 1, to);
      if skipped == 1 {
        assert p + Holes(1, to) == [(1, 0)];
      } else {
        LagNext(p + Holes(1, to - 1), (to - 1, 0), LagBits(p), skipped - 2);
      }
    }
  }

  /** What a run of holes adds to the two streams. */
  lemma HolesAppend(p: seq<Pair>, from: nat, to: nat, skipped: nat)
    requires from == LastLeft(p) + 1 && to == from + skipped && (p == [] <==> from == 1)
    ensures Rights(p + Holes(from, to)) == Rights(p) + Repeat<u64>(0, skipped)
    ensures LagBits(p + Holes(from, to)) ==
      LagBits(p) + Repeat(true, if p == [] && skipped > 0 then skipped - 1 else skipped)
    ensures LastLeft(p + Holes(from, to)) == to - 1
    ensures p + Holes(from, to) == [] <==> p == [] && skipped == 0
  {
    HolesRights(p, from, to, skipped);
    HolesLast(p, from, to);
    if p == [] {
      FirstHolesLag(p, to, skipped);
    } else {
      HolesLag(p, from, to, skipped);
    }
  }

  /** Padding grows by the holes up to the new left side and the pair itself. */
  lemma PaddedPush(ps: seq<Pair>, left: nat, right: u64)
    ensures Padded(ps + [(left, right)]) == Padded(ps) + Holes(LastLeft(ps) + 1, left) + [(left, right)]
  {
    var q := ps + [(left, right)];
    assert q[..|q| - 1] == ps && q[|q| - 1] == (left, right);
  }

  /** An entry for another left side adds one set bit to the lagging stream. */
  lemma LagNext(q: seq<Pair>, e: Pair, bits: seq<bool>, n: nat)
    requires q != [] && q[|q| - 1].0 != e.0 && LagBits(q) == bits + Repeat(true, n)
    ensures LagBits(q + [e]) == bits + Repeat(true, n + 1)
  {
    LagAppend(q, e);
    assert bits + Repeat(true, n) + [true] == bits + (Repeat(true, n) + [true]);
  }

  lemma SameLeftStreams(ps: seq<Pair>, left: nat, right: u64, bits: seq<bool>, nums: seq<u64>)
    requires Streams(ps, bits, nums) && Ordered(ps) && left >= 1 && left == LastLeft(ps)
    ensures Streams(ps + [(left, right)], bits + [false], nums + [right])
  {
    PaddedGapless(ps);
    PaddedPush(ps, left, right);
    assert Padded(ps) + Holes(left + 1, left) == Padded(ps);
    LagAppend(Padded(ps), (left, right));
  }

  lemma StreamLengths(ps: seq<Pair>, left: nat, right: u64, bits: seq<bool>, nums: seq<u64>)
    requires Streams(ps + [(left, right)], bits, nums)
    ensures |nums| == |bits| + 1
  {
    PaddedPush(ps, left, right);
  }

  lemma FirstLeftStreams(ps: seq<Pair>, left: nat, right: u64, bits: seq<bool>, nums: seq<u64>)
    requires Streams(ps, bits, nums) && ps == [] && left >= 1
    ensures Streams(ps + [(left, right)], bits + Repeat(true, left - 1), nums + Repeat<u64>(0, left - 1) + [right])
    ensures left == 1 ==> Streams(ps + [(left, right)], bits, nums + [right])
  {
    var p := Padded(ps);
    PaddedPush(ps, left, right);
    HolesAppend(p, 1, left, left - 1);
    var q := p + Holes(1, left);
    LagAppend(q, (left, right));
    if left == 1 {
      assert bits + Repeat(true, 0) == bits && nums + Repeat<u64>(0, 0) == nums;
    } else {
      LagNext(q, (left, right), bits, left - 2);
    }
  }

  /** The streams after more holes and one more pair, from the streams of the padding before them. */
  lemma GrownStreams(q: seq<Pair>, more: seq<Pair>, left: nat, right: u64, bits: seq<bool>, n: nat, next: nat,
                     nums: seq<u64>)
    requires Padded(more) == q + [(left, right)] && q != [] && q[|q| - 1].0 != left && next == n + 1
    requires LagBits(q) == bits + Repeat(true, n) && Rights(q) == nums
    ensures Streams(more, bits + Repeat(true, next), nums + [right])
  {
    LagAppend(q, (left, right));
    LagNext(q, (left, right), bits, n);
  }

  lemma PaddedLast(ps: seq<Pair>)
    requires Ordered(ps)
    ensures LastLeft(Padded(ps)) == LastLeft(ps)
    ensures ps == [] <==> Padded(ps) == []
    ensures ps == [] <==> LastLeft(ps) == 0
  {
    PaddedGapless(ps);
  }

  lemma NextLeftStreams(ps: seq<Pair>, left: nat, right: u64, skip: nat, bits: seq<bool>, nums: seq<u64>)
    requires Streams(ps, bits, nums) && Ordered(ps) && ps != [] && skip >= 1 && left == LastLeft(ps) + skip
    ensures Streams(ps + [(left, right)], bits + Repeat(true, skip), nums + Repeat<u64>(0, skip - 1) + [right])
  {
    GapStreams(ps, left, right, skip, skip - 1, LastLeft(ps) + 1, bits, nums, nums + Repeat<u64>(0, skip - 1));
  }

  lemma GapStreams(ps: seq<Pair>, left: nat, right: u64, skip: nat, holes: nat, from: nat, bits: seq<bool>,
                   nums: seq<u64>,
                   padded: seq<u64>)
    requires bits == LagBits(Padded(ps)) && nums == Rights(Padded(ps)) && padded == nums + Repeat<u64>(0, holes)
    requires Ordered(ps) && ps != [] && from == LastLeft(ps) + 1 && left == from + holes && skip == holes + 1
    ensures Streams(ps + [(left, right)], bits + Repeat(true, skip), padded + [right])
  {
    var p := Padded(ps);
    var q := p + Holes(from, left);
    PaddedFrom(ps, left, right, from, q);
    HolesPadding(ps, p, from, left, holes);
    GrownStreams(q, ps + [(left, right)], left, right, bits, holes, skip, padded);
  }

  lemma PaddedFrom(ps: seq<Pair>, left: nat, right: u64, from: nat, q: seq<Pair>)
    requires from == LastLeft(ps) + 1 && q == Padded(ps) + Holes(from, left)
    ensures Padded(ps + [(left, right)]) == q + [(left, right)]
  {
    PaddedPush(ps, left, right);
  }

  /** The streams of the padding with the holes before the next left side. */
  lemma HolesPadding(ps: seq<Pair>, p: seq<Pair>, from: nat, left: nat, holes: nat)
    requires Ordered(ps) && ps != [] && p == Padded(ps) && from == LastLeft(ps) + 1 && left == from + holes
    ensures var q := p + Holes(from, left);
      && q != [] && q[|q| - 1].0 == left - 1
      && LagBits(q) == LagBits(p) + Repeat(true, holes) && Rights(q) == Rights(p) + Repeat<u64>(0, holes)
  {
    PaddedLast(ps);
    HolesAppend(p, from, left, holes);
  }

  lemma OrderedPush(ps: seq<Pair>, left: nat, right: u64)
    requires Ordered(ps) && left >= 1 && right >= 1
    requires left > LastLeft(ps) || (left == LastLeft(ps) && right > LastRight(ps))
    ensures Ordered(ps + [(left, right)])
    ensures LastLeft(ps + [(left, right)]) == left && LastRight(ps + [(left, right)]) == right
    ensures LastLeft(ps) == 0 <==> ps == []
  {
    assert (ps + [(left, right)])[..|ps|] == ps;
  }

  // Reading

  /** The right sides stored for `left`: none, if it was skipped. */
  function RightsOf(ps: seq<Pair>, left: nat): seq<u64> {
    if ps == [] then []
    else RightsOf(ps[..|ps| - 1], left) + (if ps[|ps| - 1].0 == left then [ps[|ps| - 1].1] else [])
  }

  /** The entries from `pos` on that are not holes. */
  function Entries(p: seq<Pair>, pos: nat): seq<Pair>
    decreases |p| - pos
  {
    if pos >= |p| then []
    else if p[pos].1 == 0 then Entries(p, pos + 1)
    else [p[pos]] + Entries(p, pos + 1)
  }

  datatype AdjacencyList = AdjacencyList(nums: L.LogArray, bits: BitIndex) {
    /** The list reads back as the gapless list of entries `p`. */
    ghost predicate Holds(p: seq<Pair>) {
      && Gapless(p)
      && bits.Holds(EndBits(p))
      && nums.Holds(Rights(p))
    }

    method LeftCount(ghost p: seq<Pair>) returns (r: nat)
      requires Holds(p)
      ensures r == LastLeft(p)
    {
      bits.Sizes(EndBits(p));
      if bits.Len() == 0 {
        return 0;
      }
      r := bits.Rank1(bits.Len() - 1, EndBits(p));
      LastIsCount(p);
    }

    /**
     * Where the group of `left` starts: right after the group before it. Nothing where it panics: for 0, and past the
     * end.
     */
    method OffsetFor(left: nat, ghost p: seq<Pair>) returns (r: Option<nat>)
      requires Holds(p)
      ensures r.Some? <==> 1 <= left <= LastLeft(p) + 1
      ensures r.Some? ==> StartsAt(p, left, r.value) && (r.value == |p| <==> left == LastLeft(p) + 1)
    {
      if left == 0 {
        return None;
      }
      if left == 1 {
        LastIsCount(p);
        return Some(0);
      }
      LastIsCount(p);
      var s := bits.Select1(left - 1, EndBits(p));
      if !s.Found? {
        return None;
      }
      LastRanks(p);
      RankBounds(EndBits(p), left - 1, s.pos + 1, LastLeft(p));
      r := Some(s.pos + 1);
    }

    /** `get`: the slice of right sides of one left side; none if the list has no such left side. */
    method Get(left: nat, ghost p: seq<Pair>) returns (r: Option<L.LogArray>)
      requires Holds(p)
      ensures r.Some? <==> 1 <= left <= LastLeft(p)
      ensures r.Some? ==> r.value.Holds(RightsOf(p, left))
    {
      var count := LeftCount(p);
      if left < 1 || left > count {
        return None;
      }
      LastIsCount(p);
      var start := OffsetFor(left, p);
      var end := bits.Select1(left, EndBits(p));
      GroupBounds(p, left, start.value, end.pos);
      var length := end.pos - start.value + 1;
      nums.SliceHolds(Rights(p), start.value, length);
      r := Some(nums.Slice(start.value, length));
    }

    method LeftAtPos(pos: nat, ghost p: seq<Pair>) returns (r: nat)
      requires Holds(p) && pos < |p|
      ensures r == p[pos].0
    {
      LeftIsRank(p, pos);
      if pos == 0 {
        return 1;
      }
      var ones := bits.Rank1(pos - 1, EndBits(p));
      r := ones + 1;
    }

    method PairAtPos(pos: nat, ghost p: seq<Pair>) returns (r: Pair)
      requires Holds(p) && pos < |p|
      ensures r == p[pos]
    {
      var left := LeftAtPos(pos, p);
      RightsAt(p, pos);
      r := (left, nums.Entry(pos));
    }
  }

  /** Walks over the entries, skipping the holes. */
  class AdjacencyListIterator {
    var pos: nat
    var left: nat
    const list: AdjacencyList
    ghost const p: seq<Pair>

    ghost predicate Valid()
      reads this
    {
      && list.Holds(p) && pos <= |p|
      && left == 1 + Rank(EndBits(p), true, pos)
    }

    constructor (list: AdjacencyList, ghost p: seq<Pair>)
      requires list.Holds(p)
      ensures Valid() && this.p == p && pos == 0
    {
      this.pos, this.left, this.list, this.p := 0, 1, list, p;
    }

    method Next() returns (r: Option<Pair>)
      requires Valid()
      modifies this
      ensures Valid()
      ensures old(Entries(p, pos)) == (if r.Some? then [r.value] else []) + Entries(p, pos)
      ensures r.None? ==> Entries(p, pos) == []
    {
      list.bits.Sizes(EndBits(p));
      while pos < list.bits.Len()
        invariant Valid() && Entries(p, pos) == old(Entries(p, pos))
        decreases |p| - pos
      {
        EntryAt(p, pos, left);
        var bit := list.bits.Get(pos, EndBits(p));
        var num := list.nums.Entry(pos);
        var result := (left, num);
        if bit {
          left := left + 1;
        }
        pos := pos + 1;
        if num != 0 {
          return Some(result);
        }
      }
      r := None;
    }
  }

  lemma {:induction false} RightsAt(p: seq<Pair>, i: nat)
    requires i < |p|
    ensures Rights(p)[i] == p[i].1
  {
    if i < |p| - 1 {
      RightsAt(p[..|p| - 1], i);
    }
  }

  /** What the iterator knows when it looks at an entry. */
  lemma EntryAt(p: seq<Pair>, pos: nat, left: nat)
    requires Gapless(p) && pos < |p| && left == 1 + Rank(EndBits(p), true, pos)
    ensures p[pos] == (left, Rights(p)[pos])
    ensures 1 + Rank(EndBits(p), true, pos + 1) == if EndBits(p)[pos] then left + 1 else left
    ensures Entries(p, pos) == (if p[pos].1 == 0 then [] else [p[pos]]) + Entries(p, pos + 1)
  {
    LeftIsRank(p, pos);
    RightsAt(p, pos);
  }

  lemma LastIsCount(p: seq<Pair>)
    requires Gapless(p)
    ensures Rank(EndBits(p), true, |p|) == LastLeft(p)
  {
    if p != [] {
      LeftIsRank(p, |p| - 1);
    }
  }

  /** Left `left` is stored on exactly the positions `[a, b)`. */
  ghost predicate IsGroup(p: seq<Pair>, left: nat, a: nat, b: nat) {
    a <= b <= |p| && forall i :: 0 <= i < |p| ==> (p[i].0 == left <==> a <= i < b)
  }

  lemma {:induction false} GroupIsSlice(p: seq<Pair>, left: nat, a: nat, b: nat)
    requires IsGroup(p, left, a, b)
    ensures RightsOf(p, left) == Rights(p)[a..b]
    decreases |p|
  {
    if p != [] {
      var n := |p| - 1;
      if a == |p| {
        GroupIsSlice(p[..n], left, n, n);
      } else {
        GroupIsSlice(p[..n], left, a, if b == |p| then n else b);
      }
    }
  }

  /** The group before `left` ends right before `start`. */
  ghost predicate StartsAt(p: seq<Pair>, left: nat, start: nat) {
    && 1 <= left && (start == 0 <==> left == 1)
    && (start > 0 ==> IsKth(EndBits(p), true, 0, left - 1, start - 1))
  }

  lemma LastRanks(p: seq<Pair>)
    requires Gapless(p) && p != []
    ensures Rank(EndBits(p), true, |p| - 1) + 1 == Rank(EndBits(p), true, |p|) == LastLeft(p)
  {
    LeftIsRank(p, |p| - 1);
    LastIsCount(p);
  }

  lemma RankBounds(bits: seq<bool>, k: nat, start: nat, count: nat)
    requires start >= 1 && IsKth(bits, true, 0, k, start - 1)
    requires Rank(bits, true, |bits| - 1) + 1 == Rank(bits, true, |bits|) == count
    ensures start == |bits| <==> k == count
  {
    if start < |bits| {
      RankMonotone(bits, true, start, |bits| - 1);
    }
  }

  lemma GroupBounds(p: seq<Pair>, left: nat, start: nat, end: nat)
    requires Gapless(p) && 1 <= left
    requires StartsAt(p, left, start)
    requires IsKth(EndBits(p), true, 0, left, end)
    ensures start <= end < |p|
    ensures RightsOf(p, left) == Rights(p)[start..end + 1]
  {
    var bits := EndBits(p);
    if end < start {
      RankMonotone(bits, true, end, start - 1);
    }
    forall i | 0 <= i < |p|
      ensures p[i].0 == left <==> start <= i <= end
    {
      LeftIsRank(p, i);
      if i < start {
        RankMonotone(bits, true, i, start - 1);
      } else if i <= end {
        RankMonotone(bits, true, start, i);
        RankMonotone(bits, true, i, end);
      } else {
        RankMonotone(bits, true, end + 1, i);
      }
    }
    GroupIsSlice(p, left, start, end + 1);
  }

  // What the readers say about the pairs that were pushed

  lemma {:induction false} RightsOfAppend(p: seq<Pair>, e: Pair, left: nat)
    ensures RightsOf(p + [e], left) == RightsOf(p, left) + (if e.0 == left then [e.1] else [])
  {
    assert (p + [e])[..|p|] == p;
  }

  lemma {:induction false} RightsOfHoles(p: seq<Pair>, from: nat, to: nat, left: nat)
    ensures RightsOf(p + Holes(from, to), left) == RightsOf(p, left) + (if from <= left < to then [0] else [])
  {
    if from >= to {
      assert p + Holes(from, to) == p;
    } else {
      RightsOfHoles(p, from, to - 1, left);
      HolesStep(p, from, to);
      RightsOfAppend(p + Holes(from, to - 1), (to - 1, 0), left);
    }
  }

  /** What the last pair adds to the group of `left`. */
  lemma RightsOfLast(ps: seq<Pair>, left: nat, init: seq<Pair>, p: Pair)
    requires ps != [] && init == ps[..|ps| - 1] && p == ps[|ps| - 1]
    ensures RightsOf(Padded(ps), left) == RightsOf(Padded(init), left)
      + (if LastLeft(init) < left < p.0 then [0] else []) + (if p.0 == left then [p.1] else [])
    ensures RightsOf(ps, left) == RightsOf(init, left) + (if p.0 == left then [p.1] else [])
  {
    var q := Padded(init) + Holes(LastLeft(init) + 1, p.0);
    RightsOfHoles(Padded(init), LastLeft(init) + 1, p.0, left);
    RightsOfAppend(q, p, left);
    PaddedSplit(ps, init, p, q);
  }

  /** Padding gives every skipped left side the single right side 0, and changes no other. */
  lemma {:induction false} GetIsExact(ps: seq<Pair>, left: nat)
    requires Ordered(ps) && 1 <= left <= LastLeft(ps)
    ensures RightsOf(Padded(ps), left) == if RightsOf(ps, left) == [] then [0] else RightsOf(ps, left)
  {
    var init, p := ps[..|ps| - 1], ps[|ps| - 1];
    RightsOfLast(ps, left, init, p);
    if left > LastLeft(init) {
      NoneAbove(init, left);
    } else {
      GetIsExact(init, left);
      if left == p.0 {
        SomeAtLast(init);
      }
    }
  }

  lemma SomeAtLast(ps: seq<Pair>)
    requires ps != []
    ensures RightsOf(ps, LastLeft(ps)) != []
  {}

  /** Left sides past the last have no entries. */
  lemma {:induction false} NoneAbove(ps: seq<Pair>, left: nat)
    requires Ordered(ps) && left > LastLeft(ps)
    ensures RightsOf(ps, left) == [] && RightsOf(Padded(ps), left) == []
  {
    if ps != [] {
      NoneAbove(ps[..|ps| - 1], left);
      RightsOfLast(ps, left, ps[..|ps| - 1], ps[|ps| - 1]);
    }
  }

  lemma {:induction false} EntriesAppend(p: seq<Pair>, e: Pair, i: nat)
    requires i <= |p|
    ensures Entries(p + [e], i) == Entries(p, i) + (if e.1 == 0 then [] else [e])
    decreases |p| - i
  {
    if i < |p| {
      EntriesAppend(p, e, i + 1);
    }
  }

  lemma {:induction false} EntriesOfHoles(p: seq<Pair>, from: nat, to: nat)
    ensures Entries(p + Holes(from, to), 0) == Entries(p, 0)
  {
    if from >= to {
      assert p + Holes(from, to) == p;
    } else {
      EntriesOfHoles(p, from, to - 1);
      HolesStep(p, from, to);
      EntriesAppend(p + Holes(from, to - 1), (to - 1, 0), 0);
    }
  }

  /** The iterator yields exactly the pairs that were pushed. */
  lemma {:induction false} IterationIsExact(ps: seq<Pair>)
    requires Ordered(ps)
    ensures Entries(Padded(ps), 0) == ps
  {
    if ps != [] {
      var init, p := ps[..|ps| - 1], ps[|ps| - 1];
      IterationIsExact(init);
      EntriesOfHoles(Padded(init), LastLeft(init) + 1, p.0);
      EntriesAppend(Padded(init) + Holes(LastLeft(init) + 1, p.0), p, 0);
    }
  }
}
