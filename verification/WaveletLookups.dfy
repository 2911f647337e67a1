/** Looking up all positions of a value in a wavelet tree. */
module WaveletLookups {
  import opened Bits
  import opened Words
  import opened Results
  import opened WaveletLayout
  import opened WaveletTrees

  /** The positions of `v`, in increasing order: a plain scan. */
  function Positions(vals: seq<nat>, v: nat): seq<nat> {
    if vals == [] then []
    else Positions(vals[..|vals| - 1], v) + if vals[|vals| - 1] == v then [|vals| - 1] else []
  }

  lemma {:induction false} PositionsCount(vals: seq<nat>, v: nat)
    ensures |Positions(vals, v)| == Count(vals, v, v + 1)
    ensures v in vals <==> Positions(vals, v) != []
  {
    if vals != [] {
      var n := |vals| - 1;
      PositionsCount(vals[..n], v);
      CountAgrees(vals[..n], vals, v, v + 1, n);
      assert vals == vals[..n] + [vals[n]];
    }
  }

  /** The `k`-th position holds `v`, and `k` occurrences come before it. */
  lemma {:induction false} PositionsAt(vals: seq<nat>, v: nat, k: nat)
    requires k < |Positions(vals, v)|
    ensures var p := Positions(vals, v)[k];
      p < |vals| && vals[p] == v && CountIn(vals, v, v + 1, p) == k
  {
    var n := |vals| - 1;
    var init := vals[..n];
    PositionsCount(init, v);
    CountAgrees(init, vals, v, v + 1, n);
    if k < |Positions(init, v)| {
      PositionsAt(init, v, k);
      CountAgrees(init, vals, v, v + 1, Positions(init, v)[k]);
    }
  }

  /** Every occurrence is listed, and the list is strictly increasing. */
  lemma PositionsExact(vals: seq<nat>, v: nat)
    ensures forall i :: 0 <= i < |vals| ==> (vals[i] == v <==> i in Positions(vals, v))
    ensures forall j, k :: 0 <= j < k < |Positions(vals, v)| ==> Positions(vals, v)[j] < Positions(vals, v)[k]
  {
    PositionsComplete(vals, v);
    forall p | p in Positions(vals, v)
      ensures p < |vals| && vals[p] == v
    {
      var k :| 0 <= k < |Positions(vals, v)| && Positions(vals, v)[k] == p;
      PositionsAt(vals, v, k);
    }
    forall j, k | 0 <= j < k < |Positions(vals, v)|
      ensures Positions(vals, v)[j] < Positions(vals, v)[k]
    {
      PositionsAt(vals, v, j);
      PositionsAt(vals, v, k);
      var p, q := Positions(vals, v)[j], Positions(vals, v)[k];
      if q <= p {
        CountMonotone(vals, v, v + 1, q, p);
      }
    }
  }

  lemma {:induction false} PositionsComplete(vals: seq<nat>, v: nat)
    ensures forall i :: 0 <= i < |vals| && vals[i] == v ==> i in Positions(vals, v)
  {
    if vals != [] {
      PositionsComplete(vals[..|vals| - 1], v);
    }
  }

  /** One step of a cached path: which half, and the fragment's place in the flattened bits. */
  datatype Slice = Slice(bit: bool, start: nat, end: nat)

  function SliceAt(vals: seq<nat>, w: nat, v: nat, l: nat): Slice
    requires l < w
  {
    var start := Start(vals, w, v, l);
    Slice(v >= Middle(w, v, l), start, start + Count(vals, Low(w, v, l), High(w, v, l)))
  }

  function SlicesTo(vals: seq<nat>, w: nat, v: nat, l: nat): (s: seq<Slice>)
    requires l <= w
    ensures |s| == l
  {
    if l == 0 then [] else SlicesTo(vals, w, v, l - 1) + [SliceAt(vals, w, v, l - 1)]
  }

  lemma {:induction false} SlicesAt(vals: seq<nat>, w: nat, v: nat, l: nat, n: nat)
    requires l < n <= w
    ensures SlicesTo(vals, w, v, n)[l] == SliceAt(vals, w, v, l)
  {
    if l < n - 1 {
      SlicesAt(vals, w, v, l, n - 1);
    }
  }

  lemma {:induction false} Occurs(vals: seq<nat>, v: nat, a: nat, e: nat)
    requires a <= v < e && v in vals
    ensures Count(vals, a, e) >= 1
  {
    PositionsCount(vals, v);
    CountSplits(vals, a, v, e, |vals|);
    CountSplits(vals, v, v + 1, e, |vals|);
  }

  lemma InInterval(w: nat, v: nat, l: nat)
    requires l <= w
    ensures Low(w, v, l) <= v < High(w, v, l)
  {
    HalvedIsQuotient(v, w - l);
  }

  /** In a layer, the element at `p` is the next of its half after those counted in the layer below. */
  lemma PathKth(vals: seq<nat>, w: nat, v: nat, l: nat, p: nat, result: nat, tree: seq<bool>, start: nat, pos: nat)
    requires l < w && v < Pow2(w) && Below(vals, Pow2(w)) && p < |vals| && vals[p] == v
    requires tree == TreeBits(vals, w, w) && start == Start(vals, w, v, l)
    requires result == CountIn(vals, Low(w, v, l + 1), High(w, v, l + 1), p) + 1
    requires pos == start + CountIn(vals, Low(w, v, l), High(w, v, l), p)
    ensures start <= pos < |tree| && IsKth(tree, v >= Middle(w, v, l), start, result, pos)
  {
    Descend(w, v, l);
    PathBit(vals, w, v, l, p, pos);
    PathRank(vals, w, v, l, p, pos);
  }

  lemma SliceRange(vals: seq<nat>, w: nat, v: nat, l: nat, p: nat, tree: seq<bool>, slice: Slice, pos: nat)
    requires l < w && v < Pow2(w) && Below(vals, Pow2(w)) && p < |vals| && vals[p] == v
    requires tree == TreeBits(vals, w, w) && slice == SliceAt(vals, w, v, l)
    requires pos == slice.start + CountIn(vals, Low(w, v, l), High(w, v, l), p)
    ensures slice.start <= pos < slice.end <= |tree|
  {
    InInterval(w, v, l);
    PathRank(vals, w, v, l, |vals|, slice.end);
    CountMonotone(vals, Low(w, v, l), High(w, v, l), p + 1, |vals|);
  }

  /** The element at `p` in one layer, found by select from its place in the layer below. */
  lemma SelectStep(vals: seq<nat>, w: nat, v: nat, l: nat, p: nat, result: nat, tree: seq<bool>, slice: Slice, pos: nat)
    requires l < w && v < Pow2(w) && Below(vals, Pow2(w)) && p < |vals| && vals[p] == v
    requires tree == TreeBits(vals, w, w) && slice == SliceAt(vals, w, v, l)
    requires result == CountIn(vals, Low(w, v, l + 1), High(w, v, l + 1), p) + 1
    requires pos == slice.start + CountIn(vals, Low(w, v, l), High(w, v, l), p)
    ensures slice.start <= slice.end <= |tree|
    ensures IsKth(tree, slice.bit, slice.start, result, pos)
    ensures Rank(tree, slice.bit, slice.end) >= Rank(tree, slice.bit, slice.start) + result
  {
    PathKth(vals, w, v, l, p, result, tree, slice.start, pos);
    SliceRange(vals, w, v, l, p, tree, slice, pos);
    KthWithinCount(tree, slice.bit, slice.start, slice.end, result, pos);
  }

  /** The half of its last fragment that a value is in holds its occurrences. */
  lemma LastHalf(vals: seq<nat>, w: nat, l: nat, v: nat)
    requires w == l + 1 && v < Pow2(w)
    ensures |Positions(vals, v)| == if v >= Middle(w, v, l)
      then CountIn(vals, Middle(w, v, l), High(w, v, l), |vals|)
      else CountIn(vals, Low(w, v, l), Middle(w, v, l), |vals|)
  {
    Descend(w, v, l);
    assert Low(w, v, w) == v && High(w, v, w) == v + 1;
    PositionsCount(vals, v);
  }

  /** The last slice holds the value's half of its fragment: its occurrences. */
  lemma LastSlice(vals: seq<nat>, w: nat, l: nat, v: nat, tree: seq<bool>, slice: Slice)
    requires w == l + 1 && v < Pow2(w) && Below(vals, Pow2(w))
    requires tree == TreeBits(vals, w, w) && slice == SliceAt(vals, w, v, l)
    ensures slice.start <= slice.end <= |tree|
    ensures Rank(tree, slice.bit, slice.end) == Rank(tree, slice.bit, slice.start) + |Positions(vals, v)|
  {
    PathRank(vals, w, v, l, |vals|, slice.end);
    LastHalf(vals, w, l, v);
  }

  datatype WaveletLookup = WaveletLookup(entry: nat, tree: WaveletTree, slices: seq<Slice>) {
    /** The cached path of a value that occurs. */
    ghost predicate Holds(vals: seq<nat>) {
      && tree.Holds(vals)
      && entry in vals
      && entry < Pow2(tree.numLayers)
      && slices == SlicesTo(vals, tree.numLayers, entry, tree.numLayers)
    }

    /** How often the value occurs. */
    method Len(ghost vals: seq<nat>) returns (r: nat)
      requires Holds(vals)
      ensures r == |Positions(vals, entry)|
    {
      ghost var w, bits := tree.numLayers, TreeBits(vals, tree.numLayers, tree.numLayers);
      var last := slices[|slices| - 1];
      SlicesAt(vals, w, entry, w - 1, w);
      LastSlice(vals, w, w - 1, entry, bits, last);
      r := tree.bits.RankFromRange(last.bit, last.start, last.end, bits);
    }

    /** The position of the `index`-th occurrence, walking the layers from the bottom up. */
    method Entry(index: nat, ghost vals: seq<nat>) returns (r: nat)
      requires Holds(vals) && index < |Positions(vals, entry)|
      ensures r == Positions(vals, entry)[index]
    {
      ghost var w, bits := tree.numLayers, TreeBits(vals, tree.numLayers, tree.numLayers);
      ghost var p := Positions(vals, entry)[index];
      PositionsAt(vals, entry, index);
      PathEnds(w, entry);
      var result := index + 1;
      var l := |slices|;
      while l > 0
        invariant 0 <= l <= w
        invariant result == CountIn(vals, Low(w, entry, l), High(w, entry, l), p) + 1
      {
        l := l - 1;
        var slice := slices[l];
        result := SelectUp(slice, result, vals, l, p);
      }
      CountAll(vals, Pow2(w), p);
      r := result - 1;
    }

    /** One layer up. */
    method SelectUp(slice: Slice, result: nat, ghost vals: seq<nat>, ghost l: nat, ghost p: nat) returns (r: nat)
      requires Holds(vals) && l < tree.numLayers && p < |vals| && vals[p] == entry
      requires slice == slices[l]
      requires result == CountIn(vals, Low(tree.numLayers, entry, l + 1), High(tree.numLayers, entry, l + 1), p) + 1
      ensures r == CountIn(vals, Low(tree.numLayers, entry, l), High(tree.numLayers, entry, l), p) + 1
    {
      ghost var w, bits := tree.numLayers, TreeBits(vals, tree.numLayers, tree.numLayers);
      SlicesAt(vals, w, entry, l, w);
      ghost var pos := slice.start + CountIn(vals, Low(w, entry, l), High(w, entry, l), p);
      SelectStep(vals, w, entry, l, p, result, bits, slice, pos);
      var selected := tree.bits.SelectFromRange(slice.bit, result, slice.start, slice.end, bits);
      KthIsUnique(bits, slice.bit, slice.start, result, pos, selected.pos);
      r := selected.pos - slice.start + 1;
    }

    /** All positions, one entry after the other. */
    method Iter(ghost vals: seq<nat>) returns (r: seq<nat>)
      requires Holds(vals)
      ensures r == Positions(vals, entry)
    {
      var len := Len(vals);
      r := [];
      for i := 0 to len
        invariant r == Positions(vals, entry)[..i]
      {
        var p := Entry(i, vals);
        r := r + [p];
      }
    }
  }

  /** One layer of the way down: the slice for it, and the half to go on with. */
  method LookupLayer(tree: WaveletTree, entry: nat, i: nat, low: nat, high: nat, start: nat, end: nat,
                     ghost vals: seq<nat>)
    returns (slice: Slice, low': nat, high': nat, start': nat, end': nat)
    requires tree.Holds(vals) && i < tree.numLayers && entry < Pow2(tree.numLayers)
    requires OnPath(vals, tree.numLayers, entry, i, low, high, start, end)
    ensures slice == SliceAt(vals, tree.numLayers, entry, i)
    ensures OnPath(vals, tree.numLayers, entry, i + 1, low', high', start', end')
  {
    ghost var bits := TreeBits(vals, tree.numLayers, tree.numLayers);
    var layer := tree.LayerStart(i, vals);
    var fullStart, fullEnd := layer + start, layer + end;
    RangeStep(vals, tree.numLayers, entry, i, low, high, start, end, fullStart, fullEnd, bits);
    Descend(tree.numLayers, entry, i);
    var b := entry >= (low + high) / 2;
    slice := Slice(b, fullStart, fullEnd);
    if b {
      var zeros := tree.bits.RankFromRange(false, fullStart, fullEnd, bits);
      low', high', start', end' := low + Pow2(tree.numLayers - i - 1), high, start + zeros, end;
    } else {
      var ones := tree.bits.RankFromRange(true, fullStart, fullEnd, bits);
      low', high', start', end' := low, high - Pow2(tree.numLayers - i - 1), start, end - ones;
    }
  }

  /** Looks a value up: nothing exactly when it does not occur, otherwise a cursor over its positions. */
  method Lookup(tree: WaveletTree, entry: nat, ghost vals: seq<nat>) returns (r: Option<WaveletLookup>)
    requires tree.numLayers == 0 || tree.Holds(vals)
    ensures tree.numLayers == 0 ==> r == None
    ensures tree.numLayers > 0 ==> (r == None <==> entry !in vals)
    ensures r.Some? ==> r.value.Holds(vals) && r.value.entry == entry
  {
    if tree.numLayers == 0 {
      return None;
    }
    var w := tree.numLayers;
    tree.LenIsCount(vals);
    if entry >= Pow2(w) {
      return None;
    }
    PathStarts(vals, w, entry, 0);
    var slices := [];
    var low, high := 0, Pow2(w);
    var start, end := 0, tree.Len();
    for i := 0 to w
      invariant OnPath(vals, w, entry, i, low, high, start, end)
      invariant slices == SlicesTo(vals, w, entry, i)
      invariant i > 0 ==> start != end
    {
      var slice;
      slice, low, high, start, end := LookupLayer(tree, entry, i, low, high, start, end, vals);
      slices := slices + [slice];
      if start == end {
        NothingLeft(vals, w, entry, i + 1, low, high, start, end);
        return None;
      }
    }
    SomethingLeft(vals, w, entry, low, high, start, end);
    r := Some(WaveletLookup(entry, tree, slices));
  }

  lemma NothingLeft(vals: seq<nat>, w: nat, v: nat, l: nat, low: nat, high: nat, start: nat, end: nat)
    requires l <= w && OnPath(vals, w, v, l, low, high, start, end) && start == end
    ensures v !in vals
  {
    InInterval(w, v, l);
    if v in vals {
      Occurs(vals, v, low, high);
      CountSplits(vals, 0, low, high, |vals|);
    }
  }

  lemma SomethingLeft(vals: seq<nat>, w: nat, v: nat, low: nat, high: nat, start: nat, end: nat)
    requires v < Pow2(w) && OnPath(vals, w, v, w, low, high, start, end) && start != end
    ensures v in vals
  {
    PathEnds(w, v);
    CountSplits(vals, 0, v, v + 1, |vals|);
    PositionsCount(vals, v);
  }

  /** A single position of the value: the first one. */
  method LookupOne(tree: WaveletTree, entry: nat, ghost vals: seq<nat>) returns (r: Option<nat>)
    requires tree.numLayers == 0 || tree.Holds(vals)
    ensures tree.numLayers == 0 ==> r == None
    ensures tree.numLayers > 0 ==> if entry in vals
      then r.Some? && r.value < |vals| && vals[r.value] == entry && entry !in vals[..r.value]
      else r == None
  {
    var lookup := Lookup(tree, entry, vals);
    if lookup.None? {
      return None;
    }
    PositionsCount(vals, entry);
    var p := lookup.value.Entry(0, vals);
    FirstPosition(vals, entry);
    r := Some(p);
  }

  lemma FirstPosition(vals: seq<nat>, v: nat)
    requires v in vals
    ensures Positions(vals, v) != []
    ensures var p := Positions(vals, v)[0]; p < |vals| && vals[p] == v && v !in vals[..p]
  {
    PositionsCount(vals, v);
    PositionsAt(vals, v, 0);
    var p := Positions(vals, v)[0];
    PositionsCount(vals[..p], v);
    CountAgrees(vals[..p], vals, v, v + 1, p);
  }
}
