/** The wavelet tree: building it, decoding a position, and looking up all positions of a value. */
module WaveletTrees {
  import opened Bits
  import opened Words
  import opened RankSelect
  import opened WaveletLayout

  // The path of a value through the layers

  /** The fragment of layer `l` a value goes to. */
  function FragmentOf(w: nat, v: nat, l: nat): nat
    requires l <= w
  {
    Halved(v, w - l)
  }

  /** The interval of values that share that fragment. */
  function Low(w: nat, v: nat, l: nat): nat
    requires l <= w
  {
    Doubled(FragmentOf(w, v, l), w - l)
  }

  function High(w: nat, v: nat, l: nat): nat
    requires l <= w
  {
    Doubled(FragmentOf(w, v, l) + 1, w - l)
  }

  function Middle(w: nat, v: nat, l: nat): nat
    requires l < w
  {
    Doubled(2 * FragmentOf(w, v, l) + 1, w - l - 1)
  }

  /** One layer down, the interval is the half the value is in. */
  lemma Descend(w: nat, v: nat, l: nat)
    requires l < w
    ensures Low(w, v, l) <= v < High(w, v, l)
    ensures Middle(w, v, l) == Low(w, v, l) + Pow2(w - l - 1)
    ensures High(w, v, l) == Low(w, v, l) + Pow2(w - l) == Middle(w, v, l) + Pow2(w - l - 1)
    ensures (Low(w, v, l) + High(w, v, l)) / 2 == Middle(w, v, l)
    ensures if v >= Middle(w, v, l)
            then Low(w, v, l + 1) == Middle(w, v, l) && High(w, v, l + 1) == High(w, v, l)
            else Low(w, v, l + 1) == Low(w, v, l) && High(w, v, l + 1) == Middle(w, v, l)
  {
    var k := w - l;
    HalvedIsQuotient(v, k);
    HalvedIsQuotient(v, k - 1);
    HalvedOuter(v, k);
    FragmentRange(Halved(v, k), k);
  }

  lemma PathEnds(w: nat, v: nat)
    requires v < Pow2(w)
    ensures Low(w, v, 0) == 0 && High(w, v, 0) == Pow2(w)
    ensures Low(w, v, w) == v && High(w, v, w) == v + 1
  {
    HalvedToZero(v, w);
    DoubledZero(w);
    DoubledOne(w);
  }

  lemma {:induction false} HalvedToZero(v: nat, k: nat)
    requires v < Pow2(k)
    ensures Halved(v, k) == 0
  {
    if k > 0 {
      HalvedToZero(v / 2, k - 1);
    }
  }

  lemma {:induction false} DoubledOne(k: nat)
    ensures Doubled(1, k) == Pow2(k)
  {
    if k > 0 {
      DoubledOne(k - 1);
    }
  }

  /** Where the value's fragment starts in the tree. */
  function Start(vals: seq<nat>, w: nat, v: nat, l: nat): nat
    requires l < w
  {
    Base(vals, w, l, FragmentOf(w, v, l))
  }

  /** Rank over the beginning of the value's fragment counts the elements of one half. */
  lemma PathRank(vals: seq<nat>, w: nat, v: nat, l: nat, i: nat, at: nat)
    requires l < w && v < Pow2(w) && Below(vals, Pow2(w)) && i <= |vals|
    requires at == Start(vals, w, v, l) + CountIn(vals, Low(w, v, l), High(w, v, l), i)
    ensures at <= |TreeBits(vals, w, w)| && Start(vals, w, v, l) <= |TreeBits(vals, w, w)|
    ensures Rank(TreeBits(vals, w, w), true, at)
         == Rank(TreeBits(vals, w, w), true, Start(vals, w, v, l)) + CountIn(vals, Middle(w, v, l), High(w, v, l), i)
    ensures Rank(TreeBits(vals, w, w), false, at)
         == Rank(TreeBits(vals, w, w), false, Start(vals, w, v, l)) + CountIn(vals, Low(w, v, l), Middle(w, v, l), i)
  {
    var j := FragmentOf(w, v, l);
    HalvedBound(v, l, w - l);
    FragmentInTree(vals, w, l, j);
    Descend(w, v, l);
    FragmentRank(vals, Low(w, v, l), Middle(w, v, l), High(w, v, l), i);
    WindowRank(TreeBits(vals, w, w), Fragment(vals, w, l, j), true, Start(vals, w, v, l), at);
    WindowRank(TreeBits(vals, w, w), Fragment(vals, w, l, j), false, Start(vals, w, v, l), at);
  }

  lemma WindowRank(s: seq<bool>, f: seq<bool>, b: bool, base: nat, at: nat)
    requires base + |f| <= |s| && s[base..base + |f|] == f && base <= at <= base + |f|
    ensures Rank(s, b, at) == Rank(s, b, base) + Rank(f, b, at - base)
  {
    forall k | 0 <= k < at - base
      ensures f[k] == s[base + k]
    {
      assert s[base..base + |f|][k] == s[base + k];
    }
    RankOfWindow(s, f, b, base, at - base);
  }

  /** The bit an element of the fragment has in this layer. */
  lemma PathBit(vals: seq<nat>, w: nat, v: nat, l: nat, i: nat, at: nat)
    requires l < w && v < Pow2(w) && Below(vals, Pow2(w)) && i < |vals|
    requires Low(w, v, l) <= vals[i] < High(w, v, l)
    requires at == Start(vals, w, v, l) + CountIn(vals, Low(w, v, l), High(w, v, l), i)
    ensures at < |TreeBits(vals, w, w)| && TreeBits(vals, w, w)[at] == (vals[i] >= Middle(w, v, l))
  {
    var j, base := FragmentOf(w, v, l), Start(vals, w, v, l);
    HalvedBound(v, l, w - l);
    FragmentInTree(vals, w, l, j);
    FragmentBit(vals, Low(w, v, l), Middle(w, v, l), High(w, v, l), i);
    var f, tree := Fragment(vals, w, l, j), TreeBits(vals, w, w);
    assert tree[base..base + |f|][at - base] == tree[at];
  }

  /** A number's bit in a layer is its binary digit there. */
  lemma {:induction false} DigitIsHalf(v: nat, w: nat, l: nat)
    requires l < w
    ensures BitsOf(v, w)[l] == (Halved(v, w - 1 - l) % 2 == 1)
  {
    if l < w - 1 {
      DigitIsHalf(v / 2, w - 1, l);
    }
  }

  lemma UpperHalf(w: nat, v: nat, l: nat)
    requires l < w
    ensures v >= Middle(w, v, l) <==> Halved(v, w - 1 - l) % 2 == 1
  {
    var k := w - 1 - l;
    HalvedOuter(v, k + 1);
    HalvedIsQuotient(v, k);
    DoubledIsProduct(Halved(v, k), k);
    DoubledIsProduct(Halved(v, k) + 1, k);
    DoubledIsProduct(2 * FragmentOf(w, v, l) + 1, k);
    QuotientReaches(v, Halved(v, k), 2 * FragmentOf(w, v, l) + 1, Pow2(k));
  }

  lemma QuotientReaches(v: nat, q: nat, m: nat, p: nat)
    requires q * p <= v < (q + 1) * p
    ensures v >= m * p <==> q >= m
  {
    if q >= m {
      MulMonotone(m, q, p);
    } else {
      MulMonotone(q + 1, m, p);
    }
  }

  /**
   * Where an element's bit of a layer stands: behind the layers above, the elements whose digits above are less, and
   * the elements before it with the same ones.
   */
  lemma LayerBit(vals: seq<nat>, w: nat, l: nat, i: nat, at: nat)
    requires l < w && Below(vals, Pow2(w)) && i < |vals|
    requires at == Span(|vals|, l) + Count(vals, 0, Low(w, vals[i], l)) +
      CountIn(vals, Low(w, vals[i], l), High(w, vals[i], l), i)
    ensures at < |TreeBits(vals, w, w)| && TreeBits(vals, w, w)[at] == BitsOf(vals[i], w)[l]
  {
    Descend(w, vals[i], l);
    PathRange(vals, w, vals[i], l);
    PathBit(vals, w, vals[i], l, i, at);
    UpperHalf(w, vals[i], l);
    DigitIsHalf(vals[i], w, l);
  }

  /** The range of the value's fragment inside its layer. */
  lemma PathRange(vals: seq<nat>, w: nat, v: nat, l: nat)
    requires l < w && v < Pow2(w) && Below(vals, Pow2(w))
    ensures Start(vals, w, v, l) == Span(|vals|, l) + Count(vals, 0, Low(w, v, l))
    ensures Count(vals, 0, High(w, v, l)) == Count(vals, 0, Low(w, v, l)) + Count(vals, Low(w, v, l), High(w, v, l))
    ensures Count(vals, 0, Middle(w, v, l)) == Count(vals, 0, Low(w, v, l)) + Count(vals, Low(w, v, l), Middle(w, v, l))
    ensures Count(vals, 0, High(w, v, l)) ==
      Count(vals, 0, Middle(w, v, l)) + Count(vals, Middle(w, v, l), High(w, v, l))
  {
    Descend(w, v, l);
    CountSplits(vals, 0, Low(w, v, l), High(w, v, l), |vals|);
    CountSplits(vals, 0, Low(w, v, l), Middle(w, v, l), |vals|);
    CountSplits(vals, 0, Middle(w, v, l), High(w, v, l), |vals|);
  }

  // Decoding

  datatype WaveletTree = WaveletTree(bits: BitIndex, numLayers: nat) {
    /** The tree encodes `vals`. */
    ghost predicate Holds(vals: seq<nat>) {
      && numLayers >= 1
      && Below(vals, Pow2(numLayers))
      && bits.Holds(TreeBits(vals, numLayers, numLayers))
    }

    function Len(): nat {
      if numLayers == 0 then 0 else bits.Len() / numLayers
    }

    lemma LenIsCount(vals: seq<nat>)
      requires Holds(vals)
      ensures Len() == |vals|
    {
      TreeSize(vals, numLayers, numLayers);
      bits.Sizes(TreeBits(vals, numLayers, numLayers));
      SpanIsProduct(|vals|, numLayers);
      ProductOverFactor(|vals|, numLayers);
    }

    /** Where a layer starts in the flattened bits. */
    method LayerStart(i: nat, ghost vals: seq<nat>) returns (r: nat)
      requires Holds(vals)
      ensures r == Span(|vals|, i)
    {
      LenIsCount(vals);
      SpanIsProduct(|vals|, i);
      r := i * Len();
    }

    /** One layer of decoding: the bit found there, and where to look in the layer below. */
    method DecodeLayer(index: nat, i: nat, low: nat, high: nat, rangeStart: nat, rangeEnd: nat, offset: nat,
                       ghost vals: seq<nat>)
      returns (low': nat, high': nat, rangeStart': nat, rangeEnd': nat, offset': nat)
      requires Holds(vals) && index < |vals| && i < numLayers
      requires OnPath(vals, numLayers, vals[index], i, low, high, rangeStart, rangeEnd)
      requires offset == CountIn(vals, low, high, index)
      ensures OnPath(vals, numLayers, vals[index], i + 1, low', high', rangeStart', rangeEnd')
      ensures offset' == CountIn(vals, low', high', index)
    {
      ghost var tree := TreeBits(vals, numLayers, numLayers);
      var layer := LayerStart(i, vals);
      var at, rangeStartIndex, rangeEndIndex := layer + rangeStart + offset, layer + rangeStart, layer + rangeEnd;
      DecodeStep(vals, numLayers, index, i, low, high, rangeStart, rangeEnd, at, rangeStartIndex, rangeEndIndex, tree);
      var bit := bits.Get(at, tree);
      if bit {
        low', high' := (low + high) / 2, high;
        var zerosInRange;
        offset', zerosInRange := CountHalves(true, rangeStartIndex, at, rangeEndIndex, tree);
        rangeStart', rangeEnd' := rangeStart + zerosInRange, rangeEnd;
      } else {
        low', high' := low, (low + high) / 2;
        var onesInRange;
        offset', onesInRange := CountHalves(false, rangeStartIndex, at, rangeEndIndex, tree);
        rangeStart', rangeEnd' := rangeStart, rangeEnd - onesInRange;
      }
    }

    /** How many of the range before `at` went the same way, and how many of the whole range went the other. */
    method CountHalves(b: bool, start: nat, at: nat, end: nat, ghost tree: seq<bool>) returns (same: nat, others: nat)
      requires bits.Holds(tree) && start <= at < end <= |tree| && tree[at] == b
      ensures Rank(tree, b, start) + same + 1 == Rank(tree, b, at + 1)
      ensures Rank(tree, !b, start) + others == Rank(tree, !b, end)
    {
      RankMonotone(tree, b, start, at);
      var upTo := bits.RankFromRange(b, start, at + 1, tree);
      same := upTo - 1;
      others := bits.RankFromRange(!b, start, end, tree);
    }

    /** The element at `index`, found by following its bits down the layers. */
    method DecodeOne(index: nat, ghost vals: seq<nat>) returns (r: nat)
      requires Holds(vals) && index < |vals|
      ensures r == vals[index]
    {
      LenIsCount(vals);
      PathStarts(vals, numLayers, vals[index], index);
      var offset := index;
      var low, high := 0, Pow2(numLayers);
      var rangeStart, rangeEnd := 0, Len();
      for i := 0 to numLayers
        invariant OnPath(vals, numLayers, vals[index], i, low, high, rangeStart, rangeEnd)
        invariant offset == CountIn(vals, low, high, index)
      {
        low, high, rangeStart, rangeEnd, offset := DecodeLayer(index, i, low, high, rangeStart, rangeEnd, offset, vals);
      }
      PathEnds(numLayers, vals[index]);
      assert low == high - 1;
      r := low;
    }
  }

  /** The interval, and its place in the layer, on the way down to `v`. */
  ghost predicate OnPath(vals: seq<nat>, w: nat, v: nat, l: nat, low: nat, high: nat, start: nat, end: nat)
    requires l <= w
  {
    && low == Low(w, v, l) && high == High(w, v, l)
    && start == Count(vals, 0, low) && end == Count(vals, 0, high)
  }

  /** What the bits of a layer say about its halves; `base` and `stop` delimit the fragment in the tree. */
  lemma RangeStep(vals: seq<nat>, w: nat, v: nat, l: nat, low: nat, high: nat, start: nat, end: nat,
                  base: nat, stop: nat, tree: seq<bool>)
    requires l < w && v < Pow2(w) && Below(vals, Pow2(w)) && tree == TreeBits(vals, w, w)
    requires OnPath(vals, w, v, l, low, high, start, end)
    requires base == Span(|vals|, l) + start && stop == Span(|vals|, l) + end
    ensures base == Start(vals, w, v, l) && base <= stop <= |tree|
    ensures stop == base + Count(vals, low, high)
    ensures var mid := (low + high) / 2;
      && mid == Middle(w, v, l) && low <= mid <= high
      && Rank(tree, true, stop) == Rank(tree, true, base) + Count(vals, mid, high)
      && Rank(tree, false, stop) == Rank(tree, false, base) + Count(vals, low, mid)
      && Count(vals, mid, high) <= end
      && if v >= mid then OnPath(vals, w, v, l + 1, mid, high, start + Count(vals, low, mid), end)
         else OnPath(vals, w, v, l + 1, low, mid, start, end - Count(vals, mid, high))
  {
    Descend(w, v, l);
    PathRange(vals, w, v, l);
    PathRank(vals, w, v, l, |vals|, stop);
  }

  /** The same for the element at `index`, whose bit is at `at`. */
  lemma DecodeStep(vals: seq<nat>, w: nat, index: nat, l: nat, low: nat, high: nat, start: nat, end: nat,
                   at: nat, base: nat, stop: nat, tree: seq<bool>)
    requires l < w && Below(vals, Pow2(w)) && index < |vals| && tree == TreeBits(vals, w, w)
    requires OnPath(vals, w, vals[index], l, low, high, start, end)
    requires base == Span(|vals|, l) + start && stop == Span(|vals|, l) + end
    requires at == base + CountIn(vals, low, high, index)
    ensures base <= at < stop <= |tree|
    ensures var mid := (low + high) / 2;
      if tree[at] then
        && Rank(tree, true, at + 1) == Rank(tree, true, base) + CountIn(vals, mid, high, index) + 1
        && Rank(tree, false, stop) >= Rank(tree, false, base)
        && OnPath(vals, w, vals[index], l + 1, mid, high,
                  start + (Rank(tree, false, stop) - Rank(tree, false, base)), end)
      else
        && Rank(tree, false, at + 1) == Rank(tree, false, base) + CountIn(vals, low, mid, index) + 1
        && Rank(tree, true, base) <= Rank(tree, true, stop) <= Rank(tree, true, base) + end
        && OnPath(vals, w, vals[index], l + 1, low, mid, start, end - (Rank(tree, true, stop) - Rank(tree, true, base)))
  {
    var v := vals[index];
    RangeStep(vals, w, v, l, low, high, start, end, base, stop, tree);
    Descend(w, v, l);
    PathBit(vals, w, v, l, index, at);
    PathRank(vals, w, v, l, index + 1, at + 1);
    CountMonotone(vals, low, high, index + 1, |vals|);
  }

  lemma PathStarts(vals: seq<nat>, w: nat, v: nat, index: nat)
    requires v < Pow2(w) && Below(vals, Pow2(w)) && index <= |vals|
    ensures OnPath(vals, w, v, 0, 0, Pow2(w), 0, |vals|)
    ensures CountIn(vals, 0, Pow2(w), index) == index
  {
    PathEnds(w, v);
    CountNone(vals, |vals|);
    CountAll(vals, Pow2(w), |vals|);
    CountAll(vals, Pow2(w), index);
  }

  lemma ProductOverFactor(a: nat, b: nat)
    requires b >= 1
    ensures a * b / b == a
  {
    EuclidUnique(b, a, 0, a * b / b, a * b % b);
  }
}
