/** The layout of a wavelet tree: which bit of the flattened tree belongs to which element. */
module WaveletLayout {
  import opened Bits
  import opened Words

  /** How many of the first `i` elements lie in `[a, e)`. */
  function CountIn(vals: seq<nat>, a: nat, e: nat, i: nat): (r: nat)
    requires i <= |vals|
    ensures r <= i
  {
    if i == 0 then 0 else CountIn(vals, a, e, i - 1) + if a <= vals[i - 1] < e then 1 else 0
  }

  /** All elements in `[a, e)`. */
  function Count(vals: seq<nat>, a: nat, e: nat): nat {
    CountIn(vals, a, e, |vals|)
  }

  lemma {:induction false} CountSplits(vals: seq<nat>, a: nat, m: nat, e: nat, i: nat)
    requires a <= m <= e && i <= |vals|
    ensures CountIn(vals, a, e, i) == CountIn(vals, a, m, i) + CountIn(vals, m, e, i)
  {
    if i > 0 {
      CountSplits(vals, a, m, e, i - 1);
    }
  }

  lemma {:induction false} CountMonotone(vals: seq<nat>, a: nat, e: nat, i: nat, j: nat)
    requires i <= j <= |vals|
    ensures CountIn(vals, a, e, i) <= CountIn(vals, a, e, j)
    decreases j
  {
    if i < j {
      CountMonotone(vals, a, e, i, j - 1);
    }
  }

  lemma {:induction false} CountAgrees(vals: seq<nat>, more: seq<nat>, a: nat, e: nat, i: nat)
    requires i <= |vals| <= |more| && forall k :: 0 <= k < i ==> vals[k] == more[k]
    ensures CountIn(vals, a, e, i) == CountIn(more, a, e, i)
  {
    if i > 0 {
      CountAgrees(vals, more, a, e, i - 1);
    }
  }

  ghost predicate Below(vals: seq<nat>, bound: nat) {
    forall i :: 0 <= i < |vals| ==> vals[i] < bound
  }

  lemma {:induction false} CountAll(vals: seq<nat>, bound: nat, i: nat)
    requires Below(vals, bound) && i <= |vals|
    ensures CountIn(vals, 0, bound, i) == i
  {
    if i > 0 {
      CountAll(vals, bound, i - 1);
    }
  }

  // The bits of the tree

  /** One fragment: for each element in `[a, e)`, in order, whether it is in the upper half. */
  function FragmentBits(vals: seq<nat>, a: nat, h: nat, e: nat): (s: seq<bool>) {
    if vals == [] then []
    else
      var v := vals[|vals| - 1];
      FragmentBits(vals[..|vals| - 1], a, h, e) + if a <= v < e then [v >= h] else []
  }

  /** Fragment `j` of layer `l` covers the values whose top `l` of `w` bits are `j`. */
  function Fragment(vals: seq<nat>, w: nat, l: nat, j: nat): seq<bool>
    requires l < w
  {
    FragmentBits(vals, Doubled(j, w - l), Doubled(2 * j + 1, w - l - 1), Doubled(j + 1, w - l))
  }

  /** The first `j` fragments of layer `l`. */
  function LayerBits(vals: seq<nat>, w: nat, l: nat, j: nat): seq<bool>
    requires l < w
  {
    if j == 0 then [] else LayerBits(vals, w, l, j - 1) + Fragment(vals, w, l, j - 1)
  }

  /** The first `l` layers, flattened. */
  function TreeBits(vals: seq<nat>, w: nat, l: nat): seq<bool>
    requires l <= w
  {
    if l == 0 then [] else TreeBits(vals, w, l - 1) + LayerBits(vals, w, l - 1, Pow2(l - 1))
  }

  lemma {:induction false} FragmentSize(vals: seq<nat>, a: nat, h: nat, e: nat)
    ensures |FragmentBits(vals, a, h, e)| == Count(vals, a, e)
  {
    if vals != [] {
      var init := vals[..|vals| - 1];
      FragmentSize(init, a, h, e);
      CountAgrees(init, vals, a, e, |init|);
    }
  }

  /** An element's bit sits behind those of the earlier elements of its fragment. */
  lemma {:induction false} FragmentBit(vals: seq<nat>, a: nat, h: nat, e: nat, i: nat)
    requires i < |vals| && a <= vals[i] < e
    ensures CountIn(vals, a, e, i) < |FragmentBits(vals, a, h, e)|
    ensures FragmentBits(vals, a, h, e)[CountIn(vals, a, e, i)] == (vals[i] >= h)
  {
    var n := |vals| - 1;
    var init := vals[..n];
    FragmentSize(init, a, h, e);
    CountAgrees(init, vals, a, e, if i < n then i else n);
    if i < n {
      FragmentBit(init, a, h, e, i);
    }
  }

  /** Within a fragment, rank counts the elements of the upper (or the lower) half. */
  lemma {:induction false} FragmentRank(vals: seq<nat>, a: nat, h: nat, e: nat, i: nat)
    requires a <= h <= e && i <= |vals|
    ensures CountIn(vals, a, e, i) <= |FragmentBits(vals, a, h, e)|
    ensures Rank(FragmentBits(vals, a, h, e), true, CountIn(vals, a, e, i)) == CountIn(vals, h, e, i)
    ensures Rank(FragmentBits(vals, a, h, e), false, CountIn(vals, a, e, i)) == CountIn(vals, a, h, i)
  {
    FragmentSize(vals, a, h, e);
    CountMonotone(vals, a, e, i, |vals|);
    if i > 0 {
      FragmentRank(vals, a, h, e, i - 1);
      if a <= vals[i - 1] < e {
        FragmentBit(vals, a, h, e, i - 1);
      }
    }
  }

  lemma {:induction false} DoubledStep(v: nat, k: nat)
    ensures Doubled(v + 1, k) == Doubled(v, k) + Pow2(k)
  {
    if k > 0 {
      DoubledStep(v, k - 1);
    }
  }

  lemma {:induction false} DoubledInner(v: nat, k: nat)
    requires k >= 1
    ensures Doubled(2 * v, k - 1) == Doubled(v, k)
  {
    if k > 1 {
      DoubledInner(v, k - 1);
    }
  }

  /** Start, middle and end of a fragment, in the units of its two halves. */
  lemma FragmentRange(j: nat, k: nat)
    requires k >= 1
    ensures Doubled(2 * j, k - 1) == Doubled(j, k)
    ensures Doubled(2 * j + 2, k - 1) == Doubled(j + 1, k)
    ensures Doubled(2 * j + 1, k - 1) == Doubled(j, k) + Pow2(k - 1)
    ensures Doubled(j + 1, k) == Doubled(j, k) + Pow2(k)
    ensures Pow2(k) == 2 * Pow2(k - 1)
  {
    DoubledInner(j, k);
    DoubledInner(j + 1, k);
    DoubledStep(2 * j, k - 1);
    DoubledStep(j, k);
  }

  lemma {:induction false} DoubledZero(k: nat)
    ensures Doubled(0, k) == 0
  {
    if k > 0 {
      DoubledZero(k - 1);
    }
  }

  lemma {:induction false} LayerSize(vals: seq<nat>, w: nat, l: nat, j: nat)
    requires l < w
    ensures |LayerBits(vals, w, l, j)| == Count(vals, 0, Doubled(j, w - l))
  {
    var k := w - l;
    if j == 0 {
      DoubledZero(k);
      CountNone(vals, |vals|);
    } else {
      LayerSize(vals, w, l, j - 1);
      var a, e := Doubled(j - 1, k), Doubled(j, k);
      FragmentRange(j - 1, k);
      FragmentSize(vals, a, Doubled(2 * (j - 1) + 1, k - 1), e);
      CountSplits(vals, 0, a, e, |vals|);
    }
  }

  lemma {:induction false} CountNone(vals: seq<nat>, i: nat)
    requires i <= |vals|
    ensures CountIn(vals, 0, 0, i) == 0
  {
    if i > 0 {
      CountNone(vals, i - 1);
    }
  }

  lemma {:induction false} DoubledPow2(l: nat, k: nat)
    ensures Doubled(Pow2(l), k) == Pow2(l + k)
  {
    if k > 0 {
      DoubledPow2(l, k - 1);
    }
  }

  /** Every layer holds each element once. */
  lemma {:induction false} TreeSize(vals: seq<nat>, w: nat, l: nat)
    requires l <= w && Below(vals, Pow2(w))
    ensures |TreeBits(vals, w, l)| == Span(|vals|, l)
  {
    if l > 0 {
      TreeSize(vals, w, l - 1);
      LayerSize(vals, w, l - 1, Pow2(l - 1));
      DoubledPow2(l - 1, w - (l - 1));
      CountAll(vals, Pow2(w), |vals|);
    }
  }

  /** Fragment `j` starts, in its layer, behind all smaller elements. */
  lemma {:induction false} FragmentInLayer(vals: seq<nat>, w: nat, l: nat, j: nat, n: nat)
    requires l < w && j < n
    ensures var f, at, layer := Fragment(vals, w, l, j), |LayerBits(vals, w, l, j)|, LayerBits(vals, w, l, n);
      at + |f| <= |layer| && layer[at..at + |f|] == f
  {
    var before := LayerBits(vals, w, l, n - 1);
    if j < n - 1 {
      FragmentInLayer(vals, w, l, j, n - 1);
      var f, at, layer := Fragment(vals, w, l, j), |LayerBits(vals, w, l, j)|, LayerBits(vals, w, l, n);
      assert layer == before + Fragment(vals, w, l, n - 1);
      assert layer[at..at + |f|] == before[at..at + |f|];
    }
  }

  lemma {:induction false} LayerInTree(vals: seq<nat>, w: nat, l: nat, n: nat)
    requires l < n <= w
    ensures var layer, at, tree := LayerBits(vals, w, l, Pow2(l)), |TreeBits(vals, w, l)|, TreeBits(vals, w, n);
      at + |layer| <= |tree| && tree[at..at + |layer|] == layer
  {
    var before := TreeBits(vals, w, n - 1);
    if l < n - 1 {
      LayerInTree(vals, w, l, n - 1);
      var layer, at, tree := LayerBits(vals, w, l, Pow2(l)), |TreeBits(vals, w, l)|, TreeBits(vals, w, n);
      assert tree == before + LayerBits(vals, w, n - 1, Pow2(n - 1));
      assert tree[at..at + |layer|] == before[at..at + |layer|];
    }
  }

  /** Where fragment `j` of layer `l` starts in the flattened tree. */
  function Base(vals: seq<nat>, w: nat, l: nat, j: nat): nat
    requires l < w
  {
    Span(|vals|, l) + Count(vals, 0, Doubled(j, w - l))
  }

  /** The flattened tree holds each fragment in one piece, at its base. */
  lemma FragmentInTree(vals: seq<nat>, w: nat, l: nat, j: nat)
    requires l < w && j < Pow2(l) && Below(vals, Pow2(w))
    ensures var f, at, tree := Fragment(vals, w, l, j), Base(vals, w, l, j), TreeBits(vals, w, w);
      at + |f| <= |tree| && tree[at..at + |f|] == f
  {
    TreeSize(vals, w, l);
    LayerSize(vals, w, l, j);
    FragmentInLayer(vals, w, l, j, Pow2(l));
    LayerInTree(vals, w, l, w);
    var f, layer, tree := Fragment(vals, w, l, j), LayerBits(vals, w, l, Pow2(l)), TreeBits(vals, w, w);
    SliceInSlice(tree, layer, f, Span(|vals|, l), Count(vals, 0, Doubled(j, w - l)));
  }

  lemma SliceInSlice<T>(s: seq<T>, t: seq<T>, u: seq<T>, a: nat, b: nat)
    requires a + |t| <= |s| && s[a..a + |t|] == t
    requires b + |u| <= |t| && t[b..b + |u|] == u
    ensures a + b + |u| <= |s| && s[a + b..a + b + |u|] == u
  {
    forall i | 0 <= i < |u|
      ensures s[a + b + i] == u[i]
    {
      assert u[i] == t[b + i] && t[b + i] == s[a + (b + i)];
    }
    var x := s[a + b..a + b + |u|];
    forall i | 0 <= i < |u|
      ensures x[i] == u[i]
    {
      assert x[i] == s[a + b + i];
    }
    assert x == u;
  }
}
