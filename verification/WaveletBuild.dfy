/** Building a wavelet tree: every number is routed through one fragment per layer. */
module WaveletBuild {
  import opened Words
  import opened RankSelect
  import opened WaveletLayout
  import opened WaveletTrees
  import L = LogArrays

  datatype FragmentBuilder = FragmentBuilder(start: nat, half: nat, end: nat, bits: seq<bool>) {
    /** A number outside the fragment's interval is ignored. */
    function Push(num: nat): FragmentBuilder {
      if num < start || num >= end then this
      else this.(bits := bits + [num >= half])
    }
  }

  function NewFragment(start: nat, end: nat): FragmentBuilder {
    FragmentBuilder(start, (start + end) / 2, end, [])
  }

  /** Fragment `j` of layer `l` after all of `vals` have gone through. */
  function FragmentFor(vals: seq<nat>, w: nat, l: nat, j: nat): FragmentBuilder
    requires l < w
  {
    FragmentBuilder(Doubled(j, w - l), Doubled(2 * j + 1, w - l - 1), Doubled(j + 1, w - l), Fragment(vals, w, l, j))
  }

  function LayerFragments(vals: seq<nat>, w: nat, l: nat, j: nat): (s: seq<FragmentBuilder>)
    requires l < w
    ensures |s| == j
  {
    if j == 0 then [] else LayerFragments(vals, w, l, j - 1) + [FragmentFor(vals, w, l, j - 1)]
  }

  /** All fragments of the first `l` layers, in the order they are flattened. */
  function TreeFragments(vals: seq<nat>, w: nat, l: nat): (s: seq<FragmentBuilder>)
    requires l <= w
    ensures |s| == Pow2(l) - 1
  {
    if l == 0 then [] else TreeFragments(vals, w, l - 1) + LayerFragments(vals, w, l - 1, Pow2(l - 1))
  }

  function Flatten(fragments: seq<FragmentBuilder>): seq<bool> {
    if fragments == [] then []
    else Flatten(fragments[..|fragments| - 1]) + fragments[|fragments| - 1].bits
  }

  lemma {:induction false} FlattenAppend(a: seq<FragmentBuilder>, b: seq<FragmentBuilder>)
    ensures Flatten(a + b) == Flatten(a) + Flatten(b)
  {
    if b == [] {
      assert a + b == a;
    } else {
      var init, last := b[..|b| - 1], b[|b| - 1].bits;
      assert (a + b)[..|a + b| - 1] == a + init;
      FlattenAppend(a, init);
      assert (Flatten(a) + Flatten(init)) + last == Flatten(a) + (Flatten(init) + last);
    }
  }

  lemma {:induction false} FlattenLayer(vals: seq<nat>, w: nat, l: nat, j: nat)
    requires l < w
    ensures Flatten(LayerFragments(vals, w, l, j)) == LayerBits(vals, w, l, j)
  {
    if j > 0 {
      FlattenLayer(vals, w, l, j - 1);
      var s := LayerFragments(vals, w, l, j);
      assert s[..|s| - 1] == LayerFragments(vals, w, l, j - 1);
    }
  }

  /** The flattened fragments are the bits of the tree. */
  lemma {:induction false} FlattenTree(vals: seq<nat>, w: nat, l: nat)
    requires l <= w
    ensures Flatten(TreeFragments(vals, w, l)) == TreeBits(vals, w, l)
  {
    if l > 0 {
      FlattenTree(vals, w, l - 1);
      FlattenOneMore(vals, w, l, Pow2(l - 1), TreeFragments(vals, w, l - 1));
    }
  }

  lemma FlattenOneMore(vals: seq<nat>, w: nat, l: nat, n: nat, above: seq<FragmentBuilder>)
    requires 1 <= l <= w && n == Pow2(l - 1)
    ensures Flatten(above + LayerFragments(vals, w, l - 1, n)) == Flatten(above) + LayerBits(vals, w, l - 1, n)
  {
    FlattenLayer(vals, w, l - 1, n);
    FlattenAppend(above, LayerFragments(vals, w, l - 1, n));
  }

  // Routing

  lemma PushOnce(vals: seq<nat>, num: nat, w: nat, l: nat, j: nat)
    requires l < w
    ensures FragmentFor(vals + [num], w, l, j) == FragmentFor(vals, w, l, j).Push(num)
  {
    FragmentRange(j, w - l);
    assert (vals + [num])[..|vals|] == vals;
  }

  lemma {:induction false} PushLayer(vals: seq<nat>, num: nat, w: nat, l: nat, n: nat, j: nat)
    requires l < w && j < n
    ensures LayerFragments(vals, w, l, n)[j] == FragmentFor(vals, w, l, j)
    ensures LayerFragments(vals + [num], w, l, n)[j] == LayerFragments(vals, w, l, n)[j].Push(num)
  {
    if j < n - 1 {
      PushLayer(vals, num, w, l, n - 1, j);
    } else {
      PushOnce(vals, num, w, l, j);
    }
  }

  /** The next number reaches every fragment, most of which ignore it. */
  lemma {:induction false} PushTree(vals: seq<nat>, num: nat, w: nat, l: nat, f: nat)
    requires l <= w && f < Pow2(l) - 1
    ensures TreeFragments(vals + [num], w, l)[f] == TreeFragments(vals, w, l)[f].Push(num)
  {
    if f < Pow2(l - 1) - 1 {
      PushTree(vals, num, w, l - 1, f);
    } else {
      PushLayer(vals, num, w, l - 1, Pow2(l - 1), f - (Pow2(l - 1) - 1));
    }
  }

  lemma {:induction false} FragmentAt(vals: seq<nat>, w: nat, n: nat, l: nat, j: nat, f: nat)
    requires l < n <= w && j < Pow2(l) && f == Pow2(l) - 1 + j
    ensures f < Pow2(n) - 1 && TreeFragments(vals, w, n)[f] == FragmentFor(vals, w, l, j)
  {
    Pow2Monotone(l + 1, n);
    if l < n - 1 {
      Pow2Monotone(l + 1, n - 1);
      FragmentAt(vals, w, n - 1, l, j, f);
    } else {
      PushLayer(vals, 0, w, l, Pow2(l), j);
    }
  }

  lemma {:induction false} DoubledMonotone(a: nat, b: nat, k: nat)
    requires a <= b
    ensures Doubled(a, k) <= Doubled(b, k)
  {
    if k > 0 {
      DoubledMonotone(a, b, k - 1);
    }
  }

  /** Only one fragment of a layer takes the number. */
  lemma OthersIgnore(vals: seq<nat>, w: nat, l: nat, j: nat, num: nat)
    requires l < w && j != FragmentOf(w, num, l)
    ensures FragmentFor(vals, w, l, j).Push(num) == FragmentFor(vals, w, l, j)
  {
    var k, home := w - l, FragmentOf(w, num, l);
    HalvedIsQuotient(num, k);
    if j < home {
      DoubledMonotone(j + 1, home, k);
    } else {
      DoubledMonotone(home + 1, j, k);
    }
  }

  /** Above the boundary the number has been offered, below it has not. */
  ghost predicate OfferedFrom(before: seq<FragmentBuilder>, now: seq<FragmentBuilder>, num: nat, boundary: nat) {
    && |now| == |before|
    && forall f :: 0 <= f < |now| ==> now[f] == if f >= boundary then before[f].Push(num) else before[f]
  }

  lemma OfferedLayer(vals: seq<nat>, w: nat, l: nat, num: nat, before: seq<FragmentBuilder>, now: seq<FragmentBuilder>,
                     index: nat)
    requires l < w && num < Pow2(w) && before == TreeFragments(vals, w, w)
    requires OfferedFrom(before, now, num, Pow2(l + 1) - 1)
    requires index == FragmentOf(w, num, l) + Pow2(l) - 1
    ensures index < |now| && OfferedFrom(before, now[index := now[index].Push(num)], num, Pow2(l) - 1)
  {
    HalvedBound(num, l, w - l);
    FragmentAt(vals, w, w, l, FragmentOf(w, num, l), index);
    var next := now[index := now[index].Push(num)];
    forall f | 0 <= f < |now|
      ensures next[f] == if f >= Pow2(l) - 1 then before[f].Push(num) else before[f]
    {
      if Pow2(l) - 1 <= f < Pow2(l + 1) - 1 && f != index {
        var j := f - (Pow2(l) - 1);
        FragmentAt(vals, w, w, l, j, f);
        OthersIgnore(vals, w, l, j, num);
      }
    }
  }

  /** Pushes a number to its fragment in every layer, the deepest first. */
  method PushToFragments(num: nat, width: nat, fragments: array<FragmentBuilder>, ghost vals: seq<nat>)
    requires num < Pow2(width) && fragments[..] == TreeFragments(vals, width, width)
    modifies fragments
    ensures fragments[..] == TreeFragments(vals + [num], width, width)
  {
    ghost var before := fragments[..];
    var rest := num;
    for i := 0 to width
      invariant rest == Halved(num, i)
      invariant OfferedFrom(before, fragments[..], num, Pow2(width - i) - 1)
    {
      HalvedOuter(num, i + 1);
      rest := rest / 2;
      var index := rest + Pow2(width - i - 1) - 1;
      OfferedLayer(vals, width, width - i - 1, num, before, fragments[..], index);
      fragments[index] := fragments[index].Push(num);
    }
    forall f | 0 <= f < fragments.Length
      ensures fragments[..][f] == TreeFragments(vals + [num], width, width)[f]
    {
      PushTree(vals, num, width, width, f);
    }
  }

  /** The empty fragments, layer by layer. */
  method CreateFragments(width: nat) returns (result: seq<FragmentBuilder>)
    ensures result == TreeFragments([], width, width)
  {
    result := [];
    for i := 0 to width
      invariant result == TreeFragments([], width, i)
    {
      var increment, num := Pow2(width - i), Pow2(i);
      ghost var before := result;
      for j := 0 to num
        invariant result == before + LayerFragments([], width, i, j)
      {
        DoubledIsProduct(j, width - i);
        DoubledIsProduct(j + 1, width - i);
        FragmentRange(j, width - i);
        result := result + [NewFragment(j * increment, (j + 1) * increment)];
      }
    }
  }

  /** The bits of all fragments, one after another. */
  method JoinFragments(fragments: array<FragmentBuilder>) returns (bits: seq<bool>)
    ensures bits == Flatten(fragments[..])
  {
    bits := [];
    for f := 0 to fragments.Length
      invariant bits == Flatten(fragments[..f])
    {
      assert fragments[..f + 1][..f] == fragments[..f];
      bits := bits + fragments[f].bits;
    }
    assert fragments[..fragments.Length] == fragments[..];
  }

  /** Builds the tree of a sequence of numbers of the given width. */
  method BuildWaveletTree(width: nat, source: seq<nat>) returns (tree: WaveletTree)
    requires width <= 63 && Below(source, Pow2(width))
    requires Span(|source|, width) < WORD && NumBlocks(Span(|source|, width)) <= L.MAX_LOGARRAY_LEN
    ensures tree.numLayers == width && (width > 0 ==> tree.Holds(source))
  {
    var created := CreateFragments(width);
    var fragments := new FragmentBuilder[|created|](i requires 0 <= i < |created| => created[i]);
    assert fragments[..] == created;
    for k := 0 to |source|
      invariant fragments[..] == TreeFragments(source[..k], width, width)
    {
      assert source[..k + 1] == source[..k] + [source[k]];
      PushToFragments(source[k], width, fragments, source[..k]);
    }
    assert source[..|source|] == source;
    var bits := JoinFragments(fragments);
    FlattenTree(source, width, width);
    TreeSize(source, width, width);
    var index := IndexBits(bits);
    tree := WaveletTree(index, width);
  }
}
