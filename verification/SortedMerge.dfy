/** Merging sorted iterators through a heap that holds the next item of each. */
module SortedMerge {
  import opened Results

  ghost predicate Sorted(s: seq<int>) {
    forall i, j :: 0 <= i < j < |s| ==> s[i] <= s[j]
  }

  /** One iterator: its item in the heap, if it has one left, and what comes after that. */
  datatype Source = Source(head: Option<int>, tail: seq<int>) {
    function Items(): seq<int> {
      (if head.Some? then [head.value] else []) + tail
    }

    /** Only an iterator that has run out has no item in the heap. */
    ghost predicate Valid() {
      head.None? ==> tail == []
    }
  }

  /** Pulls the next item out of an iterator. */
  function Pull(s: seq<int>): (r: Source)
    ensures r.Valid() && r.Items() == s
  {
    if s == [] then Source(None, []) else Source(Some(s[0]), s[1..])
  }

  /** Everything that is still to come. */
  function Left(sources: seq<Source>): multiset<int> {
    if sources == [] then multiset{} else Left(sources[..|sources| - 1]) + multiset(sources[|sources| - 1].Items())
  }

  ghost predicate AllValid(sources: seq<Source>) {
    forall i :: 0 <= i < |sources| ==> sources[i].Valid()
  }

  ghost predicate AllSorted(sources: seq<Source>) {
    forall i :: 0 <= i < |sources| ==> Sorted(sources[i].Items())
  }

  lemma MoveLast(a: multiset<int>, b: multiset<int>, m: multiset<int>, v: int)
    requires a == b + multiset{v}
    ensures a + m == b + m + multiset{v}
  {}

  lemma HeadApart(source: Source, next: Source, a: multiset<int>, v: int)
    requires source.head == Some(v) && next.Items() == source.tail
    ensures a + multiset(source.Items()) == a + multiset(next.Items()) + multiset{v}
  {
    assert multiset([v] + source.tail) == multiset{v} + multiset(source.tail);
  }

  lemma UpdateInit(sources: seq<Source>, ix: nat, next: Source, init: seq<Source>, last: Source)
    requires sources == init + [last] && ix < |init|
    ensures sources[ix := next] == init[ix := next] + [last]
  {}

  /** Replacing one iterator by what is left of it after its head is taken. */
  lemma {:induction false} LeftAfterTake(sources: seq<Source>, ix: nat, next: Source, v: int)
    requires ix < |sources| && sources[ix].head == Some(v) && next.Items() == sources[ix].tail
    ensures Left(sources) == Left(sources[ix := next]) + multiset{v}
    decreases |sources|
  {
    var init, last := sources[..|sources| - 1], sources[|sources| - 1];
    if ix < |init| {
      LeftAfterTake(init, ix, next, v);
      UpdateInit(sources, ix, next, init, last);
      LeftOfLast(sources[ix := next], init[ix := next], last);
      MoveLast(Left(init), Left(init[ix := next]), multiset(last.Items()), v);
    } else {
      UpdateLast(sources, ix, next, init);
      LeftOfLast(sources[ix := next], init, next);
      HeadApart(last, next, Left(init), v);
    }
  }

  lemma UpdateLast(sources: seq<Source>, ix: nat, next: Source, init: seq<Source>)
    requires ix + 1 == |sources| && init == sources[..ix]
    ensures sources[ix := next] == init + [next]
  {}

  lemma LeftOfLast(sources: seq<Source>, init: seq<Source>, last: Source)
    requires sources == init + [last]
    ensures Left(sources) == Left(init) + multiset(last.Items())
  {
    assert sources[..|sources| - 1] == init;
  }

  lemma {:induction false} LeftIn(sources: seq<Source>, v: int) returns (ix: nat)
    requires v in Left(sources)
    ensures ix < |sources| && v in sources[ix].Items()
  {
    var init, last := sources[..|sources| - 1], sources[|sources| - 1];
    if v in last.Items() {
      ix := |init|;
    } else {
      ix := LeftIn(init, v);
    }
  }

  /** No head means nothing left; a least head is a least item. */
  lemma HeadsAreLeast(sources: seq<Source>, ix: nat)
    requires AllValid(sources) && AllSorted(sources) && ix < |sources| && sources[ix].head.Some?
    requires forall j :: 0 <= j < |sources| && sources[j].head.Some? ==> sources[ix].head.value <= sources[j].head.value
    ensures forall v <- Left(sources) :: sources[ix].head.value <= v
  {
    forall v | v in Left(sources)
      ensures sources[ix].head.value <= v
    {
      var j := LeftIn(sources, v);
      var items := sources[j].Items();
      var k :| 0 <= k < |items| && items[k] == v;
      assert items[0] <= items[k];
    }
  }

  lemma {:induction false} NoneLeft(sources: seq<Source>)
    requires AllValid(sources) && forall j :: 0 <= j < |sources| ==> sources[j].head.None?
    ensures Left(sources) == multiset{}
  {
    if sources != [] {
      NoneLeft(sources[..|sources| - 1]);
    }
  }

  class HeapSortedIterator {
    var sources: seq<Source>

    ghost predicate Valid()
      reads this
    {
      AllValid(sources)
    }

    constructor (iters: seq<seq<int>>)
      ensures Valid() && |sources| == |iters| && forall i :: 0 <= i < |iters| ==> sources[i].Items() == iters[i]
    {
      sources := seq(|iters|, i requires 0 <= i < |iters| => Pull(iters[i]));
    }

    /** The top of the heap: the iterator with the least head, the last one among equals. */
    method Peek() returns (top: Option<nat>)
      requires Valid()
      ensures top.None? ==> forall j :: 0 <= j < |sources| ==> sources[j].head.None?
      ensures top.Some? ==> IsTop(sources, top.value)
    {
      top := None;
      for i := 0 to |sources|
        invariant top.None? ==> forall j :: 0 <= j < i ==> sources[j].head.None?
        invariant top.Some? ==> top.value < i && sources[top.value].head.Some?
        invariant top.Some? ==>
          forall j :: 0 <= j < i && sources[j].head.Some? ==> Outranks(sources, top.value, j)
      {
        if sources[i].head.Some? && (top.None? || sources[i].head.value <= sources[top.value].head.value) {
          top := Some(i);
        }
      }
    }

    /** The least item of all, replaced in the heap by the next one of its iterator. */
    method Next() returns (r: Option<int>, ghost ix: nat)
      requires Valid()
      modifies this
      ensures Valid() && (AllSorted(old(sources)) ==> AllSorted(sources))
      ensures Taken(old(sources), sources, r)
      ensures r.Some? ==> IsTop(old(sources), ix) && r == old(sources)[ix].head
      ensures r.Some? ==> sources == old(sources)[ix := Pull(old(sources)[ix].tail)]
    {
      var top := Peek();
      if top.None? {
        NoneLeft(sources);
        return None, 0;
      }
      ix := top.value;
      var place := top.value;
      var next := Pull(sources[place].tail);
      r := Some(sources[place].head.value);
      TakeHead(sources, place, next, r.value);
      sources := sources[place := next];
    }

    /** Running the iterator to its end: all items, in order. */
    method Drain() returns (out: seq<int>)
      requires Valid()
      modifies this
      ensures multiset(out) == old(Left(sources))
      ensures AllSorted(old(sources)) ==> Sorted(out)
    {
      out := [];
      ghost var all, sorted := Left(sources), AllSorted(sources);
      var done := false;
      while !done
        invariant Valid() && (sorted ==> AllSorted(sources) && Drained(out, Left(sources)))
        invariant multiset(out) + Left(sources) == all
        invariant done ==> Left(sources) == multiset{}
        decreases !done, |Left(sources)|
      {
        ghost var before := sources;
        var item, _ := Next();
        if item.None? {
          done := true;
        } else {
          if sorted {
            DrainOne(out, before, sources, item.value);
          }
          out := out + [item.value];
        }
      }
    }
  }

  /** Whether iterator `i` comes before iterator `j` in the heap: by its head, and the later one on a tie. */
  ghost predicate Outranks(sources: seq<Source>, i: nat, j: nat)
    requires i < |sources| && j < |sources| && sources[i].head.Some? && sources[j].head.Some?
  {
    sources[i].head.value < sources[j].head.value || (sources[i].head.value == sources[j].head.value && j <= i)
  }

  ghost predicate IsTop(sources: seq<Source>, ix: nat) {
    && ix < |sources| && sources[ix].head.Some?
    && forall j :: 0 <= j < |sources| && sources[j].head.Some? ==> Outranks(sources, ix, j)
  }

  /** One item was taken, or none was left; of sorted iterators it is a least item. */
  ghost predicate Taken(before: seq<Source>, after: seq<Source>, r: Option<int>) {
    match r
    case None => Left(before) == multiset{} && after == before
    case Some(v) =>
      Left(before) == Left(after) + multiset{v} && (AllSorted(before) ==> forall w <- Left(before) :: v <= w)
  }

  lemma TakeHead(sources: seq<Source>, ix: nat, next: Source, v: int)
    requires AllValid(sources) && ix < |sources| && sources[ix].head == Some(v) && next == Pull(sources[ix].tail)
    requires forall j :: 0 <= j < |sources| && sources[j].head.Some? ==> v <= sources[j].head.value
    ensures Taken(sources, sources[ix := next], Some(v)) && AllValid(sources[ix := next])
    ensures AllSorted(sources) ==> AllSorted(sources[ix := next])
  {
    LeftAfterTake(sources, ix, next, v);
    if AllSorted(sources) {
      HeadsAreLeast(sources, ix);
      TailSorted(sources[ix]);
    }
  }

  /** Sorted so far, and nothing that is left comes before it. */
  ghost predicate Drained(out: seq<int>, left: multiset<int>) {
    Sorted(out) && forall i, w :: 0 <= i < |out| && w in left ==> out[i] <= w
  }

  lemma DrainOne(out: seq<int>, before: seq<Source>, after: seq<Source>, v: int)
    requires Taken(before, after, Some(v)) && AllSorted(before) && Drained(out, Left(before))
    ensures Drained(out + [v], Left(after))
  {
    StillThere(Left(before), Left(after), v);
    SortedPush(out, v);
  }

  lemma StillThere(before: multiset<int>, after: multiset<int>, v: int)
    requires before == after + multiset{v}
    ensures v in before && forall w <- after :: w in before
  {}

  lemma SortedPush(out: seq<int>, v: int)
    requires Sorted(out) && forall i :: 0 <= i < |out| ==> out[i] <= v
    ensures Sorted(out + [v])
  {}

  lemma TailSorted(s: Source)
    requires s.head.Some? && Sorted(s.Items())
    ensures Sorted(s.tail)
  {
    forall i, j | 0 <= i < j < |s.tail|
      ensures s.tail[i] <= s.tail[j]
    {
      assert s.Items()[i + 1] == s.tail[i] && s.Items()[j + 1] == s.tail[j];
    }
  }
}
