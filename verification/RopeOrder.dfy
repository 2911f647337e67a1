/** The order on dictionary entries: chunk by chunk, without joining the chunks. */
module RopeOrder {
  import opened Results
  import opened ByteStrings
  import opened DictBlocks

  /** The bytes of the chunks from the front on. */
  function Content(part: Bytes, rest: seq<Bytes>): Bytes
    decreases |rest|
  {
    if rest == [] then part else part + Content(rest[0], rest[1..])
  }

  /** How many empty chunks the list ends in. */
  function EmptyEnd(part: Bytes, rest: seq<Bytes>): nat
    decreases |rest|
  {
    if rest == [] then (if part == [] then 1 else 0)
    else
      var n := EmptyEnd(rest[0], rest[1..]);
      if n == |rest| && part == [] then n + 1 else n
  }

  function EmptyEndOf(chunks: seq<Bytes>): nat {
    if chunks == [] then 0 else EmptyEnd(chunks[0], chunks[1..])
  }

  /** What the chunk walk answers: the order of the bytes; on a tie, that of the numbers of empty chunks at the end. */
  function Verdict(p1: Bytes, r1: seq<Bytes>, p2: Bytes, r2: seq<Bytes>): Ordering {
    var a, b := Content(p1, r1), Content(p2, r2);
    if a != b then Compare(a, b) else CompareNumbers(EmptyEnd(p1, r1), EmptyEnd(p2, r2))
  }

  lemma {:induction false} EmptyEndBounds(part: Bytes, rest: seq<Bytes>)
    ensures EmptyEnd(part, rest) <= 1 + |rest|
    ensures EmptyEnd(part, rest) == 1 + |rest| <==> Content(part, rest) == []
    decreases |rest|
  {
    if rest != [] {
      EmptyEndBounds(rest[0], rest[1..]);
    }
  }

  /** No empty chunk at the end: that is what the last chunk says. */
  lemma {:induction false} EmptyEndIsZero(part: Bytes, rest: seq<Bytes>)
    ensures EmptyEnd(part, rest) == 0 <==> ([part] + rest)[|rest|] != []
    decreases |rest|
  {
    if rest != [] {
      EmptyEndIsZero(rest[0], rest[1..]);
      assert ([rest[0]] + rest[1..])[|rest| - 1] == ([part] + rest)[|rest|];
    }
  }

  lemma {:induction false} ContentIsJoined(part: Bytes, rest: seq<Bytes>)
    ensures Content(part, rest) == Joined([part] + rest)
    decreases |rest|
  {
    if rest == [] {
      JoinedPush([], part, []);
      assert [part] + rest == [] + [part];
    } else {
      ContentIsJoined(rest[0], rest[1..]);
      assert [rest[0]] + rest[1..] == rest;
      JoinedCons(part, rest);
    }
  }

  lemma {:induction false} JoinedCons(part: Bytes, rest: seq<Bytes>)
    ensures Joined([part] + rest) == part + Joined(rest)
    decreases |rest|
  {
    if rest == [] {
      assert [part] + rest == [] + [part];
      JoinedPush([], part, []);
    } else {
      var init, last := rest[..|rest| - 1], rest[|rest| - 1];
      JoinedCons(part, init);
      assert [part] + rest == ([part] + init) + [last];
      JoinedPush([part] + init, last, []);
    }
  }

  /** Two different strings of one length decide, whatever follows. */
  lemma SameLengthDecides(p1: Bytes, p2: Bytes, x: Bytes, y: Bytes)
    requires |p1| == |p2| && Compare(p1, p2) != Equal
    ensures p1 + x != p2 + y && Compare(p1 + x, p2 + y) == Compare(p1, p2)
  {
    CompareEqual(p1, p2);
    CompareExtends(p1, p2, x, y);
    CompareEqual(p1 + x, p2 + y);
  }

  /** A string is below each of its extensions. */
  lemma PrefixIsLess(p: Bytes, x: Bytes)
    requires x != []
    ensures p + x != p && Compare(p, p + x) == Less && Compare(p + x, p) == Greater
  {
    CompareAt(p, p + x, |p|);
    CompareAt(p + x, p, |p|);
  }

  function Tail(rest: seq<Bytes>): Bytes {
    if rest == [] then [] else Content(rest[0], rest[1..])
  }

  lemma ContentSplit(part: Bytes, rest: seq<Bytes>)
    ensures Content(part, rest) == part + Tail(rest)
  {}

  /** Dropping equal chunks of one length. */
  lemma DropBoth(p: Bytes, r1: seq<Bytes>, r2: seq<Bytes>)
    requires r1 != [] && r2 != []
    ensures Verdict(p, r1, p, r2) == Verdict(r1[0], r1[1..], r2[0], r2[1..])
  {
    var a, b := Tail(r1), Tail(r2);
    CompareSharedPrefix(p, a, b);
    assert p + a == p + b ==> a == b by {
      assert (p + a)[|p|..] == a && (p + b)[|p|..] == b;
    }
    EmptyEndBounds(r1[0], r1[1..]);
    EmptyEndBounds(r2[0], r2[1..]);
  }

  /** One side runs out first. */
  lemma RunsOut(p: Bytes, rest: seq<Bytes>)
    requires rest != []
    ensures Verdict(p, [], p, rest) == Less && Verdict(p, rest, p, []) == Greater
  {
    if Tail(rest) != [] {
      PrefixIsLess(p, Tail(rest));
    } else {
      assert p + [] == p;
      EmptyEndBounds(rest[0], rest[1..]);
    }
  }

  /** Dropping a chunk on the left and as many bytes on the right. */
  lemma DropLeft(p: Bytes, r1: seq<Bytes>, q: Bytes, r2: seq<Bytes>)
    requires r1 != [] && q != []
    ensures Verdict(p, r1, p + q, r2) == Verdict(r1[0], r1[1..], q, r2)
    ensures Verdict(p + q, r2, p, r1) == Verdict(q, r2, r1[0], r1[1..])
  {
    var a, b := Tail(r1), q + Tail(r2);
    ContentSplit(q, r2);
    assert p + q + Tail(r2) == p + b;
    CompareSharedPrefix(p, a, b);
    CompareSharedPrefix(p, b, a);
    assert p + a == p + b ==> a == b by {
      assert (p + a)[|p|..] == a && (p + b)[|p|..] == b;
    }
    EmptyEndBounds(r1[0], r1[1..]);
    SameEmptyEnd(p + q, q, r2);
  }

  lemma SameEmptyEnd(p: Bytes, q: Bytes, rest: seq<Bytes>)
    requires p != [] && q != []
    ensures EmptyEnd(p, rest) == EmptyEnd(q, rest)
  {}

  lemma LeftRunsOut(p: Bytes, q: Bytes, rest: seq<Bytes>)
    requires q != []
    ensures Verdict(p, [], p + q, rest) == Less && Verdict(p + q, rest, p, []) == Greater
  {
    ContentSplit(p + q, rest);
    assert p + q + Tail(rest) == p + (q + Tail(rest));
    PrefixIsLess(p, q + Tail(rest));
  }

  /** Two parts that differ within their common length decide. */
  lemma PartsDecide(p1: Bytes, r1: seq<Bytes>, p2: Bytes, r2: seq<Bytes>, n: nat)
    requires n <= |p1| && n <= |p2| && Compare(p1[..n], p2[..n]) != Equal
    ensures Verdict(p1, r1, p2, r2) == Compare(p1[..n], p2[..n])
  {
    ContentSplit(p1, r1);
    ContentSplit(p2, r2);
    assert p1 + Tail(r1) == p1[..n] + (p1[n..] + Tail(r1));
    assert p2 + Tail(r2) == p2[..n] + (p2[n..] + Tail(r2));
    SameLengthDecides(p1[..n], p2[..n], p1[n..] + Tail(r1), p2[n..] + Tail(r2));
  }

  /** `cmp` on two chunk lists: the loop that walks both. */
  method CompareChunks(a: seq<Bytes>, b: seq<Bytes>) returns (r: Ordering)
    requires a != [] && b != []
    ensures r == Verdict(a[0], a[1..], b[0], b[1..])
  {
    var part1, rest1, part2, rest2 := a[0], a[1..], b[0], b[1..];
    while true
      invariant Verdict(part1, rest1, part2, rest2) == Verdict(a[0], a[1..], b[0], b[1..])
      decreases |rest1| + |rest2|
    {
      if |part1| == |part2| {
        var order := Compare(part1, part2);
        if order != Equal {
          WholeParts(part1, rest1, part2, rest2);
          return order;
        }
        CompareEqual(part1, part2);
        if rest1 != [] && rest2 != [] {
          DropBoth(part1, rest1, rest2);
          part1, rest1, part2, rest2 := rest1[0], rest1[1..], rest2[0], rest2[1..];
        } else if rest1 == [] && rest2 == [] {
          return Equal;
        } else if rest1 == [] {
          RunsOut(part1, rest2);
          return Less;
        } else {
          RunsOut(part1, rest1);
          return Greater;
        }
      } else if |part1| < |part2| {
        var answer, next := CompareShorter(part1, rest1, part2, rest2);
        if answer != Equal {
          return answer;
        }
        part2 := next;
        part1, rest1 := rest1[0], rest1[1..];
      } else {
        var answer, next := CompareLonger(part1, rest1, part2, rest2);
        if answer != Equal {
          return answer;
        }
        part1 := next;
        part2, rest2 := rest2[0], rest2[1..];
      }
    }
  }

  lemma WholeParts(p1: Bytes, r1: seq<Bytes>, p2: Bytes, r2: seq<Bytes>)
    requires |p1| == |p2| && Compare(p1, p2) != Equal
    ensures Verdict(p1, r1, p2, r2) == Compare(p1, p2)
  {
    assert p1[..|p1|] == p1 && p2[..|p2|] == p2;
    PartsDecide(p1, r1, p2, r2, |p1|);
  }

  /** The left part is shorter: compare it with as much of the right one, and keep what is left of that. */
  method CompareShorter(part1: Bytes, rest1: seq<Bytes>, part2: Bytes, rest2: seq<Bytes>)
      returns (answer: Ordering, next: Bytes)
    requires |part1| < |part2|
    ensures answer != Equal ==> answer == Verdict(part1, rest1, part2, rest2)
    ensures answer == Equal ==>
      rest1 != [] && Verdict(part1, rest1, part2, rest2) == Verdict(rest1[0], rest1[1..], next, rest2)
  {
    var n := |part1|;
    answer, next := Compare(part1, part2[..n]), part2[n..];
    if answer != Equal {
      assert part1[..n] == part1;
      PartsDecide(part1, rest1, part2, rest2, n);
      return;
    }
    CompareEqual(part1, part2[..n]);
    assert part2 == part1 + next;
    if rest1 == [] {
      LeftRunsOut(part1, next, rest2);
      answer := Less;
    } else {
      DropLeft(part1, rest1, next, rest2);
    }
  }

  method CompareLonger(part1: Bytes, rest1: seq<Bytes>, part2: Bytes, rest2: seq<Bytes>)
      returns (answer: Ordering, next: Bytes)
    requires |part1| > |part2|
    ensures answer != Equal ==> answer == Verdict(part1, rest1, part2, rest2)
    ensures answer == Equal ==>
      rest2 != [] && Verdict(part1, rest1, part2, rest2) == Verdict(next, rest1, rest2[0], rest2[1..])
  {
    var n := |part2|;
    answer, next := Compare(part1[..n], part2), part1[n..];
    if answer != Equal {
      assert part2[..n] == part2;
      PartsDecide(part1, rest1, part2, rest2, n);
      return;
    }
    CompareEqual(part1[..n], part2);
    assert part1 == part2 + next;
    if rest2 == [] {
      LeftRunsOut(part2, next, rest1);
      answer := Greater;
    } else {
      DropLeft(part2, rest2, next, rest1);
    }
  }

  // Entries

  lemma EntryContent(chunks: seq<Bytes>)
    requires chunks != []
    ensures Content(chunks[0], chunks[1..]) == Joined(chunks)
    ensures EmptyEndOf(chunks) == 0 <==> chunks[|chunks| - 1] != []
  {
    assert [chunks[0]] + chunks[1..] == chunks;
    ContentIsJoined(chunks[0], chunks[1..]);
    EmptyEndIsZero(chunks[0], chunks[1..]);
  }

  /** What `cmp` answers: the order of the bytes and, on a tie, of the numbers of empty chunks at the end. */
  function EntryOrder(a: SizedDictEntry, b: SizedDictEntry): Ordering {
    if a.ToBytes() != b.ToBytes() then Compare(a.ToBytes(), b.ToBytes())
    else if a.ToBytes() == [] then Equal
    else CompareNumbers(EmptyEndOf(a.Chunks()), EmptyEndOf(b.Chunks()))
  }

  /** `cmp`; nothing where it panics: an entry without any chunk only compares to an empty one. */
  method CompareEntries(a: SizedDictEntry, b: SizedDictEntry) returns (r: Option<Ordering>)
    ensures r.None? <==> (a.Chunks() == [] && b.ToBytes() != []) || (b.Chunks() == [] && a.ToBytes() != [])
    ensures r.Some? ==> r.value == EntryOrder(a, b)
  {
    if |a.ToBytes()| == 0 && |b.ToBytes()| == 0 {
      return Some(Equal);
    }
    NoChunksNoBytes(a);
    NoChunksNoBytes(b);
    if a.Chunks() == [] || b.Chunks() == [] {
      return None;
    }
    EntryContent(a.Chunks());
    EntryContent(b.Chunks());
    var order := CompareChunks(a.Chunks(), b.Chunks());
    r := Some(order);
  }

  lemma NoChunksNoBytes(a: SizedDictEntry)
    ensures a.Chunks() == [] ==> a.ToBytes() == []
  {}

  /** The bytes decide exactly when they differ, are empty, or the entries end in equally many empty chunks. */
  lemma OrderIsOfBytes(a: SizedDictEntry, b: SizedDictEntry)
    ensures EntryOrder(a, b) == Compare(a.ToBytes(), b.ToBytes())
      <==> a.ToBytes() != b.ToBytes() || a.ToBytes() == [] || EmptyEndOf(a.Chunks()) == EmptyEndOf(b.Chunks())
  {
    CompareEqual(a.ToBytes(), b.ToBytes());
  }

  /** On well-ended entries, the dictionary's own, the order is that of the bytes whatever the chunking. */
  lemma WellEndedOrder(a: SizedDictEntry, b: SizedDictEntry)
    requires WellEnded(a) && WellEnded(b)
    ensures EntryOrder(a, b) == Compare(a.ToBytes(), b.ToBytes())
  {
    EntryContent(a.Chunks());
    EntryContent(b.Chunks());
    OrderIsOfBytes(a, b);
  }

  /** `eq`: lengths first, then the walk. */
  method EntriesEqual(a: SizedDictEntry, b: SizedDictEntry) returns (r: bool)
    ensures r <==> a.ToBytes() == b.ToBytes() && (a.ToBytes() == [] || EmptyEndOf(a.Chunks()) == EmptyEndOf(b.Chunks()))
  {
    if |a.ToBytes()| != |b.ToBytes()| {
      return false;
    }
    CompareEqual(a.ToBytes(), b.ToBytes());
    NoChunksNoBytes(a);
    NoChunksNoBytes(b);
    var order := CompareEntries(a, b);
    r := order.value == Equal;
  }

  /** A trailing empty chunk puts an entry above another with the same bytes. */
  lemma EmptyChunkMatters(a: SizedDictEntry, b: SizedDictEntry)
    requires a == Rope([[97], []]) && b == Rope([[97]])
    ensures a.ToBytes() == b.ToBytes() && EntryOrder(a, b) == Greater
  {
    JoinedPush([], [97], []);
    JoinedPush([[97]], [], []);
    assert [] + [[97]] == [[97]];
    assert [[97]] + [[]] == [[97], []];
    EntryContent([[97], []]);
  }
}
