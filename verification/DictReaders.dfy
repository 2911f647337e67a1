/** Reading a dictionary from a stream: a reader that keeps back the last eight bytes. */
module DictReaders {
  import opened Words
  import opened Results
  import opened ByteStrings

  datatype IoError = UnexpectedEof

  const WITHHELD := 8

  lemma SliceJoin(s: Bytes, a: nat, b: nat, c: nat)
    requires a <= b <= c <= |s|
    ensures s[a..b] + s[b..c] == s[a..c]
  {}

  /** Writes `bytes` into an array from `at` on. */
  method CopyInto(out: array<byte>, at: nat, bytes: Bytes)
    requires at + |bytes| <= out.Length
    modifies out
    ensures out[..at + |bytes|] == old(out[..at]) + bytes
    ensures out[at + |bytes|..] == old(out[at + |bytes|..])
  {
    forall i | 0 <= i < |bytes| {
      out[at + i] := bytes[i];
    }
  }

  /** Writes two pieces to the start of an array. */
  method WriteOut(out: array<byte>, first: Bytes, second: Bytes)
    requires |first| + |second| <= out.Length
    modifies out
    ensures out[..|first| + |second|] == first + second
  {
    CopyInto(out, 0, first);
    if |second| > 0 {
      CopyInto(out, |first|, second);
    }
  }

  /**
   * Passes a stream on, all but its last eight bytes. The stream inside is its whole content and how far it has been
   * read: a read of it may return fewer bytes than asked for, but none only at the end.
   */
  class DontReadLastU64Reader {
    const input: Bytes
    var pos: nat
    /** The eight bytes kept back. */
    var buf: Bytes
    var bufLen: nat
    var initialized: bool

    ghost predicate Valid()
      reads this
    {
      && pos <= |input| && |buf| == WITHHELD
      && (!initialized ==> pos == 0)
      && (initialized && bufLen > 0 ==> Holding(buf, bufLen, input, pos))
    }

    /** The bytes that are still to come out. */
    ghost function Left(): Bytes
      requires Valid()
      reads this
    {
      if initialized && bufLen == 0 then [] else Middle(input, if initialized then pos - WITHHELD else 0)
    }

    constructor (input: Bytes)
      ensures Valid() && this.input == input && !initialized && Left() == Middle(input, 0)
    {
      this.input, pos := input, 0;
      buf := [0, 0, 0, 0, 0, 0, 0, 0];
      bufLen, initialized := 0, false;
    }

    /** One read of the stream inside. */
    method ReadInner(out: array<byte>) returns (n: nat)
      requires pos <= |input|
      modifies this`pos, out
      ensures n <= out.Length && pos == old(pos) + n <= |input|
      ensures n == 0 <==> out.Length == 0 || old(pos) == |input|
      ensures out[..n] == input[old(pos)..pos] && out[n..] == old(out[n..])
    {
      var most := Least(|input| - pos, out.Length);
      n := if most == 0 then 0 else 1;
      while n < most
        invariant n <= most && (n == 0 <==> most == 0)
      {
        if * {
          break;
        }
        n := n + 1;
      }
      forall i | 0 <= i < n {
        out[i] := input[pos + i];
      }
      pos := pos + n;
    }

    /** The first eight bytes go into the buffer: read after read until it is full or nothing comes. */
    method Initialize() returns (ok: bool)
      requires Valid() && !initialized
      modifies this
      ensures Valid() && initialized && Left() == old(Left())
      ensures ok ==> bufLen == WITHHELD
      ensures ok <==> |input| >= WITHHELD
    {
      initialized, bufLen := true, 0;
      var got: Bytes := [];
      while |got| < WITHHELD
        invariant initialized && bufLen == 0 && |buf| == WITHHELD
        invariant |got| <= WITHHELD && pos == |got| <= |input| && got == input[..pos]
        decreases WITHHELD - |got|
      {
        var part := new byte[WITHHELD - |got|];
        ghost var before := pos;
        var n := ReadInner(part);
        if n == 0 {
          return false;
        }
        SliceJoin(input, 0, before, pos);
        got := got + part[..n];
      }
      buf, bufLen := got, WITHHELD;
      ok := true;
    }

    /** Writes the oldest bytes out and keeps the newest eight. */
    method Serve(out: array<byte>, more: Bytes, n: nat)
      requires |buf| == WITHHELD == bufLen && 1 <= n == |more| <= out.Length
      modifies this`bufLen, this`buf, out
      ensures bufLen == WITHHELD
      ensures buf == (old(buf) + more)[n..] && out[..n] == (old(buf) + more)[..n]
    {
      var toOutput := Least(n, out.Length);
      var fromBuf := Least(toOutput, bufLen);
      var held := buf[..bufLen];
      ServeStep(held, more, n, fromBuf);
      WriteOut(out, held[..fromBuf], more[..toOutput - fromBuf]);
      var newBufData := (if fromBuf < bufLen then held[fromBuf..] else []) + more;
      var remaining := newBufData[if toOutput > fromBuf then toOutput - fromBuf else 0..];
      bufLen := Least(|remaining|, WITHHELD);
      buf := remaining[|remaining| - bufLen..];
    }

    /** One read. An empty request ends the stream early; any other is served from the bytes left. */
    method Read(out: array<byte>) returns (r: Result<nat, IoError>)
      requires Valid()
      modifies this, out
      ensures Valid() && initialized
      ensures r.Err? <==> !old(initialized) && |input| < WITHHELD
      ensures r.Err? ==> old(Left()) == Left() == []
      ensures r.Ok? && out.Length == 0 ==> r.value == 0 && Left() == []
      ensures r.Ok? && out.Length > 0 ==> IsServed(old(Left()), Left(), out[..], r.value)
    {
      if !initialized {
        var ok := Initialize();
        if !ok {
          return Err(UnexpectedEof);
        }
      }
      if bufLen == 0 {
        return Ok(0);
      }
      var n := ReadHolding(out);
      r := Ok(n);
    }

    /** A read with the buffer full. */
    method ReadHolding(out: array<byte>) returns (n: nat)
      requires Valid() && initialized && bufLen > 0
      modifies this`bufLen, this`buf, this`pos, out
      ensures Valid()
      ensures out.Length == 0 ==> n == 0 && Left() == []
      ensures out.Length > 0 ==> IsServed(old(Left()), Left(), out[..], n)
    {
      var temp := new byte[out.Length];
      ghost var at, held, before := pos, buf, Left();
      n := ReadInner(temp);
      if n == 0 {
        bufLen := 0;
        return;
      }
      Serve(out, temp[..n], n);
      Served(input, at, n, held, temp[..n], out[..], before);
      assert Left() == before[n..];
    }
  }

  function Least(a: nat, b: nat): nat {
    if a < b then a else b
  }

  /** The bytes from `from` to the part that is kept back. */
  function Middle(input: Bytes, from: nat): Bytes {
    if from + WITHHELD <= |input| then input[from..|input| - WITHHELD] else []
  }

  /** The buffer holds the last eight bytes read. */
  ghost predicate Holding(held: Bytes, len: nat, input: Bytes, pos: nat) {
    len == WITHHELD == |held| && WITHHELD <= pos <= |input| && held == input[pos - WITHHELD..pos]
  }

  /** `n` bytes came out of those left; none came only if none were. */
  ghost predicate IsServed(before: Bytes, after: Bytes, out: Bytes, n: nat) {
    n <= |out| && n <= |before| && out[..n] == before[..n] && after == before[n..] && (n == 0 <==> before == [])
  }

  /** What is written out and what is kept are the two ends of the old buffer and the new bytes together. */
  lemma ServeStep(held: Bytes, more: Bytes, n: nat, fromBuf: nat)
    requires |held| == WITHHELD && |more| == n && fromBuf == Least(n, WITHHELD)
    ensures held[..fromBuf] + more[..n - fromBuf] == (held + more)[..n]
    ensures ((if fromBuf < WITHHELD then held[fromBuf..] else []) + more)[n - fromBuf..] == (held + more)[n..]
    ensures |(held + more)[n..]| == WITHHELD
  {}

  /** Those two ends, in terms of the whole input. */
  lemma Served(input: Bytes, pos: nat, n: nat, held: Bytes, more: Bytes, out: Bytes, before: Bytes)
    requires Holding(held, WITHHELD, input, pos) && 1 <= n <= |out| && pos + n <= |input| && more == input[pos..pos + n]
    requires out[..n] == (held + more)[..n] && before == Middle(input, pos - WITHHELD)
    ensures Holding((held + more)[n..], WITHHELD, input, pos + n)
    ensures IsServed(before, Middle(input, pos + n - WITHHELD), out, n)
  {
    assert held + more == input[pos - WITHHELD..pos + n];
  }

  lemma JoinServed(all: Bytes, out: Bytes, before: Bytes, after: Bytes, chunk: Bytes, n: nat)
    requires all == out + before && IsServed(before, after, chunk, n)
    ensures all == out + chunk[..n] + after
    ensures after == [] || |out + chunk[..n]| >= |out| + 1
  {
    assert before == before[..n] + before[n..];
  }

  /** One non-empty read into an array of its own. */
  method ReadChunk(reader: DontReadLastU64Reader, request: nat, ghost all: Bytes, ghost out: Bytes)
      returns (piece: Bytes)
    requires reader.Valid() && request >= 1 && |reader.input| >= WITHHELD
    requires all == out + reader.Left()
    modifies reader
    ensures reader.Valid() && all == out + piece + reader.Left()
    ensures reader.Left() == [] || |out + piece| >= |out| + 1
  {
    ghost var before := reader.Left();
    var chunk := new byte[request];
    var r := reader.Read(chunk);
    JoinServed(all, out, before, reader.Left(), chunk[..], r.value);
    piece := chunk[..][..r.value];
  }

  /**
   * A run of non-empty reads, whatever their sizes and however the stream inside is chopped up: what came out and what
   * is left are the input but for its last eight bytes, and enough reads leave nothing.
   */
  method ReadRun(input: Bytes, requests: seq<nat>) returns (out: Bytes, ghost left: Bytes)
    requires |input| >= WITHHELD && forall i :: 0 <= i < |requests| ==> requests[i] >= 1
    ensures out + left == input[..|input| - WITHHELD]
    ensures |requests| >= |input| - WITHHELD ==> out == input[..|input| - WITHHELD]
  {
    var reader := new DontReadLastU64Reader(input);
    ghost var all := reader.Left();
    out := [];
    for i := 0 to |requests|
      invariant fresh(reader) && reader.Valid() && reader.input == input
      invariant all == out + reader.Left()
      invariant reader.Left() == [] || |out| >= i
    {
      var piece := ReadChunk(reader, requests[i], all, out);
      out := out + piece;
    }
    left := reader.Left();
  }
}
