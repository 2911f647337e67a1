/** Bit streams written out word by word, with one word being filled. */
module BitStreams {
  import opened Words

  /** The bits already written out, and the top `offset` bits of the word being filled, spell `bits`. */
  ghost predicate Spells(written: seq<bool>, current: Word, offset: nat, bits: seq<bool>) {
    && offset < 64
    && |written| % 64 == 0
    && |bits| == |written| + offset
    && (forall i :: 0 <= i < |written| ==> written[i] == bits[i])
    && (forall i :: 0 <= i < 64 ==> current[i] == (i < offset && bits[|written| + i]))
  }

  /** `padded` is `bits` followed by zeros, up to a whole word. */
  ghost predicate IsPaddedTo(padded: seq<bool>, bits: seq<bool>) {
    padded == bits + Zeros((|bits| + 63) / 64 * 64 - |bits|)
  }

  /** The words of `data` spell `bits`, padded with zeros to a whole word. */
  ghost predicate IsPadded(data: seq<byte>, bits: seq<bool>) {
    |data| == (|bits| + 63) / 64 * 8 && IsPaddedTo(BufferBits(data), bits)
  }

  lemma WordsAndRest(written: nat, offset: nat, total: nat)
    requires written % 64 == 0 && offset < 64 && total == written + offset
    ensures total % 64 == offset && (total + 63) / 64 * 64 == written + if offset == 0 then 0 else 64
  {}

  lemma WindowsAgree(s: seq<bool>, t: seq<bool>, w: seq<bool>, n: nat)
    requires n + |w| <= |s| && n + |w| <= |t|
    requires forall i :: 0 <= i < |w| ==> w[i] == s[n + i]
    requires forall i :: 0 <= i < |w| ==> w[i] == t[n + i]
    ensures forall i :: n <= i < n + |w| ==> s[i] == t[i]
  {
    forall i | n <= i < n + |w|
      ensures s[i] == t[i]
    {
      assert w[i - n] == s[n + (i - n)] && w[i - n] == t[n + (i - n)];
    }
  }

  /** Flushing the last word pads the bits to a whole number of words. */
  lemma Flushed(written: seq<bool>, current: Word, offset: nat, bits: seq<bool>, written': seq<bool>)
    requires Spells(written, current, offset, bits)
    requires if offset != 0 then Extends(written, current, written') else written' == written
    ensures |bits| % 64 == offset
    ensures IsPaddedTo(written', bits)
  {
    WordsAndRest(|written|, offset, |bits|);
    var padded := bits + Zeros((|bits| + 63) / 64 * 64 - |bits|);
    if offset != 0 {
      WindowsAgree(written', padded, current, |written|);
    }
    assert written' == padded;
  }
}
