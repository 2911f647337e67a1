/** Byte strings: shared prefixes and the lexicographic order the dictionary is sorted in. */
module ByteStrings {
  import opened Words

  type Bytes = seq<byte>

  datatype Ordering = Less | Equal | Greater

  function CompareNumbers(a: int, b: int): Ordering {
    if a < b then Less else if a == b then Equal else Greater
  }

  /** The lexicographic order, byte by byte. */
  function Compare(a: Bytes, b: Bytes): Ordering {
    if a == [] && b == [] then Equal
    else if a == [] then Less
    else if b == [] then Greater
    else if a[0] != b[0] then CompareNumbers(a[0], b[0])
    else Compare(a[1..], b[1..])
  }

  ghost predicate Agree(a: Bytes, b: Bytes, n: nat) {
    n <= |a| && n <= |b| && forall i :: 0 <= i < n ==> a[i] == b[i]
  }

  /** The strings agree on `n` bytes and on no more. */
  ghost predicate IsCommonPrefix(a: Bytes, b: Bytes, n: nat) {
    Agree(a, b, n) && (n == |a| || n == |b| || a[n] != b[n])
  }

  function CommonPrefix(a: Bytes, b: Bytes): (n: nat)
    ensures IsCommonPrefix(a, b, n)
  {
    if a == [] || b == [] || a[0] != b[0] then 0
    else
      var n := CommonPrefix(a[1..], b[1..]);
      assert Agree(a, b, n + 1) by {
        forall i | 0 <= i < n + 1
          ensures a[i] == b[i]
        {
          if i > 0 {
            assert a[1..][i - 1] == b[1..][i - 1];
          }
        }
      }
      n + 1
  }

  lemma CommonPrefixIsUnique(a: Bytes, b: Bytes, m: nat, n: nat)
    requires IsCommonPrefix(a, b, m) && IsCommonPrefix(a, b, n)
    ensures m == n
  {}

  /** The order where the strings stop agreeing. */
  function OrderAt(a: Bytes, b: Bytes, n: nat): Ordering
    requires n <= |a| && n <= |b|
  {
    if n == |a| && n == |b| then Equal
    else if n == |a| then Less
    else if n == |b| then Greater
    else CompareNumbers(a[n], b[n])
  }

  /** The first byte that differs decides. */
  lemma {:induction false} CompareAt(a: Bytes, b: Bytes, n: nat)
    requires IsCommonPrefix(a, b, n)
    ensures Compare(a, b) == OrderAt(a, b, n)
  {
    if n > 0 {
      assert a[0] == b[0];
      forall i | 0 <= i < n - 1
        ensures a[1..][i] == b[1..][i]
      {
        assert a[i + 1] == b[i + 1];
      }
      CompareAt(a[1..], b[1..], n - 1);
    }
  }

  lemma CompareEqual(a: Bytes, b: Bytes)
    ensures Compare(a, b) == Equal <==> a == b
  {
    CompareAt(a, b, CommonPrefix(a, b));
  }

  lemma CompareFlips(a: Bytes, b: Bytes)
    ensures Compare(a, b) == Less <==> Compare(b, a) == Greater
  {
    var n := CommonPrefix(a, b);
    CompareAt(a, b, n);
    CompareAt(b, a, n);
  }

  lemma {:induction false} LessIsTransitive(a: Bytes, b: Bytes, c: Bytes)
    requires Compare(a, b) == Less && Compare(b, c) == Less
    ensures Compare(a, c) == Less
  {
    if a != [] && a[0] == b[0] == c[0] {
      LessIsTransitive(a[1..], b[1..], c[1..]);
    }
  }

  /** A shared prefix does not matter to the order. */
  lemma CompareAfterPrefix(a: Bytes, b: Bytes, n: nat, m: nat)
    requires Agree(a, b, n) && m == CommonPrefix(a[n..], b[n..])
    ensures IsCommonPrefix(a, b, n + m)
    ensures Compare(a[n..], b[n..]) == Compare(a, b)
  {
    forall i | n <= i < n + m
      ensures a[i] == b[i]
    {
      assert a[n..][i - n] == b[n..][i - n];
    }
    CompareAt(a, b, n + m);
    CompareAt(a[n..], b[n..], m);
  }

  lemma Associate(a: Bytes, b: Bytes, c: Bytes)
    ensures a + b + c == a + (b + c)
  {}

  method FindCommonPrefix(b1: Bytes, b2: Bytes) returns (common: nat)
    ensures common == CommonPrefix(b1, b2)
  {
    common := 0;
    while common < |b1| && common < |b2|
      invariant Agree(b1, b2, common)
    {
      if b1[common] == b2[common] {
        common := common + 1;
      } else {
        break;
      }
    }
    CommonPrefixIsUnique(b1, b2, common, CommonPrefix(b1, b2));
  }

  method FindCommonPrefixOrd(b1: Bytes, b2: Bytes) returns (common: nat, ordering: Ordering)
    ensures common == CommonPrefix(b1, b2) && ordering == Compare(b1, b2)
  {
    common := FindCommonPrefix(b1, b2);
    CompareAt(b1, b2, common);
    if common == |b1| && |b1| == |b2| {
      ordering := Equal;
    } else if |b1| == common {
      ordering := Less;
    } else if |b2| == common {
      ordering := Greater;
    } else {
      ordering := CompareNumbers(b1[common], b2[common]);
    }
  }

  /** Prefix-free codes: neither string begins the other. */
  ghost predicate PrefixFree(a: Bytes, b: Bytes) {
    var n := CommonPrefix(a, b);
    n < |a| && n < |b|
  }

  /** Once two strings differ, what follows them does not matter. */
  lemma CompareExtends(a: Bytes, b: Bytes, c: Bytes, d: Bytes)
    requires PrefixFree(a, b)
    ensures Compare(a + c, b + d) == Compare(a, b) && PrefixFree(a + c, b + d)
  {
    var n := CommonPrefix(a, b);
    CompareAt(a, b, n);
    CompareAt(a + c, b + d, n);
    CommonPrefixIsUnique(a + c, b + d, n, CommonPrefix(a + c, b + d));
  }

  lemma CompareSharedPrefix(p: Bytes, a: Bytes, b: Bytes)
    ensures Compare(p + a, p + b) == Compare(a, b)
    ensures PrefixFree(p + a, p + b) <==> PrefixFree(a, b)
  {
    var m, n := CommonPrefix(a, b), CommonPrefix(p + a, p + b);
    assert (p + a)[|p|..] == a && (p + b)[|p|..] == b;
    CompareAfterPrefix(p + a, p + b, |p|, m);
    CommonPrefixIsUnique(p + a, p + b, n, |p| + m);
  }
}
