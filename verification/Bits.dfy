/** Bit sequences: the naive rank and select that every index must agree with. */
module Bits {

  /** Number of positions below `i` that hold `b`: a plain scan. */
  function Rank(s: seq<bool>, b: bool, i: nat): (r: nat)
    requires i <= |s|
    ensures r <= i
  {
    if i == 0 then 0 else Rank(s, b, i - 1) + (if s[i - 1] == b then 1 else 0)
  }

  lemma {:induction false} RankCounts(s: seq<bool>, b: bool, i: nat)
    requires i <= |s|
    ensures Rank(s, b, i) == |set k: nat | k < i && s[k] == b|
  {
    if i > 0 {
      RankCounts(s, b, i - 1);
      var before, now := set k: nat | k < i - 1 && s[k] == b, set k: nat | k < i && s[k] == b;
      assert now == before + if s[i - 1] == b then {i - 1} else {};
    }
  }

  /** `p` is the `k`-th position (counting from 1) at or after `start` that holds `b`. */
  ghost predicate IsKth(s: seq<bool>, b: bool, start: nat, k: nat, p: nat)
    requires start <= |s|
  {
    start <= p < |s| && s[p] == b && Rank(s, b, p) + 1 == Rank(s, b, start) + k
  }

  lemma {:induction false} RankComplement(s: seq<bool>, i: nat)
    requires i <= |s|
    ensures Rank(s, true, i) + Rank(s, false, i) == i
  {
    if i > 0 {
      RankComplement(s, i - 1);
    }
  }

  lemma {:induction false} RankMonotone(s: seq<bool>, b: bool, i: nat, j: nat)
    requires i <= j <= |s|
    ensures Rank(s, b, i) <= Rank(s, b, j) <= Rank(s, b, i) + (j - i)
    decreases j
  {
    if i < j {
      RankMonotone(s, b, i, j - 1);
    }
  }

  /** Rank only looks at the bits below its index. */
  lemma {:induction false} RankAgrees(s: seq<bool>, t: seq<bool>, b: bool, i: nat)
    requires i <= |s| && i <= |t|
    requires forall k :: 0 <= k < i ==> s[k] == t[k]
    ensures Rank(s, b, i) == Rank(t, b, i)
  {
    if i > 0 {
      RankAgrees(s, t, b, i - 1);
    }
  }

  /** The bits of `s` from `i` on, ranked on their own. */
  lemma {:induction false} RankOfWindow(s: seq<bool>, t: seq<bool>, b: bool, i: nat, j: nat)
    requires i + j <= |s| && j <= |t|
    requires forall k :: 0 <= k < j ==> t[k] == s[i + k]
    ensures Rank(s, b, i + j) == Rank(s, b, i) + Rank(t, b, j)
  {
    if j > 0 {
      RankOfWindow(s, t, b, i, j - 1);
      assert s[i + j - 1] == t[j - 1];
    }
  }

  lemma {:induction false} RankOfZeros(s: seq<bool>, i: nat)
    requires i <= |s| && forall k :: 0 <= k < i ==> !s[k]
    ensures Rank(s, true, i) == 0
  {
    if i > 0 {
      RankOfZeros(s, i - 1);
    }
  }

  lemma KthIsUnique(s: seq<bool>, b: bool, start: nat, k: nat, p: nat, q: nat)
    requires start <= |s| && IsKth(s, b, start, k, p) && IsKth(s, b, start, k, q)
    ensures p == q
  {
    if p < q {
      RankMonotone(s, b, p + 1, q);
    } else if q < p {
      RankMonotone(s, b, q + 1, p);
    }
  }

  /** A range holds a `k`-th `b` exactly when it holds at least `k` of them. */
  lemma {:induction false} KthExists(s: seq<bool>, b: bool, start: nat, end: nat, k: nat) returns (p: nat)
    requires start <= end <= |s| && k >= 1
    requires Rank(s, b, end) >= Rank(s, b, start) + k
    ensures p < end && IsKth(s, b, start, k, p)
    decreases end
  {
    if start == end {
      assert false;
    }
    p := end - 1;
    if Rank(s, b, p) >= Rank(s, b, start) + k {
      p := KthExists(s, b, start, p, k);
    }
  }

  lemma KthWithinCount(s: seq<bool>, b: bool, start: nat, end: nat, k: nat, p: nat)
    requires start <= end <= |s|
    requires IsKth(s, b, start, k, p)
    ensures p < end <==> Rank(s, b, end) >= Rank(s, b, start) + k
  {
    if p < end {
      RankMonotone(s, b, p + 1, end);
    } else {
      RankMonotone(s, b, end, p);
    }
  }
}
