/** The halving loop of `std::lower_bound` (ISO/IEC 14882:2003, section 25.3.3.1),
    on which every SimpleMap lookup rests.

    The comparator is applied to one fixed index, so what the search sees is a
    vector of answers, one per entry.  Nothing here assumes that the answers are
    partitioned: the prefix comparator of SimpleMap does not always give that. */
module Bisect {

  function Mid(lo: nat, hi: nat): (mid: nat)
    requires lo < hi
    ensures lo <= mid < hi
  {
    lo + (hi - lo) / 2
  }

  /** Where the halving search over the entries lo .. hi ends. */
  ghost function Search(answers: seq<bool>, lo: nat, hi: nat): nat
    requires lo <= hi <= |answers|
    decreases hi - lo
  {
    if lo == hi then lo
    else if answers[Mid(lo, hi)] then Search(answers, Mid(lo, hi) + 1, hi)
    else Search(answers, lo, Mid(lo, hi))
  }

  /** Whatever the answers, the entry before the end point answered true and the
      entry at it false. */
  lemma {:induction false} SearchSeparates(answers: seq<bool>, lo: nat, hi: nat)
    requires lo <= hi <= |answers|
    ensures var first := Search(answers, lo, hi);
            && lo <= first <= hi
            && (lo < first ==> answers[first - 1])
            && (first < hi ==> !answers[first])
    decreases hi - lo
  {
    if lo < hi {
      SearchSeparates(answers, Mid(lo, hi) + 1, hi);
      SearchSeparates(answers, lo, Mid(lo, hi));
    }
  }

  /** Entry q is probed by a search over lo .. hi that ends at `target`.
      This depends on positions alone, never on keys. */
  ghost predicate Probed(target: nat, lo: nat, hi: nat, q: nat)
    requires lo <= hi
    decreases hi - lo
  {
    lo < hi &&
    (q == Mid(lo, hi) ||
     if Mid(lo, hi) < target then Probed(target, Mid(lo, hi) + 1, hi, q)
     else Probed(target, lo, Mid(lo, hi), q))
  }

  /** The probed entries answer as if the answers were partitioned at `target`. */
  ghost predicate PathAgrees(answers: seq<bool>, target: nat, lo: nat, hi: nat)
    requires lo <= hi <= |answers|
  {
    forall q: nat :: Probed(target, lo, hi, q) && q < |answers| ==> (answers[q] <==> q < target)
  }

  /** The search ends at `target` if and only if every entry on the probe path to
      `target` answers as if the answers were partitioned there. */
  lemma {:induction false} SearchEndsAt(answers: seq<bool>, target: nat, lo: nat, hi: nat)
    requires lo <= target <= hi <= |answers|
    ensures Search(answers, lo, hi) == target <==> PathAgrees(answers, target, lo, hi)
    decreases hi - lo
  {
    if lo < hi {
      var mid := Mid(lo, hi);
      assert Probed(target, lo, hi, mid);
      if answers[mid] != (mid < target) {
        SearchSeparates(answers, mid + 1, hi);
        SearchSeparates(answers, lo, mid);
      } else if mid < target {
        SearchEndsAt(answers, target, mid + 1, hi);
      } else {
        SearchEndsAt(answers, target, lo, mid);
      }
    }
  }

  /** All entries before some position answer true and all later ones false. */
  ghost predicate Partitioned(answers: seq<bool>) {
    forall i, j :: 0 <= i < j < |answers| && answers[j] ==> answers[i]
  }

  /** On partitioned answers the search finds the partition point. */
  lemma SearchFindsPartition(answers: seq<bool>)
    requires Partitioned(answers)
    ensures Search(answers, 0, |answers|) <= |answers|
    ensures forall i :: 0 <= i < |answers| ==> (answers[i] <==> i < Search(answers, 0, |answers|))
  {
    SearchSeparates(answers, 0, |answers|);
  }

  /** floor(log2(n)) */
  ghost function Log2(n: nat): nat
    requires n >= 1
  {
    if n == 1 then 0 else 1 + Log2(n / 2)
  }

  ghost function Pow2(k: nat): nat {
    if k == 0 then 1 else 2 * Pow2(k - 1)
  }

  lemma {:induction false} Log2IsFloor(n: nat)
    requires n >= 1
    ensures Pow2(Log2(n)) <= n < Pow2(Log2(n) + 1)
  {
    if n > 1 {
      Log2IsFloor(n / 2);
    }
  }

  lemma {:induction false} Log2Monotonic(m: nat, n: nat)
    requires 1 <= m <= n
    ensures Log2(m) <= Log2(n)
  {
    if m > 1 {
      Log2Monotonic(m / 2, n / 2);
    }
  }

  /** Comparisons allowed for n entries. */
  ghost function MaxComparisons(n: nat): nat {
    if n == 0 then 0 else Log2(n) + 1
  }

  lemma OneComparisonHalves(n: nat)
    requires n > 0
    ensures 1 + MaxComparisons(n / 2) <= MaxComparisons(n)
    ensures 1 + MaxComparisons(n - n / 2 - 1) <= MaxComparisons(n)
  {
    if n - n / 2 - 1 > 0 {
      Log2Monotonic(n - n / 2 - 1, n / 2);
    }
  }

  /** `answers` names what the comparator says of each entry. */
  method LowerBound<E>(s: seq<E>, below: E -> bool, ghost answers: seq<bool>)
    returns (first: nat, comparisons: nat)
    requires |answers| == |s| && forall i :: 0 <= i < |s| ==> answers[i] == below(s[i])
    ensures first == Search(answers, 0, |s|) <= |s|
    ensures comparisons <= MaxComparisons(|s|)
  {
    ghost var bound := MaxComparisons(|s|);
    ghost var goal, last := Search(answers, 0, |s|), |s|;
    SearchSeparates(answers, 0, |s|);
    first, comparisons := 0, 0;
    var len: nat := |s|;
    while len > 0
      invariant first + len == last <= |s|
      invariant Search(answers, first, last) == goal
      invariant comparisons + MaxComparisons(len) <= bound
      decreases len
    {
      var half := len / 2;
      OneComparisonHalves(len);
      assert Mid(first, last) == first + half;
      comparisons := comparisons + 1;
      if below(s[first + half]) {
        first := first + half + 1;
        len := len - half - 1;
      } else {
        last := first + half;
        len := half;
      }
    }
  }
}
