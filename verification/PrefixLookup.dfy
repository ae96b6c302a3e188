/** SimpleMap::findFirst and findLast with StringPrefixComparator: which stored key is a
    prefix of an index string.

    The store is sorted by the whole key, but the search asks strncmp, which compares no
    more than the key's own length.  The theorems say when the two orders agree, when the
    lookups are right although they do not, and that no lookup ever returns a wrong key. */
module PrefixLookup {
  import opened Bisect
  import opened Text
  import opened SimpleMaps
  import opened MapUtils

  // ------------------------------------------------------------ the lookups

  ghost function BelowAnswers(keys: seq<string>, idx: string): seq<bool> {
    seq(|keys|, i requires 0 <= i < |keys| => PrefixBelow(keys[i], idx))
  }

  ghost function MatchAnswers(keys: seq<string>, idx: string): seq<bool> {
    seq(|keys|, i requires 0 <= i < |keys| => PrefixMatch(keys[i], idx))
  }

  ghost function FindFirst(keys: seq<string>, idx: string): nat {
    First(BelowAnswers(keys, idx), MatchAnswers(keys, idx))
  }

  ghost function FindLast(keys: seq<string>, idx: string): nat {
    Last(BelowAnswers(keys, idx), MatchAnswers(keys, idx))
  }

  ghost function Keys<V>(store: seq<(string, V)>): seq<string> {
    seq(|store|, i requires 0 <= i < |store| => store[i].0)
  }

  /** FindFirst and FindLast are what the methods of the map return. */
  method LongestStoredPrefix<V>(m: SimpleMap<string, V>, idx: string) returns (it: nat)
    ensures it == FindLast(Keys(m.store), idx) <= |m.store|
  {
    var cost;
    it, cost := m.FindLast(idx, PrefixBelow, PrefixMatch);
    assert Answers(m.store, PrefixBelow, idx) == BelowAnswers(Keys(m.store), idx);
    assert Answers(m.store, PrefixMatch, idx) == MatchAnswers(Keys(m.store), idx);
  }

  method ShortestStoredPrefix<V>(m: SimpleMap<string, V>, idx: string) returns (it: nat)
    ensures it == FindFirst(Keys(m.store), idx) <= |m.store|
  {
    var cost;
    it, cost := m.FindFirst(idx, PrefixBelow, PrefixMatch);
    assert Answers(m.store, PrefixBelow, idx) == BelowAnswers(Keys(m.store), idx);
    assert Answers(m.store, PrefixMatch, idx) == MatchAnswers(Keys(m.store), idx);
  }

  // ------------------------------------------------------------ what they are for

  ghost predicate SortedKeys(keys: seq<string>) {
    forall i, j :: 0 <= i < j < |keys| ==> Less(keys[i], keys[j])
  }

  ghost predicate NulFreeKeys(keys: seq<string>) {
    forall i :: 0 <= i < |keys| ==> NulFree(keys[i])
  }

  /** A store as `insert` keeps it, holding C strings. */
  ghost predicate Store(keys: seq<string>) {
    SortedKeys(keys) && NulFreeKeys(keys)
  }

  ghost predicate IsPrefixAt(keys: seq<string>, idx: string, f: nat) {
    f < |keys| && keys[f] <= idx
  }

  ghost predicate IsShortest(keys: seq<string>, idx: string, f: nat) {
    IsPrefixAt(keys, idx, f) && forall g: nat :: IsPrefixAt(keys, idx, g) ==> |keys[f]| <= |keys[g]|
  }

  ghost predicate IsLongest(keys: seq<string>, idx: string, f: nat) {
    IsPrefixAt(keys, idx, f) && forall g: nat :: IsPrefixAt(keys, idx, g) ==> |keys[g]| <= |keys[f]|
  }

  /** r is the shortest stored prefix of idx, or end() when there is none. */
  ghost predicate FirstIsRight(keys: seq<string>, idx: string, r: nat) {
    if r == |keys| then forall g: nat :: !IsPrefixAt(keys, idx, g) else IsShortest(keys, idx, r)
  }

  ghost predicate LastIsRight(keys: seq<string>, idx: string, r: nat) {
    if r == |keys| then forall g: nat :: !IsPrefixAt(keys, idx, g) else IsLongest(keys, idx, r)
  }

  lemma {:induction false} LessAcross(keys: seq<string>, i: nat, j: nat)
    requires forall k :: 0 < k < |keys| ==> Less(keys[k - 1], keys[k])
    requires i < j < |keys|
    ensures Less(keys[i], keys[j])
    decreases j
  {
    if i < j - 1 {
      LessAcross(keys, i, j - 1);
      LessTransitive(keys[i], keys[j - 1], keys[j]);
    }
  }

  lemma SortedByNeighbours(keys: seq<string>)
    requires forall k :: 0 < k < |keys| ==> Less(keys[k - 1], keys[k])
    ensures SortedKeys(keys)
  {
    forall i, j | 0 <= i < j < |keys| ensures Less(keys[i], keys[j]) {
      LessAcross(keys, i, j);
    }
  }

  /** A stored prefix of a stored key is a prefix of all that stands between them. */
  lemma PrefixOfAllBetween(keys: seq<string>, i: nat, m: nat, j: nat)
    requires SortedKeys(keys) && i < m <= j < |keys| && keys[i] <= keys[j]
    ensures keys[i] <= keys[m]
  {
    if m < j {
      PrefixConvex(keys[i], keys[i], keys[m], keys[j]);
    }
  }

  /** One set of keys has one sorted arrangement. */
  lemma {:induction false} SortedKeysUnique(a: seq<string>, b: seq<string>)
    requires SortedKeys(a) && SortedKeys(b) && forall k :: k in a <==> k in b
    ensures a == b
  {
    assert b != [] ==> b[0] in b;
    if a != [] {
      assert a[0] in b && b[0] in a;
      FirstIsLeast(a, b[0]);
      FirstIsLeast(b, a[0]);
      if a[0] != b[0] { LessTransitive(a[0], b[0], a[0]); LessIrreflexive(a[0]); }
      forall k ensures k in a[1..] <==> k in b[1..] {
        RestOmitsFirst(a, k);
        RestOmitsFirst(b, k);
      }
      SortedKeysUnique(a[1..], b[1..]);
    }
  }

  lemma FirstIsLeast(keys: seq<string>, k: string)
    requires SortedKeys(keys) && k in keys
    ensures k == keys[0] || Less(keys[0], k)
  {
    var i :| 0 <= i < |keys| && keys[i] == k;
  }

  lemma RestOmitsFirst(keys: seq<string>, k: string)
    requires SortedKeys(keys) && keys != []
    ensures k in keys[1..] <==> k in keys && k != keys[0]
  {
    LessIrreflexive(keys[0]);
  }

  /** What a right findLast means for a caller with any stored name in mind. */
  lemma LastRightMeans(keys: seq<string>, idx: string, r: nat, name: string)
    requires LastIsRight(keys, idx, r) && name in keys && name <= idx
    ensures r < |keys| && keys[r] <= idx && |name| <= |keys[r]|
  {
    var g: nat :| g < |keys| && keys[g] == name;
    assert IsPrefixAt(keys, idx, g);
  }

  // ------------------------------------------------------------ the answers, read as order

  lemma AnswersMean(keys: seq<string>, idx: string, i: nat)
    requires Store(keys) && NulFree(idx) && i < |keys|
    ensures MatchAnswers(keys, idx)[i] <==> IsPrefixAt(keys, idx, i)
    ensures BelowAnswers(keys, idx)[i] <==> Less(keys[i], idx) && !IsPrefixAt(keys, idx, i)
    ensures BelowAnswers(keys, idx)[i] <==> SmallerAtFirstDifference(keys[i], idx)
    ensures !(BelowAnswers(keys, idx)[i] && MatchAnswers(keys, idx)[i])
  {
    StrncmpDecides(keys[i], idx);
    LessNotPrefix(keys[i], idx);
  }

  /** An entry before a stored prefix of idx is itself a prefix, or below. */
  lemma BeforeAPrefix(keys: seq<string>, idx: string, i: nat, f: nat)
    requires Store(keys) && NulFree(idx) && i < f && IsPrefixAt(keys, idx, f)
    ensures BelowAnswers(keys, idx)[i] <==> !IsPrefixAt(keys, idx, i)
  {
    AnswersMean(keys, idx, i);
    if keys[f] != idx {
      PrefixIsLess(keys[f], idx);
      LessTransitive(keys[i], keys[f], idx);
    }
  }

  /** In store order the stored prefixes of one index grow. */
  lemma PrefixesGrow(keys: seq<string>, idx: string, f: nat, g: nat)
    requires Store(keys) && IsPrefixAt(keys, idx, f) && IsPrefixAt(keys, idx, g)
    ensures f < g <==> |keys[f]| < |keys[g]|
  {
    if f < g {
      if |keys[g]| <= |keys[f]| {
        assert keys[g] <= keys[f];
        if keys[g] != keys[f] { PrefixIsLess(keys[g], keys[f]); LessTransitive(keys[f], keys[g], keys[f]); }
        LessIrreflexive(keys[f]);
      }
    } else if g < f && |keys[f]| < |keys[g]| {
      assert keys[f] <= keys[g];
      PrefixIsLess(keys[f], keys[g]);
      LessTransitive(keys[f], keys[g], keys[f]);
      LessIrreflexive(keys[f]);
    }
  }

  /** An entry that answers "below" after a stored prefix of idx extends that prefix. */
  lemma BelowAfterAPrefix(keys: seq<string>, idx: string, f: nat, j: nat)
    requires Store(keys) && NulFree(idx) && f < j < |keys| && IsPrefixAt(keys, idx, f)
    requires BelowAnswers(keys, idx)[j]
    ensures keys[f] <= keys[j]
  {
    AnswersMean(keys, idx, j);
    PrefixConvex(keys[f], keys[f], keys[j], idx);
  }

  // ------------------------------------------------------------ when the orders agree

  /** No stored prefix of idx has a stored extension that is smaller than idx where the
      two first differ. */
  ghost predicate NoSmallerExtension(keys: seq<string>, idx: string) {
    forall i: nat, j: nat :: IsPrefixAt(keys, idx, i) && j < |keys| && keys[i] <= keys[j] ==>
      !SmallerAtFirstDifference(keys[j], idx)
  }

  /** The prefix comparator is partitioned over a sorted store exactly then. */
  lemma PartitionedIff(keys: seq<string>, idx: string)
    requires Store(keys) && NulFree(idx)
    ensures Partitioned(BelowAnswers(keys, idx)) <==> NoSmallerExtension(keys, idx)
  {
    var below := BelowAnswers(keys, idx);
    if NoSmallerExtension(keys, idx) {
      forall i, j | 0 <= i < j < |keys| && below[j] ensures below[i] {
        AnswersMean(keys, idx, i);
        AnswersMean(keys, idx, j);
        LessTransitive(keys[i], keys[j], idx);
        if IsPrefixAt(keys, idx, i) {
          BelowAfterAPrefix(keys, idx, i, j);
        }
      }
    }
    if Partitioned(below) {
      forall i: nat, j: nat | IsPrefixAt(keys, idx, i) && j < |keys| && keys[i] <= keys[j]
        ensures !SmallerAtFirstDifference(keys[j], idx)
      {
        AnswersMean(keys, idx, i);
        AnswersMean(keys, idx, j);
        ExtensionIsLater(keys, i, j);
      }
    }
  }

  lemma SmallerExtensionBreaks(keys: seq<string>, idx: string, i: nat, j: nat, p: nat)
    requires Store(keys) && NulFree(idx) && IsPrefixAt(keys, idx, i)
    requires j < |keys| && keys[i] <= keys[j] && SmallerAt(keys[j], idx, p)
    ensures !Partitioned(BelowAnswers(keys, idx))
  {
    PartitionedIff(keys, idx);
  }

  /** The smallest store that misleads both lookups: "ab" begins "abd", and neither finds it. */
  lemma AbIsMissed()
    ensures var keys := ["ab", "abc"];
            && Store(keys) && "ab" <= "abd"
            && FindFirst(keys, "abd") == FindLast(keys, "abd") == |keys|
            && !FirstIsRight(keys, "abd", FindFirst(keys, "abd"))
            && !LastIsRight(keys, "abd", FindLast(keys, "abd"))
  {
    var keys := ["ab", "abc"];
    PrefixIsLess(keys[0], keys[1]);
    assert Store(keys);
    var below := BelowAnswers(keys, "abd");
    assert SmallerAt(keys[1], "abd", 2);
    AnswersMean(keys, "abd", 1);
    assert below[1] && Mid(0, 2) == 1;
    assert Search(below, 0, 2) == Search(below, 2, 2) == 2;
    assert IsPrefixAt(keys, "abd", 0);
  }

  lemma ExtensionIsLater(keys: seq<string>, i: nat, j: nat)
    requires SortedKeys(keys) && i < |keys| && j < |keys| && keys[i] <= keys[j]
    ensures i <= j
  {
    if j < i {
      if keys[i] != keys[j] {
        PrefixIsLess(keys[i], keys[j]);
        LessTransitive(keys[j], keys[i], keys[j]);
      }
      LessIrreflexive(keys[j]);
    }
  }

  // ------------------------------------------------------------ no lookup is ever wrong

  lemma {:induction false} RunEndIsMaximal(matches: seq<bool>, p: nat)
    requires p < |matches| && matches[p]
    ensures p <= RunEnd(matches, p) < |matches|
    ensures forall q :: p <= q <= RunEnd(matches, p) ==> matches[q]
    ensures RunEnd(matches, p) + 1 < |matches| ==> !matches[RunEnd(matches, p) + 1]
    decreases |matches| - p
  {
    if p + 1 < |matches| && matches[p + 1] {
      RunEndIsMaximal(matches, p + 1);
    }
  }

  /** Both lookups return end() or a stored prefix of idx, partitioned or not. */
  lemma LookupsAreSound(keys: seq<string>, idx: string)
    requires Store(keys) && NulFree(idx)
    ensures var f := FindFirst(keys, idx); f == |keys| || IsPrefixAt(keys, idx, f)
    ensures var l := FindLast(keys, idx); l == |keys| || IsPrefixAt(keys, idx, l)
  {
    var below, matches := BelowAnswers(keys, idx), MatchAnswers(keys, idx);
    SearchSeparates(below, 0, |below|);
    var p := Search(below, 0, |below|);
    if p < |keys| && matches[p] {
      RunEndIsMaximal(matches, p);
      AnswersMean(keys, idx, p);
      AnswersMean(keys, idx, RunEnd(matches, p));
    }
  }

  // ------------------------------------------------------------ when the lookups are right

  lemma ShortestIsFirst(keys: seq<string>, idx: string, f: nat)
    requires Store(keys) && IsPrefixAt(keys, idx, f)
    ensures IsShortest(keys, idx, f) <==> forall g: nat :: g < f ==> !IsPrefixAt(keys, idx, g)
    ensures IsLongest(keys, idx, f) <==> forall g: nat :: g > f ==> !IsPrefixAt(keys, idx, g)
  {
    forall g: nat | IsPrefixAt(keys, idx, g)
      ensures f < g <==> |keys[f]| < |keys[g]|
      ensures g < f <==> |keys[g]| < |keys[f]|
    {
      PrefixesGrow(keys, idx, f, g);
      PrefixesGrow(keys, idx, g, f);
    }
  }

  /** No probe on the way to f meets a smaller extension. */
  ghost predicate PathMissesSmaller(keys: seq<string>, idx: string, f: nat, after: nat) {
    forall q: nat :: Probed(f, 0, |keys|, q) && after < q < |keys| ==> !SmallerAtFirstDifference(keys[q], idx)
  }

  /** findFirst finds the shortest stored prefix of idx exactly when the probes on the way to it
      meet no entry that is smaller than idx at the first difference. */
  lemma FindFirstExact(keys: seq<string>, idx: string, f: nat)
    requires Store(keys) && NulFree(idx) && IsShortest(keys, idx, f)
    ensures FindFirst(keys, idx) == f <==> PathMissesSmaller(keys, idx, f, f)
  {
    var below := BelowAnswers(keys, idx);
    ShortestIsFirst(keys, idx, f);
    AnswersMean(keys, idx, f);
    SearchSeparates(below, 0, |below|);
    SearchEndsAt(below, f, 0, |below|);
    forall q: nat | q < |keys|
      ensures (below[q] <==> q < f) <==> !(f < q && SmallerAtFirstDifference(keys[q], idx))
    {
      AnswersMean(keys, idx, q);
      if q < f { BeforeAPrefix(keys, idx, q, f); }
    }
  }

  /** The first position of the unbroken run of matches that ends at l. */
  ghost function RunStart(matches: seq<bool>, l: nat): nat
    requires l < |matches|
  {
    if l > 0 && matches[l - 1] then RunStart(matches, l - 1) else l
  }

  lemma {:induction false} RunStartIsMaximal(matches: seq<bool>, l: nat)
    requires l < |matches| && matches[l]
    ensures RunStart(matches, l) <= l
    ensures forall q :: RunStart(matches, l) <= q <= l ==> matches[q]
    ensures RunStart(matches, l) > 0 ==> !matches[RunStart(matches, l) - 1]
  {
    if l > 0 && matches[l - 1] {
      RunStartIsMaximal(matches, l - 1);
    }
  }

  /** Scanning forward from p ends at l exactly when p is in the run that ends at l. */
  lemma ScanEndsAt(matches: seq<bool>, p: nat, l: nat)
    requires p < |matches| && l < |matches| && matches[p] && matches[l]
    requires l + 1 < |matches| ==> !matches[l + 1]
    ensures RunEnd(matches, p) == l <==> RunStart(matches, l) <= p <= l
  {
    RunEndIsMaximal(matches, p);
    RunStartIsMaximal(matches, l);
  }

  ghost predicate PathMissesEarlier(keys: seq<string>, idx: string, r: nat) {
    forall q: nat :: Probed(r, 0, |keys|, q) && q < r ==> !IsPrefixAt(keys, idx, q)
  }

  /** findLast ends at the last match l exactly when the search ends at the start of l's run. */
  lemma LastMeetsRunStart(below: seq<bool>, matches: seq<bool>, l: nat)
    requires |below| == |matches| && l < |matches| && matches[l]
    requires forall i :: 0 <= i < |below| ==> !(below[i] && matches[i])
    requires forall i :: l < i < |matches| ==> !matches[i]
    ensures Last(below, matches) == l <==> Search(below, 0, |below|) == RunStart(matches, l)
  {
    var p := Search(below, 0, |below|);
    RunStartIsMaximal(matches, l);
    SearchSeparates(below, 0, |below|);
    if p < |matches| && matches[p] { ScanEndsAt(matches, p, l); }
  }

  /** Which answers on the way to r keep the search from ending there. */
  lemma AnswerBefore(keys: seq<string>, idx: string, l: nat, r: nat, q: nat)
    requires Store(keys) && NulFree(idx) && IsLongest(keys, idx, l) && q < |keys|
    requires r == RunStart(MatchAnswers(keys, idx), l)
    ensures (BelowAnswers(keys, idx)[q] <==> q < r) <==>
            !(q < r && IsPrefixAt(keys, idx, q)) && !(l < q && SmallerAtFirstDifference(keys[q], idx))
  {
    AnswersMean(keys, idx, l);
    AnswersMean(keys, idx, q);
    RunStartIsMaximal(MatchAnswers(keys, idx), l);
    if q < l { BeforeAPrefix(keys, idx, q, l); }
  }

  ghost predicate LastWayClear(keys: seq<string>, idx: string, l: nat)
    requires l < |keys|
  {
    var r := RunStart(MatchAnswers(keys, idx), l);
    PathMissesEarlier(keys, idx, r) && PathMissesSmaller(keys, idx, r, l)
  }

  /** findLast finds the longest stored prefix l of idx exactly when, on the way to the start r
      of the last run of prefixes, the probes meet no earlier prefix and beyond l no entry that is
      smaller than idx at the first difference. */
  lemma FindLastExact(keys: seq<string>, idx: string, l: nat)
    requires Store(keys) && NulFree(idx) && IsLongest(keys, idx, l)
    ensures FindLast(keys, idx) == l <==> LastWayClear(keys, idx, l)
  {
    var below := BelowAnswers(keys, idx);
    var r := RunStart(MatchAnswers(keys, idx), l);
    ShortestIsFirst(keys, idx, l);
    forall i: nat | i < |keys|
      ensures !(below[i] && MatchAnswers(keys, idx)[i]) && (l < i ==> !MatchAnswers(keys, idx)[i])
    {
      AnswersMean(keys, idx, i);
    }
    AnswersMean(keys, idx, l);
    LastMeetsRunStart(below, MatchAnswers(keys, idx), l);
    RunStartIsMaximal(MatchAnswers(keys, idx), l);
    SearchEndsAt(below, r, 0, |below|);
    forall q: nat | q < |keys|
      ensures (below[q] <==> q < r) <==>
              !(q < r && IsPrefixAt(keys, idx, q)) && !(l < q && SmallerAtFirstDifference(keys[q], idx))
    {
      AnswerBefore(keys, idx, l, r, q);
    }
  }

  lemma {:induction false} ShortestExists(keys: seq<string>, idx: string, g: nat) returns (f: nat)
    requires Store(keys) && IsPrefixAt(keys, idx, g)
    ensures IsShortest(keys, idx, f) && f <= g
  {
    if h: nat :| h < g && IsPrefixAt(keys, idx, h) {
      f := ShortestExists(keys, idx, h);
    } else {
      f := g;
      ShortestIsFirst(keys, idx, f);
    }
  }

  lemma {:induction false} LongestExists(keys: seq<string>, idx: string, g: nat) returns (l: nat)
    requires Store(keys) && IsPrefixAt(keys, idx, g)
    ensures IsLongest(keys, idx, l) && g <= l
    decreases |keys| - g
  {
    if h: nat :| h > g && IsPrefixAt(keys, idx, h) {
      l := LongestExists(keys, idx, h);
    } else {
      l := g;
      ShortestIsFirst(keys, idx, l);
    }
  }

  /** findFirst answers right exactly when the way to the shortest stored prefix, if there is
      one, misses every smaller entry behind it. */
  lemma FindFirstRightIff(keys: seq<string>, idx: string)
    requires Store(keys) && NulFree(idx)
    ensures FirstIsRight(keys, idx, FindFirst(keys, idx)) <==>
            forall f: nat :: IsShortest(keys, idx, f) ==> PathMissesSmaller(keys, idx, f, f)
  {
    LookupsAreSound(keys, idx);
    forall f: nat | IsShortest(keys, idx, f)
      ensures FirstIsRight(keys, idx, FindFirst(keys, idx)) <==> PathMissesSmaller(keys, idx, f, f)
    {
      FindFirstExact(keys, idx, f);
      if IsShortest(keys, idx, FindFirst(keys, idx)) {
        PrefixesGrow(keys, idx, f, FindFirst(keys, idx));
        PrefixesGrow(keys, idx, FindFirst(keys, idx), f);
      }
    }
    if g: nat :| IsPrefixAt(keys, idx, g) {
      var f := ShortestExists(keys, idx, g);
    }
  }

  /** findLast answers right exactly when the way to the run of the longest stored prefix, if there
      is one, is clear. */
  lemma FindLastRightIff(keys: seq<string>, idx: string)
    requires Store(keys) && NulFree(idx)
    ensures LastIsRight(keys, idx, FindLast(keys, idx)) <==>
            forall l: nat :: IsLongest(keys, idx, l) ==> LastWayClear(keys, idx, l)
  {
    LookupsAreSound(keys, idx);
    forall l: nat | IsLongest(keys, idx, l)
      ensures LastIsRight(keys, idx, FindLast(keys, idx)) <==> LastWayClear(keys, idx, l)
    {
      FindLastExact(keys, idx, l);
      if IsLongest(keys, idx, FindLast(keys, idx)) {
        PrefixesGrow(keys, idx, l, FindLast(keys, idx));
        PrefixesGrow(keys, idx, FindLast(keys, idx), l);
      }
    }
    if g: nat :| IsPrefixAt(keys, idx, g) {
      var l := LongestExists(keys, idx, g);
    }
  }

  /** The stored prefixes of idx stand side by side. */
  ghost predicate Contiguous(keys: seq<string>, idx: string) {
    forall f: nat, m: nat, l: nat :: f < m < l && IsPrefixAt(keys, idx, f) && IsPrefixAt(keys, idx, l) ==>
      IsPrefixAt(keys, idx, m)
  }

  lemma RunStartsAtShortest(keys: seq<string>, idx: string, f: nat, l: nat)
    requires Store(keys) && NulFree(idx) && Contiguous(keys, idx)
    requires IsShortest(keys, idx, f) && IsLongest(keys, idx, l)
    ensures f == RunStart(MatchAnswers(keys, idx), l) <= l
  {
    var matches := MatchAnswers(keys, idx);
    ShortestIsFirst(keys, idx, f);
    ShortestIsFirst(keys, idx, l);
    forall i: nat | i <= l ensures matches[i] <==> f <= i {
      AnswersMean(keys, idx, i);
    }
    assert matches[l];
    RunStartIsMaximal(matches, l);
    assert matches[RunStart(matches, l)];
  }

  /** With the prefixes side by side and a clear way to the shortest, both lookups are right. */
  lemma RightWhenClear(keys: seq<string>, idx: string)
    requires Store(keys) && NulFree(idx) && Contiguous(keys, idx)
    requires forall f: nat :: IsShortest(keys, idx, f) ==> PathMissesSmaller(keys, idx, f, f)
    ensures FirstIsRight(keys, idx, FindFirst(keys, idx))
    ensures LastIsRight(keys, idx, FindLast(keys, idx))
  {
    FindFirstRightIff(keys, idx);
    LookupsAreSound(keys, idx);
    if g: nat :| IsPrefixAt(keys, idx, g) {
      var f := ShortestExists(keys, idx, g);
      var l := LongestExists(keys, idx, g);
      RunStartsAtShortest(keys, idx, f, l);
      ShortestIsFirst(keys, idx, f);
      FindLastExact(keys, idx, l);
    }
  }

  /** Where the comparator is partitioned, the prefixes of idx stand side by side, findFirst
      returns the shortest, findLast the longest, and both end() when there is none. */
  lemma RightWhenPartitioned(keys: seq<string>, idx: string)
    requires Store(keys) && NulFree(idx) && NoSmallerExtension(keys, idx)
    ensures Contiguous(keys, idx)
    ensures FirstIsRight(keys, idx, FindFirst(keys, idx))
    ensures LastIsRight(keys, idx, FindLast(keys, idx))
  {
    PartitionedIff(keys, idx);
    forall f: nat, m: nat, l: nat | f < m < l && IsPrefixAt(keys, idx, f) && IsPrefixAt(keys, idx, l)
      ensures IsPrefixAt(keys, idx, m)
    {
      BeforeAPrefix(keys, idx, m, l);
      AnswersMean(keys, idx, f);
    }
    forall f: nat | IsShortest(keys, idx, f) ensures PathMissesSmaller(keys, idx, f, f) {
      forall q: nat | f < q < |keys| ensures !SmallerAtFirstDifference(keys[q], idx) {
        AnswersMean(keys, idx, f);
        AnswersMean(keys, idx, q);
      }
    }
    RightWhenClear(keys, idx);
  }

  // ------------------------------------------------------------ stores right for every index

  /** No stored key is a proper prefix of the i-th. */
  ghost predicate Minimal(keys: seq<string>, i: nat)
    requires i < |keys|
  {
    forall g: nat :: IsPrefixAt(keys, keys[i], g) ==> g == i
  }

  /** The way to a minimal key never probes one of its extensions. */
  ghost predicate ProbeSafe(keys: seq<string>) {
    forall i: nat, j: nat :: i < j < |keys| && keys[i] <= keys[j] && Minimal(keys, i) ==>
      !Probed(i, 0, |keys|, j)
  }

  /** c is larger than every character of the keys. */
  ghost predicate AllBelow(keys: seq<string>, c: char) {
    forall i, d :: 0 <= i < |keys| && d in keys[i] ==> d < c
  }

  lemma ShortestIsMinimal(keys: seq<string>, idx: string, f: nat)
    requires Store(keys) && IsShortest(keys, idx, f)
    ensures Minimal(keys, f)
  {
    forall g: nat | IsPrefixAt(keys, keys[f], g) ensures g == f {
      assert IsPrefixAt(keys, idx, g);
      PrefixesGrow(keys, idx, f, g);
      PrefixesGrow(keys, idx, g, f);
    }
  }

  lemma ClearWhenProbeSafe(keys: seq<string>, idx: string, f: nat)
    requires Store(keys) && NulFree(idx) && ProbeSafe(keys) && IsShortest(keys, idx, f)
    ensures PathMissesSmaller(keys, idx, f, f)
  {
    ShortestIsMinimal(keys, idx, f);
    forall q: nat | Probed(f, 0, |keys|, q) && f < q < |keys| ensures !SmallerAtFirstDifference(keys[q], idx) {
      AnswersMean(keys, idx, q);
      if SmallerAtFirstDifference(keys[q], idx) {
        BelowAfterAPrefix(keys, idx, f, q);
      }
    }
  }

  /** findFirst is right for every index string exactly when the store is probe-safe. */
  lemma FindFirstAlwaysRightIff(keys: seq<string>, c: char)
    requires Store(keys) && c != '\0' && AllBelow(keys, c)
    ensures (forall idx :: NulFree(idx) ==> FirstIsRight(keys, idx, FindFirst(keys, idx))) <==> ProbeSafe(keys)
  {
    if ProbeSafe(keys) {
      forall idx | NulFree(idx) ensures FirstIsRight(keys, idx, FindFirst(keys, idx)) {
        forall f: nat | IsShortest(keys, idx, f) ensures PathMissesSmaller(keys, idx, f, f) {
          ClearWhenProbeSafe(keys, idx, f);
        }
        FindFirstRightIff(keys, idx);
      }
    }
    if i: nat, j: nat :| i < j < |keys| && keys[i] <= keys[j] && Minimal(keys, i) && Probed(i, 0, |keys|, j) {
      UnsafeProbeMisleads(keys, i, j, c);
    }
  }

  lemma PrefixWithout(a: string, b: string, c: char)
    requires a <= b + [c] && c !in a
    ensures a <= b
  {
    assert a == (b + [c])[..|a|];
    assert c in b + [c];
    assert a != b + [c];
  }

  /** The index that follows a minimal key with a large character goes astray at its extension. */
  lemma UnsafeProbeMisleads(keys: seq<string>, i: nat, j: nat, c: char)
    requires Store(keys) && c != '\0' && AllBelow(keys, c) && i < j < |keys| && keys[i] <= keys[j] && Minimal(keys, i)
    requires Probed(i, 0, |keys|, j)
    ensures NulFree(keys[i] + [c]) && !FirstIsRight(keys, keys[i] + [c], FindFirst(keys, keys[i] + [c]))
  {
    var idx := keys[i] + [c];
    LongestOfOneMore(keys, i, c);
    forall g: nat | IsPrefixAt(keys, idx, g) ensures g == i {
      PrefixWithout(keys[g], keys[i], c);
      assert IsPrefixAt(keys, keys[i], g);
    }
    SmallerAtOneMore(keys, i, j, c);
    FindFirstRightIff(keys, idx);
  }

  /** Where the unbroken run of stored prefixes of a key that ends with the key begins. */
  ghost function OwnStart(keys: seq<string>, l: nat): nat
    requires l < |keys|
  {
    RunStart(MatchAnswers(keys, keys[l]), l)
  }

  /** The way to a key's own run probes none of its extensions and no prefix of it before the run. */
  ghost predicate LastProbeSafe(keys: seq<string>) {
    forall l: nat, q: nat :: l < |keys| && q < |keys| && Probed(OwnStart(keys, l), 0, |keys|, q) ==>
      !Misleads(keys, l, q)
  }

  ghost predicate Misleads(keys: seq<string>, l: nat, q: nat)
    requires l < |keys| && q < |keys|
  {
    (q < OwnStart(keys, l) && keys[q] <= keys[l]) || (l < q && keys[l] <= keys[q])
  }

  lemma {:induction false} SameRunStart(a: seq<bool>, b: seq<bool>, l: nat)
    requires |a| == |b| && l < |a| && forall i :: 0 <= i <= l ==> a[i] == b[i]
    ensures RunStart(a, l) == RunStart(b, l) <= l
  {
    if l > 0 && a[l - 1] {
      SameRunStart(a, b, l - 1);
    }
  }

  /** The run of the longest prefix depends on that prefix alone. */
  lemma RunOfLongest(keys: seq<string>, idx: string, l: nat)
    requires Store(keys) && NulFree(idx) && IsLongest(keys, idx, l)
    ensures RunStart(MatchAnswers(keys, idx), l) == OwnStart(keys, l) <= l
  {
    forall i: nat | i <= l ensures MatchAnswers(keys, idx)[i] == MatchAnswers(keys, keys[l])[i] {
      AnswersMean(keys, idx, i);
      AnswersMean(keys, keys[l], i);
    }
    SameRunStart(MatchAnswers(keys, idx), MatchAnswers(keys, keys[l]), l);
  }

  lemma LastClearWhenSafe(keys: seq<string>, idx: string, l: nat)
    requires Store(keys) && NulFree(idx) && LastProbeSafe(keys) && IsLongest(keys, idx, l)
    ensures LastWayClear(keys, idx, l)
  {
    RunOfLongest(keys, idx, l);
    forall q: nat | Probed(OwnStart(keys, l), 0, |keys|, q) && q < |keys|
      ensures q < OwnStart(keys, l) ==> !IsPrefixAt(keys, idx, q)
      ensures l < q ==> !SmallerAtFirstDifference(keys[q], idx)
    {
      assert !Misleads(keys, l, q);
      AnswersMean(keys, idx, q);
      if l < q && BelowAnswers(keys, idx)[q] {
        BelowAfterAPrefix(keys, idx, l, q);
      }
    }
  }

  /** A key followed by a large character has that key as its longest stored prefix. */
  lemma LongestOfOneMore(keys: seq<string>, l: nat, c: char)
    requires Store(keys) && c != '\0' && AllBelow(keys, c) && l < |keys|
    ensures NulFree(keys[l] + [c]) && IsLongest(keys, keys[l] + [c], l)
  {
    forall g: nat | IsPrefixAt(keys, keys[l] + [c], g) ensures |keys[g]| <= |keys[l]| {
      PrefixWithout(keys[g], keys[l], c);
    }
  }

  lemma SmallerAtOneMore(keys: seq<string>, l: nat, q: nat, c: char)
    requires Store(keys) && c != '\0' && AllBelow(keys, c) && l < q < |keys| && keys[l] <= keys[q]
    ensures SmallerAt(keys[q], keys[l] + [c], |keys[l]|)
  {
    LessIrreflexive(keys[l]);
    assert keys[l] != keys[q];
    assert keys[q][|keys[l]|] in keys[q];
    assert (keys[l] + [c])[..|keys[l]|] == keys[l];
  }

  lemma UnsafeLastMisleads(keys: seq<string>, l: nat, q: nat, c: char)
    requires Store(keys) && c != '\0' && AllBelow(keys, c) && l < |keys| && q < |keys|
    requires Probed(OwnStart(keys, l), 0, |keys|, q) && Misleads(keys, l, q)
    ensures var idx := keys[l] + [c]; NulFree(idx) && !LastIsRight(keys, idx, FindLast(keys, idx))
  {
    var idx := keys[l] + [c];
    LongestOfOneMore(keys, l, c);
    RunOfLongest(keys, idx, l);
    if l < q { SmallerAtOneMore(keys, l, q, c); }
    FindLastRightIff(keys, idx);
  }

  /** findLast is right for every index string exactly when no key's own run is reached past an
      entry that misleads the search. */
  lemma FindLastAlwaysRightIff(keys: seq<string>, c: char)
    requires Store(keys) && c != '\0' && AllBelow(keys, c)
    ensures (forall idx :: NulFree(idx) ==> LastIsRight(keys, idx, FindLast(keys, idx))) <==> LastProbeSafe(keys)
  {
    if LastProbeSafe(keys) {
      forall idx | NulFree(idx) ensures LastIsRight(keys, idx, FindLast(keys, idx)) {
        forall l: nat | IsLongest(keys, idx, l) ensures LastWayClear(keys, idx, l) {
          LastClearWhenSafe(keys, idx, l);
        }
        FindLastRightIff(keys, idx);
      }
    }
    if l: nat, q: nat :| l < |keys| && q < |keys| && Probed(OwnStart(keys, l), 0, |keys|, q) && Misleads(keys, l, q) {
      UnsafeLastMisleads(keys, l, q, c);
    }
  }

  /** Whatever lies between a key and its extension is a prefix of that extension. */
  ghost predicate Nested(keys: seq<string>) {
    forall i: nat, m: nat, k: nat :: i < m < k < |keys| && keys[i] <= keys[k] ==> keys[m] <= keys[k]
  }

  lemma NestedWhenAdjacent(keys: seq<string>)
    requires forall i: nat, j: nat :: i < j < |keys| && keys[i] <= keys[j] ==> j == i + 1
    ensures Nested(keys)
  {
  }

  /** On a probe-safe store with nested extensions both lookups are right for every index. */
  lemma AlwaysRight(keys: seq<string>, idx: string)
    requires Store(keys) && NulFree(idx) && ProbeSafe(keys) && Nested(keys)
    ensures FirstIsRight(keys, idx, FindFirst(keys, idx))
    ensures LastIsRight(keys, idx, FindLast(keys, idx))
  {
    forall f: nat | IsShortest(keys, idx, f) ensures PathMissesSmaller(keys, idx, f, f) {
      ClearWhenProbeSafe(keys, idx, f);
    }
    forall f: nat, m: nat, l: nat | f < m < l && IsPrefixAt(keys, idx, f) && IsPrefixAt(keys, idx, l)
      ensures IsPrefixAt(keys, idx, m)
    {
      PrefixesGrow(keys, idx, f, l);
      assert keys[f] <= keys[l];
    }
    RightWhenClear(keys, idx);
  }
}
