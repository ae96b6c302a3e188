/** Where one text first occurs in another: Python's str.find, and marks whose first occurrence can
    be told from what stands before it. */
module Substrings {
  /** sub occurs in s at i. */
  predicate OccursAt(s: string, sub: string, i: nat) {
    i + |sub| <= |s| && s[i..i + |sub|] == sub
  }

  /** s.find(sub) */
  function Find(s: string, sub: string): int {
    if |s| < |sub| then -1
    else if s[..|sub|] == sub then 0
    else if s == "" then -1
    else
      var r := Find(s[1..], sub);
      if r < 0 then -1 else r + 1
  }

  predicate Contains(s: string, sub: string) {
    Find(s, sub) >= 0
  }

  lemma {:induction false} FindIsFirst(s: string, sub: string)
    ensures Find(s, sub) >= 0 ==> OccursAt(s, sub, Find(s, sub))
    ensures forall i: nat :: OccursAt(s, sub, i) ==> 0 <= Find(s, sub) <= i
  {
    if |s| >= |sub| && s[..|sub|] != sub && s != "" {
      FindIsFirst(s[1..], sub);
      forall i: nat | OccursAt(s, sub, i) ensures i > 0 && OccursAt(s[1..], sub, i - 1) {
        if i > 0 { assert s[1..][i - 1..i - 1 + |sub|] == s[i..i + |sub|]; }
      }
      var r := Find(s[1..], sub);
      if r >= 0 { assert s[r + 1..r + 1 + |sub|] == s[1..][r..r + |sub|]; }
    }
  }

  /** A mark whose first character does not come back in it. */
  ghost predicate Mark(m: string) {
    m != "" && forall i :: 0 < i < |m| ==> m[i] != m[0]
  }

  /** Where two occurrences of m overlap, its first character comes back in it. */
  lemma OverlapRepeats(a: string, m: string, b: string, f: nat)
    requires OccursAt(a + m + b, m, f) && f < |a| < f + |m|
    ensures m[|a| - f] == m[0]
  {
    var s := a + m + b;
    assert s[|a|] == m[0];
    assert s[|a|] == s[f..f + |m|][|a| - f];
  }

  lemma EarlierInFront(a: string, m: string, b: string, f: nat)
    requires OccursAt(a + m + b, m, f) && f + |m| <= |a|
    ensures OccursAt(a, m, f)
  {
    assert a[f..f + |m|] == (a + m + b)[f..f + |m|];
  }

  /** The first occurrence of a mark right after a text without it. */
  lemma FindAfter(a: string, m: string, b: string)
    requires Mark(m) && !Contains(a, m)
    ensures Find(a + m + b, m) == |a|
  {
    var s := a + m + b;
    FindIsFirst(s, m);
    FindIsFirst(a, m);
    assert OccursAt(s, m, |a|) by { assert s[|a|..|a| + |m|] == m; }
    var f := Find(s, m);
    if f < |a| {
      if f + |m| <= |a| {
        EarlierInFront(a, m, b, f);
      } else {
        OverlapRepeats(a, m, b, f);
      }
    }
  }
}
