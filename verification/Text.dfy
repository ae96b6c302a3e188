/** Strings and the C and C++ comparisons used on them. */
module Text {

  /** `operator<` of std::string, and the order of Python strings. */
  predicate Less(a: string, b: string) {
    b != "" && (a == "" || a[0] < b[0] || (a[0] == b[0] && Less(a[1..], b[1..])))
  }

  /** The character a C string shows at its start: the terminator once it is used up. */
  function Head(s: string): char {
    if s == "" then '\0' else s[0]
  }

  function Tail(s: string): string {
    if s == "" then "" else s[1..]
  }

  /** strncmp (ISO/IEC 9899:1999, section 7.21.4.4): at most n characters, and none
      after a null character. */
  function Strncmp(a: string, b: string, n: nat): int {
    if n == 0 then 0
    else if Head(a) != Head(b) then Head(a) as int - Head(b) as int
    else if Head(a) == '\0' then 0
    else Strncmp(Tail(a), Tail(b), n - 1)
  }

  /** strcmp (section 7.21.4.2 of the same standard). */
  function Strcmp(a: string, b: string): int
    decreases |a|
  {
    if Head(a) != Head(b) then Head(a) as int - Head(b) as int
    else if Head(a) == '\0' then 0
    else Strcmp(Tail(a), Tail(b))
  }

  predicate NulFree(s: string) {
    '\0' !in s
  }

  /** a and b share their first p characters and then a has the smaller one. */
  ghost predicate SmallerAt(a: string, b: string, p: nat) {
    p < |a| && p < |b| && a[..p] == b[..p] && a[p] < b[p]
  }

  /** a differs from b within both, and has the smaller character where they first differ. */
  ghost predicate SmallerAtFirstDifference(a: string, b: string) {
    exists p: nat :: SmallerAt(a, b, p)
  }

  // ---------------------------------------------------------------- the order

  lemma {:induction false} LessIrreflexive(a: string)
    ensures !Less(a, a)
  {
    if a != "" {
      LessIrreflexive(a[1..]);
    }
  }

  lemma {:induction false} LessTransitive(a: string, b: string, c: string)
    requires Less(a, b) && Less(b, c)
    ensures Less(a, c)
  {
    if a != "" && a[0] == b[0] && b[0] == c[0] {
      LessTransitive(a[1..], b[1..], c[1..]);
    }
  }

  lemma {:induction false} LessTotal(a: string, b: string)
    ensures Less(a, b) || a == b || Less(b, a)
  {
    if a != "" && b != "" && a[0] == b[0] {
      LessTotal(a[1..], b[1..]);
      assert a == [a[0]] + a[1..] && b == [b[0]] + b[1..];
    }
  }

  lemma {:induction false} PrefixIsLess(p: string, a: string)
    requires p < a
    ensures Less(p, a)
  {
    if p != "" {
      PrefixIsLess(p[1..], a[1..]);
    }
  }

  /** The strings that begin with p form an interval of the order. */
  lemma {:induction false} PrefixConvex(p: string, a: string, b: string, c: string)
    requires p <= a && p <= c
    requires Less(a, b) && Less(b, c)
    ensures p <= b
  {
    if p != "" {
      assert b != "" && a[0] == p[0] == c[0] == b[0];
      PrefixConvex(p[1..], a[1..], b[1..], c[1..]);
      assert p == [p[0]] + p[1..] && b == [b[0]] + b[1..];
    }
  }

  // ------------------------------------------------- what the C functions decide

  /** On a key as long as the comparison, strncmp decides "prefix of" and
      "smaller at the first difference". */
  lemma {:induction false} StrncmpDecides(key: string, idx: string)
    requires NulFree(key) && NulFree(idx)
    ensures Strncmp(key, idx, |key|) == 0 <==> key <= idx
    ensures Strncmp(key, idx, |key|) < 0 <==> Less(key, idx) && !(key <= idx)
  {
    if key != "" {
      if idx == "" {
        assert key[0] in key;
      } else {
        assert key[0] in key && idx[0] in idx;
        if key[0] == idx[0] {
          assert NulFree(key[1..]) && NulFree(idx[1..]);
          StrncmpDecides(key[1..], idx[1..]);
          assert key == [key[0]] + key[1..] && idx == [idx[0]] + idx[1..];
        }
      }
    }
  }

  lemma SmallerAtSharesHead(a: string, b: string)
    ensures forall p: nat :: SmallerAt(a, b, p) && p > 0 ==> a[0] == b[0]
  {
    forall p: nat | SmallerAt(a, b, p) && p > 0 ensures a[0] == b[0] {
      assert a[..p][0] == b[..p][0];
    }
  }

  lemma {:induction false} LessNotPrefix(key: string, idx: string)
    ensures Less(key, idx) && !(key <= idx) <==> SmallerAtFirstDifference(key, idx)
  {
    if key == "" || idx == "" {
    } else if key[0] != idx[0] {
      SmallerAtSharesHead(key, idx);
      assert SmallerAt(key, idx, 0) <==> key[0] < idx[0];
    } else {
      LessNotPrefix(key[1..], idx[1..]);
      assert key == [key[0]] + key[1..] && idx == [idx[0]] + idx[1..];
      forall p: nat | SmallerAt(key[1..], idx[1..], p) ensures SmallerAt(key, idx, p + 1) {
        assert key[..p + 1] == [key[0]] + key[1..][..p];
        assert idx[..p + 1] == [idx[0]] + idx[1..][..p];
      }
      forall p: nat | SmallerAt(key, idx, p)
        ensures p > 0 && SmallerAt(key[1..], idx[1..], p - 1) {
        if p > 0 {
          assert key[1..][..p - 1] == key[..p][1..];
          assert idx[1..][..p - 1] == idx[..p][1..];
        }
      }
    }
  }

  /** strcmp on null-free text is the string order and string equality. */
  lemma {:induction false} StrcmpDecides(a: string, b: string)
    requires NulFree(a) && NulFree(b)
    ensures Strcmp(a, b) < 0 <==> Less(a, b)
    ensures Strcmp(a, b) == 0 <==> a == b
  {
    if a != "" { assert a[0] in a; }
    if b != "" { assert b[0] in b; }
    if a != "" && b != "" && a[0] == b[0] {
      assert NulFree(a[1..]) && NulFree(b[1..]);
      StrcmpDecides(a[1..], b[1..]);
      assert a == [a[0]] + a[1..] && b == [b[0]] + b[1..];
    }
  }
}
