/** The comparator classes of map-utils.hh. */
module MapUtils {
  import opened Text
  import opened SimpleMaps

  /** The text a C string shows: the characters before its terminator. */
  type CString = s: string | NulFree(s) witness ""

  /** CStringComparator on two C strings. */
  predicate CStringBelow(a: CString, b: CString) {
    Strcmp(a, b) < 0
  }

  predicate CStringEqual(a: CString, b: CString) {
    Strcmp(a, b) == 0
  }

  /** CStringComparator on a std::string and a C string: operator< and operator==. */
  predicate StringBelow(a: string, b: CString) {
    Less(a, b)
  }

  predicate StringEqual(a: string, b: CString) {
    a == b
  }

  /** StringPrefixComparator::operator() */
  predicate PrefixBelow(key: string, idx: string) {
    Strncmp(key, idx, |key|) < 0
  }

  /** StringPrefixComparator::match */
  predicate PrefixMatch(key: string, idx: string) {
    Strncmp(key, idx, |key|) == 0
  }

  lemma LessIsStrictTotal()
    ensures StrictTotal(Less)
  {
    forall a: string ensures !Less(a, a) { LessIrreflexive(a); }
    forall a: string, b: string, c: string | Less(a, b) && Less(b, c) ensures Less(a, c) { LessTransitive(a, b, c); }
    forall a: string, b: string ensures Less(a, b) || a == b || Less(b, a) { LessTotal(a, b); }
  }

  /** strcmp orders C strings as a KEY_COMP must, so a map keyed by them can use it. */
  lemma CStringBelowIsStrictTotal()
    ensures StrictTotal(CStringBelow)
    ensures forall a: CString, b: CString :: CStringEqual(a, b) <==> a == b
  {
    forall a: CString, b: CString
      ensures CStringBelow(a, b) <==> Less(a, b)
      ensures CStringEqual(a, b) <==> a == b
    {
      StrcmpDecides(a, b);
    }
    forall a: CString ensures !CStringBelow(a, a) { LessIrreflexive(a); }
    forall a: CString, b: CString, c: CString | CStringBelow(a, b) && CStringBelow(b, c)
      ensures CStringBelow(a, c)
    {
      LessTransitive(a, b, c);
    }
    forall a: CString, b: CString ensures CStringBelow(a, b) || a == b || CStringBelow(b, a) {
      LessTotal(a, b);
    }
  }

  /** A map keyed by std::string, asked with a C string, answers as if asked with that text. */
  lemma StringFindAgrees<V>(store: seq<(string, V)>, idx: CString)
    requires Sorted(store, Less)
    ensures var it := Exact(Answers(store, StringBelow, idx), Answers(store, StringEqual, idx));
            && it <= |store|
            && (it < |store| <==> idx in AsMap(store))
            && (it < |store| ==> store[it] == (idx, AsMap(store)[idx]))
  {
    LessIsStrictTotal();
    IndexedFindAgrees(store, Less, StringBelow, StringEqual, (i: CString) => i, idx);
  }

  /** A map of C strings in text order can be searched with strcmp. */
  lemma CStringFindAgrees<V>(store: seq<(CString, V)>, less: (CString, CString) -> bool, idx: CString)
    requires Sorted(store, less) && forall a: CString, b: CString :: less(a, b) <==> Less(a, b)
    ensures var it := Exact(Answers(store, CStringBelow, idx), Answers(store, CStringEqual, idx));
            && it <= |store|
            && (it < |store| <==> idx in AsMap(store))
            && (it < |store| ==> store[it] == (idx, AsMap(store)[idx]))
  {
    CStringBelowIsStrictTotal();
    forall a: CString, b: CString ensures CStringBelow(a, b) <==> less(a, b) {
      StrcmpDecides(a, b);
    }
    IndexedFindAgrees(store, CStringBelow, CStringBelow, CStringEqual, (i: CString) => i, idx);
  }
}
