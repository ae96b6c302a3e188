/** The table of type names behind parseValueType and scanValueTypePrefix, the one user of
    findLast with the prefix comparator. */
module ValueTypeTable {
  import opened Bisect
  import opened Common
  import opened Text
  import opened SimpleMaps
  import opened MapUtils
  import opened PrefixLookup

  /** The names initNameTypeTable inserts, in the order SimpleMap keeps them. */
  const NAMES: seq<string> := [
    "Array", "Boolean", "BooleanArray", "Date", "Duration", "Integer", "IntegerArray",
    "NodeCommandHandle", "NodeFailure", "NodeOutcome", "NodeState", "Real", "RealArray",
    "String", "StringArray"]

  /** In the order initNameTypeTable inserts them. */
  const INSERTED: seq<string> := [
    "Boolean", "Integer", "Real", "String", "Date", "Duration", "Array", "BooleanArray",
    "IntegerArray", "RealArray", "StringArray", "NodeState", "NodeOutcome", "NodeFailure",
    "NodeCommandHandle"]

  /** Neighbours in the table whose first is a prefix of the second. */
  ghost predicate HasExtension(i: nat) {
    i == 1 || i == 5 || i == 11 || i == 13
  }

  /** Two names of the table, where they first differ. */
  lemma InOrder(a: string, b: string, p: nat)
    requires SmallerAt(a, b, p)
    ensures Less(a, b) && !(a <= b)
  {
    LessNotPrefix(a, b);
  }

  lemma NeighboursInOrder(i: nat)
    requires i + 1 < |NAMES|
    ensures Less(NAMES[i], NAMES[i + 1])
    ensures NAMES[i] <= NAMES[i + 1] <==> HasExtension(i)
  {
    if HasExtension(i) {
      PrefixIsLess(NAMES[i], NAMES[i + 1]);
    } else {
      InOrder(NAMES[i], NAMES[i + 1], if 7 <= i < 10 then 4 else if i == 3 then 1 else 0);
    }
  }

  lemma NameIsNulFree(i: nat)
    requires i < |NAMES|
    ensures NulFree(NAMES[i])
  {
  }

  lemma TableIsStore()
    ensures Store(NAMES)
  {
    forall i | 0 <= i < |NAMES| ensures NulFree(NAMES[i]) {
      NameIsNulFree(i);
    }
    forall i | 0 < i < |NAMES| ensures Less(NAMES[i - 1], NAMES[i]) {
      NeighboursInOrder(i - 1);
    }
    SortedByNeighbours(NAMES);
  }

  /** The only stored extension of a name is its array type, its neighbour. */
  lemma ExtensionsAreNeighbours(i: nat, j: nat)
    requires i < j < |NAMES| && NAMES[i] <= NAMES[j]
    ensures HasExtension(i) && j == i + 1
  {
    TableIsStore();
    PrefixOfAllBetween(NAMES, i, i + 1, j);
    NeighboursInOrder(i);
    if i + 1 < j {
      PrefixOfAllBetween(NAMES, i, i + 2, j);
      NoSecondExtension(i);
    }
  }

  lemma NoSecondExtension(i: nat)
    requires HasExtension(i) && i + 2 < |NAMES|
    ensures !(NAMES[i] <= NAMES[i + 2])
  {
    assert NAMES[i][0] != NAMES[i + 2][0];
  }

  lemma ProbesMissArrays(i: nat)
    requires HasExtension(i)
    ensures !Probed(i, 0, 15, i + 1)
  {
  }

  /** findLast with the prefix comparator returns the longest type name that begins the text, for
      every text, although the comparator is not partitioned over the table. */
  lemma TableAlwaysRight(text: string)
    requires NulFree(text)
    ensures LastIsRight(NAMES, text, FindLast(NAMES, text))
  {
    TableIsStore();
    assert ProbeSafe(NAMES) by {
      forall i: nat, j: nat | i < j < |NAMES| && NAMES[i] <= NAMES[j] ensures !Probed(i, 0, |NAMES|, j) {
        ExtensionsAreNeighbours(i, j);
        ProbesMissArrays(i);
      }
    }
    forall i: nat, j: nat | i < j < |NAMES| && NAMES[i] <= NAMES[j] ensures j == i + 1 {
      ExtensionsAreNeighbours(i, j);
    }
    NestedWhenAdjacent(NAMES);
    AlwaysRight(NAMES, text);
  }

  /** A text that follows "Boolean" with a character above 'A' is such a case. */
  lemma TableNotPartitioned(text: string)
    requires NulFree(text) && "Boolean" < text && 'A' < text[7]
    ensures !Partitioned(BelowAnswers(NAMES, text))
  {
    TableIsStore();
    NeighboursInOrder(1);
    assert NAMES[2][..7] == text[..7];
    SmallerExtensionBreaks(NAMES, text, 1, 2, 7);
  }

  /** The number of characters scanValueTypePrefix consumes. */
  ghost function ScanLength(text: string): nat {
    var r := FindLast(NAMES, text);
    if r < |NAMES| then |NAMES[r]| else 0
  }

  /** It consumes the longest type name that begins the text, and nothing when none does. */
  lemma ScansLongestName(text: string)
    requires NulFree(text)
    ensures forall name :: name in NAMES && name <= text ==> |name| <= ScanLength(text)
    ensures ScanLength(text) > 0 ==> ScanLength(text) <= |text| && text[..ScanLength(text)] in NAMES
  {
    var r := FindLast(NAMES, text);
    TableAlwaysRight(text);
    forall name | name in NAMES && name <= text ensures |name| <= ScanLength(text) {
      LastRightMeans(NAMES, text, r, name);
    }
    if r < |NAMES| {
      assert text[..|NAMES[r]|] == NAMES[r];
    }
  }

  // ------------------------------------------------------------ how the table comes about

  ghost function Inserts<V>(names: seq<string>, types: seq<V>): seq<Op<string, V>>
    requires |names| == |types|
  {
    seq(|names|, i requires 0 <= i < |names| => Insert(names[i], types[i]))
  }

  lemma {:induction false} InsertsBindNames<V>(names: seq<string>, types: seq<V>, dflt: V)
    requires |names| == |types|
    ensures forall k :: k in RunMap(dflt, Inserts(names, types)).0 <==> k in names
  {
    if names != [] {
      var n := |names| - 1;
      InsertsBindNames(names[..n], types[..n], dflt);
      assert Inserts(names, types)[..n] == Inserts(names[..n], types[..n]);
      assert names == names[..n] + [names[n]];
    }
  }

  /** Each name keeps the type it was inserted with. */
  lemma {:induction false} InsertsBindTypes<V>(names: seq<string>, types: seq<V>, dflt: V, i: nat)
    requires |names| == |types| && i < |names| && NoRepeats(names)
    ensures names[i] in RunMap(dflt, Inserts(names, types)).0
    ensures RunMap(dflt, Inserts(names, types)).0[names[i]] == types[i]
  {
    var n := |names| - 1;
    assert Inserts(names, types)[..n] == Inserts(names[..n], types[..n]);
    InsertsBindNames(names[..n], types[..n], dflt);
    assert names[n] !in names[..n];
    if i < n {
      InsertsBindTypes(names[..n], types[..n], dflt, i);
    }
  }

  lemma SameNames(k: string)
    ensures k in INSERTED <==> k in NAMES
  {
    var place := [1, 5, 11, 13, 3, 4, 0, 2, 6, 12, 14, 10, 9, 8, 7];
    assert forall i :: 0 <= i < 15 ==> INSERTED[i] == NAMES[place[i]];
    var source := [6, 0, 7, 4, 5, 1, 8, 14, 13, 12, 11, 2, 9, 3, 10];
    assert forall i :: 0 <= i < 15 ==> NAMES[i] == INSERTED[source[i]];
  }

  /** Inserting the names into an empty map leaves them in the order of NAMES. */
  lemma TableIsBuilt<V>(types: seq<V>, dflt: V)
    requires |types| == |INSERTED|
    ensures Keys(RunStore(Less, dflt, Inserts(INSERTED, types)).0) == NAMES
  {
    var store := RunStore(Less, dflt, Inserts(INSERTED, types)).0;
    LessIsStrictTotal();
    RunRefines(Less, dflt, Inserts(INSERTED, types));
    SortedIsDistinct(store, Less);
    AsMapBinds(store);
    InsertsBindNames(INSERTED, types, dflt);
    TableIsStore();
    forall k ensures k in Keys(store) <==> k in NAMES {
      SameNames(k);
      if k in Keys(store) {
        var i :| 0 <= i < |Keys(store)| && Keys(store)[i] == k;
        assert store[i].0 == k;
      }
      if k in AsMap(store) {
        var i: nat :| HoldsAt(store, k, i);
        assert Keys(store)[i] == k;
      }
    }
    SortedKeysUnique(Keys(store), NAMES);
  }

  lemma InsertedOnce()
    ensures NoRepeats(INSERTED)
  {
    var place := [1, 5, 11, 13, 3, 4, 0, 2, 6, 12, 14, 10, 9, 8, 7];
    assert forall i :: 0 <= i < 15 ==> INSERTED[i] == NAMES[place[i]];
    TableIsStore();
    forall i, j | 0 <= i < j < |INSERTED| ensures INSERTED[i] != INSERTED[j] {
      NamesDiffer(place[i], place[j]);
    }
  }

  lemma NamesDiffer(i: nat, j: nat)
    requires i < |NAMES| && j < |NAMES| && i != j && Store(NAMES)
    ensures NAMES[i] != NAMES[j]
  {
    LessIrreflexive(NAMES[i]);
    if i < j {
      assert Less(NAMES[i], NAMES[j]);
    } else {
      assert Less(NAMES[j], NAMES[i]);
    }
  }

  /** The table as built, for any types. */
  ghost function Table<V>(types: seq<V>, dflt: V): seq<(string, V)>
    requires |types| == |INSERTED|
  {
    RunStore(Less, dflt, Inserts(INSERTED, types)).0
  }

  /** Every name is bound to its own type, wherever the table keeps it. */
  lemma TableBindsTypes<V>(types: seq<V>, dflt: V, i: nat, place: nat)
    requires |types| == |INSERTED| && i < |INSERTED| && place < |NAMES| && NAMES[place] == INSERTED[i]
    ensures |Table(types, dflt)| == |NAMES| && Table(types, dflt)[place] == (INSERTED[i], types[i])
  {
    var store := Table(types, dflt);
    LessIsStrictTotal();
    RunRefines(Less, dflt, Inserts(INSERTED, types));
    SortedIsDistinct(store, Less);
    AsMapBinds(store);
    TableIsBuilt(types, dflt);
    assert |Keys(store)| == |store| && Keys(store)[place] == store[place].0;
    InsertedOnce();
    InsertsBindTypes(INSERTED, types, dflt, i);
  }

  /** What scanValueTypePrefix does: the length and the type of the longest type name that begins the
      text, or neither. */
  ghost predicate Scans<V>(text: string, types: seq<V>, length: nat, found: Option<V>)
    requires |types| == |INSERTED|
  {
    match found
    case None => length == 0 && forall i :: 0 <= i < |INSERTED| ==> !(INSERTED[i] <= text)
    case Some(t) =>
      exists i :: 0 <= i < |INSERTED| && INSERTED[i] <= text && length == |INSERTED[i]| && t == types[i]
                  && forall j :: 0 <= j < |INSERTED| && INSERTED[j] <= text ==> |INSERTED[j]| <= length
  }

  lemma LongestInserted(text: string)
    requires NulFree(text)
    ensures var r := FindLast(NAMES, text);
            && r <= |NAMES| && (r < |NAMES| ==> NAMES[r] <= text)
            && forall j :: 0 <= j < |INSERTED| && INSERTED[j] <= text ==> r < |NAMES| && |INSERTED[j]| <= |NAMES[r]|
  {
    TableAlwaysRight(text);
    TableIsStore();
    LookupsAreSound(NAMES, text);
    forall j | 0 <= j < |INSERTED| && INSERTED[j] <= text
      ensures FindLast(NAMES, text) < |NAMES| && |INSERTED[j]| <= |NAMES[FindLast(NAMES, text)]|
    {
      SameNames(INSERTED[j]);
      LastRightMeans(NAMES, text, FindLast(NAMES, text), INSERTED[j]);
    }
  }

  lemma InsertedAt(place: nat) returns (i: nat)
    requires place < |NAMES|
    ensures i < |INSERTED| && INSERTED[i] == NAMES[place]
  {
    SameNames(NAMES[place]);
    i :| 0 <= i < |INSERTED| && INSERTED[i] == NAMES[place];
  }

  lemma ScanIsRight<V>(types: seq<V>, dflt: V, text: string)
    requires |types| == |INSERTED| && NulFree(text)
    ensures var r, store := FindLast(NAMES, text), Table(types, dflt);
            && r <= |NAMES| == |store|
            && (if r < |NAMES| then Scans(text, types, |store[r].0|, Some(store[r].1)) else Scans(text, types, 0, None))
  {
    var r := FindLast(NAMES, text);
    LongestInserted(text);
    TableIsBuilt(types, dflt);
    assert |Table(types, dflt)| == |Keys(Table(types, dflt))| == |NAMES|;
    if r < |NAMES| {
      var i := InsertedAt(r);
      TableBindsTypes(types, dflt, i, r);
    }
  }

  /** scanValueTypePrefix; a null pointer is no text. */
  method ScanValueTypePrefix<V>(table: SimpleMap<string, V>, text: Option<string>, ghost types: seq<V>)
    returns (length: nat, result: Option<V>)
    requires |types| == |INSERTED| && table.store == Table(types, table.dflt)
    requires text.Some? ==> NulFree(text.value)
    ensures if text.None? then length == 0 && result == None else Scans(text.value, types, length, result)
  {
    if text.None? {
      return 0, None;
    }
    TableIsBuilt(types, table.dflt);
    ScanIsRight(types, table.dflt, text.value);
    var it := LongestStoredPrefix(table, text.value);
    if it == |table.store| {
      return 0, None;
    }
    return |table.store[it].0|, Some(table.store[it].1);
  }

  /** parseValueType of a C string; `unknown` is UNKNOWN_TYPE. */
  method ParseValueType<V>(table: SimpleMap<string, V>, text: Option<CString>, unknown: V, ghost types: seq<V>)
    returns (result: V)
    requires |types| == |INSERTED| && table.store == Table(types, table.dflt)
    ensures text.None? ==> result == unknown
    ensures forall i :: 0 <= i < |INSERTED| && text == Some(INSERTED[i]) ==> result == types[i]
    ensures text.Some? && text.value !in INSERTED ==> result == unknown
  {
    if text.None? {
      return unknown;
    }
    ghost var store := table.store;
    LessIsStrictTotal();
    RunRefines(Less, table.dflt, Inserts(INSERTED, types));
    StringFindAgrees(store, text.value);
    InsertsBindNames(INSERTED, types, table.dflt);
    InsertedOnce();
    forall i | 0 <= i < |INSERTED|
      ensures INSERTED[i] in AsMap(store) && AsMap(store)[INSERTED[i]] == types[i]
    {
      InsertsBindTypes(INSERTED, types, table.dflt, i);
    }
    var it, cost := table.FindIndexed(text.value, StringBelow, StringEqual);
    if it == |table.store| {
      return unknown;
    }
    return table.store[it].1;
  }
}
