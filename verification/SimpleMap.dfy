/** The sorted vector behind SimpleMap, and its refinement of a finite map. */
module SimpleMaps {
  import opened Bisect
  import opened Common

  // ------------------------------------------------------------ order and store

  /** What KEY_COMP must be for the map to work at all. */
  ghost predicate StrictTotal<K(!new)>(less: (K, K) -> bool) {
    && (forall a :: !less(a, a))
    && (forall a, b, c :: less(a, b) && less(b, c) ==> less(a, c))
    && (forall a, b :: less(a, b) || a == b || less(b, a))
  }

  ghost predicate Sorted<K, V>(store: seq<(K, V)>, less: (K, K) -> bool) {
    forall i, j :: 0 <= i < j < |store| ==> less(store[i].0, store[j].0)
  }

  /** What a comparator answers, entry by entry, for one key or index. */
  ghost function Answers<K, V, I>(store: seq<(K, V)>, test: (K, I) -> bool, index: I): seq<bool> {
    seq(|store|, i requires 0 <= i < |store| => test(store[i].0, index))
  }

  /** Where std::lower_bound ends for one key. */
  ghost function Position<K, V>(store: seq<(K, V)>, less: (K, K) -> bool, key: K): (p: nat)
    ensures p <= |store|
  {
    SearchSeparates(Answers(store, less, key), 0, |store|);
    Search(Answers(store, less, key), 0, |store|)
  }

  /** In a sorted store lower_bound separates the smaller keys from the others, and the key,
      if stored, is right there. */
  lemma PositionIsRight<K(!new), V>(store: seq<(K, V)>, less: (K, K) -> bool, key: K)
    requires StrictTotal(less) && Sorted(store, less)
    ensures var p := Position(store, less, key);
            && (forall i :: 0 <= i < |store| ==> (less(store[i].0, key) <==> i < p))
            && (forall i :: 0 <= i < |store| ==> (store[i].0 == key ==> i == p))
  {
    var below := Answers(store, less, key);
    assert Partitioned(below) by {
      forall i, j | 0 <= i < j < |below| && below[j] ensures below[i] {
        assert less(store[i].0, store[j].0);
      }
    }
    SearchFindsPartition(below);
    var p := Position(store, less, key);
    assert p < |store| ==> !below[p];
    forall i | 0 <= i < |store|
      ensures less(store[i].0, key) <==> i < p
      ensures store[i].0 == key ==> i == p
    {
      assert below[i] == less(store[i].0, key);
    }
  }

  // ------------------------------------------------------------ the finite map it stands for

  ghost predicate HoldsAt<K, V>(store: seq<(K, V)>, key: K, i: nat) {
    i < |store| && store[i].0 == key
  }

  ghost predicate DistinctKeys<K, V>(store: seq<(K, V)>) {
    forall i, j :: 0 <= i < j < |store| ==> store[i].0 != store[j].0
  }

  ghost function AsMap<K, V>(store: seq<(K, V)>): map<K, V> {
    if store == [] then map[]
    else AsMap(store[..|store| - 1])[store[|store| - 1].0 := store[|store| - 1].1]
  }

  /** m has the bindings of the store and no others. */
  ghost predicate Binds<K, V>(store: seq<(K, V)>, m: map<K, V>) {
    && (forall i :: 0 <= i < |store| ==> store[i].0 in m && m[store[i].0] == store[i].1)
    && (forall k :: k in m ==> exists i :: HoldsAt(store, k, i))
  }

  lemma {:induction false} AsMapBinds<K, V>(store: seq<(K, V)>)
    requires DistinctKeys(store)
    ensures Binds(store, AsMap(store))
  {
    if store != [] {
      var n := |store| - 1;
      AsMapBinds(store[..n]);
      forall k | k in AsMap(store) ensures exists i :: HoldsAt(store, k, i) {
        if k in AsMap(store[..n]) {
          var i: nat :| HoldsAt(store[..n], k, i);
          assert HoldsAt(store, k, i);
        } else {
          assert HoldsAt(store, k, n);
        }
      }
    }
  }

  /** Distinct keys determine the map. */
  lemma BindsOneMap<K, V>(store: seq<(K, V)>, m: map<K, V>)
    requires DistinctKeys(store) && Binds(store, m)
    ensures AsMap(store) == m
  {
    AsMapBinds(store);
    forall k | k in m || k in AsMap(store) ensures k in m && k in AsMap(store) && m[k] == AsMap(store)[k] {
      var i: nat :| HoldsAt(store, k, i);
    }
  }

  lemma SortedIsDistinct<K(!new), V>(store: seq<(K, V)>, less: (K, K) -> bool)
    requires StrictTotal(less) && Sorted(store, less)
    ensures DistinctKeys(store)
  {
    forall i, j | 0 <= i < j < |store| ensures store[i].0 != store[j].0 {
      assert less(store[i].0, store[j].0);
    }
  }

  // ------------------------------------------------------------ operations on the store

  /** m_store.insert(it, MAP_ENTRY_TYPE(k, v)) */
  function InsertAt<K, V>(store: seq<(K, V)>, p: nat, key: K, val: V): seq<(K, V)>
    requires p <= |store|
  {
    store[..p] + [(key, val)] + store[p..]
  }

  lemma InsertKeepsBindings<K, V>(store: seq<(K, V)>, p: nat, key: K, val: V, m: map<K, V>)
    requires p <= |store| && Binds(store, m) && key !in m
    ensures Binds(InsertAt(store, p, key, val), m[key := val])
  {
    var grown, m' := InsertAt(store, p, key, val), m[key := val];
    forall i | 0 <= i < |grown| ensures grown[i].0 in m' && m'[grown[i].0] == grown[i].1
    {
      assert grown[i] == if i < p then store[i] else if i == p then (key, val) else store[i - 1];
    }
    forall k | k in m' ensures exists i :: HoldsAt(grown, k, i) {
      if k in m {
        var i: nat :| HoldsAt(store, k, i);
        assert HoldsAt(grown, k, if i < p then i else i + 1);
      } else {
        assert HoldsAt(grown, k, p);
      }
    }
  }

  lemma InsertStaysSorted<K, V>(store: seq<(K, V)>, less: (K, K) -> bool, p: nat, key: K, val: V)
    requires Sorted(store, less) && p <= |store|
    requires forall i :: 0 <= i < p ==> less(store[i].0, key)
    requires forall i :: p <= i < |store| ==> less(key, store[i].0)
    ensures Sorted(InsertAt(store, p, key, val), less)
  {
    var grown := InsertAt(store, p, key, val);
    assert forall i :: 0 <= i < |grown| ==>
      grown[i] == if i < p then store[i] else if i == p then (key, val) else store[i - 1];
  }

  lemma InsertKeepsOrder<K(!new), V>(store: seq<(K, V)>, less: (K, K) -> bool, key: K, val: V)
    requires StrictTotal(less) && Sorted(store, less) && key !in AsMap(store)
    ensures var grown := InsertAt(store, Position(store, less, key), key, val);
            Sorted(grown, less) && AsMap(grown) == AsMap(store)[key := val]
  {
    var p := Position(store, less, key);
    PositionIsRight(store, less, key);
    SortedIsDistinct(store, less);
    AsMapBinds(store);
    forall i | p <= i < |store| ensures less(key, store[i].0) {
      assert !less(store[i].0, key) && store[i].0 != key;
    }
    InsertStaysSorted(store, less, p, key, val);
    InsertKeepsBindings(store, p, key, val, AsMap(store));
    SortedIsDistinct(InsertAt(store, p, key, val), less);
    BindsOneMap(InsertAt(store, p, key, val), AsMap(store)[key := val]);
  }

  lemma AssignKeepsOrder<K(!new), V>(store: seq<(K, V)>, less: (K, K) -> bool, p: nat, val: V)
    requires StrictTotal(less) && Sorted(store, less) && p < |store|
    ensures Sorted(store[p := (store[p].0, val)], less)
    ensures AsMap(store[p := (store[p].0, val)]) == AsMap(store)[store[p].0 := val]
  {
    var changed, m' := store[p := (store[p].0, val)], AsMap(store)[store[p].0 := val];
    SortedIsDistinct(store, less);
    SortedIsDistinct(changed, less);
    AsMapBinds(store);
    forall k | k in m' ensures exists i :: HoldsAt(changed, k, i) {
      if k == store[p].0 {
        assert HoldsAt(changed, k, p);
      } else {
        var i: nat :| HoldsAt(store, k, i);
        assert HoldsAt(changed, k, i);
      }
    }
    BindsOneMap(changed, m');
  }

  // ------------------------------------------------------------ runs

  datatype Op<K, V> =
    | Insert(key: K, val: V)
    | At(key: K)               // operator[] on a map that may change
    | Assign(key: K, val: V)   // assignment through the reference operator[] returns
    | Find(key: K)
    | ConstAt(key: K)          // operator[] on a const map
    | Clear

  datatype Out<K, V> = Done | Inserted(isNew: bool) | Entry(found: Option<(K, V)>) | Value(val: V)

  /** One operation on the sorted vector; `dflt` is VALUE_TYPE(). */
  ghost function StepStore<K, V>(store: seq<(K, V)>, less: (K, K) -> bool, dflt: V, op: Op<K, V>)
    : (seq<(K, V)>, Out<K, V>)
  {
    if op.Clear? then ([], Done)
    else
      var p := Position(store, less, op.key);
      var present := p < |store| && store[p].0 == op.key;
      match op
      case Insert(k, v) => if present then (store, Inserted(false)) else (InsertAt(store, p, k, v), Inserted(true))
      case At(k) => if present then (store, Value(store[p].1)) else (InsertAt(store, p, k, dflt), Value(dflt))
      case Assign(k, v) => if present then (store[p := (store[p].0, v)], Done) else (InsertAt(store, p, k, v), Done)
      case Find(_) => (store, Entry(if present then Some(store[p]) else None))
      case ConstAt(_) => (store, Value(if present then store[p].1 else dflt))
  }

  /** The same operation on a finite map. */
  ghost function StepMap<K, V>(m: map<K, V>, dflt: V, op: Op<K, V>): (map<K, V>, Out<K, V>) {
    match op
    case Insert(k, v) => if k in m then (m, Inserted(false)) else (m[k := v], Inserted(true))
    case At(k) => if k in m then (m, Value(m[k])) else (m[k := dflt], Value(dflt))
    case Assign(k, v) => (m[k := v], Done)
    case Find(k) => (m, Entry(if k in m then Some((k, m[k])) else None))
    case ConstAt(k) => (m, Value(if k in m then m[k] else dflt))
    case Clear => (map[], Done)
  }

  /** Whether and where a sorted store holds a key is what its map says. */
  lemma LookupAgrees<K(!new), V>(store: seq<(K, V)>, less: (K, K) -> bool, key: K)
    requires StrictTotal(less) && Sorted(store, less)
    ensures var p := Position(store, less, key);
            && (key in AsMap(store) <==> p < |store| && store[p].0 == key)
            && (key in AsMap(store) ==> AsMap(store)[key] == store[p].1)
  {
    PositionIsRight(store, less, key);
    SortedIsDistinct(store, less);
    AsMapBinds(store);
    if key in AsMap(store) {
      var i: nat :| HoldsAt(store, key, i);
    }
  }

  lemma StepRefines<K(!new), V>(store: seq<(K, V)>, less: (K, K) -> bool, dflt: V, op: Op<K, V>)
    requires StrictTotal(less) && Sorted(store, less)
    ensures var (after, out) := StepStore(store, less, dflt, op);
            Sorted(after, less) && (AsMap(after), out) == StepMap(AsMap(store), dflt, op)
  {
    if !op.Clear? {
      LookupAgrees(store, less, op.key);
      match op
      case Insert(k, v) => if k !in AsMap(store) { InsertKeepsOrder(store, less, k, v); }
      case At(k) => if k !in AsMap(store) { InsertKeepsOrder(store, less, k, dflt); }
      case Assign(k, v) =>
        if k !in AsMap(store) { InsertKeepsOrder(store, less, k, v); }
        else { AssignKeepsOrder(store, less, Position(store, less, k), v); }
      case Find(_) =>
      case ConstAt(_) =>
    }
  }

  /** Assignment is operator[] and a write to the entry it returns. */
  lemma AtThenAssign<K, V>(store: seq<(K, V)>, less: (K, K) -> bool, dflt: V, key: K, val: V)
    ensures var at, p := StepStore(store, less, dflt, Op.At(key)).0, Position(store, less, key);
            && p < |at| && at[p].0 == key
            && StepStore(store, less, dflt, Op.Assign(key, val)) == (at[p := (at[p].0, val)], Done)
  {
    var p := Position(store, less, key);
    assert InsertAt(store, p, key, dflt)[p := (key, val)] == InsertAt(store, p, key, val);
  }

  /** A run from the empty map: the store at the end and what each operation returned. */
  ghost function RunStore<K, V>(less: (K, K) -> bool, dflt: V, ops: seq<Op<K, V>>): (seq<(K, V)>, seq<Out<K, V>>) {
    if ops == [] then ([], [])
    else
      var (store, outs) := RunStore(less, dflt, ops[..|ops| - 1]);
      var (after, out) := StepStore(store, less, dflt, ops[|ops| - 1]);
      (after, outs + [out])
  }

  ghost function RunMap<K, V>(dflt: V, ops: seq<Op<K, V>>): (map<K, V>, seq<Out<K, V>>) {
    if ops == [] then (map[], [])
    else
      var (m, outs) := RunMap(dflt, ops[..|ops| - 1]);
      var (after, out) := StepMap(m, dflt, ops[|ops| - 1]);
      (after, outs + [out])
  }

  /** Every run keeps the vector strictly sorted and returns what a finite map returns. */
  lemma {:induction false} RunRefines<K(!new), V>(less: (K, K) -> bool, dflt: V, ops: seq<Op<K, V>>)
    requires StrictTotal(less)
    ensures var (store, outs) := RunStore(less, dflt, ops);
            Sorted(store, less) && (AsMap(store), outs) == RunMap(dflt, ops)
  {
    if ops != [] {
      RunRefines(less, dflt, ops[..|ops| - 1]);
      StepRefines(RunStore(less, dflt, ops[..|ops| - 1]).0, less, dflt, ops[|ops| - 1]);
    }
  }

  // ------------------------------------------------------------ lookups by another index type

  /** find on the answers of a comparator; |below| stands for end(). */
  ghost function Exact(below: seq<bool>, equal: seq<bool>): nat
    requires |below| == |equal|
  {
    SearchSeparates(below, 0, |below|);
    var p := Search(below, 0, |below|);
    if p == |below| || equal[p] then p else |below|
  }

  /** The last position of the unbroken run of matches that starts at p. */
  ghost function RunEnd(matches: seq<bool>, p: nat): nat
    requires p < |matches|
    decreases |matches| - p
  {
    if p + 1 < |matches| && matches[p + 1] then RunEnd(matches, p + 1) else p
  }

  /** findFirst on the answers of an index comparator. */
  ghost function First(below: seq<bool>, matches: seq<bool>): nat
    requires |below| == |matches|
  {
    SearchSeparates(below, 0, |below|);
    var p := Search(below, 0, |below|);
    if p == |below| || !matches[p] then |below| else p
  }

  /** findLast on the answers of an index comparator. */
  ghost function Last(below: seq<bool>, matches: seq<bool>): nat
    requires |below| == |matches|
  {
    SearchSeparates(below, 0, |below|);
    var p := Search(below, 0, |below|);
    if p == |below| || !matches[p] then |below| else RunEnd(matches, p)
  }

  /** The indexed find returns the entry of the keyed find whenever the index comparator agrees
      with the key order through a conversion of the index. */
  lemma IndexedFindAgrees<K(!new), V, I>(store: seq<(K, V)>, less: (K, K) -> bool, below: (K, I) -> bool,
                                        equal: (K, I) -> bool, convert: I -> K, index: I)
    requires StrictTotal(less) && Sorted(store, less)
    requires forall k :: below(k, index) <==> less(k, convert(index))
    requires forall k :: equal(k, index) <==> k == convert(index)
    ensures var it := Exact(Answers(store, below, index), Answers(store, equal, index));
            && it <= |store|
            && (it < |store| <==> convert(index) in AsMap(store))
            && (it < |store| ==> store[it] == (convert(index), AsMap(store)[convert(index)]))
  {
    var asked, meant := Answers(store, below, index), Answers(store, less, convert(index));
    forall i | 0 <= i < |store| ensures asked[i] == meant[i] {
      assert asked[i] == below(store[i].0, index) && meant[i] == less(store[i].0, convert(index));
    }
    assert asked == meant;
    LookupAgrees(store, less, convert(index));
  }

  // ------------------------------------------------------------ the class

  /** How often a lookup asked the comparator: less-than, and equal or match. */
  datatype Cost = Cost(less: nat, equal: nat)

  /** At most floor(log2 n) + 1 less-than comparisons for n >= 1 entries, and one equality test. */
  ghost predicate Cheap(cost: Cost, n: nat) {
    cost.less <= MaxComparisons(n) && cost.equal <= 1
  }

  class SimpleMap<K(==, !new), V> {
    const less: (K, K) -> bool
    const dflt: V
    var store: seq<(K, V)>

    ghost predicate Valid()
      reads this
    {
      StrictTotal(less) && Sorted(store, less)
    }

    constructor (less: (K, K) -> bool, dflt: V)
      requires StrictTotal(less)
      ensures Valid() && store == [] && this.less == less && this.dflt == dflt
    {
      this.less, this.dflt, store := less, dflt, [];
    }

    /** lower_bound, and whether the entry there has the key. */
    method Locate(key: K) returns (p: nat, present: bool, cost: Cost)
      requires Valid()
      ensures p == Position(store, less, key) <= |store|
      ensures present == (p < |store| && store[p].0 == key) && Cheap(cost, |store|)
    {
      var comparisons;
      p, comparisons := LowerBound(store, (e: (K, V)) => less(e.0, key), Answers(store, less, key));
      if p == |store| {
        return p, false, Cost(comparisons, 0);
      }
      return p, store[p].0 == key, Cost(comparisons, 1);
    }

    method InsertEntry(p: nat, key: K, val: V) returns (it: nat)
      requires p <= |store|
      modifies this
      ensures store == InsertAt(old(store), p, key, val) && it == p
    {
      store := store[..p] + [(key, val)] + store[p..];
      it := p;
    }

    method Insert(key: K, val: V) returns (isNew: bool, cost: Cost)
      requires Valid()
      modifies this
      ensures Valid() && isNew == (key !in old(AsMap(store))) && Cheap(cost, |old(store)|)
      ensures !isNew ==> store == old(store)
      ensures isNew ==> AsMap(store) == old(AsMap(store))[key := val]
      ensures (store, Inserted(isNew)) == StepStore(old(store), less, dflt, Op.Insert(key, val))
    {
      StepRefines(store, less, dflt, Op.Insert(key, val));
      var it, present, c := Locate(key);
      if present {
        return false, c;
      }
      it := InsertEntry(it, key, val);
      return true, c;
    }

    method Find(key: K) returns (it: nat, cost: Cost)
      requires Valid()
      ensures it <= |store| && Cheap(cost, |store|)
      ensures it < |store| <==> key in AsMap(store)
      ensures it < |store| ==> store[it] == (key, AsMap(store)[key])
      ensures (store, Entry(if it < |store| then Some(store[it]) else None)) ==
              StepStore(store, less, dflt, Op.Find(key))
    {
      LookupAgrees(store, less, key);
      var present;
      it, present, cost := Locate(key);
      if !(it == |store| || present) {
        it := |store|;
      }
    }

    /** The non-const operator[]: `it` is the entry whose value the reference names. */
    method At(key: K) returns (it: nat, cost: Cost)
      requires Valid()
      modifies this
      ensures Valid() && it < |store| && store[it].0 == key && Cheap(cost, |old(store)|)
      ensures it == Position(old(store), less, key)
      ensures key in old(AsMap(store)) ==> store == old(store) && store[it].1 == old(AsMap(store))[key]
      ensures key !in old(AsMap(store)) ==> AsMap(store) == old(AsMap(store))[key := dflt] && store[it].1 == dflt
      ensures (store, Value(store[it].1)) == StepStore(old(store), less, dflt, Op.At(key))
    {
      StepRefines(store, less, dflt, Op.At(key));
      LookupAgrees(store, less, key);
      var present;
      it, present, cost := Locate(key);
      if !present {
        it := InsertEntry(it, key, dflt);
      }
    }

    method Assign(key: K, val: V) returns (cost: Cost)
      requires Valid()
      modifies this
      ensures Valid() && AsMap(store) == old(AsMap(store))[key := val] && Cheap(cost, |old(store)|)
      ensures (store, Done) == StepStore(old(store), less, dflt, Op.Assign(key, val))
    {
      var it;
      it, cost := At(key);
      AtThenAssign(old(store), less, dflt, key, val);
      StepRefines(old(store), less, dflt, Op.Assign(key, val));
      store := store[it := (store[it].0, val)];
    }

    method ConstAt(key: K) returns (val: V, cost: Cost)
      requires Valid()
      ensures val == (if key in AsMap(store) then AsMap(store)[key] else dflt) && Cheap(cost, |store|)
      ensures (store, Value(val)) == StepStore(store, less, dflt, Op.ConstAt(key))
    {
      LookupAgrees(store, less, key);
      var it, present, c := Locate(key);
      if !present {
        return dflt, c;
      }
      return store[it].1, c;
    }

    method Clear()
      modifies this
      ensures (store, Done) == StepStore(old(store), less, dflt, Op.Clear) && store == []
    {
      store := [];
    }

    method FindIndexed<I>(index: I, below: (K, I) -> bool, equal: (K, I) -> bool) returns (it: nat, cost: Cost)
      ensures it == Exact(Answers(store, below, index), Answers(store, equal, index)) <= |store|
      ensures Cheap(cost, |store|)
    {
      var comparisons;
      it, comparisons := LowerBound(store, (e: (K, V)) => below(e.0, index), Answers(store, below, index));
      if it == |store| {
        return it, Cost(comparisons, 0);
      }
      return if equal(store[it].0, index) then it else |store|, Cost(comparisons, 1);
    }

    method FindFirst<I>(index: I, below: (K, I) -> bool, matches: (K, I) -> bool) returns (it: nat, cost: Cost)
      ensures it == First(Answers(store, below, index), Answers(store, matches, index)) <= |store|
      ensures Cheap(cost, |store|)
    {
      var comparisons;
      it, comparisons := LowerBound(store, (e: (K, V)) => below(e.0, index), Answers(store, below, index));
      if it == |store| {
        return it, Cost(comparisons, 0);
      }
      return if !matches(store[it].0, index) then |store| else it, Cost(comparisons, 1);
    }

    /** From a match, on to the last entry of the unbroken run of matches. */
    method ScanOn<I>(index: I, matches: (K, I) -> bool, start: nat) returns (it: nat, tests: nat)
      requires start < |store|
      ensures it == RunEnd(Answers(store, matches, index), start) && start <= it < |store|
      ensures tests <= it - start + 1
    {
      ghost var hits := Answers(store, matches, index);
      it, tests := start, 0;
      var scan := start + 1;
      while scan != |store|
        invariant start <= it < scan == it + 1 <= |store| && tests == it - start
        invariant RunEnd(hits, it) == RunEnd(hits, start)
        decreases |store| - scan
      {
        tests := tests + 1;
        if !matches(store[scan].0, index) {
          return;
        }
        it := scan;
        scan := scan + 1;
      }
    }

    /** Besides the entries that match, one entry at most is tested for a match. */
    method FindLast<I>(index: I, below: (K, I) -> bool, matches: (K, I) -> bool) returns (it: nat, cost: Cost)
      ensures it == Last(Answers(store, below, index), Answers(store, matches, index)) <= |store|
      ensures cost.less <= MaxComparisons(|store|)
      ensures var first := First(Answers(store, below, index), Answers(store, matches, index));
              cost.equal <= if it == |store| then 1 else it - first + 2
    {
      var comparisons;
      it, comparisons := LowerBound(store, (e: (K, V)) => below(e.0, index), Answers(store, below, index));
      if it == |store| {
        return it, Cost(comparisons, 0);
      }
      if !matches(store[it].0, index) {
        return |store|, Cost(comparisons, 1);
      }
      var tests;
      it, tests := ScanOn(index, matches, it);
      cost := Cost(comparisons, 1 + tests);
    }
  }
}
