/** LinkedQueue on the links themselves.  The link of an item is stored in the item, so all queues
    write into one store of links, and every operation is defined whatever that store holds. */
module QueueLinks {
  import opened Common
  import opened QueueRuns

  /** A queue's own fields: its link to the first item, m_tail and m_count. */
  datatype Ends<T> = Ends(first: Option<T>, tail: Option<T>, count: int)

  /** m_next of each item; an item that is not listed is new and has none. */
  type Links<T> = map<T, Option<T>>

  ghost function Next<T>(links: Links<T>, x: T): Option<T> {
    if x in links then links[x] else None
  }

  ghost function At<T>(chain: seq<T>, i: nat): Option<T> {
    if i < |chain| then Some(chain[i]) else None
  }

  /** From `first`, the links lead through `chain` and end there. */
  ghost predicate Path<T>(links: Links<T>, first: Option<T>, chain: seq<T>) {
    first == At(chain, 0) && forall i :: 0 <= i < |chain| ==> Next(links, chain[i]) == At(chain, i + 1)
  }

  /** Where k steps along the links lead. */
  ghost function Walk<T>(links: Links<T>, first: Option<T>, k: nat): Option<T> {
    if k == 0 then first
    else
      var p := Walk(links, first, k - 1);
      if p == None then None else Next(links, p.value)
  }

  /** k steps lead to x, and fewer do not. */
  ghost predicate FirstAt<T>(links: Links<T>, first: Option<T>, x: T, k: nat) {
    Walk(links, first, k) == Some(x) && forall j: nat :: j < k ==> Walk(links, first, j) != Some(x)
  }

  // ------------------------------------------------------------ the operations

  /** A non-empty queue has a tail. */
  ghost predicate Tailed<T>(q: Ends<T>) {
    q.first.Some? ==> q.tail.Some?
  }

  ghost function PushLinks<T>(links: Links<T>, q: Ends<T>, x: T): (Links<T>, Ends<T>) {
    var cleared := links[x := None];
    if q.first == None then (cleared, Ends(Some(x), Some(x), q.count + 1))
    else (if q.tail == None then cleared else cleared[q.tail.value := Some(x)], Ends(q.first, Some(x), q.count + 1))
  }

  ghost function PopLinks<T>(links: Links<T>, q: Ends<T>): Ends<T> {
    if q.first == None then q
    else if q.first == q.tail then Ends(None, None, q.count - 1)
    else Ends(Next(links, q.first.value), q.tail, q.count - 1)
  }

  /** The walk of remove comes to its item or to an end. */
  ghost predicate Halts<T>(links: Links<T>, first: Option<T>, x: T) {
    exists k: nat :: Walk(links, first, k) == Some(x) || Walk(links, first, k) == None
  }

  /** x comes out where k steps lead to it. */
  ghost function Unlinked<T>(links: Links<T>, q: Ends<T>, x: T, k: nat): (Links<T>, Ends<T>) {
    var first := if k == 0 then Next(links, x) else q.first;
    var before := if k == 0 then None else Walk(links, q.first, k - 1);
    (if before == None then links else links[before.value := Next(links, x)],
     Ends(first, if first == None then None else q.tail, q.count - 1))
  }

  /** What remove does when it halts. */
  ghost function RemoveLinks<T>(links: Links<T>, q: Ends<T>, x: T): (Links<T>, Ends<T>) {
    if exists k: nat :: FirstAt(links, q.first, x, k) then
      var k: nat :| FirstAt(links, q.first, x, k);
      Unlinked(links, q, x, k)
    else (links, q)
  }

  ghost function StepLinks<T>(links: Links<T>, q: Ends<T>, op: Op<T>): (Links<T>, Ends<T>) {
    match op
    case Push(x) => PushLinks(links, q, x)
    case Pop => (links, PopLinks(links, q))
    case Remove(x) => RemoveLinks(links, q, x)
    case Clear => (links, Ends(None, None, 0))
  }

  // ------------------------------------------------------------ links determine the chain

  lemma PathRest<T>(links: Links<T>, first: Option<T>, chain: seq<T>, i: nat)
    requires Path(links, first, chain) && i <= |chain|
    ensures Path(links, At(chain, i), chain[i..])
  {
    var rest := chain[i..];
    forall k | 0 <= k < |rest| ensures Next(links, rest[k]) == At(rest, k + 1) {
      assert rest[k] == chain[i + k];
    }
  }

  lemma {:induction false} PathUnique<T>(links: Links<T>, first: Option<T>, a: seq<T>, b: seq<T>)
    requires Path(links, first, a) && Path(links, first, b)
    ensures a == b
    decreases |a|
  {
    if a != [] {
      PathRest(links, first, a, 1);
      PathRest(links, first, b, 1);
      assert Next(links, a[0]) == At(a, 1) && Next(links, b[0]) == At(b, 1);
      PathUnique(links, At(a, 1), a[1..], b[1..]);
      assert a == [a[0]] + a[1..] && b == [b[0]] + b[1..];
    }
  }

  /** Links that end somewhere pass no item twice. */
  lemma PathOnce<T>(links: Links<T>, first: Option<T>, chain: seq<T>)
    requires Path(links, first, chain)
    ensures NoRepeats(chain)
  {
    forall i, j | 0 <= i < j < |chain| ensures chain[i] != chain[j] {
      if chain[i] == chain[j] {
        PathRest(links, first, chain, i);
        PathRest(links, first, chain, j);
        PathUnique(links, At(chain, i), chain[i..], chain[j..]);
      }
    }
  }

  /** Along a chain that ends, the walk passes its items in order and then nothing. */
  lemma {:induction false} WalkAlong<T>(links: Links<T>, first: Option<T>, chain: seq<T>, k: nat)
    requires Path(links, first, chain)
    ensures Walk(links, first, k) == At(chain, k)
  {
    if k > 0 {
      WalkAlong(links, first, chain, k - 1);
      if k <= |chain| { assert Next(links, chain[k - 1]) == At(chain, k); }
    }
  }

  lemma ItemFirstAt<T>(links: Links<T>, first: Option<T>, chain: seq<T>, i: nat)
    requires Path(links, first, chain) && i < |chain|
    ensures FirstAt(links, first, chain[i], i)
  {
    PathOnce(links, first, chain);
    WalkAlong(links, first, chain, i);
    forall j: nat | j < i ensures Walk(links, first, j) != Some(chain[i]) {
      WalkAlong(links, first, chain, j);
    }
  }

  lemma FirstAtOnce<T>(links: Links<T>, first: Option<T>, x: T, j: nat, k: nat)
    requires FirstAt(links, first, x, j) && FirstAt(links, first, x, k)
    ensures j == k
  {
    assert j < k ==> Walk(links, first, j) != Some(x);
  }

  /** What remove does once it is known how the walk goes. */
  lemma RemoveAt<T>(links: Links<T>, q: Ends<T>, x: T, k: nat)
    requires FirstAt(links, q.first, x, k)
    ensures RemoveLinks(links, q, x) == Unlinked(links, q, x, k)
  {
    forall j: nat | FirstAt(links, q.first, x, j) ensures j == k {
      FirstAtOnce(links, q.first, x, j, k);
    }
  }

  lemma RemoveAbsent<T>(links: Links<T>, q: Ends<T>, chain: seq<T>, x: T)
    requires Path(links, q.first, chain) && x !in chain
    ensures RemoveLinks(links, q, x) == (links, q)
  {
    forall k: nat ensures !FirstAt(links, q.first, x, k) {
      WalkAlong(links, q.first, chain, k);
    }
  }

  // ------------------------------------------------------------ links and chains in step

  /** The links and fields of a queue show the chain, tail and count of v. */
  ghost predicate Shows<T>(links: Links<T>, q: Ends<T>, v: Queue<T>) {
    Path(links, q.first, v.chain) && q.tail == v.tail && q.count == v.count
  }

  /** Writing the links of items outside a chain leaves the chain. */
  lemma PathKept<T>(links: Links<T>, after: Links<T>, first: Option<T>, chain: seq<T>)
    requires Path(links, first, chain) && forall n :: n in chain ==> Next(after, n) == Next(links, n)
    ensures Path(after, first, chain)
  {
  }

  lemma PushShows<T>(links: Links<T>, q: Ends<T>, v: Queue<T>, x: T)
    requires Shows(links, q, v) && TailLastOrOutside(v) && x !in v.chain
    ensures var (after, q') := PushLinks(links, q, x); Shows(after, q', Step(v, Push(x)))
  {
    var (after, q') := PushLinks(links, q, x);
    PathOnce(links, q.first, v.chain);
    if v.chain != [] && TailIsLast(v) {
      var grown := v.chain + [x];
      forall i | 0 <= i < |grown| ensures Next(after, grown[i]) == At(grown, i + 1) {
        if i < |v.chain| { assert Next(links, v.chain[i]) == At(v.chain, i + 1); }
      }
    } else if v.chain != [] {
      PathKept(links, after, q.first, v.chain);
    }
  }

  lemma PopShows<T>(links: Links<T>, q: Ends<T>, v: Queue<T>)
    requires Shows(links, q, v)
    ensures Shows(links, PopLinks(links, q), Step(v, Pop))
  {
    if v.chain != [] {
      PathRest(links, q.first, v.chain, 1);
      assert Next(links, v.chain[0]) == At(v.chain, 1);
    }
  }

  lemma PathWithout<T>(links: Links<T>, first: Option<T>, chain: seq<T>, i: nat)
    requires Path(links, first, chain) && 0 < i < |chain|
    ensures Path(links[chain[i - 1] := Next(links, chain[i])], first, chain[..i] + chain[i + 1..])
  {
    var rest := chain[..i] + chain[i + 1..];
    PathOnce(links, first, chain);
    var after := links[chain[i - 1] := Next(links, chain[i])];
    forall k | 0 <= k < |rest| ensures Next(after, rest[k]) == At(rest, k + 1) {
      var n := if k < i then k else k + 1;
      assert Next(links, chain[n]) == At(chain, n + 1);
      assert Next(links, chain[i]) == At(chain, i + 1);
    }
  }

  lemma UnlinkedShows<T>(links: Links<T>, q: Ends<T>, v: Queue<T>, x: T, i: nat)
    requires Shows(links, q, v) && i < |v.chain| && v.chain[i] == x
    requires i > 0 ==> Walk(links, q.first, i - 1) == Some(v.chain[i - 1])
    ensures var (after, q') := Unlinked(links, q, x, i);
            Shows(after, q', Queue(v.chain[..i] + v.chain[i + 1..],
                                   if |v.chain| == 1 then None else v.tail, v.count - 1))
  {
    assert Next(links, x) == At(v.chain, i + 1);
    if i == 0 {
      PathRest(links, q.first, v.chain, 1);
      assert v.chain[..0] + v.chain[1..] == v.chain[1..];
    } else {
      PathWithout(links, q.first, v.chain, i);
    }
  }

  lemma RemoveShows<T>(links: Links<T>, q: Ends<T>, v: Queue<T>, x: T)
    requires Shows(links, q, v)
    ensures Halts(links, q.first, x)
    ensures var (after, q') := RemoveLinks(links, q, x); Shows(after, q', Step(v, Remove(x)))
  {
    WalkAlong(links, q.first, v.chain, |v.chain|);
    if x in v.chain {
      var i := WithoutAt(v.chain, x);
      ItemFirstAt(links, q.first, v.chain, i);
      RemoveAt(links, q, x, i);
      if i > 0 { WalkAlong(links, q.first, v.chain, i - 1); }
      UnlinkedShows(links, q, v, x, i);
    } else {
      RemoveAbsent(links, q, v.chain, x);
    }
  }

  /** Each operation on the links does to the chain what QueueRuns.Step says, as long as a pushed
      item is not queued and the tail is the last item or outside. */
  lemma StepShows<T>(links: Links<T>, q: Ends<T>, v: Queue<T>, op: Op<T>)
    requires Shows(links, q, v) && (op.Push? ==> TailLastOrOutside(v) && op.item !in v.chain)
    ensures var (after, q') := StepLinks(links, q, op); Shows(after, q', Step(v, op))
  {
    match op
    case Push(x) => PushShows(links, q, v, x);
    case Pop => PopShows(links, q, v);
    case Remove(x) => RemoveShows(links, q, v, x);
    case Clear =>
  }

  ghost function RunLinks<T>(ops: seq<Op<T>>): (Links<T>, Ends<T>) {
    if ops == [] then (map[], Ends(None, None, 0))
    else
      var (links, q) := RunLinks(ops[..|ops| - 1]);
      StepLinks(links, q, Final(ops))
  }

  /** For one queue the links never stray from the chain, in any run that pushes no queued item. */
  lemma {:induction false} RunShows<T>(ops: seq<Op<T>>)
    requires Legal(ops)
    ensures var (links, q) := RunLinks(ops); Shows(links, q, Run(ops)) && Tailed(q)
  {
    EveryRunKeeps(ops);
    if ops != [] {
      var before := ops[..|ops| - 1];
      RunShows(before);
      EveryRunKeeps(before);
      var (links, q) := RunLinks(before);
      StepShows(links, q, Run(before), Final(ops));
    }
  }

  // ------------------------------------------------------------ several queues, one store of links

  ghost predicate Disjoint<T>(a: seq<T>, b: seq<T>) {
    forall n :: n in a ==> n !in b
  }

  lemma PushBeside<T>(links: Links<T>, q: Ends<T>, x: T, first: Option<T>, other: seq<T>)
    requires Path(links, first, other) && x !in other
    requires q.first.Some? && q.tail.Some? ==> q.tail.value !in other
    ensures Path(PushLinks(links, q, x).0, first, other)
  {
    PathKept(links, PushLinks(links, q, x).0, first, other);
  }

  lemma RemoveBeside<T>(links: Links<T>, q: Ends<T>, x: T, mine: seq<T>, first: Option<T>, other: seq<T>)
    requires Path(links, q.first, mine) && Path(links, first, other) && Disjoint(mine, other)
    ensures Path(RemoveLinks(links, q, x).0, first, other)
  {
    if x in mine {
      var i :| 0 <= i < |mine| && mine[i] == x;
      ItemFirstAt(links, q.first, mine, i);
      RemoveAt(links, q, x, i);
      if i > 0 { WalkAlong(links, q.first, mine, i - 1); }
      PathKept(links, RemoveLinks(links, q, x).0, first, other);
    } else {
      RemoveAbsent(links, q, mine, x);
    }
  }

  /** With contents apart, an operation on one queue leaves the other as it was and the contents
      apart.  Only a push depends on the tail; pop and remove may find it anywhere. */
  lemma StepBeside<T>(links: Links<T>, q: Ends<T>, v: Queue<T>, op: Op<T>, r: Ends<T>, w: Queue<T>)
    requires Shows(links, q, v) && Shows(links, r, w) && Disjoint(v.chain, w.chain)
    requires op.Push? ==> TailIsLast(v) && op.item !in v.chain && op.item !in w.chain
    ensures var (after, q') := StepLinks(links, q, op);
            && Shows(after, q', Step(v, op)) && Shows(after, r, w)
            && Disjoint(Step(v, op).chain, w.chain)
  {
    StepShows(links, q, v, op);
    match op
    case Push(x) => PushBeside(links, q, x, r.first, w.chain);
    case Pop =>
    case Remove(x) =>
      PathOnce(links, q.first, v.chain);
      RemoveBeside(links, q, x, v.chain, r.first, w.chain);
      if x in v.chain { WithoutOne(v.chain, x); }
    case Clear =>
  }

  /** A push whose tail stands in another queue's chain cuts that chain behind the tail and puts the
      item there, while the queue itself counts it and does not hold it. */
  lemma PushThroughForeignTail<T>(links: Links<T>, q: Ends<T>, x: T, mine: seq<T>,
                                  first: Option<T>, other: seq<T>, i: nat)
    requires Path(links, q.first, mine) && mine != [] && Path(links, first, other)
    requires i < |other| && q.tail == Some(other[i]) && other[i] !in mine && x !in mine && x !in other
    ensures var (after, q') := PushLinks(links, q, x);
            && Path(after, q'.first, mine) && q'.count == q.count + 1
            && Path(after, first, other[..i + 1] + [x])
  {
    var after := PushLinks(links, q, x).0;
    var cut := other[..i + 1] + [x];
    PathOnce(links, first, other);
    PathKept(links, after, q.first, mine);
    forall k | 0 <= k < |cut| ensures Next(after, cut[k]) == At(cut, k + 1) {
      if k < i { assert Next(links, other[k]) == At(other, k + 1); }
    }
  }
}
