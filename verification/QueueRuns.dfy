/** What the operations of LinkedQueue do to the chain of items, the tail pointer and the count,
    and what that makes of whole runs. */
module QueueRuns {
  import opened Common

  /** `chain` is the items reached from the queue's own link, `tail` is m_tail. */
  datatype Queue<T> = Queue(chain: seq<T>, tail: Option<T>, count: int)

  datatype Op<T> = Push(item: T) | Pop | Remove(item: T) | Clear

  ghost function Final<T>(s: seq<T>): T
    requires s != []
  {
    s[|s| - 1]
  }

  /** The sequence without the first occurrence of x. */
  ghost function Without<T>(s: seq<T>, x: T): seq<T> {
    if s == [] then [] else if s[0] == x then s[1..] else [s[0]] + Without(s[1..], x)
  }

  /** The tail pointer stands on the last item. */
  ghost predicate TailIsLast<T>(q: Queue<T>) {
    q.chain != [] ==> q.tail == Some(Final(q.chain))
  }

  /** The tail pointer stands on the last item or on none of the chain. */
  ghost predicate TailLastOrOutside<T>(q: Queue<T>) {
    q.chain != [] ==> q.tail.Some? && (q.tail.value == Final(q.chain) || q.tail.value !in q.chain)
  }

  /** One operation as the methods perform it.  A push to a non-empty queue writes the link of
      the tail item: the chain grows only if that item is its last. */
  ghost function Step<T>(q: Queue<T>, op: Op<T>): Queue<T> {
    match op
    case Push(x) =>
      Queue(if q.chain == [] then [x] else if TailIsLast(q) then q.chain + [x] else q.chain, Some(x), q.count + 1)
    case Pop =>
      if q.chain == [] then q
      else if q.tail == Some(q.chain[0]) then Queue([], None, q.count - 1)
      else Queue(q.chain[1..], q.tail, q.count - 1)
    case Remove(x) =>
      if x !in q.chain then q
      else Queue(Without(q.chain, x), if |q.chain| == 1 then None else q.tail, q.count - 1)
    case Clear => Queue([], None, 0)
  }

  ghost function Run<T>(ops: seq<Op<T>>): Queue<T> {
    if ops == [] then Queue([], None, 0) else Step(Run(ops[..|ops| - 1]), Final(ops))
  }

  /** No item is pushed while it is in the queue. */
  ghost predicate Legal<T>(ops: seq<Op<T>>) {
    ops == [] ||
    (&& Legal(ops[..|ops| - 1])
     && (Final(ops).Push? ==> Final(ops).item !in Run(ops[..|ops| - 1]).chain))
  }

  // ------------------------------------------------------------ removing one item

  lemma {:induction false} WithoutAt<T>(s: seq<T>, x: T) returns (i: nat)
    requires x in s
    ensures i < |s| && s[i] == x && Without(s, x) == s[..i] + s[i + 1..]
  {
    if s[0] == x {
      i := 0;
    } else {
      i := WithoutAt(s[1..], x);
      assert s[..i + 1] == [s[0]] + s[1..][..i];
      i := i + 1;
    }
  }

  lemma WithoutOne<T>(s: seq<T>, x: T)
    requires NoRepeats(s) && x in s
    ensures NoRepeats(Without(s, x)) && |Without(s, x)| == |s| - 1
    ensures forall y :: y in Without(s, x) <==> y in s && y != x
    ensures Final(s) != x ==> Without(s, x) != [] && Final(Without(s, x)) == Final(s)
  {
    var i := WithoutAt(s, x);
    var rest := s[..i] + s[i + 1..];
    forall y ensures y in rest <==> y in s && y != x {
      if y in s && y != x {
        var k :| 0 <= k < |s| && s[k] == y;
        assert rest[if k < i then k else k - 1] == y;
      }
    }
  }

  // ------------------------------------------------------------ every run

  /** Pushes since the last clear that met a non-empty queue whose tail was not its last item. */
  ghost function Lost<T>(ops: seq<Op<T>>): nat {
    if ops == [] then 0
    else
      var before := ops[..|ops| - 1];
      match Final(ops)
      case Clear => 0
      case Push(_) => Lost(before) + if TailIsLast(Run(before)) then 0 else 1
      case _ => Lost(before)
  }

  /** What every run keeps: the chain has no repeats, the tail of a non-empty chain is its last
      item or outside it, and the count exceeds the length by the lost pushes. */
  ghost predicate Kept<T>(q: Queue<T>, lost: nat) {
    NoRepeats(q.chain) && TailLastOrOutside(q) && q.count == |q.chain| + lost
  }

  lemma StepKeeps<T>(q: Queue<T>, op: Op<T>, lost: nat)
    requires Kept(q, lost) && (op.Push? ==> op.item !in q.chain)
    ensures Kept(Step(q, op), if op.Clear? then 0
                              else if op.Push? && !TailIsLast(q) then lost + 1 else lost)
  {
    if op.Remove? {
      if op.item in q.chain { WithoutOne(q.chain, op.item); }
    }
  }

  lemma PopDropsFirst<T>(q: Queue<T>, lost: nat)
    requires Kept(q, lost) && q.chain != []
    ensures Step(q, Pop).chain == q.chain[1..]
  {
  }

  lemma {:induction false} EveryRunKeeps<T>(ops: seq<Op<T>>)
    requires Legal(ops)
    ensures Kept(Run(ops), Lost(ops))
  {
    if ops != [] {
      EveryRunKeeps(ops[..|ops| - 1]);
      StepKeeps(Run(ops[..|ops| - 1]), Final(ops), Lost(ops[..|ops| - 1]));
    }
  }

  ghost function PushedBy<T>(op: Op<T>): seq<T> {
    if op.Push? then [op.item] else []
  }

  /** What pop takes from the front. */
  ghost function DeliveredBy<T>(q: Queue<T>, op: Op<T>): seq<T> {
    if op.Pop? && q.chain != [] then [q.chain[0]] else []
  }

  /** The items pushed in a run, in order. */
  ghost function Pushed<T>(ops: seq<Op<T>>): seq<T> {
    if ops == [] then [] else Pushed(ops[..|ops| - 1]) + PushedBy(Final(ops))
  }

  /** The items delivered in a run, in order. */
  ghost function Delivered<T>(ops: seq<Op<T>>): seq<T> {
    if ops == [] then []
    else Delivered(ops[..|ops| - 1]) + DeliveredBy(Run(ops[..|ops| - 1]), Final(ops))
  }

  /** The k-th element of a is element at[k] of b, and at increases. */
  ghost predicate Embeds<T>(a: seq<T>, b: seq<T>, at: seq<nat>) {
    && |at| == |a|
    && (forall k :: 0 <= k < |a| ==> at[k] < |b| && a[k] == b[at[k]])
    && (forall j, k :: 0 <= j < k < |at| ==> at[j] < at[k])
  }

  ghost predicate Subsequence<T>(a: seq<T>, b: seq<T>) {
    exists at: seq<nat> :: Embeds(a, b, at)
  }

  lemma SubsequenceGrows<T>(a: seq<T>, b: seq<T>, x: T)
    requires Subsequence(a, b)
    ensures Subsequence(a, b + [x]) && Subsequence(a + [x], b + [x])
  {
    var at: seq<nat> :| Embeds(a, b, at);
    assert Embeds(a, b + [x], at);
    assert Embeds(a + [x], b + [x], at + [|b|]);
  }

  lemma SubsequenceWithout<T>(a: seq<T>, b: seq<T>, i: nat)
    requires Subsequence(a, b) && i < |a|
    ensures Subsequence(a[..i] + a[i + 1..], b)
  {
    var at: seq<nat> :| Embeds(a, b, at);
    assert Embeds(a[..i] + a[i + 1..], b, at[..i] + at[i + 1..]);
  }

  lemma SubsequencePrefix<T>(a: seq<T>, c: seq<T>, b: seq<T>)
    requires Subsequence(a + c, b)
    ensures Subsequence(a, b)
  {
    var at: seq<nat> :| Embeds(a + c, b, at);
    assert forall k :: 0 <= k < |a| ==> a[k] == (a + c)[k];
    assert Embeds(a, b, at[..|a|]);
  }

  lemma PushInOrder<T>(q: Queue<T>, x: T, out: seq<T>, all: seq<T>)
    requires Subsequence(out + q.chain, all)
    ensures Subsequence(out + Step(q, Push(x)).chain, all + [x])
  {
    SubsequenceGrows(out + q.chain, all, x);
    assert out + (q.chain + [x]) == out + q.chain + [x];
    assert q.chain == [] ==> q.chain + [x] == [x];
  }

  lemma RemoveInOrder<T>(q: Queue<T>, x: T, out: seq<T>, all: seq<T>)
    requires Subsequence(out + q.chain, all)
    ensures Subsequence(out + Step(q, Remove(x)).chain, all)
  {
    if x in q.chain {
      var i := WithoutAt(q.chain, x);
      SubsequenceWithout(out + q.chain, all, |out| + i);
      assert (out + q.chain)[..|out| + i] + (out + q.chain)[|out| + i + 1..] == out + Without(q.chain, x);
    }
  }

  lemma StepInOrder<T>(q: Queue<T>, lost: nat, op: Op<T>, out: seq<T>, all: seq<T>)
    requires Kept(q, lost) && Subsequence(out + q.chain, all)
    ensures Subsequence(out + DeliveredBy(q, op) + Step(q, op).chain, all + PushedBy(op))
  {
    assert out + [] == out && all + [] == all;
    match op
    case Push(x) => PushInOrder(q, x, out, all);
    case Pop =>
      if q.chain != [] {
        PopDropsFirst(q, lost);
        assert out + q.chain == out + [q.chain[0]] + q.chain[1..];
      }
    case Remove(x) => RemoveInOrder(q, x, out, all);
    case Clear => SubsequencePrefix(out, q.chain, all);
  }

  /** What has been delivered, followed by what is queued, is in push order. */
  lemma {:induction false} DeliveredInOrder<T>(ops: seq<Op<T>>)
    requires Legal(ops)
    ensures Subsequence(Delivered(ops) + Run(ops).chain, Pushed(ops))
  {
    if ops == [] {
      assert Embeds<T>([], [], []);
      assert Delivered(ops) + Run(ops).chain == [];
    } else {
      var before := ops[..|ops| - 1];
      EveryRunKeeps(before);
      DeliveredInOrder(before);
      StepInOrder(Run(before), Lost(before), Final(ops), Delivered(before), Pushed(before));
    }
  }

  // ------------------------------------------------------------ remove, one call

  /** From a well-formed queue, remove takes out the item and keeps the count right in every case,
      but the tail stays on the last item exactly when the item is absent, alone, or not last. */
  lemma RemoveKeepsTailIff<T>(q: Queue<T>, x: T)
    requires Kept(q, 0) && TailIsLast(q)
    ensures var after := Step(q, Remove(x));
            && after.count == |after.chain|
            && (x !in q.chain ==> after.chain == q.chain)
            && (forall i :: 0 <= i < |q.chain| && q.chain[i] == x ==>
                  after.chain == q.chain[..i] + q.chain[i + 1..])
            && (TailIsLast(after) <==> x !in q.chain || |q.chain| == 1 || x != Final(q.chain))
            && (q.chain == [x] ==> after.tail == None)
  {
    if x in q.chain {
      WithoutOne(q.chain, x);
      var k := WithoutAt(q.chain, x);
    }
  }

  // ------------------------------------------------------------ a mathematical queue

  ghost function FifoStep<T>(c: seq<T>, op: Op<T>): seq<T> {
    match op
    case Push(x) => c + [x]
    case Pop => if c == [] then [] else c[1..]
    case Remove(x) => Without(c, x)
    case Clear => []
  }

  ghost function Fifo<T>(ops: seq<Op<T>>): seq<T> {
    if ops == [] then [] else FifoStep(Fifo(ops[..|ops| - 1]), Final(ops))
  }

  ghost predicate RemovesLast<T>(c: seq<T>, op: Op<T>) {
    op.Remove? && |c| >= 2 && op.item == Final(c)
  }

  /** After the run, the last item of two or more has been removed since the queue was last
      started anew by a push to it empty. */
  ghost predicate Stale<T>(ops: seq<Op<T>>) {
    ops != [] &&
    var before := ops[..|ops| - 1];
    RemovesLast(Fifo(before), Final(ops)) ||
    (Stale(before) && Fifo(before) != [] && !Final(ops).Push? && !Final(ops).Clear?)
  }

  /** Some push meets a non-empty stale queue. */
  ghost predicate LosesPush<T>(ops: seq<Op<T>>) {
    ops != [] &&
    var before := ops[..|ops| - 1];
    LosesPush(before) || (Final(ops).Push? && Fifo(before) != [] && Stale(before))
  }

  /** The queue as written equals the mathematical one: contents, order and count, hence front. */
  ghost predicate Agrees<T>(ops: seq<Op<T>>) {
    Run(ops).chain == Fifo(ops) && Run(ops).count == |Fifo(ops)|
  }

  ghost predicate AlwaysAgrees<T>(ops: seq<Op<T>>) {
    forall n :: 0 <= n <= |ops| ==> Agrees(ops[..n])
  }

  /** While nothing is lost the two queues agree, and the tail is on the last item just when the
      queue is not stale. */
  ghost predicate InStep<T>(ops: seq<Op<T>>) {
    && Agrees(ops)
    && Kept(Run(ops), 0)
    && (Fifo(ops) != [] ==> (TailIsLast(Run(ops)) <==> !Stale(ops)))
  }

  lemma StepInStep<T>(ops: seq<Op<T>>)
    requires ops != [] && Legal(ops) && InStep(ops[..|ops| - 1])
    ensures if Final(ops).Push? && Fifo(ops[..|ops| - 1]) != [] && Stale(ops[..|ops| - 1])
            then !Agrees(ops) else InStep(ops)
  {
    var before := ops[..|ops| - 1];
    var q := Run(before);
    StepKeeps(q, Final(ops), 0);
    match Final(ops)
    case Push(x) =>
    case Pop => if q.chain != [] { PopDropsFirst(q, 0); }
    case Remove(x) => if x in q.chain { WithoutOne(q.chain, x); } else { WithoutAbsent(q.chain, x); }
    case Clear =>
  }

  lemma {:induction false} WithoutAbsent<T>(s: seq<T>, x: T)
    requires x !in s
    ensures Without(s, x) == s
  {
    if s != [] {
      WithoutAbsent(s[1..], x);
    }
  }

  /** LinkedQueue refines the mathematical queue at every step of a run exactly when no push meets
      a non-empty stale queue. */
  lemma {:induction false} AgreesIff<T>(ops: seq<Op<T>>)
    requires Legal(ops)
    ensures AlwaysAgrees(ops) <==> !LosesPush(ops)
    ensures !LosesPush(ops) ==> InStep(ops)
  {
    if ops == [] {
      assert ops[..0] == ops;
    } else {
      var before := ops[..|ops| - 1];
      AgreesIff(before);
      assert ops[..|ops|] == ops;
      assert forall n :: 0 <= n <= |before| ==> ops[..n] == before[..n];
      if !LosesPush(before) {
        StepInStep(ops);
      }
    }
  }

  ghost predicate NeverRemovesLast<T>(ops: seq<Op<T>>) {
    ops == [] ||
    (NeverRemovesLast(ops[..|ops| - 1]) && !RemovesLast(Fifo(ops[..|ops| - 1]), Final(ops)))
  }

  ghost predicate TailAlwaysLast<T>(ops: seq<Op<T>>) {
    forall n :: 0 <= n <= |ops| ==> TailIsLast(Run(ops[..n]))
  }

  lemma {:induction false} NeverStale<T>(ops: seq<Op<T>>)
    requires NeverRemovesLast(ops)
    ensures !Stale(ops) && !LosesPush(ops)
  {
    if ops != [] {
      NeverStale(ops[..|ops| - 1]);
    }
  }

  /** The tail is on the last item after every operation of a run exactly when remove never hits
      the last of two or more items; the queue then is the mathematical one, and it is empty just
      when its size is 0. */
  lemma {:induction false} TailAlwaysLastIff<T>(ops: seq<Op<T>>)
    requires Legal(ops)
    ensures TailAlwaysLast(ops) <==> NeverRemovesLast(ops)
    ensures NeverRemovesLast(ops) ==> InStep(ops) && (Run(ops).chain == [] <==> Run(ops).count == 0)
  {
    if ops == [] {
      assert ops[..0] == ops;
    } else {
      var before := ops[..|ops| - 1];
      TailAlwaysLastIff(before);
      assert ops[..|ops|] == ops;
      assert forall n :: 0 <= n <= |before| ==> ops[..n] == before[..n];
      if NeverRemovesLast(before) {
        NeverStale(before);
        StepInStep(ops);
        if RemovesLast(Fifo(before), Final(ops)) {
          WithoutOne(Fifo(before), Final(ops).item);
        }
      }
    }
  }

  /** In such a run the tail is null just when the queue is empty. */
  lemma {:induction false} NoTailWhenEmpty<T>(ops: seq<Op<T>>)
    requires Legal(ops) && NeverRemovesLast(ops)
    ensures Run(ops).chain == [] <==> Run(ops).tail == None
  {
    if ops != [] {
      var before := ops[..|ops| - 1];
      NoTailWhenEmpty(before);
      TailAlwaysLastIff(before);
      TailAlwaysLastIff(ops);
      if Final(ops).Remove? && Final(ops).item in Run(before).chain {
        WithoutOne(Run(before).chain, Final(ops).item);
      }
    }
  }

  /** The smallest run that loses an item: c is counted but not queued. */
  lemma LostPush<T>(a: T, b: T, c: T)
    requires a != b
    ensures var ops := [Push(a), Push(b), Remove(b), Push(c)];
            Run(ops) == Queue([a], Some(c), 2) && Fifo(ops) == [a, c]
  {
    var ops := [Push(a), Push(b), Remove(b), Push(c)];
    RunOne(ops[..0], Push(a));
    assert ops[..0] + [Push(a)] == ops[..1];
    RunOne(ops[..1], Push(b));
    assert ops[..1] + [Push(b)] == ops[..2];
    RunOne(ops[..2], Remove(b));
    assert ops[..2] + [Remove(b)] == ops[..3];
    RunOne(ops[..3], Push(c));
    assert ops[..3] + [Push(c)] == ops;
    assert Without([a, b], b) == [a] + Without([b], b);
  }

  lemma RunOne<T>(before: seq<Op<T>>, op: Op<T>)
    ensures Run(before + [op]) == Step(Run(before), op)
    ensures Fifo(before + [op]) == FifoStep(Fifo(before), op)
  {
    assert (before + [op])[..|before|] == before;
  }
}
