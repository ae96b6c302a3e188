/** The executive's three node queues and the queue status of each node, as PlexilExec.cc manages
    them: the claim is that a node is in one queue at a time, the one its status names.

    The queues here are chains of their own.  In the code they share the link field of the nodes, so
    what follows describes the code only from states that are Good, up to and including the first
    operation that leaves them; ExecLinks proves that, and says what happens after. */
module ExecQueueRuns {
  import opened Common
  import opened QueueRuns

  datatype QueueStatus = NONE | CHECK | TRANSITION | TRANSITION_CHECK | DELETE

  /** Nodes that `status` does not list have status NONE, as a new node does. */
  datatype Exec<T> = Exec(candidates: Queue<T>, changes: Queue<T>, finished: Queue<T>, status: map<T, QueueStatus>) {
    ghost function StatusOf(n: T): QueueStatus {
      if n in status then status[n] else NONE
    }

    ghost function Mark(n: T, s: QueueStatus): Exec<T> {
      this.(status := status[n := s])
    }
  }

  datatype ExecOp<T> =
    | AddCandidate(node: T)
    | GetCandidate
    | RemoveCandidate(node: T)
    | AddStateChange(node: T)
    | GetStateChange
    | AddFinished(node: T)
    | GetFinished

  // ------------------------------------------------------------ the operations

  ghost function DoAddCandidate<T>(e: Exec<T>, n: T): Exec<T> {
    match e.StatusOf(n)
    case NONE => e.Mark(n, CHECK).(candidates := Step(e.candidates, Push(n)))
    case TRANSITION => e.Mark(n, TRANSITION_CHECK)
    case _ => e
  }

  /** From a Good state; None where the source stops with an internal error. */
  ghost function DoOp<T>(e: Exec<T>, op: ExecOp<T>): Option<Exec<T>> {
    match op
    case AddCandidate(n) => Some(DoAddCandidate(e, n))
    case GetCandidate =>
      if e.candidates.chain == [] then Some(e)
      else Some(e.Mark(e.candidates.chain[0], NONE).(candidates := Step(e.candidates, Pop)))
    case RemoveCandidate(n) => Some(e.Mark(n, NONE).(candidates := Step(e.candidates, Remove(n))))
    case AddStateChange(n) =>
      (match e.StatusOf(n)
       case NONE => Some(e.Mark(n, TRANSITION).(changes := Step(e.changes, Push(n))))
       case TRANSITION => Some(e)
       case TRANSITION_CHECK => Some(e)
       case _ => None)
    case GetStateChange =>
      if e.changes.chain == [] then Some(e)
      else
        var n := e.changes.chain[0];
        var after := e.Mark(n, NONE).(changes := Step(e.changes, Pop));
        Some(if e.StatusOf(n) == TRANSITION_CHECK then DoAddCandidate(after, n) else after)
    case AddFinished(n) =>
      (match e.StatusOf(n)
       case CHECK => Some(e.Mark(n, DELETE).(candidates := Step(e.candidates, Remove(n)),
                                             finished := Step(e.finished, Push(n))))
       case NONE => Some(e.Mark(n, DELETE).(finished := Step(e.finished, Push(n))))
       case DELETE => Some(e)
       case _ => None)
    case GetFinished =>
      if e.finished.chain == [] then Some(e)
      else Some(e.Mark(e.finished.chain[0], NONE).(finished := Step(e.finished, Pop)))
  }

  // ------------------------------------------------------------ one queue at a time

  /** A well-formed queue that has lost nothing. */
  ghost predicate Sound<T>(q: Queue<T>) {
    Kept(q, 0) && TailIsLast(q)
  }

  /** Each node stands in the queue that its status names, and in no other. */
  ghost predicate OneQueue<T>(e: Exec<T>) {
    && (forall n :: n in e.candidates.chain ==> n in e.status && e.status[n] == CHECK)
    && (forall n :: n in e.changes.chain ==>
          n in e.status && (e.status[n] == TRANSITION || e.status[n] == TRANSITION_CHECK))
    && (forall n :: n in e.finished.chain ==> n in e.status && e.status[n] == DELETE)
    && (forall n :: n in e.status ==>
          && (e.status[n] == CHECK ==> n in e.candidates.chain)
          && (e.status[n] == TRANSITION || e.status[n] == TRANSITION_CHECK ==> n in e.changes.chain)
          && (e.status[n] == DELETE ==> n in e.finished.chain))
  }

  ghost predicate Good<T>(e: Exec<T>) {
    OneQueue(e) && Sound(e.candidates) && Sound(e.changes) && Sound(e.finished)
  }

  /** What an operation must avoid: the last of two or more candidates leaving by remove, and a
      removal from consideration of a node that waits elsewhere. */
  ghost predicate Safe<T>(e: Exec<T>, op: ExecOp<T>) {
    match op
    case RemoveCandidate(n) =>
      e.StatusOf(n) in {NONE, CHECK} && !RemovesLast(e.candidates.chain, Remove(n))
    case AddFinished(n) => e.StatusOf(n) == CHECK ==> !RemovesLast(e.candidates.chain, Remove(n))
    case _ => true
  }

  lemma SoundStep<T>(q: Queue<T>, op: Op<T>)
    requires Sound(q) && (op.Push? ==> op.item !in q.chain)
    ensures Kept(Step(q, op), 0)
    ensures TailIsLast(Step(q, op)) <==> !RemovesLast(q.chain, op)
    ensures op.Push? ==> forall n :: n in Step(q, op).chain <==> n in q.chain || n == op.item
    ensures op.Pop? && q.chain != [] ==> forall n :: n in Step(q, op).chain <==> n in q.chain && n != q.chain[0]
    ensures op.Remove? ==> forall n :: n in Step(q, op).chain <==> n in q.chain && n != op.item
  {
    StepKeeps(q, op, 0);
    match op
    case Push(x) =>
    case Pop => if q.chain != [] { PopDropsFirst(q, 0); }
    case Remove(x) => RemoveKeepsTailIff(q, x);
    case Clear =>
  }

  lemma AddCandidateStaysGood<T>(e: Exec<T>, n: T)
    requires Good(e)
    ensures Good(DoAddCandidate(e, n))
  {
    if e.StatusOf(n) == NONE { SoundStep(e.candidates, Push(n)); }
  }

  lemma GetCandidateStaysGood<T>(e: Exec<T>)
    requires Good(e)
    ensures Good(DoOp(e, GetCandidate).value)
  {
    SoundStep(e.candidates, Pop);
  }

  lemma GetFinishedStaysGood<T>(e: Exec<T>)
    requires Good(e)
    ensures Good(DoOp(e, GetFinished).value)
  {
    SoundStep(e.finished, Pop);
  }

  lemma LeaveStateChangeStaysGood<T>(e: Exec<T>)
    requires Good(e) && e.changes.chain != []
    ensures Good(e.Mark(e.changes.chain[0], NONE).(changes := Step(e.changes, Pop)))
  {
    SoundStep(e.changes, Pop);
  }

  lemma GetStateChangeStaysGood<T>(e: Exec<T>)
    requires Good(e)
    ensures Good(DoOp(e, GetStateChange).value)
  {
    if e.changes.chain != [] {
      LeaveStateChangeStaysGood(e);
      var n := e.changes.chain[0];
      AddCandidateStaysGood(e.Mark(n, NONE).(changes := Step(e.changes, Pop)), n);
    }
  }

  lemma AddStateChangeStaysGood<T>(e: Exec<T>, n: T)
    requires Good(e) && DoOp(e, AddStateChange(n)).Some?
    ensures Good(DoOp(e, AddStateChange(n)).value)
  {
    if e.StatusOf(n) == NONE { SoundStep(e.changes, Push(n)); }
  }

  lemma RemoveStaysGoodIff<T>(e: Exec<T>, n: T)
    requires Good(e)
    ensures Good(DoOp(e, RemoveCandidate(n)).value) <==> Safe(e, RemoveCandidate(n))
  {
    SoundStep(e.candidates, Remove(n));
    var after := DoOp(e, RemoveCandidate(n)).value;
    if Safe(e, RemoveCandidate(n)) {
      assert OneQueue(after);
    } else if e.StatusOf(n) !in {NONE, CHECK} {
      assert n in after.changes.chain || n in after.finished.chain;
    } else {
      assert !TailIsLast(after.candidates);
    }
  }

  lemma AddFinishedStaysGoodIff<T>(e: Exec<T>, n: T)
    requires Good(e) && DoOp(e, AddFinished(n)).Some?
    ensures Good(DoOp(e, AddFinished(n)).value) <==> Safe(e, AddFinished(n))
  {
    if e.StatusOf(n) == NONE || e.StatusOf(n) == CHECK {
      SoundStep(e.candidates, Remove(n));
      SoundStep(e.finished, Push(n));
      if Safe(e, AddFinished(n)) {
        assert OneQueue(DoOp(e, AddFinished(n)).value);
      } else {
        assert !TailIsLast(DoOp(e, AddFinished(n)).value.candidates);
      }
    }
  }

  /** Every operation keeps each node in the one queue its status names, and each tail on the last
      item, exactly when it is safe. */
  lemma StaysGoodIff<T>(e: Exec<T>, op: ExecOp<T>)
    requires Good(e) && DoOp(e, op).Some?
    ensures Good(DoOp(e, op).value) <==> Safe(e, op)
  {
    match op
    case AddCandidate(n) => AddCandidateStaysGood(e, n);
    case RemoveCandidate(n) => RemoveStaysGoodIff(e, n);
    case AddFinished(n) => AddFinishedStaysGoodIff(e, n);
    case AddStateChange(n) => AddStateChangeStaysGood(e, n);
    case GetCandidate => GetCandidateStaysGood(e);
    case GetStateChange => GetStateChangeStaysGood(e);
    case GetFinished => GetFinishedStaysGood(e);
  }

  // ------------------------------------------------------------ runs

  ghost function Start<T>(): Exec<T> {
    Exec(Queue([], None, 0), Queue([], None, 0), Queue([], None, 0), map[])
  }

  /** While all states are Good; None once an operation has stopped with an internal error. */
  ghost function RunExec<T>(ops: seq<ExecOp<T>>): Option<Exec<T>> {
    if ops == [] then Some(Start())
    else
      var before := RunExec(ops[..|ops| - 1]);
      if before == None then None else DoOp(before.value, Final(ops))
  }

  ghost predicate AlwaysGood<T>(ops: seq<ExecOp<T>>) {
    forall n :: 0 <= n <= |ops| ==> GoodAfter(ops[..n])
  }

  /** No operation of the run was unsafe where it was performed. */
  ghost predicate AlwaysSafe<T>(ops: seq<ExecOp<T>>) {
    ops == [] ||
    var before := ops[..|ops| - 1];
    AlwaysSafe(before) &&
    (RunExec(before).Some? && DoOp(RunExec(before).value, Final(ops)).Some? ==>
       Safe(RunExec(before).value, Final(ops)))
  }

  ghost predicate GoodAfter<T>(ops: seq<ExecOp<T>>) {
    RunExec(ops).Some? ==> Good(RunExec(ops).value)
  }

  lemma OneMore<T>(ops: seq<ExecOp<T>>)
    requires ops != []
    ensures AlwaysGood(ops) <==> AlwaysGood(ops[..|ops| - 1]) && GoodAfter(ops)
  {
    var before := ops[..|ops| - 1];
    assert ops[..|ops|] == ops;
    assert forall n :: 0 <= n <= |before| ==> ops[..n] == before[..n];
  }

  /** Over whole runs: after each operation every node is in the one queue its status names, and
      no queue has lost anything, exactly when no operation was unsafe where it was performed. */
  lemma {:induction false} AlwaysGoodIff<T>(ops: seq<ExecOp<T>>)
    ensures AlwaysGood(ops) <==> AlwaysSafe(ops)
  {
    if ops == [] {
      assert ops[..0] == ops;
    } else {
      var before := ops[..|ops| - 1];
      AlwaysGoodIff(before);
      OneMore(ops);
      assert AlwaysGood(before) ==> GoodAfter(before) by { assert before[..|before|] == before; }
      if GoodAfter(before) && RunExec(before).Some? && DoOp(RunExec(before).value, Final(ops)).Some? {
        StaysGoodIff(RunExec(before).value, Final(ops));
      }
    }
  }

  // ------------------------------------------------------------ three queues and a set

  /** What the statuses are for: three queues of different nodes, and the nodes among the state changes
      for which a check has been asked as well. */
  datatype Plain<T> = Plain(candidates: seq<T>, changes: seq<T>, finished: seq<T>, again: set<T>)

  ghost function Again<T>(status: map<T, QueueStatus>): set<T> {
    set n | n in status && status[n] == TRANSITION_CHECK
  }

  ghost function PlainOf<T>(e: Exec<T>): Plain<T> {
    Plain(e.candidates.chain, e.changes.chain, e.finished.chain, Again(e.status))
  }

  ghost predicate Nowhere<T>(p: Plain<T>, n: T) {
    n !in p.candidates && n !in p.changes && n !in p.finished
  }

  /** The operations without statuses; None for an internal error. */
  ghost function DoPlain<T>(p: Plain<T>, op: ExecOp<T>): Option<Plain<T>> {
    match op
    case AddCandidate(n) =>
      Some(if Nowhere(p, n) then p.(candidates := p.candidates + [n])
           else if n in p.changes then p.(again := p.again + {n}) else p)
    case GetCandidate => Some(if p.candidates == [] then p else p.(candidates := p.candidates[1..]))
    case RemoveCandidate(n) => Some(p.(candidates := Without(p.candidates, n)))
    case AddStateChange(n) =>
      if n in p.candidates || n in p.finished then None
      else Some(if n in p.changes then p else p.(changes := p.changes + [n]))
    case GetStateChange =>
      Some(if p.changes == [] then p
           else
             var n := p.changes[0];
             Plain(if n in p.again then p.candidates + [n] else p.candidates, p.changes[1..], p.finished,
                   p.again - {n}))
    case AddFinished(n) =>
      if n in p.changes then None
      else if n in p.finished then Some(p)
      else Some(p.(candidates := Without(p.candidates, n), finished := p.finished + [n]))
    case GetFinished => Some(if p.finished == [] then p else p.(finished := p.finished[1..]))
  }

  /** Marking one node puts it among those that are asked for again, or takes it out. */
  lemma MarkAgain<T>(status: map<T, QueueStatus>, n: T, s: QueueStatus)
    ensures Again(status[n := s]) == if s == TRANSITION_CHECK then Again(status) + {n} else Again(status) - {n}
    ensures n !in Again(status) && s != TRANSITION_CHECK ==> Again(status[n := s]) == Again(status)
  {
  }

  lemma PushAppends<T>(q: Queue<T>, x: T)
    requires TailIsLast(q)
    ensures Step(q, Push(x)).chain == q.chain + [x]
  {
    assert q.chain == [] ==> q.chain + [x] == [x];
  }

  lemma AgainWhenAsked<T>(e: Exec<T>, n: T)
    requires Good(e)
    ensures PlainOf(DoAddCandidate(e, n)) == DoPlain(PlainOf(e), AddCandidate(n)).value
  {
    PushAppends(e.candidates, n);
    MarkAgain(e.status, n, CHECK);
    MarkAgain(e.status, n, TRANSITION_CHECK);
    if e.StatusOf(n) == TRANSITION_CHECK {
      assert Again(e.status) + {n} == Again(e.status);
    }
  }

  lemma AgainWhenFetched<T>(e: Exec<T>)
    requires Good(e) && e.changes.chain != []
    ensures Some(PlainOf(DoOp(e, GetStateChange).value)) == DoPlain(PlainOf(e), GetStateChange)
  {
    PopDropsFirst(e.changes, 0);
    var n := e.changes.chain[0];
    PushAppends(e.candidates, n);
    MarkAgain(e.status, n, NONE);
    MarkAgain(e.status[n := NONE], n, CHECK);
  }

  lemma PlainWhenFinished<T>(e: Exec<T>, n: T)
    requires Good(e) && DoOp(e, AddFinished(n)).Some?
    ensures DoPlain(PlainOf(e), AddFinished(n)) == Some(PlainOf(DoOp(e, AddFinished(n)).value))
  {
    PushAppends(e.finished, n);
    MarkAgain(e.status, n, DELETE);
    if n !in e.candidates.chain { WithoutAbsent(e.candidates.chain, n); }
  }

  /** A safe operation does to the queues what it would do without statuses, and stops with an internal
      error exactly where that is one. */
  lemma DoesPlain<T>(e: Exec<T>, op: ExecOp<T>)
    requires Good(e) && Safe(e, op)
    ensures DoOp(e, op).Some? <==> DoPlain(PlainOf(e), op).Some?
    ensures DoOp(e, op).Some? ==> DoPlain(PlainOf(e), op) == Some(PlainOf(DoOp(e, op).value))
  {
    match op
    case AddCandidate(n) => AgainWhenAsked(e, n);
    case GetCandidate =>
      if e.candidates.chain != [] {
        PopDropsFirst(e.candidates, 0);
        MarkAgain(e.status, e.candidates.chain[0], NONE);
      }
    case RemoveCandidate(n) =>
      MarkAgain(e.status, n, NONE);
      if n !in e.candidates.chain { WithoutAbsent(e.candidates.chain, n); }
    case AddStateChange(n) =>
      PushAppends(e.changes, n);
      if e.StatusOf(n) == NONE { MarkAgain(e.status, n, TRANSITION); }
    case GetStateChange => if e.changes.chain != [] { AgainWhenFetched(e); }
    case AddFinished(n) => if DoOp(e, op).Some? { PlainWhenFinished(e, n); }
    case GetFinished =>
      if e.finished.chain != [] {
        PopDropsFirst(e.finished, 0);
        MarkAgain(e.status, e.finished.chain[0], NONE);
      }
  }

  ghost function RunPlain<T>(ops: seq<ExecOp<T>>): Option<Plain<T>> {
    if ops == [] then Some(Plain([], [], [], {}))
    else
      var before := RunPlain(ops[..|ops| - 1]);
      if before == None then None else DoPlain(before.value, Final(ops))
  }

  /** Over every run without an unsafe operation the executive's queues are those three. */
  lemma {:induction false} RunsPlain<T>(ops: seq<ExecOp<T>>)
    requires AlwaysSafe(ops)
    ensures RunExec(ops).Some? <==> RunPlain(ops).Some?
    ensures RunExec(ops).Some? ==> Good(RunExec(ops).value) && RunPlain(ops) == Some(PlainOf(RunExec(ops).value))
  {
    AlwaysGoodIff(ops);
    assert ops[..|ops|] == ops;
    assert GoodAfter(ops[..|ops|]);
    if ops == [] {
      var start: Exec<T> := Start();
      assert PlainOf(start) == Plain([], [], [], {});
    } else {
      var before := ops[..|ops| - 1];
      RunsPlain(before);
      if RunExec(before).Some? {
        DoesPlainWhenDone(RunExec(before).value, Final(ops));
      }
    }
  }

  /** Where the operation stops, it is no matter whether it would be safe. */
  lemma DoesPlainWhenDone<T>(e: Exec<T>, op: ExecOp<T>)
    requires Good(e) && (DoOp(e, op).Some? ==> Safe(e, op))
    ensures DoOp(e, op).Some? <==> DoPlain(PlainOf(e), op).Some?
    ensures DoOp(e, op).Some? ==> DoPlain(PlainOf(e), op) == Some(PlainOf(DoOp(e, op).value))
  {
    if DoOp(e, op).Some? { DoesPlain(e, op); }
  }

  // ------------------------------------------------------------ conservation

  ghost function Total<T>(e: Exec<T>): nat {
    |e.candidates.chain| + |e.changes.chain| + |e.finished.chain|
  }

  /** The nodes whose status is not NONE. */
  ghost function Busy<T>(e: Exec<T>): set<T> {
    set n | n in e.status && e.status[n] != NONE
  }

  ghost function Members<T>(s: seq<T>): set<T> {
    set n | n in s
  }

  lemma {:induction false} Distinct<T>(s: seq<T>)
    requires NoRepeats(s)
    ensures |Members(s)| == |s|
  {
    if s != [] {
      Distinct(s[1..]);
      assert Members(s) == {s[0]} + Members(s[1..]);
    }
  }

  lemma BusyIsQueued<T>(e: Exec<T>)
    requires OneQueue(e)
    ensures Busy(e) == Members(e.candidates.chain) + Members(e.changes.chain) + Members(e.finished.chain)
    ensures Members(e.candidates.chain) !! Members(e.changes.chain)
    ensures Members(e.candidates.chain) + Members(e.changes.chain) !! Members(e.finished.chain)
  {
  }

  /** The queues together hold each busy node once and nothing else. */
  lemma QueuedAreBusy<T>(e: Exec<T>)
    requires Good(e)
    ensures Total(e) == |Busy(e)|
  {
    BusyIsQueued(e);
    Distinct(e.candidates.chain);
    Distinct(e.changes.chain);
    Distinct(e.finished.chain);
    SizeOfThree(Busy(e), Members(e.candidates.chain), Members(e.changes.chain), Members(e.finished.chain));
  }

  lemma SizeOfThree<T>(all: set<T>, a: set<T>, b: set<T>, c: set<T>)
    requires all == a + b + c && a !! b && (a + b) !! c
    ensures |all| == |a| + |b| + |c|
  {
  }

  /** A node that moves leaves one queue and joins the end of the other; the third stays as it was
      and the number of queued nodes is conserved. */
  lemma MovesConserveTotal<T>(e: Exec<T>, op: ExecOp<T>, n: T)
    requires Good(e)
    requires || (op == GetStateChange && e.changes.chain != [] && e.changes.chain[0] == n
                 && e.StatusOf(n) == TRANSITION_CHECK)
             || (op == AddFinished(n) && e.StatusOf(n) == CHECK)
    ensures DoOp(e, op).Some? && Total(DoOp(e, op).value) == Total(e)
    ensures op.GetStateChange? ==>
              var after := DoOp(e, op).value;
              && [n] + after.changes.chain == e.changes.chain
              && after.candidates.chain == e.candidates.chain + [n] && after.finished == e.finished
    ensures op.AddFinished? ==>
              var after := DoOp(e, op).value;
              && after.candidates.chain == Without(e.candidates.chain, n)
              && after.finished.chain == e.finished.chain + [n] && after.changes == e.changes
  {
    if op.GetStateChange? {
      PopDropsFirst(e.changes, 0);
    } else {
      WithoutOne(e.candidates.chain, n);
    }
  }

  /** The executive's main move: the first candidate, fetched and found eligible, joins the end of
      the state change queue. */
  lemma CandidateMovesToTransition<T>(e: Exec<T>, n: T)
    requires Good(e) && e.candidates.chain != [] && e.candidates.chain[0] == n
    ensures var fetched := DoOp(e, GetCandidate).value;
            var moved := DoOp(fetched, AddStateChange(n));
            && moved.Some? && Good(moved.value) && Total(moved.value) == Total(e)
            && [n] + moved.value.candidates.chain == e.candidates.chain
            && moved.value.changes.chain == e.changes.chain + [n]
            && moved.value.finished == e.finished
  {
    GetCandidateStaysGood(e);
    PopDropsFirst(e.candidates, 0);
    var fetched := DoOp(e, GetCandidate).value;
    AddStateChangeStaysGood(fetched, n);
    assert n !in e.changes.chain;
  }

  // ------------------------------------------------------------ no request is forgotten

  /** A check of n has been asked for and is still to come. */
  ghost predicate Pending<T>(e: Exec<T>, n: T) {
    e.StatusOf(n) == CHECK || e.StatusOf(n) == TRANSITION_CHECK
  }

  /** Asking, and nothing else, makes a check pending, unless the node awaits deletion; it stays pending under every
      other operation until the node is fetched as a candidate, removed, or finished. */
  lemma RequestKept<T>(e: Exec<T>, op: ExecOp<T>, n: T)
    requires Good(e) && DoOp(e, op).Some?
    ensures op == AddCandidate(n) && e.StatusOf(n) != DELETE ==> Pending(DoOp(e, op).value, n)
    ensures !Pending(e, n) && Pending(DoOp(e, op).value, n) ==> op == AddCandidate(n)
    ensures Pending(e, n) && !Pending(DoOp(e, op).value, n) ==>
            || op in {RemoveCandidate(n), AddFinished(n)}
            || (op.GetCandidate? && e.candidates.chain != [] && e.candidates.chain[0] == n)
  {
  }

  // ------------------------------------------------------------ the unsafe step

  /** A node that was asked for while it waited to transition is fetched for its transition, put
      back as the last candidate, and, if that transition finishes it and another candidate waits,
      leaves by the unsafe removal. */
  lemma RequestedThenFinishedIsUnsafe<T>(e: Exec<T>)
    requires Good(e) && e.changes.chain != [] && e.StatusOf(e.changes.chain[0]) == TRANSITION_CHECK
    requires e.candidates.chain != []
    ensures var n, fetched := e.changes.chain[0], DoOp(e, GetStateChange).value;
            && Good(fetched) && DoOp(fetched, AddFinished(n)).Some?
            && !Good(DoOp(fetched, AddFinished(n)).value)
  {
    var n, fetched := e.changes.chain[0], DoOp(e, GetStateChange).value;
    GetStateChangeStaysGood(e);
    assert n !in e.candidates.chain;
    assert fetched.candidates.chain == e.candidates.chain + [n];
    AddFinishedStaysGoodIff(fetched, n);
  }
}
