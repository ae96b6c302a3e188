/** PlexilExec's queue management on the links: three queues that share the link field of the nodes.
    While each node is in the one queue its status names, this is what ExecQueueRuns says; after an
    unsafe operation it is not, and the last part says what happens instead. */
module ExecLinks {
  import opened Common
  import opened QueueRuns
  import opened QueueLinks
  import opened ExecQueueRuns

  datatype LinkedExec<T> = LinkedExec(candidates: Ends<T>, changes: Ends<T>, finished: Ends<T>,
                                      links: Links<T>, status: map<T, QueueStatus>) {
    ghost function StatusOf(n: T): QueueStatus {
      if n in status then status[n] else NONE
    }

    ghost function Mark(n: T, s: QueueStatus): LinkedExec<T> {
      this.(status := status[n := s])
    }

    ghost function OnCandidates(op: Op<T>): LinkedExec<T> {
      var (after, q) := StepLinks(links, candidates, op);
      this.(links := after, candidates := q)
    }

    ghost function OnChanges(op: Op<T>): LinkedExec<T> {
      var (after, q) := StepLinks(links, changes, op);
      this.(links := after, changes := q)
    }

    ghost function OnFinished(op: Op<T>): LinkedExec<T> {
      var (after, q) := StepLinks(links, finished, op);
      this.(links := after, finished := q)
    }
  }

  // ------------------------------------------------------------ the operations

  ghost function AddCandidateLinks<T>(e: LinkedExec<T>, n: T): LinkedExec<T> {
    match e.StatusOf(n)
    case NONE => e.Mark(n, CHECK).OnCandidates(Push(n))
    case TRANSITION => e.Mark(n, TRANSITION_CHECK)
    case _ => e
  }

  /** The walk of a removal from the candidates that the operation makes, if it makes one, ends. */
  ghost predicate ComesBack<T>(e: LinkedExec<T>, op: ExecOp<T>) {
    match op
    case RemoveCandidate(n) => Halts(e.links, e.candidates.first, n)
    case AddFinished(n) => e.StatusOf(n) == CHECK ==> Halts(e.links, e.candidates.first, n)
    case _ => true
  }

  /** None where the source stops with an internal error, or never comes back. */
  ghost function DoLinks<T>(e: LinkedExec<T>, op: ExecOp<T>): Option<LinkedExec<T>> {
    if !ComesBack(e, op) then None
    else
      match op
      case AddCandidate(n) => Some(AddCandidateLinks(e, n))
      case GetCandidate =>
        (match e.candidates.first
         case None => Some(e)
         case Some(n) => Some(e.OnCandidates(Pop).Mark(n, NONE)))
      case RemoveCandidate(n) => Some(e.OnCandidates(Remove(n)).Mark(n, NONE))
      case AddStateChange(n) =>
        (match e.StatusOf(n)
         case NONE => Some(e.Mark(n, TRANSITION).OnChanges(Push(n)))
         case TRANSITION => Some(e)
         case TRANSITION_CHECK => Some(e)
         case _ => None)
      case GetStateChange =>
        (match e.changes.first
         case None => Some(e)
         case Some(n) =>
           var after := e.OnChanges(Pop).Mark(n, NONE);
           Some(if e.StatusOf(n) == TRANSITION_CHECK then AddCandidateLinks(after, n) else after))
      case AddFinished(n) =>
        (match e.StatusOf(n)
         case CHECK => Some(e.OnCandidates(Remove(n)).Mark(n, DELETE).OnFinished(Push(n)))
         case NONE => Some(e.Mark(n, DELETE).OnFinished(Push(n)))
         case DELETE => Some(e)
         case _ => None)
      case GetFinished =>
        (match e.finished.first
         case None => Some(e)
         case Some(n) => Some(e.OnFinished(Pop).Mark(n, NONE)))
  }

  // ------------------------------------------------------------ in step while all is in order

  ghost predicate ShowsExec<T>(l: LinkedExec<T>, e: Exec<T>) {
    && Shows(l.links, l.candidates, e.candidates) && Shows(l.links, l.changes, e.changes)
    && Shows(l.links, l.finished, e.finished) && l.status == e.status
  }

  ghost predicate Apart<T>(e: Exec<T>) {
    && Disjoint(e.candidates.chain, e.changes.chain) && Disjoint(e.candidates.chain, e.finished.chain)
    && Disjoint(e.changes.chain, e.finished.chain)
    && Disjoint(e.changes.chain, e.candidates.chain) && Disjoint(e.finished.chain, e.candidates.chain)
    && Disjoint(e.finished.chain, e.changes.chain)
  }

  lemma GoodIsApart<T>(e: Exec<T>)
    requires OneQueue(e)
    ensures Apart(e)
  {
  }

  lemma CandidatesShow<T>(l: LinkedExec<T>, e: Exec<T>, op: Op<T>)
    requires ShowsExec(l, e) && Apart(e)
    requires op.Push? ==> TailIsLast(e.candidates) && op.item !in e.candidates.chain &&
                          op.item !in e.changes.chain && op.item !in e.finished.chain
    ensures ShowsExec(l.OnCandidates(op), e.(candidates := Step(e.candidates, op)))
    ensures Apart(e.(candidates := Step(e.candidates, op)))
  {
    StepBeside(l.links, l.candidates, e.candidates, op, l.changes, e.changes);
    StepBeside(l.links, l.candidates, e.candidates, op, l.finished, e.finished);
  }

  lemma ChangesShow<T>(l: LinkedExec<T>, e: Exec<T>, op: Op<T>)
    requires ShowsExec(l, e) && Apart(e)
    requires op.Push? ==> TailIsLast(e.changes) && op.item !in e.candidates.chain &&
                          op.item !in e.changes.chain && op.item !in e.finished.chain
    ensures ShowsExec(l.OnChanges(op), e.(changes := Step(e.changes, op)))
    ensures Apart(e.(changes := Step(e.changes, op)))
  {
    StepBeside(l.links, l.changes, e.changes, op, l.candidates, e.candidates);
    StepBeside(l.links, l.changes, e.changes, op, l.finished, e.finished);
  }

  lemma FinishedShow<T>(l: LinkedExec<T>, e: Exec<T>, op: Op<T>)
    requires ShowsExec(l, e) && Apart(e)
    requires op.Push? ==> TailIsLast(e.finished) && op.item !in e.candidates.chain &&
                          op.item !in e.changes.chain && op.item !in e.finished.chain
    ensures ShowsExec(l.OnFinished(op), e.(finished := Step(e.finished, op)))
    ensures Apart(e.(finished := Step(e.finished, op)))
  {
    StepBeside(l.links, l.finished, e.finished, op, l.candidates, e.candidates);
    StepBeside(l.links, l.finished, e.finished, op, l.changes, e.changes);
  }

  lemma AddCandidateShows<T>(l: LinkedExec<T>, e: Exec<T>, n: T)
    requires ShowsExec(l, e) && Good(e)
    ensures ShowsExec(AddCandidateLinks(l, n), DoAddCandidate(e, n))
  {
    GoodIsApart(e);
    if e.StatusOf(n) == NONE { CandidatesShow(l, e, Push(n)); }
  }

  lemma GetStateChangeShows<T>(l: LinkedExec<T>, e: Exec<T>)
    requires ShowsExec(l, e) && Good(e) && e.changes.chain != []
    ensures ShowsExec(DoLinks(l, GetStateChange).value, DoOp(e, GetStateChange).value)
  {
    var n := e.changes.chain[0];
    GoodIsApart(e);
    ChangesShow(l, e, Pop);
    LeaveStateChangeStaysGood(e);
    AddCandidateShows(l.OnChanges(Pop).Mark(n, NONE), e.Mark(n, NONE).(changes := Step(e.changes, Pop)), n);
  }

  lemma AddFinishedShows<T>(l: LinkedExec<T>, e: Exec<T>, n: T)
    requires ShowsExec(l, e) && Good(e) && (e.StatusOf(n) == NONE || e.StatusOf(n) == CHECK)
    ensures DoLinks(l, AddFinished(n)).Some?
    ensures ShowsExec(DoLinks(l, AddFinished(n)).value, DoOp(e, AddFinished(n)).value)
  {
    GoodIsApart(e);
    if e.StatusOf(n) == NONE {
      FinishedShow(l, e, Push(n));
    } else {
      RemoveShows(l.links, l.candidates, e.candidates, n);
      CandidatesShow(l, e, Remove(n));
      WithoutOne(e.candidates.chain, n);
      FinishedShow(l.OnCandidates(Remove(n)), e.(candidates := Step(e.candidates, Remove(n))), Push(n));
    }
  }

  /** From a state in order, every operation on the links, safe or not, comes back and does what
      ExecQueueRuns says. */
  lemma DoShows<T>(l: LinkedExec<T>, e: Exec<T>, op: ExecOp<T>)
    requires ShowsExec(l, e) && Good(e)
    ensures ComesBack(l, op) && (DoLinks(l, op).Some? <==> DoOp(e, op).Some?)
    ensures DoOp(e, op).Some? ==> ShowsExec(DoLinks(l, op).value, DoOp(e, op).value)
  {
    GoodIsApart(e);
    match op
    case AddCandidate(n) => AddCandidateShows(l, e, n);
    case GetCandidate => CandidatesShow(l, e, Pop);
    case RemoveCandidate(n) =>
      RemoveShows(l.links, l.candidates, e.candidates, n);
      CandidatesShow(l, e, Remove(n));
    case AddStateChange(n) => if e.StatusOf(n) == NONE { ChangesShow(l, e, Push(n)); }
    case GetStateChange => if e.changes.chain != [] { GetStateChangeShows(l, e); }
    case AddFinished(n) =>
      RemoveShows(l.links, l.candidates, e.candidates, n);
      if e.StatusOf(n) == NONE || e.StatusOf(n) == CHECK { AddFinishedShows(l, e, n); }
    case GetFinished => FinishedShow(l, e, Pop);
  }

  // ------------------------------------------------------------ runs

  /** Three empty queues; what the links of the nodes are does not matter. */
  ghost function LinkedStart<T>(links: Links<T>): LinkedExec<T> {
    LinkedExec(Ends(None, None, 0), Ends(None, None, 0), Ends(None, None, 0), links, map[])
  }

  ghost function RunOnLinks<T>(links: Links<T>, ops: seq<ExecOp<T>>): Option<LinkedExec<T>> {
    if ops == [] then Some(LinkedStart(links))
    else
      var before := RunOnLinks(links, ops[..|ops| - 1]);
      if before == None then None else DoLinks(before.value, Final(ops))
  }

  /** Up to and including the first unsafe operation the links show what RunExec says. */
  lemma {:induction false} RunShowsExec<T>(links: Links<T>, ops: seq<ExecOp<T>>)
    requires ops != [] ==> AlwaysGood(ops[..|ops| - 1])
    ensures RunOnLinks(links, ops).Some? <==> RunExec(ops).Some?
    ensures RunExec(ops).Some? ==> ShowsExec(RunOnLinks(links, ops).value, RunExec(ops).value)
  {
    if ops != [] {
      var before := ops[..|ops| - 1];
      if before != [] { OneMore(before); }
      RunShowsExec(links, before);
      assert before[..|before|] == before;
      if RunExec(before).Some? {
        DoShows(RunOnLinks(links, before).value, RunExec(before).value, Final(ops));
      }
    }
  }

  /** Each node is in the one queue its status names, and every tail in place, on the links. */
  ghost predicate Orderly<T(!new)>(l: LinkedExec<T>) {
    exists e :: ShowsExec(l, e) && Good(e)
  }

  lemma ShowsOne<T>(l: LinkedExec<T>, a: Exec<T>, b: Exec<T>)
    requires ShowsExec(l, a) && ShowsExec(l, b)
    ensures a == b
  {
    PathUnique(l.links, l.candidates.first, a.candidates.chain, b.candidates.chain);
    PathUnique(l.links, l.changes.first, a.changes.chain, b.changes.chain);
    PathUnique(l.links, l.finished.first, a.finished.chain, b.finished.chain);
  }

  ghost predicate OrderlyAfter<T(!new)>(links: Links<T>, ops: seq<ExecOp<T>>) {
    RunOnLinks(links, ops).Some? ==> Orderly(RunOnLinks(links, ops).value)
  }

  lemma OrderlyIsGood<T(!new)>(links: Links<T>, ops: seq<ExecOp<T>>)
    requires ops != [] ==> AlwaysGood(ops[..|ops| - 1])
    ensures OrderlyAfter(links, ops) <==> GoodAfter(ops)
  {
    RunShowsExec(links, ops);
    if RunExec(ops).Some? && Orderly(RunOnLinks(links, ops).value) {
      var e :| ShowsExec(RunOnLinks(links, ops).value, e) && Good(e);
      ShowsOne(RunOnLinks(links, ops).value, e, RunExec(ops).value);
    }
  }

  /** Over whole runs of the links: each node is in the one queue its status names, with every tail
      in place, after every operation exactly when no operation was unsafe where it was performed. */
  lemma {:induction false} AlwaysOrderlyIff<T(!new)>(links: Links<T>, ops: seq<ExecOp<T>>)
    ensures (forall n :: 0 <= n <= |ops| ==> OrderlyAfter(links, ops[..n])) <==> AlwaysSafe(ops)
  {
    if ops == [] {
      assert ops[..0] == ops;
      AlwaysGoodIff(ops);
      OrderlyIsGood(links, ops);
      assert GoodAfter(ops);
    } else {
      var before := ops[..|ops| - 1];
      AlwaysOrderlyIff(links, before);
      AlwaysGoodIff(before);
      AlwaysGoodIff(ops);
      OneMore(ops);
      assert ops[..|ops|] == ops;
      assert forall n :: 0 <= n <= |before| ==> ops[..n] == before[..n];
      if AlwaysSafe(before) {
        OrderlyIsGood(links, ops);
      }
    }
  }

  // ------------------------------------------------------------ new nodes

  /** A plan is added with its nodes between the operations. */
  datatype Happening<T> = NewNode(node: T) | Do(op: ExecOp<T>)

  ghost predicate IsNew<T>(l: LinkedExec<T>, h: Happening<T>) {
    h.NewNode? ==> h.node !in l.links
  }

  ghost function Happen<T>(l: LinkedExec<T>, h: Happening<T>): Option<LinkedExec<T>> {
    match h
    case NewNode(n) => Some(l.(links := l.links[n := None]))
    case Do(op) => DoLinks(l, op)
  }

  ghost function HappenOnChains<T>(e: Exec<T>, h: Happening<T>): Option<Exec<T>> {
    match h
    case NewNode(_) => Some(e)
    case Do(op) => DoOp(e, op)
  }

  ghost predicate SafeHere<T>(e: Exec<T>, h: Happening<T>) {
    h.Do? ==> Safe(e, h.op)
  }

  /** That there is one more node changes nothing for the others. */
  lemma NewNodeShows<T>(l: LinkedExec<T>, e: Exec<T>, node: T)
    requires ShowsExec(l, e) && node !in l.links
    ensures ShowsExec(l.(links := l.links[node := None]), e)
  {
    var after := l.links[node := None];
    PathKept(l.links, after, l.candidates.first, e.candidates.chain);
    PathKept(l.links, after, l.changes.first, e.changes.chain);
    PathKept(l.links, after, l.finished.first, e.finished.chain);
  }

  /** From a state in order, every operation and every new node does on the links what it does on
      the chains, and leaves a state in order exactly when it is safe. */
  lemma StaysInOrderIff<T>(l: LinkedExec<T>, e: Exec<T>, h: Happening<T>)
    requires ShowsExec(l, e) && Good(e) && IsNew(l, h)
    ensures Happen(l, h).Some? <==> HappenOnChains(e, h).Some?
    ensures h.NewNode? ==> Happen(l, h).Some? && Happen(l, h).value.links.Keys == l.links.Keys + {h.node}
    ensures Happen(l, h).Some? ==>
              && ShowsExec(Happen(l, h).value, HappenOnChains(e, h).value)
              && (Good(HappenOnChains(e, h).value) <==> SafeHere(e, h))
  {
    match h
    case NewNode(n) => NewNodeShows(l, e, n);
    case Do(op) =>
      DoShows(l, e, op);
      if DoOp(e, op).Some? { StaysGoodIff(e, op); }
  }

  /** A run of the executive from no nodes at all. */
  ghost function RunAll<T>(hs: seq<Happening<T>>): Option<LinkedExec<T>> {
    if hs == [] then Some(LinkedStart(map[]))
    else
      var before := RunAll(hs[..|hs| - 1]);
      if before == None then None else Happen(before.value, Final(hs))
  }

  /** No node is new twice. */
  ghost predicate NewOnce<T>(hs: seq<Happening<T>>) {
    hs == [] ||
    var before := hs[..|hs| - 1];
    NewOnce(before) && (RunAll(before).Some? ==> IsNew(RunAll(before).value, Final(hs)))
  }

  ghost function OpsOf<T>(hs: seq<Happening<T>>): seq<ExecOp<T>> {
    if hs == [] then []
    else OpsOf(hs[..|hs| - 1]) + if Final(hs).Do? then [Final(hs).op] else []
  }

  ghost predicate InOrderAfter<T(!new)>(hs: seq<Happening<T>>) {
    RunAll(hs).Some? ==> Orderly(RunAll(hs).value)
  }

  ghost predicate AlwaysInOrder<T(!new)>(hs: seq<Happening<T>>) {
    forall n :: 0 <= n <= |hs| ==> InOrderAfter(hs[..n])
  }

  lemma OneMoreHappens<T(!new)>(hs: seq<Happening<T>>)
    requires hs != []
    ensures AlwaysInOrder(hs) <==> AlwaysInOrder(hs[..|hs| - 1]) && InOrderAfter(hs)
  {
    var before := hs[..|hs| - 1];
    assert hs[..|hs|] == hs;
    assert forall n :: 0 <= n <= |before| ==> hs[..n] == before[..n];
  }

  /** While all states are in order the run shows what RunExec makes of its operations. */
  ghost predicate RunsAlike<T>(hs: seq<Happening<T>>) {
    && (RunAll(hs).Some? <==> RunExec(OpsOf(hs)).Some?)
    && (RunAll(hs).Some? ==> ShowsExec(RunAll(hs).value, RunExec(OpsOf(hs)).value))
  }

  lemma OpsOfOneMore<T>(hs: seq<Happening<T>>)
    requires hs != []
    ensures var before := hs[..|hs| - 1];
            RunExec(OpsOf(hs)) == if RunExec(OpsOf(before)) == None then None
                                  else HappenOnChains(RunExec(OpsOf(before)).value, Final(hs))
    ensures AlwaysSafe(OpsOf(hs)) <==>
              var before := hs[..|hs| - 1];
              && AlwaysSafe(OpsOf(before))
              && (RunExec(OpsOf(before)).Some? && HappenOnChains(RunExec(OpsOf(before)).value, Final(hs)).Some? ==>
                    SafeHere(RunExec(OpsOf(before)).value, Final(hs)))
  {
    var before := hs[..|hs| - 1];
    if Final(hs).Do? {
      assert OpsOf(hs)[..|OpsOf(hs)| - 1] == OpsOf(before);
    } else {
      assert OpsOf(hs) == OpsOf(before);
    }
  }

  lemma RunsAlikeAndGood<T(!new)>(hs: seq<Happening<T>>)
    requires RunsAlike(hs)
    ensures InOrderAfter(hs) <==> GoodAfter(OpsOf(hs))
  {
    if RunAll(hs).Some? && Orderly(RunAll(hs).value) {
      var e :| ShowsExec(RunAll(hs).value, e) && Good(e);
      ShowsOne(RunAll(hs).value, e, RunExec(OpsOf(hs)).value);
    }
  }

  /** Over whole runs in which nodes are added as well: each node is in the one queue its status
      names, with every tail in place, after every operation exactly when none was unsafe. */
  lemma {:induction false} AlwaysInOrderIff<T(!new)>(hs: seq<Happening<T>>)
    requires NewOnce(hs)
    ensures AlwaysInOrder(hs) <==> AlwaysSafe(OpsOf(hs))
    ensures AlwaysInOrder(hs) ==> RunsAlike(hs)
  {
    if hs == [] {
      var none: seq<ExecOp<T>> := [];
      OrderlyIsGood(map[], none);
      AlwaysGoodIff(none);
      assert none[..0] == none && hs[..0] == hs && OpsOf(hs) == none;
      RunShowsExec(map[], none);
      RunsAlikeAndGood(hs);
    } else {
      var before := hs[..|hs| - 1];
      AlwaysInOrderIff(before);
      OneMoreHappens(hs);
      OpsOfOneMore(hs);
      if AlwaysInOrder(before) {
        assert before[..|before|] == before;
        InOrderMore(hs);
      }
    }
  }

  lemma OneMoreAlike<T>(hs: seq<Happening<T>>)
    requires hs != [] && NewOnce(hs) && RunsAlike(hs[..|hs| - 1]) && GoodAfter(OpsOf(hs[..|hs| - 1]))
    ensures RunsAlike(hs)
    ensures var before := RunExec(OpsOf(hs[..|hs| - 1]));
            GoodAfter(OpsOf(hs)) <==> (before.Some? && HappenOnChains(before.value, Final(hs)).Some? ==>
                                         SafeHere(before.value, Final(hs)))
  {
    var before := hs[..|hs| - 1];
    OpsOfOneMore(hs);
    if RunAll(before).Some? {
      StaysInOrderIff(RunAll(before).value, RunExec(OpsOf(before)).value, Final(hs));
    }
  }

  lemma InOrderMore<T(!new)>(hs: seq<Happening<T>>)
    requires hs != [] && NewOnce(hs) && RunsAlike(hs[..|hs| - 1]) && InOrderAfter(hs[..|hs| - 1])
    ensures RunsAlike(hs)
    ensures var before := RunExec(OpsOf(hs[..|hs| - 1]));
            InOrderAfter(hs) <==> (before.Some? && HappenOnChains(before.value, Final(hs)).Some? ==>
                                     SafeHere(before.value, Final(hs)))
  {
    RunsAlikeAndGood(hs[..|hs| - 1]);
    OneMoreAlike(hs);
    RunsAlikeAndGood(hs);
  }

  // ------------------------------------------------------------ after the unsafe step

  /** The chains of candidates, state changes and finished roots, with the candidates' tail at
      position i of the finished roots. */
  ghost predicate Astray<T>(l: LinkedExec<T>, c: seq<T>, g: seq<T>, f: seq<T>, i: nat) {
    && c != [] && Path(l.links, l.candidates.first, c) && Path(l.links, l.changes.first, g)
    && Path(l.links, l.finished.first, f) && Disjoint(c, f) && Disjoint(g, f)
    && i < |f| && l.candidates.tail == Some(f[i])
  }

  /** Finishing the last of two or more candidates leaves the candidates' tail on the last finished
      root, which is where the root has gone. */
  lemma FinishedLastStrays<T>(l: LinkedExec<T>, e: Exec<T>, last: T)
    requires ShowsExec(l, e) && Good(e) && RemovesLast(e.candidates.chain, Remove(last))
    ensures DoLinks(l, AddFinished(last)).Some?
    ensures var after := DoLinks(l, AddFinished(last)).value;
            && Astray(after, Without(e.candidates.chain, last), e.changes.chain,
                      e.finished.chain + [last], |e.finished.chain|)
            && after.finished.tail == Some(last) && after.status == l.status[last := DELETE]
            && after.finished.count == |e.finished.chain| + 1
  {
    assert last in e.candidates.chain;
    DoShows(l, e, AddFinished(last));
    GoodIsApart(e);
    WithoutOne(e.candidates.chain, last);
    assert last !in e.finished.chain;
  }

  /** Another root finished meanwhile goes behind it. */
  lemma AstrayGrows<T>(l: LinkedExec<T>, c: seq<T>, g: seq<T>, f: seq<T>, i: nat, r: T)
    requires Astray(l, c, g, f, i) && l.finished.tail == Some(Final(f))
    requires l.StatusOf(r) == NONE && r !in c && r !in g && r !in f
    ensures DoLinks(l, AddFinished(r)).Some?
    ensures var after := DoLinks(l, AddFinished(r)).value;
            && Astray(after, c, g, f + [r], i) && after.finished.tail == Some(r)
            && after.status == l.status[r := DELETE] && after.finished.count == l.finished.count + 1
  {
    var v := Queue(f, l.finished.tail, l.finished.count);
    PushShows(l.links, l.finished, v, r);
    PushBeside(l.links, l.finished, r, l.candidates.first, c);
    PushBeside(l.links, l.finished, r, l.changes.first, g);
    assert Final(f) in f;
  }

  /** A node that is asked for next is marked for checking and counted as a candidate, but linked
      into the chain of finished roots, of which everything behind the stray tail is cut off; asking
      again changes nothing. */
  lemma AskedWhileAstray<T>(l: LinkedExec<T>, c: seq<T>, g: seq<T>, f: seq<T>, i: nat, n: T)
    requires Astray(l, c, g, f, i) && l.StatusOf(n) == NONE && n !in c && n !in g && n !in f
    ensures var after := AddCandidateLinks(l, n);
            && after.StatusOf(n) == CHECK && after.candidates.count == l.candidates.count + 1
            && Path(after.links, after.candidates.first, c) && Path(after.links, after.changes.first, g)
            && Path(after.links, after.finished.first, f[..i + 1] + [n])
            && after.finished == l.finished
            && AddCandidateLinks(after, n) == after
  {
    PushThroughForeignTail(l.links, l.candidates, n, c, l.finished.first, f, i);
    PushBeside(l.links, l.candidates, n, l.changes.first, g);
  }

  /** When the last of several candidates is removed from consideration instead, its link is written
      while it is in no queue: the next candidate is marked and counted, and in no queue either. */
  lemma RemovedLastStarves<T>(l: LinkedExec<T>, e: Exec<T>, last: T, n: T)
    requires ShowsExec(l, e) && Good(e) && RemovesLast(e.candidates.chain, Remove(last))
    requires e.StatusOf(n) == NONE
    ensures DoLinks(l, RemoveCandidate(last)).Some?
    ensures var asked := AddCandidateLinks(DoLinks(l, RemoveCandidate(last)).value, n);
            var c, g, f := Without(e.candidates.chain, last), e.changes.chain, e.finished.chain;
            && asked.StatusOf(n) == CHECK && AddCandidateLinks(asked, n) == asked
            && asked.candidates.count == |c| + 1
            && Path(asked.links, asked.candidates.first, c) && n !in c
            && Path(asked.links, asked.changes.first, g) && n !in g
            && Path(asked.links, asked.finished.first, f) && n !in f
  {
    assert last in e.candidates.chain;
    DoShows(l, e, RemoveCandidate(last));
    WithoutOne(e.candidates.chain, last);
    var removed := DoLinks(l, RemoveCandidate(last)).value;
    var v := Step(e.candidates, Remove(last));
    PushShows(removed.links, removed.candidates, v, n);
    PushBeside(removed.links, removed.candidates, n, removed.changes.first, e.changes.chain);
    PushBeside(removed.links, removed.candidates, n, removed.finished.first, e.finished.chain);
  }

  ghost function Deliver<T>(l: LinkedExec<T>, k: nat): LinkedExec<T> {
    if k == 0 then l
    else
      var before := Deliver(l, k - 1);
      match before.finished.first
      case None => before
      case Some(n) => before.OnFinished(Pop).Mark(n, NONE)
  }

  lemma DeliverIsGetFinished<T>(l: LinkedExec<T>, k: nat)
    requires k > 0
    ensures DoLinks(Deliver(l, k - 1), GetFinished) == Some(Deliver(l, k))
  {
  }

  /** Fetching k finished roots goes down the chain as long as it does not fetch the tail. */
  lemma {:induction false} DeliverAlong<T>(l: LinkedExec<T>, f: seq<T>, k: nat)
    requires Path(l.links, l.finished.first, f) && k <= |f|
    requires forall j :: 0 <= j < k ==> l.finished.tail != Some(f[j])
    ensures var after := Deliver(l, k);
            after.links == l.links && after.finished.first == At(f, k) && after.finished.tail == l.finished.tail
  {
    if k > 0 {
      DeliverAlong(l, f, k - 1);
      assert Next(l.links, f[k - 1]) == At(f, k);
    }
  }

  /** Whatever is linked behind the tail is dropped with it. */
  lemma DropsBehindTail<T>(l: LinkedExec<T>, f: seq<T>, i: nat)
    requires Path(l.links, l.finished.first, f) && i < |f| && l.finished.tail == Some(f[i])
    ensures Deliver(l, i).finished.first == Some(f[i]) && Deliver(l, i + 1).finished.first == None
  {
    PathOnce(l.links, l.finished.first, f);
    DeliverAlong(l, f, i);
  }

  // ------------------------------------------------------------ deleting the finished plans

  /** deleteFinishedPlans: the finished roots' queue, the list of plans, what has been deleted, and
      the node over which it stopped with an internal error, if any. */
  datatype Purge<T> = Purge(finished: Ends<T>, plan: seq<T>, deleted: seq<T>, stray: Option<T>)

  ghost predicate Over<T>(p: Purge<T>) {
    p.stray.Some? || p.finished.first == None
  }

  ghost function PurgeOne<T>(links: Links<T>, p: Purge<T>): Purge<T> {
    if Over(p) then p
    else
      var n, rest := p.finished.first.value, PopLinks(links, p.finished);
      if n in p.plan then Purge(rest, Without(p.plan, n), p.deleted + [n], None)
      else Purge(rest, p.plan, p.deleted, Some(n))
  }

  ghost function PurgeMany<T>(links: Links<T>, p: Purge<T>, k: nat): Purge<T> {
    if k == 0 then p else PurgeOne(links, PurgeMany(links, p, k - 1))
  }

  lemma WithoutConserves<T>(s: seq<T>, x: T)
    requires x in s
    ensures multiset(Without(s, x)) + multiset{x} == multiset(s)
    ensures Subsequence(Without(s, x), s)
  {
    var i := WithoutAt(s, x);
    assert s == s[..i] + [x] + s[i + 1..];
    assert Embeds(s, s, seq(|s|, k => k));
    SubsequenceWithout(s, s, i);
  }

  lemma SubsequenceSelf<T>(s: seq<T>)
    ensures Subsequence(s, s)
  {
    assert Embeds(s, s, seq(|s|, k => k));
  }

  lemma SubsequenceTransitive<T>(a: seq<T>, b: seq<T>, c: seq<T>)
    requires Subsequence(a, b) && Subsequence(b, c)
    ensures Subsequence(a, c)
  {
    var f: seq<nat> :| Embeds(a, b, f);
    var g: seq<nat> :| Embeds(b, c, g);
    var h: seq<nat> := seq(|a|, k requires 0 <= k < |a| => g[f[k]]);
    assert Embeds(a, c, h);
  }

  /** The plans that are left and the nodes deleted are together the plans there were, and those left
      stand in their old order. */
  ghost predicate Conserves<T>(plan: seq<T>, p: Purge<T>) {
    multiset(p.plan) + multiset(p.deleted) == multiset(plan) && Subsequence(p.plan, plan)
  }

  lemma PurgeOneConserves<T>(links: Links<T>, plan: seq<T>, p: Purge<T>)
    requires Conserves(plan, p)
    ensures Conserves(plan, PurgeOne(links, p))
  {
    if !Over(p) {
      var n := p.finished.first.value;
      if n in p.plan {
        WithoutConserves(p.plan, n);
        SubsequenceTransitive(Without(p.plan, n), p.plan, plan);
      }
    }
  }

  /** However the queue is linked, deleting the finished plans takes out of the plans exactly what it
      deletes. */
  lemma {:induction false} PurgeConserves<T>(l: LinkedExec<T>, plan: seq<T>, k: nat)
    ensures Conserves(plan, PurgeMany(l.links, PurgeStart(l, plan), k))
  {
    if k == 0 {
      SubsequenceSelf(plan);
    } else {
      PurgeConserves(l, plan, k - 1);
      PurgeOneConserves(l.links, plan, PurgeMany(l.links, PurgeStart(l, plan), k - 1));
    }
  }

  /** Each turn takes one node out of the queue: it is deleted, or the deletion stops over it. */
  lemma {:induction false} PurgeCounts<T>(l: LinkedExec<T>, plan: seq<T>, k: nat)
    ensures var p := PurgeMany(l.links, PurgeStart(l, plan), k);
            p.finished.count + |p.deleted| + (if p.stray == None then 0 else 1) == l.finished.count
  {
    if k > 0 {
      PurgeCounts(l, plan, k - 1);
    }
  }

  /** So of plans that are listed once none that was deleted is left. */
  lemma DeletedAreGone<T>(plan: seq<T>, p: Purge<T>, n: T)
    requires NoRepeats(plan) && Conserves(plan, p) && n in p.deleted
    ensures n !in p.plan
  {
    AtMostOnce(plan, n);
    assert multiset(p.plan)[n] + multiset(p.deleted)[n] == (multiset(p.plan) + multiset(p.deleted))[n];
    assert n in multiset(p.deleted);
    assert n !in multiset(p.plan);
  }

  lemma {:induction false} AtMostOnce<T>(s: seq<T>, x: T)
    requires NoRepeats(s)
    ensures multiset(s)[x] <= 1
  {
    if s != [] {
      AtMostOnce(s[1..], x);
      assert s == [s[0]] + s[1..];
      if s[0] == x { assert x !in s[1..]; assert multiset(s[1..])[x] == 0; }
    }
  }

  /** Once over, it stays as it is. */
  lemma {:induction false} PurgeStays<T>(links: Links<T>, p: Purge<T>, i: nat, k: nat)
    requires i <= k && Over(PurgeMany(links, p, i))
    ensures PurgeMany(links, p, k) == PurgeMany(links, p, i)
  {
    if i < k {
      PurgeStays(links, p, i, k - 1);
    }
  }

  /** p is reached after i turns, and after `all` turns it is over. */
  ghost predicate Reached<T>(links: Links<T>, start: Purge<T>, all: nat, i: nat, p: Purge<T>) {
    i <= all && p == PurgeMany(links, start, i) && Over(PurgeMany(links, start, all))
  }

  lemma ReachedNext<T>(links: Links<T>, start: Purge<T>, all: nat, i: nat, p: Purge<T>)
    requires Reached(links, start, all, i, p)
    ensures if Over(p) then p == PurgeMany(links, start, all)
            else i < all && Reached(links, start, all, i + 1, PurgeOne(links, p))
  {
    if Over(p) { PurgeStays(links, start, i, all); }
  }

  ghost function PurgeStart<T>(l: LinkedExec<T>, plan: seq<T>): Purge<T> {
    Purge(l.finished, plan, [], None)
  }

  lemma {:induction false} WithoutKeeps<T>(s: seq<T>, x: T, y: T)
    requires x != y
    ensures y in Without(s, x) <==> y in s
  {
    if s != [] {
      WithoutKeeps(s[1..], x, y);
    }
  }

  lemma {:induction false} WithoutIsPart<T>(s: seq<T>, x: T)
    ensures forall y :: y in Without(s, x) ==> y in s
  {
    if s != [] {
      WithoutIsPart(s[1..], x);
    }
  }

  lemma WithoutLeavesOthers<T>(plan: seq<T>, x: T)
    ensures LeavesOthers(plan, [x], Without(plan, x))
  {
    WithoutIsPart(plan, x);
    forall y | y in plan && y !in [x] ensures y in Without(plan, x) {
      assert x in [x];
      WithoutKeeps(plan, x, y);
    }
  }

  /** Of the plans, `left` keeps all but some of those in `gone`. */
  ghost predicate LeavesOthers<T>(plan: seq<T>, gone: seq<T>, left: seq<T>) {
    (forall x :: x in left ==> x in plan) && (forall x :: x in plan && x !in gone ==> x in left)
  }

  /** k steps down the chain f have deleted its first k roots, which were plans. */
  ghost predicate PurgedAlong<T>(l: LinkedExec<T>, plan: seq<T>, f: seq<T>, k: nat, p: Purge<T>)
    requires k <= |f|
  {
    && p.finished.first == At(f, k) && p.finished.tail == l.finished.tail
    && p.deleted == f[..k] && p.stray == None
    && LeavesOthers(plan, f[..k], p.plan)
  }

  lemma PurgeStep<T>(l: LinkedExec<T>, plan: seq<T>, f: seq<T>, k: nat, p: Purge<T>)
    requires Path(l.links, l.finished.first, f) && k < |f| && f[k] in plan && PurgedAlong(l, plan, f, k, p)
    ensures var q := PurgeOne(l.links, p);
            && (l.finished.tail != Some(f[k]) ==> PurgedAlong(l, plan, f, k + 1, q))
            && (l.finished.tail == Some(f[k]) ==> q.finished.first == None && q.stray == None)
            && q.deleted == f[..k + 1]
            && LeavesOthers(plan, f[..k + 1], q.plan)
  {
    PathOnce(l.links, l.finished.first, f);
    assert Next(l.links, f[k]) == At(f, k + 1);
    assert f[k] !in f[..k];
    assert f[..k + 1] == f[..k] + [f[k]];
    WithoutLeavesOthers(p.plan, f[k]);
  }

  lemma {:induction false} PurgeAlong<T>(l: LinkedExec<T>, plan: seq<T>, f: seq<T>, k: nat)
    requires Path(l.links, l.finished.first, f) && k <= |f|
    requires forall j :: 0 <= j < k ==> l.finished.tail != Some(f[j]) && f[j] in plan
    ensures PurgedAlong(l, plan, f, k, PurgeMany(l.links, PurgeStart(l, plan), k))
  {
    if k > 0 {
      PurgeAlong(l, plan, f, k - 1);
      PurgeStep(l, plan, f, k - 1, PurgeMany(l.links, PurgeStart(l, plan), k - 1));
    }
  }

  lemma Gone<T>(l: LinkedExec<T>, plan: seq<T>, k: nat)
    ensures var p := PurgeMany(l.links, PurgeStart(l, plan), k);
            Conserves(plan, p) && (NoRepeats(plan) ==> forall n :: n in p.deleted ==> n !in p.plan)
  {
    var p := PurgeMany(l.links, PurgeStart(l, plan), k);
    PurgeConserves(l, plan, k);
    if NoRepeats(plan) {
      forall n | n in p.deleted ensures n !in p.plan {
        DeletedAreGone(plan, p, n);
      }
    }
  }

  lemma PurgeDownTo<T>(l: LinkedExec<T>, plan: seq<T>, f: seq<T>, i: nat)
    requires Path(l.links, l.finished.first, f) && i < |f| && l.finished.tail == Some(f[i])
    requires forall j :: 0 <= j <= i ==> f[j] in plan
    ensures var p := PurgeMany(l.links, PurgeStart(l, plan), i + 1);
            Over(p) && p.stray == None && p.deleted == f[..i + 1] && LeavesOthers(plan, f[..i + 1], p.plan)
  {
    PathOnce(l.links, l.finished.first, f);
    PurgeAlong(l, plan, f, i);
    PurgeStep(l, plan, f, i, PurgeMany(l.links, PurgeStart(l, plan), i));
  }

  /** Down to the tail: all roots up to it are deleted and are plans no more, and what is linked behind
      it is dropped. */
  lemma PurgeToTail<T>(l: LinkedExec<T>, plan: seq<T>, f: seq<T>, i: nat)
    requires Path(l.links, l.finished.first, f) && i < |f| && l.finished.tail == Some(f[i])
    requires forall j :: 0 <= j <= i ==> f[j] in plan
    ensures var p := PurgeMany(l.links, PurgeStart(l, plan), i + 1);
            && Over(p) && p.stray == None && p.deleted == f[..i + 1]
            && Conserves(plan, p) && (NoRepeats(plan) ==> forall n :: n in f[..i + 1] ==> n !in p.plan)
            && LeavesOthers(plan, f[..i + 1], p.plan)
  {
    PurgeDownTo(l, plan, f, i);
    Gone(l, plan, i + 1);
  }

  lemma PurgesAll<T>(l: LinkedExec<T>, f: seq<T>, plan: seq<T>)
    requires Path(l.links, l.finished.first, f) && (f != [] ==> l.finished.tail == Some(Final(f)))
    requires forall n :: n in f ==> n in plan
    ensures var p := PurgeMany(l.links, PurgeStart(l, plan), |f|);
            Over(p) && p.stray == None && p.deleted == f && LeavesOthers(plan, f, p.plan)
  {
    if f != [] {
      PurgeDownTo(l, plan, f, |f| - 1);
      assert f[..|f|] == f;
    }
  }

  /** From a state in order whose finished roots are plans, exactly they are deleted, in order. */
  lemma PurgeInOrder<T>(l: LinkedExec<T>, e: Exec<T>, plan: seq<T>)
    requires ShowsExec(l, e) && Good(e) && forall n :: n in e.finished.chain ==> n in plan
    ensures var f := e.finished.chain;
            var p := PurgeMany(l.links, PurgeStart(l, plan), |f|);
            && Over(p) && p.stray == None && p.deleted == f
            && Conserves(plan, p) && (NoRepeats(plan) ==> forall n :: n in f ==> n !in p.plan)
            && LeavesOthers(plan, f, p.plan)
  {
    Gone(l, plan, |e.finished.chain|);
    PurgesAll(l, e.finished.chain, plan);
  }

  // ------------------------------------------------------------ what becomes of the node

  /** Nothing between: the node stands behind the root that was finished. */
  lemma AskedBehind<T>(l: LinkedExec<T>, c: seq<T>, g: seq<T>, f: seq<T>, last: T, n: T)
    requires Astray(l, c, g, f + [last], |f|) && l.StatusOf(n) == NONE
    requires n !in c && n !in g && n !in f + [last]
    ensures var asked := AddCandidateLinks(l, n);
            && asked.StatusOf(n) == CHECK && AddCandidateLinks(asked, n) == asked
            && Path(asked.links, asked.candidates.first, c) && Path(asked.links, asked.changes.first, g)
            && Path(asked.links, asked.finished.first, f + [last, n]) && asked.finished == l.finished
  {
    AskedWhileAstray(l, c, g, f + [last], |f|, n);
    assert (f + [last])[..|f| + 1] + [n] == f + [last, n];
  }

  lemma AskedBehindLast<T>(l: LinkedExec<T>, e: Exec<T>, last: T, n: T)
    requires ShowsExec(l, e) && Good(e) && RemovesLast(e.candidates.chain, Remove(last))
    requires e.StatusOf(n) == NONE
    ensures DoLinks(l, AddFinished(last)).Some?
    ensures var asked := AddCandidateLinks(DoLinks(l, AddFinished(last)).value, n);
            var c, g, f := Without(e.candidates.chain, last), e.changes.chain, e.finished.chain;
            && asked.StatusOf(n) == CHECK && AddCandidateLinks(asked, n) == asked
            && Path(asked.links, asked.candidates.first, c) && n !in c
            && Path(asked.links, asked.changes.first, g) && n !in g
            && Path(asked.links, asked.finished.first, f + [last, n])
            && asked.finished.tail == Some(last) && asked.finished.count == |f| + 1
  {
    FinishedLastStrays(l, e, last);
    assert last in e.candidates.chain;
    WithoutOne(e.candidates.chain, last);
    AskedBehind(DoLinks(l, AddFinished(last)).value, Without(e.candidates.chain, last), e.changes.chain,
                e.finished.chain, last, n);
  }

  /** When the finished plans are deleted then, or fetched one by one, that root is the last: the
      node is dropped, marked CHECK and in no queue. */
  lemma FinishedLastStarves<T>(l: LinkedExec<T>, e: Exec<T>, last: T, n: T, plan: seq<T>)
    requires ShowsExec(l, e) && Good(e) && RemovesLast(e.candidates.chain, Remove(last))
    requires e.StatusOf(n) == NONE && last in plan && forall x :: x in e.finished.chain ==> x in plan
    ensures DoLinks(l, AddFinished(last)).Some?
    ensures var asked := AddCandidateLinks(DoLinks(l, AddFinished(last)).value, n);
            var f := e.finished.chain;
            var p := PurgeMany(asked.links, PurgeStart(asked, plan), |f| + 1);
            && Deliver(asked, |f|).finished.first == Some(last)
            && Deliver(asked, |f| + 1).finished.first == None
            && Over(p) && p.stray == None && p.deleted == f + [last]
            && asked.StatusOf(n) == CHECK && n !in f + [last]
            && Path(asked.links, asked.candidates.first, Without(e.candidates.chain, last))
            && n !in Without(e.candidates.chain, last) && n !in e.changes.chain
  {
    var f := e.finished.chain;
    AskedBehindLast(l, e, last, n);
    var asked := AddCandidateLinks(DoLinks(l, AddFinished(last)).value, n);
    assert (f + [last, n])[|f|] == last && (f + [last, n])[..|f| + 1] == f + [last];
    DropsBehindTail(asked, f + [last, n], |f|);
    PurgeToTail(asked, plan, f + [last, n], |f|);
    assert last in e.candidates.chain;
  }

  /** Another root between: that root is cut off, in no queue and still marked for deletion. */
  lemma AskedBehindRoot<T>(l: LinkedExec<T>, c: seq<T>, g: seq<T>, f: seq<T>, last: T, r: T, n: T)
    requires Astray(l, c, g, f + [last], |f|) && l.finished.tail == Some(last)
    requires l.StatusOf(r) == NONE && r !in c && r !in g && r !in f + [last]
    requires l.StatusOf(n) == NONE && n !in c && n !in g && n !in f + [last] && n != r
    ensures DoLinks(l, AddFinished(r)).Some?
    ensures var asked := AddCandidateLinks(DoLinks(l, AddFinished(r)).value, n);
            && asked.StatusOf(r) == DELETE && asked.StatusOf(n) == CHECK
            && Path(asked.links, asked.candidates.first, c) && Path(asked.links, asked.changes.first, g)
            && Path(asked.links, asked.finished.first, f + [last, n]) && asked.finished.tail == Some(r)
  {
    AstrayGrows(l, c, g, f + [last], |f|, r);
    assert f + [last] + [r] == f + [last, r];
    AskedWhileAstray(DoLinks(l, AddFinished(r)).value, c, g, f + [last, r], |f|, n);
    assert (f + [last, r])[..|f| + 1] + [n] == f + [last, n];
  }

  lemma PurgeUpTo<T>(l: LinkedExec<T>, plan: seq<T>, f: seq<T>, n: T)
    requires Path(l.links, l.finished.first, f + [n]) && forall x :: x in f ==> x in plan
    requires forall x :: x in f + [n] ==> l.finished.tail != Some(x)
    ensures var p := PurgeMany(l.links, PurgeStart(l, plan), |f|);
            PurgedAlong(l, plan, f + [n], |f|, p) && p.deleted == f && p.finished.first == Some(n)
  {
    var all := f + [n];
    forall j | 0 <= j < |f| ensures l.finished.tail != Some(all[j]) && all[j] in plan {
      assert all[j] == f[j] && all[j] in all;
    }
    PurgeAlong(l, plan, all, |f|);
    assert all[..|f|] == f;
  }

  /** A chain of finished roots that ends in a node which is not finished, and whose tail is elsewhere:
      what deleting the finished plans does to that node. */
  lemma PurgeReachesNode<T>(l: LinkedExec<T>, plan: seq<T>, f: seq<T>, n: T)
    requires Path(l.links, l.finished.first, f + [n]) && forall x :: x in f ==> x in plan
    requires forall x :: x in f + [n] ==> l.finished.tail != Some(x)
    ensures var p := PurgeMany(l.links, PurgeStart(l, plan), |f| + 1);
            && Over(p)
            && (if n in plan then p.stray == None && p.deleted == f + [n] else p.stray == Some(n) && p.deleted == f)
            && p.finished.first == None
            && LeavesOthers(plan, f + [n], p.plan)
  {
    var k, all := |f|, f + [n];
    PurgeUpTo(l, plan, f, n);
    var p := PurgeMany(l.links, PurgeStart(l, plan), k);
    assert all[..k] == f && all[..k + 1] == all && all[k] == n && n in all;
    assert Next(l.links, all[k]) == At(all, k + 1);
    if n in plan {
      PurgeStep(l, plan, all, k, p);
      assert l.finished.tail != Some(n);
    }
  }

  /** So the node is delivered in the place of the root that was cut off.  When the finished plans are
      deleted, it is deleted although it is not finished, if it is a plan, and stops the deletion with
      an internal error if it is not; the root that was cut off stays. */
  lemma RootLostNodeDelivered<T>(l: LinkedExec<T>, e: Exec<T>, last: T, r: T, n: T, plan: seq<T>)
    requires ShowsExec(l, e) && Good(e) && RemovesLast(e.candidates.chain, Remove(last))
    requires e.StatusOf(r) == NONE && e.StatusOf(n) == NONE && r != n
    requires last in plan && r in plan && forall x :: x in e.finished.chain ==> x in plan
    ensures DoLinks(l, AddFinished(last)).Some?
    ensures DoLinks(DoLinks(l, AddFinished(last)).value, AddFinished(r)).Some?
    ensures var finished := DoLinks(DoLinks(l, AddFinished(last)).value, AddFinished(r)).value;
            var asked := AddCandidateLinks(finished, n);
            var c, g, f := Without(e.candidates.chain, last), e.changes.chain, e.finished.chain;
            var p := PurgeMany(asked.links, PurgeStart(asked, plan), |f| + 2);
            && asked.StatusOf(r) == DELETE && asked.StatusOf(n) == CHECK
            && Path(asked.links, asked.candidates.first, c) && r !in c && n !in c
            && Path(asked.links, asked.changes.first, g) && r !in g && n !in g
            && Path(asked.links, asked.finished.first, f + [last, n]) && r !in f + [last, n]
            && Deliver(asked, |f| + 1).finished.first == Some(n)
            && Over(p) && r in p.plan
            && (if n in plan then p.stray == None && p.deleted == f + [last, n]
                else p.stray == Some(n) && p.deleted == f + [last])
  {
    var c, g, f := Without(e.candidates.chain, last), e.changes.chain, e.finished.chain;
    FinishedLastStrays(l, e, last);
    var strayed := DoLinks(l, AddFinished(last)).value;
    assert last in e.candidates.chain;
    WithoutOne(e.candidates.chain, last);
    AskedBehindRoot(strayed, c, g, f, last, r, n);
    NodeReached(AddCandidateLinks(DoLinks(strayed, AddFinished(r)).value, n), plan, f, last, r, n);
  }

  lemma NodeReached<T>(asked: LinkedExec<T>, plan: seq<T>, f: seq<T>, last: T, r: T, n: T)
    requires Path(asked.links, asked.finished.first, f + [last, n]) && asked.finished.tail == Some(r)
    requires r !in f && r != last && r != n && last in plan && r in plan && forall x :: x in f ==> x in plan
    ensures Deliver(asked, |f| + 1).finished.first == Some(n)
    ensures var p := PurgeMany(asked.links, PurgeStart(asked, plan), |f| + 2);
            && Over(p) && r in p.plan
            && (if n in plan then p.stray == None && p.deleted == f + [last, n]
                else p.stray == Some(n) && p.deleted == f + [last])
  {
    assert f + [last] + [n] == f + [last, n];
    DeliverAlong(asked, f + [last, n], |f| + 1);
    PurgeReachesNode(asked, plan, f + [last], n);
  }

  // ------------------------------------------------------------ a run that gets there

  lemma RunOneMore<T>(links: Links<T>, ops: seq<ExecOp<T>>, op: ExecOp<T>)
    requires RunOnLinks(links, ops).Some?
    ensures RunOnLinks(links, ops + [op]) == DoLinks(RunOnLinks(links, ops).value, op)
  {
    assert (ops + [op])[..|ops|] == ops;
  }

  /** A queue that holds c and has lost nothing. */
  ghost function Tidy<T>(c: seq<T>): Queue<T> {
    Queue(c, if c == [] then None else Some(Final(c)), |c|)
  }

  lemma PopTidy<T>(x: T, rest: seq<T>)
    requires x !in rest
    ensures Step(Tidy([x] + rest), Pop) == Tidy(rest)
  {
    assert ([x] + rest)[1..] == rest;
    if rest != [] { assert Final([x] + rest) == Final(rest) && Final(rest) in rest; }
  }

  ghost predicate Looks<T>(e: Exec<T>, c: seq<T>, g: seq<T>) {
    e.candidates == Tidy(c) && e.changes == Tidy(g) && e.finished == Tidy([])
  }

  ghost function Then<T>(e: Option<Exec<T>>, op: ExecOp<T>): Option<Exec<T>> {
    if e == None then None else DoOp(e.value, op)
  }

  /** x becomes a candidate. */
  lemma Asked<T>(e: Exec<T>, c: seq<T>, g: seq<T>, x: T)
    requires Looks(e, c, g) && e.StatusOf(x) == NONE
    ensures var after := DoAddCandidate(e, x);
            Looks(after, c + [x], g) && after.status == e.status[x := CHECK]
  {
  }

  /** The first candidate is found eligible and moves on. */
  lemma Chosen<T>(e: Exec<T>, c: seq<T>, g: seq<T>, x: T) returns (after: Exec<T>)
    requires Looks(e, [x] + c, g) && x !in c
    ensures Then(Then(Some(e), GetCandidate), AddStateChange(x)) == Some(after)
    ensures Looks(after, c, g + [x]) && after.status == e.status[x := TRANSITION]
  {
    PopTidy(x, c);
    after := Then(Then(Some(e), GetCandidate), AddStateChange(x)).value;
    assert e.status[x := NONE][x := TRANSITION] == e.status[x := TRANSITION];
  }

  /** The first node of the batch makes its transition. */
  lemma Transitioned<T>(e: Exec<T>, c: seq<T>, g: seq<T>, x: T)
    requires Looks(e, c, [x] + g) && x !in g && e.StatusOf(x) == TRANSITION
    ensures var after := DoOp(e, GetStateChange).value;
            Looks(after, c, g) && after.status == e.status[x := NONE]
  {
    PopTidy(x, g);
  }

  /** It was asked for meanwhile, and is put back. */
  lemma TransitionedAgain<T>(e: Exec<T>, c: seq<T>, g: seq<T>, x: T)
    requires Looks(e, c, [x] + g) && x !in g && e.StatusOf(x) == TRANSITION_CHECK
    ensures var after := DoOp(e, GetStateChange).value;
            Looks(after, c + [x], g) && after.status == e.status[x := CHECK]
  {
    PopTidy(x, g);
    var popped := e.Mark(x, NONE).(changes := Tidy(g));
    assert DoOp(e, GetStateChange) == Some(DoAddCandidate(popped, x));
    Asked(popped, c, g, x);
    assert e.status[x := NONE][x := CHECK] == e.status[x := CHECK];
  }

  ghost function Ask<T>(a: T, b: T, r: T): seq<ExecOp<T>> {
    [AddCandidate(a)] + [AddCandidate(b)] + [AddCandidate(r)]
  }

  ghost function Choose<T>(ops: seq<ExecOp<T>>, x: T): seq<ExecOp<T>> {
    ops + [GetCandidate] + [AddStateChange(x)]
  }

  /** One cycle of step: three nodes are candidates and all are found eligible; the first to make its
      transition asks for the second and for itself; the second, which is a root, makes its own. */
  ghost function Cycle<T>(a: T, b: T, r: T): seq<ExecOp<T>> {
    Choose(Choose(Choose(Ask(a, b, r), a), b), r)
    + [GetStateChange] + [AddCandidate(b)] + [AddCandidate(a)] + [GetStateChange]
  }

  lemma ThenOne<T>(ops: seq<ExecOp<T>>, op: ExecOp<T>)
    ensures RunExec(ops + [op]) == Then(RunExec(ops), op)
  {
    assert (ops + [op])[..|ops|] == ops;
  }

  lemma ThenTwo<T>(ops: seq<ExecOp<T>>, o1: ExecOp<T>, o2: ExecOp<T>)
    ensures RunExec(ops + [o1] + [o2]) == Then(Then(RunExec(ops), o1), o2)
  {
    ThenOne(ops, o1);
    ThenOne(ops + [o1], o2);
  }

  lemma AllAsked<T>(a: T, b: T, r: T) returns (e: Exec<T>)
    requires NoRepeats([a, b, r])
    ensures RunExec(Ask(a, b, r)) == Some(e)
    ensures Looks(e, [a, b, r], []) && e.status == map[a := CHECK, b := CHECK, r := CHECK]
  {
    var none: seq<ExecOp<T>> := [];
    var ids := [a, b, r];
    assert ids[0] != ids[1] && ids[0] != ids[2] && ids[1] != ids[2];
    var e1 := DoAddCandidate(Start(), a);
    var e2 := DoAddCandidate(e1, b);
    e := DoAddCandidate(e2, r);
    Asked(Start(), [], [], a);
    Asked(e1, [a], [], b);
    Asked(e2, [a, b], [], r);
    assert [] + [a] == [a] && [a] + [b] == [a, b] && [a, b] + [r] == [a, b, r];
    ThenOne(none, AddCandidate(a));
    ThenTwo([AddCandidate(a)], AddCandidate(b), AddCandidate(r));
    assert none + [AddCandidate(a)] == [AddCandidate(a)];
  }

  lemma AllChosen<T>(ops: seq<ExecOp<T>>, e: Exec<T>, a: T, b: T, r: T) returns (after: Exec<T>)
    requires NoRepeats([a, b, r]) && RunExec(ops) == Some(e) && Looks(e, [a, b, r], [])
    ensures RunExec(Choose(Choose(Choose(ops, a), b), r)) == Some(after)
    ensures Looks(after, [], [a, b, r])
    ensures after.status == e.status[a := TRANSITION][b := TRANSITION][r := TRANSITION]
  {
    var ids := [a, b, r];
    assert ids[0] != ids[1] && ids[0] != ids[2] && ids[1] != ids[2];
    assert [a] + [b, r] == [a, b, r] && [b] + [r] == [b, r] && [r] + [] == [r];
    var e1 := Chosen(e, [b, r], [], a);
    var e2 := Chosen(e1, [r], [] + [a], b);
    after := Chosen(e2, [], [] + [a] + [b], r);
    assert [] + [a] + [b] + [r] == [a, b, r];
    ThenTwo(ops, GetCandidate, AddStateChange(a));
    ThenTwo(Choose(ops, a), GetCandidate, AddStateChange(b));
    ThenTwo(Choose(Choose(ops, a), b), GetCandidate, AddStateChange(r));
  }

  lemma TwoTransitioned<T>(ops: seq<ExecOp<T>>, e: Exec<T>, a: T, b: T, r: T) returns (after: Exec<T>)
    requires NoRepeats([a, b, r]) && RunExec(ops) == Some(e) && Looks(e, [], [a, b, r])
    requires e.StatusOf(a) == e.StatusOf(b) == e.StatusOf(r) == TRANSITION
    ensures RunExec(ops + [GetStateChange] + [AddCandidate(b)] + [AddCandidate(a)] + [GetStateChange]) == Some(after)
    ensures Looks(after, [a, b], [r]) && after.StatusOf(b) == CHECK && after.StatusOf(r) == TRANSITION
    ensures forall n :: n != a && n != b ==> after.StatusOf(n) == e.StatusOf(n)
  {
    var ids := [a, b, r];
    assert ids[0] != ids[1] && ids[0] != ids[2] && ids[1] != ids[2];
    assert [a] + [b, r] == [a, b, r] && [b] + [r] == [b, r] && [] + [a] == [a] && [a] + [b] == [a, b];
    Transitioned(e, [], [b, r], a);
    var e1 := DoOp(e, GetStateChange).value;
    var e2 := DoAddCandidate(e1, b);
    assert e2 == e1.Mark(b, TRANSITION_CHECK);
    Asked(e2, [], [b, r], a);
    var e3 := DoAddCandidate(e2, a);
    TransitionedAgain(e3, [a], [r], b);
    after := DoOp(e3, GetStateChange).value;
    ThenTwo(ops, GetStateChange, AddCandidate(b));
    ThenTwo(ops + [GetStateChange] + [AddCandidate(b)], AddCandidate(a), GetStateChange);
  }

  /** Operations that take nothing out of the candidates but their first are safe. */
  lemma {:induction false} NoRemovalIsSafe<T>(ops: seq<ExecOp<T>>)
    requires forall op :: op in ops ==> !op.RemoveCandidate? && !op.AddFinished?
    ensures AlwaysSafe(ops)
  {
    if ops != [] {
      assert Final(ops) in ops;
      NoRemovalIsSafe(ops[..|ops| - 1]);
    }
  }

  lemma CycleRuns<T>(a: T, b: T, r: T) returns (e: Exec<T>)
    requires NoRepeats([a, b, r])
    ensures RunExec(Cycle(a, b, r)) == Some(e)
    ensures Looks(e, [a, b], [r]) && e.StatusOf(b) == CHECK && e.StatusOf(r) == TRANSITION
    ensures forall n :: n != a && n != b && n != r ==> e.StatusOf(n) == NONE
  {
    var e1 := AllAsked(a, b, r);
    var e2 := AllChosen(Ask(a, b, r), e1, a, b, r);
    e := TwoTransitioned(Choose(Choose(Choose(Ask(a, b, r), a), b), r), e2, a, b, r);
  }

  /** A run without removals, on the links. */
  lemma RunsInOrder<T>(links: Links<T>, ops: seq<ExecOp<T>>)
    requires ops != [] && RunExec(ops).Some? && forall op :: op in ops ==> !op.RemoveCandidate? && !op.AddFinished?
    ensures var l := RunOnLinks(links, ops); l.Some? && ShowsExec(l.value, RunExec(ops).value)
    ensures Good(RunExec(ops).value)
  {
    NoRemovalIsSafe(ops);
    AlwaysGoodIff(ops);
    OneMore(ops);
    RunShowsExec(links, ops);
  }

  /** After the cycle, on the links: a and b wait again, r is about to make its transition. */
  lemma AfterCycle<T>(links: Links<T>, a: T, b: T, r: T) returns (e: Exec<T>)
    requires NoRepeats([a, b, r])
    ensures var l := RunOnLinks(links, Cycle(a, b, r)); l.Some? && ShowsExec(l.value, e) && Good(e)
    ensures Looks(e, [a, b], [r]) && e.StatusOf(b) == CHECK && e.StatusOf(r) == TRANSITION
    ensures forall n :: n != a && n != b && n != r ==> e.StatusOf(n) == NONE
  {
    e := CycleRuns(a, b, r);
    RunsInOrder(links, Cycle(a, b, r));
  }

  /** r makes its transition while the candidates' tail is astray. */
  lemma AstrayPops<T>(l: LinkedExec<T>, c: seq<T>, f: seq<T>, i: nat, r: T)
    requires Astray(l, c, [r], f, i) && l.StatusOf(r) == TRANSITION
    ensures DoLinks(l, GetStateChange).Some?
    ensures var after := DoLinks(l, GetStateChange).value;
            Astray(after, c, [], f, i) && after.finished == l.finished && after.status == l.status[r := NONE]
  {
    assert Next(l.links, [r][0]) == At([r], 1);
  }

  /** In such a state b finishes, then r makes its transition and finishes, then n is asked for. */
  lemma BothFinish<T>(l: LinkedExec<T>, e: Exec<T>, a: T, b: T, r: T, n: T) returns (asked: LinkedExec<T>)
    requires NoRepeats([a, b, r, n]) && ShowsExec(l, e) && Good(e)
    requires Looks(e, [a, b], [r]) && e.StatusOf(b) == CHECK && e.StatusOf(r) == TRANSITION && e.StatusOf(n) == NONE
    ensures var l1 := DoLinks(l, AddFinished(b));
            var l2 := if l1.Some? then DoLinks(l1.value, GetStateChange) else None;
            var l3 := if l2.Some? then DoLinks(l2.value, AddFinished(r)) else None;
            l3.Some? && asked == AddCandidateLinks(l3.value, n)
    ensures asked.StatusOf(r) == DELETE && asked.StatusOf(n) == CHECK
    ensures Path(asked.links, asked.finished.first, [b, n]) && asked.finished.tail == Some(r)
  {
    var ids := [a, b, r, n];
    assert ids[0] != ids[1] && ids[0] != ids[2] && ids[0] != ids[3];
    assert ids[1] != ids[2] && ids[1] != ids[3] && ids[2] != ids[3];
    FinishedLastStrays(l, e, b);
    var l1 := DoLinks(l, AddFinished(b)).value;
    assert Without([a, b], b) == [a] + Without([b], b) == [a] && [] + [b] == [b];
    AstrayPops(l1, [a], [b], 0, r);
    var l2 := DoLinks(l1, GetStateChange).value;
    AskedBehindRoot(l2, [a], [], [], b, r, n);
    asked := AddCandidateLinks(DoLinks(l2, AddFinished(r)).value, n);
    assert [] + [b, n] == [b, n];
  }

  /** From start-up: a cycle in which b and r finish.  A node asked for next is deleted with b if it
      is a plan, and stops the deletion with an internal error if it is not; r is not deleted. */
  lemma LiveNodeDelivered<T>(links: Links<T>, a: T, b: T, r: T, n: T, plan: seq<T>)
    requires NoRepeats([a, b, r, n]) && b in plan && r in plan
    ensures var l := RunOnLinks(links, Cycle(a, b, r) + [AddFinished(b)] + [GetStateChange] + [AddFinished(r)]
                                       + [AddCandidate(n)]);
            && l.Some? && l.value.StatusOf(n) == CHECK && l.value.StatusOf(r) == DELETE
            && var p := PurgeMany(l.value.links, PurgeStart(l.value, plan), 2);
            && Over(p) && r in p.plan
            && (if n in plan then p.stray == None && p.deleted == [b, n] else p.stray == Some(n) && p.deleted == [b])
  {
    var ids := [a, b, r, n];
    assert ids[0] != ids[1] && ids[0] != ids[2] && ids[0] != ids[3];
    assert ids[1] != ids[2] && ids[1] != ids[3] && ids[2] != ids[3];
    var e := AfterCycle(links, a, b, r);
    var cycle := Cycle(a, b, r);
    var asked := BothFinish(RunOnLinks(links, cycle).value, e, a, b, r, n);
    RunOneMore(links, cycle, AddFinished(b));
    RunOneMore(links, cycle + [AddFinished(b)], GetStateChange);
    RunOneMore(links, cycle + [AddFinished(b)] + [GetStateChange], AddFinished(r));
    RunOneMore(links, cycle + [AddFinished(b)] + [GetStateChange] + [AddFinished(r)], AddCandidate(n));
    assert [] + [b, n] == [b, n];
    NodeReached(asked, plan, [], b, r, n);
  }

  lemma {:induction false} RoundAndRound<T>(links: Links<T>, a: T, k: nat)
    requires Next(links, a) == Some(a)
    ensures Walk(links, Some(a), k) == Some(a)
  {
    if k > 0 {
      RoundAndRound(links, a, k - 1);
    }
  }

  /** A node linked to itself as the only candidate: no removal of another node comes back. */
  lemma RemovalGoesRound<T>(l: LinkedExec<T>, a: T, b: T)
    requires l.candidates.first == Some(a) && Next(l.links, a) == Some(a) && a != b
    ensures !ComesBack(l, RemoveCandidate(b))
  {
    forall k: nat ensures Walk(l.links, l.candidates.first, k) == Some(a) {
      RoundAndRound(l.links, a, k);
    }
  }

  /** The other unsafe operation: a node is removed from consideration while it waits to transition,
      asked for, fetched for its transition and asked for again.  It then follows itself. */
  lemma RemovalNeverComesBack<T>(links: Links<T>, a: T, b: T)
    requires a != b
    ensures var l := RunOnLinks(links, [AddStateChange(a)] + [RemoveCandidate(a)] + [AddCandidate(a)]
                                       + [GetStateChange] + [AddCandidate(a)]);
            l.Some? && !ComesBack(l.value, RemoveCandidate(b))
  {
    var none: seq<ExecOp<T>> := [];
    var l0 := LinkedStart(links);
    RunOneMore(links, none, AddStateChange(a));
    assert none + [AddStateChange(a)] == [AddStateChange(a)];
    var l1 := l0.Mark(a, TRANSITION).OnChanges(Push(a));
    RemoveAbsent(l1.links, l1.candidates, [], a);
    assert Walk(l1.links, l1.candidates.first, 0) == None;
    var l2 := l1.Mark(a, NONE);
    RunOneMore(links, [AddStateChange(a)], RemoveCandidate(a));
    var l3 := AddCandidateLinks(l2, a);
    RunOneMore(links, [AddStateChange(a)] + [RemoveCandidate(a)], AddCandidate(a));
    var l4 := l3.OnChanges(Pop).Mark(a, NONE);
    RunOneMore(links, [AddStateChange(a)] + [RemoveCandidate(a)] + [AddCandidate(a)], GetStateChange);
    var l5 := AddCandidateLinks(l4, a);
    RunOneMore(links, [AddStateChange(a)] + [RemoveCandidate(a)] + [AddCandidate(a)] + [GetStateChange],
               AddCandidate(a));
    RemovalGoesRound(l5, a, b);
  }
}
