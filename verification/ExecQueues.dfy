/** PlexilExec's queue management over three LinkedQueue objects that share the link field of the
    nodes.  Each method takes the step of ExecLinks, in whatever state the queues are. */
module ExecQueues {
  import opened Common
  import opened QueueRuns
  import opened QueueLinks
  import opened LinkedQueues
  import opened ExecQueueRuns
  import opened ExecLinks

  class Executive {
    const candidateQueue: LinkedQueue
    const stateChangeQueue: LinkedQueue
    const finishedRootNodes: LinkedQueue
    var status: map<QueueItem, QueueStatus>   // m_queueStatus of each node
    var plan: seq<QueueItem>                  // m_plan, the roots
    ghost var nodes: set<QueueItem>           // the nodes there are

    ghost function View(): LinkedExec<QueueItem>
      reads this, candidateQueue, stateChangeQueue, finishedRootNodes
      reads candidateQueue.head, stateChangeQueue.head, finishedRootNodes.head, nodes
    {
      LinkedExec(candidateQueue.Fields(), stateChangeQueue.Fields(), finishedRootNodes.Fields(), LinksOf(nodes), status)
    }

    /** The pointers lead from the queues to nodes and from nodes to nodes; that is all. */
    ghost predicate Ready()
      reads this, candidateQueue, stateChangeQueue, finishedRootNodes
      reads candidateQueue.head, stateChangeQueue.head, finishedRootNodes.head, nodes
    {
      && candidateQueue.Ready(nodes) && stateChangeQueue.Ready(nodes) && finishedRootNodes.Ready(nodes)
      && candidateQueue != stateChangeQueue && candidateQueue != finishedRootNodes
      && stateChangeQueue != finishedRootNodes
      && candidateQueue.head != stateChangeQueue.head && candidateQueue.head != finishedRootNodes.head
      && stateChangeQueue.head != finishedRootNodes.head
    }

    constructor ()
      ensures Ready() && nodes == {} && plan == [] && View() == LinkedStart(map[])
    {
      candidateQueue := new LinkedQueue();
      stateChangeQueue := new LinkedQueue();
      finishedRootNodes := new LinkedQueue();
      status, plan, nodes := map[], [], {};
    }

    /** A node of a new plan. */
    method NewNode() returns (node: QueueItem)
      requires Ready()
      modifies this
      ensures Ready() && fresh(node) && nodes == old(nodes) + {node}
      ensures IsNew(old(View()), Happening.NewNode(node))
      ensures Some(View()) == Happen(old(View()), Happening.NewNode(node))
    {
      node := new QueueItem();
      nodes := nodes + {node};
      assert LinksOf(nodes) == old(View()).links[node := None];
    }

    method StatusOf(n: QueueItem) returns (s: QueueStatus)
      ensures s == if n in status then status[n] else NONE
    {
      s := if n in status then status[n] else NONE;
    }

    method AddCandidateNode(node: QueueItem)
      requires Ready() && node in nodes
      modifies this`status, candidateQueue, candidateQueue.head, candidateQueue.tail, node
      ensures Ready() && View() == AddCandidateLinks(old(View()), node)
    {
      var s := StatusOf(node);
      match s
      case NONE =>
        status := status[node := CHECK];
        candidateQueue.Push(node, nodes);
      case TRANSITION => status := status[node := TRANSITION_CHECK];
      case _ =>
    }

    method GetCandidateNode() returns (node: QueueItem?)
      requires Ready()
      modifies this`status, candidateQueue, candidateQueue.head
      ensures Ready() && Some(View()) == DoLinks(old(View()), GetCandidate)
      ensures Opt(node) == old(View()).candidates.first
    {
      node := candidateQueue.Front();
      if node == null {
        return;
      }
      candidateQueue.Pop(nodes);
      status := status[node := NONE];
    }

    /** The node's status becomes NONE even when it waits in another queue. */
    method RemoveCandidateNode(node: QueueItem)
      requires Ready() && node in nodes && ComesBack(View(), RemoveCandidate(node))
      modifies this`status, candidateQueue, candidateQueue.head, nodes
      ensures Ready() && Some(View()) == DoLinks(old(View()), RemoveCandidate(node))
    {
      candidateQueue.Remove(node, nodes);
      status := status[node := NONE];
    }

    method LeaveStateChange(node: QueueItem)
      requires Ready() && View().changes.first == Some(node)
      modifies this`status, stateChangeQueue, stateChangeQueue.head
      ensures Ready() && node in nodes && View() == old(View()).OnChanges(Pop).Mark(node, NONE)
    {
      stateChangeQueue.Pop(nodes);
      status := status[node := NONE];
    }

    method GetStateChangeNode() returns (node: QueueItem?)
      requires Ready()
      modifies this`status, stateChangeQueue, stateChangeQueue.head
      modifies candidateQueue, candidateQueue.head, nodes
      ensures Ready() && Some(View()) == DoLinks(old(View()), GetStateChange)
      ensures Opt(node) == old(View()).changes.first
    {
      node := stateChangeQueue.Front();
      if node == null {
        return;
      }
      var was := StatusOf(node);
      LeaveStateChange(node);
      if was == TRANSITION_CHECK {
        AddCandidateNode(node);
      }
    }

    method EnterStateChange(node: QueueItem)
      requires Ready() && node in nodes
      modifies this`status, stateChangeQueue, stateChangeQueue.head, stateChangeQueue.tail, node
      ensures Ready() && View() == old(View()).Mark(node, TRANSITION).OnChanges(Push(node))
    {
      status := status[node := TRANSITION];
      stateChangeQueue.Push(node, nodes);
    }

    /** False where the source stops with an internal error. */
    method AddStateChangeNode(node: QueueItem) returns (ok: bool)
      requires Ready() && node in nodes
      modifies this`status, stateChangeQueue, stateChangeQueue.head, stateChangeQueue.tail, node
      ensures Ready() && ok == DoLinks(old(View()), AddStateChange(node)).Some?
      ensures View() == if ok then DoLinks(old(View()), AddStateChange(node)).value else old(View())
    {
      var s := StatusOf(node);
      ok := true;
      match s
      case NONE => EnterStateChange(node);
      case TRANSITION =>
      case TRANSITION_CHECK =>
      case _ => ok := false;
    }

    method GetFinishedRootNode() returns (node: QueueItem?)
      requires Ready()
      modifies this`status, finishedRootNodes, finishedRootNodes.head
      ensures Ready() && Some(View()) == DoLinks(old(View()), GetFinished)
      ensures Opt(node) == old(View()).finished.first
    {
      node := finishedRootNodes.Front();
      if node == null {
        return;
      }
      finishedRootNodes.Pop(nodes);
      status := status[node := NONE];
    }

    method LeaveCandidates(node: QueueItem)
      requires Ready() && node in nodes && Halts(View().links, View().candidates.first, node)
      modifies candidateQueue, candidateQueue.head, nodes
      ensures Ready() && View() == old(View()).OnCandidates(Remove(node))
    {
      candidateQueue.Remove(node, nodes);
    }

    /** Where both cases of addFinishedRootNode that do anything end. */
    method EnterFinished(node: QueueItem)
      requires Ready() && node in nodes
      modifies this`status, finishedRootNodes, finishedRootNodes.head, nodes
      ensures Ready() && View() == old(View()).Mark(node, DELETE).OnFinished(Push(node))
    {
      status := status[node := DELETE];
      finishedRootNodes.Push(node, nodes);
    }

    /** False where the source stops with an internal error. */
    method AddFinishedRootNode(node: QueueItem) returns (ok: bool)
      requires Ready() && node in nodes && ComesBack(View(), AddFinished(node))
      modifies this`status, candidateQueue, candidateQueue.head
      modifies finishedRootNodes, finishedRootNodes.head, nodes
      ensures Ready() && ok == DoLinks(old(View()), AddFinished(node)).Some?
      ensures View() == if ok then DoLinks(old(View()), AddFinished(node)).value else old(View())
    {
      var s := StatusOf(node);
      ok := true;
      match s
      case CHECK =>
        LeaveCandidates(node);
        EnterFinished(node);
      case NONE => EnterFinished(node);
      case DELETE =>
      case _ => ok := false;
    }

    /** The list part of addPlan. */
    method AddPlan(root: QueueItem)
      modifies this`plan
      ensures plan == old(plan) + [root]
    {
      plan := plan + [root];
    }

    /** The loop over m_plan: the node, where it is found, is erased. */
    method EraseFromPlan(node: QueueItem) returns (found: bool)
      modifies this`plan
      ensures found == (node in old(plan))
      ensures plan == if found then Without(old(plan), node) else old(plan)
    {
      found := false;
      var pit := 0;
      while pit < |plan|
        invariant 0 <= pit <= |plan| && plan == old(plan) && !found
        invariant node !in plan[..pit]
      {
        if plan[pit] == node {
          found := true;
          WithoutFirst(plan, node, pit);
          plan := plan[..pit] + plan[pit + 1..];
          return;
        }
        pit := pit + 1;
      }
    }

    /** The finished roots and the plans are those of p, and all else is as in l. */
    ghost predicate Purging(l: LinkedExec<QueueItem>, p: Purge<QueueItem>)
      reads this, candidateQueue, stateChangeQueue, finishedRootNodes
      reads candidateQueue.head, stateChangeQueue.head, finishedRootNodes.head, nodes
    {
      Ready() && View() == l.(finished := p.finished) && plan == p.plan
    }

    /** One turn of the loop of deleteFinishedPlans, and whether it was the last. */
    method DeleteFirst(ghost l: LinkedExec<QueueItem>, ghost p: Purge<QueueItem>, sofar: seq<QueueItem>)
      returns (deleted: seq<QueueItem>, found: bool, done: bool)
      requires Purging(l, p) && !Over(p) && sofar == p.deleted
      modifies this`plan, finishedRootNodes, finishedRootNodes.head
      ensures var q := PurgeOne(l.links, p);
              Purging(l, q) && deleted == q.deleted && found == (q.stray == None) && done == Over(q)
    {
      var node := finishedRootNodes.Front();
      finishedRootNodes.Pop(nodes);
      found := EraseFromPlan(node);
      deleted := if found then sofar + [node] else sofar;
      var empty := finishedRootNodes.Empty();
      done := !found || empty;
    }

    /** The loop of deleteFinishedPlans. */
    method DeleteLoop(ghost l: LinkedExec<QueueItem>, ghost start: Purge<QueueItem>, ghost steps: nat)
      returns (ok: bool, deleted: seq<QueueItem>)
      requires Purging(l, start) && start.stray == None && start.deleted == []
      requires Reached(l.links, start, steps, 0, start)
      modifies this`plan, finishedRootNodes, finishedRootNodes.head
      ensures var p := PurgeMany(l.links, start, steps);
              Purging(l, p) && ok == (p.stray == None) && deleted == p.deleted
    {
      ghost var p, i: nat := start, 0;
      ok, deleted := true, [];
      var done := finishedRootNodes.Empty();
      while !done
        invariant Purging(l, p) && Reached(l.links, start, steps, i, p)
        invariant ok == (p.stray == None) && deleted == p.deleted && done == Over(p)
        decreases steps - i
      {
        ReachedNext(l.links, start, steps, i, p);
        deleted, ok, done := DeleteFirst(l, p, deleted);
        p, i := PurgeOne(l.links, p), i + 1;
      }
      ReachedNext(l.links, start, steps, i, p);
    }

    /** Deletes the finished roots, up to one that is not a plan.  The loop must come to an end, which
        it does within `steps` turns. */
    method DeleteFinishedPlans(ghost steps: nat) returns (ok: bool, deleted: seq<QueueItem>)
      requires Ready() && Over(PurgeMany(View().links, PurgeStart(View(), plan), steps))
      modifies this`plan, finishedRootNodes, finishedRootNodes.head
      ensures var p := PurgeMany(old(View()).links, PurgeStart(old(View()), old(plan)), steps);
              Purging(old(View()), p) && ok == (p.stray == None) && deleted == p.deleted
    {
      ok, deleted := DeleteLoop(View(), PurgeStart(View(), plan), steps);
    }
  }

  lemma {:induction false} WithoutFirst<T>(s: seq<T>, x: T, i: nat)
    requires i < |s| && s[i] == x && x !in s[..i]
    ensures Without(s, x) == s[..i] + s[i + 1..]
  {
    if i > 0 {
      assert s[0] in s[..i] && s[1..][..i - 1] == s[..i][1..];
      WithoutFirst(s[1..], x, i - 1);
      assert s[..i] == [s[0]] + s[1..][..i - 1];
    }
  }
}
