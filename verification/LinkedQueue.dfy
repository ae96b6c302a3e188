/** LinkedQueue as written: the link of each item lives in the item, the queue itself is the first
    link, and remove leaves the tail pointer where it was unless the queue becomes empty.  Each
    method is proved to take the step of QueueLinks, whatever state the links are in. */
module LinkedQueues {
  import opened Common
  import opened QueueLinks

  class QueueItem {
    var next: QueueItem?

    constructor ()
      ensures next == null
    {
      next := null;
    }
  }

  function Opt(p: QueueItem?): Option<QueueItem> {
    if p == null then None else Some(var item: QueueItem := p; item)
  }

  /** The links of a set of items. */
  ghost function LinksOf(items: set<QueueItem>): Links<QueueItem>
    reads items
  {
    map n | n in items :: Opt(n.next)
  }

  class LinkedQueue {
    const head: QueueItem   // the QueueItem that the queue itself is
    var tail: QueueItem?
    var count: int

    ghost function Fields(): Ends<QueueItem>
      reads this, head
    {
      Ends(Opt(head.next), Opt(tail), count)
    }

    /** The queue's pointers lead into `items`, which are none of them the queue, and a non-empty
        queue has a tail. */
    ghost predicate Ready(items: set<QueueItem>)
      reads this, head, items
    {
      && head !in items && Tailed(Fields())
      && (head.next != null ==> head.next in items) && (tail != null ==> tail in items)
      && (forall n :: n in items && n.next != null ==> n.next in items)
    }

    constructor ()
      ensures Fields() == Ends(None, None, 0) && fresh(head)
    {
      head := new QueueItem();
      tail, count := null, 0;
    }

    method Front() returns (item: QueueItem?)
      ensures Opt(item) == Fields().first
    {
      item := head.next;
    }

    method Size() returns (size: int)
      ensures size == Fields().count
    {
      size := count;
    }

    method Empty() returns (isEmpty: bool)
      ensures isEmpty <==> Fields().first == None
    {
      isEmpty := head.next == null;
    }

    /** From any state, ready or not; no item's link is written. */
    method Clear(ghost items: set<QueueItem>)
      modifies this, head
      ensures Fields() == Ends(None, None, 0)
      ensures old(Ready(items)) ==> Ready(items) && LinksOf(items) == old(LinksOf(items))
    {
      head.next := null;
      tail := null;
      count := 0;
    }

    method Pop(ghost items: set<QueueItem>)
      requires Ready(items)
      modifies this, head
      ensures Ready(items) && Fields() == PopLinks(old(LinksOf(items)), old(Fields()))
    {
      if head.next == null {
        return;
      }
      if head.next == tail {
        head.next := null;
        tail := null;
      } else {
        head.next := head.next.next;
      }
      count := count - 1;
    }

    method Push(item: QueueItem, ghost items: set<QueueItem>)
      requires Ready(items) && item in items
      modifies this, head, item, tail
      ensures Ready(items)
      ensures var (links, ends) := PushLinks(old(LinksOf(items)), old(Fields()), item);
              LinksOf(items) == links && Fields() == ends
    {
      item.next := null;
      if head.next == null {
        head.next := item;
      } else {
        tail.next := item;
      }
      tail := item;
      count := count + 1;
    }

    /** The walk must come to the item or to an end; where it does not, the source does not return. */
    method Remove(item: QueueItem?, ghost items: set<QueueItem>)
      requires Ready(items) && (item != null ==> Halts<QueueItem>(LinksOf(items), Fields().first, item))
      modifies this, head, items
      ensures Ready(items)
      ensures var (links, ends) := if item == null then (old(LinksOf(items)), old(Fields()))
                                   else RemoveLinks<QueueItem>(old(LinksOf(items)), old(Fields()), item);
              LinksOf(items) == links && Fields() == ends
    {
      if item == null {
        return;
      }
      if head.next == null {
        NeverThere<QueueItem>(LinksOf(items), Fields(), item, 0);
        return;
      }
      RemoveFrom(item, items);
    }

    /** The walk of remove. */
    method RemoveFrom(item: QueueItem, ghost items: set<QueueItem>)
      requires Ready(items) && Halts(LinksOf(items), Fields().first, item)
      modifies this, head, items
      ensures Ready(items)
      ensures var (links, ends) := RemoveLinks(old(LinksOf(items)), old(Fields()), item);
              LinksOf(items) == links && Fields() == ends
    {
      ghost var links, was := LinksOf(items), Fields();
      ghost var stop := Stop(links, was.first, item);
      ghost var i: nat := 0;
      var ptr: QueueItem := head;
      while ptr.next != null
        invariant i <= stop && Opt(ptr.next) == Walk(links, was.first, i)
        invariant if i == 0 then ptr == head else ptr in items && Walk(links, was.first, i - 1) == Some(ptr)
        invariant forall j: nat :: j < i ==> Walk(links, was.first, j) != Some(item)
        decreases stop - i
      {
        var nxt := ptr.next;
        if item == nxt {
          RemoveAt(links, was, item, i);
          Unlink(ptr, nxt, items, i);
          return;
        }
        ptr := ptr.next;
        i := i + 1;
      }
      NeverThere(links, was, item, i);
    }

    /** The item behind ptr is taken out. */
    method Unlink(ptr: QueueItem, nxt: QueueItem, ghost items: set<QueueItem>, ghost i: nat)
      requires Ready(items) && Walk(LinksOf(items), Fields().first, i) == Some(nxt) == Opt(ptr.next)
      requires if i == 0 then ptr == head
               else ptr in items && Walk(LinksOf(items), Fields().first, i - 1) == Some(ptr)
      modifies this, ptr
      ensures Ready(items)
      ensures var (links, ends) := Unlinked(old(LinksOf(items)), old(Fields()), nxt, i);
              LinksOf(items) == links && Fields() == ends
    {
      ptr.next := nxt.next;
      if head.next == null {
        tail := null;
      }
      count := count - 1;
    }
  }

  ghost function Stop(links: Links<QueueItem>, first: Option<QueueItem>, item: QueueItem): (k: nat)
    requires Halts(links, first, item)
    ensures Walk(links, first, k) == Some(item) || Walk(links, first, k) == None
  {
    var k: nat :| Walk(links, first, k) == Some(item) || Walk(links, first, k) == None;
    k
  }

  lemma {:induction false} NothingAfterEnd<T>(links: Links<T>, first: Option<T>, i: nat, j: nat)
    requires Walk(links, first, i) == None && i <= j
    ensures Walk(links, first, j) == None
  {
    if i < j {
      NothingAfterEnd(links, first, i, j - 1);
    }
  }

  /** A walk that ended without the item would not have come to it. */
  lemma NeverThere<T>(links: Links<T>, q: Ends<T>, x: T, i: nat)
    requires Walk(links, q.first, i) == None && forall j: nat :: j < i ==> Walk(links, q.first, j) != Some(x)
    ensures RemoveLinks(links, q, x) == (links, q)
  {
    forall k: nat ensures !FirstAt(links, q.first, x, k) {
      if k >= i { NothingAfterEnd(links, q.first, i, k); }
    }
  }
}
