/** The doubly linked queue of tiny-vmi/tiny_glib/queue.c over the links of tiny-vmi/tiny_glib/list.c.
    It refines a sequence, head first. */
module Queues {
  import opened Sequences
  import Bits
  import PageCache

  /** A datum is a pointer to a 64-bit key; only the key matters to the queue's one user. */
  type Datum = Bits.u64

  /** GList. */
  class Link {
    const data: Datum
    var prev: Link?
    var next: Link?

    constructor (data: Datum)
      ensures this.data == data && prev == null && next == null
    {
      this.data, prev, next := data, null, null;
    }
  }

  // ---------------------------------------------------------------- lists of links

  /** Link `i`, or null outside the list. */
  ghost function At(links: seq<Link>, i: int): Link? {
    if 0 <= i < |links| then links[i] else null
  }

  /** Each link knows its neighbours on both sides. */
  ghost predicate Chained(links: seq<Link>)
    reads links
  {
    forall i {:trigger In(links, i)} :: In(links, i) ==>
      links[i].prev == At(links, i - 1) && links[i].next == At(links, i + 1)
  }

  ghost function DataOf(links: seq<Link>): (c: seq<Datum>)
    ensures |c| == |links| && forall i :: 0 <= i < |c| ==> c[i] == links[i].data
  {
    seq<Datum>(|links|, i requires 0 <= i < |links| => links[i].data)
  }

  lemma DataWith(links: seq<Link>, link: Link)
    ensures DataOf([link] + links) == [link.data] + DataOf(links)
  {
  }

  lemma DataWithout(links: seq<Link>, p: nat)
    requires p < |links|
    ensures DataOf(Without(links, p)) == Without(DataOf(links), p)
  {
  }

  /** The first `k` links met by following `next` from `n`. */
  ghost function Forward(n: Link?, k: nat, links: set<Link>): seq<Link>
    reads links
  {
    if k == 0 || n == null || n !in links then [] else [n] + Forward(n.next, k - 1, links)
  }

  /** The first `k` links met by following `prev` from `n`. */
  ghost function Backward(n: Link?, k: nat, links: set<Link>): seq<Link>
    reads links
  {
    if k == 0 || n == null || n !in links then [] else [n] + Backward(n.prev, k - 1, links)
  }

  lemma {:induction false} ForwardFrom(links: seq<Link>, i: nat, k: nat)
    requires Chained(links) && i <= |links| && k >= |links| - i
    ensures Forward(At(links, i), k, Elements(links)) == links[i..]
    decreases |links| - i
  {
    if i == |links| {
    } else {
      assert In(links, i);
      ForwardFrom(links, i + 1, k - 1);
      assert links[i..] == [links[i]] + links[i + 1..];
    }
  }

  lemma {:induction false} BackwardFrom(links: seq<Link>, i: nat, k: nat)
    requires Chained(links) && i <= |links| && k >= i
    ensures Backward(At(links, i - 1), k, Elements(links)) == Reverse(links[..i])
    decreases i
  {
    if i == 0 {
    } else {
      assert In(links, i - 1);
      BackwardFrom(links, i - 1, k - 1);
      ReverseAppend(links[..i - 1], links[i - 1]);
      assert links[..i] == links[..i - 1] + [links[i - 1]];
    }
  }

  /** g_list_prepend: a new link before link `p`. Callers pass the first link of a list. */
  method Prepend(list: Link?, data: Datum, ghost p: nat, ghost links: seq<Link>) returns (newList: Link)
    requires Chained(links) && Distinct(links)
    requires p <= |links| && list == At(links, p) && (list == null ==> links == [])
    modifies links
    ensures fresh(newList) && newList.data == data
    ensures Chained(With(links, p, newList)) && Distinct(With(links, p, newList))
  {
    newList := new Link(data);
    ghost var after := With(links, p, newList);
    assert In(links, p - 1) ==> links[p - 1] in links;
    newList.next := list;
    if list != null {
      assert In(links, p);
      newList.prev := list.prev;
      if list.prev != null {
        list.prev.next := newList;
      }
      list.prev := newList;
    } else {
      newList.prev := null;
    }
    forall i | In(after, i) ensures after[i].prev == At(after, i - 1) && after[i].next == At(after, i + 1) {
      var i0 := if i < p then i else i - 1;
      if i != p { assert In(links, i0) && after[i] == links[i0]; }
    }
    InsertKeepsDistinct(links, p, newList);
  }

  /** _g_list_remove_link of link `p`: its tests for a corrupted list pass, and the link comes out
      isolated. */
  method RemoveLink(list: Link?, link: Link, ghost p: nat, ghost links: seq<Link>) returns (rest: Link?)
    requires Chained(links) && Distinct(links) && list == At(links, 0)
    requires p < |links| && link == links[p]
    modifies links
    ensures Chained(Without(links, p)) && Distinct(Without(links, p)) && link !in Without(links, p)
    ensures rest == At(Without(links, p), 0)
    ensures link.prev == null && link.next == null
  {
    ghost var after := Without(links, p);
    RemoveKeepsDistinct(links, p);
    assert In(links, p) && (p > 0 ==> In(links, p - 1)) && (p + 1 < |links| ==> In(links, p + 1)) && In(links, 0);
    rest := list;
    if link.prev != null {
      if link.prev.next == link {
        link.prev.next := link.next;
      }
    }
    if link.next != null {
      if link.next.prev == link {
        link.next.prev := link.prev;
      }
    }
    if link == rest {
      rest := rest.next;
    }
    link.next := null;
    link.prev := null;
    forall i | In(after, i) ensures after[i].prev == At(after, i - 1) && after[i].next == At(after, i + 1) {
      var i0 := if i < p then i else i + 1;
      assert In(links, i0) && after[i] == links[i0];
    }
  }

  // Chain the isolated `link` to the first link of a list, which must not be `link` itself.
  method PutBefore(first: Link?, link: Link, ghost links: seq<Link>)
    requires Chained(links) && Distinct(links) && first == At(links, 0)
    requires (link in links ==> links == [link]) && link.prev == null && link.next == null
    modifies links, link
    ensures link !in links ==> Chained([link] + links)
    ensures link in links ==> link.next == link == link.prev
  {
    link.next := first;
    if first != null {
      first.prev := link;
    }
    ghost var after := [link] + links;
    if link !in links {
      forall i | In(after, i) ensures after[i].prev == At(after, i - 1) && after[i].next == At(after, i + 1) {
        if i > 0 { assert In(links, i - 1) && In(links, 0) && after[i] == links[i - 1]; }
      }
    }
  }

  lemma IsolatedIsSole(links: seq<Link>, link: Link)
    requires Chained(links) && Distinct(links) && link in links && link.prev == null && link.next == null
    ensures links == [link]
  {
    var i :| 0 <= i < |links| && links[i] == link;
    assert In(links, i);
  }

  // Make the last link but one the last.
  method EndAt(last: Link, ghost links: seq<Link>)
    requires Chained(links) && Distinct(links) && |links| >= 2 && last == links[|links| - 2]
    modifies last
    ensures Chained(links[..|links| - 1])
  {
    last.next := null;
    ghost var after := links[..|links| - 1];
    forall i | In(after, i) ensures after[i].prev == At(after, i - 1) && after[i].next == At(after, i + 1) {
      assert In(links, i) && In(links, |links| - 2);
    }
  }

  // ---------------------------------------------------------------- the queue

  /** GQueue. */
  class Queue {
    var head: Link?
    var tail: Link?
    var length: nat
    ghost var links: seq<Link>

    ghost predicate Valid()
      reads this, links
    {
      && head == At(links, 0) && tail == At(links, |links| - 1) && length == |links|
      && Distinct(links) && Chained(links)
    }

    /** The keys queued, head first. */
    ghost function Contents(): seq<Datum>
      reads this`links
    {
      DataOf(links)
    }

    /** g_queue_new. */
    constructor ()
      ensures Valid() && links == []
    {
      head, tail, length, links := null, null, 0, [];
    }

    /** Following `next` from the head meets the links in order and ends after exactly `length` of
        them; following `prev` from the tail meets the same links in the opposite order. */
    lemma TraversalsAgree(k: nat)
      requires Valid() && k >= length
      ensures Forward(head, k, Elements(links)) == links
      ensures Backward(tail, k, Elements(links)) == Reverse(Forward(head, k, Elements(links)))
    {
      ForwardFrom(links, 0, k);
      BackwardFrom(links, |links|, k);
      assert links[..|links|] == links;
    }

    /** g_queue_push_head. */
    method PushHead(data: Datum)
      requires Valid()
      modifies this, links
      ensures Valid() && |links| > 0 && fresh(links[0]) && links[1..] == old(links)
      ensures Contents() == [data] + old(Contents())
    {
      hide Distinct, Chained, DataOf;
      var newHead := Prepend(head, data, 0, links);
      DataWith(links, newHead);
      assert With(links, 0, newHead) == [newHead] + links;
      head := newHead;
      if tail == null { tail := head; }
      length := length + 1;
      links := [newHead] + links;
    }

    /** g_queue_push_head_link: a link that still has neighbours is refused. The tests let the sole link
        of a queue pass, and only then the queue is spoilt: the link becomes its own neighbour. */
    method PushHeadLink(link: Link)
      requires Valid()
      modifies this, links, link
      ensures Valid() <==> old(links) != [link]
      ensures old(links) != [link] ==>
        var isolated := old(link.prev == null && link.next == null);
        && links == (if isolated then [link] + old(links) else old(links))
        && Contents() == (if isolated then [link.data] + old(Contents()) else old(Contents()))
        && (!isolated ==> link.prev == old(link.prev) && link.next == old(link.next))
      ensures old(links) == [link] ==> link.next == link == link.prev && head == tail == link && length == 2
    {
      if link.prev != null || link.next != null {
        assert old(links) == [link] ==> In(links, 0);
        return;
      }
      hide Distinct, Chained, DataOf;
      PushIsolated(link);
    }

    // The rest of it, once the tests have passed.
    method PushIsolated(link: Link)
      requires Valid() && link.prev == null && link.next == null
      modifies this, links, link
      ensures old(links) != [link] ==>
        Valid() && links == [link] + old(links) && Contents() == [link.data] + old(Contents())
      ensures old(links) == [link] ==>
        links == old(links) && link.next == link == link.prev && head == tail == link && length == 2
    {
      hide DataOf;
      DataWith(links, link);
      if link in links { IsolatedIsSole(links, link); } else { FirstAdded(link, links); }
      hide Distinct, Chained;
      if head == null { tail := link; }
      PutBefore(head, link, links);
      head := link;
      length := length + 1;
      links := if link in links then links else [link] + links;
    }

    /** g_queue_pop_tail. */
    method PopTail() returns (data: Option<Datum>)
      requires Valid()
      modifies this, links
      ensures Valid()
      ensures data == if old(Contents()) == [] then None else Some(old(Contents())[|old(Contents())| - 1])
      ensures Contents() == if old(Contents()) == [] then [] else old(Contents())[..|old(Contents())| - 1]
    {
      if tail == null { return None; }
      hide Distinct, DataOf;
      DataWithout(links, |links| - 1);
      RemoveKeepsDistinct(links, |links| - 1);
      assert In(links, |links| - 1) && Without(links, |links| - 1) == links[..|links| - 1];
      var node: Link := tail;
      data := Some(node.data);
      tail := node.prev;
      if tail != null {
        EndAt(tail, links);
      } else {
        head := null;
      }
      length := length - 1;
      links := links[..|links| - 1];
    }

    /** g_queue_unlink of link `p`, or of NULL, which does nothing. */
    method Unlink(link: Link?, ghost p: nat)
      requires Valid()
      requires link != null ==> p < |links| && link == links[p]
      modifies this, links
      ensures Valid()
      ensures link == null ==> links == old(links) && Contents() == old(Contents())
      ensures link != null ==> links == Without(old(links), p) && Contents() == Without(old(Contents()), p)
      ensures link != null ==> links == old(links)[..p] + old(links)[p + 1..]
      ensures link != null ==> link !in links && link.prev == null && link.next == null
    {
      if link == null { return; }
      hide Distinct, DataOf;
      assert In(links, p) && In(links, |links| - 1);
      if link == tail {
        tail := tail.prev;
      }
      head := RemoveLink(head, link, p, links);
      length := length - 1;
      DataWithout(links, p);
      links := Without(links, p);
    }

    /** g_queue_find_custom: the first link on which `func` yields 0. */
    method FindCustom(data: Datum, func: (Datum, Datum) -> int) returns (found: Link?, ghost p: nat)
      requires Valid()
      ensures found == At(links, p) && p <= |links|
      ensures forall i :: 0 <= i < p ==> func(Contents()[i], data) != 0
      ensures found != null ==> func(Contents()[p], data) == 0
      ensures found == null <==> forall i :: 0 <= i < |Contents()| ==> func(Contents()[i], data) != 0
      ensures found != null ==> found in links && func(found.data, data) == 0
    {
      found, p := head, 0;
      while found != null
        invariant p <= |links| && found == At(links, p)
        invariant forall i :: 0 <= i < p ==> func(Contents()[i], data) != 0
        decreases |links| - p
      {
        assert In(links, p);
        if func(found.data, data) == 0 { return; }
        found, p := found.next, p + 1;
      }
    }

    /** The queue's part in refreshing a cached page (tiny-vmi/driver/tiny_memory_cache.c). The
        comparison passed in is an equality test, which yields 0 on the first key that differs. */
    method Refresh(key: Datum)
      requires Valid()
      modifies this, links
      ensures Valid() && Contents() == PageCache.Refreshed(old(Contents()), key)
    {
      hide Distinct, Chained, DataOf, PageCache.Refreshed;
      var entry, p := FindCustom(key, (a, b) => if a == b then 1 else 0);
      RefreshMoves(Contents(), key, p);
      Unlink(entry, p);
      if entry != null {
        PushHeadLink(entry);
      }
    }
  }

  /** A queue of one link, pushed again. */
  method PushedTwice(data: Datum) returns (queue: Queue)
    ensures fresh(queue) && !queue.Valid()
    ensures queue.head != null && queue.head.next == queue.head
  {
    queue := new Queue();
    queue.PushHead(data);
    queue.PushHeadLink(queue.head);
  }

  // Stopping at the first key that differs, and moving that one to the head.
  lemma RefreshMoves(q: seq<Datum>, key: Datum, p: nat)
    requires p <= |q| && (forall i :: 0 <= i < p ==> q[i] == key) && (p < |q| ==> q[p] != key)
    ensures PageCache.Refreshed(q, key) == if p < |q| then [q[p]] + Without(q, p) else q
  {
    StopsAt(q, key, p);
    if p < |q| { assert PageCache.MoveToHead(q, p) == [q[p]] + Without(q, p); }
  }

  lemma {:induction false} StopsAt(q: seq<Datum>, key: Datum, p: nat)
    requires p <= |q| && (forall i :: 0 <= i < p ==> q[i] == key) && (p < |q| ==> q[p] != key)
    ensures p == PageCache.FindOther(q, key)
  {
    if p == 0 {
    } else {
      StopsAt(q[1..], key, p - 1);
    }
  }
}
