/** The intrusive circular doubly linked queues of source/lib/queue.c, on the heap.

    Many queues share one heap of link nodes. `heads` names each queue's head node and
    `lists` says which nodes follow it. */
module LinkQueue {
  import opened Seqs

  class Link {
    var prev: Link
    var next: Link
    /** Which task embeds this node (what queue_data computes); negative for a queue head. */
    const owner: int

    /** queue_init */
    constructor (owner: int)
      ensures prev == this && next == this && this.owner == owner
    {
      this.owner := owner;
      prev := this;
      next := this;
    }
  }

  /** The links of node `i` of the circle lead to its neighbours on it. */
  ghost predicate Chained(head: Link, list: seq<Link>, i: int)
    requires 0 <= i < |list|
    reads list
  {
    && list[i].next == (if i + 1 < |list| then list[i + 1] else head)
    && list[i].prev == (if i > 0 then list[i - 1] else head)
  }

  /** `head` and the nodes of `list` form one circle, in that order, in both directions. */
  ghost predicate Circular(head: Link, list: seq<Link>)
    reads head, list
  {
    && head.next == (if list == [] then head else list[0])
    && head.prev == (if list == [] then head else list[|list| - 1])
    && (forall i :: 0 <= i < |list| ==> Chained(head, list, i))
  }

  /** All nodes of all queues are different nodes, and nodes of `links`. */
  ghost predicate Apart<K>(links: set<Link>, heads: map<K, Link>, lists: map<K, seq<Link>>) {
    && heads.Keys == lists.Keys
    && (forall k :: k in heads ==> heads[k] in links)
    && (forall k, i :: k in lists && 0 <= i < |lists[k]| ==> lists[k][i] in links)
    && (forall k, l :: k in heads && l in heads && heads[k] == heads[l] ==> k == l)
    && (forall k, l, i :: k in heads && l in lists && 0 <= i < |lists[l]| ==> heads[k] != lists[l][i])
    && (forall k, l, i, j :: k in lists && l in lists && 0 <= i < |lists[k]| && 0 <= j < |lists[l]| ==>
          lists[k][i] == lists[l][j] ==> k == l && i == j)
  }

  /** The queues are well linked, share no node, and use only nodes of `links`. */
  ghost predicate Linked<K>(links: set<Link>, heads: map<K, Link>, lists: map<K, seq<Link>>)
    reads links
  {
    && Apart(links, heads, lists)
    && (forall k {:trigger Circular(heads[k], lists[k])} :: k in heads ==> Circular(heads[k], lists[k]))
  }

  /** The node belongs to no queue. */
  ghost predicate Loose<K>(q: Link, heads: map<K, Link>, lists: map<K, seq<Link>>) {
    && (forall k :: k in heads ==> heads[k] != q)
    && (forall k, i :: k in lists && 0 <= i < |lists[k]| ==> lists[k][i] != q)
  }

  lemma ApartCut<K>(links: set<Link>, heads: map<K, Link>, lists: map<K, seq<Link>>, k: K, j: nat)
    requires Apart(links, heads, lists) && k in lists && j < |lists[k]|
    ensures Apart(links, heads, lists[k := RemoveAt(lists[k], j)])
    ensures Loose(lists[k][j], heads, lists[k := RemoveAt(lists[k], j)])
  {
    var cut := RemoveAt(lists[k], j);
  }

  lemma ApartAdd<K>(links: set<Link>, heads: map<K, Link>, lists: map<K, seq<Link>>, k: K, q: Link, list: seq<Link>)
    requires Apart(links, heads, lists) && k in lists && Loose(q, heads, lists) && q in links
    requires list == [q] + lists[k] || list == lists[k] + [q]
    ensures Apart(links, heads, lists[k := list])
  {
    var offset := if list == [q] + lists[k] then 1 else 0;
    assert forall i :: 0 <= i < |list| ==>
      list[i] == q || (0 <= i - offset < |lists[k]| && list[i] == lists[k][i - offset]);
  }

  lemma LinkedExtends<K>(links: set<Link>, heads: map<K, Link>, lists: map<K, seq<Link>>, k: K, head: Link)
    requires Linked(links, heads, lists) && k !in heads && head !in links && Circular(head, [])
    ensures Linked(links + {head}, heads[k := head], lists[k := []])
  {
    var heads', lists' := heads[k := head], lists[k := []];
    forall l | l in heads' ensures Circular(heads'[l], lists'[l]) {
      assert l != k ==> Circular(heads[l], lists[l]);
    }
  }

  lemma LooseIsFresh<K>(links: set<Link>, heads: map<K, Link>, lists: map<K, seq<Link>>, q: Link)
    requires Linked(links, heads, lists) && q !in links
    ensures Linked(links + {q}, heads, lists) && Loose(q, heads, lists)
  {
    forall l | l in heads ensures Circular(heads[l], lists[l]) {}
  }

  /** queue_empty */
  method QueueEmpty(head: Link, ghost list: seq<Link>) returns (empty: bool)
    requires Circular(head, list) && head !in list
    ensures empty <==> list == []
  {
    empty := head == head.prev;
  }

  /** queue_insert_head prepends to the queue of `head` and touches no other queue. */
  method QueueInsertHead<K>(head: Link, q: Link, ghost links: set<Link>, ghost heads: map<K, Link>,
      ghost lists: map<K, seq<Link>>, ghost k: K)
    requires Linked(links, heads, lists) && k in heads && heads[k] == head && Loose(q, heads, lists) && q in links
    modifies q`prev, q`next, head`next, head.next`prev
    ensures Linked(links, heads, lists[k := [q] + lists[k]])
  {
    ghost var list := lists[k];
    assert Circular(head, list);
    q.next := head.next;
    q.prev := head;

    head.next.prev := q;
    head.next := q;

    ghost var after := [q] + list;
    forall i | 0 <= i < |after| ensures Chained(head, after, i) {
      if i > 0 {
        assert after[i] == list[i - 1];
        assert old(Chained(head, list, i - 1));
      }
    }
    assert Circular(head, after);
    ApartAdd(links, heads, lists, k, q, after);
    forall l | l in heads && l != k ensures Circular(heads[l], lists[l]) {
      assert old(Circular(heads[l], lists[l]));
      forall i | 0 <= i < |lists[l]| ensures Chained(heads[l], lists[l], i) {
        assert old(Chained(heads[l], lists[l], i));
      }
    }
  }

  /** queue_insert_tail appends to the queue of `head` and touches no other queue. */
  method QueueInsertTail<K>(head: Link, q: Link, ghost links: set<Link>, ghost heads: map<K, Link>,
      ghost lists: map<K, seq<Link>>, ghost k: K)
    requires Linked(links, heads, lists) && k in heads && heads[k] == head && Loose(q, heads, lists) && q in links
    modifies q`prev, q`next, head`prev, head.prev`next
    ensures Linked(links, heads, lists[k := lists[k] + [q]])
  {
    ghost var list := lists[k];
    assert Circular(head, list);
    q.next := head;
    q.prev := head.prev;

    head.prev.next := q;
    head.prev := q;

    ghost var after := list + [q];
    forall i | 0 <= i < |after| ensures Chained(head, after, i) {
      if i < |list| { assert old(Chained(head, list, i)); }
    }
    assert Circular(head, after);
    ApartAdd(links, heads, lists, k, q, after);
    forall l | l in heads && l != k ensures Circular(heads[l], lists[l]) {
      assert old(Circular(heads[l], lists[l]));
      forall i | 0 <= i < |lists[l]| ensures Chained(heads[l], lists[l], i) {
        assert old(Chained(heads[l], lists[l], i));
      }
    }
  }

  /** queue_remove takes the node out of whichever queue holds it, touches no other queue, and
      leaves the node linked to itself. */
  method QueueRemove<K>(q: Link, ghost links: set<Link>, ghost heads: map<K, Link>,
      ghost lists: map<K, seq<Link>>, ghost k: K, ghost j: nat)
    requires Linked(links, heads, lists) && k in lists && j < |lists[k]| && lists[k][j] == q
    modifies q`prev, q`next, q.prev`next, q.next`prev
    ensures Linked(links, heads, lists[k := RemoveAt(lists[k], j)])
    ensures Loose(q, heads, lists[k := RemoveAt(lists[k], j)])
    ensures q.next == q && q.prev == q
  {
    ghost var list, head := lists[k], heads[k];
    assert Circular(head, list);
    assert Chained(head, list, j);
    q.prev.next := q.next;
    q.next.prev := q.prev;

    q.next := q;
    q.prev := q;

    ghost var after := RemoveAt(list, j);
    forall i | 0 <= i < |after| ensures Chained(head, after, i) {
      var i' := if i < j then i else i + 1;
      assert after[i] == list[i'];
      assert old(Chained(head, list, i'));
    }
    ApartCut(links, heads, lists, k, j);
    forall l | l in heads && l != k ensures Circular(heads[l], lists[l]) {
      assert old(Circular(heads[l], lists[l]));
      forall i | 0 <= i < |lists[l]| ensures Chained(heads[l], lists[l], i) {
        assert old(Chained(heads[l], lists[l], i));
      }
    }
  }

  /** The lists after one node moved to the tail of another queue. */
  function Relinked<K>(lists: map<K, seq<Link>>, from: K, j: nat, to: K): map<K, seq<Link>>
    requires from in lists && to in lists && j < |lists[from]|
  {
    var cut := lists[from := RemoveAt(lists[from], j)];
    cut[to := cut[to] + [lists[from][j]]]
  }

  /** queue_remove followed by queue_insert_tail: the pair by which a task changes queues. */
  method Requeue<K>(q: Link, head: Link, ghost links: set<Link>, ghost heads: map<K, Link>,
      ghost lists: map<K, seq<Link>>, ghost from: K, ghost j: nat, ghost to: K)
    requires Linked(links, heads, lists) && from in lists && j < |lists[from]| && lists[from][j] == q
    requires to in heads && heads[to] == head
    modifies links`prev, links`next
    ensures Linked(links, heads, Relinked(lists, from, j, to))
  {
    assert Circular(heads[from], lists[from]);
    assert Chained(heads[from], lists[from], j);
    QueueRemove(q, links, heads, lists, from, j);
    ghost var cut := lists[from := RemoveAt(lists[from], j)];
    assert Circular(heads[to], cut[to]);
    QueueInsertTail(head, q, links, heads, cut, to);
  }
}
