/** The out-queue and the wait queues of one context, on nodes: a PDU is on at
    most one of them, and moves between them by relinking. */
module RpcQueues {
  import opened Prelude
  import opened RpcModel
  import opened LinkedQueue

  /** `n` is one of the PDUs `all`, which are numbered by their ids, and belongs to `q`. */
  ghost predicate Mine(n: Node, q: LinkedQueue, all: seq<Node>)
    reads n`owner
  {
    n.owner == q && n.id < |all| && all[n.id] == n
  }

  /** A PDU that is on no queue and is the tail of none. */
  ghost predicate Loose(n: Node, all: seq<Node>)
    reads n`owner
  {
    n.owner == null && n.id < |all| && all[n.id] == n
  }

  ghost predicate Within(q: LinkedQueue, all: seq<Node>)
    reads q
  {
    (forall i :: 0 <= i < |q.nodes| ==> q.nodes[i] in all) && (q.tail != null ==> q.tail in all)
  }

  /** The queue is in order, is `v`, and owns its PDUs and its tail. */
  ghost predicate Sound(q: LinkedQueue, v: Queue, all: seq<Node>)
    requires Within(q, all)
    reads q, all
  {
    && q.Valid() && q.View() == v
    && (forall i :: 0 <= i < |q.nodes| ==> Mine(q.nodes[i], q, all))
    && (q.tail != null ==> Mine(q.tail, q, all))
  }

  ghost predicate Unused(q: LinkedQueue)
    reads q, q.nodes`written
  {
    q.nodes == [] && q.tail == null && q.View() == EMPTY
  }

  class Pool {
    const queues: seq<LinkedQueue>      // the out-queue, then the wait queues
    ghost var all: seq<Node>            // every PDU so far, by id
    ghost var views: seq<Queue>

    ghost predicate Valid()
      reads this, queues, all
    {
      && |views| == |queues| && (forall i, j :: 0 <= i < j < |queues| ==> queues[i] != queues[j])
      && (forall i :: 0 <= i < |all| ==> all[i].id == i)
      && (forall k :: 0 <= k < |queues| ==> Within(queues[k], all) && Sound(queues[k], views[k], all))
    }

    constructor (n: nat)
      ensures Valid() && |queues| == n && views == seq(n, i => EMPTY) && all == []
      ensures forall k :: 0 <= k < n ==> fresh(queues[k])
    {
      var qs: seq<LinkedQueue> := [];
      for i := 0 to n
        invariant |qs| == i && forall k :: 0 <= k < i ==> fresh(qs[k]) && qs[k].Valid() && Unused(qs[k])
        invariant forall j, k :: 0 <= j < k < i ==> qs[j] != qs[k]
      {
        var q := new LinkedQueue();
        qs := qs + [q];
      }
      queues, all, views := qs, [], seq(n, i => EMPTY);
    }

    /** Whether queue `k` has a head, and what it is. */
    lemma Head(k: nat)
      requires Valid() && k < |queues|
      ensures queues[k].head == null <==> views[k].items == []
      ensures queues[k].head != null ==> queues[k].head.Value() == views[k].items[0]
    {
      hide Distinct, TailPlaced, Chain;
      var q := queues[k];
      assert Sound(q, views[k], all);
      ChainHead(q.head, q.nodes);
    }

    /** A new PDU, on no queue yet. */
    method Allocate(id: nat, xid: nat, size: nat, timeout: nat) returns (p: Node)
      requires Valid() && id == |all|
      modifies `all
      ensures Valid() && fresh(p) && Loose(p, all) && all == old(all) + [p] && views == old(views)
      ensures p.Value() == Pdu(id, xid, size, 0, timeout)
    {
      p := new Node(id, xid, size, timeout);
      all := all + [p];
      forall k | 0 <= k < |queues| ensures Sound(queues[k], views[k], all) {
        assert old(Sound(queues[k], views[k], all));
      }
    }

    /** `rpc_enqueue` on queue `k`. */
    method Push(k: nat, p: Node)
      requires Valid() && k < |queues| && Loose(p, all)
      modifies this, queues, all
      ensures Valid() && all == old(all) && views == old(views)[k := Enqueue(old(views)[k], old(p.Value()))]
    {
      hide RpcModel.Enqueue, Distinct, TailPlaced, Values, Chain, LinkedQueue.View;
      PushOn(queues[k], p, views[k], all);
      views := views[k := RpcModel.Enqueue(views[k], p.Value())];
      forall j | 0 <= j < |queues| && j != k ensures Within(queues[j], all) && Sound(queues[j], views[j], all) {
        assert old(Sound(queues[j], views[j], all));
      }
    }

    /** No PDU of another queue is one of queue `k`. */
    lemma KeepApart(k: nat)
      requires Valid() && k < |queues|
      ensures forall j, i :: 0 <= j < |queues| && j != k && 0 <= i < |queues[j].nodes| ==>
        queues[j].nodes[i] !in queues[k].nodes
    {
      hide Distinct, TailPlaced, Values, Chain;
    }

    /** Takes the head off queue `k`. */
    method Pop(k: nat) returns (p: Node)
      requires Valid() && k < |queues| && views[k].items != []
      modifies this, queues, all
      ensures Valid() && all == old(all) && Loose(p, all) && p.Value() == old(views)[k].items[0]
      ensures views == old(views)[k := Popped(old(views)[k])]
    {
      hide Distinct, TailPlaced, Values, Chain, LinkedQueue.View, Popped;
      ChainHead(queues[k].head, queues[k].nodes);
      p := PopFrom(queues[k], views[k], all);
      views := views[k := Popped(views[k])];
      forall j | 0 <= j < |queues| && j != k ensures Within(queues[j], all) && Sound(queues[j], views[j], all) {
        assert old(Sound(queues[j], views[j], all));
      }
    }

    /** Records that the head of queue `k` is written up to `w`. */
    method Progress(k: nat, w: nat)
      requires Valid() && k < |queues| && views[k].items != []
      modifies this, queues, all
      ensures Valid() && all == old(all) && views == old(views)[k := HeadAt(old(views)[k], w)]
    {
      hide Distinct, TailPlaced, Values, Chain, LinkedQueue.View, HeadAt;
      ChainHead(queues[k].head, queues[k].nodes);
      WriteHead(queues[k], views[k], w, all);
      views := views[k := HeadAt(views[k], w)];
      forall j | 0 <= j < |queues| && j != k ensures Within(queues[j], all) && Sound(queues[j], views[j], all) {
        assert old(Sound(queues[j], views[j], all));
      }
    }

    /** Takes the first PDU with `xid` off queue `k`, if there is one. */
    method Take(k: nat, xid: nat) returns (p: Node?)
      requires Valid() && k < |queues|
      modifies this, queues, all
      ensures Valid() && all == old(all)
      ensures var i := Find(old(views)[k].items, xid);
        if i < |old(views)[k].items|
        then p != null && p.Value() == old(views)[k].items[i] && views == old(views)[k := Unlink(old(views)[k], i)]
        else p == null && views == old(views)
    {
      hide Distinct, TailPlaced, Values, Chain, Find, Unlink, LinkedQueue.Valid, LinkedQueue.View;
      KeepApart(k);
      p := TakeFrom(queues[k], xid, views[k], all);
      views := if p == null then views else views[k := Unlink(views[k], Find(views[k].items, xid))];
      forall j | 0 <= j < |queues| && j != k ensures Within(queues[j], all) && Sound(queues[j], views[j], all) {
        assert old(Sound(queues[j], views[j], all));
      }
    }

    /** One queue's part of `rpc_timeout_scan`. */
    method Expire(k: nat, now: nat) returns (fired: seq<Node>)
      requires Valid() && k < |queues|
      modifies this, queues, all
      ensures Valid() && all == old(all) && views == old(views)[k := Scan(old(views)[k], now)]
      ensures Values(fired) == Keep(old(views)[k].items, now, true)
    {
      hide Distinct, TailPlaced, Values, Chain, LinkedQueue.Valid, LinkedQueue.View, Scan, Keep;
      KeepApart(k);
      fired := ExpireOn(queues[k], now, views[k], all);
      views := views[k := Scan(views[k], now)];
      forall j | 0 <= j < |queues| && j != k ensures Within(queues[j], all) && Sound(queues[j], views[j], all) {
        assert old(Sound(queues[j], views[j], all));
      }
    }

    /** One queue's part of `rpc_purge_all_pdus`. */
    method Drain(k: nat) returns (fired: seq<Node>)
      requires Valid() && k < |queues|
      modifies this, queues, all
      ensures Valid() && all == old(all) && views == old(views)[k := EMPTY] && Values(fired) == old(views)[k].items
    {
      hide Distinct, TailPlaced, Values, Chain, LinkedQueue.Valid, LinkedQueue.View;
      KeepApart(k);
      fired := DrainFrom(queues[k], views[k], all);
      views := views[k := EMPTY];
      forall j | 0 <= j < |queues| && j != k ensures Within(queues[j], all) && Sound(queues[j], views[j], all) {
        assert old(Sound(queues[j], views[j], all));
      }
    }

    /** One bucket's part of `rpc_reconnect_requeue`: its PDUs go to the front of queue 0. */
    method Return(k: nat)
      requires Valid() && 0 < k < |queues|
      modifies this, queues, all
      ensures Valid() && all == old(all)
      ensures views == old(views)[0 := PushAll(old(views)[0], old(views)[k].items)][k := EMPTY]
    {
      hide Distinct, TailPlaced, Values, Chain, LinkedQueue.Valid, LinkedQueue.View, PushAll;
      KeepApart(k);
      ghost var v := PushAll(views[0], views[k].items);
      ReturnAll(queues[0], queues[k], views[0], views[k], all);
      views := views[0 := v][k := EMPTY];
      forall j | 0 < j < |queues| && j != k ensures Within(queues[j], all) && Sound(queues[j], views[j], all) {
        assert old(Sound(queues[j], views[j], all));
      }
    }
  }

  function Popped(q: Queue): Queue
    requires q.items != []
  {
    Queue(q.items[1..], if |q.items| == 1 then None else q.tail)
  }

  function HeadAt(q: Queue, w: nat): Queue
    requires q.items != []
  {
    q.(items := [q.items[0].(written := w)] + q.items[1..])
  }

  /** Pushing `items` one by one to the front of `q`, to be sent from their first byte. */
  function PushAll(q: Queue, items: seq<Pdu>): Queue {
    if items == [] then q
    else PushFront(PushAll(q, items[..|items| - 1]), items[|items| - 1].(written := 0))
  }

  method PushOn(q: LinkedQueue, p: Node, ghost v: Queue, ghost all: seq<Node>)
    requires Within(q, all) && Sound(q, v, all) && Loose(p, all)
    modifies q, q.TailSet()`next, p`next, p`owner
    ensures Within(q, all) && Sound(q, RpcModel.Enqueue(v, p.Value()), all)
  {
    hide RpcModel.Enqueue, Distinct, TailPlaced, Fresh, TailRight, Values, Chain;
    LooseIsFresh(p, q, v, all);
    q.Enqueue(p);
    p.owner := q;
  }

  lemma LooseIsFresh(p: Node, q: LinkedQueue, v: Queue, all: seq<Node>)
    requires Within(q, all) && Sound(q, v, all) && Loose(p, all)
    ensures Fresh(p, q.nodes) && p !in q.nodes && q.tail != p && (q.tail != null ==> q.tail.id != p.id)
  {
    hide Distinct, TailPlaced, Values, Chain;
    forall i | 0 <= i < |q.nodes| ensures q.nodes[i].id != p.id {
      assert Mine(q.nodes[i], q, all);
    }
  }

  method PopFrom(q: LinkedQueue, ghost v: Queue, ghost all: seq<Node>) returns (p: Node)
    requires Within(q, all) && Sound(q, v, all) && v.items != []
    modifies q, q.head`owner
    ensures Within(q, all) && Sound(q, Popped(v), all) && Loose(p, all) && p.Value() == v.items[0]
  {
    hide Distinct, TailPlaced, Values, Chain;
    ghost var ns := q.nodes;
    ChainHead(q.head, ns);
    assert Mine(ns[0], q, all);
    p := q.PopFront();
    p.owner := null;
    forall i | 0 <= i < |q.nodes| ensures Mine(q.nodes[i], q, all) {
      assert q.nodes[i] == ns[i + 1] && q.nodes[i] in q.nodes;
    }
  }

  method WriteHead(q: LinkedQueue, ghost v: Queue, w: nat, ghost all: seq<Node>)
    requires Within(q, all) && Sound(q, v, all) && v.items != []
    modifies q.head`written
    ensures Within(q, all) && Sound(q, HeadAt(v, w), all)
  {
    hide TailPlaced, Chain;
    ChainHead(q.head, q.nodes);
    ghost var before := Values(q.nodes);
    q.head.written := w;
    forall i | 0 < i < |q.nodes| ensures q.nodes[i].Value() == before[i] {
      SameNode(q.nodes, 0, i);
    }
    assert Values(q.nodes) == [before[0].(written := w)] + before[1..];
  }

  method TakeFrom(q: LinkedQueue, xid: nat, ghost v: Queue, ghost all: seq<Node>) returns (p: Node?)
    requires Within(q, all) && Sound(q, v, all)
    modifies q, q.nodes`next
    ensures var i := Find(v.items, xid);
      if i < |v.items| then p != null && p.Value() == v.items[i] && Within(q, all) && Sound(q, Unlink(v, i), all)
      else p == null && Within(q, all) && Sound(q, v, all)
  {
    hide Distinct, TailPlaced, Values, Chain, Find, Unlink;
    ghost var ns, t := q.nodes, q.tail;
    p := q.TakeXid(xid);
    forall i | 0 <= i < |q.nodes| ensures Mine(q.nodes[i], q, all) {
      assert q.nodes[i] in ns;
      var j :| 0 <= j < |ns| && ns[j] == q.nodes[i];
      assert old(Mine(ns[j], q, all));
    }
    if q.tail != null && q.tail != t {
      var j :| 0 <= j < |ns| && ns[j] == q.tail;
      assert old(Mine(ns[j], q, all));
    }
  }

  method ExpireOn(q: LinkedQueue, now: nat, ghost v: Queue, ghost all: seq<Node>) returns (fired: seq<Node>)
    requires Within(q, all) && Sound(q, v, all)
    modifies q, q.nodes`next
    ensures Within(q, all) && Sound(q, Scan(v, now), all) && Values(fired) == Keep(v.items, now, true)
  {
    hide Distinct, TailPlaced, Values, Chain, Scan, Keep, KeepNodes;
    ghost var ns := q.nodes;
    fired := q.TimeoutScan(now);
    forall i | 0 <= i < |q.nodes| ensures Mine(q.nodes[i], q, all) {
      assert q.nodes[i] in ns;
      var j :| 0 <= j < |ns| && ns[j] == q.nodes[i];
      assert old(Mine(ns[j], q, all));
    }
  }

  method DrainFrom(q: LinkedQueue, ghost v: Queue, ghost all: seq<Node>) returns (fired: seq<Node>)
    requires Within(q, all) && Sound(q, v, all)
    modifies q, q.nodes`next
    ensures Within(q, all) && Sound(q, EMPTY, all) && Values(fired) == v.items
  {
    hide Distinct, TailPlaced, Values, Chain;
    ghost var ns := q.nodes;
    fired := q.Drain();
    assert Values(ns) == old(Values(q.nodes));
  }

  method PushFrontOn(q: LinkedQueue, p: Node, ghost v: Queue, ghost all: seq<Node>)
    requires Within(q, all) && Sound(q, v, all) && Loose(p, all)
    modifies q, p`next, p`owner
    ensures Within(q, all) && Sound(q, PushFront(v, p.Value()), all)
  {
    hide Distinct, TailPlaced, Values, Chain;
    LooseIsFresh(p, q, v, all);
    q.ReturnToQueue(p);
    p.owner := q;
  }

  /** What is left of a chain that is being taken apart from the front. */
  ghost predicate LeftOver(p: Node?, ns: seq<Node>, j: nat, items: seq<Pdu>, all: seq<Node>)
    reads ns
  {
    && j <= |ns| == |items| && Distinct(ns) && Chain(p, ns[j..])
    && forall i :: j <= i < |ns| ==> Loose(ns[i], all) && ns[i].Value() == items[i]
  }

  /** Moves the PDUs of `from` one by one to the front of `to`, then resets `from`. */
  method ReturnAll(to: LinkedQueue, from: LinkedQueue, ghost v: Queue, ghost w: Queue, ghost all: seq<Node>)
    requires to != from && Within(to, all) && Sound(to, v, all) && Within(from, all) && Sound(from, w, all)
    modifies to, from, from.nodes
    ensures Within(to, all) && Sound(to, PushAll(v, w.items), all) && Within(from, all) && Sound(from, EMPTY, all)
  {
    hide Distinct, TailPlaced, Values, Chain, PushAll, Sound, Within;
    ghost var ns := from.nodes;
    var p := from.head;
    Unhook(from, w, to, v, all);
    ghost var j := 0;
    PushAllNone(v, w.items);
    while p != null
      invariant LeftOver(p, ns, j, w.items, all) && (p == null <==> j == |ns|)
      invariant Within(to, all) && Sound(to, PushAll(v, w.items[..j]), all)
      modifies to, ns
      decreases |ns| - j
    {
      ChainHead(p, ns[j..]);
      assert p == ns[j];
      p := ReturnOne(to, p, v, w.items, ns, j, all);
      j := j + 1;
    }
    assert w.items[..|w.items|] == w.items;
    ResetQueue(from, all);
  }

  lemma PushAllNone(v: Queue, items: seq<Pdu>)
    ensures PushAll(v, items[..0]) == v
  {
  }

  /** Lets the PDUs of `q` go: they are still chained, but belong to none. Another queue keeps its own. */
  ghost method Unhook(q: LinkedQueue, w: Queue, to: LinkedQueue, v: Queue, all: seq<Node>)
    requires q != to && Within(q, all) && Sound(q, w, all) && Within(to, all) && Sound(to, v, all)
    modifies q`nodes, q.nodes`owner
    ensures q.nodes == [] && LeftOver(q.head, old(q.nodes), 0, w.items, all)
    ensures q.head == null <==> old(q.nodes) == []
    ensures Within(to, all) && Sound(to, v, all)
  {
    hide Distinct, TailPlaced, Chain, Values;
    var ns := q.nodes;
    ChainHead(q.head, ns);
    assert ns[0..] == ns;
    assert |ns| == |w.items| && forall i :: 0 <= i < |ns| ==> ns[i].Value() == w.items[i] by {
      ValuesAre(ns, w.items);
    }
    forall n | n in ns {
      n.owner := null;
    }
    q.nodes := [];
  }

  lemma ValuesAre(ns: seq<Node>, items: seq<Pdu>)
    requires Values(ns) == items
    ensures |ns| == |items| && forall i :: 0 <= i < |ns| ==> ns[i].Value() == items[i]
  {
  }

  method ResetQueue(q: LinkedQueue, ghost all: seq<Node>)
    requires q.nodes == []
    modifies q
    ensures Within(q, all) && Sound(q, EMPTY, all)
  {
    q.head, q.tail := null, null;
    NoNodes();
  }

  method ReturnOne(to: LinkedQueue, p: Node, ghost v: Queue, ghost items: seq<Pdu>, ghost ns: seq<Node>, ghost j: nat,
                   ghost all: seq<Node>) returns (next: Node?)
    requires LeftOver(p, ns, j, items, all) && Within(to, all) && Sound(to, PushAll(v, items[..j]), all)
    modifies to, p
    ensures LeftOver(next, ns, j + 1, items, all) && (next == null <==> j + 1 == |ns|)
    ensures Within(to, all) && Sound(to, PushAll(v, items[..j + 1]), all)
  {
    hide TailPlaced, Values, PushAll;
    ChainHead(p, ns[j..]);
    ChainTail(p, ns[j..]);
    assert ns[j..][1..] == ns[j + 1..];
    next := p.next;
    ChainHead(next, ns[j + 1..]);
    PushAllNext(v, items, j);
    p.written := 0;
    PushFrontOn(to, p, PushAll(v, items[..j]), all);
    ghost var rest := ns[j + 1..];
    forall i | 0 <= i < |rest| ensures rest[i] == ns[j + 1 + i] && rest[i] != p {
      SameNode(ns, j, j + 1 + i);
    }
  }

  lemma PushAllNext(v: Queue, items: seq<Pdu>, j: nat)
    requires j < |items|
    ensures PushAll(v, items[..j + 1]) == PushFront(PushAll(v, items[..j]), items[j].(written := 0))
  {
    assert items[..j + 1][..j] == items[..j];
  }
}
