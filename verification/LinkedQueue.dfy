/** `struct rpc_queue` as it is: nodes linked by `next`, with a head and a tail
    pointer. Each operation is proved against its function on `Queue` values,
    also when the tail points at a PDU that has left the queue. */
module LinkedQueue {
  import opened Prelude
  import opened RpcModel

  class Node {
    const id: nat
    const xid: nat
    const size: nat
    const timeout: nat
    var written: nat
    var next: Node?
    ghost var owner: LinkedQueue?   // the queue it is on, or whose tail it is

    constructor (id: nat, xid: nat, size: nat, timeout: nat)
      ensures this.id == id && this.xid == xid && this.size == size && this.timeout == timeout
      ensures written == 0 && next == null && owner == null
    {
      this.id, this.xid, this.size, this.timeout := id, xid, size, timeout;
      written, next, owner := 0, null, null;
    }

    function Value(): Pdu
      reads this`written
    {
      Pdu(id, xid, size, written, timeout)
    }
  }

  ghost function Values(nodes: seq<Node>): (r: seq<Pdu>)
    reads nodes`written
    ensures |r| == |nodes|
    ensures forall i :: 0 <= i < |r| ==> r[i] == nodes[i].Value()
  {
    if nodes == [] then [] else [nodes[0].Value()] + Values(nodes[1..])
  }

  /** The node that follows position `i`. */
  ghost function After(nodes: seq<Node>, i: nat): Node?
  {
    if i + 1 < |nodes| then nodes[i + 1] else null
  }

  /** Following `next` from `head` visits `nodes` and ends. */
  ghost predicate Chain(head: Node?, nodes: seq<Node>)
    reads nodes`next
  {
    && head == (if nodes == [] then null else nodes[0])
    && (forall i {:trigger After(nodes, i)} :: 0 <= i < |nodes| ==> nodes[i].next == After(nodes, i))
  }

  ghost predicate Distinct(nodes: seq<Node>) {
    forall i, j :: 0 <= i < j < |nodes| ==> nodes[i].id != nodes[j].id
  }

  /** The tail is there while nodes are, and is either the last of them or none of them. */
  ghost predicate TailPlaced(tail: Node?, nodes: seq<Node>) {
    && (nodes != [] ==> tail != null)
    && (forall i :: 0 <= i < |nodes| && tail != null && nodes[i].id == tail.id ==> nodes[i] == tail && i == |nodes| - 1)
  }

  ghost predicate Fresh(p: Node, nodes: seq<Node>) {
    forall i :: 0 <= i < |nodes| ==> nodes[i].id != p.id
  }

  lemma Appended(p: Node, nodes: seq<Node>)
    requires Distinct(nodes) && Fresh(p, nodes)
    ensures Distinct(nodes + [p]) && TailPlaced(p, nodes + [p]) && TailPlaced(p, nodes)
    ensures p !in nodes && Values(nodes + [p]) == Values(nodes) + [p.Value()]
  {
  }

  lemma ChainHead(head: Node?, nodes: seq<Node>)
    requires Chain(head, nodes)
    ensures head == null <==> nodes == []
    ensures nodes != [] ==> head == nodes[0]
  {
  }

  /** Puts `p` in front of the chain that starts at `head`. */
  method LinkBefore(p: Node, head: Node?, ghost nodes: seq<Node>)
    requires Chain(head, nodes) && p !in nodes
    modifies p`next
    ensures Chain(p, [p] + nodes)
  {
    p.next := head;
    ghost var ns := [p] + nodes;
    forall i | 0 <= i < |ns| ensures ns[i].next == After(ns, i) {
      if i > 0 {
        assert nodes[i - 1] in nodes && nodes[i - 1].next == After(nodes, i - 1);
      }
    }
    assert Chain(p, ns);
  }

  /** Hangs `p` behind `tail`, which ends the chain or is no part of it. */
  method LinkBehind(tail: Node, p: Node, ghost head: Node, ghost nodes: seq<Node>)
    requires Chain(head, nodes) && p !in nodes && tail != p && nodes != []
    requires tail !in nodes[..|nodes| - 1]
    modifies tail`next, p`next
    ensures tail == nodes[|nodes| - 1] ==> Chain(head, nodes + [p])
    ensures tail != nodes[|nodes| - 1] ==> Chain(head, nodes)
  {
    ghost var n := |nodes|;
    tail.next := p;
    p.next := null;
    ghost var ns := if tail == nodes[n - 1] then nodes + [p] else nodes;
    forall i | 0 <= i < |ns| ensures ns[i].next == After(ns, i) {
      if i < n - 1 {
        assert nodes[..n - 1][i] == nodes[i] && nodes[i] in nodes;
        assert nodes[i].next == After(nodes, i);
      } else if i == n - 1 {
        assert nodes[i] in nodes;
        assert old(nodes[i].next) == After(nodes, i);
      }
    }
    assert Chain(head, ns);
  }

  ghost function Without(nodes: seq<Node>, k: nat): seq<Node>
    requires k < |nodes|
  {
    nodes[..k] + nodes[k + 1..]
  }

  /** Leads the chain past the node behind `prev`. */
  method LinkPast(prev: Node, ghost head: Node, ghost nodes: seq<Node>, ghost k: nat)
    requires Chain(head, nodes) && Distinct(nodes) && 0 < k < |nodes| && prev == nodes[k - 1]
    modifies prev`next
    ensures Chain(head, Without(nodes, k))
  {
    assert prev.next == After(nodes, k - 1) == nodes[k];
    assert nodes[k].next == After(nodes, k);
    prev.next := prev.next.next;
    ghost var ns := Without(nodes, k);
    forall i | 0 <= i < |ns| ensures ns[i].next == After(ns, i) {
      var j := if i < k then i else i + 1;
      assert ns[i] == nodes[j] && (j != k - 1 ==> nodes[j] != prev);
      assert j != k - 1 ==> nodes[j].next == After(nodes, j);
    }
    assert Chain(head, ns);
  }

  lemma ChainTail(head: Node, nodes: seq<Node>)
    requires Chain(head, nodes)
    ensures nodes != [] && Chain(head.next, nodes[1..]) && Without(nodes, 0) == nodes[1..]
  {
    var ns := nodes[1..];
    assert head.next == After(nodes, 0);
    forall i | 0 <= i < |ns| ensures ns[i].next == After(ns, i) {
      assert nodes[i + 1].next == After(nodes, i + 1);
    }
    assert Chain(head.next, ns);
  }

  lemma Removed(tail: Node?, nodes: seq<Node>, k: nat)
    requires Distinct(nodes) && TailPlaced(tail, nodes) && k < |nodes|
    ensures Distinct(Without(nodes, k)) && TailPlaced(tail, Without(nodes, k))
    ensures Values(Without(nodes, k)) == Values(nodes)[..k] + Values(nodes)[k + 1..]
  {
    hide Distinct, Values, TailPlaced, Without;
    RemovedDistinct(nodes, k);
    RemovedTail(tail, nodes, k);
    RemovedValues(nodes, k);
  }

  lemma RemovedDistinct(nodes: seq<Node>, k: nat)
    requires Distinct(nodes) && k < |nodes|
    ensures Distinct(Without(nodes, k))
  {
    var ns := Without(nodes, k);
    forall i, j | 0 <= i < j < |ns| ensures ns[i].id != ns[j].id {
      var i', j' := if i < k then i else i + 1, if j < k then j else j + 1;
      assert ns[i] == nodes[i'] && ns[j] == nodes[j'];
    }
  }

  lemma WithoutNode(nodes: seq<Node>, k: nat)
    requires Distinct(nodes) && k < |nodes|
    ensures nodes[k] !in Without(nodes, k) && (k > 0 ==> nodes[k - 1] != nodes[k])
    ensures forall n :: n in Without(nodes, k) ==> n in nodes
  {
  }

  lemma RemovedTail(tail: Node?, nodes: seq<Node>, k: nat)
    requires Distinct(nodes) && TailPlaced(tail, nodes) && k < |nodes|
    ensures TailPlaced(tail, Without(nodes, k))
  {
    var ns := Without(nodes, k);
    forall i | 0 <= i < |ns| && tail != null && ns[i].id == tail.id ensures ns[i] == tail && i == |ns| - 1 {
      var j := if i < k then i else i + 1;
      assert ns[i] == nodes[j];
    }
  }

  lemma RemovedValues(nodes: seq<Node>, k: nat)
    requires k < |nodes|
    ensures Values(Without(nodes, k)) == Values(nodes)[..k] + Values(nodes)[k + 1..]
  {
    hide Values;
    var ns, vs := Without(nodes, k), Values(nodes);
    var rhs := vs[..k] + vs[k + 1..];
    forall i | 0 <= i < |ns| ensures Values(ns)[i] == rhs[i] {
      if i < k {
        assert ns[i] == nodes[i] && rhs[i] == vs[i];
      } else {
        assert ns[i] == nodes[i + 1] && rhs[i] == vs[i + 1];
      }
    }
  }

  lemma SameNode(nodes: seq<Node>, i: nat, k: nat)
    requires Distinct(nodes) && i < |nodes| && k < |nodes|
    ensures nodes[i] == nodes[k] <==> i == k
  {
  }

  lemma ChainNext(head: Node?, nodes: seq<Node>, k: nat)
    requires Chain(head, nodes) && k < |nodes|
    ensures nodes[k].next == if k + 1 < |nodes| then nodes[k + 1] else null
  {
    assert nodes[k].next == After(nodes, k);
  }

  lemma {:induction false} FindNodes(nodes: seq<Node>, xid: nat, k: nat)
    requires k <= |nodes| && (forall i :: 0 <= i < k ==> nodes[i].xid != xid)
    requires k < |nodes| ==> nodes[k].xid == xid
    ensures Find(Values(nodes), xid) == k
    decreases k
  {
    if k > 0 {
      assert Values(nodes)[1..] == Values(nodes[1..]);
      FindNodes(nodes[1..], xid, k - 1);
    }
  }

  /** The new tail after unlinking position `k`: its predecessor when it was the tail. */
  lemma UnlinkFacts(tail: Node?, nodes: seq<Node>, k: nat)
    requires Distinct(nodes) && TailPlaced(tail, nodes) && k < |nodes|
    ensures Distinct(Without(nodes, k)) && tail != null
    ensures Values(Without(nodes, k)) == Values(nodes)[..k] + Values(nodes)[k + 1..]
    ensures tail == nodes[k] <==> tail.id == nodes[k].id
    ensures TailPlaced(if tail == nodes[k] then (if k == 0 then null else nodes[k - 1]) else tail, Without(nodes, k))
  {
    hide Values, Without;
    Removed(tail, nodes, k);
    if tail == nodes[k] {
      UnlinkedTail(tail, nodes, k);
    }
  }

  lemma UnlinkedTail(tail: Node, nodes: seq<Node>, k: nat)
    requires Distinct(nodes) && TailPlaced(tail, nodes) && k < |nodes| && nodes[k] == tail
    ensures TailPlaced(if k == 0 then null else nodes[k - 1], Without(nodes, k))
  {
    assert k == |nodes| - 1;
    var ns := nodes[..k];
    assert Without(nodes, k) == ns;
    if k > 0 {
      forall i | 0 <= i < |ns| && ns[i].id == nodes[k - 1].id ensures i == |ns| - 1 {
        assert ns[i] == nodes[i];
      }
    }
  }

  ghost function KeepNodes(nodes: seq<Node>, now: nat, due: bool): (r: seq<Node>)
    ensures forall n :: n in r ==> n in nodes
  {
    if nodes == [] then []
    else if Expired(nodes[0].timeout, now) == due then [nodes[0]] + KeepNodes(nodes[1..], now, due)
    else KeepNodes(nodes[1..], now, due)
  }

  lemma {:induction false} KeepNodesSnoc(nodes: seq<Node>, p: Node, now: nat, due: bool)
    ensures KeepNodes(nodes + [p], now, due) ==
      KeepNodes(nodes, now, due) + if Expired(p.timeout, now) == due then [p] else []
  {
    if nodes == [] {
      assert nodes + [p] == [p] && [p][1..] == [];
    } else {
      KeepNodesSnoc(nodes[1..], p, now, due);
      assert (nodes + [p])[1..] == nodes[1..] + [p];
      var k, e := KeepNodes(nodes[1..], now, due), if Expired(p.timeout, now) == due then [p] else [];
      assert [nodes[0]] + (k + e) == ([nodes[0]] + k) + e;
    }
  }

  lemma {:induction false} KeepValues(nodes: seq<Node>, now: nat, due: bool)
    ensures Values(KeepNodes(nodes, now, due)) == Keep(Values(nodes), now, due)
  {
    if nodes != [] {
      KeepValues(nodes[1..], now, due);
      assert Values(nodes)[1..] == Values(nodes[1..]);
    }
  }

  /** The queue and the fired PDUs when the scan has looked at `j` positions. */
  ghost predicate MidScan(ns: seq<Node>, now: nat, j: nat, nodes: seq<Node>, fired: seq<Node>) {
    && j <= |ns|
    && nodes == KeepNodes(ns[..j], now, false) + ns[j..]
    && fired == KeepNodes(ns[..j], now, true)
  }

  lemma MidStart(ns: seq<Node>, now: nat)
    ensures MidScan(ns, now, 0, ns, [])
  {
  }

  lemma MidStep(ns: seq<Node>, now: nat, j: nat, nodes: seq<Node>, fired: seq<Node>) returns (k: nat)
    requires MidScan(ns, now, j, nodes, fired) && j < |ns|
    ensures k < |nodes| && nodes[k] == ns[j] && (k + 1 < |nodes| <==> j + 1 < |ns|)
    ensures k + 1 < |nodes| ==> nodes[k + 1] == ns[j + 1]
    ensures Expired(ns[j].timeout, now) ==> MidScan(ns, now, j + 1, Without(nodes, k), fired + [ns[j]])
    ensures !Expired(ns[j].timeout, now) ==> MidScan(ns, now, j + 1, nodes, fired)
  {
    var kept := KeepNodes(ns[..j], now, false);
    k := |kept|;
    assert ns[..j + 1] == ns[..j] + [ns[j]];
    KeepNodesSnoc(ns[..j], ns[j], now, false);
    KeepNodesSnoc(ns[..j], ns[j], now, true);
    hide KeepNodes, Expired;
    DropAt(kept, ns[j..]);
    assert ns[j..][1..] == ns[j + 1..];
  }

  lemma DropAt(a: seq<Node>, b: seq<Node>)
    requires b != []
    ensures Without(a + b, |a|) == a + b[1..]
    ensures a + b == (a + [b[0]]) + b[1..]
    ensures (a + b)[|a|] == b[0]
  {
  }

  lemma MidWithin(ns: seq<Node>, now: nat, j: nat, nodes: seq<Node>, fired: seq<Node>)
    requires MidScan(ns, now, j, nodes, fired) && j < |ns|
    ensures nodes != [] && forall i :: 0 <= i < |nodes| ==> nodes[i] in ns
  {
    var k := |KeepNodes(ns[..j], now, false)|;
    forall i | 0 <= i < |nodes| ensures nodes[i] in ns {
      if i < k {
        assert nodes[i] in KeepNodes(ns[..j], now, false);
      } else {
        assert nodes[i] == ns[j + (i - k)];
      }
    }
  }

  lemma MidEnd(ns: seq<Node>, now: nat, nodes: seq<Node>, fired: seq<Node>)
    requires MidScan(ns, now, |ns|, nodes, fired)
    ensures nodes == KeepNodes(ns, now, false) && fired == KeepNodes(ns, now, true)
    ensures Values(nodes) == Keep(Values(ns), now, false) && Values(fired) == Keep(Values(ns), now, true)
  {
    assert ns[..|ns|] == ns;
    KeepValues(ns, now, false);
    KeepValues(ns, now, true);
  }

  lemma HeadApart(rest: seq<Node>, nodes: seq<Node>, tail: Node?)
    requires nodes != [] && rest == nodes[1..] && Distinct(nodes) && TailPlaced(tail, nodes)
    ensures nodes[0] !in rest && (rest != [] ==> nodes[0] != tail)
  {
  }

  lemma NoNodes()
    ensures TailPlaced(null, []) && Distinct([]) && Chain(null, []) && Values([]) == []
  {
  }

  /** Clears the link of a node in front of a chain. */
  method CutHead(p: Node, ghost ns: seq<Node>, ghost j: nat)
    requires j < |ns| && ns[j] == p && Distinct(ns) && Chain(p.next, ns[j + 1..])
    modifies p`next
    ensures Chain(old(p.next), ns[j + 1..])
  {
    p.next := null;
    ghost var r := ns[j + 1..];
    forall i | 0 <= i < |r| ensures r[i].next == After(r, i) {
      assert r[i] == ns[j + 1 + i];
      assert old(r[i].next) == After(r, i);
    }
  }

  class LinkedQueue {
    var head: Node?
    var tail: Node?
    ghost var nodes: seq<Node>   // what is reachable from head

    ghost predicate Valid()
      reads this, nodes`next
    {
      Chain(head, nodes) && Distinct(nodes) && TailPlaced(tail, nodes)
    }

    ghost function View(): Queue
      reads this, nodes`written
    {
      Queue(Values(nodes), if tail == null then None else Some(tail.id))
    }

    ghost function TailSet(): set<Node>
      reads this
    {
      if tail == null then {} else {tail}
    }

    constructor ()
      ensures Valid() && View() == EMPTY && nodes == [] && tail == null
    {
      head, tail, nodes := null, null, [];
    }

    lemma TailIsLast()
      requires Valid() && nodes != []
      ensures TailRight(View()) <==> tail == nodes[|nodes| - 1]
      ensures tail != null && (tail in nodes ==> tail == nodes[|nodes| - 1])
      ensures tail !in nodes[..|nodes| - 1]
    {
      if tail in nodes {
        var i :| 0 <= i < |nodes| && nodes[i] == tail;
      }
    }

    /** `rpc_enqueue`. */
    method Enqueue(p: Node)
      requires Valid() && Fresh(p, nodes) && tail != p
      modifies this, TailSet()`next, p`next
      ensures Valid() && View() == RpcModel.Enqueue(old(View()), p.Value())
      ensures nodes == if old(nodes) == [] || TailRight(old(View())) then old(nodes) + [p] else old(nodes)
      ensures tail == p
    {
      hide Distinct, TailPlaced, Fresh, TailRight, Values, Chain;
      ghost var ns := nodes;
      Appended(p, nodes);
      ChainHead(head, nodes);
      if head == null {
        LinkBefore(p, null, []);
        head := p;
        nodes := [p];
        assert [p] + [] == [p] && nodes == ns + [p];
      } else {
        TailIsLast();
        if tail == nodes[|nodes| - 1] {
          nodes := nodes + [p];
        }
        LinkBehind(tail, p, head, ns);
      }
      tail := p;
      assert Values(ns) == old(Values(nodes));
    }

    /** `rpc_return_to_queue`. */
    method ReturnToQueue(p: Node)
      requires Valid() && Fresh(p, nodes) && tail != p && (tail != null ==> tail.id != p.id)
      modifies this, p`next
      ensures Valid() && View() == PushFront(old(View()), p.Value())
      ensures nodes == [p] + old(nodes) && tail == if old(tail) == null then p else old(tail)
    {
      hide Distinct, TailPlaced, Fresh, Values, Chain;
      ghost var ns := nodes;
      Prepended(p, tail, nodes);
      LinkBefore(p, head, nodes);
      nodes := [p] + nodes;
      head := p;
      if tail == null {
        tail := p;
      }
      assert Values(ns) == old(Values(nodes));
    }

    /** `LIBNFS_LIST_REMOVE`: the tail pointer is not looked at. */
    method ListRemove(item: Node, ghost k: nat)
      requires Valid() && k < |nodes| && nodes[k] == item
      modifies this`head, this`nodes, nodes`next
      ensures Valid() && nodes == Without(old(nodes), k)
    {
      hide TailPlaced, Values, Chain, Distinct, Without;
      Removed(tail, nodes, k);
      ChainHead(head, nodes);
      ChainNext(head, nodes, k);
      SameNode(nodes, 0, k);
      if head == item {
        ChainTail(head, nodes);
        head := item.next;
      } else {
        var cur := head;
        ghost var i := 0;
        ChainNext(head, nodes, 0);
        SameNode(nodes, 1, k);
        while cur.next != null && cur.next != item
          invariant 0 <= i < k && cur == nodes[i]
          invariant cur.next == nodes[i + 1] && (cur.next == item <==> i + 1 == k)
          modifies {}
          decreases k - i
        {
          cur := cur.next;
          i := i + 1;
          ChainNext(head, nodes, i);
          SameNode(nodes, i + 1, k);
        }
        LinkPast(cur, head, nodes, k);
      }
      nodes := Without(nodes, k);
    }

    /** The search of `rpc_process_pdu` along one bucket. */
    method FindXid(xid: nat) returns (p: Node?, prev: Node?)
      requires Valid()
      ensures var k := Find(View().items, xid);
        k <= |nodes| && p == (if k < |nodes| then nodes[k] else null) && prev == if k == 0 then null else nodes[k - 1]
    {
      hide TailPlaced, Values, Chain, Distinct, Find;
      prev := null;
      ghost var k := 0;
      p := head;
      ChainHead(head, nodes);
      while p != null && p.xid != xid
        invariant k <= |nodes| && p == (if k < |nodes| then nodes[k] else null)
        invariant prev == if k == 0 then null else nodes[k - 1]
        invariant forall i :: 0 <= i < k ==> nodes[i].xid != xid
        decreases |nodes| - k
      {
        ChainNext(head, nodes, k);
        prev := p;
        p := p.next;
        k := k + 1;
      }
      FindNodes(nodes, xid, k);
    }

    method Bypass(p: Node, prev: Node?, ghost k: nat)
      requires Valid() && k < |nodes| && p == nodes[k] && prev == if k == 0 then null else nodes[k - 1]
      modifies this`head, nodes`next
      ensures Chain(head, Without(nodes, k))
    {
      hide TailPlaced, Chain;
      ChainHead(head, nodes);
      if p == head {
        ChainTail(head, nodes);
        head := p.next;
      }
      if prev != null {
        LinkPast(prev, head, nodes, k);
      }
    }

    /** Takes out what the search found, keeping head and tail. */
    method Detach(p: Node, prev: Node?, ghost k: nat)
      requires Valid() && k < |nodes| && p == nodes[k] && prev == if k == 0 then null else nodes[k - 1]
      modifies this, nodes`next
      ensures Valid() && nodes == Without(old(nodes), k) && View() == Unlink(old(View()), k)
      ensures tail == if p == old(tail) then prev else old(tail)
    {
      hide TailPlaced, Values, Chain, Distinct, Without;
      UnlinkFacts(tail, nodes, k);
      Bypass(p, prev, k);
      if p == tail {
        tail := prev;
      }
      nodes := Without(nodes, k);
      assert Values(nodes) == old(Values(Without(nodes, k)));
    }

    /** The search and the unlinking together: the first PDU with `xid` leaves the queue, or none does. */
    method TakeXid(xid: nat) returns (p: Node?)
      requires Valid()
      modifies this, nodes`next
      ensures Valid()
      ensures var k := Find(old(View().items), xid);
        if k < |old(nodes)| then
          p == old(nodes)[k] && nodes == Without(old(nodes), k) && View() == Unlink(old(View()), k)
        else p == null && nodes == old(nodes) && View() == old(View())
      ensures p != null ==> p !in nodes && p != tail
      ensures tail == old(tail) || tail == null || tail in old(nodes)
    {
      hide TailPlaced, Values, Chain, Distinct, Find, Unlink;
      var prev;
      ghost var k := Find(View().items, xid);
      p, prev := FindXid(xid);
      if p != null {
        ghost var ns := nodes;
        Detach(p, prev, k);
        WithoutNode(ns, k);
      }
    }

    /** Takes one expired PDU out; the tail is reset only with the last of them. */
    method RemoveDue(p: Node, ghost k: nat)
      requires Valid() && k < |nodes| && nodes[k] == p
      modifies this, nodes`next
      ensures Valid() && nodes == Without(old(nodes), k)
      ensures tail == if nodes == [] then null else old(tail)
    {
      hide Values, Distinct, Without;
      ListRemove(p, k);
      ChainHead(head, nodes);
      if head == null {
        tail := null;
      }
    }

    /** One round of the scan: look at `p`, fire it if it is due, go on to its successor. */
    method ScanOne(p: Node, now: nat, fired: seq<Node>, ghost ns: seq<Node>, ghost j: nat)
        returns (next: Node?, fired': seq<Node>)
      requires Valid() && j < |ns| && p == ns[j] && MidScan(ns, now, j, nodes, fired)
      modifies this, nodes`next
      ensures Valid() && MidScan(ns, now, j + 1, nodes, fired')
      ensures next == if j + 1 < |ns| then ns[j + 1] else null
      ensures tail == if nodes == [] then null else old(tail)
    {
      hide Values, Chain, Distinct, Without, TailPlaced, MidScan;
      ghost var k := MidStep(ns, now, j, nodes, fired);
      ChainNext(head, nodes, k);
      next, fired' := p.next, fired;
      if Expired(p.timeout, now) {
        RemoveDue(p, k);
        fired' := fired + [p];
      }
    }

    method ScanLoop(now: nat) returns (fired: seq<Node>)
      requires Valid()
      modifies this, nodes`next
      ensures Valid() && MidScan(old(nodes), now, |old(nodes)|, nodes, fired)
      ensures tail == if old(nodes) != [] && nodes == [] then null else old(tail)
    {
      hide Values, Chain, Distinct, Without, KeepNodes, TailPlaced, MidScan;
      ghost var ns, t := nodes, tail;
      ghost var j := 0;
      fired := [];
      var p := head;
      ChainHead(head, nodes);
      MidStart(ns, now);
      while p != null
        invariant Valid() && j <= |ns| && p == (if j < |ns| then ns[j] else null)
        invariant MidScan(ns, now, j, nodes, fired)
        invariant tail == if ns != [] && nodes == [] then null else t
        modifies this, ns`next
        decreases |ns| - j
      {
        MidWithin(ns, now, j, nodes, fired);
        p, fired := ScanOne(p, now, fired, ns, j);
        j := j + 1;
      }
    }

    /** One queue's part of `rpc_timeout_scan`; `fired` are the PDUs called back, in order. */
    method TimeoutScan(now: nat) returns (fired: seq<Node>)
      requires Valid()
      modifies this, nodes`next
      ensures Valid() && nodes == KeepNodes(old(nodes), now, false) && fired == KeepNodes(old(nodes), now, true)
      ensures View() == Scan(old(View()), now) && Values(fired) == Keep(old(View()).items, now, true)
      ensures tail == old(tail) || tail == null
    {
      hide Values, Chain, Distinct, KeepNodes, TailPlaced, MidScan, Keep;
      ghost var ns := nodes;
      fired := ScanLoop(now);
      MidEnd(ns, now, nodes, fired);
      assert Values(ns) == old(Values(nodes));
      assert |ns| == |Values(ns)| && |nodes| == |Values(nodes)|;
    }

    /** Takes the head off, as the write loop does with a PDU that is sent. */
    method PopFront() returns (p: Node)
      requires Valid() && nodes != []
      modifies this
      ensures Valid() && p == old(nodes)[0] && nodes == old(nodes)[1..]
      ensures View() == Queue(old(View()).items[1..], if |old(nodes)| == 1 then None else old(View()).tail)
      ensures tail == (if |old(nodes)| == 1 then null else old(tail)) && p !in nodes && p != tail
    {
      hide Values, Chain, Distinct, TailPlaced;
      ChainHead(head, nodes);
      ChainTail(head, nodes);
      Removed(tail, nodes, 0);
      NoNodes();
      p := head;
      ghost var rest := nodes[1..];
      ChainHead(p.next, rest);
      head := p.next;
      nodes := rest;
      HeadApart(nodes, old(nodes), tail);
      if p.next == null {
        tail := null;
      }
      assert Values(rest) == old(Values(nodes[1..]));
    }

    /** The purge of one queue: it is emptied first, then every PDU on it is called back. */
    method Drain() returns (fired: seq<Node>)
      requires Valid()
      modifies this, nodes`next
      ensures Valid() && View() == EMPTY && fired == old(nodes) && nodes == [] && tail == null
    {
      hide Values, Distinct;
      ghost var ns := nodes;
      var p := head;
      head, tail, nodes := null, null, [];
      fired := [];
      ghost var j := 0;
      while p != null
        invariant j <= |ns| && fired == ns[..j] && Chain(p, ns[j..])
        invariant head == tail == null && nodes == []
        modifies ns`next
        decreases |ns| - j
      {
        ChainHead(p, ns[j..]);
        ChainTail(p, ns[j..]);
        var next := p.next;
        assert ns[j..][1..] == ns[j + 1..];
        CutHead(p, ns, j);
        fired := fired + [p];
        p := next;
        j := j + 1;
      }
      NoNodes();
    }
  }

  lemma Prepended(p: Node, tail: Node?, nodes: seq<Node>)
    requires Distinct(nodes) && Fresh(p, nodes) && TailPlaced(tail, nodes)
    requires tail != null ==> tail.id != p.id
    ensures Distinct([p] + nodes) && TailPlaced(if tail == null then p else tail, [p] + nodes)
    ensures p !in nodes && Values([p] + nodes) == [p.Value()] + Values(nodes)
  {
    assert ([p] + nodes)[1..] == nodes;
  }
}
