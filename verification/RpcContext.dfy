/** `struct rpc_context` and the functions of `socket.c`, `pdu.c` and `init.c`
    that move PDUs, each proved to make the step of `RpcModel` it stands for. */
module RpcContext {
  import opened Prelude
  import opened Bytes
  import opened RpcModel
  import opened LinkedQueue
  import opened RpcQueues
  import RpcRuns
  import RecordStream

  lemma WaitingCons(q: Queue, w: seq<Queue>)
    ensures Waiting([q] + w) == q.items + Waiting(w)
  {
    assert ([q] + w)[1..] == w;
  }

  lemma {:induction false} WaitingConcat(a: seq<Queue>, b: seq<Queue>)
    ensures Waiting(a + b) == Waiting(a) + Waiting(b)
  {
    hide Waiting;
    if a == [] {
      assert a + b == b;
      NoneWaiting();
    } else {
      var q, c := a[0], a[1..];
      WaitingConcat(c, b);
      assert a == [q] + c && a + b == [q] + (c + b);
      WaitingCons(q, c);
      WaitingCons(q, c + b);
    }
  }

  lemma NoneWaiting()
    ensures Waiting([]) == []
  {
  }

  lemma CallsCons(p: Pdu, items: seq<Pdu>, status: Status)
    ensures Calls([p] + items, status) == [Callback(p.id, status)] + Calls(items, status)
  {
    assert ([p] + items)[1..] == items;
  }

  lemma {:induction false} CallsConcat(a: seq<Pdu>, b: seq<Pdu>, status: Status)
    ensures Calls(a + b, status) == Calls(a, status) + Calls(b, status)
  {
    hide Calls;
    if a == [] {
      NoCalls(status);
      assert a + b == b;
    } else {
      var p, c := a[0], a[1..];
      CallsConcat(c, b, status);
      assert a == [p] + c && a + b == [p] + (c + b);
      CallsCons(p, c, status);
      CallsCons(p, c + b, status);
    }
  }

  lemma NoCalls(status: Status)
    ensures Calls([], status) == []
  {
  }

  lemma {:induction false} ResetSnoc(items: seq<Pdu>, p: Pdu)
    ensures Reset(items + [p]) == [p.(written := 0)] + Reset(items)
  {
    if items == [] {
      assert items + [p] == [p] && [p][1..] == [];
      assert Reset([p]) == Reset([]) + [p.(written := 0)];
    } else {
      ResetSnoc(items[1..], p);
      assert (items + [p])[1..] == items[1..] + [p];
      var h, r, t := [p.(written := 0)], Reset(items[1..]), [items[0].(written := 0)];
      assert (h + r) + t == h + (r + t);
    }
  }

  lemma {:induction false} ScanAllSnoc(wait: seq<Queue>, q: Queue, now: nat)
    ensures ScanAll(wait + [q], now) == ScanAll(wait, now) + [Scan(q, now)]
  {
    if wait == [] {
      assert wait + [q] == [q] && [q][1..] == [];
    } else {
      ScanAllSnoc(wait[1..], q, now);
      assert (wait + [q])[1..] == wait[1..] + [q];
    }
  }

  lemma {:induction false} PushAllIs(q: Queue, items: seq<Pdu>)
    ensures PushAll(q, items) ==
      Queue(Reset(items) + q.items, if q.tail == None && items != [] then Some(items[0].id) else q.tail)
    ensures items == [] ==> Reset(items) == []
    ensures items != [] ==> Reset(items) != [] && Reset(items)[|Reset(items)| - 1].id == items[0].id
  {
    if items != [] {
      var n := |items| - 1;
      PushAllIs(q, items[..n]);
      ResetSnoc(items[..n], items[n]);
      assert items == items[..n] + [items[n]];
      var h := [items[n].(written := 0)];
      assert h + (Reset(items[..n]) + q.items) == (h + Reset(items[..n])) + q.items;
    }
  }

  function Sends(counts: seq<nat>): seq<Step> {
    seq(|counts|, i requires 0 <= i < |counts| => Send(counts[i]))
  }

  lemma SendsSnoc(counts: seq<nat>, c: nat)
    ensures Sends(counts + [c]) == Sends(counts) + [Send(c)]
  {
  }

  /** What a call into the socket brings. */
  datatype SendResult = Sent(count: nat) | Again | Broken

  /** From `s` the `send` calls `sent` lead to `t`. */
  ghost predicate Ran(s: State, sent: seq<nat>, t: State) {
    Shaped(s) && RpcRuns.Feasible(s, Sends(sent)) && t == RpcRuns.After(s, Sends(sent))
  }

  /** The bytes the `send` calls take, one after the other: what the answer says, or all that is left
      of the head; until the out-queue is empty, or an answer takes nothing. */
  ghost function Counts(s: State, answers: seq<SendResult>): seq<nat>
    requires Shaped(s)
    decreases |answers|
  {
    if answers == [] || !answers[0].Sent? || s.out.items == [] || s.out.items[0].written > s.out.items[0].size then []
    else
      var count := Min(answers[0].count, s.out.items[0].size - s.out.items[0].written);
      [count] + Counts(Next(s, Send(count)), answers[1..])
  }

  lemma NoneRan(s: State, answers: seq<SendResult>)
    requires Shaped(s)
    ensures Ran(s, [], s) && answers[0..] == answers && [] + Counts(s, answers) == Counts(s, answers)
  {
    assert Sends([]) == [];
    RpcRuns.NoSteps(s);
  }

  lemma NoCounts(sent: seq<nat>, s: State, answers: seq<SendResult>)
    requires Shaped(s) && |sent| <= |answers|
    requires |sent| == |answers| || !answers[|sent|].Sent? || s.out.items == []
    ensures sent + Counts(s, answers[|sent|..]) == sent
  {
  }

  lemma CountsMore(sent: seq<nat>, s: State, count: nat, answers: seq<SendResult>)
    requires Shaped(s) && |sent| < |answers| && answers[|sent|].Sent? && s.out.items != []
    requires s.out.items[0].written <= s.out.items[0].size
    requires count == Min(answers[|sent|].count, s.out.items[0].size - s.out.items[0].written)
    ensures sent + Counts(s, answers[|sent|..]) ==
      (sent + [count]) + Counts(Next(s, Send(count)), answers[|sent + [count]|..])
  {
    hide Next;
    var rest := Counts(Next(s, Send(count)), answers[|sent| + 1..]);
    assert answers[|sent|..][1..] == answers[|sent| + 1..];
    assert sent + ([count] + rest) == (sent + [count]) + rest;
  }

  lemma RanMore(s: State, sent: seq<nat>, t: State, count: nat)
    requires Ran(s, sent, t) && Shaped(t) && Enabled(t, Send(count))
    ensures Ran(s, sent + [count], Next(t, Send(count)))
  {
    hide RpcRuns.Feasible, RpcRuns.After, Next, Sends;
    SendsSnoc(sent, count);
    RpcRuns.AfterSnoc(s, Sends(sent), Send(count));
  }

  /** The out-queue as the bytes it stands for; `data` gives the bytes of each PDU. */
  ghost function Outgoing(items: seq<Pdu>, data: nat -> seq<byte>): seq<RecordStream.Outgoing> {
    seq(|items|, i requires 0 <= i < |items| => RecordStream.Outgoing(data(items[i].id), items[i].written))
  }

  predicate Backed(items: seq<Pdu>, data: nat -> seq<byte>) {
    forall i :: 0 <= i < |items| ==> |data(items[i].id)| == items[i].size && items[i].written <= items[i].size
  }

  lemma OutgoingFirst(items: seq<Pdu>, data: nat -> seq<byte>)
    requires items != []
    ensures Outgoing(items, data) ==
      [RecordStream.Outgoing(data(items[0].id), items[0].written)] + Outgoing(items[1..], data)
  {
  }

  lemma BackedFirst(items: seq<Pdu>, data: nat -> seq<byte>)
    requires items != []
    ensures Backed(items, data) <==>
      |data(items[0].id)| == items[0].size && items[0].written <= items[0].size && Backed(items[1..], data)
  {
    assert forall i :: 0 < i < |items| ==> items[i] == items[1..][i - 1];
  }

  /** One `send` of the head of the out-queue. */
  lemma HeadSent(s: State, count: nat)
    requires Shaped(s) && Enabled(s, Send(count))
    ensures s.out.items != []
    ensures var w := s.out.items[0].written + count;
      Next(s, Send(count)).out.items ==
        if w < s.out.items[0].size then [s.out.items[0].(written := w)] + s.out.items[1..] else s.out.items[1..]
  {
    hide Hash, Enqueue;
  }

  lemma SendIsStream(s: State, count: nat, data: nat -> seq<byte>)
    requires Shaped(s) && Enabled(s, Send(count)) && Backed(s.out.items, data)
    ensures var t := Next(s, Send(count));
      && Backed(t.out.items, data)
      && Outgoing(t.out.items, data) == RecordStream.AfterSend(Outgoing(s.out.items, data), count)
  {
    hide Next, Outgoing, Backed, Shaped;
    HeadSent(s, count);
    OutgoingFirst(s.out.items, data);
    BackedFirst(s.out.items, data);
    var p := s.out.items[0].(written := s.out.items[0].written + count);
    var next := [p] + s.out.items[1..];
    assert next[1..] == s.out.items[1..];
    OutgoingFirst(next, data);
    BackedFirst(next, data);
  }

  /** The `send` steps are those of the byte stream: the queue of PDUs goes on as the queue of records does,
      so what the socket has taken is the stream of records that `RecordStream` delivers. */
  lemma {:induction false} SendsAreStream(s: State, counts: seq<nat>, data: nat -> seq<byte>)
    requires Shaped(s) && RpcRuns.Feasible(s, Sends(counts)) && Backed(s.out.items, data)
    ensures Outgoing(RpcRuns.After(s, Sends(counts)).out.items, data) ==
      RecordStream.AfterSends(Outgoing(s.out.items, data), counts)
    decreases |counts|
  {
    hide Next, RecordStream.AfterSend;
    if counts != [] {
      assert Sends(counts)[1..] == Sends(counts[1..]);
      SendIsStream(s, counts[0], data);
      SendsAreStream(Next(s, Send(counts[0])), counts[1..], data);
    }
  }

  /** What becomes of the queues when the head has been sent. */
  ghost function Moved(s: State): State
    requires Shaped(s) && s.out.items != []
  {
    var p := s.out.items[0];
    var h := Hash(p.xid);
    s.(out := Popped(s.out), wait := s.wait[h := Enqueue(s.wait[h], p)], waitLen := (s.waitLen + 1) % WORD)
  }

  class Context {
    const pool: Pool          // queue 0 is the out-queue, queue 1 + h the wait queue of hash h
    var waitLen: nat
    var nextXid: nat
    var submitted: nat
    var log: seq<Callback>
    var connected: bool
    var retries: int
    const auto: int
    var attempts: nat

    ghost predicate Valid()
      reads this, pool, pool.queues, pool.all
    {
      && pool.Valid() && |pool.queues| == |pool.views| == 1 + HASHES && |pool.all| == submitted
      && waitLen < WORD && nextXid < WORD && NoneOver(pool.views[0].items)
    }

    ghost function View(): (s: State)
      requires |pool.views| > 0
      reads this, pool
    {
      State(pool.views[0], pool.views[1..], waitLen, nextXid, submitted, log, connected, retries, auto, attempts)
    }

    constructor (auto: int, xid: nat)
      requires xid < WORD
      ensures Valid() && Initial(View()) && this.auto == auto && nextXid == xid
    {
      pool := new Pool(1 + HASHES);
      waitLen, nextXid, submitted, log := 0, xid, 0, [];
      connected, retries, attempts := false, 0, 0;
      this.auto := auto;
      new;
      assert pool.views[1..] == Emptied(HASHES);
    }

    /** `rpc_allocate_pdu2` and `rpc_queue_pdu`. */
    method QueuePdu(size: nat, timeout: nat)
      requires Valid()
      modifies this, pool, pool.queues, pool.all
      ensures Valid() && View() == Next(old(View()), Submit(size, timeout))
      ensures |pool.all| == |old(pool.all)| + 1 && old(pool.all) <= pool.all && fresh(pool.all[|old(pool.all)|])
    {
      hide Pool.Valid;
      EnqueueNoneOver(pool.views[0], Pdu(submitted, nextXid, size, 0, timeout));
      var p := pool.Allocate(submitted, nextXid, size, timeout);
      pool.Push(0, p);
      nextXid := (nextXid + 1) % WORD;
      submitted := submitted + 1;
      assert pool.views[1..] == old(pool.views[1..]);
    }

    /** One accepted `send` of the write loop: the head goes on, or goes over to its wait queue. */
    method SendSome(count: nat)
      requires Valid() && Enabled(View(), Send(count))
      modifies this, pool, pool.queues, pool.all
      ensures Valid() && View() == Next(old(View()), Send(count)) && pool.all == old(pool.all)
    {
      hide Pool.Valid, Hash;
      pool.Head(0);
      var head := pool.queues[0].head;
      var w := head.written + count;
      pool.Progress(0, w);
      assert pool.views[1..] == old(pool.views[1..]);
      if w == head.size {
        MoveSent();
      }
    }

    /** The head is sent: it goes to the end of its wait queue. */
    method MoveSent()
      requires Valid() && View().out.items != []
      modifies this, pool, pool.queues, pool.all
      ensures Valid() && View() == Moved(old(View())) && pool.all == old(pool.all)
    {
      hide Pool.Valid, Hash, Enqueue;
      var p := pool.Pop(0);
      var h := Hash(p.xid);
      ghost var v := p.Value();
      pool.Push(1 + h, p);
      waitLen := (waitLen + 1) % WORD;
      assert pool.views[1..] == old(pool.views[1..])[h := Enqueue(old(pool.views[1 + h]), v)];
    }

    /** `rpc_write_to_socket` against any answers of `send`. */
    method WriteToSocket(answers: seq<SendResult>) returns (r: int, sent: seq<nat>)
      requires Valid()
      modifies this, pool, pool.queues, pool.all
      ensures Valid() && sent == Counts(old(View()), answers) && Ran(old(View()), sent, View())
      ensures (r == 0 || r == -1) && |sent| <= |answers|
      ensures r == -1 <==> |sent| < |answers| && answers[|sent|] == Broken && View().out.items != []
    {
      hide Pool.Valid, Ran, Next, Counts;
      sent, r := [], 0;
      NoneRan(View(), answers);
      pool.Head(0);
      while pool.queues[0].head != null && |sent| < |answers|
        invariant Valid() && pool.all == old(pool.all) && Ran(old(View()), sent, View()) && |sent| <= |answers|
        invariant Counts(old(View()), answers) == sent + Counts(View(), answers[|sent|..])
        invariant pool.queues[0].head == null <==> View().out.items == []
        decreases |answers| - |sent|
      {
        if !answers[|sent|].Sent? {
          NoCounts(sent, View(), answers);
          r := if answers[|sent|] == Broken then -1 else 0;
          return;
        }
        ghost var s := View();
        var count := SendNext(answers[|sent|].count);
        RanMore(old(View()), sent, s, count);
        CountsMore(sent, s, count, answers);
        sent := sent + [count];
        pool.Head(0);
      }
      NoCounts(sent, View(), answers);
    }

    /** The `send` of what is left of the head, of which at most `n` bytes are taken. */
    method SendNext(n: nat) returns (count: nat)
      requires Valid() && View().out.items != []
      modifies this, pool, pool.queues, pool.all
      ensures old(View().out.items[0].written <= View().out.items[0].size)
      ensures count == Min(n, old(View().out.items[0].size - View().out.items[0].written))
      ensures Enabled(old(View()), Send(count)) && pool.all == old(pool.all)
      ensures Valid() && View() == Next(old(View()), Send(count))
    {
      hide Pool.Valid, Next;
      pool.Head(0);
      var head := pool.queues[0].head;
      count := Min(n, head.size - head.written);
      SendSome(count);
    }

    /** The tail of `rpc_process_pdu`: a reply is matched to its PDU by bucket and xid. */
    method ProcessReply(xid: nat, code: int)
      requires Valid()
      modifies this, pool, pool.queues, pool.all
      ensures Valid() && View() == Next(old(View()), Reply(xid, code)) && pool.all == old(pool.all)
    {
      hide Pool.Valid, Hash, Find;
      var h := Hash(xid);
      ghost var q := pool.views[1 + h];
      var p := pool.Take(1 + h, xid);
      if p != null {
        waitLen := (waitLen + WORD - 1) % WORD;
        log := log + [Callback(p.id, Replied(code))];
        assert pool.views[1..] == old(pool.views[1..])[h := Unlink(q, Find(q.items, xid))];
      }
    }

    /** Calls back for each of the PDUs. */
    method Fire(fired: seq<Node>, status: Status)
      modifies `log
      ensures log == old(log) + Calls(Values(fired), status)
    {
      hide Pool.Valid, Values, Calls;
      CallsNone(status);
      for i := 0 to |fired|
        invariant log == old(log) + Calls(Values(fired[..i]), status)
      {
        log := log + [Callback(fired[i].id, status)];
        CallsNode(fired, i, status);
      }
      assert fired[..|fired|] == fired;
    }

    /** One queue's part of the scan. */
    method ScanBucket(k: nat, now: nat)
      requires pool.Valid() && k < |pool.queues| == |pool.views|
      modifies `log, pool, pool.queues, pool.all
      ensures pool.Valid() && pool.all == old(pool.all)
      ensures pool.views == old(pool.views)[k := Scan(old(pool.views)[k], now)]
      ensures log == old(log) + Calls(Keep(old(pool.views)[k].items, now, true), TimedOut)
    {
      hide Pool.Valid, Scan, Keep, Calls, Values;
      var fired := pool.Expire(k, now);
      Fire(fired, TimedOut);
    }

    method ScanBuckets(now: nat)
      requires pool.Valid() && |pool.queues| == |pool.views| == 1 + HASHES
      modifies `log, pool, pool.queues, pool.all
      ensures pool.Valid() && |pool.views| == 1 + HASHES && pool.all == old(pool.all)
      ensures pool.views[0] == old(pool.views[0])
      ensures pool.views[1..] == ScanAll(old(pool.views[1..]), now)
      ensures log == old(log) + Calls(Keep(Waiting(old(pool.views[1..])), now, true), TimedOut)
    {
      hide Pool.Valid, Scan, Keep, Calls, Waiting, ScanAll, Values;
      ghost var w, log0 := pool.views[1..], log;
      ScanPrefix(w, now, 0);
      for i := 0 to HASHES
        invariant pool.Valid() && |pool.views| == 1 + HASHES && pool.all == old(pool.all)
        invariant pool.views[0] == old(pool.views[0])
        invariant pool.views[1..1 + i] == ScanAll(w[..i], now) && pool.views[1 + i..] == w[i..]
        invariant log == log0 + Calls(Keep(Waiting(w[..i]), now, true), TimedOut)
      {
        ScanPrefix(w, now, i + 1);
        ghost var before := pool.views;
        assert before[1 + i] == w[i];
        ScanBucket(1 + i, now);
        assert before[0 := pool.views[0]] == before;
        OneUpdated(before, pool.views, i, Scan(w[i], now), w);
      }
      assert w[..HASHES] == w && pool.views[1..1 + HASHES] == pool.views[1..];
    }

    /** `rpc_timeout_scan`: the out-queue, then bucket by bucket. */
    method TimeoutScan(now: nat)
      requires Valid()
      modifies this, pool, pool.queues, pool.all
      ensures Valid() && View() == Next(old(View()), Timeout(now)) && pool.all == old(pool.all)
    {
      hide Pool.Valid, Scan, Keep, Calls, Waiting, ScanAll, NoneOver, Values;
      ScanWithin(pool.views[0], now);
      ScanBucket(0, now);
      assert pool.views[1..] == old(pool.views[1..]);
      ScanBuckets(now);
    }

    method PurgeBuckets(status: Status)
      requires pool.Valid() && |pool.queues| == |pool.views| == 1 + HASHES
      modifies `log, pool, pool.queues, pool.all
      ensures pool.Valid() && |pool.views| == 1 + HASHES && pool.all == old(pool.all)
      ensures pool.views[0] == old(pool.views[0])
      ensures pool.views[1..] == Emptied(HASHES)
      ensures log == old(log) + Calls(Waiting(old(pool.views[1..])), status)
    {
      hide Pool.Valid, Calls, Waiting, Values;
      ghost var w, log0 := pool.views[1..], log;
      CallsPrefix(w, status, 0);
      for i := 0 to HASHES
        invariant pool.Valid() && |pool.views| == 1 + HASHES && pool.all == old(pool.all)
        invariant pool.views[0] == old(pool.views[0])
        invariant pool.views[1..1 + i] == Emptied(i) && pool.views[1 + i..] == w[i..]
        invariant log == log0 + Calls(Waiting(w[..i]), status)
      {
        CallsPrefix(w, status, i + 1);
        ghost var before := pool.views;
        assert before[1 + i] == w[i];
        var fired := pool.Drain(1 + i);
        Fire(fired, status);
        assert before[0 := pool.views[0]] == before;
        OneUpdated(before, pool.views, i, EMPTY, w);
        assert Emptied(i + 1) == Emptied(i) + [EMPTY];
      }
      assert w[..HASHES] == w && pool.views[1..1 + HASHES] == pool.views[1..];
    }

    /** `rpc_purge_all_pdus`. */
    method PurgeAll(status: Status)
      requires Valid()
      modifies this, pool, pool.queues, pool.all
      ensures Valid() && View() == PurgeStep(old(View()), status) && pool.all == old(pool.all)
    {
      hide Pool.Valid, Calls, Waiting, Values;
      var fired := pool.Drain(0);
      Fire(fired, status);
      assert pool.views[1..] == old(pool.views[1..]);
      PurgeBuckets(status);
    }

    /** Moves every waiting PDU back to the front of the out-queue, bucket by bucket. */
    method RequeueBuckets()
      requires pool.Valid() && |pool.queues| == |pool.views| == 1 + HASHES
      modifies pool, pool.queues, pool.all
      ensures pool.Valid() && |pool.views| == 1 + HASHES && pool.all == old(pool.all)
      ensures pool.views[1..] == Emptied(HASHES)
      ensures pool.views[0] == PushAll(old(pool.views[0]), Waiting(old(pool.views[1..])))
    {
      hide Pool.Valid, Waiting, PushAll, PushFront;
      ghost var w, out := pool.views[1..], pool.views[0];
      PushStart(w, out);
      for i := 0 to HASHES
        invariant pool.Valid() && |pool.views| == 1 + HASHES && pool.all == old(pool.all)
        invariant pool.views[0] == PushAll(out, Waiting(w[..i]))
        invariant pool.views[1..1 + i] == Emptied(i) && pool.views[1 + i..] == w[i..]
      {
        WaitingPrefix(w, i + 1);
        PushAllConcat(out, Waiting(w[..i]), w[i].items);
        ghost var before := pool.views;
        assert before[1 + i] == w[i];
        pool.Return(1 + i);
        OneUpdated(before, pool.views, i, EMPTY, w);
        assert Emptied(i + 1) == Emptied(i) + [EMPTY];
      }
      assert w[..HASHES] == w && pool.views[1..1 + HASHES] == pool.views[1..];
    }

    /** `rpc_reconnect_requeue`; `started` tells whether the new connection could be begun. */
    method ReconnectRequeue(started: bool) returns (r: int)
      requires Valid()
      modifies this, pool, pool.queues, pool.all
      ensures Valid() && View() == Next(old(View()), Reconnect(started)) && pool.all == old(pool.all)
      ensures r == if auto != 0 && (auto < 0 || old(if connected then auto else retries) > 0) && started then 0 else -1
    {
      hide Pool.Valid, PurgeStep, Requeued;
      if auto == 0 {
        PurgeAll(Errored);
        return -1;
      }
      Requeue();
      if auto < 0 || retries > 0 {
        retries := retries - 1;
        attempts := attempts + 1;
        if !started {
          PurgeAll(Errored);
          return -1;
        }
        return 0;
      }
      PurgeAll(Errored);
      return -1;
    }

    method Requeue()
      requires Valid()
      modifies this, pool, pool.queues, pool.all
      ensures Valid() && View() == Requeued(old(View())) && pool.all == old(pool.all)
      ensures retries == old(if connected then auto else retries)
    {
      hide Pool.Valid, Waiting, PushAll, Requeued, NoneOver;
      RequeuedIs(View());
      RequeueWithin(pool.views[0], Waiting(pool.views[1..]));
      pool.Head(0);
      if connected {
        retries := auto;
      }
      connected := false;
      if pool.queues[0].head != null {
        pool.Progress(0, 0);
      }
      assert pool.views[1..] == old(pool.views[1..]) && pool.views[0] == Rewind(old(pool.views[0]));
      RequeueBuckets();
      waitLen := 0;
    }

    /** The success half of `reconnect_cb`. */
    method OnConnected()
      requires Valid() && !connected
      modifies this
      ensures Valid() && View() == Next(old(View()), Established) && pool.all == old(pool.all)
    {
      connected, attempts := true, 0;
    }
  }

  /** One queue behind the first `i` buckets was given the value `v`. */
  lemma OneUpdated(before: seq<Queue>, after: seq<Queue>, i: nat, v: Queue, w: seq<Queue>)
    requires 1 + i < |before| == |after| == 1 + |w| && before[1 + i..] == w[i..]
    requires after == before[0 := after[0]][1 + i := v]
    ensures after[1..1 + (i + 1)] == before[1..1 + i] + [v] && after[1 + (i + 1)..] == w[i + 1..]
  {
    var s := before[1 + i..];
    assert after[i + 2..] == s[1..] && w[i + 1..] == w[i..][1..];
  }

  lemma CallsNone(status: Status)
    ensures Calls(Values([]), status) == []
  {
  }

  lemma CallsNode(fired: seq<Node>, i: nat, status: Status)
    requires i < |fired|
    ensures Calls(Values(fired[..i + 1]), status) == Calls(Values(fired[..i]), status) + [Callback(fired[i].id, status)]
  {
    hide Calls;
    var a, p := Values(fired[..i]), fired[i].Value();
    assert Values(fired[..i + 1]) == a + [p];
    CallsConcat(a, [p], status);
    CallsCons(p, [], status);
    assert [p] + [] == [p];
    CallsNone(status);
  }

  lemma {:induction false} PushAllConcat(q: Queue, a: seq<Pdu>, b: seq<Pdu>)
    ensures PushAll(q, a + b) == PushAll(PushAll(q, a), b)
    decreases |b|
  {
    if b == [] {
      assert a + b == a;
    } else {
      var n := |b| - 1;
      PushAllConcat(q, a, b[..n]);
      assert a + b == (a + b[..n]) + [b[n]];
      assert (a + b)[..|a + b| - 1] == a + b[..n];
    }
  }

  /** Any run of steps, done on the queues: the context ends where the step function says. */
  method Perform(c: Context, steps: seq<Step>)
    requires c.Valid() && RpcRuns.Feasible(c.View(), steps)
    modifies c, c.pool, c.pool.queues, c.pool.all
    ensures c.Valid() && c.View() == RpcRuns.After(old(c.View()), steps)
  {
    hide Pool.Valid, Next;
    if steps != [] {
      PerformOne(c, steps[0]);
      Perform(c, steps[1..]);
    }
  }

  /** One step of any kind, as the event loop would do it. */
  method PerformOne(c: Context, step: Step)
    requires c.Valid() && Enabled(c.View(), step)
    modifies c, c.pool, c.pool.queues, c.pool.all
    ensures c.Valid() && c.View() == Next(old(c.View()), step)
    ensures old(c.pool.all) <= c.pool.all
    ensures forall i :: |old(c.pool.all)| <= i < |c.pool.all| ==> fresh(c.pool.all[i])
  {
    hide Pool.Valid, SubmitStep, SendStep, ReplyStep, TimeoutStep, ReconnectStep, PurgeStep;
    match step {
      case Submit(size, timeout) => c.QueuePdu(size, timeout);
      case Send(count) => c.SendSome(count);
      case Reply(xid, code) => c.ProcessReply(xid, code);
      case Timeout(now) => c.TimeoutScan(now);
      case Reconnect(started) =>
        var r := c.ReconnectRequeue(started);
      case Established => c.OnConnected();
      case Purge(status) => c.PurgeAll(status);
    }
  }

  /** Starts the head over. */
  function Rewind(q: Queue): Queue {
    if q.items == [] then q else q.(items := [q.items[0].(written := 0)] + q.items[1..])
  }

  lemma RequeuedIs(s: State)
    ensures Requeued(s) == s.(out := PushAll(Rewind(s.out), Waiting(s.wait)), wait := Emptied(|s.wait|),
      waitLen := 0, connected := false, retries := if s.connected then s.auto else s.retries)
  {
    hide Waiting, Reset, PushAll;
    PushAllIs(Rewind(s.out), Waiting(s.wait));
  }

  lemma RequeueWithin(q: Queue, items: seq<Pdu>)
    requires NoneOver(q.items)
    ensures NoneOver(Rewind(q).items) && NoneOver(PushAll(Rewind(q), items).items)
  {
    hide PushAll;
    PushAllIs(Rewind(q), items);
    RpcRuns.ResetWritten(items);
  }

  predicate NoneOver(items: seq<Pdu>) {
    forall i :: 0 <= i < |items| ==> items[i].written <= items[i].size
  }

  lemma WaitingPrefix(w: seq<Queue>, n: nat)
    requires 0 < n <= |w|
    ensures Waiting(w[..n]) == Waiting(w[..n - 1]) + w[n - 1].items
  {
    assert w[..n] == w[..n - 1] + [w[n - 1]];
    WaitingConcat(w[..n - 1], [w[n - 1]]);
    assert Waiting([w[n - 1]]) == w[n - 1].items;
  }

  lemma PushStart(w: seq<Queue>, q: Queue)
    ensures PushAll(q, Waiting(w[..0])) == q
  {
  }

  lemma CallsPrefix(w: seq<Queue>, status: Status, n: nat)
    requires n <= |w|
    ensures n == 0 ==> Calls(Waiting(w[..0]), status) == []
    ensures n > 0 ==>
      Calls(Waiting(w[..n]), status) == Calls(Waiting(w[..n - 1]), status) + Calls(w[n - 1].items, status)
  {
    if n > 0 {
      WaitingPrefix(w, n);
      CallsConcat(Waiting(w[..n - 1]), w[n - 1].items, status);
    }
  }

  lemma {:induction false} KeepWithin(items: seq<Pdu>, now: nat, e: bool)
    requires NoneOver(items)
    ensures NoneOver(Keep(items, now, e))
  {
    if items != [] {
      KeepWithin(items[1..], now, e);
    }
  }

  lemma EnqueueNoneOver(q: Queue, p: Pdu)
    requires NoneOver(q.items) && p.written <= p.size
    ensures NoneOver(Enqueue(q, p).items)
  {
  }

  lemma ScanWithin(q: Queue, now: nat)
    requires NoneOver(q.items)
    ensures NoneOver(Scan(q, now).items)
  {
    KeepWithin(q.items, now, false);
  }

  /** What one more bucket adds to the scan. */
  lemma ScanPrefix(w: seq<Queue>, now: nat, n: nat)
    requires n <= |w|
    ensures n == 0 ==> ScanAll(w[..0], now) == [] && Calls(Keep(Waiting(w[..0]), now, true), TimedOut) == []
    ensures n > 0 ==>
      && ScanAll(w[..n], now) == ScanAll(w[..n - 1], now) + [Scan(w[n - 1], now)]
      && Calls(Keep(Waiting(w[..n]), now, true), TimedOut) ==
           Calls(Keep(Waiting(w[..n - 1]), now, true), TimedOut) + Calls(Keep(w[n - 1].items, now, true), TimedOut)
  {
    if n > 0 {
      var a, q := w[..n - 1], w[n - 1];
      assert w[..n] == a + [q];
      ScanAllSnoc(a, q, now);
      WaitingConcat(a, [q]);
      assert Waiting([q]) == q.items;
      RpcRuns.KeepConcat(Waiting(a), q.items, now, true);
      CallsConcat(Keep(Waiting(a), now, true), Keep(q.items, now, true), TimedOut);
    }
  }
}
