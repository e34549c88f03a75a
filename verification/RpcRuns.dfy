/** Safety of the transport over whole runs: where every submitted PDU is, how
    often its callback fires, and what `waitpdu_len` counts. */
module RpcRuns {
  import opened Prelude
  import opened RpcModel

  // ---- how often a PDU occurs in a place ----

  function InQueue(items: seq<Pdu>, id: nat): nat {
    if items == [] then 0 else (if items[0].id == id then 1 else 0) + InQueue(items[1..], id)
  }

  function InLog(log: seq<Callback>, id: nat): nat {
    if log == [] then 0 else (if log[0].id == id then 1 else 0) + InLog(log[1..], id)
  }

  function Held(s: State, id: nat): nat {
    InQueue(s.out.items, id) + InQueue(Waiting(s.wait), id) + InLog(s.log, id)
  }

  lemma {:induction false} InConcat(a: seq<Pdu>, b: seq<Pdu>, id: nat)
    ensures InQueue(a + b, id) == InQueue(a, id) + InQueue(b, id)
  {
    if a == [] {
      assert a + b == b;
    } else {
      InConcat(a[1..], b, id);
      assert (a + b)[0] == a[0];
      assert (a + b)[1..] == a[1..] + b;
    }
  }

  lemma {:induction false} LogConcat(a: seq<Callback>, b: seq<Callback>, id: nat)
    ensures InLog(a + b, id) == InLog(a, id) + InLog(b, id)
  {
    if a == [] {
      assert a + b == b;
    } else {
      LogConcat(a[1..], b, id);
      assert (a + b)[0] == a[0];
      assert (a + b)[1..] == a[1..] + b;
    }
  }

  lemma {:induction false} LogOfCalls(items: seq<Pdu>, status: Status, id: nat)
    ensures InLog(Calls(items, status), id) == InQueue(items, id)
  {
    if items != [] {
      LogOfCalls(items[1..], status, id);
      assert Calls(items, status)[1..] == Calls(items[1..], status);
    }
  }

  lemma {:induction false} InReset(items: seq<Pdu>, id: nat)
    ensures InQueue(Reset(items), id) == InQueue(items, id)
  {
    if items != [] {
      InReset(items[1..], id);
      InConcat(Reset(items[1..]), [items[0].(written := 0)], id);
    }
  }

  lemma {:induction false} InKeep(items: seq<Pdu>, now: nat, id: nat)
    ensures InQueue(Keep(items, now, false), id) + InQueue(Keep(items, now, true), id) == InQueue(items, id)
    ensures |Keep(items, now, false)| + |Keep(items, now, true)| == |items|
  {
    if items != [] {
      InKeep(items[1..], now, id);
      KeepHead(items, now, Expired(items[0].timeout, now));
      assert Keep(items, now, !Expired(items[0].timeout, now))
        == Keep(items[1..], now, !Expired(items[0].timeout, now));
    }
  }

  lemma KeepHead(items: seq<Pdu>, now: nat, e: bool)
    requires items != [] && Expired(items[0].timeout, now) == e
    ensures var k := Keep(items, now, e); k != [] && k[0] == items[0] && k[1..] == Keep(items[1..], now, e)
  {
  }

  lemma KeepCons(p: Pdu, items: seq<Pdu>, now: nat, e: bool)
    ensures Keep([p] + items, now, e) ==
      if Expired(p.timeout, now) == e then [p] + Keep(items, now, e) else Keep(items, now, e)
  {
    assert ([p] + items)[1..] == items;
  }

  lemma {:induction false} KeepConcat(a: seq<Pdu>, b: seq<Pdu>, now: nat, e: bool)
    ensures Keep(a + b, now, e) == Keep(a, now, e) + Keep(b, now, e)
  {
    if a == [] {
      assert a + b == b;
    } else {
      var p, c := a[0], a[1..];
      assert a == [p] + c && a + b == [p] + (c + b);
      KeepConcat(c, b, now, e);
      KeepConsConcat(p, c, b, now, e);
    }
  }

  lemma KeepConsConcat(p: Pdu, c: seq<Pdu>, b: seq<Pdu>, now: nat, e: bool)
    requires Keep(c + b, now, e) == Keep(c, now, e) + Keep(b, now, e)
    ensures Keep([p] + (c + b), now, e) == Keep([p] + c, now, e) + Keep(b, now, e)
  {
    hide Keep;
    KeepCons(p, c + b, now, e);
    KeepCons(p, c, now, e);
  }

  lemma {:induction false} WaitingScanned(wait: seq<Queue>, now: nat)
    ensures Waiting(ScanAll(wait, now)) == Keep(Waiting(wait), now, false)
  {
    if wait != [] {
      WaitingScanned(wait[1..], now);
      KeepConcat(wait[0].items, Waiting(wait[1..]), now, false);
      assert ScanAll(wait, now)[1..] == ScanAll(wait[1..], now);
    }
  }

  lemma {:induction false} WaitingEmptied(n: nat)
    ensures Waiting(Emptied(n)) == []
  {
    if n > 0 {
      WaitingEmptied(n - 1);
      assert Emptied(n)[1..] == Emptied(n - 1);
    }
  }

  lemma {:induction false} WaitingUpdate(wait: seq<Queue>, h: nat, q: Queue, id: nat)
    requires h < |wait|
    ensures InQueue(Waiting(wait[h := q]), id) + InQueue(wait[h].items, id) ==
      InQueue(Waiting(wait), id) + InQueue(q.items, id)
    ensures |Waiting(wait[h := q])| + |wait[h].items| == |Waiting(wait)| + |q.items|
  {
    var w := wait[h := q];
    InConcat(wait[0].items, Waiting(wait[1..]), id);
    InConcat(w[0].items, Waiting(w[1..]), id);
    if h == 0 {
      assert w[1..] == wait[1..];
    } else {
      WaitingUpdate(wait[1..], h - 1, q, id);
      assert w[1..] == wait[1..][h - 1 := q];
    }
  }

  lemma InRemove(items: seq<Pdu>, k: nat, id: nat)
    requires k < |items|
    ensures InQueue(items[..k] + items[k + 1..], id) + (if items[k].id == id then 1 else 0) == InQueue(items, id)
  {
    assert items[..k] + items[k..] == items;
    InConcat(items[..k], items[k..], id);
    InConcat(items[..k], items[k + 1..], id);
    assert items[k..][1..] == items[k + 1..];
  }

  /** After a push the new PDU is in the queue, unless the tail was wrong. */
  lemma InEnqueue(q: Queue, p: Pdu, id: nat)
    ensures InQueue(Enqueue(q, p).items, id) ==
      InQueue(q.items, id) + if p.id == id && (q.items == [] || TailRight(q)) then 1 else 0
  {
    InConcat(q.items, [p], id);
    assert [p][1..] == [];
  }

  // ---- one step: nothing appears, and only a push behind a wrong tail loses a PDU ----

  predicate Stale(q: Queue) {
    q.items != [] && !TailRight(q)
  }

  /** The PDU a step drops, if it drops one. */
  function Lost(s: State, step: Step): Option<nat>
    requires Shaped(s) && Enabled(s, step)
  {
    match step
    case Submit(_, _) => if Stale(s.out) then Some(s.submitted) else None
    case Send(count) =>
      var p := s.out.items[0];
      if p.written + count == p.size && Stale(s.wait[Hash(p.xid)]) then Some(p.id) else None
    case _ => None
  }

  lemma HeldSubmit(s: State, size: nat, timeout: nat, id: nat)
    ensures Held(SubmitStep(s, size, timeout), id) ==
      Held(s, id) + if id == s.submitted && !Stale(s.out) then 1 else 0
  {
    InEnqueue(s.out, Pdu(s.submitted, s.nextXid, size, 0, timeout), id);
  }

  lemma HeldSend(s: State, count: nat, id: nat)
    requires Shaped(s) && Enabled(s, Send(count))
    ensures Held(SendStep(s, count), id) == Held(s, id) - if Lost(s, Send(count)) == Some(id) then 1 else 0
  {
    hide Hash, TailRight;
    var p := s.out.items[0].(written := s.out.items[0].written + count);
    if p.written < p.size {
      assert ([p] + s.out.items[1..])[1..] == s.out.items[1..];
    } else {
      var h := Hash(p.xid);
      var q := Enqueue(s.wait[h], p);
      WaitingUpdate(s.wait, h, q, id);
      InEnqueue(s.wait[h], p, id);
    }
  }

  lemma HeldReply(s: State, xid: nat, code: int, id: nat)
    requires Shaped(s)
    ensures Held(ReplyStep(s, xid, code), id) == Held(s, id)
  {
    hide Hash;
    var h := Hash(xid);
    var q := s.wait[h];
    var k := Find(q.items, xid);
    if k < |q.items| {
      WaitingUpdate(s.wait, h, Unlink(q, k), id);
      InRemove(q.items, k, id);
      LogConcat(s.log, [Callback(q.items[k].id, Replied(code))], id);
    }
  }

  lemma HeldTimeout(s: State, now: nat, id: nat)
    ensures Held(TimeoutStep(s, now), id) == Held(s, id)
  {
    var a := Keep(s.out.items, now, true);
    var b := Keep(Waiting(s.wait), now, true);
    InKeep(s.out.items, now, id);
    InKeep(Waiting(s.wait), now, id);
    WaitingScanned(s.wait, now);
    LogConcat(s.log + Calls(a, TimedOut), Calls(b, TimedOut), id);
    LogConcat(s.log, Calls(a, TimedOut), id);
    LogOfCalls(a, TimedOut, id);
    LogOfCalls(b, TimedOut, id);
  }

  lemma HeldPurge(s: State, status: Status, id: nat)
    ensures Held(PurgeStep(s, status), id) == Held(s, id)
  {
    var a, b := s.out.items, Waiting(s.wait);
    WaitingEmptied(|s.wait|);
    LogConcat(s.log + Calls(a, status), Calls(b, status), id);
    LogConcat(s.log, Calls(a, status), id);
    LogOfCalls(a, status, id);
    LogOfCalls(b, status, id);
  }

  /** Requeueing keeps the outstanding PDUs with their multiplicity, empties every bucket
      and makes no callback. */
  lemma RequeueConserves(s: State, id: nat)
    ensures var r := Requeued(s);
      && InQueue(r.out.items, id) == InQueue(s.out.items, id) + InQueue(Waiting(s.wait), id)
      && Waiting(r.wait) == [] && r.log == s.log && r.waitLen == 0
  {
    var back := Reset(Waiting(s.wait));
    var head := if s.out.items == [] then [] else [s.out.items[0].(written := 0)] + s.out.items[1..];
    WaitingEmptied(|s.wait|);
    InReset(Waiting(s.wait), id);
    InConcat(back, head, id);
    if s.out.items != [] {
      assert head[1..] == s.out.items[1..];
    }
  }

  lemma HeldReconnect(s: State, started: bool, id: nat)
    ensures Held(ReconnectStep(s, started), id) == Held(s, id)
  {
    hide Held;
    if s.auto == 0 {
      HeldPurge(s, Errored, id);
    } else {
      var r := Requeued(s);
      HeldRequeued(s, id);
      var t := r.(retries := r.retries - 1, attempts := r.attempts + 1);
      HeldSame(r, t, id);
      HeldPurge(t, Errored, id);
      HeldPurge(r, Errored, id);
    }
  }

  lemma HeldRequeued(s: State, id: nat)
    ensures Held(Requeued(s), id) == Held(s, id)
  {
    hide Requeued;
    RequeueConserves(s, id);
  }

  lemma HeldSame(s: State, t: State, id: nat)
    requires s.out == t.out && s.wait == t.wait && s.log == t.log
    ensures Held(s, id) == Held(t, id)
  {
  }

  /** The conservation law of the transport, for every step from every state. */
  lemma HeldNext(s: State, step: Step, id: nat)
    requires Shaped(s) && Enabled(s, step)
    ensures Held(Next(s, step), id) ==
      Held(s, id) + (if step.Submit? && id == s.submitted then 1 else 0)
                  - (if Lost(s, step) == Some(id) then 1 else 0)
  {
    hide Held, SubmitStep, SendStep, ReplyStep, TimeoutStep, ReconnectStep, PurgeStep;
    match step
    case Submit(size, timeout) => HeldSubmit(s, size, timeout, id);
    case Send(count) => HeldSend(s, count, id);
    case Reply(xid, code) => HeldReply(s, xid, code, id);
    case Timeout(now) => HeldTimeout(s, now, id);
    case Reconnect(started) => HeldReconnect(s, started, id);
    case Established => HeldSame(s, Next(s, step), id);
    case Purge(status) => HeldPurge(s, status, id);
  }

  // ---- tails ----

  predicate AllExpired(items: seq<Pdu>, now: nat) {
    forall i :: 0 <= i < |items| ==> Expired(items[i].timeout, now)
  }

  /** A scan that may not take the last PDU of a queue without taking the whole queue. */
  predicate CleanScan(q: Queue, now: nat) {
    q.items == [] || !Expired(q.items[|q.items| - 1].timeout, now) || AllExpired(q.items, now)
  }

  predicate OnceEach(items: seq<Pdu>) {
    forall i, j :: 0 <= i < j < |items| ==> items[i].id != items[j].id
  }

  lemma {:induction false} KeptLast(items: seq<Pdu>, now: nat)
    requires items != []
    ensures var kept := Keep(items, now, false); var last := items[|items| - 1];
      && (kept == [] <==> AllExpired(items, now))
      && (!Expired(last.timeout, now) ==> kept != [] && kept[|kept| - 1] == last)
  {
    if |items| == 1 {
      assert Keep(items[1..], now, false) == [];
    } else {
      KeptLast(items[1..], now);
      var rest := items[1..];
      assert rest[|rest| - 1] == items[|items| - 1];
      if Expired(items[0].timeout, now) {
        assert AllExpired(items, now) <==> AllExpired(rest, now);
      }
    }
  }

  lemma {:induction false} KeptFrom(items: seq<Pdu>, now: nat, e: bool, k: nat)
    requires k < |Keep(items, now, e)|
    ensures exists i :: 0 <= i < |items| && items[i] == Keep(items, now, e)[k] && Expired(items[i].timeout, now) == e
  {
    if Expired(items[0].timeout, now) != e {
      KeptFrom(items[1..], now, e, k);
      var i :| 0 <= i < |items[1..]| && items[1..][i] == Keep(items, now, e)[k];
      assert items[i + 1] == items[1..][i];
    } else if k > 0 {
      KeptFrom(items[1..], now, e, k - 1);
      var i :| 0 <= i < |items[1..]| && items[1..][i] == Keep(items[1..], now, e)[k - 1];
      assert items[i + 1] == items[1..][i];
    }
  }

  /** The scan leaves the tail right exactly when it is clean. */
  lemma ScanTail(q: Queue, now: nat)
    requires TailRight(q) && OnceEach(q.items)
    ensures TailRight(Scan(q, now)) <==> CleanScan(q, now)
  {
    if q.items != [] {
      var last := q.items[|q.items| - 1];
      var kept := Keep(q.items, now, false);
      KeptLast(q.items, now);
      if kept != [] {
        KeptFrom(q.items, now, false, |kept| - 1);
      }
    }
  }

  lemma UnlinkTail(q: Queue, k: nat)
    requires TailRight(q) && OnceEach(q.items) && k < |q.items|
    ensures TailRight(Unlink(q, k))
  {
    var items := q.items[..k] + q.items[k + 1..];
    if k == |q.items| - 1 {
      assert items == q.items[..k];
    } else {
      assert items[|items| - 1] == q.items[|q.items| - 1];
    }
  }

  /** Unlinking keeps the order of the others. */
  lemma UnlinkOrder(q: Queue, k: nat, i: nat)
    requires k < |q.items| && i < |q.items| && i != k
    ensures Unlink(q, k).items[if i < k then i else i - 1] == q.items[i]
    ensures |Unlink(q, k).items| == |q.items| - 1
  {
  }

  lemma {:induction false} OnceByCount(items: seq<Pdu>)
    requires forall id :: InQueue(items, id) <= 1
    ensures OnceEach(items)
  {
    forall i, j | 0 <= i < j < |items| ensures items[i].id != items[j].id {
      var id := items[i].id;
      assert items[..j] + items[j..] == items;
      InConcat(items[..j], items[j..], id);
      CountAt(items[..j], i);
      CountAt(items[j..], 0);
      assert InQueue(items, id) <= 1;
    }
  }

  lemma {:induction false} CountAt(items: seq<Pdu>, i: nat)
    requires i < |items|
    ensures InQueue(items, items[i].id) >= 1
  {
    if i > 0 {
      CountAt(items[1..], i - 1);
    }
  }

  // ---- state invariants ----

  /** No PDU is in two places or answered twice, and none is made up. */
  ghost predicate Accounted(s: State) {
    Shaped(s) && forall id: nat :: Held(s, id) <= if id < s.submitted then 1 else 0
  }

  /** Every submitted PDU is queued, waiting or answered. */
  ghost predicate NoneLost(s: State) {
    forall id: nat :: id < s.submitted ==> Held(s, id) == 1
  }

  predicate TailsRight(s: State) {
    TailRight(s.out) && forall h :: 0 <= h < |s.wait| ==> TailRight(s.wait[h])
  }

  /** What a caller of the timeout scan can check beforehand. */
  predicate Clean(s: State, step: Step) {
    step.Timeout? ==> CleanScan(s.out, step.now) && forall h :: 0 <= h < |s.wait| ==> CleanScan(s.wait[h], step.now)
  }

  /** Waiting PDUs are where the reply looks for them. */
  predicate Bucketed(s: State) {
    forall h, i :: 0 <= h < |s.wait| && 0 <= i < |s.wait[h].items| ==> Hash(s.wait[h].items[i].xid) == h
  }

  /** Only the head of the out-queue is ever partly written. */
  predicate OnlyHeadWritten(s: State) {
    forall i :: 0 < i < |s.out.items| ==> s.out.items[i].written == 0
  }

  lemma AccountedNext(s: State, step: Step)
    requires Accounted(s) && Enabled(s, step)
    ensures Accounted(Next(s, step))
  {
    hide Held;
    var t := Next(s, step);
    SubmittedNext(s, step);
    forall id: nat ensures Held(t, id) <= if id < t.submitted then 1 else 0 {
      HeldNext(s, step, id);
      assert Held(s, id) <= if id < s.submitted then 1 else 0;
    }
  }

  lemma SubmittedNext(s: State, step: Step)
    requires Shaped(s) && Enabled(s, step)
    ensures Next(s, step).submitted == s.submitted + if step.Submit? then 1 else 0
  {
  }

  /** A step loses a PDU exactly when it pushes behind a wrong tail. */
  lemma NoneLostNext(s: State, step: Step)
    requires Accounted(s) && NoneLost(s) && Enabled(s, step)
    ensures NoneLost(Next(s, step)) <==> Lost(s, step) == None
  {
    hide Held;
    var t := Next(s, step);
    SubmittedNext(s, step);
    forall id: nat | id < t.submitted ensures Held(t, id) == 1 - if Lost(s, step) == Some(id) then 1 else 0 {
      HeldNext(s, step, id);
      assert Held(s, id) <= if id < s.submitted then 1 else 0;
    }
    match Lost(s, step)
    case None =>
    case Some(id) =>
      LostIsOurs(s, step);
      assert Held(t, id) == 0;
  }

  lemma LostIsOurs(s: State, step: Step)
    requires Accounted(s) && Enabled(s, step) && Lost(s, step).Some?
    ensures Lost(s, step).value < Next(s, step).submitted
  {
    if step.Send? {
      CountAt(s.out.items, 0);
      assert Held(s, s.out.items[0].id) >= 1;
    }
  }

  lemma {:induction false} BucketInWaiting(wait: seq<Queue>, h: nat, id: nat)
    requires h < |wait|
    ensures InQueue(wait[h].items, id) <= InQueue(Waiting(wait), id)
  {
    InConcat(wait[0].items, Waiting(wait[1..]), id);
    if h > 0 {
      BucketInWaiting(wait[1..], h - 1, id);
    }
  }

  lemma AccountedOnce(s: State)
    requires Accounted(s)
    ensures OnceEach(s.out.items) && forall h :: 0 <= h < |s.wait| ==> OnceEach(s.wait[h].items)
  {
    forall id: nat ensures InQueue(s.out.items, id) <= 1 {
      assert Held(s, id) <= 1;
    }
    OnceByCount(s.out.items);
    forall h | 0 <= h < |s.wait| ensures OnceEach(s.wait[h].items) {
      forall id: nat ensures InQueue(s.wait[h].items, id) <= 1 {
        assert Held(s, id) <= 1;
        BucketInWaiting(s.wait, h, id);
      }
      OnceByCount(s.wait[h].items);
    }
  }

  lemma {:induction false} ScanAllAt(wait: seq<Queue>, now: nat, h: nat)
    requires h < |wait|
    ensures ScanAll(wait, now)[h] == Scan(wait[h], now)
  {
    if h > 0 {
      ScanAllAt(wait[1..], now, h - 1);
    }
  }

  lemma TailsTimeout(s: State, now: nat)
    requires Accounted(s) && TailsRight(s)
    ensures TailsRight(TimeoutStep(s, now)) <==> Clean(s, Timeout(now))
  {
    hide Scan, CleanScan, TailRight, OnceEach, Held;
    AccountedOnce(s);
    ScanTail(s.out, now);
    forall h | 0 <= h < |s.wait| ensures ScanAll(s.wait, now)[h] == Scan(s.wait[h], now)
      && (TailRight(Scan(s.wait[h], now)) <==> CleanScan(s.wait[h], now))
    {
      ScanAllAt(s.wait, now, h);
      ScanTail(s.wait[h], now);
    }
    var t := TimeoutStep(s, now);
    if TailsRight(t) {
      forall h | 0 <= h < |s.wait| ensures CleanScan(s.wait[h], now) {
        assert TailRight(t.wait[h]);
      }
    }
  }

  lemma TailsRequeued(s: State)
    requires TailsRight(s)
    ensures TailsRight(Requeued(s))
  {
  }

  /** Every step but an unclean timeout scan keeps the tails right, and that one never does. */
  lemma TailsNext(s: State, step: Step)
    requires Accounted(s) && TailsRight(s) && Enabled(s, step)
    ensures TailsRight(Next(s, step)) <==> Clean(s, step)
  {
    hide Held, SubmitStep, SendStep, ReplyStep, TimeoutStep, ReconnectStep, PurgeStep;
    match step
    case Submit(size, timeout) => TailsSubmit(s, size, timeout);
    case Send(count) => TailsSend(s, count);
    case Reply(xid, code) => TailsReply(s, xid, code);
    case Timeout(now) => TailsTimeout(s, now);
    case Reconnect(started) => TailsReconnect(s, started);
    case Established =>
    case Purge(status) => TailsPurge(s, status);
  }

  lemma TailsSubmit(s: State, size: nat, timeout: nat)
    requires TailsRight(s)
    ensures TailsRight(SubmitStep(s, size, timeout))
  {
  }

  lemma TailsSend(s: State, count: nat)
    requires TailsRight(s) && Shaped(s) && Enabled(s, Send(count))
    ensures TailsRight(SendStep(s, count))
  {
    hide Hash;
  }

  lemma TailsReply(s: State, xid: nat, code: int)
    requires Accounted(s) && TailsRight(s)
    ensures TailsRight(ReplyStep(s, xid, code))
  {
    hide Hash, Held, TailRight, Unlink;
    AccountedOnce(s);
    var q := s.wait[Hash(xid)];
    var k := Find(q.items, xid);
    if k < |q.items| {
      UnlinkTail(q, k);
    }
  }

  lemma TailsPurge(s: State, status: Status)
    ensures TailsRight(PurgeStep(s, status))
  {
  }

  lemma TailsReconnect(s: State, started: bool)
    requires TailsRight(s)
    ensures TailsRight(ReconnectStep(s, started))
  {
    hide Requeued, PurgeStep;
    TailsRequeued(s);
    var r := Requeued(s);
    TailsPurge(s, Errored);
    TailsPurge(r, Errored);
    TailsPurge(r.(retries := r.retries - 1, attempts := r.attempts + 1), Errored);
  }

  // ---- whole runs ----

  predicate Feasible(s: State, steps: seq<Step>)
    requires Shaped(s)
    decreases |steps|
  {
    steps == [] || (Enabled(s, steps[0]) && Feasible(Next(s, steps[0]), steps[1..]))
  }

  function After(s: State, steps: seq<Step>): (r: State)
    requires Shaped(s) && Feasible(s, steps)
    ensures Shaped(r)
    decreases |steps|
  {
    if steps == [] then s else After(Next(s, steps[0]), steps[1..])
  }

  lemma NoSteps(s: State)
    requires Shaped(s)
    ensures Feasible(s, []) && After(s, []) == s
  {
  }

  lemma {:induction false} AfterSnoc(s: State, steps: seq<Step>, step: Step)
    requires Shaped(s) && Feasible(s, steps) && Enabled(After(s, steps), step)
    ensures Feasible(s, steps + [step]) && After(s, steps + [step]) == Next(After(s, steps), step)
    decreases |steps|
  {
    hide Next;
    if steps == [] {
      assert steps + [step] == [step] && [step][1..] == [];
    } else {
      AfterSnoc(Next(s, steps[0]), steps[1..], step);
      assert (steps + [step])[1..] == steps[1..] + [step];
    }
  }

  /** Every timeout scan of the run is clean in the state it meets. */
  predicate CleanRun(s: State, steps: seq<Step>)
    requires Shaped(s) && Feasible(s, steps)
    decreases |steps|
  {
    steps == [] || (Clean(s, steps[0]) && CleanRun(Next(s, steps[0]), steps[1..]))
  }

  lemma InitialHeld(s: State)
    requires Initial(s)
    ensures Accounted(s) && NoneLost(s) && TailsRight(s) && Bucketed(s) && OnlyHeadWritten(s)
  {
    WaitingEmptied(HASHES);
  }

  /** In every run whatsoever no PDU is in two places and none is answered twice. */
  lemma {:induction false} RunAccounted(s: State, steps: seq<Step>)
    requires Accounted(s) && Feasible(s, steps)
    ensures Accounted(After(s, steps))
    decreases |steps|
  {
    hide Next, Held;
    if steps != [] {
      AccountedNext(s, steps[0]);
      RunAccounted(Next(s, steps[0]), steps[1..]);
    }
  }

  lemma RightTailLosesNothing(s: State, step: Step)
    requires Shaped(s) && Enabled(s, step) && TailsRight(s)
    ensures Lost(s, step) == None
  {
    hide Hash;
  }

  /** In every run with clean timeout scans no PDU is lost either. */
  lemma {:induction false} RunLosesNothing(s: State, steps: seq<Step>)
    requires Accounted(s) && NoneLost(s) && TailsRight(s) && Feasible(s, steps) && CleanRun(s, steps)
    ensures Accounted(After(s, steps)) && NoneLost(After(s, steps)) && TailsRight(After(s, steps))
    decreases |steps|
  {
    hide Next, Held, NoneLost, TailsRight;
    if steps != [] {
      AccountedNext(s, steps[0]);
      RightTailLosesNothing(s, steps[0]);
      NoneLostNext(s, steps[0]);
      TailsNext(s, steps[0]);
      RunLosesNothing(Next(s, steps[0]), steps[1..]);
    }
  }

  // ---- buckets ----

  lemma {:induction false} KeepIsSubset(items: seq<Pdu>, now: nat, e: bool, h: nat)
    requires forall i :: 0 <= i < |items| ==> Hash(items[i].xid) == h
    ensures forall i :: 0 <= i < |Keep(items, now, e)| ==> Hash(Keep(items, now, e)[i].xid) == h
  {
    hide Hash;
    if items != [] {
      KeepIsSubset(items[1..], now, e, h);
    }
  }

  lemma BucketedTimeout(s: State, now: nat)
    requires Bucketed(s)
    ensures Bucketed(TimeoutStep(s, now))
  {
    hide Hash;
    forall h | 0 <= h < |s.wait|
      ensures ScanAll(s.wait, now)[h].items == Keep(s.wait[h].items, now, false)
      ensures forall i :: 0 <= i < |Keep(s.wait[h].items, now, false)| ==>
        Hash(Keep(s.wait[h].items, now, false)[i].xid) == h
    {
      ScanAllAt(s.wait, now, h);
      KeepIsSubset(s.wait[h].items, now, false, h);
    }
  }

  lemma BucketedNext(s: State, step: Step)
    requires Shaped(s) && Enabled(s, step) && Bucketed(s)
    ensures Bucketed(Next(s, step))
  {
    hide Hash, TimeoutStep;
    if step.Timeout? {
      BucketedTimeout(s, step.now);
    }
  }

  /** The reply's search of one bucket finds a PDU with `xid` exactly when some waiting PDU
      has it, and it is the one a search of all waiting PDUs meets first. */
  lemma BucketSearch(s: State, xid: nat)
    requires Shaped(s) && Bucketed(s)
    ensures var q := s.wait[Hash(xid)].items; var all := Waiting(s.wait);
      && (Find(q, xid) < |q| <==> exists i :: 0 <= i < |all| && all[i].xid == xid)
      && (Find(q, xid) < |q| ==> Find(all, xid) < |all| && q[Find(q, xid)] == all[Find(all, xid)])
  {
    SearchFrom(s.wait, 0, xid);
    FindIs(Waiting(s.wait), xid);
    hide *;
  }

  lemma {:induction false} FindIs(items: seq<Pdu>, xid: nat)
    ensures Find(items, xid) <= |items|
    ensures Find(items, xid) < |items| ==> items[Find(items, xid)].xid == xid
    ensures Find(items, xid) == |items| <==> forall i :: 0 <= i < |items| ==> items[i].xid != xid
  {
    if items != [] && items[0].xid != xid {
      FindIs(items[1..], xid);
      assert forall i :: 0 < i < |items| ==> items[i] == items[1..][i - 1];
    }
  }

  lemma {:induction false} FindConcat(a: seq<Pdu>, b: seq<Pdu>, xid: nat)
    ensures Find(a + b, xid) == if Find(a, xid) < |a| then Find(a, xid) else |a| + Find(b, xid)
  {
    FindIs(a, xid);
    if a == [] {
      assert a + b == b;
    } else {
      FindConcat(a[1..], b, xid);
      FindIs(a[1..], xid);
      assert (a + b)[0] == a[0] && (a + b)[1..] == a[1..] + b;
    }
  }

  /** `wait` holds the buckets from `h0` on. */
  lemma {:induction false} SearchFrom(wait: seq<Queue>, h0: nat, xid: nat)
    requires forall h, i :: 0 <= h < |wait| && 0 <= i < |wait[h].items| ==> Hash(wait[h].items[i].xid) == h0 + h
    ensures var all := Waiting(wait); var h := Hash(xid);
      if h0 <= h < h0 + |wait| then
        var q := wait[h - h0].items;
        && (Find(q, xid) < |q| <==> Find(all, xid) < |all|)
        && (Find(q, xid) < |q| ==> q[Find(q, xid)] == all[Find(all, xid)])
      else Find(all, xid) == |all|
  {
    hide Hash;
    if wait != [] {
      var rest := wait[1..];
      SearchFrom(rest, h0 + 1, xid);
      FindConcat(wait[0].items, Waiting(rest), xid);
      FindIs(wait[0].items, xid);
      FindIs(Waiting(rest), xid);
    }
  }

  // ---- partly written PDUs ----

  lemma {:induction false} ResetWritten(items: seq<Pdu>)
    ensures forall i :: 0 <= i < |Reset(items)| ==> Reset(items)[i].written == 0
  {
    if items != [] {
      ResetWritten(items[1..]);
    }
  }

  /** After a requeue every PDU in the out-queue will be sent from its first byte. */
  lemma RequeueRewinds(s: State)
    requires OnlyHeadWritten(s)
    ensures forall i :: 0 <= i < |Requeued(s).out.items| ==> Requeued(s).out.items[i].written == 0
  {
    ResetWritten(Waiting(s.wait));
  }

  lemma {:induction false} KeepWritten(items: seq<Pdu>, now: nat)
    requires forall i :: 0 <= i < |items| ==> items[i].written == 0
    ensures forall i :: 0 <= i < |Keep(items, now, false)| ==> Keep(items, now, false)[i].written == 0
  {
    if items != [] {
      KeepWritten(items[1..], now);
    }
  }

  lemma KeepHeadWritten(items: seq<Pdu>, now: nat)
    requires forall i :: 0 < i < |items| ==> items[i].written == 0
    ensures forall i :: 0 < i < |Keep(items, now, false)| ==> Keep(items, now, false)[i].written == 0
  {
    if items != [] {
      KeepWritten(items[1..], now);
      var k := Keep(items[1..], now, false);
      assert forall i :: 0 < i < |[items[0]] + k| ==> ([items[0]] + k)[i] == k[i - 1];
    }
  }

  lemma WrittenNext(s: State, step: Step)
    requires Shaped(s) && Enabled(s, step) && OnlyHeadWritten(s)
    ensures OnlyHeadWritten(Next(s, step))
  {
    hide Hash, Requeued;
    if step.Timeout? {
      KeepHeadWritten(s.out.items, step.now);
    } else if step.Reconnect? {
      RequeueRewinds(s);
    }
  }

  // ---- what waitpdu_len counts ----

  /** PDUs that `waitpdu_len` still counts though no bucket holds them: timed out, purged
      or lost since the counter was last reset. */
  function Leak(s: State, step: Step, leak: nat): nat
    requires Shaped(s) && Enabled(s, step)
  {
    match step
    case Send(_) => leak + if Lost(s, step).Some? then 1 else 0
    case Timeout(now) => leak + |Keep(Waiting(s.wait), now, true)|
    case Purge(_) => leak + |Waiting(s.wait)|
    case Reconnect(_) => if s.auto == 0 then leak + |Waiting(s.wait)| else 0
    case _ => leak
  }

  predicate Counted(s: State, leak: nat) {
    s.waitLen == (|Waiting(s.wait)| + leak) % WORD
  }

  lemma WordUp(n: nat)
    ensures (n % WORD + 1) % WORD == (n + 1) % WORD
  {
  }

  lemma WordDown(n: nat)
    ensures ((n + 1) % WORD + WORD - 1) % WORD == n % WORD
  {
  }

  lemma EnqueueLength(q: Queue, p: Pdu)
    ensures |Enqueue(q, p).items| == |q.items| + if Stale(q) then 0 else 1
  {
  }

  lemma SendLength(s: State, count: nat)
    requires Shaped(s) && Enabled(s, Send(count))
    requires s.out.items[0].written + count == s.out.items[0].size
    ensures |Waiting(SendStep(s, count).wait)| == |Waiting(s.wait)| + if Lost(s, Send(count)).Some? then 0 else 1
  {
    hide Hash, Enqueue, Stale, Waiting;
    var p := s.out.items[0].(written := s.out.items[0].written + count);
    var h := Hash(p.xid);
    EnqueueLength(s.wait[h], p);
    WaitingUpdate(s.wait, h, Enqueue(s.wait[h], p), 0);
  }

  lemma CountedSend(s: State, count: nat, leak: nat)
    requires Shaped(s) && Enabled(s, Send(count)) && Counted(s, leak)
    ensures Counted(SendStep(s, count), Leak(s, Send(count), leak))
  {
    hide Hash, Enqueue, Stale, Waiting;
    if s.out.items[0].written + count == s.out.items[0].size {
      SendLength(s, count);
      WordUp(|Waiting(s.wait)| + leak);
    }
  }

  lemma ReplyLength(s: State, xid: nat, code: int)
    requires Shaped(s)
    ensures var q := s.wait[Hash(xid)];
      |Waiting(ReplyStep(s, xid, code).wait)| + (if Find(q.items, xid) < |q.items| then 1 else 0) == |Waiting(s.wait)|
  {
    hide Hash, Waiting;
    var q := s.wait[Hash(xid)];
    var k := Find(q.items, xid);
    if k < |q.items| {
      WaitingUpdate(s.wait, Hash(xid), Unlink(q, k), 0);
    }
  }

  lemma CountedReply(s: State, xid: nat, code: int, leak: nat)
    requires Shaped(s) && Counted(s, leak)
    ensures Counted(ReplyStep(s, xid, code), leak)
  {
    hide Hash, Waiting, Unlink;
    ReplyLength(s, xid, code);
    WordDown(|Waiting(ReplyStep(s, xid, code).wait)| + leak);
  }

  lemma CountedNext(s: State, step: Step, leak: nat)
    requires Shaped(s) && Enabled(s, step) && Counted(s, leak)
    ensures Counted(Next(s, step), Leak(s, step, leak))
  {
    hide Hash, SendStep, ReplyStep;
    match step
    case Submit(size, timeout) =>
    case Send(count) => CountedSend(s, count, leak);
    case Reply(xid, code) => CountedReply(s, xid, code, leak);
    case Timeout(now) =>
      WaitingScanned(s.wait, now);
      InKeep(Waiting(s.wait), now, 0);
    case Reconnect(started) => WaitingEmptied(|s.wait|);
    case Established =>
    case Purge(status) => WaitingEmptied(|s.wait|);
  }

  function LeakAfter(s: State, steps: seq<Step>, leak: nat): nat
    requires Shaped(s) && Feasible(s, steps)
    decreases |steps|
  {
    if steps == [] then leak else LeakAfter(Next(s, steps[0]), steps[1..], Leak(s, steps[0], leak))
  }

  /** In every run `waitpdu_len` is the number of waiting PDUs plus the leak, modulo 2^32. */
  lemma {:induction false} RunCounted(s: State, steps: seq<Step>, leak: nat)
    requires Shaped(s) && Feasible(s, steps) && Counted(s, leak)
    ensures Counted(After(s, steps), LeakAfter(s, steps, leak))
    decreases |steps|
  {
    hide Next, Counted, Leak;
    if steps != [] {
      CountedNext(s, steps[0], leak);
      RunCounted(Next(s, steps[0]), steps[1..], Leak(s, steps[0], leak));
    }
  }

  /** A step adds at most one to what the counter counts. */
  lemma CountGrows(s: State, step: Step, leak: nat)
    requires Shaped(s) && Enabled(s, step)
    ensures |Waiting(Next(s, step).wait)| + Leak(s, step, leak) <= |Waiting(s.wait)| + leak + 1
  {
    hide Hash, SendStep, ReplyStep;
    match step
    case Submit(size, timeout) =>
    case Send(count) => SendGrows(s, count);
    case Reply(xid, code) => ReplyLength(s, xid, code);
    case Timeout(now) =>
      WaitingScanned(s.wait, now);
      InKeep(Waiting(s.wait), now, 0);
    case Reconnect(started) => WaitingEmptied(|s.wait|);
    case Established =>
    case Purge(status) => WaitingEmptied(|s.wait|);
  }

  lemma SendGrows(s: State, count: nat)
    requires Shaped(s) && Enabled(s, Send(count))
    ensures |Waiting(SendStep(s, count).wait)| + (if Lost(s, Send(count)).Some? then 1 else 0) <= |Waiting(s.wait)| + 1
  {
    hide Hash, Enqueue, Waiting;
    if s.out.items[0].written + count == s.out.items[0].size {
      SendLength(s, count);
    }
  }

  lemma {:induction false} RunGrows(s: State, steps: seq<Step>, leak: nat)
    requires Shaped(s) && Feasible(s, steps)
    ensures |Waiting(After(s, steps).wait)| + LeakAfter(s, steps, leak) <= |Waiting(s.wait)| + leak + |steps|
    decreases |steps|
  {
    hide Next, Leak, Waiting;
    if steps != [] {
      CountGrows(s, steps[0], leak);
      RunGrows(Next(s, steps[0]), steps[1..], Leak(s, steps[0], leak));
    }
  }

  /** In every run from a fresh context, as long as the counter cannot have wrapped, `waitpdu_len` is
      never less than the number of waiting PDUs, and equals it exactly when nothing has leaked. */
  lemma RunBound(s: State, steps: seq<Step>)
    requires Initial(s) && Feasible(s, steps) && |steps| < WORD
    ensures var t := After(s, steps);
      && t.waitLen >= |Waiting(t.wait)|
      && (t.waitLen == |Waiting(t.wait)| <==> LeakAfter(s, steps, 0) == 0)
  {
    hide After, Feasible, LeakAfter, Waiting;
    WaitingEmptied(HASHES);
    RunCounted(s, steps, 0);
    RunGrows(s, steps, 0);
  }

  lemma {:induction false} OneWaiting(n: nat, h: nat, q: Queue)
    requires h < n
    ensures Waiting(Emptied(n)[h := q]) == q.items
    decreases n
  {
    var w := Emptied(n)[h := q];
    if h == 0 {
      assert w[1..] == Emptied(n - 1);
      WaitingEmptied(n - 1);
    } else {
      OneWaiting(n - 1, h - 1, q);
      assert w[1..] == Emptied(n - 1)[h - 1 := q];
    }
  }

  /** One PDU is sent and times out: no PDU waits any more, and the counter still says one. */
  lemma TimeoutLeaksOne(s: State)
    requires Initial(s)
    ensures var run := [Submit(100, 5)] + [Send(100)] + [Timeout(5)];
      Feasible(s, run) && After(s, run).waitLen == 1 && Waiting(After(s, run).wait) == []
  {
    hide Hash, Waiting, ScanAll;
    var p := Pdu(0, s.nextXid, 100, 0, 5);
    NoSteps(s);
    AfterSnoc(s, [], Submit(100, 5));
    assert [] + [Submit(100, 5)] == [Submit(100, 5)];
    var s1 := Next(s, Submit(100, 5));
    assert s1.out == Queue([p], Some(0)) && s1.wait == Emptied(HASHES);
    AfterSnoc(s, [Submit(100, 5)], Send(100));
    var s2 := Next(s1, Send(100));
    var q := p.(written := 100);
    assert s2.wait == Emptied(HASHES)[Hash(p.xid) := Queue([q], Some(0))] && s2.waitLen == 1;
    OneWaiting(HASHES, Hash(p.xid), Queue([q], Some(0)));
    AfterSnoc(s, [Submit(100, 5)] + [Send(100)], Timeout(5));
    WaitingScanned(s2.wait, 5);
    assert [q][1..] == [] && Keep([q], 5, false) == [];
  }

  /** Steps that cannot leak. */
  predicate Quiet(s: State, steps: seq<Step>) {
    forall i :: 0 <= i < |steps| ==> !steps[i].Timeout? && !steps[i].Purge? && (steps[i].Reconnect? ==> s.auto != 0)
  }

  /** Without timeouts and purges the counter is exact. */
  lemma {:induction false} RunExact(s: State, steps: seq<Step>)
    requires Accounted(s) && TailsRight(s) && Feasible(s, steps) && Quiet(s, steps) && Counted(s, 0)
    ensures Counted(After(s, steps), 0)
    decreases |steps|
  {
    hide Held, TailsRight, Counted;
    if steps != [] {
      var step := steps[0];
      RightTailLosesNothing(s, step);
      CountedNext(s, step, 0);
      AccountedNext(s, step);
      TailsNext(s, step);
      assert Leak(s, step, 0) == 0;
      AutoNext(s, step);
      RunExact(Next(s, step), steps[1..]);
    }
  }

  lemma AutoNext(s: State, step: Step)
    requires Shaped(s) && Enabled(s, step)
    ensures Next(s, step).auto == s.auto
  {
  }

  // ---- reconnecting ----

  predicate Budget(s: State) {
    s.auto > 0 ==>
      s.retries >= 0 && if s.connected then s.attempts == 0 else s.attempts + s.retries <= s.auto
  }

  lemma BudgetNext(s: State, step: Step)
    requires Shaped(s) && Enabled(s, step) && Budget(s)
    ensures Budget(Next(s, step))
  {
  }

  /** With `auto_reconnect == n > 0` at most `n` connection attempts are made in an outage. */
  lemma {:induction false} RunRetries(s: State, steps: seq<Step>)
    requires Shaped(s) && Feasible(s, steps) && Budget(s) && s.auto > 0
    ensures After(s, steps).attempts <= s.auto
    decreases |steps|
  {
    hide Next;
    if steps != [] {
      BudgetNext(s, steps[0]);
      AutoNext(s, steps[0]);
      RunRetries(Next(s, steps[0]), steps[1..]);
    }
  }

  // ---- the lifecycle theorem and what breaks it ----

  lemma {:induction false} FoundInBucket(wait: seq<Queue>, id: nat) returns (h: nat, i: nat)
    requires InQueue(Waiting(wait), id) > 0
    ensures h < |wait| && i < |wait[h].items| && wait[h].items[i].id == id
  {
    InConcat(wait[0].items, Waiting(wait[1..]), id);
    if InQueue(wait[0].items, id) > 0 {
      h := 0;
      i := FoundAt(wait[0].items, id);
    } else {
      h, i := FoundInBucket(wait[1..], id);
      h := h + 1;
    }
  }

  lemma {:induction false} FoundAt(items: seq<Pdu>, id: nat) returns (i: nat)
    requires InQueue(items, id) > 0
    ensures i < |items| && items[i].id == id
  {
    if items[0].id == id {
      i := 0;
    } else {
      i := FoundAt(items[1..], id);
      i := i + 1;
    }
  }

  lemma {:induction false} RunPlaced(s: State, steps: seq<Step>)
    requires Shaped(s) && Feasible(s, steps) && Bucketed(s) && OnlyHeadWritten(s)
    ensures Bucketed(After(s, steps)) && OnlyHeadWritten(After(s, steps))
    decreases |steps|
  {
    hide Next, Bucketed, OnlyHeadWritten;
    if steps != [] {
      BucketedNext(s, steps[0]);
      WrittenNext(s, steps[0]);
      RunPlaced(Next(s, steps[0]), steps[1..]);
    }
  }

  /** PDU `id` sits in the bucket its transaction id hashes to. */
  ghost predicate Waits(s: State, id: nat) {
    exists h, i :: 0 <= h < |s.wait| && 0 <= i < |s.wait[h].items| &&
      s.wait[h].items[i].id == id && Hash(s.wait[h].items[i].xid) == h
  }

  /** From a fresh context, through any run with clean timeout scans: every submitted PDU is
      in exactly one of the out-queue, its own bucket or the log of callbacks, once; its callback
      has been made exactly once if it was answered and never otherwise. */
  lemma Lifecycle(s: State, steps: seq<Step>, id: nat)
    requires Initial(s) && Feasible(s, steps) && CleanRun(s, steps)
    ensures var t := After(s, steps);
      && (id >= t.submitted ==> Held(t, id) == 0)
      && (id < t.submitted ==>
          || (InQueue(t.out.items, id) == 1 && !Waits(t, id) && InLog(t.log, id) == 0)
          || (InQueue(t.out.items, id) == 0 && Waits(t, id) && InLog(t.log, id) == 0)
          || (InQueue(t.out.items, id) == 0 && !Waits(t, id) && InLog(t.log, id) == 1))
  {
    InitialHeld(s);
    RunLosesNothing(s, steps);
    RunPlaced(s, steps);
    hide After, CleanRun, Feasible, Hash;
    var t := After(s, steps);
    assert Held(t, id) <= if id < t.submitted then 1 else 0;
    WaitsIsWaiting(t, id);
  }

  lemma WaitsIsWaiting(s: State, id: nat)
    requires Shaped(s) && Bucketed(s)
    ensures Waits(s, id) <==> InQueue(Waiting(s.wait), id) > 0
  {
    hide Hash;
    if InQueue(Waiting(s.wait), id) > 0 {
      var h, i := FoundInBucket(s.wait, id);
      assert Hash(s.wait[h].items[i].xid) == h;
    }
    if Waits(s, id) {
      var h, i :| 0 <= h < |s.wait| && 0 <= i < |s.wait[h].items| && s.wait[h].items[i].id == id;
      CountAt(s.wait[h].items, i);
      BucketInWaiting(s.wait, h, id);
    }
  }

  /** A lost PDU stays lost: no later step queues it or calls back for it. */
  lemma {:induction false} LostForever(s: State, steps: seq<Step>, id: nat)
    requires Shaped(s) && Feasible(s, steps) && id < s.submitted && Held(s, id) == 0
    ensures Held(After(s, steps), id) == 0 && id < After(s, steps).submitted
    decreases |steps|
  {
    hide Next, Held, Lost;
    if steps != [] {
      HeldNext(s, steps[0], id);
      SubmittedNext(s, steps[0]);
      LostForever(Next(s, steps[0]), steps[1..], id);
    }
  }

  predicate LossFree(s: State, steps: seq<Step>)
    requires Shaped(s) && Feasible(s, steps)
    decreases |steps|
  {
    steps == [] || (Lost(s, steps[0]) == None && LossFree(Next(s, steps[0]), steps[1..]))
  }

  /** In every run: all submitted PDUs are accounted for at the end exactly when no step
      pushed behind a wrong tail. */
  lemma {:induction false} RunLosesIff(s: State, steps: seq<Step>)
    requires Accounted(s) && NoneLost(s) && Feasible(s, steps)
    ensures NoneLost(After(s, steps)) <==> LossFree(s, steps)
    decreases |steps|
  {
    hide Next, Held, Lost;
    if steps != [] {
      var t := Next(s, steps[0]);
      AccountedNext(s, steps[0]);
      NoneLostNext(s, steps[0]);
      if Lost(s, steps[0]) == None {
        RunLosesIff(t, steps[1..]);
      } else {
        var id := Lost(s, steps[0]).value;
        LostIsOurs(s, steps[0]);
        SubmittedNext(s, steps[0]);
        HeldNext(s, steps[0], id);
        assert Held(s, id) <= if id < s.submitted then 1 else 0;
        LostForever(t, steps[1..], id);
      }
    }
  }

  lemma UncleanStart(s: State) returns (s2: State)
    requires Initial(s)
    ensures var a := Submit(100, 0); var b := Submit(100, 5);
      Feasible(s, [a, b]) && s2 == After(s, [a, b])
    ensures s2.submitted == 2
    ensures s2.out == Queue([Pdu(0, s.nextXid, 100, 0, 0), Pdu(1, (s.nextXid + 1) % WORD, 100, 0, 5)], Some(1))
    ensures Accounted(s2)
  {
    var a, b := Submit(100, 0), Submit(100, 5);
    var s1 := Next(s, a);
    s2 := Next(s1, b);
    NoSteps(s);
    AfterSnoc(s, [], a);
    assert [] + [a] == [a] && [a] + [b] == [a, b];
    AfterSnoc(s, [a], b);
    assert [Pdu(0, s.nextXid, 100, 0, 0)] + [Pdu(1, s1.nextXid, 100, 0, 5)]
      == [Pdu(0, s.nextXid, 100, 0, 0), Pdu(1, s1.nextXid, 100, 0, 5)];
    InitialHeld(s);
    AccountedNext(s, a);
    AccountedNext(s1, b);
  }

  /** Two PDUs are queued, the second times out alone, a third is queued: the third is neither
      queued nor waiting nor answered. */
  lemma UncleanScanLosesPdu(s: State)
    requires Initial(s)
    ensures var run := [Submit(100, 0), Submit(100, 5)] + [Timeout(5)] + [Submit(100, 0)];
      Feasible(s, run) && After(s, run).submitted == 3 && Held(After(s, run), 2) == 0
  {
    var start := [Submit(100, 0), Submit(100, 5)];
    var s2 := UncleanStart(s);
    var p, q := s2.out.items[0], s2.out.items[1];
    assert Keep([q], 5, false) == [];
    assert [p, q][1..] == [q];
    assert Keep([p, q], 5, false) == [p];
    AfterSnoc(s, start, Timeout(5));
    var s3 := Next(s2, Timeout(5));
    assert s3.out == Queue([p], Some(1)) && s3.submitted == 2;
    AfterSnoc(s, start + [Timeout(5)], Submit(100, 0));
    HeldNext(s2, Timeout(5), 2);
    HeldNext(s3, Submit(100, 0), 2);
  }
}
