/** What the steps of the transport do to a PDU, in terms of its fields: the laws
    that hold of every run, whatever order things happen in. */
module RpcLaws {
  import opened Prelude
  import opened RpcModel
  import opened RpcRuns

  // ---- one PDU through a run ----

  /** The bytes that `send` has taken of PDU `id` since it was last rewound. */
  function Bytes(s: State, step: Step, id: nat, n: nat): nat {
    match step
    case Send(count) => if s.out.items != [] && s.out.items[0].id == id then n + count else n
    case Reconnect(_) => if s.auto == 0 then n else 0
    case _ => n
  }

  function BytesRun(s: State, steps: seq<Step>, id: nat, n: nat): nat
    requires Shaped(s) && Feasible(s, steps)
    decreases |steps|
  {
    if steps == [] then n else BytesRun(Next(s, steps[0]), steps[1..], id, Bytes(s, steps[0], id, n))
  }

  predicate AllAre(items: seq<Pdu>, x: Pdu) {
    forall i :: 0 <= i < |items| && items[i].id == x.id ==> items[i] == x
  }

  predicate NoneIs(items: seq<Pdu>, id: nat) {
    forall i :: 0 <= i < |items| ==> items[i].id != id
  }

  /** Wherever PDU `x.id` is, it is `x`; in the out-queue not all of it has been taken, and on a wait
      queue all of it has. */
  predicate Is(s: State, x: Pdu) {
    && AllAre(s.out.items, x)
    && (NoneIs(s.out.items, x.id) || x.written < x.size || x.size == 0)
    && forall h :: 0 <= h < |s.wait| ==>
      AllAre(s.wait[h].items, x) && (NoneIs(s.wait[h].items, x.id) || x.written == x.size)
  }

  lemma {:induction false} NoneCounted(items: seq<Pdu>, id: nat)
    ensures InQueue(items, id) == 0 <==> NoneIs(items, id)
  {
    if items != [] {
      NoneCounted(items[1..], id);
      assert forall i :: 0 < i < |items| ==> items[i] == items[1..][i - 1];
    }
  }

  /** The head of the out-queue is nowhere else. */
  lemma HeadAlone(s: State)
    requires Accounted(s) && s.out.items != []
    ensures var id := s.out.items[0].id;
      NoneIs(s.out.items[1..], id) && forall h :: 0 <= h < |s.wait| ==> NoneIs(s.wait[h].items, id)
  {
    var id := s.out.items[0].id;
    assert Held(s, id) <= 1;
    NoneCounted(s.out.items[1..], id);
    forall h | 0 <= h < |s.wait| ensures NoneIs(s.wait[h].items, id) {
      BucketInWaiting(s.wait, h, id);
      NoneCounted(s.wait[h].items, id);
    }
  }

  lemma IsSend(s: State, count: nat, x: Pdu)
    requires Accounted(s) && Enabled(s, Send(count)) && Is(s, x)
    ensures Is(Next(s, Send(count)), x.(written := Bytes(s, Send(count), x.id, x.written)))
  {
    hide Hash, Held;
    HeadAlone(s);
    var items := s.out.items;
    assert forall i :: 0 < i < |items| ==> items[i] == items[1..][i - 1];
  }

  lemma {:induction false} KeptAre(items: seq<Pdu>, now: nat, x: Pdu)
    requires AllAre(items, x)
    ensures AllAre(Keep(items, now, false), x) && (NoneIs(items, x.id) ==> NoneIs(Keep(items, now, false), x.id))
  {
    if items != [] {
      assert AllAre(items[1..], x);
      KeptAre(items[1..], now, x);
      assert NoneIs(items, x.id) ==> NoneIs(items[1..], x.id);
    }
  }

  lemma IsTimeout(s: State, now: nat, x: Pdu)
    requires Shaped(s) && Is(s, x)
    ensures Is(Next(s, Timeout(now)), x)
  {
    hide Keep, AllAre, NoneIs;
    KeptAre(s.out.items, now, x);
    forall h | 0 <= h < |s.wait|
      ensures ScanAll(s.wait, now)[h].items == Keep(s.wait[h].items, now, false)
      ensures AllAre(Keep(s.wait[h].items, now, false), x)
      ensures NoneIs(s.wait[h].items, x.id) ==> NoneIs(Keep(s.wait[h].items, now, false), x.id)
    {
      ScanAllAt(s.wait, now, h);
      KeptAre(s.wait[h].items, now, x);
    }
  }

  lemma IsReply(s: State, xid: nat, code: int, x: Pdu)
    requires Shaped(s) && Is(s, x)
    ensures Is(Next(s, Reply(xid, code)), x)
  {
    hide Hash;
    FindIs(s.wait[Hash(xid)].items, xid);
  }

  lemma {:induction false} WaitingFrom(wait: seq<Queue>, j: nat) returns (h: nat, i: nat)
    requires j < |Waiting(wait)|
    ensures h < |wait| && i < |wait[h].items| && wait[h].items[i] == Waiting(wait)[j]
  {
    if j < |wait[0].items| {
      h, i := 0, j;
    } else {
      h, i := WaitingFrom(wait[1..], j - |wait[0].items|);
      h := h + 1;
    }
  }

  /** Requeued PDUs come out in the opposite order, to be sent from their first byte. */
  lemma {:induction false} ResetAt(items: seq<Pdu>, i: nat)
    requires i < |items|
    ensures |Reset(items)| == |items| && Reset(items)[i] == items[|items| - 1 - i].(written := 0)
  {
    if |items| > 1 {
      ResetAt(items[1..], if i < |items| - 1 then i else 0);
    }
  }

  lemma ResetNone(items: seq<Pdu>)
    ensures items == [] ==> Reset(items) == []
  {
  }

  lemma IsRequeued(s: State, x: Pdu)
    requires Shaped(s) && Is(s, x) && OnlyHeadWritten(s)
    ensures Is(Requeued(s), x.(written := 0))
  {
    hide Reset, Waiting;
    var items, w := Requeued(s).out.items, Waiting(s.wait);
    ResetNone(w);
    if w != [] {
      ResetAt(w, 0);
    }
    forall i | 0 <= i < |items| && items[i].id == x.id ensures items[i] == x.(written := 0) {
      if i < |w| {
        ResetAt(w, i);
        var h, j := WaitingFrom(s.wait, |w| - 1 - i);
      } else {
        assert s.out.items[i - |w|].id == x.id;
      }
    }
  }

  lemma IsReconnect(s: State, started: bool, x: Pdu)
    requires Shaped(s) && Is(s, x) && OnlyHeadWritten(s)
    ensures Is(Next(s, Reconnect(started)), x.(written := Bytes(s, Reconnect(started), x.id, x.written)))
  {
    hide Requeued, Calls, Waiting;
    IsRequeued(s, x);
  }

  /** Every step keeps the record of every PDU submitted before. */
  lemma IsNext(s: State, step: Step, x: Pdu)
    requires Accounted(s) && OnlyHeadWritten(s) && Enabled(s, step) && Is(s, x) && x.id < s.submitted
    ensures Is(Next(s, step), x.(written := Bytes(s, step, x.id, x.written)))
  {
    hide SubmitStep, SendStep, ReplyStep, TimeoutStep, ReconnectStep, Held, Is;
    match step
    case Submit(size, timeout) => IsSubmit(s, size, timeout, x);
    case Send(count) => IsSend(s, count, x);
    case Reply(xid, code) => IsReply(s, xid, code, x);
    case Timeout(now) => IsTimeout(s, now, x);
    case Reconnect(started) => IsReconnect(s, started, x);
    case Established => IsSame(s, Next(s, step), x);
    case Purge(status) => IsPurge(s, status, x);
  }

  lemma IsSame(s: State, t: State, x: Pdu)
    requires Is(s, x) && t.out == s.out && t.wait == s.wait
    ensures Is(t, x)
  {
  }

  lemma IsPurge(s: State, status: Status, x: Pdu)
    requires Shaped(s)
    ensures Is(Next(s, Purge(status)), x)
  {
    hide Calls, Waiting;
  }

  lemma IsSubmit(s: State, size: nat, timeout: nat, x: Pdu)
    requires Shaped(s) && Is(s, x) && x.id < s.submitted
    ensures Is(Next(s, Submit(size, timeout)), x)
  {
  }

  /** What is handed to the transport is what it was asked for. */
  lemma IsNew(s: State, size: nat, timeout: nat)
    requires Accounted(s)
    ensures Is(Next(s, Submit(size, timeout)), Pdu(s.submitted, s.nextXid, size, 0, timeout))
  {
    var id := s.submitted;
    assert Held(s, id) == 0;
    NoneCounted(s.out.items, id);
    forall h | 0 <= h < |s.wait| ensures NoneIs(s.wait[h].items, id) {
      BucketInWaiting(s.wait, h, id);
      NoneCounted(s.wait[h].items, id);
    }
  }

  lemma {:induction false} RunIs(s: State, steps: seq<Step>, x: Pdu)
    requires Accounted(s) && OnlyHeadWritten(s) && Feasible(s, steps) && Is(s, x) && x.id < s.submitted
    ensures Is(After(s, steps), x.(written := BytesRun(s, steps, x.id, x.written)))
    decreases |steps|
  {
    hide Next, Is, Held, OnlyHeadWritten;
    if steps != [] {
      AccountedNext(s, steps[0]);
      WrittenNext(s, steps[0]);
      SubmittedNext(s, steps[0]);
      IsNext(s, steps[0], x);
      RunIs(Next(s, steps[0]), steps[1..], x.(written := Bytes(s, steps[0], x.id, x.written)));
    }
  }

  lemma {:induction false} RunXid(s: State, steps: seq<Step>, first: nat)
    requires Shaped(s) && Feasible(s, steps) && s.nextXid == (first + s.submitted) % WORD
    ensures After(s, steps).nextXid == (first + After(s, steps).submitted) % WORD
    decreases |steps|
  {
    hide Next;
    if steps != [] {
      XidNext(s, steps[0], first);
      RunXid(Next(s, steps[0]), steps[1..], first);
    }
  }

  lemma XidNext(s: State, step: Step, first: nat)
    requires Shaped(s) && Enabled(s, step) && s.nextXid == (first + s.submitted) % WORD
    ensures Next(s, step).nextXid == (first + Next(s, step).submitted) % WORD
  {
    hide Scan, ScanAll, Calls, Keep, Waiting, Reset, Enqueue, Hash, Unlink, Find;
    WordUp(first + s.submitted);
  }

  /** The record of a PDU. Transaction ids follow each other from the first, and a PDU keeps the id, the
      size and the deadline it was submitted with. In every run whatsoever `written` is the number of
      bytes `send` has taken of it since it was last rewound; a PDU in the out-queue has bytes left,
      unless it has none at all, and one on a wait queue has been taken whole. */
  lemma Ledger(s: State, before: seq<Step>, size: nat, timeout: nat, after: seq<Step>)
    requires Initial(s) && Feasible(s, before) && Feasible(Next(After(s, before), Submit(size, timeout)), after)
    ensures var t := After(s, before);
      var u := Next(t, Submit(size, timeout));
      var id := t.submitted;
      Is(After(u, after), Pdu(id, (s.nextXid + id) % WORD, size, BytesRun(u, after, id, 0), timeout))
  {
    hide Is, After, Next, Feasible, BytesRun;
    InitialHeld(s);
    RunAccounted(s, before);
    RunPlaced(s, before);
    FirstXid(s);
    RunXid(s, before, s.nextXid);
    var t := After(s, before);
    var step := Submit(size, timeout);
    IsNew(t, size, timeout);
    AccountedNext(t, step);
    WrittenNext(t, step);
    SubmitCounts(t, size, timeout);
    RunIs(Next(t, step), after, Pdu(t.submitted, t.nextXid, size, 0, timeout));
  }

  lemma FirstXid(s: State)
    requires Initial(s)
    ensures s.nextXid == (s.nextXid + s.submitted) % WORD
  {
  }

  lemma SubmitCounts(s: State, size: nat, timeout: nat)
    requires Shaped(s)
    ensures Next(s, Submit(size, timeout)).submitted == s.submitted + 1
  {
  }

  // ---- who is called back, and with what ----

  /** A deadline that has come. */
  predicate Over(p: Pdu, now: nat) {
    0 < p.timeout <= now
  }

  lemma {:induction false} KeptIff(items: seq<Pdu>, now: nat, e: bool, p: Pdu)
    ensures p in Keep(items, now, e) <==> p in items && (Over(p, now) <==> e)
  {
    if items != [] {
      KeptIff(items[1..], now, e, p);
      assert p in items <==> p == items[0] || p in items[1..];
    }
  }

  lemma {:induction false} CallsIff(items: seq<Pdu>, status: Status, c: Callback)
    ensures c in Calls(items, status) <==> c.status == status && exists p :: p in items && p.id == c.id
  {
    if items != [] {
      CallsIff(items[1..], status, c);
      if p :| p in items && p.id == c.id {
        assert p == items[0] || p in items[1..];
      }
      assert items[0] in items;
      assert forall p :: p in items[1..] ==> p in items;
    }
  }

  /** The deadline of PDU `id`, queued or waiting, has come. */
  ghost predicate Due(s: State, now: nat, id: nat) {
    exists p :: (p in s.out.items || p in Waiting(s.wait)) && Over(p, now) && p.id == id
  }

  /** A timeout step at `now` calls back, with that status, exactly the PDUs whose deadline has come, and
      leaves exactly the others where they are: those without a deadline and those whose deadline lies
      ahead. */
  lemma TimeoutCalls(s: State, now: nat)
    requires Shaped(s)
    ensures var t := Next(s, Timeout(now));
      && (forall p :: p in t.out.items <==> p in s.out.items && !Over(p, now))
      && (forall p :: p in Waiting(t.wait) <==> p in Waiting(s.wait) && !Over(p, now))
      && s.log <= t.log
      && forall c :: c in t.log[|s.log|..] <==> c.status == TimedOut && Due(s, now, c.id)
  {
    hide Keep, Calls, Waiting, ScanAll, Over;
    var t := Next(s, Timeout(now));
    var a, b := Keep(s.out.items, now, true), Keep(Waiting(s.wait), now, true);
    WaitingScanned(s.wait, now);
    forall p ensures p in t.out.items <==> p in s.out.items && !Over(p, now) {
      KeptIff(s.out.items, now, false, p);
    }
    forall p ensures p in Waiting(t.wait) <==> p in Waiting(s.wait) && !Over(p, now) {
      KeptIff(Waiting(s.wait), now, false, p);
    }
    var more := Calls(a, TimedOut) + Calls(b, TimedOut);
    assert t.log == s.log + more && t.log[|s.log|..] == more;
    forall c ensures c in more <==> c.status == TimedOut && Due(s, now, c.id) {
      CalledIff(s, now, c);
    }
  }

  lemma CalledIff(s: State, now: nat, c: Callback)
    ensures c in Calls(Keep(s.out.items, now, true), TimedOut) + Calls(Keep(Waiting(s.wait), now, true), TimedOut) <==>
      c.status == TimedOut && Due(s, now, c.id)
  {
    hide Keep, Calls, Waiting, Over;
    var a, b := Keep(s.out.items, now, true), Keep(Waiting(s.wait), now, true);
    CallsIff(a, TimedOut, c);
    CallsIff(b, TimedOut, c);
    forall p
      ensures p in a <==> p in s.out.items && Over(p, now)
      ensures p in b <==> p in Waiting(s.wait) && Over(p, now)
    {
      KeptIff(s.out.items, now, true, p);
      KeptIff(Waiting(s.wait), now, true, p);
    }
  }

  /** A reply calls back, with its code, the PDU that waits for its transaction id; a reply that none
      waits for changes nothing. */
  lemma ReplyCalls(s: State, xid: nat, code: int)
    requires Shaped(s) && Bucketed(s)
    ensures var t := Next(s, Reply(xid, code));
      if exists p :: p in Waiting(s.wait) && p.xid == xid
      then exists p :: p in Waiting(s.wait) && p.xid == xid && t.log == s.log + [Callback(p.id, Replied(code))]
      else t == s
  {
    hide Hash, Waiting, Find, Unlink, Bucketed;
    var all, q := Waiting(s.wait), s.wait[Hash(xid)].items;
    SearchFrom(s.wait, 0, xid) by {
      BucketedFrom(s);
    }
    FindIs(all, xid);
    FindIs(q, xid);
    if Find(all, xid) < |all| {
      var p := all[Find(all, xid)];
      assert p in all && Next(s, Reply(xid, code)).log == s.log + [Callback(p.id, Replied(code))];
    }
  }

  lemma BucketedFrom(s: State)
    requires Bucketed(s)
    ensures forall h, i :: 0 <= h < |s.wait| && 0 <= i < |s.wait[h].items| ==> Hash(s.wait[h].items[i].xid) == 0 + h
  {
    hide Hash;
  }

  /** A purge calls back, with its status, every PDU that is queued or waits, and only those. */
  lemma PurgeCalls(s: State, status: Status)
    requires Shaped(s)
    ensures var t := Next(s, Purge(status));
      && t.out.items == [] && Waiting(t.wait) == [] && s.log <= t.log
      && |t.log| == |s.log| + |s.out.items| + |Waiting(s.wait)|
      && forall c :: c in t.log[|s.log|..] <==>
           c.status == status && exists p :: (p in s.out.items || p in Waiting(s.wait)) && p.id == c.id
  {
    hide Calls, Waiting;
    var t := Next(s, Purge(status));
    WaitingEmptied(|s.wait|);
    CallsLength(s.out.items, status);
    CallsLength(Waiting(s.wait), status);
    var more := Calls(s.out.items, status) + Calls(Waiting(s.wait), status);
    assert t.log == s.log + more && t.log[|s.log|..] == more;
    forall c ensures c in more <==>
        c.status == status && exists p :: (p in s.out.items || p in Waiting(s.wait)) && p.id == c.id
    {
      CallsIff(s.out.items, status, c);
      CallsIff(Waiting(s.wait), status, c);
    }
  }

  lemma {:induction false} CallsLength(items: seq<Pdu>, status: Status)
    ensures |Calls(items, status)| == |items|
  {
    if items != [] {
      CallsLength(items[1..], status);
    }
  }

  // ---- outages ----

  /** Since some connection was established: the attempts made and the retries left make up the setting. */
  predicate Rationed(s: State) {
    s.auto > 0 && if s.connected then s.attempts == 0 else s.retries >= 0 && s.attempts + s.retries == s.auto
  }

  lemma RationedNext(s: State, step: Step)
    requires Shaped(s) && Enabled(s, step) && s.auto > 0
    ensures step.Established? || Rationed(s) ==> Rationed(Next(s, step))
  {
    hide Scan, ScanAll, Calls, Keep, Waiting, Reset, Enqueue, Hash, Unlink, Find;
  }

  lemma {:induction false} RunRationed(s: State, steps: seq<Step>)
    requires Shaped(s) && Feasible(s, steps) && Rationed(s)
    ensures Rationed(After(s, steps))
    decreases |steps|
  {
    hide Next, Rationed;
    if steps != [] {
      IsPositive(s);
      RationedNext(s, steps[0]);
      RunRationed(Next(s, steps[0]), steps[1..]);
    }
  }

  lemma IsPositive(s: State)
    requires Rationed(s)
    ensures s.auto > 0
  {
  }

  /** All that was outstanding has been called back with an error. */
  predicate GaveUp(s: State, t: State) {
    && t.out.items == [] && Waiting(t.wait) == [] && s.log <= t.log
    && |t.log| == |s.log| + |s.out.items| + |Waiting(s.wait)|
    && forall i :: |s.log| <= i < |t.log| ==> t.log[i].status == Errored
  }

  /** All that was outstanding is queued again: what waited first, in the opposite order, then what was
      queued, every one from its first byte. */
  predicate QueuedAgain(s: State, t: State) {
    var w := Waiting(s.wait);
    && t.log == s.log && Waiting(t.wait) == [] && |t.out.items| == |w| + |s.out.items|
    && (forall i :: 0 <= i < |w| ==> t.out.items[i] == w[|w| - 1 - i].(written := 0))
    && forall i :: 0 <= i < |s.out.items| ==> t.out.items[|w| + i] == s.out.items[i].(written := 0)
  }

  lemma {:induction false} CallsStatus(items: seq<Pdu>, status: Status)
    ensures forall i :: 0 <= i < |Calls(items, status)| ==> Calls(items, status)[i].status == status
  {
    if items != [] {
      CallsStatus(items[1..], status);
    }
  }

  lemma PurgeGivesUp(s: State, t: State)
    requires Shaped(t) && s.log == t.log && |s.out.items| + |Waiting(s.wait)| == |t.out.items| + |Waiting(t.wait)|
    ensures GaveUp(s, PurgeStep(t, Errored))
  {
    hide Calls, Waiting;
    WaitingEmptied(|t.wait|);
    CallsLength(t.out.items, Errored);
    CallsLength(Waiting(t.wait), Errored);
    CallsStatus(t.out.items, Errored);
    CallsStatus(Waiting(t.wait), Errored);
  }

  lemma RequeuedAgain(s: State)
    requires Shaped(s) && OnlyHeadWritten(s)
    ensures QueuedAgain(s, Requeued(s))
  {
    hide Reset, Waiting;
    var w := Waiting(s.wait);
    WaitingEmptied(|s.wait|);
    ResetNone(w);
    if w != [] {
      ResetAt(w, 0);
    }
    forall i | 0 <= i < |w| ensures Requeued(s).out.items[i] == w[|w| - 1 - i].(written := 0) {
      ResetAt(w, i);
    }
  }

  /** Without automatic reconnection a lost connection errors everything. With a setting of N, everything
      is errored exactly when N attempts have failed since a connection was last established, or when the
      new connection cannot be begun; otherwise everything is queued again and one more attempt is made.
      Without a limit only the latter counts. */
  lemma OutageExact(s: State, started: bool)
    requires Shaped(s) && OnlyHeadWritten(s) && (s.auto > 0 ==> Rationed(s))
    ensures var t := Next(s, Reconnect(started));
      if s.auto == 0 || !started || (s.auto > 0 && !s.connected && s.attempts == s.auto) then GaveUp(s, t)
      else QueuedAgain(s, t) && t.attempts == s.attempts + 1 && !t.connected
  {
    hide Calls, Waiting, Reset, GaveUp, Requeued;
    RequeuedAgain(s);
    RequeuedFields(s);
    var r := Requeued(s);
    PurgeGivesUp(s, s);
    PurgeGivesUp(s, r);
    PurgeGivesUp(s, r.(retries := r.retries - 1, attempts := r.attempts + 1));
  }

  lemma RequeuedFields(s: State)
    requires Shaped(s)
    ensures var r := Requeued(s);
      && Shaped(r) && r.auto == s.auto && r.attempts == s.attempts && !r.connected
      && r.retries == if s.connected then s.auto else s.retries
  {
  }
}
