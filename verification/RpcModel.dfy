/** The client side of the RPC transport over TCP as a state machine: PDUs move
    between the out-queue, the hashed wait queues and their callback. */
module RpcModel {
  import opened Prelude

  const HASHES: nat := 1024

  datatype Pdu = Pdu(id: nat, xid: nat, size: nat, written: nat, timeout: nat)

  /** A singly linked queue: what is reachable from `head`, and the PDU that
      `tail` points at, which need not be reachable. */
  datatype Queue = Queue(items: seq<Pdu>, tail: Option<nat>)

  const EMPTY := Queue([], None)

  datatype Status = Replied(code: int) | TimedOut | Errored | Cancelled

  datatype Callback = Callback(id: nat, status: Status)

  datatype State = State(
    out: Queue,
    wait: seq<Queue>,
    waitLen: nat,          // waitpdu_len, a 32-bit counter
    nextXid: nat,
    submitted: nat,        // PDUs handed to the transport so far; their ids are 0, 1, ...
    log: seq<Callback>,    // callbacks made, in order
    connected: bool,
    retries: int,          // num_retries
    auto: int,             // auto_reconnect: 0 off, negative without end
    attempts: nat)         // connection attempts since the last established connection

  datatype Step =
    | Submit(size: nat, timeout: nat)
    | Send(count: nat)
    | Reply(xid: nat, code: int)
    | Timeout(now: nat)
    | Reconnect(started: bool)
    | Established
    | Purge(status: Status)

  // ---- queue operations ----

  predicate TailRight(q: Queue) {
    q.tail == if q.items == [] then None else Some(q.items[|q.items| - 1].id)
  }

  /** Pushing behind `tail`: when `tail` is not the last reachable PDU the new one is out of reach. */
  function Enqueue(q: Queue, p: Pdu): Queue {
    if q.items == [] then Queue([p], Some(p.id))
    else if TailRight(q) then Queue(q.items + [p], Some(p.id))
    else Queue(q.items, Some(p.id))
  }

  function PushFront(q: Queue, p: Pdu): Queue {
    Queue([p] + q.items, if q.tail == None then Some(p.id) else q.tail)
  }

  /** First place of `xid`, or the length. */
  function Find(items: seq<Pdu>, xid: nat): nat {
    if items == [] || items[0].xid == xid then 0 else 1 + Find(items[1..], xid)
  }

  function Unlink(q: Queue, k: nat): Queue
    requires k < |q.items|
  {
    Queue(q.items[..k] + q.items[k + 1..],
          if q.tail == Some(q.items[k].id) then (if k == 0 then None else Some(q.items[k - 1].id)) else q.tail)
  }

  predicate Expired(timeout: nat, now: nat) {
    timeout != 0 && timeout <= now
  }

  function Keep(items: seq<Pdu>, now: nat, expired: bool): seq<Pdu> {
    if items == [] then []
    else if Expired(items[0].timeout, now) == expired then [items[0]] + Keep(items[1..], now, expired)
    else Keep(items[1..], now, expired)
  }

  /** The scan repairs `tail` only when it empties the queue. */
  function Scan(q: Queue, now: nat): Queue {
    var kept := Keep(q.items, now, false);
    Queue(kept, if q.items != [] && kept == [] then None else q.tail)
  }

  function Calls(items: seq<Pdu>, status: Status): seq<Callback> {
    if items == [] then [] else [Callback(items[0].id, status)] + Calls(items[1..], status)
  }

  function Reset(items: seq<Pdu>): seq<Pdu> {
    if items == [] then [] else Reset(items[1..]) + [items[0].(written := 0)]
  }

  function Hash(xid: nat): (h: nat)
    ensures h < HASHES
  {
    (xid * 7919 % WORD) % HASHES
  }

  // ---- operations over all wait queues, in bucket order ----

  function Waiting(wait: seq<Queue>): seq<Pdu> {
    if wait == [] then [] else wait[0].items + Waiting(wait[1..])
  }

  function ScanAll(wait: seq<Queue>, now: nat): (r: seq<Queue>)
    ensures |r| == |wait|
  {
    if wait == [] then [] else [Scan(wait[0], now)] + ScanAll(wait[1..], now)
  }

  function Emptied(n: nat): (r: seq<Queue>)
    ensures |r| == n
  {
    seq(n, i => EMPTY)
  }

  // ---- steps ----

  predicate Shaped(s: State) {
    |s.wait| == HASHES
  }

  predicate Enabled(s: State, step: Step) {
    match step
    case Send(count) => s.out.items != [] && s.out.items[0].written + count <= s.out.items[0].size
    case Established => !s.connected
    case _ => true
  }

  function SubmitStep(s: State, size: nat, timeout: nat): State {
    s.(out := Enqueue(s.out, Pdu(s.submitted, s.nextXid, size, 0, timeout)),
       nextXid := (s.nextXid + 1) % WORD, submitted := s.submitted + 1)
  }

  function SendStep(s: State, count: nat): State
    requires Shaped(s) && Enabled(s, Send(count))
  {
    var p := s.out.items[0].(written := s.out.items[0].written + count);
    if p.written < p.size then s.(out := s.out.(items := [p] + s.out.items[1..]))
    else
      var h := Hash(p.xid);
      s.(out := Queue(s.out.items[1..], if |s.out.items| == 1 then None else s.out.tail),
         wait := s.wait[h := Enqueue(s.wait[h], p)], waitLen := (s.waitLen + 1) % WORD)
  }

  function ReplyStep(s: State, xid: nat, code: int): State
    requires Shaped(s)
  {
    var q := s.wait[Hash(xid)];
    var k := Find(q.items, xid);
    if k >= |q.items| then s
    else s.(wait := s.wait[Hash(xid) := Unlink(q, k)], waitLen := (s.waitLen + WORD - 1) % WORD,
            log := s.log + [Callback(q.items[k].id, Replied(code))])
  }

  function TimeoutStep(s: State, now: nat): State {
    s.(out := Scan(s.out, now), wait := ScanAll(s.wait, now),
       log := s.log + Calls(Keep(s.out.items, now, true), TimedOut) + Calls(Keep(Waiting(s.wait), now, true), TimedOut))
  }

  /** `waitpdu_len` is left as it is. */
  function PurgeStep(s: State, status: Status): State {
    s.(out := EMPTY, wait := Emptied(|s.wait|),
       log := s.log + Calls(s.out.items, status) + Calls(Waiting(s.wait), status))
  }

  /** In-flight PDUs go back in front of the out-queue, the last one first. */
  function Requeued(s: State): State {
    var head := if s.out.items == [] then [] else [s.out.items[0].(written := 0)] + s.out.items[1..];
    var back := Reset(Waiting(s.wait));
    s.(out := Queue(back + head, if s.out.tail == None && back != [] then Some(back[|back| - 1].id) else s.out.tail),
       wait := Emptied(|s.wait|), waitLen := 0,
       connected := false, retries := if s.connected then s.auto else s.retries)
  }

  function ReconnectStep(s: State, started: bool): State {
    if s.auto == 0 then PurgeStep(s, Errored)
    else
      var r := Requeued(s);
      if r.auto < 0 || r.retries > 0 then
        var t := r.(retries := r.retries - 1, attempts := r.attempts + 1);
        if started then t else PurgeStep(t, Errored)
      else PurgeStep(r, Errored)
  }

  function Next(s: State, step: Step): (r: State)
    requires Shaped(s) && Enabled(s, step)
    ensures Shaped(r)
  {
    match step
    case Submit(size, timeout) => SubmitStep(s, size, timeout)
    case Send(count) => SendStep(s, count)
    case Reply(xid, code) => ReplyStep(s, xid, code)
    case Timeout(now) => TimeoutStep(s, now)
    case Reconnect(started) => ReconnectStep(s, started)
    case Established => s.(connected := true, attempts := 0)
    case Purge(status) => PurgeStep(s, status)
  }

  predicate Initial(s: State) {
    && s.out == EMPTY && s.wait == Emptied(HASHES) && s.waitLen == 0 && s.nextXid < WORD
    && s.submitted == 0 && s.log == [] && !s.connected && s.retries == 0 && s.attempts == 0
  }
}
