/** One `nfs3_pwrite` call: the buffer is cut into chunks sent in parallel, short
    writes are continued, and the caller is told once. */
module SplitWrite {
  import opened Bytes
  import opened Prelude
  import opened Chunks
  import opened PageCache

  datatype Answer = RpcError | Cancelled | TimedOut | NfsError | Written(count: nat)

  /** A byte of the file outside the request: as it was, or zero where the file had ended. */
  function Before(file0: seq<byte>, pos: nat): byte {
    if pos < |file0| then file0[pos] else 0
  }

  /** The file while the write is under way: outside the request it is as before, and every byte of
      the request is in flight or at its own offset. */
  predicate Landed(file0: seq<byte>, file: seq<byte>, offset: nat, buf: seq<byte>, pending: seq<Chunk>) {
    && |file0| <= |file| <= Max(|file0|, offset + |buf|)
    && (forall pos :: 0 <= pos < |file| && !(offset <= pos < offset + |buf|) ==> file[pos] == Before(file0, pos))
    && (forall pos :: offset <= pos < offset + |buf| && !InFlight(pending, pos) ==>
          pos < |file| && file[pos] == buf[pos - offset])
  }

  /** What the server does with the first `n` bytes of a chunk. */
  function Applied(file: seq<byte>, offset: nat, buf: seq<byte>, c: Chunk, n: nat): seq<byte>
    requires offset <= c.offset && c.offset + n <= offset + |buf|
  {
    if n == 0 then file else Overwrite(file, c.offset, buf[c.offset - offset..c.offset - offset + n])
  }

  /** At the start everything is in flight. */
  lemma NothingLanded(file0: seq<byte>, offset: nat, buf: seq<byte>, pending: seq<Chunk>)
    requires forall pos :: offset <= pos < offset + |buf| ==> InFlight(pending, pos)
    ensures Landed(file0, file0, offset, buf, pending)
  {
    hide InFlight;
  }

  lemma NothingApplied(file: seq<byte>, offset: nat, buf: seq<byte>, c: Chunk, n: nat)
    requires offset <= c.offset && c.offset + n <= offset + |buf|
    ensures buf == [] ==> Applied(file, offset, buf, c, n) == file
  {
  }

  lemma LandedPiece(file0: seq<byte>, file: seq<byte>, offset: nat, buf: seq<byte>, pending: seq<Chunk>, i: nat, n: nat,
                    p: seq<Chunk>)
    requires Landed(file0, file, offset, buf, pending) && Disjoint(pending) && Inside(pending, offset, offset + |buf|)
    requires i < |pending| && n <= pending[i].count
    requires p == pending[i := Rest(pending[i], n)] || (p == Without(pending, i) && n == pending[i].count)
    ensures Landed(file0, Applied(file, offset, buf, pending[i], n), offset, buf, p)
  {
    hide InFlight, Overwrite, Without;
    var c := pending[i];
    var f := Applied(file, offset, buf, c, n);
    var d := buf[c.offset - offset..c.offset - offset + n];
    forall pos | 0 <= pos < |f|
      ensures f[pos] == if c.offset <= pos < c.offset + n then buf[pos - offset] else Before(file, pos)
    {
      if n > 0 {
        OverwriteAt(file, c.offset, d, pos);
        if c.offset <= pos < c.offset + n {
          assert d[pos - c.offset] == buf[pos - offset];
        }
      }
    }
    forall pos | offset <= pos < offset + |buf| && !InFlight(p, pos) ensures pos < |f| && f[pos] == buf[pos - offset] {
      if p == pending[i := Rest(c, n)] {
        ReissuedFlight(pending, i, n, pos);
      } else {
        RemovedFlight(pending, i, pos);
      }
    }
  }

  /** When nothing is in flight the file is the old one with the whole buffer written. */
  lemma LandedAll(file0: seq<byte>, file: seq<byte>, offset: nat, buf: seq<byte>)
    requires Landed(file0, file, offset, buf, []) && buf != []
    ensures file == Overwrite(file0, offset, buf)
  {
    hide Overwrite;
    var g := Overwrite(file0, offset, buf);
    var last := offset + |buf| - 1;
    assert !InFlight([], last);
    assert |file| == |g|;
    forall pos | 0 <= pos < |file| ensures file[pos] == g[pos] {
      OverwriteAt(file0, offset, buf, pos);
      assert !InFlight([], pos);
    }
  }

  /** Some chunk in flight runs to the end of the request. */
  predicate EndInFlight(pending: seq<Chunk>, end: nat) {
    exists i :: 0 <= i < |pending| && RunsTo(pending[i], end)
  }

  predicate RunsTo(c: Chunk, end: nat) {
    c.count > 0 && c.offset + c.count == end
  }

  /** The last chunk of a request runs to its end. */
  lemma {:induction false} CutsEnd(at: nat, left: nat, max: nat)
    requires max > 0 && left > 0
    ensures EndInFlight(Cuts(at, left, max), at + left)
    decreases left
  {
    var n := Min(left, max);
    var r := Cuts(at, left, max);
    if left == n {
      assert RunsTo(r[0], at + left);
    } else {
      CutsEnd(at + n, left - n, max);
      var s := Cuts(at + n, left - n, max);
      var i :| 0 <= i < |s| && RunsTo(s[i], at + left);
      assert r[i + 1] == s[i];
    }
  }

  lemma EndKept(pending: seq<Chunk>, i: nat, n: nat, end: nat)
    requires i < |pending| && n <= pending[i].count && EndInFlight(pending, end)
    ensures n < pending[i].count ==> EndInFlight(pending[i := Rest(pending[i], n)], end)
    ensures !RunsTo(pending[i], end) ==> EndInFlight(Without(pending, i), end)
  {
    var k :| 0 <= k < |pending| && RunsTo(pending[k], end);
    var r := pending[i := Rest(pending[i], n)];
    assert n < pending[i].count ==> RunsTo(r[k], end);
    if k != i {
      var w := Without(pending, i);
      assert w[if k < i then k else k - 1] == pending[k];
    }
  }

  /** What an answer to `n` bytes of chunk `i` keeps of the file and of the end that will be reported. */
  lemma AnswerKeeps(file0: seq<byte>, file: seq<byte>, offset: nat, buf: seq<byte>, pending: seq<Chunk>, i: nat, n: nat,
                    p: seq<Chunk>, max: nat)
    requires Landed(file0, file, offset, buf, pending) && Disjoint(pending) && Inside(pending, offset, offset + |buf|)
    requires i < |pending| && n <= pending[i].count
    requires p == (if n < pending[i].count then pending[i := Rest(pending[i], n)] else Without(pending, i))
    requires max <= offset + |buf| && (max == offset + |buf| || EndInFlight(pending, offset + |buf|))
    ensures Landed(file0, Applied(file, offset, buf, pending[i], n), offset, buf, p)
    ensures buf == [] ==> Applied(file, offset, buf, pending[i], n) == file
    ensures var end := if n < pending[i].count || n == 0 then max else Max(max, pending[i].offset + n);
      end <= offset + |buf| && (end == offset + |buf| || EndInFlight(p, offset + |buf|))
  {
    NothingApplied(file, offset, buf, pending[i], n);
    hide Disjoint, Landed, EndInFlight, Applied, Without;
    LandedPiece(file0, file, offset, buf, pending, i, n, p);
    if max != offset + |buf| {
      EndKept(pending, i, n, offset + |buf|);
    }
  }

  /** A short write is continued. */
  predicate Continues(c: Chunk, a: Answer, sent: bool) {
    a.Written? && 0 < a.count < c.count && sent
  }

  predicate Usable(c: Chunk, a: Answer, sent: bool) {
    a.Written? && (a.count >= c.count || Continues(c, a, sent))
  }

  /** Answers that are errors: of the transport, of the server, or nothing written of something. */
  predicate Fails(c: Chunk, a: Answer) {
    a.RpcError? || a.NfsError? || (a.Written? && a.count == 0 && c.count > 0)
  }

  /** Answers that say the request was given up. */
  predicate Cancels(a: Answer) {
    a.Cancelled? || a.TimedOut?
  }

  /** A short write that could not be continued. */
  predicate Starves(c: Chunk, a: Answer, sent: bool) {
    a.Written? && 0 < a.count < c.count && !sent
  }

  function Raised(f: Flags, c: Chunk, a: Answer, sent: bool): Flags {
    Flags(f.error || Fails(c, a), f.cancel || Cancels(a), f.oom || Starves(c, a, sent))
  }

  /** A server never claims more than it was sent. */
  predicate Honest(c: Chunk, a: Answer) {
    a.Written? ==> a.count <= c.count
  }

  /** The shared state of one split write (`nfs_cb_data`); `file` is the server's copy. */
  class WriteOp {
    const offset: nat
    const buf: seq<byte>
    var maxOffset: nat
    var numCalls: nat
    var error: bool
    var cancel: bool
    var oom: bool
    var pending: seq<Chunk>
    var callbacks: nat
    var result: int
    ghost const file0: seq<byte>
    ghost var file: seq<byte>
    ghost var honest: bool

    predicate Clean()
      reads this
    {
      !error && !cancel && !oom
    }

    function Flagged(): Flags
      reads this
    {
      Flags(error, cancel, oom)
    }

    ghost predicate Placed()
      reads this
    {
      Disjoint(pending) && Inside(pending, offset, offset + |buf|)
    }

    ghost predicate Sound()
      reads this
    {
      Clean() && honest ==>
        && Landed(file0, file, offset, buf, pending) && (buf == [] ==> file == file0)
        && offset <= maxOffset <= offset + |buf|
        && (maxOffset == offset + |buf| || EndInFlight(pending, offset + |buf|))
    }

    ghost predicate Valid()
      reads this
    {
      Placed() && Sound() && numCalls == |pending| && pending != [] && callbacks == 0
    }

    constructor (offset: nat, buf: seq<byte>, ghost file: seq<byte>)
      ensures this.offset == offset && this.buf == buf && file0 == file && this.file == file
      ensures pending == [] && numCalls == 0 && callbacks == 0 && Clean() && honest && maxOffset == offset
    {
      this.offset, this.buf, maxOffset := offset, buf, offset;
      numCalls, pending, callbacks, result := 0, [], 0, 0;
      error, cancel, oom, honest := false, false, false, true;
      this.file0, this.file := file, file;
    }

    /** `nfs3_pwrite_async_internal`: chunks of at most `writemax`, all sent at once. */
    method Issue(writemax: nat, sent: nat -> bool) returns (r: int)
      requires writemax > 0 && pending == [] && numCalls == 0 && callbacks == 0 && Clean() && honest
      requires maxOffset == offset && file == file0
      modifies `pending, `numCalls, `oom
      ensures r == 0 || r == -1
      ensures r == -1 <==> !sent(0)
      ensures r == -1 ==> pending == []
      ensures r == 0 ==> Valid() && honest && !error && !cancel && (oom ==> exists k :: !sent(k))
      ensures AtMost(pending, writemax)
      ensures r == 0 && !oom ==> forall pos :: offset <= pos < offset + |buf| ==> InFlight(pending, pos)
      ensures r == 0 ==> pending <= Cuts(offset, |buf|, writemax) && forall k :: 0 <= k < |pending| ==> sent(k)
      ensures r == 0 ==> if oom then !sent(|pending|) else pending == Cuts(offset, |buf|, writemax)
    {
      hide Disjoint, Inside, InFlight, Landed, EndInFlight, Cuts;
      var all;
      pending, all := SendAll(offset, |buf|, writemax, sent);
      numCalls := |pending|;
      if numCalls == 0 {
        return -1;
      }
      oom := !all;
      SentPlaced(pending, offset, |buf|, writemax);
      if buf != [] {
        CutsEnd(offset, |buf|, writemax);
      }
      if all {
        NothingLanded(file0, offset, buf, pending);
      }
      r := 0;
    }

    /** Tells the caller. */
    method Finish()
      requires pending == [] && callbacks == 0 && Sound()
      modifies `callbacks, `result
      ensures callbacks == 1
      ensures !Clean() ==> result == Flagged().Code()
      ensures Clean() && honest ==> Done()
    {
      callbacks := callbacks + 1;
      if oom {
        result := ENOMEM;
      } else if error {
        result := EFAULT;
      } else if cancel {
        result := EINTR;
      } else {
        if honest && buf != [] {
          LandedAll(file0, file, offset, buf);
        }
        result := maxOffset - offset;
      }
    }

    /** An error-free write reports every byte, and the server has each at its own offset. */
    ghost predicate Done()
      reads this
    {
      maxOffset == offset + |buf| && result == |buf| &&
      file == if buf == [] then file0 else Overwrite(file0, offset, buf)
    }

    /** The flags and counters after an answer to chunk `i`; the server has done its part. */
    method Absorb(i: nat, a: Answer, sent: bool) returns (again: bool)
      requires Placed() && Sound() && i < |pending|
      modifies `maxOffset, `error, `cancel, `oom, `honest, `file
      ensures again <==> Continues(pending[i], a, sent)
      ensures honest == (old(honest) && Honest(pending[i], a))
      ensures Clean() <==> old(Clean()) && Usable(pending[i], a, sent)
      ensures Flagged() == Raised(old(Flagged()), pending[i], a, sent)
      ensures a.Written? && a.count <= pending[i].count ==> file == Applied(old(file), offset, buf, pending[i], a.count)
      ensures again ==> maxOffset == old(maxOffset)
      ensures Clean() && honest && !again ==>
        maxOffset ==
          if pending[i].count == 0 then old(maxOffset) else Max(old(maxOffset), pending[i].offset + pending[i].count)
    {
      var c := pending[i];
      var at := c.offset;
      honest := honest && Honest(c, a);
      again := false;
      match a {
        case RpcError => error := true;
        case Cancelled => cancel := true;
        case TimedOut => cancel := true;
        case NfsError => error := true;
        case Written(n) =>
          if n <= c.count {
            file := Applied(file, offset, buf, c, n);
          }
          if n < c.count {
            if n == 0 {
              error := true;
            } else if sent {
              again := true;
              return;
            } else {
              at, oom := at + n, true;
            }
          }
          if n > 0 && maxOffset < at + n {
            maxOffset := at + n;
          }
      }
    }

    /** `nfs3_pwrite_mcb`: the answer to chunk `i`. */
    method OnAnswer(i: nat, a: Answer, sent: bool)
      requires Valid() && i < |pending|
      modifies this
      ensures if pending != [] then Valid() else callbacks == 1
      ensures honest == (old(honest) && Honest(old(pending)[i], a))
      ensures Clean() <==> old(Clean()) && Usable(old(pending)[i], a, sent)
      ensures Flagged() == Raised(old(Flagged()), old(pending)[i], a, sent)
      ensures pending == if Continues(old(pending)[i], a, sent)
        then old(pending)[i := Rest(old(pending)[i], a.count)] else Without(old(pending), i)
      ensures pending == [] && Clean() && honest ==> Done()
      ensures pending == [] && !Clean() ==> result == Flagged().Code()
    {
      hide Disjoint, Inside, Landed, EndInFlight, Applied, Without, Raised;
      RemovedChunk(pending, i, offset, offset + |buf|);
      numCalls := numCalls - 1;
      ghost var f, max := file, maxOffset;
      var again := Absorb(i, a, sent);
      var p := if again then pending[i := Rest(pending[i], a.count)] else Without(pending, i);
      if again {
        ReissuedChunk(pending, i, a.count, offset, offset + |buf|);
      }
      if Clean() && honest {
        AnswerKeeps(file0, f, offset, buf, pending, i, a.count, p, max);
      }
      pending := p;
      if again {
        numCalls := numCalls + 1;
        return;
      }
      if numCalls > 0 {
        return;
      }
      Finish();
    }
  }

  /** One thing that happens to a write in flight: the chunk answered, the answer, and whether a
      continuation could be sent. */
  datatype Event = Event(chunk: nat, answer: Answer, sent: bool)

  /** What is known of a write between answers. */
  datatype Flight = Flight(pending: seq<Chunk>, flags: Flags, honest: bool)

  /** One event: the chunk is finished or continued. Nothing happens for a chunk that is not there. */
  function Heard(s: Flight, e: Event): Flight {
    if e.chunk >= |s.pending| then s else
      var c := s.pending[e.chunk];
      Flight(if Continues(c, e.answer, e.sent) then s.pending[e.chunk := Rest(c, e.answer.count)]
             else Without(s.pending, e.chunk),
             Raised(s.flags, c, e.answer, e.sent), s.honest && Honest(c, e.answer))
  }

  function HeardAll(s: Flight, events: seq<Event>): Flight
    decreases |events|
  {
    if events == [] then s else HeardAll(Heard(s, events[0]), events[1..])
  }

  /** Every event is for a chunk in flight, as long as there is one. */
  predicate Directed(s: Flight, events: seq<Event>)
    decreases |events|
  {
    events == [] || s.pending == [] ||
    (events[0].chunk < |s.pending| && Directed(Heard(s, events[0]), events[1..]))
  }

  lemma {:induction false} NoneHeard(s: Flight, events: seq<Event>)
    requires s.pending == []
    ensures HeardAll(s, events) == s
    decreases |events|
  {
    if events != [] {
      NoneHeard(s, events[1..]);
    }
  }

  /** A write ends: each answer finishes a chunk or takes at least one byte of it. */
  lemma {:induction false} WriteEnds(s: Flight, events: seq<Event>)
    requires Directed(s, events) && |events| >= Weight(s.pending)
    ensures HeardAll(s, events).pending == []
    decreases |events|
  {
    hide Without, Weight;
    WeightIs(s.pending);
    if s.pending == [] {
      NoneHeard(s, events);
    } else {
      var e := events[0];
      if Continues(s.pending[e.chunk], e.answer, e.sent) {
        ReissuedWeight(s.pending, e.chunk, e.answer.count);
      } else {
        RemovedWeight(s.pending, e.chunk);
      }
      WriteEnds(Heard(s, e), events[1..]);
    }
  }

  /** What event `i` raises: nothing when its chunk is not in flight by then. */
  function RaisedAt(s: Flight, events: seq<Event>, i: nat): Flags
    requires i < |events|
  {
    var (pending, e) := (HeardAll(s, events[..i]).pending, events[i]);
    if e.chunk < |pending| then Raised(CLEAR, pending[e.chunk], e.answer, e.sent) else CLEAR
  }

  /** A flag is up at the end exactly when it was at the start or some answer raised it; of those that are
      up, lack of memory is reported before an error, and an error before a cancellation. */
  lemma {:induction false} FlagsExact(s: Flight, events: seq<Event>)
    ensures var f := HeardAll(s, events).flags;
      && (f.error <==> s.flags.error || exists i: nat :: i < |events| && RaisedAt(s, events, i).error)
      && (f.cancel <==> s.flags.cancel || exists i: nat :: i < |events| && RaisedAt(s, events, i).cancel)
      && (f.oom <==> s.flags.oom || exists i: nat :: i < |events| && RaisedAt(s, events, i).oom)
      && (!f.Clear() ==> f.Code() == if f.oom then -12 else if f.error then -14 else -4)
    decreases |events|
  {
    hide Fails, Cancels, Starves, Without, Continues;
    if events != [] {
      var t, rest := Heard(s, events[0]), events[1..];
      FlagsExact(t, rest);
      forall i: nat | i < |rest| ensures RaisedAt(s, events, i + 1) == RaisedAt(t, rest, i) {
        assert events[..i + 1][1..] == rest[..i] && events[i + 1] == rest[i];
      }
      assert events[..0] == [];
      Witnessed(s, events);
    }
  }

  /** The first event or a later one. */
  lemma Witnessed(s: Flight, events: seq<Event>)
    requires events != []
    requires forall i: nat :: i + 1 < |events| ==>
      RaisedAt(s, events, i + 1) == RaisedAt(Heard(s, events[0]), events[1..], i)
    ensures var (t, rest) := (Heard(s, events[0]), events[1..]);
      && ((exists i: nat :: i < |events| && RaisedAt(s, events, i).error) <==>
          RaisedAt(s, events, 0).error || exists i: nat :: i < |rest| && RaisedAt(t, rest, i).error)
      && ((exists i: nat :: i < |events| && RaisedAt(s, events, i).cancel) <==>
          RaisedAt(s, events, 0).cancel || exists i: nat :: i < |rest| && RaisedAt(t, rest, i).cancel)
      && ((exists i: nat :: i < |events| && RaisedAt(s, events, i).oom) <==>
          RaisedAt(s, events, 0).oom || exists i: nat :: i < |rest| && RaisedAt(t, rest, i).oom)
  {
    hide RaisedAt;
    var (t, rest) := (Heard(s, events[0]), events[1..]);
    forall i: nat | i < |events| && i > 0 ensures RaisedAt(s, events, i) == RaisedAt(t, rest, i - 1) {
      assert RaisedAt(s, events, (i - 1) + 1) == RaisedAt(t, rest, i - 1);
    }
    forall i: nat | i < |rest| ensures RaisedAt(s, events, i + 1) == RaisedAt(t, rest, i) {
    }
  }

  /** Any answers in any order: what is in flight, what has gone wrong and whether it was honest is
      what the events say; one callback, when the last chunk is done, and after clean and honest
      answers every byte of the buffer reported and on the server. */
  method Answered(op: WriteOp, events: seq<Event>) returns (done: bool)
    requires op.Valid()
    modifies op
    ensures Flight(op.pending, op.Flagged(), op.honest) ==
      HeardAll(Flight(old(op.pending), old(op.Flagged()), old(op.honest)), events)
    ensures done <==> op.pending == []
    ensures !done ==> op.Valid()
    ensures done ==> op.callbacks == 1
    ensures done && op.Clean() && op.honest ==> op.Done()
    ensures done && !op.Clean() ==> op.result == op.Flagged().Code()
  {
    hide Usable, Honest, Without, Raised;
    var k := 0;
    ghost var start := Flight(op.pending, op.Flagged(), op.honest);
    assert events[0..] == events;
    while k < |events| && op.pending != []
      invariant k <= |events| && (op.pending != [] ==> op.Valid())
      invariant op.pending == [] ==> op.callbacks == 1 && (op.Clean() && op.honest ==> op.Done())
      invariant op.pending == [] && !op.Clean() ==>
        op.result == op.Flagged().Code()
      invariant HeardAll(start, events) == HeardAll(Flight(op.pending, op.Flagged(), op.honest), events[k..])
      decreases |events| - k
    {
      var e := events[k];
      assert events[k..][1..] == events[k + 1..];
      if e.chunk < |op.pending| {
        op.OnAnswer(e.chunk, e.answer, e.sent);
      }
      k := k + 1;
    }
    done := op.pending == [];
    if done {
      NoneHeard(Flight(op.pending, op.Flagged(), op.honest), events[k..]);
    }
  }

  /** A write of five bytes in one chunk, answered once: what the caller is told of each failure. */
  method OneAnswer(buf: seq<byte>, a: Answer, sent: bool) returns (result: int)
    requires |buf| == 5
    ensures a.RpcError? || a.NfsError? || a == Written(0) ==> result == -14
    ensures a.Cancelled? || a.TimedOut? ==> result == -4
    ensures a.Written? && 0 < a.count < 5 && !sent ==> result == -12
  {
    hide Honest, Disjoint, Inside, AtMost, InFlight, Landed, EndInFlight;
    var op := new WriteOp(0, buf, []);
    var r := op.Issue(5, k => true);
    OneCut(0, 5, 5, op.pending);
    op.OnAnswer(0, a, sent);
    result := op.result;
  }
}
