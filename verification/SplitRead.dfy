/** One `nfs3_pread` call: a request cut into chunks that are answered in any
    order, with short answers asked for again, put together in one buffer. */
module SplitRead {
  import opened Bytes
  import opened Prelude
  import opened Chunks
  import opened PageCache

  datatype Answer = RpcError | Cancelled | TimedOut | NfsError | Data(bytes: seq<byte>, eof: bool)

  /** What section 3.3.6 of RFC 1813 lets a server answer for a file that does not change meanwhile. */
  predicate Honest(file: seq<byte>, c: Chunk, a: Answer) {
    a.Data? ==>
      && |a.bytes| <= c.count
      && (a.bytes != [] ==> c.offset + |a.bytes| <= |file| && a.bytes == file[c.offset..c.offset + |a.bytes|])
      && (a.eof ==> c.offset + |a.bytes| >= |file|)
  }

  /** Where the received bytes end once nothing is in flight: `max_offset`, which starts at the
      aligned start of the request and not at the first byte asked of the server. */
  function ReachedEnd(file: seq<byte>, offset: nat, wireStart: nat, end: nat): nat {
    if |file| > wireStart then Min(|file|, end) else offset
  }

  /** Every byte of the request that the file has is in flight, or in the buffer and, if it came
      over the wire, below `max`. */
  predicate Filled(file: seq<byte>, offset: nat, wireStart: nat, buf: seq<byte>, pending: seq<Chunk>, max: nat) {
    forall pos :: offset <= pos < offset + |buf| && pos < |file| && !InFlight(pending, pos) ==>
      buf[pos - offset] == file[pos] && (pos >= wireStart ==> pos < max)
  }

  predicate Reached(file: seq<byte>, offset: nat, wireStart: nat, end: nat, max: nat) {
    max == offset || wireStart < max <= Min(|file|, end)
  }

  function Higher(max: nat, c: Chunk, n: nat): nat {
    if n > 0 && max < c.offset + n then c.offset + n else max
  }

  /** A short answer is stored and its chunk asked for again. */
  lemma StoredShort(file: seq<byte>, offset: nat, wireStart: nat, buf: seq<byte>, pending: seq<Chunk>, max: nat,
                    i: nat, bytes: seq<byte>, eof: bool)
    requires Filled(file, offset, wireStart, buf, pending, max) && Disjoint(pending)
    requires wireStart >= offset && Inside(pending, wireStart, offset + |buf|) && i < |pending|
    requires Honest(file, pending[i], Data(bytes, eof))
    ensures var c := pending[i]; Filled(file, offset, wireStart, Splice(buf, c.offset - offset, bytes),
      pending[i := Rest(c, |bytes|)], Higher(max, c, |bytes|))
  {
    hide InFlight, Splice;
    var c, n := pending[i], |bytes|;
    var b, p, m := Splice(buf, c.offset - offset, bytes), pending[i := Rest(c, n)], Higher(max, c, n);
    forall pos | offset <= pos < offset + |b| && pos < |file| && !InFlight(p, pos)
      ensures b[pos - offset] == file[pos] && (pos >= wireStart ==> pos < m)
    {
      ReissuedFlight(pending, i, n, pos);
      SpliceAt(buf, c.offset - offset, bytes, pos - offset);
      if c.offset <= pos < c.offset + n {
        assert file[c.offset..c.offset + n][pos - c.offset] == file[pos];
      }
    }
  }

  /** A full answer, or one at the end of the file, finishes its chunk. */
  lemma StoredLast(file: seq<byte>, offset: nat, wireStart: nat, buf: seq<byte>, pending: seq<Chunk>, max: nat,
                   i: nat, bytes: seq<byte>, eof: bool)
    requires Filled(file, offset, wireStart, buf, pending, max) && Disjoint(pending)
    requires wireStart >= offset && Inside(pending, wireStart, offset + |buf|) && i < |pending|
    requires Honest(file, pending[i], Data(bytes, eof)) && (|bytes| == pending[i].count || eof)
    ensures var c := pending[i]; Filled(file, offset, wireStart, Splice(buf, c.offset - offset, bytes),
      Without(pending, i), Higher(max, c, |bytes|))
  {
    hide InFlight, Without, Splice;
    var c, n := pending[i], |bytes|;
    var b, p, m := Splice(buf, c.offset - offset, bytes), Without(pending, i), Higher(max, c, n);
    forall pos | offset <= pos < offset + |b| && pos < |file| && !InFlight(p, pos)
      ensures b[pos - offset] == file[pos] && (pos >= wireStart ==> pos < m)
    {
      RemovedFlight(pending, i, pos);
      SpliceAt(buf, c.offset - offset, bytes, pos - offset);
      if c.offset <= pos < c.offset + n {
        assert file[c.offset..c.offset + n][pos - c.offset] == file[pos];
      }
    }
  }

  /** With nothing in flight `max_offset` is decided by the file alone. */
  lemma EndReached(file: seq<byte>, offset: nat, wireStart: nat, buf: seq<byte>, max: nat)
    requires Filled(file, offset, wireStart, buf, [], max)
    requires Reached(file, offset, wireStart, offset + |buf|, max)
    requires offset <= wireStart && (wireStart < offset + |buf| || (wireStart == offset && buf == []))
    ensures max == ReachedEnd(file, offset, wireStart, offset + |buf|)
  {
    if |file| > wireStart && wireStart < offset + |buf| {
      var pos := Min(|file|, offset + |buf|) - 1;
      assert !InFlight([], pos);
      assert buf[pos - offset] == file[pos];
    }
  }

  /** With the cached part in place and the rest asked for. */
  lemma Untouched(file: seq<byte>, offset: nat, wireStart: nat, buf: seq<byte>, pending: seq<Chunk>)
    requires forall pos :: offset <= pos < wireStart && pos < |file| && pos < offset + |buf| ==>
      buf[pos - offset] == file[pos]
    requires forall pos :: wireStart <= pos < offset + |buf| ==> InFlight(pending, pos)
    ensures Filled(file, offset, wireStart, buf, pending, offset)
  {
  }

  /** With nothing in flight any stretch of the buffer that the file covers is the file's. */
  lemma AllArrived(file: seq<byte>, offset: nat, wireStart: nat, buf: seq<byte>, max: nat, from: nat, to: nat)
    requires Filled(file, offset, wireStart, buf, [], max)
    requires offset <= from <= to <= Min(|file|, offset + |buf|)
    ensures buf[from - offset..to - offset] == file[from..to]
  {
    var w, f := buf[from - offset..to - offset], file[from..to];
    forall k | 0 <= k < |w| ensures w[k] == f[k] {
      assert !InFlight([], from + k);
      assert w[k] == buf[(from + k) - offset] && f[k] == file[from + k];
    }
  }

  lemma Slices(b: array<byte>, from: nat, to: nat)
    requires from <= to <= b.Length
    ensures b[from..][..to - from] == b[..][from..to] && b[..to] == b[..][0..to]
  {
  }

  /** What the caller is told and given. */
  function Told(reached: nat, orgOffset: nat, orgCount: nat): int {
    Min(reached, orgOffset + orgCount) - orgOffset
  }

  /** How many bytes a read of `count` at `offset` should bring. */
  function Due(file: seq<byte>, offset: nat, count: nat): nat {
    if |file| <= offset then 0 else Min(|file|, offset + count) - offset
  }

  /** The count reported is the count due exactly when the file reaches past the first byte asked
      of the server and to the offset asked for, or when nothing is due and the request began
      on the page boundary it was aligned to. */
  lemma ToldIsDue(file: seq<byte>, orgOffset: nat, orgCount: nat, offset: nat, wireStart: nat, end: nat)
    requires offset <= orgOffset && orgOffset + orgCount <= end && offset <= wireStart <= end
    requires offset < wireStart ==> wireStart <= |file|
    requires wireStart < orgOffset + orgCount || orgCount == 0
    ensures Told(ReachedEnd(file, offset, wireStart, end), orgOffset, orgCount) == Due(file, orgOffset, orgCount) <==>
      (if |file| > wireStart then |file| >= orgOffset else offset == orgOffset && Due(file, orgOffset, orgCount) == 0)
  {
  }

  lemma ReachedHigher(file: seq<byte>, offset: nat, wireStart: nat, end: nat, max: nat, c: Chunk, bytes: seq<byte>,
                      eof: bool)
    requires Reached(file, offset, wireStart, end, max) && Honest(file, c, Data(bytes, eof))
    requires wireStart <= c.offset && c.offset + c.count <= end
    ensures Reached(file, offset, wireStart, end, Higher(max, c, |bytes|))
  {
  }

  /** The first answer to a request that is one chunk and had no buffer. */
  lemma FirstFilled(file: seq<byte>, offset: nat, buf: seq<byte>, c: Chunk, bytes: seq<byte>, eof: bool, p: seq<Chunk>,
                    max: nat)
    requires c == Chunk(offset, |buf|) && Honest(file, c, Data(bytes, eof)) && buf[..|bytes|] == bytes
    requires max == Higher(offset, c, |bytes|)
    requires p == [c][0 := Rest(c, |bytes|)] || (p == Without([c], 0) && (|bytes| == c.count || eof))
    ensures Filled(file, offset, offset, buf, p, max)
  {
    forall pos | offset <= pos < offset + |buf| && pos < |file| && !InFlight(p, pos)
      ensures buf[pos - offset] == file[pos] && pos < max
    {
      if p == [c][0 := Rest(c, |bytes|)] {
        assert !In(p[0], pos);
      }
      assert buf[..|bytes|][pos - offset] == buf[pos - offset];
      assert file[offset..offset + |bytes|][pos - offset] == file[pos];
    }
  }

  /** A short answer that is not at the end of the file is asked for again. */
  predicate Repeats(c: Chunk, a: Answer, sent: bool) {
    a.Data? && 0 < |a.bytes| < c.count && !a.eof && sent
  }

  lemma RepeatsData(c: Chunk, a: Answer, sent: bool)
    requires Repeats(c, a, sent)
    ensures a.Data? && |a.bytes| <= c.count
  {
  }

  /** Answers that do not fail the read. */
  predicate Usable(c: Chunk, a: Answer, sent: bool) {
    a.Data? && (|a.bytes| == c.count || (|a.bytes| < c.count && a.eof) || Repeats(c, a, sent))
  }

  /** Answers that are errors: of the transport, of the server, too long, or short of everything before the
      end of the file. */
  predicate Fails(c: Chunk, a: Answer) {
    || a.RpcError? || a.NfsError?
    || (a.Data? && (|a.bytes| > c.count || (a.bytes == [] && c.count > 0 && !a.eof)))
  }

  /** Answers that say the request was given up. */
  predicate Cancels(a: Answer) {
    a.Cancelled? || a.TimedOut?
  }

  /** A short answer whose rest could not be asked for. */
  predicate Starves(c: Chunk, a: Answer, sent: bool) {
    a.Data? && 0 < |a.bytes| < c.count && !a.eof && !sent
  }

  function Raised(f: Flags, c: Chunk, a: Answer, sent: bool): Flags {
    Flags(f.error || Fails(c, a), f.cancel || Cancels(a), f.oom || Starves(c, a, sent))
  }

  /** Storing an honest answer keeps the picture sound, whichever way its chunk goes on. */
  lemma StoredSound(file: seq<byte>, offset: nat, wireStart: nat, had: bool, old_buf: seq<byte>, buf: seq<byte>,
                    pending: seq<Chunk>, max: nat, i: nat, bytes: seq<byte>, eof: bool, p: seq<Chunk>)
    requires i < |pending| && Honest(file, pending[i], Data(bytes, eof)) && offset <= wireStart
    requires Disjoint(pending) && Inside(pending, wireStart, offset + |buf|)
    requires Reached(file, offset, wireStart, offset + |buf|, max)
    requires if had then
        |old_buf| == |buf| && Filled(file, offset, wireStart, old_buf, pending, max)
        && buf == Splice(old_buf, pending[i].offset - offset, bytes)
      else
        pending == [Chunk(offset, |buf|)] && wireStart == offset && max == offset && buf[..|bytes|] == bytes
    requires p == pending[i := Rest(pending[i], |bytes|)]
      || (p == Without(pending, i) && (|bytes| == pending[i].count || eof))
    ensures Reached(file, offset, wireStart, offset + |buf|, Higher(max, pending[i], |bytes|))
    ensures Filled(file, offset, wireStart, buf, p, Higher(max, pending[i], |bytes|))
  {
    hide Filled, Disjoint, Splice, Without, Higher, Reached;
    ReachedHigher(file, offset, wireStart, offset + |buf|, max, pending[i], bytes, eof);
    if !had {
      FirstFilled(file, offset, buf, pending[0], bytes, eof, p, Higher(max, pending[0], |bytes|));
    } else if p == pending[i := Rest(pending[i], |bytes|)] {
      StoredShort(file, offset, wireStart, old_buf, pending, max, i, bytes, eof);
    } else {
      StoredLast(file, offset, wireStart, old_buf, pending, max, i, bytes, eof);
    }
  }

  /** The shared state of one split read (`nfs_cb_data`). */
  class ReadOp {
    const orgOffset: nat
    const orgCount: nat
    const offset: nat                 // data->offset
    const count: nat                  // data->count
    var buffer: array?<byte>
    var maxOffset: nat
    var numCalls: nat
    var error: bool
    var cancel: bool
    var oom: bool
    var pending: seq<Chunk>           // the chunks in flight
    var callbacks: nat
    var result: int                   // what the callback was told,
    var given: seq<byte>              // and given from the requested offset on
    var stored: seq<byte>             // what went into the page cache at data->offset
    ghost const file: seq<byte>
    ghost const wireStart: nat        // the first byte asked of the server
    ghost var honest: bool            // every answer so far was honest

    predicate Clean()
      reads this
    {
      !error && !cancel && !oom
    }

    function Flagged(): Flags
      reads this
    {
      Flags(error, cancel, oom)
    }

    ghost predicate Placed()
      reads this
    {
      && offset <= orgOffset && orgOffset + orgCount <= offset + count
      && offset <= wireStart && (wireStart < offset + count || (wireStart == offset && count == 0))
      && Disjoint(pending) && Inside(pending, wireStart, offset + count)
    }

    /** Without a buffer nothing has arrived yet and the one chunk is the whole request. */
    ghost predicate Buffered()
      reads this
    {
      if buffer == null then pending == [Chunk(offset, count)] && wireStart == offset && maxOffset == offset
      else buffer.Length == count
    }

    ghost predicate Sound()
      reads this, buffer
    {
      Clean() && honest ==>
        && Reached(file, offset, wireStart, offset + count, maxOffset)
        && (buffer != null ==> Filled(file, offset, wireStart, buffer[..], pending, maxOffset))
    }

    /** In flight: the invariant between answers. */
    ghost predicate Valid()
      reads this, buffer
    {
      Placed() && Buffered() && Sound() && callbacks == 0 && numCalls == |pending| && pending != []
    }

    /** A read of `orgCount` bytes at `orgOffset`, widened to `count` bytes at `offset`, of which
        the bytes before `wireStart` are in `buffer` already. */
    constructor (ghost file: seq<byte>, orgOffset: nat, orgCount: nat, offset: nat, count: nat,
                 ghost wireStart: nat, buffer: array?<byte>)
      requires offset <= orgOffset && orgOffset + orgCount <= offset + count
      requires offset <= wireStart && (wireStart < offset + count || (wireStart == offset && count == 0))
      requires if buffer == null then wireStart == offset else buffer.Length == count
      ensures this.file == file && this.orgOffset == orgOffset && this.orgCount == orgCount
      ensures this.offset == offset && this.count == count && this.wireStart == wireStart && this.buffer == buffer
      ensures pending == [] && numCalls == 0 && callbacks == 0 && Clean() && honest && maxOffset == offset
      ensures Placed()
    {
      this.orgOffset, this.orgCount, this.offset, this.count := orgOffset, orgCount, offset, count;
      this.buffer, maxOffset, numCalls, pending, callbacks := buffer, offset, 0, [], 0;
      error, cancel, oom, honest := false, false, false, true;
      result, given, stored := 0, [], [];
      this.file, this.wireStart := file, wireStart;
    }

    /** Cuts what has to come over the wire into chunks of at most `readmax` and sends them; `sent`
        tells which READ calls could be sent. */
    method Issue(from: nat, readmax: nat, sent: nat -> bool) returns (r: int)
      requires Placed() && from == wireStart && readmax > 0 && pending == [] && numCalls == 0 && callbacks == 0
      requires Clean() && honest && maxOffset == offset
      requires if buffer == null then wireStart == offset && count <= readmax else buffer.Length == count
      requires buffer != null ==>
        forall pos :: offset <= pos < wireStart && pos < |file| ==> buffer[pos - offset] == file[pos]
      modifies `pending, `numCalls, `oom
      ensures r == 0 || r == -1
      ensures r == -1 <==> !sent(0)
      ensures r == -1 ==> pending == [] && callbacks == 0
      ensures r == 0 ==> Valid() && !error && !cancel && honest
      ensures r == 0 && (forall k :: sent(k)) ==> Clean()
      ensures AtMost(pending, readmax)
      ensures r == 0 && !oom ==> forall pos :: wireStart <= pos < offset + count ==> InFlight(pending, pos)
      ensures r == 0 ==>
        pending <= Cuts(from, offset + count - from, readmax) && forall k :: 0 <= k < |pending| ==> sent(k)
      ensures r == 0 ==> if oom then !sent(|pending|) else pending == Cuts(from, offset + count - from, readmax)
    {
      hide Disjoint, Inside, InFlight, AtMost, Cuts, Filled;
      var all;
      pending, all := SendAll(from, offset + count - from, readmax, sent);
      SentPlaced(pending, from, offset + count - from, readmax);
      numCalls := |pending|;
      if numCalls == 0 {
        return -1;
      }
      oom := !all;
      if buffer == null {
        OneCut(from, count, readmax, pending);
      } else if all {
        Untouched(file, offset, wireStart, buffer[..], pending);
      }
      r := 0;
    }

    /** The answer of chunk `i` is copied in, if it fits; `ok` is false when the server overflowed the request. */
    method Store(i: nat, bytes: seq<byte>) returns (ok: bool)
      requires Placed() && Buffered() && i < |pending|
      modifies `buffer, `maxOffset, `error, buffer
      ensures ok <==> |bytes| <= pending[i].count
      ensures !ok ==> error && maxOffset == old(maxOffset) && buffer == old(buffer)
      ensures ok ==> error == old(error) && buffer != null && buffer.Length == count
      ensures ok ==> maxOffset == Higher(old(maxOffset), pending[i], |bytes|)
      ensures ok && old(buffer) != null ==> buffer[..] == Splice(old(buffer[..]), pending[i].offset - offset, bytes)
      ensures ok && old(buffer) == null ==> buffer[..|bytes|] == bytes
      ensures buffer != old(buffer) ==> fresh(buffer)
    {
      var c, n := pending[i], |bytes|;
      ok := n <= c.count;
      if n > c.count {
        error := true;
        return;
      }
      if buffer == null {
        if n == count {
          buffer := new byte[n](k requires 0 <= k < n => bytes[k]);
        } else {
          buffer := new byte[c.count](k => 0 as byte);
          CopyIn(buffer, 0, bytes);
        }
      } else {
        CopyIn(buffer, c.offset - offset, bytes);
      }
      if n > 0 && maxOffset < c.offset + n {
        maxOffset := c.offset + n;
      }
    }

    /** Tells the caller how the read went; nothing is in flight any more. */
    method Finish()
      requires Placed() && pending == [] && callbacks == 0
      requires Sound() && (Clean() ==> buffer != null && buffer.Length == count)
      modifies `callbacks, `result, `given, `stored, `maxOffset
      ensures callbacks == 1 && Clean() == old(Clean())
      ensures !Clean() ==> result == Flagged().Code()
      ensures Clean() && honest ==> Delivered()
    {
      hide Filled, ReachedEnd, Disjoint, Inside;
      callbacks := callbacks + 1;
      if oom {
        result := ENOMEM;
        return;
      }
      if error {
        result := EFAULT;
        return;
      }
      if cancel {
        result := EINTR;
        return;
      }
      if honest {
        Arrived();
      }
      stored := if offset <= maxOffset <= offset + count then buffer[..maxOffset - offset] else [];
      if maxOffset > orgOffset + orgCount {
        maxOffset := orgOffset + orgCount;
      }
      result := maxOffset - orgOffset;
      given := buffer[orgOffset - offset..];
    }

    lemma Arrived()
      requires Placed() && pending == [] && Sound() && Clean() && honest && buffer != null && buffer.Length == count
      ensures maxOffset == ReachedEnd(file, offset, wireStart, offset + count)
      ensures offset < maxOffset ==>
        maxOffset <= Min(|file|, offset + count) && buffer[..maxOffset - offset] == file[offset..maxOffset]
      ensures var m := Min(maxOffset, orgOffset + orgCount);
        orgOffset < m ==> m <= |file| && buffer[orgOffset - offset..][..m - orgOffset] == file[orgOffset..m]
    {
      hide Filled;
      EndReached(file, offset, wireStart, buffer[..], maxOffset);
      if offset < maxOffset {
        ArrivedAt(offset, maxOffset);
      }
      var m := Min(maxOffset, orgOffset + orgCount);
      if orgOffset < m {
        ArrivedAt(orgOffset, m);
      }
    }

    lemma ArrivedAt(from: nat, to: nat)
      requires buffer != null && buffer.Length == count && offset <= from <= to <= |file| && to <= offset + count
      requires Filled(file, offset, wireStart, buffer[..], [], maxOffset)
      ensures buffer[from - offset..][..to - from] == file[from..to]
      ensures buffer[..to - offset] == buffer[..][0..to - offset]
      ensures from == offset ==> buffer[..to - offset] == file[from..to]
    {
      hide Filled;
      AllArrived(file, offset, wireStart, buffer[..], maxOffset, from, to);
      Slices(buffer, from - offset, to - offset);
    }

    /** An error-free answer: the count reported follows from the file, the bytes given are the
        file's, and so is what went into the page cache. */
    ghost predicate Delivered()
      reads this
    {
      var reached := ReachedEnd(file, offset, wireStart, offset + count);
      && result == Told(reached, orgOffset, orgCount)
      && (result >= 0 ==> orgOffset + result <= |file| || result == 0)
      && (result > 0 ==> result <= |given| && given[..result] == file[orgOffset..orgOffset + result])
      && (reached > offset ==> reached <= |file| && stored == file[offset..reached])
      && (reached == offset ==> stored == [])
    }

    /** The chunks left after an answer to chunk `i`. */
    ghost function Left(i: nat, n: nat, again: bool): seq<Chunk>
      requires i < |pending| && (again ==> n <= pending[i].count)
      reads this
    {
      if again then pending[i := Rest(pending[i], n)] else Without(pending, i)
    }

    /** An answer with data: store it, and find out whether its chunk has to be asked for again. */
    method OnData(i: nat, bytes: seq<byte>, eof: bool, sent: bool) returns (again: bool)
      requires Placed() && Buffered() && Sound() && i < |pending|
      modifies `buffer, `maxOffset, `error, `oom, `honest, buffer
      ensures buffer != old(buffer) ==> fresh(buffer)
      ensures honest == (old(honest) && Honest(file, pending[i], Data(bytes, eof)))
      ensures again <==> 0 < |bytes| < pending[i].count && !eof && sent
      ensures Flagged() == Raised(old(Flagged()), pending[i], Data(bytes, eof), sent)
      ensures again ==> error == old(error) && oom == old(oom)
      ensures old(Clean()) ==>
        (Clean() <==> again || |bytes| == pending[i].count || (|bytes| < pending[i].count && eof))
      ensures again || Clean() ==> buffer != null && buffer.Length == count
      ensures buffer == null ==> old(buffer) == null
      ensures buffer != null ==> buffer.Length == count
      ensures Clean() && honest ==>
        && Reached(file, offset, wireStart, offset + count, maxOffset)
        && Filled(file, offset, wireStart, buffer[..], Left(i, |bytes|, again), maxOffset)
    {
      hide Filled, Disjoint, Splice, Reached, Without, Higher, Inside;
      var c, n := pending[i], |bytes|;
      ghost var had, max := buffer != null, maxOffset;
      ghost var old_buf: seq<byte> := if buffer != null then buffer[..] else [];
      again := false;
      var ok := Store(i, bytes);
      honest := honest && Honest(file, c, Data(bytes, eof));
      if ok && n < c.count && !eof {
        if n == 0 {
          error := true;
        } else if sent {
          again := true;
        } else {
          oom := true;
        }
      }
      if Clean() && honest {
        StoredSound(file, offset, wireStart, had, old_buf, buffer[..], pending, max, i, bytes, eof, Left(i, n, again));
      }
    }

    /** Any answer: flags or data. */
    method Absorb(i: nat, a: Answer, sent: bool) returns (again: bool)
      requires Placed() && Buffered() && Sound() && i < |pending|
      modifies `buffer, `maxOffset, `error, `cancel, `oom, `honest, buffer
      ensures buffer != old(buffer) ==> fresh(buffer)
      ensures honest == (old(honest) && Honest(file, pending[i], a))
      ensures again <==> Repeats(pending[i], a, sent)
      ensures Clean() <==> old(Clean()) && Usable(pending[i], a, sent)
      ensures Flagged() == Raised(old(Flagged()), pending[i], a, sent)
      ensures again || Clean() ==> buffer != null && buffer.Length == count
      ensures buffer == null ==> old(buffer) == null
      ensures buffer != null ==> buffer.Length == count
      ensures Clean() && honest ==>
        && Reached(file, offset, wireStart, offset + count, maxOffset)
        && Filled(file, offset, wireStart, buffer[..], Left(i, |a.bytes|, again), maxOffset)
    {
      hide Filled, Disjoint, Inside, Splice, Reached, Without;
      again := false;
      match a {
        case RpcError => error := true;
        case Cancelled => cancel := true;
        case TimedOut => cancel := true;
        case NfsError => error := true;
        case Data(bytes, eof) => again := OnData(i, bytes, eof, sent);
      }
    }

    /** `nfs3_pread_mcb`: the answer to chunk `i`; `sent` tells whether a repeat could be sent. */
    method OnAnswer(i: nat, a: Answer, sent: bool)
      requires Valid() && i < |pending|
      modifies this, buffer
      ensures Placed() && if pending != [] then Valid() else callbacks == 1
      ensures buffer != old(buffer) ==> fresh(buffer)
      ensures honest == (old(honest) && Honest(file, old(pending)[i], a))
      ensures Clean() <==> old(Clean()) && Usable(old(pending)[i], a, sent)
      ensures Flagged() == Raised(old(Flagged()), old(pending)[i], a, sent)
      ensures pending == old(Left(i, if a.Data? then |a.bytes| else 0, Repeats(pending[i], a, sent)))
      ensures pending == [] && Clean() && honest ==> Delivered()
      ensures pending == [] && !Clean() ==> result == Flagged().Code()
    {
      hide Filled, Disjoint, Inside, Splice, Reached, Honest, Usable, Delivered, Repeats, Without, Rest, Raised;
      RemovedChunk(pending, i, wireStart, offset + count);
      numCalls := numCalls - 1;
      var again := Absorb(i, a, sent);
      if again {
        RepeatsData(pending[i], a, sent);
        ReissuedChunk(pending, i, |a.bytes|, wireStart, offset + count);
        pending := pending[i := Rest(pending[i], |a.bytes|)];
        numCalls := numCalls + 1;
        return;
      }
      pending := Without(pending, i);
      if numCalls > 0 {
        return;
      }
      Finish();
    }
  }

  /** One thing that happens to a read in flight: the chunk answered, the answer, and whether a
      repeat could be sent. */
  datatype Event = Event(chunk: nat, answer: Answer, sent: bool)

  /** What is known of a read between answers. */
  datatype Flight = Flight(pending: seq<Chunk>, flags: Flags, honest: bool)

  /** One event: the chunk is finished or asked for again. Nothing happens for a chunk that is not there. */
  function Heard(file: seq<byte>, s: Flight, e: Event): Flight {
    if e.chunk >= |s.pending| then s else
      var c := s.pending[e.chunk];
      Flight(if Repeats(c, e.answer, e.sent) then s.pending[e.chunk := Rest(c, |e.answer.bytes|)]
             else Without(s.pending, e.chunk),
             Raised(s.flags, c, e.answer, e.sent), s.honest && Honest(file, c, e.answer))
  }

  function HeardAll(file: seq<byte>, s: Flight, events: seq<Event>): Flight
    decreases |events|
  {
    if events == [] then s else HeardAll(file, Heard(file, s, events[0]), events[1..])
  }

  /** Every event is for a chunk in flight, as long as there is one. */
  predicate Directed(file: seq<byte>, s: Flight, events: seq<Event>)
    decreases |events|
  {
    events == [] || s.pending == [] ||
    (events[0].chunk < |s.pending| && Directed(file, Heard(file, s, events[0]), events[1..]))
  }

  lemma {:induction false} NoneHeard(file: seq<byte>, s: Flight, events: seq<Event>)
    requires s.pending == []
    ensures HeardAll(file, s, events) == s
    decreases |events|
  {
    if events != [] {
      NoneHeard(file, s, events[1..]);
    }
  }

  /** A read ends: each answer finishes a chunk or brings at least one byte of it. */
  lemma {:induction false} ReadEnds(file: seq<byte>, s: Flight, events: seq<Event>)
    requires Directed(file, s, events) && |events| >= Weight(s.pending)
    ensures HeardAll(file, s, events).pending == []
    decreases |events|
  {
    hide Without, Weight;
    WeightIs(s.pending);
    if s.pending == [] {
      NoneHeard(file, s, events);
    } else {
      var e := events[0];
      if Repeats(s.pending[e.chunk], e.answer, e.sent) {
        ReissuedWeight(s.pending, e.chunk, |e.answer.bytes|);
      } else {
        RemovedWeight(s.pending, e.chunk);
      }
      ReadEnds(file, Heard(file, s, e), events[1..]);
    }
  }

  /** What event `i` raises: nothing when its chunk is not in flight by then. */
  function RaisedAt(file: seq<byte>, s: Flight, events: seq<Event>, i: nat): Flags
    requires i < |events|
  {
    var (pending, e) := (HeardAll(file, s, events[..i]).pending, events[i]);
    if e.chunk < |pending| then Raised(CLEAR, pending[e.chunk], e.answer, e.sent) else CLEAR
  }

  /** A flag is up at the end exactly when it was at the start or some answer raised it; of those that are
      up, lack of memory is reported before an error, and an error before a cancellation. */
  lemma {:induction false} FlagsExact(file: seq<byte>, s: Flight, events: seq<Event>)
    ensures var f := HeardAll(file, s, events).flags;
      && (f.error <==> s.flags.error || exists i: nat :: i < |events| && RaisedAt(file, s, events, i).error)
      && (f.cancel <==> s.flags.cancel || exists i: nat :: i < |events| && RaisedAt(file, s, events, i).cancel)
      && (f.oom <==> s.flags.oom || exists i: nat :: i < |events| && RaisedAt(file, s, events, i).oom)
      && (!f.Clear() ==> f.Code() == if f.oom then -12 else if f.error then -14 else -4)
    decreases |events|
  {
    hide Fails, Cancels, Starves, Without, Repeats;
    if events != [] {
      var t, rest := Heard(file, s, events[0]), events[1..];
      FlagsExact(file, t, rest);
      forall i: nat | i < |rest| ensures RaisedAt(file, s, events, i + 1) == RaisedAt(file, t, rest, i) {
        assert events[..i + 1][1..] == rest[..i] && events[i + 1] == rest[i];
      }
      assert events[..0] == [];
      Witnessed(file, s, events);
    }
  }

  /** The first event or a later one. */
  lemma Witnessed(file: seq<byte>, s: Flight, events: seq<Event>)
    requires events != []
    requires forall i: nat :: i + 1 < |events| ==>
      RaisedAt(file, s, events, i + 1) == RaisedAt(file, Heard(file, s, events[0]), events[1..], i)
    ensures var (t, rest) := (Heard(file, s, events[0]), events[1..]);
      && ((exists i: nat :: i < |events| && RaisedAt(file, s, events, i).error) <==>
          RaisedAt(file, s, events, 0).error || exists i: nat :: i < |rest| && RaisedAt(file, t, rest, i).error)
      && ((exists i: nat :: i < |events| && RaisedAt(file, s, events, i).cancel) <==>
          RaisedAt(file, s, events, 0).cancel || exists i: nat :: i < |rest| && RaisedAt(file, t, rest, i).cancel)
      && ((exists i: nat :: i < |events| && RaisedAt(file, s, events, i).oom) <==>
          RaisedAt(file, s, events, 0).oom || exists i: nat :: i < |rest| && RaisedAt(file, t, rest, i).oom)
  {
    hide RaisedAt;
    var (t, rest) := (Heard(file, s, events[0]), events[1..]);
    forall i: nat | i < |events| && i > 0 ensures RaisedAt(file, s, events, i) == RaisedAt(file, t, rest, i - 1) {
      assert RaisedAt(file, s, events, (i - 1) + 1) == RaisedAt(file, t, rest, i - 1);
    }
    forall i: nat | i < |rest| ensures RaisedAt(file, s, events, i + 1) == RaisedAt(file, t, rest, i) {
    }
  }

  /** Any answers in any order: what is in flight, what has gone wrong and whether it was honest is
      what the events say; the caller is called back once, when the last chunk is done, and after clean
      and honest answers with exactly what the file holds. */
  method Answered(op: ReadOp, events: seq<Event>) returns (done: bool)
    requires op.Valid()
    modifies op, op.buffer
    ensures Flight(op.pending, op.Flagged(), op.honest) ==
      HeardAll(op.file, Flight(old(op.pending), old(op.Flagged()), old(op.honest)), events)
    ensures done <==> op.pending == []
    ensures !done ==> op.Valid()
    ensures done ==> op.callbacks == 1 && op.Placed()
    ensures done && op.Clean() && op.honest ==> op.Delivered()
    ensures done && !op.Clean() ==> op.result == op.Flagged().Code()
  {
    hide Usable, Honest, Without, Raised;
    var k := 0;
    ghost var start := Flight(op.pending, op.Flagged(), op.honest);
    assert events[0..] == events;
    while k < |events| && op.pending != []
      invariant k <= |events| && (op.pending != [] ==> op.Valid())
      invariant op.pending == [] ==> op.callbacks == 1 && op.Placed() && (op.Clean() && op.honest ==> op.Delivered())
      invariant op.pending == [] && !op.Clean() ==>
        op.result == op.Flagged().Code()
      invariant op.buffer == old(op.buffer) || op.buffer == null || fresh(op.buffer)
      invariant HeardAll(op.file, start, events) ==
        HeardAll(op.file, Flight(op.pending, op.Flagged(), op.honest), events[k..])
      decreases |events| - k
    {
      var e := events[k];
      assert events[k..][1..] == events[k + 1..];
      if e.chunk < |op.pending| {
        op.OnAnswer(e.chunk, e.answer, e.sent);
      }
      k := k + 1;
    }
    done := op.pending == [];
    if done {
      NoneHeard(op.file, Flight(op.pending, op.Flagged(), op.honest), events[k..]);
    }
  }

  /** A read of five bytes in one chunk, answered once: what the caller is told of each failure. */
  method OneAnswer(a: Answer, sent: bool) returns (result: int)
    ensures a.RpcError? || a.NfsError? ==> result == -14
    ensures a.Cancelled? || a.TimedOut? ==> result == -4
    ensures a.Data? && (|a.bytes| > 5 || (a.bytes == [] && !a.eof)) ==> result == -14
    ensures a.Data? && 0 < |a.bytes| < 5 && !a.eof && !sent ==> result == -12
  {
    hide Honest, Disjoint, Inside, Filled, AtMost, InFlight;
    var op := new ReadOp([], 0, 5, 0, 5, 0, null);
    var r := op.Issue(0, 5, k => true);
    OneCut(0, 5, 5, op.pending);
    op.OnAnswer(0, a, sent);
    result := op.result;
  }
}
