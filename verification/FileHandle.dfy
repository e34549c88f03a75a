/** `nfs3_pread_async_internal`: a read is widened to whole pages, served from
    the page cache as far as that goes, extended by the read-ahead window, and
    the rest is split over the wire. */
module FileHandle {
  import opened Bytes
  import opened Prelude
  import opened PageCache
  import opened Chunks
  import opened SplitRead
  import CacheHits
  import HashSpread
  import ReadAhead
  import SplitWrite

  function RoundUpToPage(n: nat): (r: nat)
    ensures r % BLK == 0 && n <= r < n + BLK
  {
    if n % BLK == 0 then n else n + (BLK - n % BLK)
  }

  /** The first page from `at` on that the cache does not return. */
  function FirstMiss(entries: seq<Entry>, ttl: nat, now: nat, at: nat, end: nat): nat
    requires |entries| > 0
    decreases end - at
  {
    if at >= end || Get(entries, ttl, now, at).None? then at else FirstMiss(entries, ttl, now, at + BLK, end)
  }

  /** Where a read really starts and ends: on page boundaries when there is a cache. */
  function Start(pages: nat, offset: nat): nat {
    if pages == 0 then offset else PageOf(offset)
  }

  function Limit(pages: nat, offset: nat, count: nat): nat {
    if pages == 0 then offset + count else PageOf(offset) + RoundUpToPage(count + offset % BLK)
  }

  /** The first byte that has to come over the wire. */
  function WireFrom(entries: seq<Entry>, ttl: nat, now: nat, offset: nat, count: nat): nat {
    if |entries| == 0 then offset
    else FirstMiss(entries, ttl, now, Start(|entries|, offset), Limit(|entries|, offset, count))
  }

  predicate AllCached(entries: seq<Entry>, ttl: nat, now: nat, offset: nat, count: nat) {
    |entries| > 0 && WireFrom(entries, ttl, now, offset, count) == Limit(|entries|, offset, count)
  }

  /** A read reports the bytes due: it came from the cache alone, or the file reaches past the first
      byte asked of the server and to the offset, or nothing is due and the offset was aligned. */
  predicate Reports(file: seq<byte>, entries: seq<Entry>, ttl: nat, now: nat, offset: nat, count: nat) {
    var wire := WireFrom(entries, ttl, now, offset, count);
    || AllCached(entries, ttl, now, offset, count)
    || (if |file| > wire then |file| >= offset else Start(|entries|, offset) == offset && Due(file, offset, count) == 0)
  }

  /** How far beyond the request a read that goes to the wire at `at` asks. */
  function Extra(window: nat, readahead: nat, fhOffset: nat, at: nat): nat {
    if readahead == 0 then 0 else ReadAhead.NextWindow(window, readahead, fhOffset, at)
  }

  /** The bytes of the file from `start` to `end`, none if it does not reach that far. */
  function Part(file: seq<byte>, start: nat, end: nat): seq<byte> {
    if start < end <= |file| then file[start..end] else []
  }

  /** The cache after `data` has been put into it; without entries nothing is. */
  function Cached(entries: seq<Entry>, ttl: nat, now: nat, offset: nat, data: seq<byte>): seq<Entry> {
    if entries == [] then [] else PutAll(entries, ttl, now, offset, data)
  }

  class Handle {
    const cache: Cache
    const readahead: nat
    const readmax: nat
    var window: nat        // ra.cur_ra
    var fhOffset: nat      // ra.fh_offset
    var position: int      // nfsfh->offset

    constructor (cache: Cache, readahead: nat, readmax: nat)
      ensures this.cache == cache && this.readahead == readahead && this.readmax == readmax
      ensures window == 0 && fhOffset == 0 && position == 0
    {
      this.cache, this.readahead, this.readmax := cache, readahead, readmax;
      window, fhOffset, position := 0, 0, 0;
    }

    /** Copies one page behind those already in the buffer, which is made with the first. */
    method AddPage(buffer: array?<byte>, len: nat, start: nat, at: nat, page: Page, ghost file: seq<byte>)
        returns (b: array<byte>)
      requires start <= at && at + BLK <= start + len && (buffer == null <==> at == start)
      requires at + BLK <= |file| && page == file[at..at + BLK]
      requires buffer != null ==> buffer.Length == len && buffer[..at - start] == file[start..at]
      modifies buffer
      ensures (if buffer == null then fresh(b) else b == buffer) && b.Length == len
      ensures b[..at + BLK - start] == file[start..at + BLK]
    {
      hide Splice;
      if buffer == null {
        b := new byte[len](k => 0 as byte);
        assert b[..0] == file[start..start];
      } else {
        b := buffer;
      }
      ghost var before := b[..];
      CopyIn(b, at - start, page);
      PageAdded(before, at - start, page, file, start, b[..]);
    }

    /** Copies cached pages from `start` on until one is missing or `len` bytes are there. */
    method FromCache(start: nat, len: nat, now: nat, ghost file: seq<byte>) returns (buffer: array?<byte>, at: nat)
      requires cache.entries.Length > 0 && Coherent(cache.entries[..], cache.ttl, now, file)
      requires start % BLK == 0 && len % BLK == 0
      ensures start <= at <= start + len && (at - start) % BLK == 0
      ensures buffer == null <==> at == start
      ensures buffer != null ==> fresh(buffer) && buffer.Length == len && at <= |file|
      ensures buffer != null ==> buffer[..at - start] == file[start..at]
      ensures at == FirstMiss(cache.entries[..], cache.ttl, now, start, start + len)
    {
      hide Coherent, Get, Splice;
      buffer, at := null, start;
      while at < start + len
        invariant start <= at <= start + len && (at - start) % BLK == 0
        invariant FirstMiss(cache.entries[..], cache.ttl, now, start, start + len) ==
          FirstMiss(cache.entries[..], cache.ttl, now, at, start + len)
        invariant buffer == null <==> at == start
        invariant buffer != null ==>
          fresh(buffer) && buffer.Length == len && at <= |file| && buffer[..at - start] == file[start..at]
      {
        HitIsCurrent(cache.entries[..], cache.ttl, now, at, file);
        var page := cache.Lookup(at, now);
        if page == None {
          break;
        }
        buffer := AddPage(buffer, len, start, at, page.value, file);
        at := at + BLK;
      }
    }

    /** A buffer of `len` bytes that begins with what `buffer` holds. */
    method Grown(buffer: array?<byte>, len: nat, ghost kept: nat) returns (b: array<byte>)
      requires kept <= len && (buffer == null ==> kept == 0) && (buffer != null ==> kept <= buffer.Length <= len)
      ensures fresh(b) && b.Length == len && (buffer != null ==> b[..kept] == buffer[..kept])
    {
      b := new byte[len](k => 0 as byte);
      if buffer != null {
        ghost var zeros := b[..];
        CopyIn(b, 0, buffer[..]);
        assert b[..kept] == Splice(zeros, 0, buffer[..])[..kept];
      }
    }

    /** Moves the read-ahead window for a read that goes to the wire at `at`. */
    method MoveWindow(at: nat) returns (extra: nat)
      modifies `window
      ensures window == ReadAhead.NextWindow(old(window), readahead, fhOffset, at)
      ensures extra == Extra(old(window), readahead, fhOffset, at)
    {
      extra := 0;
      if readahead != 0 {
        window := if window > BLK then window else BLK;
        if fhOffset <= at && at <= fhOffset + window + BLK {
          if readahead > window {
            window := 2 * window;
          }
        } else {
          window := 0;
        }
        extra := window;
      }
    }

    /** The part of the read that the wire has to bring. */
    method StartWire(offset: nat, count: nat, start: nat, len: nat, cached: array?<byte>, at: nat, sent: nat -> bool,
                     ghost file: seq<byte>) returns (r: int, op: ReadOp)
      requires readmax > 0 && start <= offset && offset + count <= start + len && start <= at
      requires at < start + len || (at == start && len == 0)
      requires cached == null <==> at == start
      requires cached != null ==> cached.Length == len && at <= |file| && cached[..at - start] == file[start..at]
      modifies `window
      ensures window == ReadAhead.NextWindow(old(window), readahead, fhOffset, at)
      ensures fresh(op) && op.file == file && op.orgOffset == offset && op.orgCount == count
      ensures op.offset == start && op.wireStart == at
      ensures op.offset + op.count == start + len + Extra(old(window), readahead, fhOffset, at)
      ensures (r == 0 || r == -1) && (r == -1 <==> !sent(0))
      ensures r == -1 ==> op.callbacks == 0 && op.pending == []
      ensures op.buffer == cached || op.buffer == null || fresh(op.buffer)
      ensures r == 0 ==> op.Valid() && op.honest
      ensures r == 0 && (forall k :: sent(k)) ==>
        op.Clean() && op.pending == Cuts(at, op.offset + op.count - at, readmax)
    {
      var extra := MoveWindow(at);
      var total := len + extra;
      var buffer := cached;
      if (total > readmax || total > count) && (buffer == null || extra > 0) {
        buffer := Grown(cached, total, at - start);
      }
      assert cached != null && buffer == cached ==> extra == 0;
      op := new ReadOp(file, offset, count, start, total, at, buffer);
      r := op.Issue(at, readmax, sent);
    }

    /** The cache had it all: the caller is told at once. */
    method TellCached(offset: nat, count: nat, updatePos: bool, start: nat, buffer: array?<byte>, ghost file: seq<byte>)
        returns (told: int, given: seq<byte>)
      requires start <= offset && (buffer == null ==> count == 0)
      requires buffer != null ==> offset + count <= start + buffer.Length <= |file|
      requires buffer != null ==> buffer[..] == file[start..start + buffer.Length]
      modifies this
      ensures told == count == Due(file, offset, count)
      ensures count > 0 ==> count <= |given| && given[..count] == file[offset..offset + count]
      ensures position == (if updatePos then offset + count else old(position)) && window == old(window)
      ensures fhOffset == start + if buffer == null then 0 else buffer.Length
    {
      fhOffset := start + if buffer == null then 0 else buffer.Length;
      if updatePos {
        position := offset + count;
      }
      told, given := count, [];
      if buffer != null {
        given := buffer[offset - start..];
        CachedPart(buffer[..], file, start, offset, count);
      }
    }

    /** `nfs3_pread_async_internal`. With `op == null` the cache had it all and the caller has been
        told; otherwise `op` is under way. */
    method Pread(offset: nat, count: nat, updatePos: bool, now: nat, sent: nat -> bool, ghost file: seq<byte>)
        returns (r: int, op: ReadOp?, told: int, given: seq<byte>)
      requires readmax > 0 && Coherent(cache.entries[..], cache.ttl, now, file)
      modifies this
      ensures (r == 0 || r == -1) && (r == -1 <==> op != null && !sent(0))
      ensures op == null <==> AllCached(cache.entries[..], cache.ttl, now, offset, count)
      ensures op == null ==> told == count == Due(file, offset, count)
      ensures op == null && count > 0 ==> count <= |given| && given[..count] == file[offset..offset + count]
      ensures op == null ==> position == if updatePos then offset + count else old(position)
      ensures op == null ==> fhOffset == Limit(cache.entries.Length, offset, count)
      ensures op != null ==> position == old(position) && fhOffset == old(fhOffset)
      ensures window == old(NextWindow(now, offset, count))
      ensures op != null ==> fresh(op) && op.file == file && op.orgOffset == offset && op.orgCount == count
      ensures op != null ==> op.offset == Start(cache.entries.Length, offset)
      ensures op != null ==> op.wireStart == WireFrom(cache.entries[..], cache.ttl, now, offset, count)
      ensures op != null ==> Asked(op)
      ensures op != null ==> op.offset + op.count == old(EndOf(now, offset, count))
      ensures op != null && r == 0 ==> op.Valid() && op.honest
      ensures op != null && r == 0 && (forall k :: sent(k)) ==>
        op.Clean() && op.pending == old(Demand(now, offset, count))
      ensures op != null && op.buffer != null ==> fresh(op.buffer)
    {
      hide Coherent, Due, FirstMiss, ReadAhead.NextWindow, Cuts, Extra, PageOf, RoundUpToPage;
      PageStart(offset, count);
      var start := offset;
      var len := count;
      var buffer: array?<byte> := null;
      var at := start;
      if cache.entries.Length != 0 {
        start := PageOf(offset);
        len := RoundUpToPage(count + offset % BLK);
        buffer, at := FromCache(start, len, now, file);
        if at == start + len {
          told, given := TellCached(offset, count, updatePos, start, buffer, file);
          return 0, null, told, given;
        }
        InLastPage(start, len, at, offset, count);
      }
      told, given := 0, [];
      r, op := StartWire(offset, count, start, len, buffer, at, sent, file);
    }

    /** The window after a read: it moves when the read goes to the wire. */
    function NextWindow(now: nat, offset: nat, count: nat): nat
      reads this, cache, cache.entries
    {
      if Hit(now, offset, count) then window
      else
        ReadAhead.NextWindow(window, readahead, fhOffset, WireFrom(cache.entries[..], cache.ttl, now, offset, count))
    }

    /** What the server is asked for begins inside the request, or at its start, and bytes before it
        were in the cache. */
    ghost predicate Asked(op: ReadOp) {
      && (op.offset < op.wireStart ==> op.wireStart <= |op.file|)
      && (op.wireStart < op.orgOffset + op.orgCount || op.orgCount == 0)
    }

    /** The end of a clean read: position, read-ahead mark and page cache. */
    method Complete(op: ReadOp, updatePos: bool, now: nat)
      requires op.pending == [] && op.callbacks == 1 && op.Clean() && op.Placed()
      requires op.honest ==> op.Delivered() && Coherent(cache.entries[..], cache.ttl, now, op.file)
      modifies this, cache.entries
      ensures cache.entries == old(cache.entries) && window == old(window)
      ensures cache.entries[..] == Cached(old(cache.entries[..]), cache.ttl, now, op.offset, op.stored)
      ensures op.honest ==> Coherent(cache.entries[..], cache.ttl, now, op.file)
      ensures op.honest ==> fhOffset == ReachedEnd(op.file, op.offset, op.wireStart, op.offset + op.count)
      ensures position == if updatePos then op.orgOffset + op.result else old(position)
    {
      hide Coherent, ReachedEnd, Told, Min;
      ReachedAtLeast(op.file, op.offset, op.wireStart, op.offset + op.count);
      fhOffset := op.offset + |op.stored|;
      Refresh(op.offset, op.stored, now, op.file, op.honest);
      if updatePos {
        position := op.orgOffset + op.result;
      }
    }

    /** The end of a clean write: the buffer goes into the cache, which then agrees with the new file. */
    method CompleteWrite(op: SplitWrite.WriteOp, updatePos: bool, now: nat)
      requires op.pending == [] && op.callbacks == 1 && op.Clean()
      requires op.honest ==> op.Done() && Coherent(cache.entries[..], cache.ttl, now, op.file0)
      modifies this, cache.entries
      ensures cache.entries == old(cache.entries)
      ensures cache.entries[..] == Cached(old(cache.entries[..]), cache.ttl, now, op.offset, op.buf)
      ensures op.honest ==> Coherent(cache.entries[..], cache.ttl, now, op.file)
      ensures position == if updatePos then op.maxOffset else old(position)
    {
      hide Coherent, PutAll, Overwrite;
      ghost var entries := cache.entries[..];
      if updatePos {
        position := op.maxOffset;
      }
      cache.Put(op.offset, op.buf, now);
      if op.honest {
        if cache.entries.Length == 0 {
          NoEntries(cache.entries[..], cache.ttl, now, op.file);
        } else if op.buf == [] {
          NothingPut(entries, cache.ttl, now, op.offset);
        } else {
          PutCoherent(entries, cache.ttl, now, op.file0, op.offset, op.buf);
        }
      }
    }

    /** A whole write: sent in chunks, any answers to them until `later`, and the end. After clean and
        honest answers every byte is reported, the server's file is the old one with the buffer at its
        offset, and the cache agrees with it. */
    method WriteFile(offset: nat, buf: seq<byte>, updatePos: bool, writemax: nat, later: nat, sent: nat -> bool,
                     events: seq<SplitWrite.Event>, ghost file: seq<byte>)
        returns (r: int, done: bool, result: int, ghost clean: bool, ghost served: seq<byte>)
      requires writemax > 0 && Coherent(cache.entries[..], cache.ttl, later, file)
      modifies this, cache.entries
      ensures (r == 0 || r == -1) && (r == -1 <==> !sent(0))
      ensures r == 0 && (forall k :: sent(k)) ==>
        var f := SplitWrite.HeardAll(SplitWrite.Flight(Cuts(offset, |buf|, writemax), CLEAR, true), events);
        && (done <==> f.pending == []) && (clean <==> done && f.flags.Clear() && f.honest)
        && (done && !f.flags.Clear() ==> result == f.flags.Code())
      ensures clean ==> done && result == |buf| && cache.entries == old(cache.entries)
      ensures clean ==> served == if buf == [] then file else Overwrite(file, offset, buf)
      ensures clean ==> Coherent(cache.entries[..], cache.ttl, later, served)
      ensures clean ==> cache.entries[..] == Cached(old(cache.entries[..]), cache.ttl, later, offset, buf)
      ensures clean ==> position == if updatePos then offset + |buf| else old(position)
    {
      hide Coherent, Overwrite, SplitWrite.HeardAll, Cuts;
      var op := new SplitWrite.WriteOp(offset, buf, file);
      done, result, clean, served := false, 0, false, file;
      r := op.Issue(writemax, sent);
      if r == -1 {
        return;
      }
      done := SplitWrite.Answered(op, events);
      served := op.file;
      if !done {
        return;
      }
      result := op.result;
      if op.Clean() {
        clean := op.honest;
        CompleteWrite(op, updatePos, later);
      }
    }

    /** Puts bytes of the file into the cache. */
    method Refresh(offset: nat, data: seq<byte>, now: nat, ghost file: seq<byte>, ghost honest: bool)
      requires honest ==> data == [] || (offset + |data| <= |file| && data == file[offset..offset + |data|])
      requires honest ==> Coherent(cache.entries[..], cache.ttl, now, file)
      modifies cache.entries
      ensures cache.entries == old(cache.entries) && (honest ==> Coherent(cache.entries[..], cache.ttl, now, file))
      ensures cache.entries[..] == Cached(old(cache.entries[..]), cache.ttl, now, offset, data)
    {
      hide Coherent, PutAll, Overwrite;
      ghost var entries := cache.entries[..];
      cache.Put(offset, data, now);
      if honest {
        if cache.entries.Length == 0 {
          assert cache.entries[..] == entries;
        } else if data == [] {
          NothingPut(entries, cache.ttl, now, offset);
        } else {
          PutCoherent(entries, cache.ttl, now, file, offset, data);
          RewriteSame(file, offset, |data|);
        }
      }
    }

    /** A whole read: what the cache has, the chunks asked of the server, any answers to them until
        `later`, and the end. After clean and honest answers the bytes given are the file's, the cache
        still agrees with the file, and the count is the one due exactly when `Reports` says so. */
    method ReadFile(offset: nat, count: nat, updatePos: bool, now: nat, later: nat, sent: nat -> bool,
                    events: seq<Event>, ghost file: seq<byte>)
        returns (r: int, done: bool, result: int, given: seq<byte>, ghost clean: bool)
      requires readmax > 0 && now <= later && Coherent(cache.entries[..], cache.ttl, now, file)
      modifies this, cache.entries
      ensures (r == 0 || r == -1) && (r == -1 <==> !old(Hit(now, offset, count)) && !sent(0))
      ensures r == 0 && old(Hit(now, offset, count)) ==> done && clean
      ensures r == 0 && !old(Hit(now, offset, count)) && (forall k :: sent(k)) ==>
        var f := HeardAll(file, Flight(old(Demand(now, offset, count)), CLEAR, true), events);
        && (done <==> f.pending == []) && (clean <==> done && f.flags.Clear() && f.honest)
        && (done && !f.flags.Clear() ==> result == f.flags.Code())
      ensures clean ==> done && cache.entries == old(cache.entries)
      ensures clean ==> Coherent(cache.entries[..], cache.ttl, later, file)
      ensures clean ==> result == old(Told(Reach(now, offset, count, file), offset, count))
      ensures clean && result > 0 ==> result <= |given| && offset + result <= |file|
      ensures clean && result > 0 ==> given[..result] == file[offset..offset + result]
      ensures clean ==> position == if updatePos then offset + result else old(position)
      ensures clean ==> fhOffset == old(Mark(now, offset, count, file)) && window == old(NextWindow(now, offset, count))
      ensures clean ==> cache.entries[..] == old(NextPages(now, later, offset, count, file))
      ensures clean ==>
        (result == Due(file, offset, count) <==> old(Reports(file, cache.entries[..], cache.ttl, now, offset, count)))
    {
      hide Coherent, Due, WireFrom, Told, ReachedEnd, PageOf, Start, Limit, Demand, HeardAll, AllCached, EndOf,
        Cached, Part, Reach, Mark, NextPages, NextWindow;
      Later(cache.entries[..], cache.ttl, now, later, file);
      if Hit(now, offset, count) {
        FromCacheAlone(now, later, offset, count, file);
      } else {
        OverWire(now, later, offset, count, file);
      }
      var op;
      r, op, result, given := Pread(offset, count, updatePos, now, sent, file);
      done, clean := false, false;
      if op == null {
        done, clean := true, true;
        DueWithin(file, offset, count);
        ToldAll(offset, count);
        return;
      }
      if r == -1 {
        return;
      }
      done := Answered(op, events);
      if !done {
        return;
      }
      result, given, clean := Conclude(op, updatePos, later);
      if clean {
        ToldIsDue(file, offset, count, op.offset, op.wireStart, op.offset + op.count);
      }
    }

    /** Where the next read counts as going on: behind the pages that were cached, or behind what came. */
    function Mark(now: nat, offset: nat, count: nat, file: seq<byte>): nat
      reads this, cache, cache.entries
    {
      if Hit(now, offset, count) then Limit(cache.entries.Length, offset, count) else Reach(now, offset, count, file)
    }

    /** The cache after a read over the wire has everything that came, from the first page on. */
    function NextPages(now: nat, later: nat, offset: nat, count: nat, file: seq<byte>): seq<Entry>
      reads this, cache, cache.entries
    {
      var start := Start(cache.entries.Length, offset);
      if Hit(now, offset, count) then cache.entries[..]
      else Cached(cache.entries[..], cache.ttl, later, start, Part(file, start, Reach(now, offset, count, file)))
    }

    lemma OverWire(now: nat, later: nat, offset: nat, count: nat, file: seq<byte>)
      requires !Hit(now, offset, count)
      ensures var entries := cache.entries[..];
        var (start, wire) := (Start(cache.entries.Length, offset), WireFrom(entries, cache.ttl, now, offset, count));
        var reached := ReachedEnd(file, start, wire, EndOf(now, offset, count));
        && Reach(now, offset, count, file) == Mark(now, offset, count, file) == reached
        && NextPages(now, later, offset, count, file) ==
             Cached(entries, cache.ttl, later, start, Part(file, start, reached))
    {
      hide AllCached, WireFrom, Start, Limit, EndOf, Cached, Part, ReachedEnd;
    }

    lemma FromCacheAlone(now: nat, later: nat, offset: nat, count: nat, file: seq<byte>)
      requires Hit(now, offset, count)
      ensures Reach(now, offset, count, file) == offset + count
      ensures Mark(now, offset, count, file) == Limit(cache.entries.Length, offset, count)
      ensures NextPages(now, later, offset, count, file) == cache.entries[..]
    {
      hide AllCached, Limit;
    }

    /** The end of a read whose answers have all come. */
    method Conclude(op: ReadOp, updatePos: bool, later: nat)
        returns (result: int, given: seq<byte>, ghost clean: bool)
      requires op.pending == [] && op.callbacks == 1 && op.Placed() && (op.Clean() && op.honest ==> op.Delivered())
      requires op.Clean() && op.honest ==> Coherent(cache.entries[..], cache.ttl, later, op.file)
      modifies this, cache.entries
      ensures clean <==> op.Clean() && op.honest
      ensures result == op.result && given == op.given && cache.entries == old(cache.entries) && window == old(window)
      ensures clean ==> Coherent(cache.entries[..], cache.ttl, later, op.file)
      ensures var reached := ReachedEnd(op.file, op.offset, op.wireStart, op.offset + op.count);
        clean ==>
          && result == Told(reached, op.orgOffset, op.orgCount) && fhOffset == reached
          && cache.entries[..] ==
               Cached(old(cache.entries[..]), cache.ttl, later, op.offset, Part(op.file, op.offset, reached))
      ensures clean ==> position == if updatePos then op.orgOffset + result else old(position)
    {
      hide Coherent, Told, ReachedEnd, Cached;
      result, given, clean := op.result, op.given, op.Clean() && op.honest;
      ReachedAtLeast(op.file, op.offset, op.wireStart, op.offset + op.count);
      if op.Clean() {
        Complete(op, updatePos, later);
      }
    }

    /** The chunks a read asks of the server: from the first missing page to the end of the read-ahead. */
    function Demand(now: nat, offset: nat, count: nat): seq<Chunk>
      requires readmax > 0
      reads this, cache, cache.entries
    {
      var wire, end := WireFrom(cache.entries[..], cache.ttl, now, offset, count), EndOf(now, offset, count);
      if wire <= end then Cuts(wire, end - wire, readmax) else []
    }

    /** Where a read that goes to the wire ends, with its read-ahead. */
    function EndOf(now: nat, offset: nat, count: nat): nat
      reads this, cache, cache.entries
    {
      Limit(cache.entries.Length, offset, count) +
      Extra(window, readahead, fhOffset, WireFrom(cache.entries[..], cache.ttl, now, offset, count))
    }

    /** Where the bytes of a read end: at its own end when it was cached, else where the server's do. */
    function Reach(now: nat, offset: nat, count: nat, file: seq<byte>): nat
      reads this, cache, cache.entries
    {
      var wire := WireFrom(cache.entries[..], cache.ttl, now, offset, count);
      if Hit(now, offset, count) then offset + count
      else ReachedEnd(file, Start(cache.entries.Length, offset), wire, EndOf(now, offset, count))
    }

    predicate Hit(now: nat, offset: nat, count: nat)
      reads this, cache, cache.entries
    {
      AllCached(cache.entries[..], cache.ttl, now, offset, count)
    }
  }

  lemma DueWithin(file: seq<byte>, offset: nat, count: nat)
    requires Due(file, offset, count) == count
    ensures count > 0 ==> offset + count <= |file|
  {
  }

  lemma ToldAll(offset: nat, count: nat)
    ensures Told(offset + count, offset, count) == count
  {
  }

  lemma PageStart(offset: nat, count: nat)
    ensures PageOf(offset) % BLK == 0 && PageOf(offset) <= offset
    ensures offset + count <= PageOf(offset) + RoundUpToPage(count + offset % BLK)
    ensures RoundUpToPage(count + offset % BLK) == 0 ==> count == 0
  {
  }

  lemma InLastPage(start: nat, len: nat, at: nat, offset: nat, count: nat)
    requires start == PageOf(offset) && len == RoundUpToPage(count + offset % BLK)
    requires start <= at < start + len && (at - start) % BLK == 0
    ensures at < offset + count || count == 0
  {
  }

  lemma PageAdded(b: seq<byte>, k: nat, page: seq<byte>, file: seq<byte>, start: nat, b': seq<byte>)
    requires k + |page| <= |b| && start + k + |page| <= |file| && page == file[start + k..start + k + |page|]
    requires b[..k] == file[start..start + k] && b' == Splice(b, k, page)
    ensures b'[..k + |page|] == file[start..start + k + |page|]
  {
  }

  lemma CachedPart(b: seq<byte>, file: seq<byte>, start: nat, offset: nat, count: nat)
    requires start <= offset && offset + count <= start + |b| <= |file| && b == file[start..start + |b|]
    ensures b[offset - start..][..count] == file[offset..offset + count]
  {
  }

  lemma NoEntries(entries: seq<Entry>, ttl: nat, now: nat, file: seq<byte>)
    requires entries == []
    ensures Coherent(entries, ttl, now, file)
  {
  }

  lemma NothingPut(entries: seq<Entry>, ttl: nat, now: nat, offset: nat)
    ensures |entries| > 0 ==> PutAll(entries, ttl, now, offset, []) == entries
  {
  }

  lemma ReachedAtLeast(file: seq<byte>, offset: nat, wireStart: nat, end: nat)
    requires offset <= wireStart <= end
    ensures ReachedEnd(file, offset, wireStart, end) >= offset
  {
  }

  /** With a cache a read takes in the pages that its bytes touch, and no more; without one just its bytes. */
  lemma PagesRead(pages: nat, offset: nat, count: nat)
    ensures pages == 0 ==> Start(pages, offset) == offset && Limit(pages, offset, count) == offset + count
    ensures pages > 0 ==>
      && Start(pages, offset) % BLK == 0 && Start(pages, offset) <= offset < Start(pages, offset) + BLK
      && Limit(pages, offset, count) % BLK == 0
      && offset + count <= Limit(pages, offset, count) < offset + count + BLK
  {
  }

  lemma {:induction false} NoneMissing(entries: seq<Entry>, ttl: nat, now: nat, at: nat, end: nat)
    requires |entries| > 0 && at % BLK == 0 && end % BLK == 0 && at <= end
    requires forall q :: q % BLK == 0 && at <= q < end ==> Get(entries, ttl, now, q).Some?
    ensures FirstMiss(entries, ttl, now, at, end) == end
    decreases end - at
  {
    hide Get;
    if at < end {
      NoneMissing(entries, ttl, now, at + BLK, end);
    }
  }

  /** Bytes that a read has put into the cache are served from it from then on, until their time is over: all
      their pages are there, as long as what was put fits into the cache. */
  lemma RereadIsHit(entries: seq<Entry>, ttl: nat, now: nat, offset: nat, count: nat, data: seq<byte>, k: nat,
                    later: nat)
    requires |entries| == HashSpread.Pow2(k) && now > 0 && (ttl == 0 || later <= now + ttl)
    requires Limit(|entries|, offset, count) <= Start(|entries|, offset) + |data|
    requires |data| <= |entries| * BLK && |data| <= WORD
    ensures AllCached(PutAll(entries, ttl, now, Start(|entries|, offset), data), ttl, later, offset, count)
  {
    hide PutAll, Get, Start, Limit, FirstMiss;
    var start, end := Start(|entries|, offset), Limit(|entries|, offset, count);
    PagesRead(|entries|, offset, count);
    var after := PutAll(entries, ttl, now, start, data);
    forall q | q % BLK == 0 && start <= q < end ensures Get(after, ttl, later, q).Some? {
      CacheHits.RowApart(k, q, start, |data|);
      CacheHits.RangeIsHit(entries, ttl, now, start, data, q, later);
    }
    NoneMissing(after, ttl, later, start, end);
  }

  /** Read-ahead works: once a read has gone over the wire, its bytes and as many behind them as the window
      then has are in the cache, if the file has them and the cache the room. */
  lemma AheadIsHit(h: Handle, now: nat, later: nat, offset: nat, count: nat, file: seq<byte>, k: nat, again: nat)
    requires ReadAhead.WindowOk(h.NextWindow(now, offset, count), h.readahead) && !h.Hit(now, offset, count)
    requires h.cache.entries.Length == HashSpread.Pow2(k) && later > 0
    requires h.cache.ttl == 0 || again <= later + h.cache.ttl
    requires var end := Limit(HashSpread.Pow2(k), offset, count) + h.NextWindow(now, offset, count);
      && offset <= end <= |file|
      && end - Start(HashSpread.Pow2(k), offset) <= Min(HashSpread.Pow2(k) * BLK, WORD)
    ensures var end := Limit(HashSpread.Pow2(k), offset, count) + h.NextWindow(now, offset, count);
      AllCached(h.NextPages(now, later, offset, count, file), h.cache.ttl, again, offset, end - offset)
  {
    hide FirstMiss, PutAll, ReadAhead.NextWindow, HashSpread.Pow2, Start, Limit, AllCached;
    var entries := h.cache.entries[..];
    var start, end := Start(|entries|, offset), Limit(|entries|, offset, count) + h.NextWindow(now, offset, count);
    ReadAhead.WindowWhole(h.NextWindow(now, offset, count), h.readahead);
    PagesRead(|entries|, offset, count);
    PagesRead(|entries|, offset, end - offset);
    MissedBefore(entries, h.cache.ttl, now, offset, count);
    assert Part(file, start, end) == file[start..end];
    RereadIsHit(entries, h.cache.ttl, later, offset, end - offset, file[start..end], k, again);
  }

  /** A read that is not served from the cache alone goes to the wire before its last page ends. */
  lemma MissedBefore(entries: seq<Entry>, ttl: nat, now: nat, offset: nat, count: nat)
    requires |entries| > 0 && !AllCached(entries, ttl, now, offset, count)
    ensures WireFrom(entries, ttl, now, offset, count) < Limit(|entries|, offset, count)
  {
    hide FirstMiss, Start, Limit;
    PagesRead(|entries|, offset, count);
    MissPlaced(entries, ttl, now, Start(|entries|, offset), Limit(|entries|, offset, count));
  }

  lemma {:induction false} MissPlaced(entries: seq<Entry>, ttl: nat, now: nat, at: nat, end: nat)
    requires |entries| > 0 && at % BLK == 0 && end % BLK == 0 && at <= end
    ensures at <= FirstMiss(entries, ttl, now, at, end) <= end
    decreases end - at
  {
    hide Get;
    if at < end {
      MissPlaced(entries, ttl, now, at + BLK, end);
    }
  }

  // ---- a cached page that is not reported ----

  lemma OnePage(file: seq<byte>)
    requires |file| == BLK
    ensures PutAll([BLANK], 0, 1, 0, file) == [Entry(file, 0, 1)]
  {
    hide Slot, PutPiece, Splice;
    assert file[..BLK] == file && file[BLK..] == [];
    FirstPut(file);
  }

  lemma FirstPut(file: seq<byte>)
    requires |file| == BLK
    ensures PutPiece([BLANK], 0, 1, 0, file) == [Entry(file, 0, 1)]
  {
    assert Splice(BLANK.buf, 0, file) == file;
  }

  lemma SecondPageMissing(file: seq<byte>)
    requires |file| == BLK
    ensures var entries := [Entry(file, 0, 1)];
      && WireFrom(entries, 0, 1, 100, 2 * BLK) == BLK && Start(1, 100) == 0 && Limit(1, 100, 2 * BLK) == 3 * BLK
      && !AllCached(entries, 0, 1, 100, 2 * BLK)
  {
    var entries := [Entry(file, 0, 1)];
    assert Get(entries, 0, 1, 0).Some? && Get(entries, 0, 1, BLK).None?;
    assert FirstMiss(entries, 0, 1, BLK, 3 * BLK) == BLK;
  }

  lemma EndOfFileHeard(file: seq<byte>)
    requires |file| == BLK
    ensures HeardAll(file, Flight(Cuts(BLK, 2 * BLK, 2 * BLK), CLEAR, true), [Event(0, Data([], true), true)]) ==
      Flight([], CLEAR, true)
  {
    var e := Event(0, Data([], true), true);
    var s := Flight([Chunk(BLK, 2 * BLK)], CLEAR, true);
    assert Cuts(BLK, 2 * BLK, 2 * BLK) == [Chunk(BLK, 2 * BLK)];
    assert Heard(file, s, e) == Flight([], CLEAR, true);
    assert [e][1..] == [];
  }

  /** The file is one page, which is cached. A read of two pages at offset 100 takes that page from the
      cache, asks the server for the rest, hears end-of-file, and reports -100 where BLK - 100 are due. */
  method CachedPageUnreported() returns (result: int, due: nat)
    ensures result == -100 && due == BLK - 100
  {
    hide PutAll, Coherent, WireFrom, AllCached, HeardAll, Cuts, Overwrite, ReachedEnd;
    var file: seq<byte> := seq(BLK, i => 0);
    var cache := new Cache(1, 0);
    assert seq(1, i => BLANK) == [BLANK];
    OnePage(file);
    PutCoherent([BLANK], 0, 1, file, 0, file);
    RewriteSame(file, 0, BLK);
    assert file[0..BLK] == file;
    cache.Put(0, file, 1);
    var handle := new Handle(cache, 0, 2 * BLK);
    SecondPageMissing(file);
    EndOfFileHeard(file);
    var r, done, given;
    ghost var clean;
    r, done, result, given, clean :=
      handle.ReadFile(100, 2 * BLK, false, 1, 1, k => true, [Event(0, Data([], true), true)], file);
    NothingReached(file);
    due := Due(file, 100, 2 * BLK);
  }

  lemma NothingReached(file: seq<byte>)
    requires |file| == BLK
    ensures Told(ReachedEnd(file, 0, BLK, 3 * BLK), 100, 2 * BLK) == -100
  {
  }
}
