/** The direct-mapped page cache of `libnfs.c`, and why a page it returns is the
    file's current page. */
module PageCache {
  import opened Bytes
  import opened Prelude
  import HashSpread

  /** NFS_BLKSIZE. */
  const BLK: nat := 4096

  type Page = p: seq<byte> | |p| == BLK witness seq(BLK, i => 0 as byte)

  /** `ts == 0` marks an entry that was never filled or was invalidated. */
  datatype Entry = Entry(buf: Page, offset: nat, ts: nat)

  const BLANK := Entry(seq(BLK, i => 0 as byte), 0, 0)

  function PageOf(offset: nat): nat {
    offset - offset % BLK
  }

  /** `nfs_pagecache_hash`: the offset is cut to 32 bits first. */
  function Slot(n: nat, offset: nat): (h: nat)
    requires n > 0
    ensures h < n
  {
    (2654435761 * (1 + offset % WORD / BLK)) % n
  }

  /** An entry that `get` may still return at time `now`. */
  predicate Live(e: Entry, ttl: nat, now: nat) {
    e.ts != 0 && (ttl == 0 || now <= e.ts + ttl)
  }

  function Stamp(ttl: nat, now: nat): nat {
    if ttl != 0 then now else 1
  }

  /** Storing a piece that lies within one page: a whole page always goes in, a part only
      updates a page that is still live. */
  function PutPiece(entries: seq<Entry>, ttl: nat, now: nat, offset: nat, data: seq<byte>): (r: seq<Entry>)
    requires |entries| > 0 && offset % BLK + |data| <= BLK
    ensures |r| == |entries|
  {
    var page := PageOf(offset);
    var h := Slot(|entries|, page);
    var e := entries[h];
    if |data| == BLK || (Live(e, ttl, now) && e.offset == page)
    then entries[h := Entry(Splice(e.buf, offset % BLK, data), page, Stamp(ttl, now))]
    else entries
  }

  function Room(offset: nat, len: nat): (n: nat)
    ensures n <= len && offset % BLK + n <= BLK && (len > 0 ==> n > 0)
  {
    if BLK - offset % BLK <= len then BLK - offset % BLK else len
  }

  /** `nfs_pagecache_put`: piece by piece. */
  function PutAll(entries: seq<Entry>, ttl: nat, now: nat, offset: nat, data: seq<byte>): (r: seq<Entry>)
    requires |entries| > 0
    ensures |r| == |entries|
    decreases |data|
  {
    if data == [] then entries
    else
      var n := Room(offset, |data|);
      PutAll(PutPiece(entries, ttl, now, offset, data[..n]), ttl, now, offset + n, data[n..])
  }

  /** `nfs_pagecache_get` for a page-aligned offset. */
  function Get(entries: seq<Entry>, ttl: nat, now: nat, offset: nat): Option<Page>
    requires |entries| > 0
  {
    var e := entries[Slot(|entries|, offset)];
    if e.offset == offset && Live(e, ttl, now) then Some(e.buf) else None
  }

  // ---- coherence with the file ----

  /** The file after `data` is written at `offset`. */
  function Overwrite(file: seq<byte>, offset: nat, data: seq<byte>): (r: seq<byte>)
    ensures |r| == if |file| > offset + |data| then |file| else offset + |data|
    ensures r[offset..offset + |data|] == data
  {
    if |file| >= offset + |data| then Splice(file, offset, data)
    else if |file| >= offset then file[..offset] + data
    else file + seq(offset - |file|, i => 0 as byte) + data
  }

  predicate Holds(e: Entry, file: seq<byte>) {
    e.offset % BLK == 0 && e.offset + BLK <= |file| && file[e.offset..e.offset + BLK] == e.buf
  }

  /** Every entry that may be returned, now or later, is in its own slot and is a page of the file. */
  predicate Coherent(entries: seq<Entry>, ttl: nat, now: nat, file: seq<byte>) {
    forall i :: 0 <= i < |entries| && Live(entries[i], ttl, now) ==>
      Holds(entries[i], file) && i == Slot(|entries|, entries[i].offset)
  }

  /** A hit is the current page of the file. */
  lemma HitIsCurrent(entries: seq<Entry>, ttl: nat, now: nat, offset: nat, file: seq<byte>)
    requires |entries| > 0 && Coherent(entries, ttl, now, file)
    ensures Get(entries, ttl, now, offset).Some? ==>
      offset + BLK <= |file| && Get(entries, ttl, now, offset).value == file[offset..offset + BLK]
  {
  }

  /** Time only takes entries away. */
  lemma Later(entries: seq<Entry>, ttl: nat, now: nat, now': nat, file: seq<byte>)
    requires Coherent(entries, ttl, now, file) && now <= now'
    ensures Coherent(entries, ttl, now', file)
  {
    forall i | 0 <= i < |entries| && Live(entries[i], ttl, now')
      ensures Holds(entries[i], file) && i == Slot(|entries|, entries[i].offset)
    {
      assert Live(entries[i], ttl, now);
    }
  }

  lemma OverwriteAt(file: seq<byte>, offset: nat, data: seq<byte>, k: nat)
    requires k < |Overwrite(file, offset, data)|
    ensures Overwrite(file, offset, data)[k] ==
      if offset <= k < offset + |data| then data[k - offset] else if k < |file| then file[k] else 0 as byte
  {
  }

  lemma HoldsElsewhere(e: Entry, file: seq<byte>, offset: nat, data: seq<byte>)
    requires Holds(e, file) && offset % BLK + |data| <= BLK && e.offset != PageOf(offset)
    ensures Holds(e, Overwrite(file, offset, data))
  {
    var f := Overwrite(file, offset, data);
    assert e.offset + BLK <= offset || offset + |data| <= e.offset;
    forall k | e.offset <= k < e.offset + BLK ensures f[k] == file[k] {
      OverwriteAt(file, offset, data, k);
    }
    assert f[e.offset..e.offset + BLK] == file[e.offset..e.offset + BLK];
  }

  lemma HoldsSpliced(e: Entry, file: seq<byte>, offset: nat, data: seq<byte>, ts: nat)
    requires Holds(e, file) && offset % BLK + |data| <= BLK && e.offset == PageOf(offset)
    ensures Holds(Entry(Splice(e.buf, offset % BLK, data), e.offset, ts), Overwrite(file, offset, data))
  {
    var f := Overwrite(file, offset, data);
    var at, b := offset % BLK, Splice(e.buf, offset % BLK, data);
    var p := file[e.offset..e.offset + BLK];
    forall k | 0 <= k < BLK ensures f[e.offset + k] == b[k] {
      OverwriteAt(file, offset, data, e.offset + k);
      assert p[k] == file[e.offset + k];
      SpliceAt(e.buf, at, data, k);
    }
    assert f[e.offset..e.offset + BLK] == b;
  }

  lemma SpliceAt(s: seq<byte>, at: nat, data: seq<byte>, k: nat)
    requires at + |data| <= |s| && k < |s|
    ensures Splice(s, at, data)[k] == if at <= k < at + |data| then data[k - at] else s[k]
  {
  }

  lemma HoldsWhole(e: Entry, file: seq<byte>, offset: nat, data: seq<byte>, ts: nat)
    requires offset % BLK == 0 && |data| == BLK
    ensures Holds(Entry(Splice(e.buf, 0, data), offset, ts), Overwrite(file, offset, data))
  {
    assert Splice(e.buf, 0, data) == data;
  }

  /** One stored piece keeps the cache coherent with the file that has the piece written. */
  lemma PieceCoherent(entries: seq<Entry>, ttl: nat, now: nat, file: seq<byte>, offset: nat, data: seq<byte>)
    requires |entries| > 0 && Coherent(entries, ttl, now, file) && offset % BLK + |data| <= BLK
    ensures Coherent(PutPiece(entries, ttl, now, offset, data), ttl, now, Overwrite(file, offset, data))
  {
    hide Holds, Splice, Overwrite, Slot;
    var r, f := PutPiece(entries, ttl, now, offset, data), Overwrite(file, offset, data);
    var page := PageOf(offset);
    var h := Slot(|entries|, page);
    var e := entries[h];
    forall i | 0 <= i < |r| && Live(r[i], ttl, now) ensures Holds(r[i], f) && i == Slot(|r|, r[i].offset) {
      if i == h && |data| == BLK {
        HoldsWhole(e, file, offset, data, Stamp(ttl, now));
      } else if i == h && Live(e, ttl, now) && e.offset == page {
        HoldsSpliced(e, file, offset, data, Stamp(ttl, now));
      } else {
        assert r[i] == entries[i];
        assert entries[i].offset != page;
        HoldsElsewhere(entries[i], file, offset, data);
      }
    }
  }

  lemma OverwriteSplit(file: seq<byte>, offset: nat, data: seq<byte>, n: nat)
    requires n <= |data|
    ensures Overwrite(Overwrite(file, offset, data[..n]), offset + n, data[n..]) == Overwrite(file, offset, data)
  {
    var f := Overwrite(file, offset, data[..n]);
    var g, w := Overwrite(f, offset + n, data[n..]), Overwrite(file, offset, data);
    assert |g| == |w|;
    forall k | 0 <= k < |g| ensures g[k] == w[k] {
      OverwriteAt(f, offset + n, data[n..], k);
      OverwriteAt(file, offset, data, k);
      if k < |f| {
        OverwriteAt(file, offset, data[..n], k);
      }
    }
  }

  /** The whole of `put`. */
  lemma {:induction false} PutCoherent(entries: seq<Entry>, ttl: nat, now: nat, file: seq<byte>, offset: nat,
                                       data: seq<byte>)
    requires |entries| > 0 && Coherent(entries, ttl, now, file)
    requires data == [] ==> offset <= |file|
    ensures Coherent(PutAll(entries, ttl, now, offset, data), ttl, now, Overwrite(file, offset, data))
    decreases |data|
  {
    hide Coherent, PutPiece, Overwrite;
    if data == [] {
      NothingWritten(file, offset);
    } else {
      var n := Room(offset, |data|);
      var d := data[..n];
      PieceCoherent(entries, ttl, now, file, offset, d);
      OverwriteSplit(file, offset, data, n);
      PutCoherent(PutPiece(entries, ttl, now, offset, d), ttl, now, Overwrite(file, offset, d), offset + n, data[n..]);
    }
  }

  lemma NothingWritten(file: seq<byte>, offset: nat)
    requires offset <= |file|
    ensures Overwrite(file, offset, []) == file
  {
  }

  // ---- runs ----

  datatype Op =
    | Wrote(offset: nat, data: seq<byte>)      // an error-free write, then put into the cache
    | Fetched(offset: nat, len: nat)           // a completed read of bytes the file has
    | Invalidated
    | Tick(seconds: nat)

  datatype State = State(entries: seq<Entry>, ttl: nat, now: nat, file: seq<byte>)

  predicate Enabled(s: State, op: Op) {
    match op
    case Wrote(offset, data) => data != []
    case Fetched(offset, len) => offset + len <= |s.file|
    case _ => true
  }

  function Next(s: State, op: Op): State
    requires |s.entries| > 0 && Enabled(s, op)
  {
    match op
    case Wrote(offset, data) =>
      s.(file := Overwrite(s.file, offset, data), entries := PutAll(s.entries, s.ttl, s.now, offset, data))
    case Fetched(offset, len) =>
      s.(entries := PutAll(s.entries, s.ttl, s.now, offset, s.file[offset..offset + len]))
    case Invalidated => s.(entries := seq(|s.entries|, i => BLANK))
    case Tick(seconds) => s.(now := s.now + seconds)
  }

  lemma RewriteSame(file: seq<byte>, offset: nat, len: nat)
    requires offset + len <= |file|
    ensures Overwrite(file, offset, file[offset..offset + len]) == file
  {
  }

  lemma NextCoherent(s: State, op: Op)
    requires |s.entries| > 0 && Enabled(s, op) && Coherent(s.entries, s.ttl, s.now, s.file)
    ensures var t := Next(s, op);
      |t.entries| == |s.entries| && t.ttl == s.ttl && Coherent(t.entries, t.ttl, t.now, t.file)
  {
    hide PutAll, Overwrite;
    match op
    case Wrote(offset, data) => PutCoherent(s.entries, s.ttl, s.now, s.file, offset, data);
    case Fetched(offset, len) =>
      PutCoherent(s.entries, s.ttl, s.now, s.file, offset, s.file[offset..offset + len]);
      RewriteSame(s.file, offset, len);
    case Invalidated =>
    case Tick(seconds) => Later(s.entries, s.ttl, s.now, s.now + seconds, s.file);
  }

  predicate Feasible(s: State, ops: seq<Op>)
    requires |s.entries| > 0
    decreases |ops|
  {
    ops == [] || (Enabled(s, ops[0]) && (var t := Next(s, ops[0]); |t.entries| > 0 && Feasible(t, ops[1..])))
  }

  function After(s: State, ops: seq<Op>): State
    requires |s.entries| > 0 && Feasible(s, ops)
    decreases |ops|
  {
    if ops == [] then s else After(Next(s, ops[0]), ops[1..])
  }

  /** After any run of writes, reads, invalidations and passing time, a page the cache returns is
      the current page of the file. */
  lemma {:induction false} RunCoherent(s: State, ops: seq<Op>, offset: nat)
    requires |s.entries| > 0 && Coherent(s.entries, s.ttl, s.now, s.file) && Feasible(s, ops)
    ensures var t := After(s, ops);
      && |t.entries| > 0
      && (Get(t.entries, t.ttl, t.now, offset).Some? ==>
          offset + BLK <= |t.file| && Get(t.entries, t.ttl, t.now, offset).value == t.file[offset..offset + BLK])
    decreases |ops|
  {
    hide Next, Coherent, Get;
    if ops == [] {
      HitIsCurrent(s.entries, s.ttl, s.now, offset, s.file);
    } else {
      NextCoherent(s, ops[0]);
      RunCoherent(Next(s, ops[0]), ops[1..], offset);
    }
  }

  /** The clock has to be monotone: a page expires, a partial write passes it by, and when the
      clock steps back the cache returns the page from before the write. */
  lemma ClockStepsBack()
    ensures exists entries: seq<Entry>, file: seq<byte> ::
      && |entries| == 1 && Coherent(entries, 10, 100, file)
      && var later := PutAll(entries, 10, 200, 0, [1]);
         var hit := Get(later, 10, 105, 0);
         hit.Some? && |file| == BLK && hit.value != Overwrite(file, 0, [1])
  {
    var zeros := seq(BLK, i => 0 as byte);
    var entries := [Entry(zeros, 0, 100)];
    assert zeros[0..0 + BLK] == zeros;
    assert Slot(1, 0) == 0;
    assert Coherent(entries, 10, 100, zeros);
    assert Room(0, 1) == 1;
    var one: seq<byte> := [1];
    assert one[..1] == one && one[1..] == [];
    assert PutPiece(entries, 10, 200, 0, one) == entries;
    assert PutAll(entries, 10, 200, 0, one) == PutAll(entries, 10, 200, 1, []) == entries;
    OverwriteAt(zeros, 0, one, 0);
    assert Overwrite(zeros, 0, one)[0] == 1 && zeros[0] == 0;
  }

  // ---- slots ----

  lemma PageNumber(p: nat)
    ensures (p * BLK) % WORD / BLK == p % 0x10_0000
  {
    var q, r := p / 0x10_0000, p % 0x10_0000;
    assert p * BLK == WORD * q + r * BLK;
  }

  lemma {:induction false} Pow2Splits(a: nat, b: nat)
    ensures HashSpread.Pow2(a + b) == HashSpread.Pow2(a) * HashSpread.Pow2(b)
  {
    if a > 0 {
      Pow2Splits(a - 1, b);
      assert 2 * (HashSpread.Pow2(a - 1) * HashSpread.Pow2(b)) == HashSpread.Pow2(a) * HashSpread.Pow2(b);
    }
  }

  lemma Pow2Is20()
    ensures HashSpread.Pow2(20) == 0x10_0000
  {
    HashSpread.Pow2Is1024();
    Pow2Splits(10, 10);
  }

  lemma ResiduesApart(n: nat, c: nat, x: nat, y: nat, r: int)
    requires n * c == 0x10_0000 && x < y < x + n
    ensures y % 0x10_0000 - x % 0x10_0000 != n * r
  {
    var s := y / 0x10_0000 - x / 0x10_0000;
    assert y - x == (y % 0x10_0000 - x % 0x10_0000) + 0x10_0000 * s;
    assert 0x10_0000 * s == n * (c * s) by { assert (n * c) * s == n * (c * s); }
    if y % 0x10_0000 - x % 0x10_0000 == n * r {
      assert n * r + n * (c * s) == n * (r + c * s);
      HashSpread.NoMultiple(n, y - x, r + c * s);
    }
  }

  lemma SlotApart(n: nat, k: nat, c: nat, x: nat, y: nat)
    requires n == HashSpread.Pow2(k) && n * c == 0x10_0000 && x < y < x + n
    ensures Slot(n, x * BLK) != Slot(n, y * BLK)
  {
    var m := 2654435761;
    PageNumber(x);
    PageNumber(y);
    var a, b := x % 0x10_0000, y % 0x10_0000;
    if (m * (1 + b)) % n == (m * (1 + a)) % n {
      HashSpread.OddInjective(m, k, 1 + b, 1 + a);
      var r: int :| (1 + b) - (1 + a) == n * r;
      ResiduesApart(n, c, x, y, r);
    }
  }

  /** In a cache of more than 2^20 pages. */
  lemma SlotApartLarge(n: nat, k: nat, x: nat, y: nat)
    requires n == HashSpread.Pow2(k) >= 0x10_0000 && x < y < x + 0x10_0000
    ensures Slot(n, x * BLK) != Slot(n, y * BLK)
  {
    var m := 2654435761;
    PageNumber(x);
    PageNumber(y);
    var a, b := x % 0x10_0000, y % 0x10_0000;
    if a < b {
      HashSpread.NeighboursApart(m, k, 1 + a, 1 + b);
    } else {
      assert a != b;
      HashSpread.NeighboursApart(m, k, 1 + b, 1 + a);
    }
  }

  /** Of a cache of `n == 2^k` pages any `n` consecutive pages fall into different slots, as long as they
      span no more than the 2^32 bytes after which the page numbers repeat. */
  lemma PagesApart(k: nat, first: nat, i: nat, j: nat)
    requires i < j < HashSpread.Pow2(k) && j - i < 0x10_0000
    ensures var n := HashSpread.Pow2(k); Slot(n, (first + i) * BLK) != Slot(n, (first + j) * BLK)
  {
    Pow2Is20();
    if k <= 20 {
      Pow2Splits(k, 20 - k);
      SlotApart(HashSpread.Pow2(k), k, HashSpread.Pow2(20 - k), first + i, first + j);
    } else {
      Pow2Splits(20, k - 20);
      assert HashSpread.Pow2(k) >= 0x10_0000 * 1;
      SlotApartLarge(HashSpread.Pow2(k), k, first + i, first + j);
    }
  }

  // ---- the cache itself ----

  /** `struct nfs_pagecache`. */
  class Cache {
    var entries: array<Entry>
    const ttl: nat

    constructor (pages: nat, ttl: nat)
      ensures this.ttl == ttl && entries.Length == pages && fresh(entries)
      ensures forall now, file :: Coherent(entries[..], ttl, now, file)
      ensures entries[..] == seq(pages, i => BLANK)
    {
      entries, this.ttl := new Entry[pages](i => BLANK), ttl;
    }

    method Invalidate()
      modifies entries
      ensures entries[..] == seq(entries.Length, i => BLANK)
    {
      for i := 0 to entries.Length
        invariant forall k :: 0 <= k < i ==> entries[k] == BLANK
      {
        entries[i] := BLANK;
      }
    }

    method Put(offset: nat, data: seq<byte>, now: nat)
      modifies entries
      ensures entries.Length > 0 ==> entries[..] == PutAll(old(entries[..]), ttl, now, offset, data)
    {
      if entries.Length == 0 {
        return;
      }
      hide PutPiece;
      var at, rest := offset, data;
      while rest != []
        invariant PutAll(entries[..], ttl, now, at, rest) == PutAll(old(entries[..]), ttl, now, offset, data)
        decreases |rest|
      {
        var n := Room(at, |rest|);
        PutOne(at, rest[..n], now);
        at, rest := at + n, rest[n..];
      }
    }

    method PutOne(offset: nat, data: seq<byte>, now: nat)
      requires entries.Length > 0 && offset % BLK + |data| <= BLK
      modifies entries
      ensures entries[..] == PutPiece(old(entries[..]), ttl, now, offset, data)
    {
      hide Slot, Splice, PageOf, Stamp;
      var page := PageOf(offset);
      var h := Slot(entries.Length, page);
      var e := entries[h];
      if |data| == BLK || (Live(e, ttl, now) && e.offset == page) {
        entries[h] := Entry(Splice(e.buf, offset % BLK, data), page, Stamp(ttl, now));
      }
    }

    method Lookup(offset: nat, now: nat) returns (page: Option<Page>)
      requires entries.Length > 0
      ensures page == Get(entries[..], ttl, now, offset)
    {
      var e := entries[Slot(entries.Length, offset)];
      if offset != e.offset || e.ts == 0 {
        return None;
      }
      if ttl != 0 && now > e.ts + ttl {
        return None;
      }
      return Some(e.buf);
    }
  }
}
