/** When the page cache returns a page: the exact hits and misses of every run. */
module CacheHits {
  import opened Bytes
  import opened Prelude
  import opened PageCache
  import HashSpread

  /** A page that was last stored at `held` is still good at `now`: there is no TTL, or it is not over. Time 0
      stands for no time at all. */
  predicate Current(held: Option<nat>, ttl: nat, now: nat) {
    held.Some? && (ttl == 0 || (held.value > 0 && now <= held.value + ttl))
  }

  /** When `page` was last stored, after bytes of one page have been stored at `now`. A whole page always goes
      in; a part renews the page it belongs to while that is good; a whole other page takes over the slot. */
  function Touched(n: nat, ttl: nat, now: nat, page: nat, held: Option<nat>, at: nat, whole: bool): Option<nat>
    requires n > 0
  {
    if at == page then (if whole || Current(held, ttl, now) then Some(now) else held)
    else if whole && Slot(n, at) == Slot(n, page) then None
    else held
  }

  /** The same for `len` bytes at `offset`, page after page. */
  function Stored(n: nat, ttl: nat, now: nat, page: nat, held: Option<nat>, offset: nat, len: nat): Option<nat>
    requires n > 0
    decreases len
  {
    if len == 0 then held else
      var at := offset / BLK * BLK;
      var end := Min(at + BLK, offset + len);
      Stored(n, ttl, now, page, Touched(n, ttl, now, page, held, at, end - offset == BLK), end, offset + len - end)
  }

  function HeldAfter(s: State, op: Op, page: nat, held: Option<nat>): Option<nat>
    requires |s.entries| > 0
  {
    match op
    case Wrote(offset, data) => Stored(|s.entries|, s.ttl, s.now, page, held, offset, |data|)
    case Fetched(offset, len) => Stored(|s.entries|, s.ttl, s.now, page, held, offset, len)
    case Invalidated => None
    case Tick(_) => held
  }

  function HeldRun(s: State, ops: seq<Op>, page: nat, held: Option<nat>): Option<nat>
    requires |s.entries| > 0 && Feasible(s, ops)
    decreases |ops|
  {
    if ops == [] then held else HeldRun(Next(s, ops[0]), ops[1..], page, HeldAfter(s, ops[0], page, held))
  }

  /** What the slot of `page` holds. */
  predicate Kept(entries: seq<Entry>, ttl: nat, page: nat, held: Option<nat>)
    requires |entries| > 0
  {
    var e := entries[Slot(|entries|, page)];
    if held.Some? then e.offset == page && if ttl == 0 then e.ts != 0 else e.ts == held.value
    else e.offset != page || e.ts == 0
  }

  lemma KeptIsHit(entries: seq<Entry>, ttl: nat, page: nat, held: Option<nat>, now: nat)
    requires |entries| > 0 && Kept(entries, ttl, page, held)
    ensures Get(entries, ttl, now, page).Some? <==> Current(held, ttl, now)
  {
    hide Slot;
  }

  lemma PageNumberOf(offset: nat)
    ensures PageOf(offset) == offset / BLK * BLK
  {
  }

  lemma PieceKept(entries: seq<Entry>, ttl: nat, now: nat, page: nat, held: Option<nat>, offset: nat, data: seq<byte>)
    requires |entries| > 0 && offset % BLK + |data| <= BLK && Kept(entries, ttl, page, held)
    ensures Kept(PutPiece(entries, ttl, now, offset, data), ttl, page,
                 Touched(|entries|, ttl, now, page, held, PageOf(offset), |data| == BLK))
  {
    hide Slot, Splice;
  }

  lemma {:induction false} PutKept(entries: seq<Entry>, ttl: nat, now: nat, page: nat, held: Option<nat>, offset: nat,
                                   data: seq<byte>)
    requires |entries| > 0 && Kept(entries, ttl, page, held)
    ensures Kept(PutAll(entries, ttl, now, offset, data), ttl, page,
                 Stored(|entries|, ttl, now, page, held, offset, |data|))
    decreases |data|
  {
    hide Kept, PutPiece, Touched, PageOf;
    if data != [] {
      var n := Room(offset, |data|);
      PageNumberOf(offset);
      assert Min(offset / BLK * BLK + BLK, offset + |data|) == offset + n;
      PieceKept(entries, ttl, now, page, held, offset, data[..n]);
      PutKept(PutPiece(entries, ttl, now, offset, data[..n]), ttl, now, page,
              Touched(|entries|, ttl, now, page, held, PageOf(offset), n == BLK), offset + n, data[n..]);
    }
  }

  lemma NextKept(s: State, op: Op, page: nat, held: Option<nat>)
    requires |s.entries| > 0 && Enabled(s, op) && Kept(s.entries, s.ttl, page, held)
    ensures var t := Next(s, op);
      |t.entries| == |s.entries| && t.ttl == s.ttl && Kept(t.entries, t.ttl, page, HeldAfter(s, op, page, held))
  {
    hide PutAll, Stored, Slot, Overwrite;
    match op
    case Wrote(offset, data) => PutKept(s.entries, s.ttl, s.now, page, held, offset, data);
    case Fetched(offset, len) => PutKept(s.entries, s.ttl, s.now, page, held, offset, s.file[offset..offset + len]);
    case Invalidated =>
    case Tick(_) =>
  }

  lemma {:induction false} RunKept(s: State, ops: seq<Op>, page: nat, held: Option<nat>)
    requires |s.entries| > 0 && Feasible(s, ops) && Kept(s.entries, s.ttl, page, held)
    ensures var t := After(s, ops);
      |t.entries| == |s.entries| && t.ttl == s.ttl && Kept(t.entries, t.ttl, page, HeldRun(s, ops, page, held))
    decreases |ops|
  {
    hide Next, Kept, HeldAfter;
    if ops != [] {
      NextKept(s, ops[0], page, held);
      RunKept(Next(s, ops[0]), ops[1..], page, HeldAfter(s, ops[0], page, held));
    }
  }

  /** From an empty cache, after any run: a page is returned exactly when it has been stored and not been
      replaced or invalidated since, and its time is not over. */
  lemma HitExact(s: State, ops: seq<Op>, page: nat)
    requires |s.entries| > 0 && (forall i :: 0 <= i < |s.entries| ==> s.entries[i] == BLANK) && Feasible(s, ops)
    ensures var t := After(s, ops);
      && |t.entries| > 0
      && (Get(t.entries, t.ttl, t.now, page).Some? <==> Current(HeldRun(s, ops, page, None), t.ttl, t.now))
  {
    hide After, HeldRun, Feasible, Slot, Current;
    RunKept(s, ops, page, None);
    var t := After(s, ops);
    KeptIsHit(t.entries, t.ttl, page, HeldRun(s, ops, page, None), t.now);
  }

  /** A whole page that is stored is returned until its time is over, and not after; with what was stored. */
  lemma StoredIsHit(entries: seq<Entry>, ttl: nat, now: nat, page: nat, data: seq<byte>, later: nat)
    requires |entries| > 0 && page % BLK == 0 && |data| == BLK && now > 0
    ensures Get(PutAll(entries, ttl, now, page, data), ttl, later, page) ==
      if ttl == 0 || later <= now + ttl then Some(data) else None
  {
    hide Slot;
    assert data[..BLK] == data && data[BLK..] == [];
    var e := entries[Slot(|entries|, page)];
    assert Splice(e.buf, 0, data) == data;
  }

  /** Storing a part of a page that is good renews it. */
  lemma PartRenews(entries: seq<Entry>, ttl: nat, now: nat, offset: nat, data: seq<byte>, later: nat)
    requires |entries| > 0 && 0 < |data| && offset % BLK + |data| <= BLK && now > 0
    requires Get(entries, ttl, now, PageOf(offset)).Some?
    ensures var was := Get(entries, ttl, now, PageOf(offset)).value;
      Get(PutAll(entries, ttl, now, offset, data), ttl, later, PageOf(offset)) ==
        if ttl == 0 || later <= now + ttl then Some(Splice(was, offset % BLK, data)) else None
  {
    hide Slot, Splice;
    assert data[..|data|] == data && data[|data|..] == [];
  }

  /** No other page of the `len` bytes at `offset` falls into the slot of `page`. */
  predicate NoClash(n: nat, page: nat, offset: nat, len: nat)
    requires n > 0
  {
    forall q :: q % BLK == 0 && offset <= q < offset + len && q != page ==> Slot(n, q) != Slot(n, page)
  }

  lemma {:induction false} StoredBehind(n: nat, ttl: nat, now: nat, page: nat, held: Option<nat>, offset: nat, len: nat)
    requires n > 0 && offset % BLK == 0 && NoClash(n, page, offset, len) && (offset > page || page >= offset + len)
    ensures Stored(n, ttl, now, page, held, offset, len) == held
    decreases len
  {
    hide Slot;
    if len > 0 {
      var end := Min(offset + BLK, offset + len);
      if end < offset + len {
        StoredBehind(n, ttl, now, page, held, end, offset + len - end);
      }
    }
  }

  lemma PageStored(n: nat, ttl: nat, now: nat, page: nat, held: Option<nat>, offset: nat, len: nat)
    requires n > 0 && offset % BLK == 0 && BLK <= len
    ensures Stored(n, ttl, now, page, held, offset, len) ==
      Stored(n, ttl, now, page, Touched(n, ttl, now, page, held, offset, true), offset + BLK, len - BLK)
  {
    hide Touched;
  }

  lemma {:induction false} StoredWhole(n: nat, ttl: nat, now: nat, page: nat, held: Option<nat>, offset: nat, len: nat)
    requires n > 0 && offset % BLK == 0 && page % BLK == 0 && offset <= page && page + BLK <= offset + len
    requires NoClash(n, page, offset, len)
    ensures Stored(n, ttl, now, page, held, offset, len) == Some(now)
    decreases len
  {
    hide Slot, Stored;
    PageStored(n, ttl, now, page, held, offset, len);
    if offset == page {
      StoredBehind(n, ttl, now, page, Some(now), offset + BLK, len - BLK);
    } else {
      StoredWhole(n, ttl, now, page, held, offset + BLK, len - BLK);
    }
  }

  lemma SomeKept(entries: seq<Entry>, ttl: nat, page: nat) returns (held: Option<nat>)
    requires |entries| > 0
    ensures Kept(entries, ttl, page, held)
  {
    var e := entries[Slot(|entries|, page)];
    held := if e.offset == page && e.ts != 0 then Some(e.ts) else None;
  }

  /** Of many pages stored together each is returned afterwards, if no two share a slot. */
  lemma RangeIsHit(entries: seq<Entry>, ttl: nat, now: nat, start: nat, data: seq<byte>, page: nat, later: nat)
    requires |entries| > 0 && start % BLK == 0 && page % BLK == 0 && start <= page && page + BLK <= start + |data|
    requires NoClash(|entries|, page, start, |data|) && now > 0 && (ttl == 0 || later <= now + ttl)
    ensures Get(PutAll(entries, ttl, now, start, data), ttl, later, page).Some?
  {
    hide PutAll, Stored, Slot, NoClash, Kept;
    var held := SomeKept(entries, ttl, page);
    PutKept(entries, ttl, now, page, held, start, data);
    StoredWhole(|entries|, ttl, now, page, held, start, |data|);
    KeptIsHit(PutAll(entries, ttl, now, start, data), ttl, page, Some(now), later);
  }

  /** As many pages in a row as the cache has do not share one. */
  lemma RowApart(k: nat, page: nat, start: nat, len: nat)
    requires start % BLK == 0 && page % BLK == 0 && start <= page < start + len
    requires len <= HashSpread.Pow2(k) * BLK && len <= WORD
    ensures NoClash(HashSpread.Pow2(k), page, start, len)
  {
    hide Slot;
    var n, first := HashSpread.Pow2(k), start / BLK;
    forall q | q % BLK == 0 && start <= q < start + len && q != page ensures Slot(n, q) != Slot(n, page) {
      var i, j := q / BLK - first, page / BLK - first;
      assert (first + i) * BLK == q && (first + j) * BLK == page;
      if i < j {
        PagesApart(k, first, i, j);
      } else {
        PagesApart(k, first, j, i);
      }
    }
  }
}
