/** Sizing of the page cache and of the read-ahead window (`init.c`, `nfs_v3.c`). */
module ReadAhead {
  import opened Prelude
  import opened HashSpread
  import PageCache

  const BLK: nat := PageCache.BLK
  const HALF_WORD: nat := 0x8000_0000

  ghost predicate IsPow2(x: nat) {
    exists k: nat :: x == Pow2(k)
  }

  lemma {:induction false} Pow2Grows(a: nat, b: nat)
    requires a < b
    ensures 2 * Pow2(a) <= Pow2(b)
    decreases b
  {
    if a < b - 1 {
      Pow2Grows(a, b - 1);
    }
  }

  lemma NextPow2(x: nat, y: nat)
    requires IsPow2(x) && IsPow2(y) && x < y
    ensures 2 * x <= y
  {
    var a: nat :| x == Pow2(a);
    var b: nat :| y == Pow2(b);
    if b <= a {
      if b < a {
        Pow2Grows(b, a);
      }
    } else {
      Pow2Grows(a, b);
    }
  }

  lemma DoublePow2(x: nat)
    requires IsPow2(x)
    ensures IsPow2(2 * x)
  {
    var a: nat :| x == Pow2(a);
    assert 2 * x == Pow2(a + 1);
  }

  lemma BlkIsPow2()
    ensures IsPow2(BLK) && BLK == Pow2(12) && IsPow2(1) && IsPow2(HALF_WORD)
  {
    Pow2Is1024();
    assert Pow2(11) == 2048 && Pow2(12) == 4096;
    PageCache.Pow2Is20();
    PageCache.Pow2Splits(20, 11);
    assert 1 == Pow2(0);
  }

  /** `round_to_power_of_two`: the least power of two that is no smaller. */
  method RoundUp(x: nat) returns (power: nat)
    requires x <= HALF_WORD
    ensures IsPow2(power) && x <= power <= HALF_WORD
    ensures forall y: nat :: IsPow2(y) && x <= y ==> power <= y
  {
    BlkIsPow2();
    power := 1;
    while power < x
      invariant IsPow2(power) && power <= HALF_WORD
      invariant forall y: nat :: IsPow2(y) && x <= y ==> power <= y
      decreases x - power
    {
      forall y: nat | IsPow2(y) && x <= y ensures 2 * power <= y {
        NextPow2(power, y);
      }
      NextPow2(power, HALF_WORD);
      DoublePow2(power);
      power := 2 * power;
    }
  }

  /** Above 2^31 no 32-bit doubling ever gets there: the loop cannot end. */
  lemma RoundUpDiverges(x: nat, k: nat)
    requires HALF_WORD < x < 2 * HALF_WORD
    ensures Pow2(k) % (2 * HALF_WORD) < x
  {
    hide Pow2;
    if k <= 31 {
      UpTo31(k);
    } else {
      PageCache.Pow2Splits(32, k - 32);
      Pow2Is32();
      WordMultiple(Pow2(k), Pow2(k - 32));
    }
  }

  lemma UpTo31(k: nat)
    requires k <= 31
    ensures Pow2(k) <= HALF_WORD
  {
    PageCache.Pow2Is20();
    PageCache.Pow2Splits(20, 11);
    Pow2Is1024();
    if k < 31 {
      Pow2Grows(k, 31);
    }
  }

  lemma WordMultiple(p: nat, m: nat)
    requires p == (2 * HALF_WORD) * m
    ensures p % (2 * HALF_WORD) == 0
  {
  }

  lemma Pow2Is32()
    ensures Pow2(32) == 2 * HALF_WORD
  {
    BlkIsPow2();
    PageCache.Pow2Is20();
    PageCache.Pow2Splits(20, 12);
  }

  /** A setting of the read-ahead, rounded up to a power of two and to a page. */
  method WindowSize(v: nat) returns (r: nat)
    requires v <= HALF_WORD
    ensures v <= r <= HALF_WORD && (v == 0 <==> r == 0) && (r == 0 || (IsPow2(r) && r >= BLK))
    ensures v > HALF_WORD / 2 <==> r == HALF_WORD
    ensures v > 0 ==> forall y: nat :: IsPow2(y) && y >= v && y >= BLK ==> r <= y
  {
    hide IsPow2;
    BlkIsPow2();
    QuarterIsPow2();
    r := v;
    if v != 0 {
      r := RoundUp(v);
      if HALF_WORD / 2 < v {
        NextPow2(HALF_WORD / 2, r);
      }
      if r < BLK {
        r := BLK;
      }
    }
  }

  /** The two settings as `rpc_context` keeps them. */
  class Settings {
    var readahead: nat
    var pagecache: nat

    ghost predicate Valid()
      reads this
    {
      && (readahead == 0 || (IsPow2(readahead) && readahead >= BLK))
      && (pagecache == 0 || IsPow2(pagecache))
    }

    constructor ()
      ensures Valid() && readahead == 0 && pagecache == 0
    {
      readahead, pagecache := 0, 0;
    }

    /** The least power of two that is neither less than the setting nor less than before. */
    method SetPagecache(v: nat)
      requires Valid() && v <= HALF_WORD
      modifies `pagecache
      ensures Valid() && IsPow2(pagecache) && pagecache >= v && pagecache >= old(pagecache)
      ensures forall p: nat :: IsPow2(p) && p >= v && p >= old(pagecache) ==> pagecache <= p
    {
      var p := RoundUp(v);
      pagecache := if pagecache > p then pagecache else p;
    }

    /** The cache ends up with room for twice the window exactly up to settings of 2^30, or when it
        had that room before: above, the 32-bit product wraps to 0 and nothing is sized. */
    method SetReadahead(v: nat)
      requires Valid() && v <= HALF_WORD
      modifies this
      ensures Valid() && readahead >= v && (v == 0 <==> readahead == 0) && pagecache >= old(pagecache)
      ensures v > HALF_WORD / 2 ==> readahead == HALF_WORD && pagecache == old(pagecache)
      ensures pagecache * BLK >= 2 * readahead <==> v <= HALF_WORD / 2 || old(pagecache) * BLK >= 2 * HALF_WORD
      ensures v > 0 ==> forall r: nat :: IsPow2(r) && r >= v && r >= BLK ==> readahead <= r
      ensures v <= HALF_WORD / 2 ==>
        forall p: nat :: IsPow2(p) && p * BLK >= 2 * readahead && p >= old(pagecache) ==> pagecache <= p
    {
      hide IsPow2;
      BlkIsPow2();
      readahead := WindowSize(v);
      var min := (2 * readahead) % (2 * HALF_WORD) / BLK;
      forall p: nat ensures readahead < HALF_WORD ==> (p * BLK >= 2 * readahead <==> p >= min) {
        if readahead < HALF_WORD {
          RoomIff(readahead, p);
        }
      }
      if pagecache < min {
        SetPagecache(min);
      }
    }
  }

  /** A fresh context set to read ahead 2^31 bytes has no page cache for them. */
  method UnsizedCache() returns (readahead: nat, pages: nat)
    ensures readahead == HALF_WORD && pages == 0
  {
    var settings := new Settings();
    settings.SetReadahead(HALF_WORD);
    readahead, pages := settings.readahead, settings.pagecache;
  }

  lemma QuarterIsPow2()
    ensures IsPow2(HALF_WORD / 2)
  {
    PageCache.Pow2Is20();
    Pow2Is1024();
    PageCache.Pow2Splits(20, 10);
  }

  lemma RoomIff(r: nat, pages: nat)
    requires r == 0 || (IsPow2(r) && r >= BLK)
    ensures pages * BLK >= 2 * r <==> pages >= 2 * r / BLK
  {
    if r != 0 {
      var k: nat :| r == Pow2(k);
      BlkIsPow2();
      if k < 12 {
        Pow2Grows(k, 12);
      }
      PageCache.Pow2Splits(12, k - 12);
      WholePages(r, Pow2(k - 12), pages);
    }
  }

  lemma WholePages(r: nat, m: nat, pages: nat)
    requires r == BLK * m
    ensures pages * BLK >= 2 * r <==> pages >= 2 * r / BLK
  {
    assert 2 * r == (2 * m) * BLK;
    assert 2 * r / BLK == 2 * m;
  }

  /** The window after a read that starts at `at`: it doubles while reads are sequential, up to
      the setting, and closes otherwise. */
  function NextWindow(window: nat, readahead: nat, fhOffset: nat, at: nat): nat {
    if readahead == 0 then window
    else
      var w := if window > BLK then window else BLK;
      if fhOffset <= at <= fhOffset + w + BLK then (if readahead > w then 2 * w else w) else 0
  }

  ghost predicate WindowOk(window: nat, readahead: nat) {
    window == 0 || (IsPow2(window) && BLK <= window <= readahead)
  }

  /** Under a fixed setting the window stays closed or a power of two between one page and the setting. */
  lemma WindowKept(window: nat, readahead: nat, fhOffset: nat, at: nat)
    requires WindowOk(window, readahead) && (readahead == 0 || (IsPow2(readahead) && readahead >= BLK))
    ensures WindowOk(NextWindow(window, readahead, fhOffset, at), readahead)
  {
    if readahead != 0 {
      BlkIsPow2();
      var w := if window > BLK then window else BLK;
      if readahead > w {
        NextPow2(w, readahead);
        DoublePow2(w);
      }
    }
  }

  /** A read that goes to the wire at `at` when the last one ended at `fhOffset`. */
  datatype Wire = Wire(fhOffset: nat, at: nat)

  function WindowAfter(window: nat, readahead: nat, run: seq<Wire>): nat
    decreases |run|
  {
    if run == [] then window
    else
      var last := |run| - 1;
      NextWindow(WindowAfter(window, readahead, run[..last]), readahead, run[last].fhOffset, run[last].at)
  }

  /** The window after `k` reads in a row: one page doubled with each, up to the setting. */
  function Opened(k: nat, readahead: nat): nat {
    if k == 0 then 0 else Min(Pow2(k) * BLK, readahead)
  }

  /** Each read goes on where the last one ended, or not further ahead than the window and a page. */
  predicate InARow(run: seq<Wire>, readahead: nat) {
    forall i :: 0 <= i < |run| ==>
      run[i].fhOffset <= run[i].at <= run[i].fhOffset + Max(Opened(i, readahead), BLK) + BLK
  }

  /** Reads in a row open the window: after `k` of them it is 2^k pages, or the setting if that is less. */
  lemma {:induction false} WindowOpens(readahead: nat, run: seq<Wire>)
    requires IsPow2(readahead) && readahead >= BLK && InARow(run, readahead)
    ensures WindowAfter(0, readahead, run) == Opened(|run|, readahead)
    decreases |run|
  {
    hide Opened;
    FirstOpened(readahead);
    if run != [] {
      var last := |run| - 1;
      assert InARow(run[..last], readahead);
      WindowOpens(readahead, run[..last]);
      OpenedMore(last, readahead);
    }
  }

  lemma FirstOpened(readahead: nat)
    ensures Opened(0, readahead) == 0
  {
  }

  lemma OpenedMore(k: nat, readahead: nat)
    requires IsPow2(readahead) && readahead >= BLK
    ensures var w := Max(Opened(k, readahead), BLK);
      Opened(k + 1, readahead) == if readahead > w then 2 * w else w
  {
    BlkIsPow2();
    assert Pow2(k + 1) == 2 * Pow2(k);
    PageCache.Pow2Splits(k, 12);
    var size := Pow2(k) * BLK;
    assert IsPow2(size);
    PageFirst(k);
    if size < readahead {
      NextPow2(size, readahead);
    }
  }

  lemma PageFirst(k: nat)
    ensures Pow2(k) * BLK >= BLK && (k == 0 ==> Pow2(k) * BLK == BLK)
  {
  }

  /** A read that starts before the last one ended, or further ahead than the window and a page, closes it. */
  lemma SeekCloses(window: nat, readahead: nat, fhOffset: nat, at: nat)
    requires readahead > 0 && (at < fhOffset || at > fhOffset + Max(window, BLK) + BLK)
    ensures NextWindow(window, readahead, fhOffset, at) == 0
  {
  }

  /** A window is whole pages. */
  lemma WindowWhole(window: nat, readahead: nat)
    requires WindowOk(window, readahead)
    ensures window % BLK == 0
  {
    if window != 0 {
      var a: nat :| window == Pow2(a);
      BlkIsPow2();
      if a < 12 {
        Pow2Grows(a, 12);
      } else {
        PageCache.Pow2Splits(a - 12, 12);
        assert window == Pow2(a - 12) * BLK;
      }
    }
  }

  /** So with the cache sized by `SetReadahead` a window's pages have a slot each. */
  lemma WindowFits(window: nat, readahead: nat, pages: nat, k: nat, first: nat, i: nat, j: nat)
    requires WindowOk(window, readahead) && pages == Pow2(k) && pages * BLK >= 2 * readahead
    requires readahead < 2 * HALF_WORD && i < j && j * BLK < window
    ensures PageCache.Slot(pages, (first + i) * BLK) != PageCache.Slot(pages, (first + j) * BLK)
  {
    assert j < pages;
    PageCache.PagesApart(k, first, i, j);
  }
}
