/** Bookkeeping for the chunks of a split request that are in flight. */
module Chunks {
  import opened Prelude

  /** The byte range one request in flight still has to deal with (`nfs_mcb_data`). */
  datatype Chunk = Chunk(offset: nat, count: nat)

  /** What has gone wrong with a split request: an error, a cancellation, or a request that could not be sent. */
  datatype Flags = Flags(error: bool, cancel: bool, oom: bool) {
    predicate Clear() {
      !error && !cancel && !oom
    }

    /** What the caller is told. */
    function Code(): int {
      if oom then ENOMEM else if error then EFAULT else EINTR
    }
  }

  const CLEAR := Flags(false, false, false)

  predicate In(c: Chunk, pos: nat) {
    c.offset <= pos < c.offset + c.count
  }

  predicate InFlight(pending: seq<Chunk>, pos: nat) {
    exists i :: 0 <= i < |pending| && In(pending[i], pos)
  }

  predicate Apart(a: Chunk, b: Chunk) {
    a.offset + a.count <= b.offset || b.offset + b.count <= a.offset
  }

  predicate Disjoint(pending: seq<Chunk>) {
    forall i, j :: 0 <= i < j < |pending| ==> Apart(pending[i], pending[j])
  }

  predicate Inside(pending: seq<Chunk>, from: nat, to: nat) {
    forall i :: 0 <= i < |pending| ==> from <= pending[i].offset && pending[i].offset + pending[i].count <= to
  }

  function Without(pending: seq<Chunk>, i: nat): (r: seq<Chunk>)
    requires i < |pending|
    ensures |r| == |pending| - 1
  {
    pending[..i] + pending[i + 1..]
  }

  lemma RemovedChunk(pending: seq<Chunk>, i: nat, from: nat, to: nat)
    requires i < |pending| && Disjoint(pending) && Inside(pending, from, to)
    ensures Disjoint(Without(pending, i)) && Inside(Without(pending, i), from, to)
  {
    var w := Without(pending, i);
    forall j, k | 0 <= j < k < |w| ensures Apart(w[j], w[k]) {
      var j', k' := if j < i then j else j + 1, if k < i then k else k + 1;
      assert w[j] == pending[j'] && w[k] == pending[k'];
    }
  }

  lemma WithoutAt(pending: seq<Chunk>, i: nat, k: nat)
    requires i < |pending| && k < |pending| - 1
    ensures Without(pending, i)[k] == pending[if k < i then k else k + 1]
  {
  }

  lemma RemovedFlight(pending: seq<Chunk>, i: nat, pos: nat)
    requires i < |pending| && Disjoint(pending)
    ensures InFlight(Without(pending, i), pos) <==> InFlight(pending, pos) && !In(pending[i], pos)
  {
    hide Without;
    var w := Without(pending, i);
    if InFlight(w, pos) {
      var k :| 0 <= k < |w| && In(w[k], pos);
      var j := if k < i then k else k + 1;
      WithoutAt(pending, i, k);
      assert Apart(pending[if i < j then i else j], pending[if i < j then j else i]);
    }
    if InFlight(pending, pos) && !In(pending[i], pos) {
      var j :| 0 <= j < |pending| && In(pending[j], pos);
      var k := if j < i then j else j - 1;
      WithoutAt(pending, i, k);
      assert In(w[k], pos);
    }
  }

  function Rest(c: Chunk, n: nat): Chunk
    requires n <= c.count
  {
    Chunk(c.offset + n, c.count - n)
  }

  /** Asking again for the rest of chunk `i`. */
  lemma ReissuedChunk(pending: seq<Chunk>, i: nat, n: nat, from: nat, to: nat)
    requires i < |pending| && Disjoint(pending) && Inside(pending, from, to) && n <= pending[i].count
    ensures Disjoint(pending[i := Rest(pending[i], n)]) && Inside(pending[i := Rest(pending[i], n)], from, to)
  {
    var r := pending[i := Rest(pending[i], n)];
    forall j, k | 0 <= j < k < |r| ensures Apart(r[j], r[k]) {
      assert Apart(pending[j], pending[k]);
    }
  }

  lemma ReissuedFlight(pending: seq<Chunk>, i: nat, n: nat, pos: nat)
    requires i < |pending| && Disjoint(pending) && n <= pending[i].count
    ensures var c := pending[i];
      InFlight(pending[i := Rest(c, n)], pos) <==> InFlight(pending, pos) && !(c.offset <= pos < c.offset + n)
  {
    var c := pending[i];
    var r := pending[i := Rest(c, n)];
    if InFlight(r, pos) {
      var k :| 0 <= k < |r| && In(r[k], pos);
      assert In(pending[k], pos);
      assert k != i ==> Apart(pending[if i < k then i else k], pending[if i < k then k else i]);
    }
    if InFlight(pending, pos) && !(c.offset <= pos < c.offset + n) {
      var j :| 0 <= j < |pending| && In(pending[j], pos);
      assert In(r[j], pos);
    }
  }

  /** No chunk is longer than the server takes. */
  predicate AtMost(pending: seq<Chunk>, max: nat) {
    forall i :: 0 <= i < |pending| ==> pending[i].count <= max
  }

  /** The bytes in flight, and one for each chunk. */
  function Weight(pending: seq<Chunk>): nat {
    if pending == [] then 0 else Weight(pending[..|pending| - 1]) + pending[|pending| - 1].count + 1
  }

  lemma WeightIs(pending: seq<Chunk>)
    ensures Weight(pending) == 0 <==> pending == []
  {
  }

  lemma {:induction false} ReissuedWeight(pending: seq<Chunk>, i: nat, n: nat)
    requires i < |pending| && n <= pending[i].count
    ensures Weight(pending[i := Rest(pending[i], n)]) == Weight(pending) - n
    decreases |pending|
  {
    var last := |pending| - 1;
    var p := pending[i := Rest(pending[i], n)];
    if i == last {
      assert p[..last] == pending[..last];
    } else {
      ReissuedWeight(pending[..last], i, n);
      assert p[..last] == pending[..last][i := Rest(pending[i], n)];
    }
  }

  lemma {:induction false} RemovedWeight(pending: seq<Chunk>, i: nat)
    requires i < |pending|
    ensures Weight(Without(pending, i)) == Weight(pending) - pending[i].count - 1
    decreases |pending|
  {
    var last := |pending| - 1;
    var w := Without(pending, i);
    if i == last {
      assert w == pending[..last];
    } else {
      RemovedWeight(pending[..last], i);
      assert w[..last - 1] == Without(pending[..last], i);
      assert w[last - 1] == pending[last];
    }
  }

  /** `left` bytes from `at` on, in chunks of at most `max`; one chunk even if there are none. */
  function Cuts(at: nat, left: nat, max: nat): (r: seq<Chunk>)
    requires max > 0
    ensures r != []
    decreases left
  {
    var n := Min(left, max);
    [Chunk(at, n)] + if left == n then [] else Cuts(at + n, left - n, max)
  }

  lemma OneCut(at: nat, left: nat, max: nat, p: seq<Chunk>)
    requires max > 0 && left <= max && p <= Cuts(at, left, max) && p != []
    ensures p == [Chunk(at, left)]
  {
    CutsIs(at, left, max);
  }

  /** All chunks but the last are as long as allowed, one behind the other. */
  lemma {:induction false} CutsAre(at: nat, left: nat, max: nat, i: nat)
    requires max > 0
    ensures var r := Cuts(at, left, max);
      && (i < |r| <==> i == 0 || i * max < left)
      && (i < |r| ==> r[i] == Chunk(at + i * max, Min(max, left - i * max)))
    decreases left
  {
    hide Cuts;
    CutsIs(at, left, max);
    if i > 0 {
      assert i * max == (i - 1) * max + max;
      if left > max {
        CutsAre(at + max, left - max, max, i - 1);
      } else {
        assert (i - 1) * max >= 0;
      }
    }
  }

  /** The chunks lie one behind the other inside the request, none too long. */
  lemma {:induction false} CutsPlaced(at: nat, left: nat, max: nat)
    requires max > 0
    ensures var r := Cuts(at, left, max); Disjoint(r) && Inside(r, at, at + left) && AtMost(r, max)
    decreases left
  {
    hide Disjoint, Inside, AtMost, Cuts;
    CutsIs(at, left, max);
    if left <= max {
      OnePlaced(at, left, max);
    } else {
      CutsPlaced(at + max, left - max, max);
      ConsPlaced(at, max, Cuts(at + max, left - max, max), at + left, max);
    }
  }

  lemma CutsIs(at: nat, left: nat, max: nat)
    requires max > 0
    ensures Cuts(at, left, max) ==
      if left <= max then [Chunk(at, left)] else [Chunk(at, max)] + Cuts(at + max, left - max, max)
  {
  }

  lemma OnePlaced(at: nat, n: nat, max: nat)
    requires n <= max
    ensures var r := [Chunk(at, n)]; Disjoint(r) && Inside(r, at, at + n) && AtMost(r, max)
  {
  }

  lemma ConsPlaced(at: nat, n: nat, s: seq<Chunk>, to: nat, max: nat)
    requires Disjoint(s) && Inside(s, at + n, to) && AtMost(s, max) && n <= max && at + n <= to
    ensures var r := [Chunk(at, n)] + s; Disjoint(r) && Inside(r, at, to) && AtMost(r, max)
  {
    var r := [Chunk(at, n)] + s;
    forall i, j | 0 <= i < j < |r| ensures Apart(r[i], r[j]) {
      if i > 0 {
        assert Apart(s[i - 1], s[j - 1]);
      }
    }
  }

  /** They leave nothing out. */
  lemma {:induction false} CutsCover(at: nat, left: nat, max: nat, pos: nat)
    requires max > 0 && at <= pos < at + left
    ensures InFlight(Cuts(at, left, max), pos)
    decreases left
  {
    var n := Min(left, max);
    var r := Cuts(at, left, max);
    if pos < at + n {
      assert In(r[0], pos);
    } else {
      CutsCover(at + n, left - n, max, pos);
      var s := Cuts(at + n, left - n, max);
      var i :| 0 <= i < |s| && In(s[i], pos);
      assert r[i + 1] == s[i];
    }
  }

  lemma PrefixPlaced(p: seq<Chunk>, r: seq<Chunk>, from: nat, to: nat, max: nat)
    requires p <= r && Disjoint(r) && Inside(r, from, to) && AtMost(r, max)
    ensures Disjoint(p) && Inside(p, from, to) && AtMost(p, max)
  {
  }

  /** What has been sent of a request, all of it or a part, is well placed. */
  lemma SentPlaced(p: seq<Chunk>, at: nat, left: nat, max: nat)
    requires max > 0 && p <= Cuts(at, left, max)
    ensures Disjoint(p) && Inside(p, at, at + left) && AtMost(p, max)
    ensures p == Cuts(at, left, max) ==> forall pos :: at <= pos < at + left ==> InFlight(p, pos)
  {
    hide Cuts, InFlight, Disjoint, Inside, AtMost;
    CutsPlaced(at, left, max);
    PrefixPlaced(p, Cuts(at, left, max), at, at + left, max);
    if p == Cuts(at, left, max) {
      forall pos | at <= pos < at + left ensures InFlight(p, pos) {
        CutsCover(at, left, max, pos);
      }
    }
  }

  /** The loop that sends a request chunk by chunk until one cannot be sent. */
  method SendAll(from: nat, total: nat, max: nat, sent: nat -> bool) returns (p: seq<Chunk>, all: bool)
    requires max > 0
    ensures p <= Cuts(from, total, max) && forall k :: 0 <= k < |p| ==> sent(k)
    ensures if all then p == Cuts(from, total, max) else !sent(|p|)
  {
    hide Cuts;
    p, all := [], true;
    var at, left := from, total;
    while p == [] || left > 0
      invariant 0 <= left && from <= at && forall k :: 0 <= k < |p| ==> sent(k)
      invariant Cuts(from, total, max) == p + if p != [] && left == 0 then [] else Cuts(at, left, max)
      decreases p == [], left
    {
      var n := Min(left, max);
      if !sent(|p|) {
        return p, false;
      }
      NextCut(p, at, left, max);
      p := p + [Chunk(at, n)];
      at, left := at + n, left - n;
    }
  }

  lemma NextCut(p: seq<Chunk>, at: nat, left: nat, max: nat)
    requires max > 0
    ensures var n := Min(left, max);
      p + Cuts(at, left, max) == (p + [Chunk(at, n)]) + if left == n then [] else Cuts(at + n, left - n, max)
  {
    var n := Min(left, max);
    var r := if left == n then [] else Cuts(at + n, left - n, max);
    assert p + ([Chunk(at, n)] + r) == (p + [Chunk(at, n)]) + r;
  }
}
