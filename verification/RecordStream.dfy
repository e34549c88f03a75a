/** Record marking (section 11 of RFC 5531) as `socket.c` and `pdu.c` do it: a
    byte stream cut anywhere by partial `send` and `recv` calls still delivers
    the records that were queued. */
module RecordStream {
  import opened Bytes
  import opened Prelude

  const LAST: nat := 0x8000_0000
  /** NFS_MAX_XFER_SIZE + 4096: the largest fragment accepted, with its marker. */
  const LIMIT: nat := 1024 * 1024 + 4096

  datatype Fragment = Fragment(last: bool, body: seq<byte>)

  predicate Sized(f: Fragment) {
    |f.body| < LAST
  }

  /** A fragment on the wire: the marker, then the body. */
  function Wire(f: Fragment): (w: seq<byte>)
    requires Sized(f)
    ensures |w| == 4 + |f.body|
  {
    WordBytes(|f.body| + if f.last then LAST else 0) + f.body
  }

  predicate AllSized(fs: seq<Fragment>) {
    forall i :: 0 <= i < |fs| ==> Sized(fs[i])
  }

  function Stream(fs: seq<Fragment>): seq<byte>
    requires AllSized(fs)
  {
    if fs == [] then [] else Wire(fs[0]) + Stream(fs[1..])
  }

  /** What a reader owes for `fs`: the finished records, and the fragments of the unfinished one. */
  function Delivered(fs: seq<Fragment>): (seq<seq<byte>>, seq<byte>) {
    if fs == [] then ([], [])
    else
      var (records, part) := Delivered(fs[..|fs| - 1]);
      var f := fs[|fs| - 1];
      if f.last then (records + [part + f.body], []) else (records, part + f.body)
  }

  /** `rpc_get_pdu_size`: the length of a fragment with its marker. */
  function PduSize(marker: seq<byte>): (n: nat)
    requires |marker| == 4
    ensures n >= 4
  {
    Word(marker) % LAST + 4
  }

  /** The part of a fragment that has arrived while more is owed. */
  predicate Partial(got: seq<byte>) {
    |got| < 4 || |got| < PduSize(got[..4])
  }

  // ---- the stream determines its fragments ----

  lemma StreamSnoc(fs: seq<Fragment>, f: Fragment)
    requires AllSized(fs) && Sized(f)
    ensures AllSized(fs + [f]) && Stream(fs + [f]) == Stream(fs) + Wire(f)
  {
    if fs == [] {
      assert fs + [f] == [f] && [f][1..] == [];
      assert Stream([f]) == Wire(f) + Stream([]);
    } else {
      StreamSnoc(fs[1..], f);
      assert (fs + [f])[1..] == fs[1..] + [f];
      assert Wire(fs[0]) + (Stream(fs[1..]) + Wire(f)) == (Wire(fs[0]) + Stream(fs[1..])) + Wire(f);
    }
  }

  lemma DeliveredSnoc(fs: seq<Fragment>, f: Fragment)
    ensures var (records, part) := Delivered(fs);
      Delivered(fs + [f]) == if f.last then (records + [part + f.body], []) else (records, part + f.body)
  {
    assert (fs + [f])[..|fs|] == fs;
  }

  lemma MarkerOf(f: Fragment, w: seq<byte>)
    requires Sized(f) && |w| >= 4 && w[..4] == WordBytes(|f.body| + if f.last then LAST else 0)
    ensures PduSize(w[..4]) == 4 + |f.body|
    ensures Word(w[..4]) >= LAST <==> f.last
  {
    WordOfBytes(|f.body| + if f.last then LAST else 0);
  }

  lemma WireStart(f: Fragment, x: seq<byte>)
    requires Sized(f)
    ensures (Wire(f) + x)[..4] == WordBytes(|f.body| + if f.last then LAST else 0)
    ensures (Wire(f) + x)[4..4 + |f.body|] == f.body && (Wire(f) + x)[4 + |f.body|..] == x
  {
  }

  lemma WireUnique(f: Fragment, g: Fragment, x: seq<byte>, y: seq<byte>)
    requires Sized(f) && Sized(g) && Wire(f) + x == Wire(g) + y
    ensures f == g && x == y
  {
    hide Wire;
    var w := Wire(f) + x;
    WireStart(f, x);
    WireStart(g, y);
    MarkerOf(f, w);
    MarkerOf(g, w);
  }

  /** Finished fragments at the front of `Stream(gs)` are the first of `gs`. */
  lemma {:induction false} FrontUnique(fs: seq<Fragment>, tail: seq<byte>, gs: seq<Fragment>)
    requires AllSized(fs) && AllSized(gs) && Stream(fs) + tail == Stream(gs)
    ensures fs <= gs && AllSized(gs[|fs|..]) && tail == Stream(gs[|fs|..])
    decreases |fs|
  {
    if fs == [] {
      assert Stream(fs) + tail == tail && gs[0..] == gs;
    } else {
      var f, fs' := fs[0], fs[1..];
      var x := Stream(fs') + tail;
      assert Stream(fs) + tail == Wire(f) + x;
      assert |Stream(gs)| >= 4;
      var g, gs' := gs[0], gs[1..];
      WireUnique(f, g, x, Stream(gs'));
      FrontUnique(fs', tail, gs');
      assert fs == [f] + fs' && gs == [g] + gs';
      assert gs[|fs|..] == gs'[|fs'|..];
    }
  }

  lemma HeadMarker(w: seq<byte>, hs: seq<Fragment>)
    requires AllSized(hs) && w == Stream(hs) && |w| >= 4
    ensures hs != [] && PduSize(w[..4]) == 4 + |hs[0].body|
  {
    hide Wire;
    assert hs != [];
    WireStart(hs[0], Stream(hs[1..]));
    MarkerOf(hs[0], w);
  }

  /** What any bytes look like to a reader: the fragments they complete, and the rest. */
  function Cut(s: seq<byte>): (r: (seq<Fragment>, seq<byte>))
    ensures AllSized(r.0)
    decreases |s|
  {
    if Partial(s) then ([], s)
    else
      var size := PduSize(s[..4]);
      var (fs, tail) := Cut(s[size..]);
      ([Fragment(Word(s[..4]) >= LAST, s[4..size])] + fs, tail)
  }

  lemma CutOne(f: Fragment, x: seq<byte>)
    requires Sized(f)
    ensures Cut(Wire(f) + x) == ([f] + Cut(x).0, Cut(x).1)
  {
    hide Wire;
    WireStart(f, x);
    MarkerOf(f, Wire(f) + x);
  }

  /** Record marking is unambiguous: finished fragments are found again, whatever follows them. */
  lemma {:induction false} CutStream(fs: seq<Fragment>, x: seq<byte>)
    requires AllSized(fs)
    ensures Cut(Stream(fs) + x) == (fs + Cut(x).0, Cut(x).1)
    decreases |fs|
  {
    hide Wire, Cut;
    if fs == [] {
      assert Stream(fs) + x == x && fs + Cut(x).0 == Cut(x).0;
    } else {
      var f, gs := fs[0], fs[1..];
      CutStream(gs, x);
      assert Stream(fs) + x == Wire(f) + (Stream(gs) + x);
      CutOne(f, Stream(gs) + x);
      assert [f] + (gs + Cut(x).0) == fs + Cut(x).0;
    }
  }

  /** Nothing is dropped by the cutting. */
  lemma {:induction false} CutAll(s: seq<byte>)
    ensures Stream(Cut(s).0) + Cut(s).1 == s && Partial(Cut(s).1)
    decreases |s|
  {
    hide Stream, Wire, PduSize, Cut;
    CutStep(s);
    if Partial(s) {
      NoStream();
    } else {
      var rest := s[PduSize(s[..4])..];
      CutAll(rest);
      var f := FirstWire(s);
      StreamCons(f, Cut(rest).0);
      assert Wire(f) + Stream(Cut(rest).0) + Cut(rest).1 == Wire(f) + (Stream(Cut(rest).0) + Cut(rest).1);
    }
  }

  lemma CutStep(s: seq<byte>)
    ensures Partial(s) ==> Cut(s) == ([], s)
    ensures !Partial(s) ==> var size := PduSize(s[..4]);
      Cut(s) == ([Fragment(Word(s[..4]) >= LAST, s[4..size])] + Cut(s[size..]).0, Cut(s[size..]).1)
  {
  }

  lemma FirstWire(s: seq<byte>) returns (f: Fragment)
    requires !Partial(s)
    ensures var size := PduSize(s[..4]);
      f == Fragment(Word(s[..4]) >= LAST, s[4..size]) && Sized(f) && Wire(f) + s[size..] == s
  {
    hide PduSize, Wire, Word;
    var size := PduSize(s[..4]);
    assert s[..size][..4] == s[..4] && s[..size][4..] == s[4..size];
    f := WireOfBuffer(s[..size]);
  }

  lemma NoStream()
    ensures Stream([]) == []
  {
  }

  lemma StreamCons(f: Fragment, fs: seq<Fragment>)
    requires Sized(f) && AllSized(fs)
    ensures AllSized([f] + fs) && Stream([f] + fs) == Wire(f) + Stream(fs)
  {
    assert ([f] + fs)[1..] == fs;
  }

  /** Fragment `i` of `fs` is one the reader takes: not empty, not too long, and no record it
      ends lacks a transaction id. */
  predicate GoodAt(fs: seq<Fragment>, i: nat)
    requires i < |fs|
  {
    && 0 < |fs[i].body| <= LIMIT - 4
    && (fs[i].last ==> Readable(Delivered(fs[..i]).1 + fs[i].body))
  }

  predicate Good(fs: seq<Fragment>) {
    forall i: nat :: i < |fs| ==> GoodAt(fs, i)
  }

  /** `rpc_process_pdu` accepts a finished record only if its transaction id is there. */
  predicate Readable(record: seq<byte>) {
    |record| >= 4
  }

  lemma GoodPrefix(fs: seq<Fragment>, gs: seq<Fragment>, i: nat)
    requires fs <= gs && i < |fs|
    ensures GoodAt(fs, i) <==> GoodAt(gs, i)
  {
    assert fs[..i] == gs[..i];
  }

  /** A whole fragment in a buffer is some fragment's wire form. */
  lemma WireOfBuffer(buf: seq<byte>) returns (f: Fragment)
    requires |buf| >= 4 && |buf| == PduSize(buf[..4])
    ensures f == Fragment(Word(buf[..4]) >= LAST, buf[4..]) && Sized(f) && Wire(f) == buf
  {
    hide Word, WordBytes;
    f := Fragment(Word(buf[..4]) >= LAST, buf[4..]);
    MarkerParts(Word(buf[..4]));
    BytesOfWord(buf[..4]);
    assert buf == buf[..4] + buf[4..];
  }

  lemma MarkerParts(w: nat)
    requires w < WORD
    ensures w % LAST == (if w >= LAST then w - LAST else w) < LAST
  {
  }

  lemma Completed(fs: seq<Fragment>, got: seq<byte>, chunk: seq<byte>) returns (f: Fragment)
    requires AllSized(fs)
    requires var buf := got + chunk; |buf| >= 4 && |buf| == PduSize(buf[..4])
    ensures var buf := got + chunk; f == Fragment(Word(buf[..4]) >= LAST, buf[4..])
    ensures AllSized(fs + [f]) && Stream(fs + [f]) == Stream(fs) + got + chunk
    ensures var (records, part) := Delivered(fs);
      Delivered(fs + [f]) == if f.last then (records + [part + f.body], []) else (records, part + f.body)
  {
    hide Wire, Stream, Delivered, PduSize;
    f := WireOfBuffer(got + chunk);
    StreamSnoc(fs, f);
    DeliveredSnoc(fs, f);
    assert Stream(fs) + got + chunk == Stream(fs) + (got + chunk);
  }

  lemma GoodSnoc(fs: seq<Fragment>, f: Fragment)
    requires Good(fs) && 0 < |f.body| <= LIMIT - 4 && (f.last ==> Readable(Delivered(fs).1 + f.body))
    ensures Good(fs + [f])
  {
    var gs := fs + [f];
    forall i: nat | i < |gs| ensures GoodAt(gs, i) {
      if i < |fs| {
        GoodPrefix(fs, gs, i);
      } else {
        assert gs[..i] == fs;
      }
    }
  }

  /** The reader takes these bytes: what they complete is good, and what they begin is not too long. */
  predicate Taken(s: seq<byte>) {
    var (fs, tail) := Cut(s);
    Good(fs) && (|tail| >= 4 ==> PduSize(tail[..4]) <= LIMIT)
  }

  /** Once a bad fragment is complete nothing that follows helps. */
  lemma BadFront(fs: seq<Fragment>, x: seq<byte>)
    requires AllSized(fs) && !Good(fs)
    ensures !Taken(Stream(fs) + x)
  {
    hide Cut, Stream;
    CutStream(fs, x);
    var i: nat :| i < |fs| && !GoodAt(fs, i);
    GoodPrefix(fs, fs + Cut(x).0, i);
  }

  /** A marker that announces an empty or oversized fragment is refused. */
  lemma BadMarker(fs: seq<Fragment>, x: seq<byte>)
    requires AllSized(fs) && |x| >= 4 && (PduSize(x[..4]) > LIMIT || PduSize(x[..4]) == 4)
    ensures !Taken(Stream(fs) + x)
  {
    hide Stream, PduSize, Good;
    CutStream(fs, x);
    if !Partial(x) {
      var gs := fs + Cut(x).0;
      assert !GoodAt(gs, |fs|);
      NotGood(gs, |fs|);
    }
  }

  lemma NotGood(fs: seq<Fragment>, i: nat)
    requires i < |fs| && !GoodAt(fs, i)
    ensures !Good(fs)
  {
  }

  /** A reader in good order has taken what it consumed. */
  lemma OrderIsTaken(fs: seq<Fragment>, got: seq<byte>)
    requires AllSized(fs) && Good(fs) && Partial(got) && (|got| >= 4 ==> PduSize(got[..4]) <= LIMIT)
    ensures Cut(Stream(fs) + got) == (fs, got) && Taken(Stream(fs) + got)
  {
    hide Stream, PduSize, Good;
    CutStream(fs, got);
    assert fs + [] == fs;
  }

  /** A prefix of what good fragments send is taken. */
  lemma TakenPrefix(s: seq<byte>, later: seq<byte>, gs: seq<Fragment>)
    requires AllSized(gs) && Good(gs) && s + later == Stream(gs)
    ensures Taken(s) && Cut(s).0 <= gs
  {
    hide Cut, Stream, Partial, PduSize;
    CutAll(s);
    var fs, tail := Cut(s).0, Cut(s).1;
    assert Stream(fs) + (tail + later) == s + later;
    FrontUnique(fs, tail + later, gs);
    forall i: nat | i < |fs| ensures GoodAt(fs, i) {
      GoodPrefix(fs, gs, i);
    }
    if |tail| >= 4 {
      HeadMarker(tail + later, gs[|fs|..]);
      assert (tail + later)[..4] == tail[..4];
      assert GoodAt(gs, |fs|);
    }
  }

  lemma Advance(s: seq<byte>, at: nat, n: nat)
    requires at + n <= |s|
    ensures s[..at] + s[at..][..n] == s[..at + n] && s[at..][n..] == s[at + n..]
  {
  }

  lemma Joined(a: seq<byte>, s: seq<byte>, at: nat)
    requires at <= |s|
    ensures a + s == a + s[..at] + s[at..]
  {
    assert s == s[..at] + s[at..];
  }

  // ---- the reader ----

  function Flat(parts: seq<seq<byte>>): seq<byte> {
    if parts == [] then [] else Flat(parts[..|parts| - 1]) + parts[|parts| - 1]
  }

  /** The receiving half of `rpc_context`. */
  class Reader {
    const marker: array<byte>           // rm_buf
    var inpos: nat
    var inbuf: array?<byte>
    var fragments: seq<seq<byte>>       // waiting for the last fragment of their record
    var delivered: seq<seq<byte>>       // records handed on, in order
    ghost var consumed: seq<byte>       // everything received
    ghost var done: seq<Fragment>       // the finished fragments in it

    ghost predicate Valid()
      reads this, marker, inbuf
    {
      && marker.Length == 4 && inbuf != marker
      && (if inbuf == null then inpos <= 4
          else 4 <= inpos < inbuf.Length <= LIMIT && inbuf[..4] == marker[..] && inbuf.Length == PduSize(marker[..]))
      && AllSized(done) && consumed == Stream(done) + Got()
      && Delivered(done) == (delivered, Flat(fragments)) && Good(done)
      && (forall i :: 0 <= i < |fragments| ==> fragments[i] != [])
    }

    /** The bytes of the unfinished fragment. */
    ghost function Got(): seq<byte>
      reads this, marker, inbuf
    {
      if inbuf == null then (if inpos <= marker.Length then marker[..inpos] else [])
      else if inpos <= inbuf.Length then inbuf[..inpos] else []
    }

    /** The marker announces an empty or an oversized fragment: there is no way past it. */
    ghost predicate Stuck()
      reads this, marker, inbuf
    {
      Valid() && inpos == 4 && inbuf == null && (PduSize(marker[..]) > LIMIT || PduSize(marker[..]) == 4)
    }

    /** The last record had no transaction id and was thrown away: nothing is left of it. */
    ghost predicate Dropped()
      reads this
    {
      && marker.Length == 4 && inpos == 0 && inbuf == null && fragments == [] && done != [] && AllSized(done)
      && consumed == Stream(done) && Good(done[..|done| - 1]) && delivered == Delivered(done[..|done| - 1]).0
    }

    constructor ()
      ensures Valid() && delivered == [] && consumed == [] && done == [] && Got() == [] && fragments == []
      ensures fresh(marker) && inbuf == null
    {
      marker := new byte[4];
      inpos, inbuf, fragments, delivered := 0, null, [], [];
      consumed, done := [], [];
    }

    /** Finds out how much to ask `recv` for, and where it goes; fails on an oversized fragment. */
    method Prepare() returns (ok: bool, wanted: nat)
      requires Valid()
      modifies `inbuf
      ensures Valid() && Got() == old(Got())
      ensures inbuf != old(inbuf) ==> fresh(inbuf)
      ensures inpos < 4 ==> ok && wanted == 4 - inpos && inbuf == null
      ensures inpos >= 4 ==> (ok <==> PduSize(marker[..]) <= LIMIT)
      ensures inpos >= 4 && ok ==> wanted == PduSize(marker[..]) - inpos && (wanted > 0 ==> inbuf != null)
      ensures inpos >= 4 ==> Got()[..4] == marker[..]
    {
      if inpos < 4 {
        return true, 4 - inpos;
      }
      var size := PduSize(marker[..]);
      if inbuf == null {
        if size > LIMIT {
          return false, 0;
        }
        if size > 4 {
          inbuf := new byte[size];
          inbuf[0], inbuf[1], inbuf[2], inbuf[3] := marker[0], marker[1], marker[2], marker[3];
          assert inbuf[..4] == marker[..];
        }
      }
      return true, size - inpos;
    }

    /** Bytes for the marker. */
    method AcceptMarker(chunk: seq<byte>)
      requires Valid() && inpos < 4 && 0 < |chunk| <= 4 - inpos
      modifies this, marker
      ensures Valid() && inpos == old(inpos) + |chunk| && inbuf == null
      ensures consumed == old(consumed) + chunk
      ensures delivered == old(delivered) && done == old(done) && fragments == old(fragments)
    {
      ghost var got := marker[..inpos];
      CopyIn(marker, inpos, chunk);
      inpos := inpos + |chunk|;
      consumed := consumed + chunk;
      assert marker[..inpos] == got + chunk;
      assert Stream(done) + (got + chunk) == Stream(done) + got + chunk;
    }

    /** Bytes for the body that do not finish it. */
    method AcceptBody(chunk: seq<byte>)
      requires Valid() && inbuf != null && 0 < |chunk| && inpos + |chunk| < inbuf.Length
      modifies `inpos, `consumed, inbuf
      ensures Valid() && consumed == old(consumed) + chunk
    {
      ghost var got := inbuf[..inpos];
      ghost var m := marker[..];
      CopyIn(inbuf, inpos, chunk);
      assert marker[..] == m;
      assert inbuf[..4] == got[..4];
      inpos := inpos + |chunk|;
      consumed := consumed + chunk;
      assert inbuf[..inpos] == got + chunk;
      assert Stream(done) + (got + chunk) == Stream(done) + got + chunk;
    }

    /** The last bytes of a fragment: it is put aside, or its record is complete and handed on. */
    method Finish(chunk: seq<byte>) returns (ok: bool)
      requires Valid() && inbuf != null && 0 < |chunk| && inpos + |chunk| == inbuf.Length
      modifies this, inbuf
      ensures inpos == 0 && inbuf == null && consumed == old(consumed) + chunk
      ensures |done| == |old(done)| + 1 && old(done) <= done && AllSized(done) && consumed == Stream(done)
      ensures ok <==> !done[|old(done)|].last || Readable(Delivered(old(done)).1 + done[|old(done)|].body)
      ensures ok ==> Valid() && Got() == []
      ensures !ok ==> fragments == [] && delivered == old(delivered)
    {
      hide Wire, Delivered, Flat, PduSize, Stream, Good;
      ghost var got, d := Got(), done;
      var buf := Collect(chunk);
      ghost var f := Completed(d, got, chunk);
      if !f.last || Readable(Delivered(d).1 + f.body) {
        GoodSnoc(d, f);
      }
      consumed := consumed + chunk;
      done := d + [f];
      ok := Process(buf);
      assert Got() == [];
      assert Stream(done) + [] == Stream(done);
    }

    /** Takes the finished fragment out of the buffer. */
    method Collect(chunk: seq<byte>) returns (buf: seq<byte>)
      requires Valid() && inbuf != null && 0 < |chunk| && inpos + |chunk| == inbuf.Length
      modifies `inpos, `inbuf, inbuf
      ensures buf == old(Got()) + chunk && 4 < |buf| <= LIMIT && |buf| == PduSize(buf[..4])
      ensures inpos == 0 && inbuf == null
    {
      hide Wire, Delivered, Flat, PduSize, Stream;
      ghost var got := inbuf[..inpos];
      CopyIn(inbuf, inpos, chunk);
      buf := inbuf[..];
      assert buf[..4] == got[..4] == marker[..];
      inpos, inbuf := 0, null;
    }

    /** `rpc_process_pdu` up to the transaction id. */
    method Process(buf: seq<byte>) returns (ok: bool)
      requires |buf| > 4 && forall i :: 0 <= i < |fragments| ==> fragments[i] != []
      modifies `fragments, `delivered
      ensures forall i :: 0 <= i < |fragments| ==> fragments[i] != []
      ensures Word(buf[..4]) < LAST ==>
        ok && delivered == old(delivered) && Flat(fragments) == old(Flat(fragments)) + buf[4..]
      ensures Word(buf[..4]) >= LAST ==>
        && fragments == [] && Flat(fragments) == [] && (ok <==> Readable(old(Flat(fragments)) + buf[4..]))
        && delivered == old(delivered) + if ok then [old(Flat(fragments)) + buf[4..]] else []
    {
      if Word(buf[..4]) < LAST {
        fragments := fragments + [buf[4..]];
        return true;
      }
      var record := Flat(fragments) + buf[4..];
      fragments := [];
      ok := |record| >= 4;
      if ok {
        delivered := delivered + [record];
      }
    }

    /** One `recv` that brings data. */
    method Accept(chunk: seq<byte>, wanted: nat) returns (ok: bool)
      requires Valid() && 0 < |chunk| <= wanted
      requires if inpos < 4 then wanted == 4 - inpos && inbuf == null
        else inbuf != null && wanted == inbuf.Length - inpos
      modifies this, marker, inbuf
      ensures inbuf == null || inbuf == old(inbuf)
      ensures consumed == old(consumed) + chunk
      ensures ok ==> Valid()
      ensures !ok ==> AllSized(done) && consumed == Stream(done) && !Good(done) && Dropped()
    {
      hide Wire, Delivered, Flat, PduSize, Stream;
      ok := true;
      if inpos < 4 {
        AcceptMarker(chunk);
      } else if |chunk| < wanted {
        AcceptBody(chunk);
      } else {
        ghost var d := done;
        ok := Finish(chunk);
        if !ok {
          assert done[..|d|] == d;
          assert !GoodAt(done, |d|);
        }
      }
    }

    /** A reader that still waits for bytes has taken all it got. */
    lemma StillTaken()
      requires Valid() && Partial(Got()) && (|Got()| >= 4 ==> PduSize(Got()[..4]) <= LIMIT)
      ensures Taken(consumed)
    {
      hide Stream, Delivered, Flat, PduSize, Partial, Good;
      OrderIsTaken(done, Got());
    }

    /** What has been handed on, put aside and begun is what the bytes so far say. */
    lemma AsCut()
      requires Valid() && Taken(consumed)
      ensures Cut(consumed) == (done, Got()) && delivered == Delivered(Cut(consumed).0).0
      ensures Flat(fragments) == Delivered(Cut(consumed).0).1
    {
      hide Stream, Delivered, Flat, PduSize, Good, Taken, Cut;
      if Partial(Got()) && (|Got()| >= 4 ==> PduSize(Got()[..4]) <= LIMIT) {
        OrderIsTaken(done, Got());
      } else {
        assert |Got()| >= 4 && Got()[..4] == marker[..];
        BadMarker(done, Got());
      }
    }

    /** One round of the read loop over what is left of the stream. */
    method ReadOnce(rest: seq<byte>, cut: nat) returns (ok: bool, n: nat)
      requires Valid()
      modifies this, marker, inbuf
      ensures n <= |rest| && consumed == old(consumed) + rest[..n]
      ensures inbuf == old(inbuf) || inbuf == null || fresh(inbuf)
      ensures ok ==> Valid()
      ensures ok && n == 0 ==> (cut == 0 || rest == []) && Taken(consumed)
      ensures !ok ==> !Taken(old(consumed) + rest)
      ensures !ok ==> Stuck() || Dropped()
      ensures old(Stuck()) ==> !ok && n == 0 && Stuck()
    {
      hide Wire, Delivered, Flat, PduSize, Stream, Good, Taken;
      var wanted;
      ok, wanted := Prepare();
      n := 0;
      assert rest[..0] == [] && rest[0..] == rest;
      if !ok || wanted == 0 {
        assert (Got() + rest)[..4] == marker[..];
        BadMarker(done, Got() + rest);
        assert Stream(done) + (Got() + rest) == consumed + rest;
        return false, 0;
      }
      n := Min(cut, Min(wanted, |rest|));
      if n > 0 {
        assert rest == rest[..n] + rest[n..];
        ok := Accept(rest[..n], wanted);
        if !ok {
          BadFront(done, rest[n..]);
          assert Stream(done) + rest[n..] == old(consumed) + rest;
        }
      } else {
        StillTaken();
      }
    }

    /** `rpc_read_from_socket` over `stream`, cut by `recv` as `cuts` says; a cut of 0, or no
        bytes left, is a `recv` that would block. */
    method Read(stream: seq<byte>, cuts: seq<nat>) returns (r: int, at: nat)
      requires Valid()
      modifies this, marker, inbuf
      ensures (r == 0 || r == -1) && at <= |stream| && consumed == old(consumed) + stream[..at]
      ensures inbuf == old(inbuf) || inbuf == null || fresh(inbuf)
      ensures r == 0 ==> Valid() && (Taken(consumed) ==> Matches())
      ensures r == -1 ==> !Taken(old(consumed) + stream) && (Stuck() || Dropped())
      ensures r == 0 && Positive(cuts) && |cuts| >= |stream| ==> at == |stream|
      ensures Positive(cuts) && |cuts| > |stream| ==> (r == 0 <==> Taken(old(consumed) + stream))
      ensures old(Stuck()) && cuts != [] ==> r == -1 && at == 0 && Stuck()
    {
      hide Wire, Delivered, Flat, PduSize, Stream, Good, Partial, Taken, Cut, Stuck, Dropped;
      r, at := ReadLoop(stream, cuts);
      assert at == |stream| ==> stream[..at] == stream;
      if r == 0 && Taken(consumed) {
        AsCut();
      }
    }

    method ReadLoop(stream: seq<byte>, cuts: seq<nat>) returns (r: int, at: nat)
      requires Valid()
      modifies this, marker, inbuf
      ensures (r == 0 || r == -1) && at <= |stream| && consumed == old(consumed) + stream[..at]
      ensures inbuf == old(inbuf) || inbuf == null || fresh(inbuf)
      ensures r == 0 ==> Valid()
      ensures r == -1 ==> !Taken(old(consumed) + stream) && (Stuck() || Dropped())
      ensures r == 0 && Positive(cuts) && |cuts| >= |stream| ==> at == |stream|
      ensures r == 0 && Positive(cuts) && |cuts| > |stream| ==> Taken(consumed)
      ensures old(Stuck()) && cuts != [] ==> r == -1 && at == 0 && Stuck()
    {
      hide Wire, Delivered, Flat, PduSize, Stream, Good, Partial, Taken, Valid, Stuck, Dropped;
      r, at := 0, 0;
      assert stream[..0] == [];
      for k := 0 to |cuts|
        invariant Valid() && at <= |stream| && consumed == old(consumed) + stream[..at]
        invariant inbuf == old(inbuf) || inbuf == null || fresh(inbuf)
        invariant Positive(cuts) ==> at >= k
        invariant old(Stuck()) ==> k == 0 && at == 0 && Stuck()
      {
        var ok, n := ReadOnce(stream[at..], cuts[k]);
        Advance(stream, at, n);
        Joined(old(consumed), stream, at);
        at := at + n;
        if !ok {
          return -1, at;
        }
        if n == 0 {
          break;
        }
      }
    }

    /** `rpc_reconnect_requeue` keeps `inpos`, `inbuf` and the fragments. In good order the records `gs` of
        the next connection arrive exactly when the bytes left over do not disturb them; after a record
        that was thrown away, exactly when they are good; and past a marker that was refused, never. */
    method NextConnection(gs: seq<Fragment>, cuts: seq<nat>) returns (r: int)
      requires (Valid() || Dropped()) && AllSized(gs)
      modifies this, marker, inbuf
      ensures old(Valid()) && Positive(cuts) && |cuts| > |Stream(gs)| ==>
        (r == 0 && delivered == old(delivered) + Delivered(gs).0 <==> Framed(old(done), old(Got()), gs))
      ensures old(Valid()) && Positive(cuts) && |cuts| > |Stream(gs)| ==>
        (r == 0 <==> Taken(old(consumed) + Stream(gs)))
      ensures !old(Valid()) && Positive(cuts) && |cuts| > |Stream(gs)| ==>
        (r == 0 <==> Good(gs)) && (r == 0 ==> delivered == old(delivered) + Delivered(gs).0)
      ensures old(Stuck()) && cuts != [] ==> r == -1 && Stuck()
      ensures (r == 0 || r == -1) && (Valid() || Dropped())
    {
      hide Stream, Delivered, Flat, PduSize, Good, Taken, Cut, Dropped;
      var at;
      if !Valid() {
        Forget();
        StartsOver(done, gs);
      }
      r, at := Read(Stream(gs), cuts);
      assert at == |Stream(gs)| ==> Stream(gs)[..at] == Stream(gs);
    }

    /** Leaves a record that was thrown away out of the history. */
    ghost method Forget()
      requires Dropped()
      modifies `consumed, `done
      ensures Valid() && consumed == Stream(done) && Delivered(done) == (delivered, []) && !Stuck()
    {
      hide Stream, Delivered, PduSize;
      var fs := done[..|done| - 1];
      LastWholeIs(fs);
      done := LastWhole(fs);
      consumed := Stream(done);
      assert Got() == [] && Stream(done) + [] == Stream(done);
    }

    /** Every next connection is read as it was meant exactly when nothing is left over. */
    lemma LeftoverExact()
      requires Valid()
      ensures (forall gs :: AllSized(gs) && Good(gs) ==> Framed(done, Got(), gs)) <==> Got() == [] && fragments == []
    {
      hide Stream, Delivered, PduSize, Good, Framed;
      ReconnectExact(done, Got());
      if fragments != [] {
        assert fragments[|fragments| - 1] != [];
      }
    }

    /** The reader holds what the bytes consumed so far say. */
    ghost predicate Matches()
      reads this, marker, inbuf
    {
      var (fs, tail) := Cut(consumed);
      delivered == Delivered(fs).0 && Flat(fragments) == Delivered(fs).1 && Got() == tail
    }
  }

  predicate Positive(cuts: seq<nat>) {
    forall i :: 0 <= i < |cuts| ==> cuts[i] > 0
  }

  // ---- the writer ----

  /** A queued PDU: its bytes with the marker in front, and how many are sent. */
  datatype Outgoing = Outgoing(data: seq<byte>, written: nat)

  predicate Unsent(q: seq<Outgoing>) {
    forall i :: 0 <= i < |q| ==> q[i].written < |q[i].data| && (i > 0 ==> q[i].written == 0)
  }

  /** The bytes still owed to the connection. */
  function Pending(q: seq<Outgoing>): seq<byte> {
    if q == [] then []
    else (if q[0].written <= |q[0].data| then q[0].data[q[0].written..] else []) + Pending(q[1..])
  }

  function Whole(bodies: seq<seq<byte>>): (fs: seq<Fragment>)
    ensures |fs| == |bodies|
  {
    seq(|bodies|, i requires 0 <= i < |bodies| => Fragment(true, bodies[i]))
  }

  lemma WholeSnoc(bodies: seq<seq<byte>>, body: seq<byte>)
    ensures Whole(bodies + [body]) == Whole(bodies) + [Fragment(true, body)]
  {
  }

  /** PDUs sent as single fragments come out as they were. */
  lemma {:induction false} WholeDelivered(bodies: seq<seq<byte>>)
    ensures Delivered(Whole(bodies)) == (bodies, [])
  {
    if bodies != [] {
      var n := |bodies| - 1;
      WholeDelivered(bodies[..n]);
      assert bodies == bodies[..n] + [bodies[n]];
      WholeSnoc(bodies[..n], bodies[n]);
      DeliveredSnoc(Whole(bodies[..n]), Fragment(true, bodies[n]));
      assert [] + bodies[n] == bodies[n];
    }
  }

  lemma {:induction false} PendingSnoc(q: seq<Outgoing>, data: seq<byte>)
    ensures Pending(q + [Outgoing(data, 0)]) == Pending(q) + data
  {
    if q == [] {
      assert q + [Outgoing(data, 0)] == [Outgoing(data, 0)];
      assert data[0..] == data && [Outgoing(data, 0)][1..] == [];
    } else {
      PendingSnoc(q[1..], data);
      assert (q + [Outgoing(data, 0)])[1..] == q[1..] + [Outgoing(data, 0)];
      var h := if q[0].written <= |q[0].data| then q[0].data[q[0].written..] else [];
      assert h + (Pending(q[1..]) + data) == (h + Pending(q[1..])) + data;
    }
  }

  /** The sending half of `rpc_context` on one connection. */
  class Writer {
    var queue: seq<Outgoing>
    var wire: seq<byte>                  // everything `send` accepted
    ghost var bodies: seq<seq<byte>>     // payloads queued so far

    ghost predicate Valid()
      reads this
    {
      && Unsent(queue) && AllSized(Whole(bodies))
      && wire + Pending(queue) == Stream(Whole(bodies))
    }

    constructor ()
      ensures Valid() && queue == [] && wire == [] && bodies == []
    {
      queue, wire, bodies := [], [], [];
    }

    /** `rpc_queue_pdu`: the marker goes into the gap left for it. */
    method Queue(body: seq<byte>)
      requires Valid() && |body| < LAST
      modifies this
      ensures Valid() && bodies == old(bodies) + [body] && wire == old(wire)
    {
      hide Wire, Stream, Pending;
      var data := WordBytes(|body| + LAST) + body;
      assert data == Wire(Fragment(true, body)) by { WireIs(body); }
      PendingSnoc(queue, data);
      WholeSnoc(bodies, body);
      StreamSnoc(Whole(bodies), Fragment(true, body));
      queue := queue + [Outgoing(data, 0)];
      bodies := bodies + [body];
      assert wire + (Pending(old(queue)) + data) == wire + Pending(old(queue)) + data;
    }

    /** One `send` that takes `n` of the bytes offered. */
    method SendSome(n: nat)
      requires Valid() && queue != [] && queue[0].written + n <= |queue[0].data|
      modifies this
      ensures Valid() && bodies == old(bodies)
      ensures wire == old(wire) + old(queue[0].data[queue[0].written..queue[0].written + n])
      ensures queue == AfterSend(old(queue), n)
    {
      hide Stream, Pending, Unsent, Whole;
      var p := queue[0];
      var w := p.written + n;
      SendPending(queue, n);
      SendUnsent(queue, n);
      Regroup(wire, p.data[p.written..w],
              Pending(if w == |p.data| then queue[1..] else [p.(written := w)] + queue[1..]));
      wire := wire + p.data[p.written..w];
      if w == |p.data| {
        queue := queue[1..];
      } else {
        queue := [p.(written := w)] + queue[1..];
      }
    }

    /** `rpc_write_to_socket`: on every answer of `send` what was accepted and what is owed stay
        the queued records, in order, and every answer is used while something is owed. */
    method Write(answers: seq<nat>)
      requires Valid()
      modifies this
      ensures Valid() && bodies == old(bodies) && queue == AfterSends(old(queue), answers)
      ensures queue == [] ==> wire == Stream(Whole(bodies))
      ensures Positive(answers) && |answers| >= |Pending(old(queue))| ==> queue == []
    {
      hide Stream, Unsent, Pending;
      if Positive(answers) && |answers| >= |Pending(queue)| {
        AllSent(queue, answers);
      }
      var k := 0;
      assert answers[0..] == answers;
      while queue != [] && k < |answers|
        invariant Valid() && bodies == old(bodies) && k <= |answers|
        invariant AfterSends(old(queue), answers) == AfterSends(queue, answers[k..])
        decreases |answers| - k
      {
        Head(queue);
        assert answers[k..][1..] == answers[k + 1..];
        SendSome(Min(answers[k], |queue[0].data| - queue[0].written));
        k := k + 1;
      }
      assert queue == [] ==> wire + [] == wire && Pending([]) == [] by {
        NonePending();
      }
    }
  }

  lemma NonePending()
    ensures Pending([]) == []
  {
  }

  /** The queue after one `send` has taken up to `n` bytes of its head. */
  function AfterSend(q: seq<Outgoing>, n: nat): seq<Outgoing>
    requires q != [] && q[0].written <= |q[0].data|
  {
    var w := q[0].written + Min(n, |q[0].data| - q[0].written);
    if w == |q[0].data| then q[1..] else [q[0].(written := w)] + q[1..]
  }

  function AfterSends(q: seq<Outgoing>, answers: seq<nat>): seq<Outgoing>
    decreases |answers|
  {
    if q == [] || answers == [] || q[0].written > |q[0].data| then q
    else AfterSends(AfterSend(q, answers[0]), answers[1..])
  }

  /** Enough answers that take something send everything. */
  lemma {:induction false} AllSent(q: seq<Outgoing>, answers: seq<nat>)
    requires Unsent(q) && Positive(answers) && |answers| >= |Pending(q)|
    ensures AfterSends(q, answers) == []
    decreases |answers|
  {
    hide Unsent, Pending;
    if q != [] {
      Head(q);
      var n := Min(answers[0], |q[0].data| - q[0].written);
      SendPending(q, n);
      SendUnsent(q, n);
      AllSent(AfterSend(q, answers[0]), answers[1..]);
    }
  }

  lemma WireIs(body: seq<byte>)
    requires |body| < LAST
    ensures Wire(Fragment(true, body)) == WordBytes(|body| + LAST) + body
  {
  }

  lemma Head(q: seq<Outgoing>)
    requires Unsent(q) && q != []
    ensures q[0].written < |q[0].data| && |Pending(q)| > 0
  {
  }

  lemma Regroup(a: seq<byte>, b: seq<byte>, c: seq<byte>)
    ensures a + (b + c) == (a + b) + c
  {
  }

  lemma SendUnsent(q: seq<Outgoing>, n: nat)
    requires Unsent(q) && q != [] && q[0].written + n <= |q[0].data|
    ensures Unsent(q[1..])
    ensures q[0].written + n < |q[0].data| ==> Unsent([q[0].(written := q[0].written + n)] + q[1..])
  {
  }

  lemma SendPending(q: seq<Outgoing>, n: nat)
    requires q != [] && q[0].written + n <= |q[0].data|
    ensures var w := q[0].written + n;
      Pending(q) == q[0].data[q[0].written..w] +
        Pending(if w == |q[0].data| then q[1..] else [q[0].(written := w)] + q[1..])
  {
    var p, t := q[0], Pending(q[1..]);
    var w := p.written + n;
    PendingHead(p, q[1..]);
    PendingHead(p.(written := w), q[1..]);
    assert q == [p] + q[1..];
    hide Pending;
    assert p.data[p.written..] == p.data[p.written..w] + p.data[w..];
    Regroup(p.data[p.written..w], p.data[w..], t);
    assert w == |p.data| ==> p.data[w..] + t == t;
  }

  lemma PendingHead(p: Outgoing, q: seq<Outgoing>)
    requires p.written <= |p.data|
    ensures Pending([p] + q) == p.data[p.written..] + Pending(q)
  {
    assert ([p] + q)[1..] == q;
  }

  lemma WholeSized(bodies: seq<seq<byte>>)
    requires forall i :: 0 <= i < |bodies| ==> |bodies[i]| < LAST
    ensures AllSized(Whole(bodies))
  {
  }

  lemma WholeGood(bodies: seq<seq<byte>>)
    requires forall i :: 0 <= i < |bodies| ==> 4 <= |bodies[i]| <= LIMIT - 4
    ensures Good(Whole(bodies))
  {
    forall i: nat | i < |Whole(bodies)| ensures GoodAt(Whole(bodies), i) {
    }
  }

  // ---- a new connection ----

  /** Bytes left over from a lost connection do not disturb the records `gs` of the next one. */
  ghost predicate Framed(done: seq<Fragment>, got: seq<byte>, gs: seq<Fragment>)
    requires AllSized(done) && AllSized(gs)
  {
    var s := Stream(done) + got + Stream(gs);
    Taken(s) && Delivered(Cut(s).0).0 == Delivered(done).0 + Delivered(gs).0
  }

  lemma {:induction false} DeliveredConcat(fs: seq<Fragment>, gs: seq<Fragment>)
    requires Delivered(fs).1 == []
    ensures Delivered(fs + gs) == (Delivered(fs).0 + Delivered(gs).0, Delivered(gs).1)
    decreases |gs|
  {
    if gs == [] {
      assert fs + gs == fs && Delivered(fs).0 + [] == Delivered(fs).0;
    } else {
      var hs, g := gs[..|gs| - 1], gs[|gs| - 1];
      DeliveredConcat(fs, hs);
      hide Delivered;
      DeliveredSnoc(hs, g);
      DeliveredSnoc(fs + hs, g);
      assert gs == hs + [g] && fs + gs == (fs + hs) + [g];
      var r := [Delivered(hs).1 + g.body];
      assert Delivered(fs).0 + Delivered(hs).0 + r == Delivered(fs).0 + (Delivered(hs).0 + r);
    }
  }

  lemma GoodConcat(fs: seq<Fragment>, gs: seq<Fragment>)
    requires Good(fs) && Good(gs) && Delivered(fs).1 == []
    ensures Good(fs + gs)
  {
    hide Delivered;
    var hs := fs + gs;
    forall i: nat | i < |hs| ensures GoodAt(hs, i) {
      if i < |fs| {
        GoodPrefix(fs, hs, i);
      } else {
        var k := i - |fs|;
        assert GoodAt(gs, k);
        DeliveredConcat(fs, gs[..k]);
        assert hs[..i] == fs + gs[..k];
      }
    }
  }

  lemma GoodSuffix(fs: seq<Fragment>, gs: seq<Fragment>)
    requires Good(fs + gs) && Delivered(fs).1 == []
    ensures Good(gs)
  {
    hide Delivered;
    var hs := fs + gs;
    forall k: nat | k < |gs| ensures GoodAt(gs, k) {
      assert GoodAt(hs, |fs| + k);
      DeliveredConcat(fs, gs[..k]);
      assert hs[..|fs| + k] == fs + gs[..k];
    }
  }

  /** Between two records a stream of whole fragments is taken exactly when they are good. */
  lemma StartsOver(done: seq<Fragment>, gs: seq<Fragment>)
    requires AllSized(done) && AllSized(gs) && Good(done) && Delivered(done).1 == []
    ensures Taken(Stream(done) + Stream(gs)) <==> Good(gs)
    ensures Delivered(Cut(Stream(done) + Stream(gs)).0).0 == Delivered(done).0 + Delivered(gs).0
  {
    hide Stream, Delivered, Good, PduSize, Cut;
    assert Stream(gs) + [] == Stream(gs);
    CutStream(gs, []);
    NothingCut();
    assert gs + [] == gs;
    CutStream(done, Stream(gs));
    DeliveredConcat(done, gs);
    if Good(gs) {
      GoodConcat(done, gs);
    }
    if Good(done + gs) {
      GoodSuffix(done, gs);
    }
  }

  /** The fragments up to the end of the last whole record. */
  ghost function LastWhole(fs: seq<Fragment>): seq<Fragment> {
    if fs == [] || fs[|fs| - 1].last then fs else LastWhole(fs[..|fs| - 1])
  }

  lemma {:induction false} LastWholeIs(fs: seq<Fragment>)
    ensures LastWhole(fs) <= fs && Delivered(LastWhole(fs)) == (Delivered(fs).0, [])
    ensures Good(fs) ==> Good(LastWhole(fs))
    decreases |fs|
  {
    if fs != [] && !fs[|fs| - 1].last {
      LastWholeIs(fs[..|fs| - 1]);
    }
    hide Delivered;
    var gs := LastWhole(fs);
    if Good(fs) {
      forall i: nat | i < |gs| ensures GoodAt(gs, i) {
        GoodPrefix(gs, fs, i);
      }
    }
  }

  /** At a record boundary the next connection is framed, whatever it brings. */
  lemma BoundaryFramed(done: seq<Fragment>, gs: seq<Fragment>)
    requires AllSized(done) && AllSized(gs) && Good(done) && Good(gs) && Delivered(done).1 == []
    ensures Framed(done, [], gs)
  {
    hide Stream, Delivered, Good, PduSize;
    var s := Stream(done) + [] + Stream(gs);
    assert Stream(gs) + [] == Stream(gs) && s == Stream(done) + Stream(gs);
    CutStream(gs, []);
    assert gs + [] == gs;
    CutStream(done, Stream(gs));
    GoodConcat(done, gs);
    DeliveredConcat(done, gs);
  }

  /** Whatever is completed next, the first record begins with what was put aside, or else with the
      first body. */
  lemma {:induction false} FirstRecord(done: seq<Fragment>, fs: seq<Fragment>)
    requires fs != [] && forall i :: 0 <= i < |fs| ==> fs[i].body != []
    ensures var (before, after) := (Delivered(done), Delivered(done + fs));
      var c := (before.1 + fs[0].body)[0];
      && |before.0| <= |after.0|
      && (|before.0| < |after.0| ==> after.0[|before.0|] != [] && after.0[|before.0|][0] == c)
      && (|before.0| == |after.0| ==> after.1 != [] && after.1[0] == c)
    decreases |fs|
  {
    hide Delivered;
    var n := |fs| - 1;
    var gs, g := fs[..n], fs[n];
    assert fs == gs + [g] && done + fs == (done + gs) + [g];
    DeliveredSnoc(done + gs, g);
    if gs == [] {
      assert done + gs == done;
    } else {
      FirstRecord(done, gs);
    }
  }

  /** Anything left over spoils some connection: one of a single four-byte record. */
  lemma LeftoverSpoils(done: seq<Fragment>, got: seq<byte>) returns (gs: seq<Fragment>)
    requires AllSized(done) && Good(done) && (got != [] || Delivered(done).1 != [])
    ensures AllSized(gs) && Good(gs) && !Framed(done, got, gs)
  {
    hide Delivered, Stream, Wire, PduSize, Partial;
    var m, part := WordBytes(4 + LAST), Delivered(done).1;
    var c := if part != [] then part[0] else (got + m)[4];
    var b: seq<byte> := [if c == 1 then 2 else 1, 0, 0, 0];
    gs := [Fragment(true, b)];
    ShortRecord(b);
    var s := Stream(done) + got + Stream(gs);
    var y := got + Stream(gs);
    assert s == Stream(done) + y;
    CutStream(done, y);
    var fs := Cut(y).0;
    if Taken(s) {
      forall i | 0 <= i < |fs| ensures fs[i].body != [] {
        assert GoodAt(done + fs, |done| + i);
      }
      if fs != [] {
        FirstRecord(done, fs);
        CutHead(y);
        assert part == [] ==> y[4] == (got + m)[4];
      } else {
        assert done + fs == done;
      }
    }
  }

  lemma ShortRecord(b: seq<byte>)
    requires |b| == 4
    ensures var f := Fragment(true, b);
      Sized(f) && Stream([f]) == WordBytes(4 + LAST) + b && Delivered([f]) == ([b], []) && Good([f])
  {
    var f := Fragment(true, b);
    hide Wire, Delivered;
    assert [f] == [] + [f] && Stream([]) == [];
    StreamSnoc([], f);
    assert [] + Wire(f) == Wire(f);
    WireIs(b);
    WholeDelivered([b]);
    assert Whole([b]) == [f];
    WholeGood([b]);
  }

  lemma CutHead(y: seq<byte>)
    requires Cut(y).0 != [] && Cut(y).0[0].body != []
    ensures |y| > 4 && Cut(y).0[0].body[0] == y[4]
  {
  }

  /** The records of the next connection arrive, for every connection, exactly when the last one was
      lost between two records. */
  lemma ReconnectExact(done: seq<Fragment>, got: seq<byte>)
    requires AllSized(done) && Good(done)
    ensures (forall gs :: AllSized(gs) && Good(gs) ==> Framed(done, got, gs)) <==> got == [] && Delivered(done).1 == []
  {
    hide Framed, Good, Delivered;
    if got == [] && Delivered(done).1 == [] {
      forall gs | AllSized(gs) && Good(gs) ensures Framed(done, got, gs) {
        BoundaryFramed(done, gs);
      }
    } else {
      var gs := LeftoverSpoils(done, got);
    }
  }

  /** A connection on which one byte has arrived is lost; the next one brings a whole record, and the
      reader gives up on it. */
  method LeftoverRun() returns (first: int, second: int)
    ensures first == 0 && second == -1
  {
    hide Stream, Wire, Delivered, Good, Flat, PduSize, Cut, Taken;
    var reader := new Reader();
    var at;
    OneByte();
    first, at := reader.Read([0x80], [1, 1]);
    var body: seq<byte> := [1, 2, 3, 4];
    ShortRecord(body);
    var gs := [Fragment(true, body)];
    Misframed(body);
    assert reader.consumed == [0x80];
    second := reader.NextConnection(gs, seq(9, i => 1));
  }

  /** Once a marker has been refused every later connection is, whatever it brings. */
  method RefusedForever(input: Reader, connections: seq<seq<Fragment>>, cuts: seq<nat>) returns (results: seq<int>)
    requires input.Stuck() && cuts != [] && forall i :: 0 <= i < |connections| ==> AllSized(connections[i])
    modifies input, input.marker, input.inbuf
    ensures input.Stuck() && |results| == |connections| && forall i :: 0 <= i < |results| ==> results[i] == -1
  {
    hide Reader.Stuck, Reader.Valid, Stream, Good, Taken, Delivered, Framed;
    results := [];
    for k := 0 to |connections|
      invariant input.Stuck() && |results| == k && forall i :: 0 <= i < k ==> results[i] == -1
      invariant input.inbuf == null || input.inbuf == old(input.inbuf)
    {
      StuckIsValid(input);
      var r := input.NextConnection(connections[k], cuts);
      StuckIsValid(input);
      results := results + [r];
    }
  }

  lemma StuckIsValid(input: Reader)
    requires input.Stuck()
    ensures input.Valid() && input.inbuf == null
  {
  }

  /** A marker for 2^31 - 1 bytes arrives: the reader is stuck. */
  method OversizedRun() returns (input: Reader, r: int)
    ensures fresh(input) && r == -1 && input.Stuck()
  {
    hide Stream, Wire, Delivered, Good, Flat, PduSize, Cut, Taken;
    input := new Reader();
    var at;
    var m: seq<byte> := [0x7f, 0xff, 0xff, 0xff];
    TooLong(m);
    r, at := input.Read(m, [1, 1, 1, 1, 1]);
    if input.Dropped() {
      NoFragment(input.done, m, at);
    }
  }

  lemma TooLong(m: seq<byte>)
    requires m == [0x7f, 0xff, 0xff, 0xff]
    ensures PduSize(m) == LAST + 3 && !Taken([] + m)
  {
    hide Cut, Taken;
    NoStream();
    assert m[..4] == m;
    BadMarker([], m);
    assert Stream([]) + m == m;
  }

  /** The marker alone is no finished fragment. */
  lemma NoFragment(done: seq<Fragment>, m: seq<byte>, at: nat)
    requires AllSized(done) && done != [] && at <= |m| == 4 && PduSize(m) == LAST + 3
    ensures Stream(done) != m[..at]
  {
    hide PduSize, Stream;
    StreamCons(done[0], done[1..]);
    assert [done[0]] + done[1..] == done;
    WireStart(done[0], Stream(done[1..]));
    if |Stream(done)| == 4 && Stream(done) == m {
      assert m[..4] == m;
      MarkerOf(done[0], m);
    }
  }

  lemma OneByte()
    ensures Taken([] + [0x80])
  {
    assert [] + [0x80] == [0x80 as byte];
    assert Partial([0x80]);
  }

  /** The first bytes of the record are taken for the length of an oversized fragment. */
  lemma Misframed(body: seq<byte>)
    requires |body| == 4
    ensures !Taken([0x80] + (WordBytes(4 + LAST) + body))
  {
    hide Cut, Taken;
    var x := [0x80] + (WordBytes(4 + LAST) + body);
    assert WordBytes(4 + LAST) == [0x80, 0, 0, 4];
    assert x[..4] == [0x80, 0x80, 0, 0];
    assert PduSize(x[..4]) > LIMIT;
    NoStream();
    BadMarker([], x);
    assert Stream([]) + x == x;
  }

  function Total(bodies: seq<seq<byte>>): nat {
    if bodies == [] then 0 else Total(bodies[..|bodies| - 1]) + 4 + |bodies[|bodies| - 1]|
  }

  lemma {:induction false} TotalIs(bodies: seq<seq<byte>>)
    requires AllSized(Whole(bodies))
    ensures |Stream(Whole(bodies))| == Total(bodies)
  {
    hide Stream, Wire;
    if bodies == [] {
      NoStream();
      assert Whole(bodies) == [];
    } else {
      var n := |bodies| - 1;
      assert bodies == bodies[..n] + [bodies[n]];
      WholeSnoc(bodies[..n], bodies[n]);
      assert forall i :: 0 <= i < n ==> Whole(bodies[..n])[i] == Whole(bodies)[i];
      assert Sized(Whole(bodies)[n]);
      TotalIs(bodies[..n]);
      StreamSnoc(Whole(bodies[..n]), Fragment(true, bodies[n]));
    }
  }

  lemma WholePrefix(bodies: seq<seq<byte>>, fs: seq<Fragment>)
    requires fs <= Whole(bodies)
    ensures Delivered(fs).0 <= bodies && (fs == Whole(bodies) ==> Delivered(fs).0 == bodies)
  {
    hide Delivered;
    assert fs == Whole(bodies[..|fs|]);
    WholeDelivered(bodies[..|fs|]);
    assert |fs| == |bodies| ==> bodies[..|fs|] == bodies;
  }

  /** From one context to another over any cutting of the stream in both directions: nothing arrives
      that was not queued, in order and unchanged; and with enough `send` and `recv` calls that move
      something, all of it does. */
  method Transfer(bodies: seq<seq<byte>>, sends: seq<nat>, cuts: seq<nat>) returns (arrived: seq<seq<byte>>, r: int)
    requires forall i :: 0 <= i < |bodies| ==> 4 <= |bodies[i]| <= LIMIT - 4
    ensures r == 0 && arrived <= bodies
    ensures Positive(sends) && |sends| >= Total(bodies) && Positive(cuts) && |cuts| >= Total(bodies) ==>
      arrived == bodies
  {
    hide Stream, Wire, Delivered, Good, Unsent, Pending, Whole, Flat, PduSize, Cut, Taken, AfterSends, Positive, Total;
    var out := new Writer();
    WholeSized(bodies);
    for i := 0 to |bodies|
      invariant out.Valid() && out.bodies == bodies[..i] && out.wire == []
    {
      assert bodies[..i + 1] == bodies[..i] + [bodies[i]];
      out.Queue(bodies[i]);
    }
    assert bodies[..|bodies|] == bodies;
    TotalIs(bodies);
    assert [] + Pending(out.queue) == Pending(out.queue);
    out.Write(sends);
    arrived, r := Receive(out.wire, cuts, bodies, Pending(out.queue));
    assert out.queue == [] ==> Pending(out.queue) == [] by {
      NonePending();
    }
  }

  /** The receiving end of a transfer of which `later` has not been sent. */
  method Receive(wire: seq<byte>, cuts: seq<nat>, ghost bodies: seq<seq<byte>>, ghost later: seq<byte>)
      returns (arrived: seq<seq<byte>>, r: int)
    requires forall i :: 0 <= i < |bodies| ==> 4 <= |bodies[i]| <= LIMIT - 4
    requires AllSized(Whole(bodies)) && wire + later == Stream(Whole(bodies))
    ensures r == 0 && arrived <= bodies
    ensures later == [] && Positive(cuts) && |cuts| >= |wire| ==> arrived == bodies
  {
    hide *;
    var input := new Reader();
    var at;
    ReceivedPart(bodies, wire, later, |wire|);
    assert [] + wire == wire && wire[..|wire|] == wire;
    r, at := input.Read(wire, cuts);
    arrived := Handed(input);
    assert input.consumed == wire[..at];
    ReceivedPart(bodies, wire, later, at);
  }

  /** The records a reader has handed on. */
  method Handed(input: Reader) returns (records: seq<seq<byte>>)
    ensures records == input.delivered
    ensures input.Matches() ==> records == Delivered(Cut(input.consumed).0).0
  {
    records := input.delivered;
  }

  lemma ReceivedPart(bodies: seq<seq<byte>>, wire: seq<byte>, later: seq<byte>, at: nat)
    requires forall i :: 0 <= i < |bodies| ==> 4 <= |bodies[i]| <= LIMIT - 4
    requires AllSized(Whole(bodies)) && wire + later == Stream(Whole(bodies)) && at <= |wire|
    ensures Taken(wire[..at]) && Delivered(Cut(wire[..at]).0).0 <= bodies
    ensures at == |wire| && later == [] ==> Delivered(Cut(wire[..at]).0).0 == bodies
  {
    hide Stream, Delivered, Good, Whole, Cut, Taken;
    WholeGood(bodies);
    assert wire[..at] + (wire[at..] + later) == wire + later;
    TakenPrefix(wire[..at], wire[at..] + later, Whole(bodies));
    WholePrefix(bodies, Cut(wire[..at]).0);
    if at == |wire| && later == [] {
      WholeCut(bodies);
      assert wire[..at] == wire == wire + later;
    }
  }

  lemma WholeCut(bodies: seq<seq<byte>>)
    requires AllSized(Whole(bodies))
    ensures Cut(Stream(Whole(bodies))).0 == Whole(bodies)
  {
    hide Stream, Whole, Cut;
    var s := Stream(Whole(bodies));
    CutStream(Whole(bodies), []);
    NothingCut();
    assert s + [] == s && Whole(bodies) + [] == Whole(bodies);
  }

  lemma NothingCut()
    ensures Cut([]) == ([], [])
  {
  }
}
