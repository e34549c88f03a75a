/** The external data representation (RFC 4506) as bytes, and what the decoders
    make of a buffer. */
module ZdrSpec {
  import opened Prelude
  import opened Bytes

  const INT_LIMIT: nat := 0x8000_0000

  /** What decoding at some position gives. `Wild` stands for a declared length that the checks let
      through although the buffer does not hold it. */
  datatype Parsed<+T> = Fail | Wild | Got(value: T, next: nat)

  /** How a routine ends. `Astray` is where the source goes on outside its buffer. */
  datatype Status = Done | Refused | Astray

  function Up4(n: nat): (r: nat)
    ensures r % 4 == 0 && n <= r < n + 4
  {
    (n + 3) / 4 * 4
  }

  lemma Up4Grows(n: nat, m: nat)
    requires n <= m
    ensures Up4(n) <= Up4(m)
  {
  }

  lemma Up4Moves(pos: nat, n: nat)
    requires pos % 4 == 0
    ensures Up4(pos + n) == pos + Up4(n)
  {
  }

  function Zeros(n: nat): (r: seq<byte>)
    ensures |r| == n
  {
    seq(n, i => 0 as byte)
  }

  /** Fixed-length opaque data (section 4.9). */
  function Opaque(s: seq<byte>): (r: seq<byte>)
    ensures |r| == Up4(|s|)
  {
    s + Zeros(Up4(|s|) - |s|)
  }

  /** Variable-length opaque data and strings (sections 4.10 and 4.11). */
  function Var(s: seq<byte>): (r: seq<byte>)
    requires |s| < WORD
    ensures |r| == 4 + Up4(|s|)
  {
    WordBytes(|s|) + Opaque(s)
  }

  /** Hyper integers (section 4.5). */
  function Hyper(u: nat): (r: seq<byte>)
    requires u < WORD * WORD
    ensures |r| == 8
  {
    WordBytes(u / WORD) + WordBytes(u % WORD)
  }

  // ---- decoding ----

  predicate Buffer(b: seq<byte>, size: nat) {
    Up4(size) <= |b| && size < INT_LIMIT
  }

  /** A sum as the 32-bit `int` it is kept in. */
  function AsInt(x: nat): int {
    var w := x % WORD;
    if w < INT_LIMIT then w else w - WORD
  }

  /** The length check of `libnfs_zdr_bytes` and `libnfs_zdr_string`, on `int`s. */
  predicate Passes(size: nat, pos: nat, n: nat) {
    AsInt(pos + n) <= size
  }

  /** The check says whether the data fit exactly when position and length add up to less than 2^31;
      any other length it lets through. */
  lemma CheckExact(size: nat, pos: nat, n: nat)
    requires pos <= size < INT_LIMIT && n < WORD
    ensures (Passes(size, pos, n) <==> pos + n <= size) <==> pos + n < INT_LIMIT
    ensures pos + n >= INT_LIMIT ==> Passes(size, pos, n)
  {
  }

  function DecWord(b: seq<byte>, size: nat, pos: nat): (r: Parsed<nat>)
    requires Buffer(b, size)
    ensures r.Got? ==> r.next == pos + 4 <= size && r.value < WORD
    ensures !r.Wild?
  {
    if pos + 4 > size then Fail else Got(Word(b[pos..pos + 4]), pos + 4)
  }

  function DecHyper(b: seq<byte>, size: nat, pos: nat): (r: Parsed<nat>)
    requires Buffer(b, size)
    ensures r.Got? ==> r.next == pos + 8 <= size
  {
    if pos + 8 > size then Fail else Got(Word(b[pos..pos + 4]) * WORD + Word(b[pos + 4..pos + 8]), pos + 8)
  }

  function DecBytes(b: seq<byte>, size: nat, pos: nat): (r: Parsed<seq<byte>>)
    requires Buffer(b, size)
    ensures r.Got? ==> pos + 4 <= r.next <= Up4(size) && |r.value| < INT_LIMIT && r.next % 4 == 0
  {
    match DecWord(b, size, pos)
    case Got(n, at) =>
      if !Passes(size, at, n) then Fail
      else if at + n > size then Wild
      else Up4Grows(at + n, size); Got(b[at..at + n], Up4(at + n))
    case _ => Fail
  }

  /** Arrays of integers (section 4.13): `n` more elements after `seen`. */
  function DecInts(b: seq<byte>, size: nat, pos: nat, n: nat, seen: seq<nat>): (r: Parsed<seq<nat>>)
    requires Buffer(b, size)
    decreases n
  {
    if n == 0 then Got(seen, pos) else
      match DecWord(b, size, pos)
      case Got(v, next) => DecInts(b, size, next, n - 1, seen + [v])
      case _ => Fail
  }

  function DecArray(b: seq<byte>, size: nat, pos: nat): (r: Parsed<seq<nat>>)
    requires Buffer(b, size)
  {
    match DecWord(b, size, pos)
    case Got(n, at) => if n >= INT_LIMIT then Wild else DecInts(b, size, at, n, [])
    case _ => Fail
  }

  predicate AllWords(a: seq<nat>) {
    forall i :: 0 <= i < |a| ==> a[i] < WORD
  }

  function Ints(a: seq<nat>): (r: seq<byte>)
    requires AllWords(a)
    ensures |r| == 4 * |a|
  {
    if a == [] then [] else Ints(a[..|a| - 1]) + WordBytes(a[|a| - 1])
  }

  function Array(a: seq<nat>): (r: seq<byte>)
    requires AllWords(a) && |a| < WORD
    ensures |r| == 4 + 4 * |a|
  {
    WordBytes(|a|) + Ints(a)
  }

  // ---- round trips ----

  /** The bytes `e` stand at `pos`. */
  predicate At(b: seq<byte>, pos: nat, e: seq<byte>) {
    pos + |e| <= |b| && b[pos..pos + |e|] == e
  }

  lemma AtSplit(b: seq<byte>, pos: nat, e: seq<byte>, f: seq<byte>)
    ensures At(b, pos, e + f) <==> At(b, pos, e) && At(b, pos + |e|, f)
  {
    if At(b, pos, e + f) {
      var s := b[pos..pos + |e + f|];
      assert b[pos..pos + |e|] == s[..|e|] && b[pos + |e|..pos + |e| + |f|] == s[|e|..];
    }
    if At(b, pos, e) && At(b, pos + |e|, f) {
      assert b[pos..pos + |e + f|] == b[pos..pos + |e|] + b[pos + |e|..pos + |e| + |f|];
    }
  }

  /** An unsigned word decodes to itself. */
  lemma WordTrip(b: seq<byte>, size: nat, pos: nat, u: nat)
    requires Buffer(b, size) && u < WORD && At(b, pos, WordBytes(u)) && pos + 4 <= size
    ensures DecWord(b, size, pos) == Got(u, pos + 4)
  {
    WordOfBytes(u);
  }

  lemma HyperTrip(b: seq<byte>, size: nat, pos: nat, u: nat)
    requires Buffer(b, size) && u < WORD * WORD && At(b, pos, Hyper(u)) && pos + 8 <= size
    ensures DecHyper(b, size, pos) == Got(u, pos + 8)
  {
    hide Word, WordBytes;
    AtSplit(b, pos, WordBytes(u / WORD), WordBytes(u % WORD));
    WordOfBytes(u / WORD);
    WordOfBytes(u % WORD);
  }

  lemma BytesTrip(b: seq<byte>, size: nat, pos: nat, s: seq<byte>)
    requires Buffer(b, size) && pos % 4 == 0 && |s| < WORD && At(b, pos, Var(s)) && pos + 4 + |s| <= size
    ensures DecBytes(b, size, pos) == Got(s, pos + |Var(s)|)
  {
    hide WordBytes, DecWord, Up4, Zeros, Passes;
    AtSplit(b, pos, WordBytes(|s|), Opaque(s));
    WordTrip(b, size, pos, |s|);
    AtSplit(b, pos + 4, s, Zeros(Up4(|s|) - |s|));
    Up4Moves(pos + 4, |s|);
    CheckExact(size, pos + 4, |s|);
  }

  lemma {:induction false} IntsCons(a: seq<nat>)
    requires AllWords(a) && a != []
    ensures Ints(a) == WordBytes(a[0]) + Ints(a[1..])
    decreases |a|
  {
    hide WordBytes;
    if |a| > 1 {
      var f := a[..|a| - 1];
      IntsCons(f);
      assert f[1..] == a[1..][..|a| - 2];
      assert a[1..][|a| - 2] == a[|a| - 1];
      assert Ints(a[1..]) == Ints(f[1..]) + WordBytes(a[|a| - 1]);
      assert Ints(a) == WordBytes(a[0]) + (Ints(f[1..]) + WordBytes(a[|a| - 1]));
    } else {
      assert a[..0] == [] && a[1..] == [];
      assert Ints(a) == [] + WordBytes(a[0]);
    }
  }

  lemma {:induction false} IntsTrip(b: seq<byte>, size: nat, pos: nat, a: seq<nat>, seen: seq<nat>)
    requires Buffer(b, size) && AllWords(a) && At(b, pos, Ints(a)) && pos + 4 * |a| <= size
    ensures DecInts(b, size, pos, |a|, seen) == Got(seen + a, pos + 4 * |a|)
    decreases |a|
  {
    hide WordBytes, DecWord, At, Ints;
    if a == [] {
      assert seen + a == seen;
    } else {
      IntsCons(a);
      AtSplit(b, pos, WordBytes(a[0]), Ints(a[1..]));
      WordTrip(b, size, pos, a[0]);
      IntsTrip(b, size, pos + 4, a[1..], seen + [a[0]]);
      assert seen + [a[0]] + a[1..] == seen + a;
    }
  }

  lemma ArrayTrip(b: seq<byte>, size: nat, pos: nat, a: seq<nat>)
    requires Buffer(b, size) && AllWords(a) && |a| < WORD && At(b, pos, Array(a)) && pos + |Array(a)| <= size
    ensures DecArray(b, size, pos) == Got(a, pos + |Array(a)|)
  {
    hide WordBytes, DecWord, At, Ints, DecInts;
    AtSplit(b, pos, WordBytes(|a|), Ints(a));
    WordTrip(b, size, pos, |a|);
    IntsTrip(b, size, pos + 4, a, []);
    assert [] + a == a;
  }

  /** A length below 2^31 that does not fit and is let through: after the count the position is 4. */
  lemma SumOverflows(b: seq<byte>)
    requires |b| == 8 && At(b, 0, WordBytes(INT_LIMIT - 1))
    ensures DecBytes(b, 8, 0) == Wild
  {
    WordTrip(b, 8, 0, INT_LIMIT - 1);
  }

  /** Decoding strays exactly when the position behind the count and the length add up to 2^31 or more. */
  lemma WildExact(b: seq<byte>, size: nat, pos: nat)
    requires Buffer(b, size)
    ensures var n := DecWord(b, size, pos);
      DecBytes(b, size, pos).Wild? <==> n.Got? && pos + 4 + n.value >= INT_LIMIT
  {
    hide DecWord, Passes;
    match DecWord(b, size, pos)
    case Got(n, at) => CheckExact(size, at, n);
    case _ =>
  }

  /** A length passes the check when the data end inside the buffer, padding or not: some length
      that passes has its padding past the end exactly when the size is no multiple of four. */
  lemma PaddingPastEnd(size: nat, pos: nat)
    requires pos % 4 == 0 && pos + 4 <= size
    ensures size % 4 != 0 <==> exists n: nat :: pos + 4 + n <= size && pos + 4 + Up4(n) > size
  {
    if size % 4 != 0 {
      var n := size - pos - 4;
      assert Up4(n) > n;
      assert pos + 4 + Up4(n) > size;
    }
  }

  // ---- encoding ----

  /** What an encoder that was to put `e` at `p` has done to the buffer. */
  predicate Encoded(b: seq<byte>, b': seq<byte>, p: nat, p': nat, size: nat, e: seq<byte>, st: Status) {
    && |b'| == |b| && p <= |b| && b'[..p] == b[..p]
    && (st.Done? ==> p' == p + |e| <= Up4(size) <= |b| && b' == Splice(b, p, e))
    && (p + |e| <= size ==> st.Done?)
    && (st.Astray? ==> p + |e| >= INT_LIMIT)
  }

  function StatusOf<T>(r: Parsed<T>): Status {
    match r
    case Fail => Refused
    case Wild => Astray
    case Got(_, _) => Done
  }

  /** What a decoder has found. */
  predicate Decoded<T(==)>(r: Parsed<T>, v: T, p': nat, st: Status) {
    st == StatusOf(r) && (st.Done? ==> v == r.value && p' == r.next)
  }

  lemma EncodedThen(b: seq<byte>, b': seq<byte>, b'': seq<byte>, p: nat, p': nat, p'': nat, size: nat, e: seq<byte>,
                    f: seq<byte>, st: Status)
    requires Encoded(b, b', p, p', size, e, Done) && Encoded(b', b'', p', p'', size, f, st)
    ensures Encoded(b, b'', p, p'', size, e + f, st)
  {
    assert b''[..p] == b''[..p'][..p] && b'[..p] == b'[..p'][..p];
    if st.Done? {
      assert b' == b[..p] + e + b[p + |e|..];
      assert b'[..p'] == b[..p] + e;
      assert b'[p' + |f|..] == b[p + |e + f|..];
      assert b'' == b[..p] + (e + f) + b[p + |e + f|..];
    }
  }

  lemma EncodedStops(b: seq<byte>, b': seq<byte>, p: nat, p': nat, size: nat, e: seq<byte>, f: seq<byte>,
                     st: Status)
    requires Encoded(b, b', p, p', size, e, st) && !st.Done?
    ensures Encoded(b, b', p, p', size, e + f, st)
  {
  }

  /** Two routines in a row, the first of which may fail. */
  lemma EncodedSeq(b: seq<byte>, b': seq<byte>, b'': seq<byte>, p: nat, p': nat, p'': nat, size: nat, e: seq<byte>,
                   f: seq<byte>, first: Status, st: Status)
    requires Encoded(b, b', p, p', size, e, first)
    requires if first.Done? then Encoded(b', b'', p', p'', size, f, st) else b'' == b' && p'' == p' && st == first
    ensures Encoded(b, b'', p, p'', size, e + f, st)
  {
    hide Encoded;
    if first.Done? {
      EncodedThen(b, b', b'', p, p', p'', size, e, f, st);
    } else {
      EncodedStops(b, b', p, p', size, e, f, st);
    }
  }

  lemma EncodedAt(b: seq<byte>, b': seq<byte>, p: nat, p': nat, size: nat, e: seq<byte>)
    requires Encoded(b, b', p, p', size, e, Done)
    ensures At(b', p, e)
  {
  }
}
