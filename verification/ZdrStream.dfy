/** The ZDR cursor: every routine works on the buffer at `pos`, in the direction
    the stream was opened for. */
module ZdrStream {
  import opened Prelude
  import opened Bytes
  import opened ZdrSpec

  datatype Op = Encode | Decode

  class Zdr {
    const op: Op
    const buf: array<byte>
    const size: nat
    var pos: nat

    /** Behind the buffer there is room for the padding of its last item, and a word more does not
        take the position over 2^31. */
    ghost predicate Valid()
      reads this
    {
      pos % 4 == 0 && pos <= Up4(size) <= buf.Length && Up4(size) + 8 < INT_LIMIT
    }

    constructor (op: Op, buf: array<byte>, size: nat)
      requires Up4(size) <= buf.Length && Up4(size) + 8 < INT_LIMIT
      ensures Valid() && this.op == op && this.buf == buf && this.size == size && pos == 0
    {
      this.op, this.buf, this.size, pos := op, buf, size, 0;
    }

    /** `libnfs_zdr_u_int`, and the routines that only cast to it. */
    method UInt(u: nat) returns (st: Status, v: nat)
      requires Valid() && u < WORD
      modifies `pos, buf
      ensures Valid() && v < WORD && (st.Done? ==> pos == old(pos) + 4 <= size)
      ensures op.Encode? ==> v == u && Encoded(old(buf[..]), buf[..], old(pos), pos, size, WordBytes(u), st)
      ensures op.Decode? ==> buf[..] == old(buf[..]) && Decoded(DecWord(buf[..], size, old(pos)), v, pos, st)
    {
      v := u;
      if pos + 4 > size {
        return Refused, u;
      }
      ghost var b := buf[..];
      if op.Encode? {
        PutWord(buf, pos, u);
        assert buf[..pos] == b[..pos];
      } else {
        v := Word(buf[pos..pos + 4]);
        assert b[pos..pos + 4] == buf[pos..pos + 4];
      }
      pos := pos + 4;
      st := Done;
    }

    /** `libnfs_zdr_uint64_t`. */
    method UHyper(u: nat) returns (st: Status, v: nat)
      requires Valid() && u < WORD * WORD
      modifies `pos, buf
      ensures Valid()
      ensures op.Encode? ==> v == u && Encoded(old(buf[..]), buf[..], old(pos), pos, size, Hyper(u), st)
      ensures op.Decode? ==> buf[..] == old(buf[..]) && Decoded(DecHyper(buf[..], size, old(pos)), v, pos, st)
    {
      hide Word, WordBytes, Hyper, DecHyper, Up4, Splice;
      v := u;
      if pos + 8 > size {
        TooShort(buf[..], pos, size, u);
        return Refused, u;
      }
      ghost var b, p := buf[..], pos;
      if op.Encode? {
        PutWord(buf, pos, u / WORD);
        ghost var b' := buf[..];
        pos := pos + 4;
        PutWord(buf, pos, u % WORD);
        HyperPut(b, b', buf[..], p, size, u);
      } else {
        v := Word(buf[pos..pos + 4]);
        pos := pos + 4;
        v := v * WORD + Word(buf[pos..pos + 4]);
        HyperGot(b, p, size);
      }
      pos := pos + 4;
      st := Done;
    }

    /** `libnfs_zdr_opaque`: no check of its own. */
    method OpaqueData(s: seq<byte>, n: nat) returns (st: Status, v: seq<byte>)
      requires Valid() && n < WORD && (op.Encode? ==> |s| == n)
      modifies `pos, buf
      ensures Valid() && st == (if old(pos) + Up4(n) <= Up4(size) then Done else Astray)
      ensures if st.Done? then pos == old(pos) + Up4(n) else v == s && buf[..] == old(buf[..])
      ensures op.Encode? ==> v == s && (st.Done? ==> buf[..] == Splice(old(buf[..]), old(pos), Opaque(s)))
      ensures op.Decode? ==> buf[..] == old(buf[..]) && (st.Done? ==> v == buf[old(pos)..old(pos) + n])
    {
      hide Up4;
      v := s;
      if pos + Up4(n) > Up4(size) {
        return Astray, s;
      }
      st := Done;
      Up4Moves(pos, n);
      if op.Encode? {
        PutPadded(buf, pos, s);
      } else {
        v := buf[pos..pos + n];
      }
      pos := pos + n;
      pos := Up4(pos);
    }

    /** The length in front of bytes and strings, and its check. */
    method Length(s: seq<byte>) returns (st: Status, n: nat)
      requires Valid() && |s| < WORD
      modifies `pos, buf
      ensures Valid() && n < WORD && !st.Astray?
      ensures st.Done? ==> pos == old(pos) + 4 <= size && (pos + n <= size || pos + n >= INT_LIMIT)
      ensures op.Encode? ==> n == |s| && if st.Done?
        then Encoded(old(buf[..]), buf[..], old(pos), pos, size, WordBytes(|s|), st)
        else Encoded(old(buf[..]), buf[..], old(pos), pos, size, Var(s), st)
      ensures op.Decode? ==> buf[..] == old(buf[..]) && if st.Done?
        then Decoded(DecWord(buf[..], size, old(pos)), n, pos, st) && Passes(size, pos, n)
        else DecBytes(buf[..], size, old(pos)) == Fail
    {
      hide Up4, WordBytes, DecWord, Passes;
      st, n := UInt(|s|);
      if st.Done? {
        CheckExact(size, pos, n);
        if !Passes(size, pos, n) {
          st := Refused;
        }
      }
    }

    /** `libnfs_zdr_bytes`. */
    method VarBytes(s: seq<byte>) returns (st: Status, v: seq<byte>)
      requires Valid() && |s| < WORD
      modifies `pos, buf
      ensures Valid() && |v| < WORD && (st.Done? ==> pos > old(pos))
      ensures op.Encode? ==> v == s && Encoded(old(buf[..]), buf[..], old(pos), pos, size, Var(s), st)
      ensures op.Decode? ==> buf[..] == old(buf[..]) && Decoded(DecBytes(buf[..], size, old(pos)), v, pos, st)
    {
      hide Up4, WordBytes, DecWord, Passes, Encoded;
      var n;
      v := s;
      st, n := Length(s);
      if !st.Done? {
        return;
      }
      ghost var b, p := buf[..], pos;
      RoomForPadding(pos, n, size);
      st, v := OpaqueData(s, n);
      if op.Encode? {
        OpaquePut(b, buf[..], p, pos, size, s, st);
        EncodedThen(old(buf[..]), b, buf[..], old(pos), p, pos, size, WordBytes(|s|), Opaque(s), st);
      }
    }

    /** `libnfs_zdr_string`: a string that is followed by a zero byte is used where it stands. */
    method Str(s: seq<byte>) returns (st: Status, v: seq<byte>)
      requires Valid() && |s| < WORD
      modifies `pos, buf
      ensures Valid() && |v| < WORD && (st.Done? ==> pos > old(pos))
      ensures op.Encode? ==> v == s && Encoded(old(buf[..]), buf[..], old(pos), pos, size, Var(s), st)
      ensures op.Decode? ==> buf[..] == old(buf[..]) && Decoded(DecBytes(buf[..], size, old(pos)), v, pos, st)
    {
      hide Up4, WordBytes, DecWord, Passes, Encoded;
      var n;
      v := s;
      st, n := Length(s);
      if !st.Done? {
        return;
      }
      ghost var b, p := buf[..], pos;
      RoomForPadding(pos, n, size);
      if op.Decode? {
        if pos + n > size {
          return Astray, s;
        }
        if size > pos + n && buf[pos + n] == 0 {
          v := buf[pos..pos + n];
          buf[pos + n] := 0;
          assert buf[..] == b;
          pos := Up4(pos + n);
          return;
        }
      }
      st, v := OpaqueData(s, n);
      if op.Encode? {
        OpaquePut(b, buf[..], p, pos, size, s, st);
        EncodedThen(old(buf[..]), b, buf[..], old(pos), p, pos, size, WordBytes(|s|), Opaque(s), st);
      }
    }

    /** `libnfs_zdr_array` with `libnfs_zdr_int` for its elements. A count of 2^31 or more is taken as a
        negative number: no element is touched, though the count says they are there. */
    method IntArray(a: seq<nat>) returns (st: Status, v: seq<nat>)
      requires Valid() && |a| < WORD && AllWords(a)
      modifies `pos, buf
      ensures Valid() && AllWords(v)
      ensures op.Encode? ==> v == a && Encoded(old(buf[..]), buf[..], old(pos), pos, size, Array(a), st)
      ensures op.Decode? ==> buf[..] == old(buf[..]) && Decoded(DecArray(buf[..], size, old(pos)), v, pos, st)
    {
      hide Up4, WordBytes, DecWord, Encoded;
      var n;
      v := a;
      st, n := UInt(|a|);
      if !st.Done? {
        if op.Encode? {
          EncodedStops(old(buf[..]), buf[..], old(pos), pos, size, WordBytes(|a|), Ints(a), st);
        }
        return;
      }
      if n >= INT_LIMIT {
        if op.Encode? {
          CountOnly(old(buf[..]), buf[..], old(pos), pos, size, a);
        }
        return Astray, a;
      }
      if op.Encode? {
        st := PutInts(a, old(buf[..]), old(pos));
      } else {
        st, v := GetInts(n);
      }
    }

    /** The element loop when encoding; `b` and `p` are from before the count was written. */
    method PutInts(a: seq<nat>, ghost b: seq<byte>, ghost p: nat) returns (st: Status)
      requires Valid() && op.Encode? && AllWords(a) && |a| < INT_LIMIT
      requires Encoded(b, buf[..], p, pos, size, WordBytes(|a|), Done)
      modifies `pos, buf
      ensures Valid() && Encoded(b, buf[..], p, pos, size, Array(a), st)
    {
      hide Up4, WordBytes, Encoded;
      var i := 0;
      assert WordBytes(|a|) + Ints(a[..0]) == WordBytes(|a|);
      while i < |a|
        invariant 0 <= i <= |a| && Valid()
        invariant Encoded(b, buf[..], p, pos, size, WordBytes(|a|) + Ints(a[..i]), Done)
      {
        ghost var b', p' := buf[..], pos;
        var v;
        st, v := UInt(a[i]);
        IntsSnoc(a, i);
        EncodedThen(b, b', buf[..], p, p', pos, size, WordBytes(|a|) + Ints(a[..i]), WordBytes(a[i]), st);
        if !st.Done? {
          EncodedShort(b, buf[..], p, pos, size, WordBytes(|a|) + Ints(a[..i + 1]), Array(a), st);
          return;
        }
        i := i + 1;
      }
      assert a[..|a|] == a;
      st := Done;
    }

    /** The element loop when decoding. */
    method GetInts(n: nat) returns (st: Status, v: seq<nat>)
      requires Valid() && op.Decode?
      modifies `pos, buf
      ensures Valid() && AllWords(v)
      ensures buf[..] == old(buf[..]) && Decoded(DecInts(buf[..], size, old(pos), n, []), v, pos, st)
    {
      hide Up4, DecWord;
      v := [];
      var i := 0;
      while i < n
        invariant 0 <= i <= n && Valid() && buf[..] == old(buf[..]) && AllWords(v)
        invariant DecInts(buf[..], size, old(pos), n, []) == DecInts(buf[..], size, pos, n - i, v)
      {
        var u;
        st, u := UInt(0);
        if !st.Done? {
          return;
        }
        v := v + [u];
        i := i + 1;
      }
      st := Done;
    }
  }

  lemma IntsSnoc(a: seq<nat>, i: nat)
    requires i < |a| && AllWords(a) && |a| < WORD
    ensures (WordBytes(|a|) + Ints(a[..i])) + WordBytes(a[i]) == WordBytes(|a|) + Ints(a[..i + 1])
    ensures |Ints(a[..i + 1])| <= |Ints(a)|
  {
    hide WordBytes;
    assert a[..i + 1][..i] == a[..i];
  }

  lemma EncodedShort(b: seq<byte>, b': seq<byte>, p: nat, p': nat, size: nat, e: seq<byte>, f: seq<byte>, st: Status)
    requires Encoded(b, b', p, p', size, e, st) && !st.Done? && |e| <= |f|
    ensures Encoded(b, b', p, p', size, f, st)
  {
  }

  lemma CountOnly(b: seq<byte>, b': seq<byte>, p: nat, p': nat, size: nat, a: seq<nat>)
    requires AllWords(a) && INT_LIMIT <= |a| < WORD && size < INT_LIMIT
    requires Encoded(b, b', p, p', size, WordBytes(|a|), Done)
    ensures Encoded(b, b', p, p', size, Array(a), Astray)
  {
    hide WordBytes;
  }

  lemma RoomForPadding(pos: nat, n: nat, size: nat)
    requires pos % 4 == 0 && Up4(size) < INT_LIMIT
    ensures pos + n <= size ==> pos + Up4(n) <= Up4(size) && Up4(pos + n) == pos + Up4(n)
    ensures pos + n >= INT_LIMIT ==> pos + Up4(n) > Up4(size)
  {
  }

  lemma OpaquePut(b: seq<byte>, b': seq<byte>, p: nat, p': nat, size: nat, s: seq<byte>, st: Status)
    requires p + |s| <= size || p + |s| >= INT_LIMIT > size
    requires p <= Up4(size) <= |b| && st == (if p + Up4(|s|) <= Up4(size) then Done else Astray)
    requires if st.Done? then p' == p + Up4(|s|) && b' == Splice(b, p, Opaque(s)) else b' == b
    requires p + |s| <= size ==> st.Done?
    ensures Encoded(b, b', p, p', size, Opaque(s), st)
  {
  }

  method PutWord(buf: array<byte>, at: nat, u: nat)
    requires at + 4 <= buf.Length && u < WORD
    modifies buf
    ensures buf[..] == Splice(old(buf[..]), at, WordBytes(u))
  {
    hide WordBytes;
    CopyIn(buf, at, WordBytes(u));
  }

  /** The data, then zeros up to the next multiple of four. */
  method PutPadded(buf: array<byte>, at: nat, s: seq<byte>)
    requires at % 4 == 0 && at + Up4(|s|) <= buf.Length
    modifies buf
    ensures buf[..] == Splice(old(buf[..]), at, Opaque(s))
  {
    hide Up4, Splice;
    ghost var b := buf[..];
    Up4Moves(at, |s|);
    CopyIn(buf, at, s);
    var end := at + |s|;
    CopyIn(buf, end, Zeros(Up4(end) - end));
    SpliceTwice(b, at, s, Zeros(Up4(end) - end));
  }

  lemma SpliceTwice(b: seq<byte>, p: nat, e: seq<byte>, f: seq<byte>)
    requires p + |e| + |f| <= |b|
    ensures Splice(Splice(b, p, e), p + |e|, f) == Splice(b, p, e + f)
  {
    var b' := Splice(b, p, e);
    assert b'[..p + |e|] == b[..p] + e;
    assert b'[p + |e| + |f|..] == b[p + |e + f|..];
  }

  lemma HyperPut(b: seq<byte>, b': seq<byte>, b'': seq<byte>, p: nat, size: nat, u: nat)
    requires u < WORD * WORD && p + 8 <= size && Up4(size) <= |b|
    requires b' == Splice(b, p, WordBytes(u / WORD)) && b'' == Splice(b', p + 4, WordBytes(u % WORD))
    ensures Encoded(b, b'', p, p + 8, size, Hyper(u), Done)
  {
    hide WordBytes, Up4;
    SpliceTwice(b, p, WordBytes(u / WORD), WordBytes(u % WORD));
  }

  lemma HyperGot(b: seq<byte>, p: nat, size: nat)
    requires Buffer(b, size) && p + 8 <= size
    ensures DecHyper(b, size, p) == Got(Word(b[p..p + 4]) * WORD + Word(b[p + 4..p + 4 + 4]), p + 8)
  {
    hide Word;
  }

  lemma TooShort(b: seq<byte>, p: nat, size: nat, u: nat)
    requires Buffer(b, size) && p <= |b| && p + 8 > size && u < WORD * WORD
    ensures DecHyper(b, size, p) == Fail && Encoded(b, b, p, p, size, Hyper(u), Refused)
  {
  }
}
