/** The routines of `libnfs-zdr.c` that encode and decode RPC messages, and the
    AUTH_SYS credentials. */
module RpcRoutines {
  import opened Prelude
  import opened Bytes
  import opened ZdrSpec
  import opened ZdrStream
  import opened MountCodec
  import opened RpcMessage

  method ZdrPair(z: Zdr, u: nat, w: nat) returns (st: Status, v: (nat, nat))
    requires z.Valid() && u < WORD && w < WORD
    modifies z`pos, z.buf
    ensures z.Valid() && v.0 < WORD && v.1 < WORD
    ensures z.op.Encode? ==>
      v == (u, w) && Encoded(old(z.buf[..]), z.buf[..], old(z.pos), z.pos, z.size, PairBytes(u, w), st)
    ensures z.op.Decode? ==>
      z.buf[..] == old(z.buf[..]) && Decoded(DecPair(z.buf[..], z.size, old(z.pos)), v, z.pos, st)
  {
    hide WordBytes, DecWord, Encoded, Up4;
    var x, y := u, w;
    st, x := z.UInt(u);
    ghost var b, p, first := z.buf[..], z.pos, st;
    if st.Done? {
      st, y := z.UInt(w);
    }
    v := (x, y);
    if z.op.Encode? {
      EncodedSeq(old(z.buf[..]), b, z.buf[..], old(z.pos), p, z.pos, z.size, WordBytes(u), WordBytes(w), first, st);
    }
  }

  /** `libnfs_opaque_auth`. */
  method OpaqueAuth(z: Zdr, a: Auth) returns (st: Status, v: Auth)
    requires z.Valid() && (z.op.Encode? ==> ValidAuth(a))
    modifies z`pos, z.buf
    ensures z.Valid()
    ensures z.op.Encode? ==> v == a && Encoded(old(z.buf[..]), z.buf[..], old(z.pos), z.pos, z.size, AuthBytes(a), st)
    ensures z.op.Decode? ==>
      z.buf[..] == old(z.buf[..]) && Decoded(DecAuth(z.buf[..], z.size, old(z.pos)), v, z.pos, st)
  {
    hide WordBytes, DecWord, Var, DecBytes, Encoded, Up4;
    var flavor, body := 0, [];
    if z.op.Encode? {
      flavor, body := a.flavor, a.body;
    }
    st, flavor := z.UInt(flavor);
    ghost var b, p, first := z.buf[..], z.pos, st;
    if st.Done? {
      st, body := z.VarBytes(body);
    }
    v := Auth(flavor, body);
    if z.op.Encode? {
      EncodedSeq(old(z.buf[..]), b, z.buf[..], old(z.pos), p, z.pos, z.size, WordBytes(a.flavor), Var(a.body), first,
                 st);
    }
  }

  method TwoAuths(z: Zdr, cred: Auth, verf: Auth) returns (st: Status, v: (Auth, Auth))
    requires z.Valid() && (z.op.Encode? ==> ValidAuth(cred) && ValidAuth(verf))
    modifies z`pos, z.buf
    ensures z.Valid()
    ensures z.op.Encode? ==> v == (cred, verf)
    ensures z.op.Encode? ==>
      Encoded(old(z.buf[..]), z.buf[..], old(z.pos), z.pos, z.size, AuthBytes(cred) + AuthBytes(verf), st)
    ensures z.op.Decode? ==>
      z.buf[..] == old(z.buf[..]) && Decoded(DecTwoAuths(z.buf[..], z.size, old(z.pos)), v, z.pos, st)
  {
    hide AuthBytes, DecAuth, Encoded, Up4;
    var c, a := cred, verf;
    st, c := OpaqueAuth(z, cred);
    ghost var b, p, first := z.buf[..], z.pos, st;
    if st.Done? {
      st, a := OpaqueAuth(z, verf);
    }
    v := (c, a);
    if z.op.Encode? {
      EncodedSeq(old(z.buf[..]), b, z.buf[..], old(z.pos), p, z.pos, z.size, AuthBytes(cred), AuthBytes(verf), first,
                 st);
    }
  }

  /** `libnfs_rpc_call_body`. */
  method RpcCallBody(z: Zdr, c: Call) returns (st: Status, v: Call)
    requires z.Valid() && (z.op.Encode? ==> ValidCall(c))
    modifies z`pos, z.buf
    ensures z.Valid()
    ensures z.op.Encode? ==> v == c && Encoded(old(z.buf[..]), z.buf[..], old(z.pos), z.pos, z.size, CallBytes(c), st)
    ensures z.op.Decode? ==>
      z.buf[..] == old(z.buf[..]) && Decoded(DecCall(z.buf[..], z.size, old(z.pos)), v, z.pos, st)
  {
    hide PairBytes, DecPair, AuthBytes, DecTwoAuths, Encoded, Up4;
    var x, y, a := (0, 0), (0, 0), (c.cred, c.verf);
    if z.op.Encode? {
      x, y := (c.rpcvers, c.prog), (c.vers, c.procedure);
    }
    st, x := ZdrPair(z, x.0, x.1);
    ghost var b, p, first := z.buf[..], z.pos, st;
    if st.Done? {
      st, y := ZdrPair(z, y.0, y.1);
      ghost var b', p', second := z.buf[..], z.pos, st;
      if st.Done? {
        st, a := TwoAuths(z, a.0, a.1);
      }
      if z.op.Encode? {
        EncodedSeq(b, b', z.buf[..], p, p', z.pos, z.size, PairBytes(c.vers, c.procedure),
                   AuthBytes(c.cred) + AuthBytes(c.verf), second, st);
      }
    }
    v := Call(x.0, x.1, y.0, y.1, a.0, a.1);
    if z.op.Encode? {
      EncodedSeq(old(z.buf[..]), b, z.buf[..], old(z.pos), p, z.pos, z.size, PairBytes(c.rpcvers, c.prog),
                 PairBytes(c.vers, c.procedure) + (AuthBytes(c.cred) + AuthBytes(c.verf)), first, st);
    }
  }

  /** The caller's routine for the results. */
  method ZdrResults(z: Zdr, proc: Proc, r: Results) returns (st: Status, v: Results)
    requires z.Valid() && (z.op.Encode? ==> ValidResults(proc, r))
    modifies z`pos, z.buf
    ensures z.Valid()
    ensures z.op.Encode? ==>
      v == r && Encoded(old(z.buf[..]), z.buf[..], old(z.pos), z.pos, z.size, ResultBytes(proc, r), st)
    ensures z.op.Decode? ==>
      z.buf[..] == old(z.buf[..]) && Decoded(DecResults(proc, z.buf[..], z.size, old(z.pos)), v, z.pos, st)
  {
    hide Mount, DecMount, Exports, DecExports, Encoded, Up4, ValidRes, ShortExports;
    Unchanged(z.buf[..], z.pos, z.size);
    match proc {
      case ProcVoid =>
        st, v := Done, NoResults;
      case ProcMount =>
        var res := MountError(1);
        if z.op.Encode? {
          res := r.res;
        }
        SampleValues();
        st, res := ZdrMount(z, res);
        v := MountResults(res);
      case ProcExports =>
        var list := [];
        if z.op.Encode? {
          list := r.list;
        }
        SampleValues();
        st, list := ZdrExports(z, list);
        v := ExportResults(list);
    }
  }

  /** `libnfs_accepted_reply`, after the verifier. */
  method AcceptedArm(z: Zdr, proc: Proc, a: Accepted) returns (st: Status, v: Accepted)
    requires z.Valid() && (z.op.Encode? ==> ValidAccepted(proc, a))
    modifies z`pos, z.buf
    ensures z.Valid()
    ensures z.op.Encode? ==>
      v == a && Encoded(old(z.buf[..]), z.buf[..], old(z.pos), z.pos, z.size, AcceptedBytes(proc, a), st)
    ensures z.op.Decode? ==>
      z.buf[..] == old(z.buf[..]) && Decoded(DecAccepted(proc, z.buf[..], z.size, old(z.pos)), v, z.pos, st)
  {
    hide WordBytes, DecWord, PairBytes, DecPair, ResultBytes, DecResults, Encoded, Up4, ValidResults;
    v := a;
    var stat := 0;
    if z.op.Encode? {
      stat := match a case Success(_) => 0 case ProgMismatch(_, _) => 2 case OtherStat(n) => n;
    }
    st, stat := z.UInt(stat);
    ghost var b, p, first := z.buf[..], z.pos, st;
    ghost var rest: seq<byte> := [];
    if z.op.Encode? {
      rest := match a
        case Success(r) => ResultBytes(proc, r)
        case ProgMismatch(low, high) => PairBytes(low, high)
        case OtherStat(_) => [];
    }
    if st.Done? {
      if stat == 0 {
        var results := NoResults;
        if z.op.Encode? {
          results := a.results;
        }
        st, results := ZdrResults(z, proc, results);
        v := Success(results);
      } else if stat == 2 {
        var range := (0, 0);
        if z.op.Encode? {
          range := (a.low, a.high);
        }
        st, range := ZdrPair(z, range.0, range.1);
        v := ProgMismatch(range.0, range.1);
      } else {
        Unchanged(z.buf[..], z.pos, z.size);
        v := OtherStat(stat);
      }
    }
    if z.op.Encode? {
      EncodedSeq(old(z.buf[..]), b, z.buf[..], old(z.pos), p, z.pos, z.size, WordBytes(stat), rest, first, st);
      assert AcceptedBytes(proc, a) == WordBytes(stat) + rest;
    }
  }

  /** `libnfs_rejected_reply`. */
  method RejectedReply(z: Zdr, r: Rejected) returns (st: Status, v: Rejected)
    requires z.Valid() && (z.op.Encode? ==> ValidRejected(r))
    modifies z`pos, z.buf
    ensures z.Valid()
    ensures z.op.Encode? ==>
      v == r && Encoded(old(z.buf[..]), z.buf[..], old(z.pos), z.pos, z.size, RejectedBytes(r), st)
    ensures z.op.Decode? ==>
      z.buf[..] == old(z.buf[..]) && Decoded(DecRejected(z.buf[..], z.size, old(z.pos)), v, z.pos, st)
  {
    hide WordBytes, DecWord, PairBytes, DecPair, Encoded, Up4;
    v := r;
    var stat := 0;
    if z.op.Encode? {
      stat := match r case RpcMismatch(_, _) => 0 case AuthError(_) => 1 case OtherReject(n) => n;
    }
    st, stat := z.UInt(stat);
    ghost var b, p, first := z.buf[..], z.pos, st;
    ghost var rest: seq<byte> := [];
    if z.op.Encode? {
      rest := match r
        case RpcMismatch(low, high) => PairBytes(low, high)
        case AuthError(why) => WordBytes(why)
        case OtherReject(_) => [];
    }
    if st.Done? {
      if stat == 0 {
        var range := (0, 0);
        if z.op.Encode? {
          range := (r.low, r.high);
        }
        st, range := ZdrPair(z, range.0, range.1);
        v := RpcMismatch(range.0, range.1);
      } else if stat == 1 {
        var why := 0;
        if z.op.Encode? {
          why := r.why;
        }
        st, why := z.UInt(why);
        v := AuthError(why);
      } else {
        Unchanged(z.buf[..], z.pos, z.size);
        v := OtherReject(stat);
      }
    }
    if z.op.Encode? {
      EncodedSeq(old(z.buf[..]), b, z.buf[..], old(z.pos), p, z.pos, z.size, WordBytes(stat), rest, first, st);
      assert RejectedBytes(r) == WordBytes(stat) + rest;
    }
  }

  /** `libnfs_accepted_reply`. */
  method AcceptedReply(z: Zdr, proc: Proc, verf: Auth, a: Accepted) returns (st: Status, v: Reply)
    requires z.Valid() && (z.op.Encode? ==> ValidAuth(verf) && ValidAccepted(proc, a))
    modifies z`pos, z.buf
    ensures z.Valid()
    ensures z.op.Encode? ==> v == Accept(verf, a)
    ensures z.op.Encode? ==>
      Encoded(old(z.buf[..]), z.buf[..], old(z.pos), z.pos, z.size, AuthBytes(verf) + AcceptedBytes(proc, a), st)
    ensures z.op.Decode? ==>
      z.buf[..] == old(z.buf[..]) && Decoded(DecAccept(proc, z.buf[..], z.size, old(z.pos)), v, z.pos, st)
  {
    hide AuthBytes, DecAuth, AcceptedBytes, DecAccepted, Encoded, Up4;
    var verifier, arm := verf, a;
    st, verifier := OpaqueAuth(z, verf);
    ghost var b, p, first := z.buf[..], z.pos, st;
    if st.Done? {
      st, arm := AcceptedArm(z, proc, a);
    }
    v := Accept(verifier, arm);
    if z.op.Encode? {
      EncodedSeq(old(z.buf[..]), b, z.buf[..], old(z.pos), p, z.pos, z.size, AuthBytes(verf), AcceptedBytes(proc, a),
                 first, st);
    }
  }

  /** `libnfs_rpc_reply_body`. */
  method RpcReplyBody(z: Zdr, proc: Proc, r: Reply) returns (st: Status, v: Reply)
    requires z.Valid() && (z.op.Encode? ==> ValidReply(proc, r))
    modifies z`pos, z.buf
    ensures z.Valid()
    ensures z.op.Encode? ==>
      v == r && Encoded(old(z.buf[..]), z.buf[..], old(z.pos), z.pos, z.size, ReplyBytes(proc, r), st)
    ensures z.op.Decode? ==>
      z.buf[..] == old(z.buf[..]) && Decoded(DecReply(proc, z.buf[..], z.size, old(z.pos)), v, z.pos, st)
  {
    hide WordBytes, DecWord, AuthBytes, AcceptedBytes, DecAccept, RejectedBytes, DecRejected, Encoded, Up4;
    v := r;
    var stat;
    st, stat := z.UInt(if r.Accept? then 0 else 1);
    ghost var b, p, first := z.buf[..], z.pos, st;
    if st.Done? {
      if stat == 0 {
        var verf, a := Auth(0, []), OtherStat(1);
        if z.op.Encode? {
          verf, a := r.verf, r.accepted;
        }
        st, v := AcceptedReply(z, proc, verf, a);
      } else if stat == 1 {
        var x := OtherReject(2);
        if z.op.Encode? {
          x := r.rejected;
        }
        st, x := RejectedReply(z, x);
        v := Deny(x);
      } else {
        st := Refused;
      }
    }
    if z.op.Encode? {
      EncodedSeq(old(z.buf[..]), b, z.buf[..], old(z.pos), p, z.pos, z.size, WordBytes(stat),
                 if r.Accept? then AuthBytes(r.verf) + AcceptedBytes(proc, r.accepted) else RejectedBytes(r.rejected),
                 first, st);
    }
  }

  /** The body of `libnfs_rpc_msg`, after the transaction id. */
  method RpcBody(z: Zdr, proc: Proc, m: Body) returns (st: Status, v: Body)
    requires z.Valid() && (z.op.Encode? ==> ValidBody(proc, m))
    modifies z`pos, z.buf
    ensures z.Valid()
    ensures z.op.Encode? ==>
      v == m && Encoded(old(z.buf[..]), z.buf[..], old(z.pos), z.pos, z.size, BodyBytes(proc, m), st)
    ensures z.op.Decode? ==>
      z.buf[..] == old(z.buf[..]) && Decoded(DecBody(proc, z.buf[..], z.size, old(z.pos)), v, z.pos, st)
  {
    hide WordBytes, DecWord, CallBytes, DecCall, ReplyBytes, DecReply, Encoded, Up4, ValidCall, ValidReply;
    v := m;
    var direction;
    st, direction := z.UInt(if m.CallBody? then 0 else 1);
    ghost var b, p, first := z.buf[..], z.pos, st;
    if st.Done? {
      if direction == 0 {
        var c := Call(0, 0, 0, 0, Auth(0, []), Auth(0, []));
        if z.op.Encode? {
          c := m.call;
        }
        st, c := RpcCallBody(z, c);
        v := CallBody(c);
      } else if direction == 1 {
        var r := Deny(OtherReject(2));
        if z.op.Encode? {
          r := m.reply;
        }
        st, r := RpcReplyBody(z, proc, r);
        v := ReplyBody(r);
      } else {
        st := Refused;
      }
    }
    if z.op.Encode? {
      EncodedSeq(old(z.buf[..]), b, z.buf[..], old(z.pos), p, z.pos, z.size, WordBytes(direction),
                 if m.CallBody? then CallBytes(m.call) else ReplyBytes(proc, m.reply), first, st);
    }
  }

  /** `libnfs_rpc_msg`. */
  method RpcMsg(z: Zdr, proc: Proc, m: Msg) returns (st: Status, v: Msg)
    requires z.Valid() && (z.op.Encode? ==> ValidMsg(proc, m))
    modifies z`pos, z.buf
    ensures z.Valid()
    ensures z.op.Encode? ==>
      v == m && Encoded(old(z.buf[..]), z.buf[..], old(z.pos), z.pos, z.size, MsgBytes(proc, m), st)
    ensures z.op.Decode? ==>
      z.buf[..] == old(z.buf[..]) && Decoded(DecMsg(proc, z.buf[..], z.size, old(z.pos)), v, z.pos, st)
  {
    hide WordBytes, DecWord, BodyBytes, DecBody, Encoded, Up4, ValidBody;
    var xid, body := 0, m.body;
    if z.op.Encode? {
      xid := m.xid;
    }
    st, xid := z.UInt(xid);
    ghost var b, p, first := z.buf[..], z.pos, st;
    if st.Done? {
      st, body := RpcBody(z, proc, body);
    }
    v := Msg(xid, body);
    if z.op.Encode? {
      EncodedSeq(old(z.buf[..]), b, z.buf[..], old(z.pos), p, z.pos, z.size, WordBytes(m.xid), BodyBytes(proc, m.body),
                 first, st);
    }
  }

  lemma Unchanged(b: seq<byte>, p: nat, size: nat)
    ensures p <= Up4(size) <= |b| ==> Encoded(b, b, p, p, size, [], Done)
  {
  }

  lemma SampleValues()
    ensures ValidRes(MountError(1)) && ShortExports([])
  {
  }

  /** A message written into a buffer with room for it, then read from the start of that buffer, is
      the same message, and both directions stop at the same place. */
  method SendAndReceive(buf: array<byte>, size: nat, proc: Proc, m: Msg)
    returns (st: Status, got: Msg, written: nat, read: nat)
    requires Up4(size) <= buf.Length && Up4(size) + 8 < INT_LIMIT && ValidMsg(proc, m)
    modifies buf
    ensures |MsgBytes(proc, m)| <= size ==> st.Done? && got == m && written == read == |MsgBytes(proc, m)|
  {
    hide MsgBytes, DecMsg, Encoded, Up4, ValidMsg;
    got := m;
    var tx := new Zdr(Encode, buf, size);
    ghost var b := buf[..];
    var v;
    st, v := RpcMsg(tx, proc, m);
    written, read := tx.pos, 0;
    NotShort(b, buf[..], tx.pos, size, MsgBytes(proc, m), st);
    if !st.Done? || |MsgBytes(proc, m)| > size {
      return;
    }
    EncodedAt(b, buf[..], 0, tx.pos, size, MsgBytes(proc, m));
    MsgTrip(proc, buf[..], size, 0, m);
    var rx := new Zdr(Decode, buf, size);
    st, got := RpcMsg(rx, proc, m);
    read := rx.pos;
  }

  lemma NotShort(b: seq<byte>, b': seq<byte>, p': nat, size: nat, e: seq<byte>, st: Status)
    requires Encoded(b, b', 0, p', size, e, st)
    ensures (|e| <= size ==> st.Done?) && (st.Done? ==> p' == |e|)
  {
  }

  // ---- AUTH_SYS credentials (Appendix A of RFC 5531) ----

  predicate ValidUnix(time: nat, host: seq<byte>, uid: nat, gid: nat, groups: seq<nat>) {
    time < WORD && |host| < WORD && uid < WORD && gid < WORD && |groups| < WORD && AllWords(groups)
  }

  function AuthSys(time: nat, host: seq<byte>, uid: nat, gid: nat, groups: seq<nat>): (e: seq<byte>)
    requires ValidUnix(time, host, uid, gid, groups)
    ensures |e| == 4 + 4 + Up4(|host|) + 4 + 4 + 4 + 4 * |groups|
  {
    WordBytes(time) + WordBytes(|host|) + Opaque(host) +
    WordBytes(uid) + WordBytes(gid) + WordBytes(|groups|) + Ints(groups)
  }

  /** The credential as Appendix A of RFC 5531 has it read: a time stamp, the name of the host, the user, the
      group, and the list of groups, up to the end. */
  predicate ReadsAsAuthSys(b: seq<byte>, time: nat, host: seq<byte>, uid: nat, gid: nat, groups: seq<nat>) {
    var p := 8 + Up4(|host|);
    && Buffer(b, |b|)
    && DecWord(b, |b|, 0) == Got(time, 4)
    && DecBytes(b, |b|, 4) == Got(host, p)
    && DecWord(b, |b|, p) == Got(uid, p + 4)
    && DecWord(b, |b|, p + 4) == Got(gid, p + 8)
    && DecArray(b, |b|, p + 8) == Got(groups, |b|)
  }

  lemma AuthSysReads(time: nat, host: seq<byte>, uid: nat, gid: nat, groups: seq<nat>)
    requires ValidUnix(time, host, uid, gid, groups) && |AuthSys(time, host, uid, gid, groups)| < INT_LIMIT
    ensures var b := AuthSys(time, host, uid, gid, groups);
      ReadsAsAuthSys(b, time, host, uid, gid, groups)
  {
    hide WordBytes, DecWord, DecBytes, DecArray, Up4, At, Opaque, Ints;
    var b, p := AuthSys(time, host, uid, gid, groups), 8 + Up4(|host|);
    Aligned(|host|, |groups|);
    AuthSysSplit(time, host, uid, gid, groups);
    var tail := WordBytes(uid) + (WordBytes(gid) + Array(groups));
    Whole(b);
    AtSplit(b, 0, WordBytes(time), Var(host) + tail);
    AtSplit(b, 4, Var(host), tail);
    AtSplit(b, p, WordBytes(uid), WordBytes(gid) + Array(groups));
    AtSplit(b, p + 4, WordBytes(gid), Array(groups));
    WordTrip(b, |b|, 0, time);
    BytesTrip(b, |b|, 4, host);
    WordTrip(b, |b|, p, uid);
    WordTrip(b, |b|, p + 4, gid);
    ArrayTrip(b, |b|, p + 8, groups);
  }

  lemma AuthSysSplit(time: nat, host: seq<byte>, uid: nat, gid: nat, groups: seq<nat>)
    requires ValidUnix(time, host, uid, gid, groups)
    ensures AuthSys(time, host, uid, gid, groups) ==
      WordBytes(time) + (Var(host) + (WordBytes(uid) + (WordBytes(gid) + Array(groups))))
  {
    hide WordBytes, Opaque, Ints, Up4;
  }

  lemma Whole(b: seq<byte>)
    ensures At(b, 0, b)
  {
  }

  lemma Aligned(n: nat, k: nat)
    ensures Up4(20 + Up4(n) + 4 * k) == 20 + Up4(n) + 4 * k
  {
  }

  /** The next item is stored behind what is there; the rest is still zero. */
  lemma Appended(b: seq<byte>, pre: seq<byte>, e: seq<byte>, n: nat)
    requires |e| <= n && b == pre + Zeros(n)
    ensures Splice(b, |pre|, e) == (pre + e) + Zeros(n - |e|)
  {
  }

  /** The host name is copied behind what is there; its padding is already zero. */
  lemma HostAppended(b: seq<byte>, pre: seq<byte>, host: seq<byte>, n: nat)
    requires b == pre + Zeros(Up4(|host|) + n)
    ensures Splice(b, |pre|, host) == (pre + Opaque(host)) + Zeros(n)
  {
    hide Up4;
    Appended(b, pre, host, Up4(|host|) + n);
    assert Zeros(Up4(|host|) + n - |host|) == Zeros(Up4(|host|) - |host|) + Zeros(n);
  }

  function WordCount(n: nat): (r: nat)
    ensures 4 * r == Up4(n)
  {
    (n + 3) / 4
  }

  method StoreWord(buf: array<byte>, idx: nat, u: nat, ghost pre: seq<byte>, ghost n: nat)
    requires u < WORD && |pre| == 4 * idx && n >= 4 && buf[..] == pre + Zeros(n)
    modifies buf
    ensures buf[..] == (pre + WordBytes(u)) + Zeros(n - 4)
  {
    hide WordBytes, Zeros;
    Appended(buf[..], pre, WordBytes(u), n);
    PutWord(buf, 4 * idx, u);
  }

  method StoreGroups(buf: array<byte>, start: nat, groups: seq<nat>, ghost pre: seq<byte>)
    requires AllWords(groups) && |pre| == 4 * start && buf[..] == pre + Zeros(4 * |groups|)
    modifies buf
    ensures buf[..] == pre + Ints(groups)
  {
    hide WordBytes, Zeros;
    var idx, k := start, 0;
    assert pre + Ints(groups[..0]) == pre;
    while k < |groups|
      invariant 0 <= k <= |groups| && idx == start + k
      invariant buf[..] == (pre + Ints(groups[..k])) + Zeros(4 * (|groups| - k))
    {
      StoreWord(buf, idx, groups[k], pre + Ints(groups[..k]), 4 * (|groups| - k));
      assert groups[..k + 1][..k] == groups[..k];
      assert pre + Ints(groups[..k]) + WordBytes(groups[k]) == pre + Ints(groups[..k + 1]);
      idx, k := idx + 1, k + 1;
    }
    assert groups[..|groups|] == groups;
    assert |Zeros(0)| == 0;
  }

  /** Time stamp and length of the host name. */
  method StoreHead(body: array<byte>, length: nat, time: nat, ghost n: nat)
    requires time < WORD && length < WORD && body[..] == Zeros(8 + n)
    modifies body
    ensures body[..] == (WordBytes(time) + WordBytes(length)) + Zeros(n)
  {
    hide WordBytes, Zeros, Splice;
    FirstStored(WordBytes(time), 4 + n);
    PutWord(body, 0, time);
    StoreWord(body, 1, length, WordBytes(time), 4 + n);
  }

  lemma FirstStored(e: seq<byte>, n: nat)
    ensures Splice(Zeros(|e| + n), 0, e) == e + Zeros(n)
  {
  }

  method StoreHost(body: array<byte>, host: seq<byte>, ghost pre: seq<byte>, ghost n: nat)
    requires |pre| == 8 && body[..] == pre + Zeros(Up4(|host|) + n)
    modifies body
    ensures body[..] == (pre + Opaque(host)) + Zeros(n)
  {
    hide Zeros, Opaque, Splice;
    HostAppended(body[..], pre, host, n);
    CopyIn(body, 8, host);
  }

  /** User, group and supplementary groups. */
  method StoreIds(body: array<byte>, start: nat, uid: nat, gid: nat, groups: seq<nat>, ghost pre: seq<byte>)
    requires uid < WORD && gid < WORD && |groups| < WORD && AllWords(groups)
    requires |pre| == 4 * start && body[..] == pre + Zeros(12 + 4 * |groups|)
    modifies body
    ensures body[..] == pre + WordBytes(uid) + WordBytes(gid) + WordBytes(|groups|) + Ints(groups)
  {
    hide WordBytes, Zeros, Ints;
    var idx := start;
    StoreWord(body, idx, uid, pre, 12 + 4 * |groups|);
    idx := idx + 1;
    StoreWord(body, idx, gid, pre + WordBytes(uid), 8 + 4 * |groups|);
    idx := idx + 1;
    StoreWord(body, idx, |groups|, pre + WordBytes(uid) + WordBytes(gid), 4 + 4 * |groups|);
    idx := idx + 1;
    StoreGroups(body, idx, groups, pre + WordBytes(uid) + WordBytes(gid) + WordBytes(|groups|));
  }

  /** `libnfs_authunix_create`: the credential body has exactly the declared length. */
  method AuthUnixCreate(host: seq<byte>, uid: nat, gid: nat, groups: seq<nat>, time: nat)
    returns (length: nat, body: array<byte>)
    requires ValidUnix(time, host, uid, gid, groups)
    ensures fresh(body) && length == body.Length && body[..] == AuthSys(time, host, uid, gid, groups)
    ensures length < INT_LIMIT ==> ReadsAsAuthSys(body[..], time, host, uid, gid, groups)
  {
    hide WordBytes, Up4, Zeros, Ints, Opaque;
    length := 4 + 4 + Up4(|host|) + 4 + 4 + 4 + |groups| * 4;
    body := new byte[length](i => 0 as byte);
    AllZero(body[..]);
    StoreHead(body, |host|, time, Up4(|host|) + (12 + 4 * |groups|));
    StoreHost(body, host, WordBytes(time) + WordBytes(|host|), 12 + 4 * |groups|);
    var idx := 2 + WordCount(|host|);
    StoreIds(body, idx, uid, gid, groups, WordBytes(time) + WordBytes(|host|) + Opaque(host));
    if length < INT_LIMIT {
      AuthSysReads(time, host, uid, gid, groups);
    }
  }

  lemma AllZero(b: seq<byte>)
    requires forall i :: 0 <= i < |b| ==> b[i] == 0
    ensures b == Zeros(|b|)
  {
  }
}
