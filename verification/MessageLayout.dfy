/** Where the parts of a message stand, read word by word: sections 8 and 9 of
    RFC 5531, section 4.19 of RFC 4506, and Appendix I of RFC 1813. */
module MessageLayout {
  import opened Prelude
  import opened Bytes
  import opened ZdrSpec
  import opened MountCodec
  import opened RpcMessage
  import RecordStream

  predicate WordAt(b: seq<byte>, size: nat, p: nat, v: nat) {
    Buffer(b, size) && DecWord(b, size, p) == Got(v, p + 4)
  }

  /** Counted bytes from `p` up to `end`. */
  predicate BytesAt(b: seq<byte>, size: nat, p: nat, s: seq<byte>, end: nat) {
    Buffer(b, size) && DecBytes(b, size, p) == Got(s, end)
  }

  /** A word stands at the front, and the rest four bytes on. */
  lemma First(b: seq<byte>, size: nat, p: nat, v: nat, rest: seq<byte>)
    requires v < WORD && Stands(b, size, p, WordBytes(v) + rest)
    ensures WordAt(b, size, p, v) && Stands(b, size, p + 4, rest)
  {
    hide Stands, DecWord, WordBytes;
    WordFirst(b, size, p, v, rest);
  }

  lemma Only(b: seq<byte>, size: nat, p: nat, v: nat)
    requires v < WORD && Stands(b, size, p, WordBytes(v))
    ensures WordAt(b, size, p, v)
  {
    hide Stands, DecWord, WordBytes;
    OneWord(b, size, p, v);
  }

  lemma Pair(b: seq<byte>, size: nat, p: nat, u: nat, v: nat, rest: seq<byte>)
    requires u < WORD && v < WORD && Stands(b, size, p, PairBytes(u, v) + rest)
    ensures WordAt(b, size, p, u) && WordAt(b, size, p + 4, v) && Stands(b, size, p + 8, rest)
  {
    hide Stands, WordAt, WordBytes;
    assert PairBytes(u, v) + rest == WordBytes(u) + (WordBytes(v) + rest);
    First(b, size, p, u, WordBytes(v) + rest);
    First(b, size, p + 4, v, rest);
  }

  lemma AuthFirst(b: seq<byte>, size: nat, p: nat, a: Auth, rest: seq<byte>)
    requires ValidAuth(a) && Stands(b, size, p, AuthBytes(a) + rest)
    ensures var end := p + 8 + Up4(|a.body|);
      WordAt(b, size, p, a.flavor) && BytesAt(b, size, p + 4, a.body, end) && Stands(b, size, end, rest)
  {
    hide WordBytes, Up4, DecWord, DecBytes, Var, At, Buffer;
    assert AuthBytes(a) + rest == WordBytes(a.flavor) + (Var(a.body) + rest);
    First(b, size, p, a.flavor, Var(a.body) + rest);
    StandsSplit(b, size, p + 4, Var(a.body), rest);
    BytesTrip(b, size, p + 4, a.body);
  }

  lemma NothingMore(e: seq<byte>)
    ensures e + [] == e
  {
  }

  /** A call: transaction id, 0, RPC version, program, version, procedure, credential, verifier. */
  lemma CallLayout(proc: Proc, b: seq<byte>, size: nat, p: nat, m: Msg)
    requires ValidMsg(proc, m) && m.body.CallBody? && Stands(b, size, p, MsgBytes(proc, m))
    ensures var c := m.body.call;
      var verf := p + 32 + Up4(|c.cred.body|);
      && WordAt(b, size, p, m.xid) && WordAt(b, size, p + 4, 0)
      && WordAt(b, size, p + 8, c.rpcvers) && WordAt(b, size, p + 12, c.prog)
      && WordAt(b, size, p + 16, c.vers) && WordAt(b, size, p + 20, c.procedure)
      && WordAt(b, size, p + 24, c.cred.flavor) && BytesAt(b, size, p + 28, c.cred.body, verf)
      && WordAt(b, size, verf, c.verf.flavor) && BytesAt(b, size, verf + 4, c.verf.body, p + |MsgBytes(proc, m)|)
  {
    hide Stands, WordAt, BytesAt, WordBytes, PairBytes, AuthBytes, Up4;
    var c := m.body.call;
    var auths := AuthBytes(c.cred) + AuthBytes(c.verf);
    First(b, size, p, m.xid, BodyBytes(proc, m.body));
    First(b, size, p + 4, 0, CallBytes(c));
    Pair(b, size, p + 8, c.rpcvers, c.prog, PairBytes(c.vers, c.procedure) + auths);
    Pair(b, size, p + 16, c.vers, c.procedure, auths);
    AuthFirst(b, size, p + 24, c.cred, AuthBytes(c.verf));
    NothingMore(AuthBytes(c.verf));
    AuthFirst(b, size, p + 32 + Up4(|c.cred.body|), c.verf, []);
  }

  /** A reply: transaction id, 1, then 0 with a verifier and a status, or 1 with the reason of a denial. */
  lemma ReplyLayout(proc: Proc, b: seq<byte>, size: nat, p: nat, m: Msg)
    requires ValidMsg(proc, m) && m.body.ReplyBody? && Stands(b, size, p, MsgBytes(proc, m))
    ensures WordAt(b, size, p, m.xid) && WordAt(b, size, p + 4, 1)
    ensures match m.body.reply
      case Accept(verf, a) =>
        && WordAt(b, size, p + 8, 0) && WordAt(b, size, p + 12, verf.flavor)
        && BytesAt(b, size, p + 16, verf.body, p + 20 + Up4(|verf.body|))
        && AcceptedAt(proc, b, size, p + 20 + Up4(|verf.body|), a)
      case Deny(r) => WordAt(b, size, p + 8, 1) && RejectedAt(b, size, p + 12, r)
  {
    hide Stands, WordAt, BytesAt, WordBytes, AuthBytes, AcceptedBytes, RejectedBytes, Up4, AcceptedAt, RejectedAt;
    First(b, size, p, m.xid, BodyBytes(proc, m.body));
    First(b, size, p + 4, 1, ReplyBytes(proc, m.body.reply));
    match m.body.reply
    case Accept(verf, a) =>
      First(b, size, p + 8, 0, AuthBytes(verf) + AcceptedBytes(proc, a));
      AuthFirst(b, size, p + 12, verf, AcceptedBytes(proc, a));
      AcceptedLayout(proc, b, size, p + 20 + Up4(|verf.body|), a);
    case Deny(r) =>
      First(b, size, p + 8, 1, RejectedBytes(r));
      RejectedLayout(b, size, p + 12, r);
  }

  /** The status of an accepted call: 0 before the results, 2 before the versions the program has. */
  predicate AcceptedAt(proc: Proc, b: seq<byte>, size: nat, p: nat, a: Accepted)
    requires ValidAccepted(proc, a)
  {
    match a
    case Success(results) => WordAt(b, size, p, 0) && Stands(b, size, p + 4, ResultBytes(proc, results))
    case ProgMismatch(low, high) => WordAt(b, size, p, 2) && WordAt(b, size, p + 4, low) && WordAt(b, size, p + 8, high)
    case OtherStat(stat) => WordAt(b, size, p, stat)
  }

  lemma AcceptedLayout(proc: Proc, b: seq<byte>, size: nat, p: nat, a: Accepted)
    requires ValidAccepted(proc, a) && Stands(b, size, p, AcceptedBytes(proc, a))
    ensures AcceptedAt(proc, b, size, p, a)
  {
    hide Stands, WordAt, WordBytes, PairBytes, ResultBytes;
    match a
    case Success(results) => First(b, size, p, 0, ResultBytes(proc, results));
    case ProgMismatch(low, high) =>
      First(b, size, p, 2, PairBytes(low, high));
      NothingMore(PairBytes(low, high));
      Pair(b, size, p + 4, low, high, []);
    case OtherStat(stat) => Only(b, size, p, stat);
  }

  /** Why a call was denied: 0 before the versions of RPC there are, 1 before the reason of the refusal. */
  predicate RejectedAt(b: seq<byte>, size: nat, p: nat, r: Rejected) {
    match r
    case RpcMismatch(low, high) => WordAt(b, size, p, 0) && WordAt(b, size, p + 4, low) && WordAt(b, size, p + 8, high)
    case AuthError(why) => WordAt(b, size, p, 1) && WordAt(b, size, p + 4, why)
    case OtherReject(stat) => WordAt(b, size, p, stat)
  }

  lemma RejectedLayout(b: seq<byte>, size: nat, p: nat, r: Rejected)
    requires ValidRejected(r) && Stands(b, size, p, RejectedBytes(r))
    ensures RejectedAt(b, size, p, r)
  {
    hide Stands, WordAt, WordBytes, PairBytes;
    match r
    case RpcMismatch(low, high) =>
      First(b, size, p, 0, PairBytes(low, high));
      NothingMore(PairBytes(low, high));
      Pair(b, size, p + 4, low, high, []);
    case AuthError(why) =>
      First(b, size, p, 1, WordBytes(why));
      Only(b, size, p + 4, why);
    case OtherReject(stat) => Only(b, size, p, stat);
  }

  lemma VarFirst(b: seq<byte>, size: nat, p: nat, s: seq<byte>, rest: seq<byte>)
    requires |s| < WORD && Stands(b, size, p, Var(s) + rest)
    ensures BytesAt(b, size, p, s, p + |Var(s)|) && Stands(b, size, p + |Var(s)|, rest)
  {
    hide WordBytes, Up4, DecBytes, Var, At, Buffer;
    StandsSplit(b, size, p, Var(s), rest);
    BytesTrip(b, size, p, s);
  }

  /** A list: 1 before each element, 0 at the end. */
  lemma GroupsLayout(b: seq<byte>, size: nat, p: nat, g: seq<seq<byte>>)
    requires ShortNames(g) && Stands(b, size, p, Groups(g))
    ensures WordAt(b, size, p, if g == [] then 0 else 1)
    ensures g != [] ==>
      BytesAt(b, size, p + 4, g[0], p + 4 + |Var(g[0])|) && Stands(b, size, p + 4 + |Var(g[0])|, Groups(g[1..]))
  {
    hide Stands, WordAt, BytesAt, WordBytes, Var;
    if g == [] {
      Only(b, size, p, 0);
    } else {
      First(b, size, p, 1, Var(g[0]) + Groups(g[1..]));
      VarFirst(b, size, p + 4, g[0], Groups(g[1..]));
    }
  }

  lemma ExportsLayout(b: seq<byte>, size: nat, p: nat, x: seq<Export>)
    requires ShortExports(x) && Stands(b, size, p, Exports(x))
    ensures WordAt(b, size, p, if x == [] then 0 else 1)
    ensures x != [] ==>
      var at := p + 4 + |Var(x[0].dir)|;
      var next := at + |Groups(x[0].groups)|;
      && BytesAt(b, size, p + 4, x[0].dir, at) && Stands(b, size, at, Groups(x[0].groups))
      && Stands(b, size, next, Exports(x[1..]))
  {
    hide Stands, WordAt, BytesAt, WordBytes, Var, Groups;
    if x == [] {
      Only(b, size, p, 0);
    } else {
      First(b, size, p, 1, Var(x[0].dir) + (Groups(x[0].groups) + Exports(x[1..])));
      VarFirst(b, size, p + 4, x[0].dir, Groups(x[0].groups) + Exports(x[1..]));
      GroupsAligned(x[0].groups);
      StandsSplit(b, size, p + 4 + |Var(x[0].dir)|, Groups(x[0].groups), Exports(x[1..]));
    }
  }

  /** A mount reply: 0, the file handle and the flavors, or the error. */
  lemma MountLayout(b: seq<byte>, size: nat, p: nat, r: MountRes)
    requires ValidRes(r) && Stands(b, size, p, Mount(r))
    ensures match r
      case MountError(status) => WordAt(b, size, p, status)
      case MountOk(handle, flavors) =>
        var at := p + 4 + |Var(handle)|;
        && WordAt(b, size, p, 0) && BytesAt(b, size, p + 4, handle, at)
        && Buffer(b, size) && DecArray(b, size, at) == Got(flavors, p + |Mount(r)|)
  {
    hide WordAt, BytesAt, WordBytes, Var, Array, DecArray, At, Buffer;
    match r
    case MountError(status) => Only(b, size, p, status);
    case MountOk(handle, flavors) =>
      First(b, size, p, 0, Var(handle) + Array(flavors));
      VarFirst(b, size, p + 4, handle, Array(flavors));
      ArrayTrip(b, size, p + 4 + |Var(handle)|, flavors);
  }

  /** Counted bytes: the length, the bytes, and zeros up to a multiple of four. */
  lemma VarLayout(b: seq<byte>, size: nat, p: nat, s: seq<byte>)
    requires |s| < WORD && Stands(b, size, p, Var(s))
    ensures WordAt(b, size, p, |s|) && p + 4 + Up4(|s|) <= |b| && b[p + 4..p + 4 + |s|] == s
    ensures forall i :: p + 4 + |s| <= i < p + 4 + Up4(|s|) ==> b[i] == 0
  {
    hide WordAt, WordBytes, Up4, Stands;
    First(b, size, p, |s|, Opaque(s));
    OpaqueAt(b, size, p + 4, s);
  }

  lemma OpaqueAt(b: seq<byte>, size: nat, p: nat, s: seq<byte>)
    requires Stands(b, size, p, Opaque(s))
    ensures p + Up4(|s|) <= |b| && b[p..p + |s|] == s
    ensures forall i :: p + |s| <= i < p + Up4(|s|) ==> b[i] == 0
  {
    hide Up4, Buffer;
    var n := Up4(|s|);
    assert b[p..p + n][..|s|] == b[p..p + |s|] && Opaque(s)[..|s|] == s;
    forall i | p + |s| <= i < p + n ensures b[i] == 0 {
      assert b[p..p + n][i - p] == b[i] && Opaque(s)[i - p] == 0;
    }
  }

  /** A hyper: its high word, then its low word. */
  lemma HyperLayout(b: seq<byte>, size: nat, p: nat, u: nat)
    requires u < WORD * WORD && Stands(b, size, p, Hyper(u))
    ensures WordAt(b, size, p, u / WORD) && WordAt(b, size, p + 4, u % WORD)
  {
    hide Stands, WordAt, WordBytes;
    First(b, size, p, u / WORD, WordBytes(u % WORD));
    Only(b, size, p + 4, u % WORD);
  }

  /** An array: the number of elements, then one after the other. */
  lemma {:induction false} IntsLayout(b: seq<byte>, size: nat, p: nat, a: seq<nat>, i: nat)
    requires AllWords(a) && i < |a| && Stands(b, size, p, Ints(a))
    ensures WordAt(b, size, p + 4 * i, a[i])
    decreases |a|
  {
    hide Stands, WordAt, WordBytes, Ints;
    IntsCons(a);
    First(b, size, p, a[0], Ints(a[1..]));
    if i > 0 {
      IntsLayout(b, size, p + 4, a[1..], i - 1);
    }
  }

  lemma ArrayLayout(b: seq<byte>, size: nat, p: nat, a: seq<nat>, i: nat)
    requires AllWords(a) && |a| < WORD && Stands(b, size, p, Array(a))
    ensures WordAt(b, size, p, |a|) && (i < |a| ==> WordAt(b, size, p + 4 + 4 * i, a[i]))
  {
    hide Stands, WordAt, WordBytes, Ints;
    First(b, size, p, |a|, Ints(a));
    if i < |a| {
      IntsLayout(b, size, p + 4, a, i);
    }
  }

  /** A fragment: its length, with the top bit set in the last one of a record, and the bytes. */
  lemma RecordLayout(b: seq<byte>, size: nat, p: nat, f: RecordStream.Fragment)
    requires RecordStream.Sized(f) && Stands(b, size, p, RecordStream.Wire(f))
    ensures WordAt(b, size, p, |f.body| + if f.last then 0x8000_0000 else 0) && Stands(b, size, p + 4, f.body)
  {
    hide Stands, WordAt, WordBytes;
    First(b, size, p, |f.body| + if f.last then 0x8000_0000 else 0, f.body);
  }
}
