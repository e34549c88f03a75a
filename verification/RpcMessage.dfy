/** ONC-RPC call and reply messages (section 9 of RFC 5531) through the shared
    codec: one routine per part works in both directions. */
module RpcMessage {
  import opened Prelude
  import opened Bytes
  import opened ZdrSpec
  import opened MountCodec

  datatype Auth = Auth(flavor: nat, body: seq<byte>)

  /** The routine a caller supplies for the results of a successful call. */
  datatype Proc = ProcVoid | ProcMount | ProcExports

  datatype Results = NoResults | MountResults(res: MountRes) | ExportResults(list: seq<Export>)

  datatype Accepted = Success(results: Results) | ProgMismatch(low: nat, high: nat) | OtherStat(stat: nat)

  datatype Rejected = RpcMismatch(low: nat, high: nat) | AuthError(why: nat) | OtherReject(stat: nat)

  datatype Reply = Accept(verf: Auth, accepted: Accepted) | Deny(rejected: Rejected)

  datatype Call = Call(rpcvers: nat, prog: nat, vers: nat, procedure: nat, cred: Auth, verf: Auth)

  datatype Body = CallBody(call: Call) | ReplyBody(reply: Reply)

  datatype Msg = Msg(xid: nat, body: Body)

  // ---- values that C can hold, with the constants of the union arms kept apart ----

  predicate ValidAuth(a: Auth) {
    a.flavor < WORD && |a.body| < WORD
  }

  predicate ValidResults(proc: Proc, r: Results) {
    match proc
    case ProcVoid => r == NoResults
    case ProcMount => r.MountResults? && ValidRes(r.res)
    case ProcExports => r.ExportResults? && ShortExports(r.list)
  }

  predicate ValidAccepted(proc: Proc, a: Accepted) {
    match a
    case Success(results) => ValidResults(proc, results)
    case ProgMismatch(low, high) => low < WORD && high < WORD
    case OtherStat(stat) => stat < WORD && stat != 0 && stat != 2
  }

  predicate ValidRejected(r: Rejected) {
    match r
    case RpcMismatch(low, high) => low < WORD && high < WORD
    case AuthError(why) => why < WORD
    case OtherReject(stat) => 1 < stat < WORD
  }

  predicate ValidReply(proc: Proc, r: Reply) {
    match r
    case Accept(verf, accepted) => ValidAuth(verf) && ValidAccepted(proc, accepted)
    case Deny(rejected) => ValidRejected(rejected)
  }

  predicate ValidCall(c: Call) {
    c.rpcvers < WORD && c.prog < WORD && c.vers < WORD && c.procedure < WORD && ValidAuth(c.cred) && ValidAuth(c.verf)
  }

  predicate ValidBody(proc: Proc, b: Body) {
    match b
    case CallBody(call) => ValidCall(call)
    case ReplyBody(reply) => ValidReply(proc, reply)
  }

  predicate ValidMsg(proc: Proc, m: Msg) {
    m.xid < WORD && ValidBody(proc, m.body)
  }

  // ---- encodings ----

  function PairBytes(u: nat, v: nat): (e: seq<byte>)
    requires u < WORD && v < WORD
    ensures |e| == 8
  {
    WordBytes(u) + WordBytes(v)
  }

  function AuthBytes(a: Auth): (e: seq<byte>)
    requires ValidAuth(a)
    ensures |e| == 8 + Up4(|a.body|)
  {
    WordBytes(a.flavor) + Var(a.body)
  }

  function CallBytes(c: Call): seq<byte>
    requires ValidCall(c)
  {
    PairBytes(c.rpcvers, c.prog) + (PairBytes(c.vers, c.procedure) + (AuthBytes(c.cred) + AuthBytes(c.verf)))
  }

  function ResultBytes(proc: Proc, r: Results): seq<byte>
    requires ValidResults(proc, r)
  {
    match proc
    case ProcVoid => []
    case ProcMount => Mount(r.res)
    case ProcExports => Exports(r.list)
  }

  function AcceptedBytes(proc: Proc, a: Accepted): seq<byte>
    requires ValidAccepted(proc, a)
  {
    match a
    case Success(results) => WordBytes(0) + ResultBytes(proc, results)
    case ProgMismatch(low, high) => WordBytes(2) + PairBytes(low, high)
    case OtherStat(stat) => WordBytes(stat)
  }

  function RejectedBytes(r: Rejected): seq<byte>
    requires ValidRejected(r)
  {
    match r
    case RpcMismatch(low, high) => WordBytes(0) + PairBytes(low, high)
    case AuthError(why) => WordBytes(1) + WordBytes(why)
    case OtherReject(stat) => WordBytes(stat)
  }

  function ReplyBytes(proc: Proc, r: Reply): seq<byte>
    requires ValidReply(proc, r)
  {
    match r
    case Accept(verf, accepted) => WordBytes(0) + (AuthBytes(verf) + AcceptedBytes(proc, accepted))
    case Deny(rejected) => WordBytes(1) + RejectedBytes(rejected)
  }

  function BodyBytes(proc: Proc, b: Body): seq<byte>
    requires ValidBody(proc, b)
  {
    match b
    case CallBody(call) => WordBytes(0) + CallBytes(call)
    case ReplyBody(reply) => WordBytes(1) + ReplyBytes(proc, reply)
  }

  function MsgBytes(proc: Proc, m: Msg): seq<byte>
    requires ValidMsg(proc, m)
  {
    WordBytes(m.xid) + BodyBytes(proc, m.body)
  }

  // ---- decoding ----

  function DecPair(b: seq<byte>, size: nat, pos: nat): (r: Parsed<(nat, nat)>)
    requires Buffer(b, size)
    ensures !r.Wild? && (r.Got? ==> r.value.0 < WORD && r.value.1 < WORD)
  {
    match DecWord(b, size, pos)
    case Got(u, at) => (match DecWord(b, size, at) case Got(v, end) => Got((u, v), end) case _ => Fail)
    case _ => Fail
  }

  function DecAuth(b: seq<byte>, size: nat, pos: nat): (r: Parsed<Auth>)
    requires Buffer(b, size)
    ensures r.Got? ==> ValidAuth(r.value)
  {
    match DecWord(b, size, pos)
    case Got(flavor, at) =>
      (match DecBytes(b, size, at)
        case Got(body, end) => Got(Auth(flavor, body), end)
        case Fail => Fail
        case Wild => Wild)
    case _ => Fail
  }

  function DecTwoAuths(b: seq<byte>, size: nat, pos: nat): (r: Parsed<(Auth, Auth)>)
    requires Buffer(b, size)
    ensures r.Got? ==> ValidAuth(r.value.0) && ValidAuth(r.value.1)
  {
    match DecAuth(b, size, pos)
    case Got(cred, at) =>
      (match DecAuth(b, size, at) case Got(verf, end) => Got((cred, verf), end) case Fail => Fail case Wild => Wild)
    case Fail => Fail
    case Wild => Wild
  }

  function DecCall(b: seq<byte>, size: nat, pos: nat): (r: Parsed<Call>)
    requires Buffer(b, size)
  {
    match DecPair(b, size, pos)
    case Got(p, at) =>
      (match DecPair(b, size, at)
       case Got(q, next) =>
         (match DecTwoAuths(b, size, next)
          case Got(a, end) => Got(Call(p.0, p.1, q.0, q.1, a.0, a.1), end)
          case Fail => Fail
          case Wild => Wild)
       case _ => Fail)
    case _ => Fail
  }

  function DecResults(proc: Proc, b: seq<byte>, size: nat, pos: nat): (r: Parsed<Results>)
    requires Buffer(b, size)
  {
    match proc
    case ProcVoid => Got(NoResults, pos)
    case ProcMount =>
      (match DecMount(b, size, pos)
        case Got(res, end) => Got(MountResults(res), end)
        case Fail => Fail
        case Wild => Wild)
    case ProcExports =>
      (match DecExports(b, size, pos)
        case Got(list, end) => Got(ExportResults(list), end)
        case Fail => Fail
        case Wild => Wild)
  }

  function DecAccepted(proc: Proc, b: seq<byte>, size: nat, pos: nat): (r: Parsed<Accepted>)
    requires Buffer(b, size)
  {
    match DecWord(b, size, pos)
    case Got(stat, at) =>
      if stat == 0 then
        (match DecResults(proc, b, size, at)
          case Got(x, end) => Got(Success(x), end)
          case Fail => Fail
          case Wild => Wild)
      else if stat == 2 then
        (match DecPair(b, size, at) case Got(p, end) => Got(ProgMismatch(p.0, p.1), end) case _ => Fail)
      else Got(OtherStat(stat), at)
    case _ => Fail
  }

  function DecRejected(b: seq<byte>, size: nat, pos: nat): (r: Parsed<Rejected>)
    requires Buffer(b, size)
    ensures !r.Wild?
  {
    match DecWord(b, size, pos)
    case Got(stat, at) =>
      if stat == 0 then
        (match DecPair(b, size, at) case Got(p, end) => Got(RpcMismatch(p.0, p.1), end) case _ => Fail)
      else if stat == 1 then
        (match DecWord(b, size, at) case Got(why, end) => Got(AuthError(why), end) case _ => Fail)
      else Got(OtherReject(stat), at)
    case _ => Fail
  }

  function DecAccept(proc: Proc, b: seq<byte>, size: nat, pos: nat): (r: Parsed<Reply>)
    requires Buffer(b, size)
  {
    match DecAuth(b, size, pos)
    case Got(verf, at) =>
      (match DecAccepted(proc, b, size, at)
        case Got(a, end) => Got(Accept(verf, a), end)
        case Fail => Fail
        case Wild => Wild)
    case Fail => Fail
    case Wild => Wild
  }

  function DecReply(proc: Proc, b: seq<byte>, size: nat, pos: nat): (r: Parsed<Reply>)
    requires Buffer(b, size)
  {
    match DecWord(b, size, pos)
    case Got(stat, at) =>
      if stat == 0 then DecAccept(proc, b, size, at)
      else if stat == 1 then
        (match DecRejected(b, size, at) case Got(r, end) => Got(Deny(r), end) case _ => Fail)
      else Fail
    case _ => Fail
  }

  function DecBody(proc: Proc, b: seq<byte>, size: nat, pos: nat): (r: Parsed<Body>)
    requires Buffer(b, size)
  {
    match DecWord(b, size, pos)
    case Got(direction, at) =>
      if direction == 0 then
        (match DecCall(b, size, at) case Got(c, end) => Got(CallBody(c), end) case Fail => Fail case Wild => Wild)
      else if direction == 1 then
        (match DecReply(proc, b, size, at)
          case Got(r, end) => Got(ReplyBody(r), end)
          case Fail => Fail
          case Wild => Wild)
      else Fail
    case _ => Fail
  }

  function DecMsg(proc: Proc, b: seq<byte>, size: nat, pos: nat): (r: Parsed<Msg>)
    requires Buffer(b, size)
  {
    match DecWord(b, size, pos)
    case Got(xid, at) =>
      (match DecBody(proc, b, size, at)
        case Got(body, end) => Got(Msg(xid, body), end)
        case Fail => Fail
        case Wild => Wild)
    case _ => Fail
  }

  // ---- round trips ----

  /** `e` stands at an aligned position and ends inside the buffer. */
  predicate Stands(b: seq<byte>, size: nat, pos: nat, e: seq<byte>) {
    Buffer(b, size) && pos % 4 == 0 && At(b, pos, e) && pos + |e| <= size
  }

  lemma StandsSplit(b: seq<byte>, size: nat, pos: nat, e: seq<byte>, f: seq<byte>)
    requires Stands(b, size, pos, e + f) && |e| % 4 == 0
    ensures Stands(b, size, pos, e) && Stands(b, size, pos + |e|, f)
  {
    AtSplit(b, pos, e, f);
  }

  /** A word, then something else. */
  lemma WordFirst(b: seq<byte>, size: nat, pos: nat, u: nat, f: seq<byte>)
    requires u < WORD && Stands(b, size, pos, WordBytes(u) + f)
    ensures Buffer(b, size) && DecWord(b, size, pos) == Got(u, pos + 4) && Stands(b, size, pos + 4, f)
  {
    hide WordBytes, DecWord;
    StandsSplit(b, size, pos, WordBytes(u), f);
    WordTrip(b, size, pos, u);
  }

  lemma OneWord(b: seq<byte>, size: nat, pos: nat, u: nat)
    requires u < WORD && Stands(b, size, pos, WordBytes(u))
    ensures Buffer(b, size) && DecWord(b, size, pos) == Got(u, pos + 4)
  {
    hide WordBytes, DecWord;
    WordTrip(b, size, pos, u);
  }

  lemma PairTrip(b: seq<byte>, size: nat, pos: nat, u: nat, v: nat)
    requires u < WORD && v < WORD && Stands(b, size, pos, PairBytes(u, v))
    ensures Buffer(b, size) && DecPair(b, size, pos) == Got((u, v), pos + 8)
  {
    hide Stands, WordBytes, DecWord;
    WordFirst(b, size, pos, u, WordBytes(v));
    OneWord(b, size, pos + 4, v);
  }

  lemma AuthTrip(b: seq<byte>, size: nat, pos: nat, a: Auth)
    requires ValidAuth(a) && Stands(b, size, pos, AuthBytes(a))
    ensures Buffer(b, size) && DecAuth(b, size, pos) == Got(a, pos + |AuthBytes(a)|)
  {
    hide WordBytes, DecWord, DecBytes, Var, Buffer, Up4, At;
    WordFirst(b, size, pos, a.flavor, Var(a.body));
    BytesTrip(b, size, pos + 4, a.body);
  }

  lemma TwoAuthsTrip(b: seq<byte>, size: nat, pos: nat, cred: Auth, verf: Auth)
    requires ValidAuth(cred) && ValidAuth(verf) && Stands(b, size, pos, AuthBytes(cred) + AuthBytes(verf))
    ensures Buffer(b, size) && DecTwoAuths(b, size, pos) == Got((cred, verf), pos + |AuthBytes(cred) + AuthBytes(verf)|)
  {
    hide Stands, AuthBytes, DecAuth, Up4, Buffer;
    AlignedSum(4, Up4(|cred.body|));
    StandsSplit(b, size, pos, AuthBytes(cred), AuthBytes(verf));
    AuthTrip(b, size, pos, cred);
    AuthTrip(b, size, pos + |AuthBytes(cred)|, verf);
  }

  lemma CallTrip(b: seq<byte>, size: nat, pos: nat, c: Call)
    requires ValidCall(c) && Stands(b, size, pos, CallBytes(c))
    ensures Buffer(b, size) && DecCall(b, size, pos) == Got(c, pos + |CallBytes(c)|)
  {
    hide Stands, PairBytes, AuthBytes, DecPair, DecTwoAuths, Up4, Buffer;
    var auths := AuthBytes(c.cred) + AuthBytes(c.verf);
    StandsSplit(b, size, pos, PairBytes(c.rpcvers, c.prog), PairBytes(c.vers, c.procedure) + auths);
    StandsSplit(b, size, pos + 8, PairBytes(c.vers, c.procedure), auths);
    PairTrip(b, size, pos, c.rpcvers, c.prog);
    PairTrip(b, size, pos + 8, c.vers, c.procedure);
    TwoAuthsTrip(b, size, pos + 8 + 8, c.cred, c.verf);
  }

  lemma ResultsTrip(proc: Proc, b: seq<byte>, size: nat, pos: nat, r: Results)
    requires ValidResults(proc, r) && Stands(b, size, pos, ResultBytes(proc, r))
    ensures Buffer(b, size) && DecResults(proc, b, size, pos) == Got(r, pos + |ResultBytes(proc, r)|)
  {
    hide Mount, Exports, DecMount, DecExports, ValidRes, ShortExports, Buffer, At;
    match proc
    case ProcVoid =>
    case ProcMount => MountTrip(b, size, pos, r.res);
    case ProcExports => ExportsTrip(b, size, pos, r.list);
  }

  lemma AcceptedTrip(proc: Proc, b: seq<byte>, size: nat, pos: nat, a: Accepted)
    requires ValidAccepted(proc, a) && Stands(b, size, pos, AcceptedBytes(proc, a))
    ensures Buffer(b, size) && DecAccepted(proc, b, size, pos) == Got(a, pos + |AcceptedBytes(proc, a)|)
  {
    hide Stands, WordBytes, DecWord, PairBytes, DecPair, ResultBytes, DecResults, Buffer;
    match a
    case Success(results) =>
      WordFirst(b, size, pos, 0, ResultBytes(proc, results));
      ResultsTrip(proc, b, size, pos + 4, results);
    case ProgMismatch(low, high) =>
      WordFirst(b, size, pos, 2, PairBytes(low, high));
      PairTrip(b, size, pos + 4, low, high);
    case OtherStat(stat) =>
      OneWord(b, size, pos, stat);
  }

  lemma RejectedTrip(b: seq<byte>, size: nat, pos: nat, r: Rejected)
    requires ValidRejected(r) && Stands(b, size, pos, RejectedBytes(r))
    ensures Buffer(b, size) && DecRejected(b, size, pos) == Got(r, pos + |RejectedBytes(r)|)
  {
    hide Stands, WordBytes, DecWord, PairBytes, DecPair, Buffer;
    match r
    case RpcMismatch(low, high) =>
      WordFirst(b, size, pos, 0, PairBytes(low, high));
      PairTrip(b, size, pos + 4, low, high);
    case AuthError(why) =>
      WordFirst(b, size, pos, 1, WordBytes(why));
      OneWord(b, size, pos + 4, why);
    case OtherReject(stat) =>
      OneWord(b, size, pos, stat);
  }

  lemma ReplyTrip(proc: Proc, b: seq<byte>, size: nat, pos: nat, r: Reply)
    requires ValidReply(proc, r) && Stands(b, size, pos, ReplyBytes(proc, r))
    ensures Buffer(b, size) && DecReply(proc, b, size, pos) == Got(r, pos + |ReplyBytes(proc, r)|)
  {
    hide Stands, WordBytes, DecWord, AuthBytes, DecAuth, AcceptedBytes, DecAccepted, RejectedBytes, DecRejected, Up4,
      Buffer;
    match r
    case Accept(verf, accepted) =>
      WordFirst(b, size, pos, 0, AuthBytes(verf) + AcceptedBytes(proc, accepted));
      AlignedSum(4, Up4(|verf.body|));
      StandsSplit(b, size, pos + 4, AuthBytes(verf), AcceptedBytes(proc, accepted));
      AuthTrip(b, size, pos + 4, verf);
      AcceptedTrip(proc, b, size, pos + 4 + |AuthBytes(verf)|, accepted);
    case Deny(rejected) =>
      WordFirst(b, size, pos, 1, RejectedBytes(rejected));
      RejectedTrip(b, size, pos + 4, rejected);
  }

  lemma BodyTrip(proc: Proc, b: seq<byte>, size: nat, pos: nat, body: Body)
    requires ValidBody(proc, body) && Stands(b, size, pos, BodyBytes(proc, body))
    ensures Buffer(b, size) && DecBody(proc, b, size, pos) == Got(body, pos + |BodyBytes(proc, body)|)
  {
    hide Stands, WordBytes, DecWord, CallBytes, DecCall, ReplyBytes, DecReply, Buffer;
    match body
    case CallBody(call) =>
      WordFirst(b, size, pos, 0, CallBytes(call));
      CallTrip(b, size, pos + 4, call);
    case ReplyBody(reply) =>
      WordFirst(b, size, pos, 1, ReplyBytes(proc, reply));
      ReplyTrip(proc, b, size, pos + 4, reply);
  }

  /** Every call and every reply decodes to itself, whatever its credentials and status arms. */
  lemma MsgTrip(proc: Proc, b: seq<byte>, size: nat, pos: nat, m: Msg)
    requires ValidMsg(proc, m) && Stands(b, size, pos, MsgBytes(proc, m))
    ensures Buffer(b, size) && DecMsg(proc, b, size, pos) == Got(m, pos + |MsgBytes(proc, m)|)
  {
    hide Stands, WordBytes, DecWord, BodyBytes, DecBody, Buffer;
    WordFirst(b, size, pos, m.xid, BodyBytes(proc, m.body));
    BodyTrip(proc, b, size, pos + 4, m.body);
  }
}
