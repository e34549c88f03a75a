/** Optional-data chains and unions over the ZDR cursor: the MOUNT protocol's
    group and export lists and its mount reply. */
module MountCodec {
  import opened Prelude
  import opened Bytes
  import opened ZdrSpec
  import opened ZdrStream

  datatype Export = Export(dir: seq<byte>, groups: seq<seq<byte>>)

  datatype MountRes = MountOk(handle: seq<byte>, flavors: seq<nat>) | MountError(status: nat)

  predicate ShortNames(g: seq<seq<byte>>) {
    forall i :: 0 <= i < |g| ==> |g[i]| < WORD
  }

  predicate ShortExports(x: seq<Export>) {
    forall i :: 0 <= i < |x| ==> |x[i].dir| < WORD && ShortNames(x[i].groups)
  }

  predicate ValidRes(r: MountRes) {
    match r
    case MountOk(handle, flavors) => |handle| < WORD && |flavors| < WORD && AllWords(flavors)
    case MountError(status) => 0 < status < WORD
  }

  // ---- encodings ----

  function Groups(g: seq<seq<byte>>): seq<byte>
    requires ShortNames(g)
  {
    if g == [] then WordBytes(0) else WordBytes(1) + (Var(g[0]) + Groups(g[1..]))
  }

  function Exports(x: seq<Export>): seq<byte>
    requires ShortExports(x)
  {
    if x == [] then WordBytes(0) else WordBytes(1) + (Var(x[0].dir) + (Groups(x[0].groups) + Exports(x[1..])))
  }

  function Mount(r: MountRes): seq<byte>
    requires ValidRes(r)
  {
    match r
    case MountOk(handle, flavors) => WordBytes(0) + (Var(handle) + Array(flavors))
    case MountError(status) => WordBytes(status)
  }

  // ---- decoding ----

  /** What is left of the buffer. */
  function Left(size: nat, pos: nat): nat {
    if pos < size then size - pos else 0
  }

  function DecGroups(b: seq<byte>, size: nat, pos: nat): (r: Parsed<seq<seq<byte>>>)
    requires Buffer(b, size)
    ensures r.Got? ==> pos + 4 <= r.next && ShortNames(r.value)
    decreases Left(size, pos)
  {
    match DecWord(b, size, pos)
    case Got(more, at) =>
      if more == 0 then Got([], at) else
        (match DecBytes(b, size, at)
         case Got(name, next) =>
           (match DecGroups(b, size, next)
            case Got(rest, end) => Got([name] + rest, end)
            case Fail => Fail
            case Wild => Wild)
         case Fail => Fail
         case Wild => Wild)
    case _ => Fail
  }

  function DecExports(b: seq<byte>, size: nat, pos: nat): (r: Parsed<seq<Export>>)
    requires Buffer(b, size)
    ensures r.Got? ==> pos + 4 <= r.next && ShortExports(r.value)
    decreases Left(size, pos)
  {
    match DecWord(b, size, pos)
    case Got(more, at) =>
      if more == 0 then Got([], at) else
        (match DecBytes(b, size, at)
         case Got(dir, next) =>
           (match DecGroups(b, size, next)
            case Got(groups, after) =>
              (match DecExports(b, size, after)
               case Got(rest, end) => Got([Export(dir, groups)] + rest, end)
               case Fail => Fail
               case Wild => Wild)
            case Fail => Fail
            case Wild => Wild)
         case Fail => Fail
         case Wild => Wild)
    case _ => Fail
  }

  function DecMount(b: seq<byte>, size: nat, pos: nat): (r: Parsed<MountRes>)
    requires Buffer(b, size)
  {
    match DecWord(b, size, pos)
    case Got(status, at) =>
      if status != 0 then Got(MountError(status), at) else
        (match DecBytes(b, size, at)
         case Got(handle, next) =>
           (match DecArray(b, size, next)
            case Got(flavors, end) => Got(MountOk(handle, flavors), end)
            case Fail => Fail
            case Wild => Wild)
         case Fail => Fail
         case Wild => Wild)
    case _ => Fail
  }

  // ---- round trips ----

  lemma {:induction false} GroupsAligned(g: seq<seq<byte>>)
    requires ShortNames(g)
    ensures |Groups(g)| % 4 == 0
  {
    hide WordBytes, Up4;
    if g != [] {
      GroupsAligned(g[1..]);
      var n, k := |Groups(g[1..])|, Up4(|g[0]|);
      assert |Groups(g)| == 4 + (4 + k + n);
      AlignedSum(k, n);
    }
  }

  lemma AlignedSum(a: nat, b: nat)
    requires a % 4 == 0 && b % 4 == 0
    ensures (a + b) % 4 == 0 && (a + b + 4) % 4 == 0 && (4 + (4 + a + b)) % 4 == 0
  {
  }

  lemma {:induction false} GroupsTrip(b: seq<byte>, size: nat, pos: nat, g: seq<seq<byte>>)
    requires Buffer(b, size) && pos % 4 == 0 && ShortNames(g) && At(b, pos, Groups(g)) && pos + |Groups(g)| <= size
    ensures DecGroups(b, size, pos) == Got(g, pos + |Groups(g)|)
    decreases |g|
  {
    hide WordBytes, Var, DecWord, DecBytes, At, Up4, Buffer;
    if g == [] {
      WordTrip(b, size, pos, 0);
    } else {
      AtSplit(b, pos, WordBytes(1), Var(g[0]) + Groups(g[1..]));
      AtSplit(b, pos + 4, Var(g[0]), Groups(g[1..]));
      WordTrip(b, size, pos, 1);
      BytesTrip(b, size, pos + 4, g[0]);
      AlignedSum(pos, Up4(|g[0]|));
      AlignedSum(pos + Up4(|g[0]|), 4);
      GroupsTrip(b, size, pos + 4 + |Var(g[0])|, g[1..]);
      assert [g[0]] + g[1..] == g;
    }
  }

  /** The parts of a non-empty export list, in their places. */
  lemma ExportParts(b: seq<byte>, size: nat, pos: nat, x: seq<Export>)
    requires Buffer(b, size) && pos % 4 == 0 && ShortExports(x) && x != []
    requires At(b, pos, Exports(x)) && pos + |Exports(x)| <= size
    ensures var at := pos + 4 + |Var(x[0].dir)|;
      var after := at + |Groups(x[0].groups)|;
      && at % 4 == 0 && after % 4 == 0 && pos + |Exports(x)| == after + |Exports(x[1..])|
      && At(b, after, Exports(x[1..]))
      && DecWord(b, size, pos) == Got(1, pos + 4)
      && DecBytes(b, size, pos + 4) == Got(x[0].dir, at)
      && DecGroups(b, size, at) == Got(x[0].groups, after)
  {
    hide WordBytes, Var, DecWord, DecBytes, At, Groups, DecGroups, Up4, Buffer;
    var dir, groups, rest := Var(x[0].dir), Groups(x[0].groups), Exports(x[1..]);
    var at := pos + 4 + |dir|;
    AtSplit(b, pos, WordBytes(1), dir + (groups + rest));
    AtSplit(b, pos + 4, dir, groups + rest);
    AtSplit(b, at, groups, rest);
    WordTrip(b, size, pos, 1);
    BytesTrip(b, size, pos + 4, x[0].dir);
    assert at % 4 == 0;
    GroupsTrip(b, size, at, x[0].groups);
    GroupsAligned(x[0].groups);
    AlignedSum(at, |groups|);
  }

  /** An export list with its nested group lists decodes to itself. */
  lemma {:induction false} ExportsTrip(b: seq<byte>, size: nat, pos: nat, x: seq<Export>)
    requires Buffer(b, size) && pos % 4 == 0 && ShortExports(x) && At(b, pos, Exports(x)) && pos + |Exports(x)| <= size
    ensures DecExports(b, size, pos) == Got(x, pos + |Exports(x)|)
    decreases |x|
  {
    hide WordBytes, Var, DecWord, DecBytes, At, Groups, DecGroups, Up4, Buffer;
    if x == [] {
      WordTrip(b, size, pos, 0);
    } else {
      ExportParts(b, size, pos, x);
      hide Exports;
      ExportsTrip(b, size, pos + 4 + |Var(x[0].dir)| + |Groups(x[0].groups)|, x[1..]);
      assert [Export(x[0].dir, x[0].groups)] + x[1..] == x;
    }
  }

  lemma MountTrip(b: seq<byte>, size: nat, pos: nat, r: MountRes)
    requires Buffer(b, size) && pos % 4 == 0 && ValidRes(r) && At(b, pos, Mount(r)) && pos + |Mount(r)| <= size
    ensures DecMount(b, size, pos) == Got(r, pos + |Mount(r)|)
  {
    hide WordBytes, Var, DecWord, DecBytes, At, Array, DecArray, Up4, Buffer;
    match r
    case MountError(status) => WordTrip(b, size, pos, status);
    case MountOk(handle, flavors) =>
      AtSplit(b, pos, WordBytes(0), Var(handle) + Array(flavors));
      AtSplit(b, pos + 4, Var(handle), Array(flavors));
      WordTrip(b, size, pos, 0);
      BytesTrip(b, size, pos + 4, handle);
      ArrayTrip(b, size, pos + 4 + |Var(handle)|, flavors);
  }

  // ---- the routines ----

  /** `zdr_groups` and `zdr_groupnode`. */
  method ZdrGroups(z: Zdr, g: seq<seq<byte>>) returns (st: Status, v: seq<seq<byte>>)
    requires z.Valid() && ShortNames(g)
    modifies z`pos, z.buf
    ensures z.Valid() && ShortNames(v) && (st.Done? ==> z.pos > old(z.pos))
    ensures z.op.Encode? ==> v == g && Encoded(old(z.buf[..]), z.buf[..], old(z.pos), z.pos, z.size, Groups(g), st)
    ensures z.op.Decode? ==>
      z.buf[..] == old(z.buf[..]) && Decoded(DecGroups(z.buf[..], z.size, old(z.pos)), v, z.pos, st)
    decreases Left(z.size, z.pos)
  {
    hide WordBytes, Var, DecWord, DecBytes, Encoded, Up4;
    v := g;
    var more;
    st, more := z.UInt(if g == [] then 0 else 1);
    ghost var b, p, first := z.buf[..], z.pos, st;
    if st.Done? && more == 0 {
      v := [];
      return;
    }
    if st.Done? {
      var name, rest := [], [];
      if z.op.Encode? {
        name, rest := g[0], g[1..];
      }
      st, name := z.Str(name);
      ghost var b', p', second := z.buf[..], z.pos, st;
      if st.Done? {
        st, rest := ZdrGroups(z, rest);
      }
      if z.op.Decode? {
        v := [name] + rest;
      } else {
        EncodedSeq(b, b', z.buf[..], p, p', z.pos, z.size, Var(g[0]), Groups(g[1..]), second, st);
      }
    }
    if z.op.Encode? && g != [] {
      EncodedSeq(old(z.buf[..]), b, z.buf[..], old(z.pos), p, z.pos, z.size, WordBytes(1), Var(g[0]) + Groups(g[1..]),
                 first, st);
    }
  }

  /** One export: its directory and its groups. */
  method ZdrExport(z: Zdr, dir: seq<byte>, groups: seq<seq<byte>>) returns (st: Status, d: seq<byte>, g: seq<seq<byte>>)
    requires z.Valid() && |dir| < WORD && ShortNames(groups)
    modifies z`pos, z.buf
    ensures z.Valid() && |d| < WORD && ShortNames(g) && (st.Done? ==> z.pos > old(z.pos))
    ensures z.op.Encode? ==> d == dir && g == groups
    ensures z.op.Encode? ==>
      Encoded(old(z.buf[..]), z.buf[..], old(z.pos), z.pos, z.size, Var(dir) + Groups(groups), st)
    ensures z.op.Decode? ==> z.buf[..] == old(z.buf[..])
    ensures z.op.Decode? ==> var r := DecBytes(z.buf[..], z.size, old(z.pos));
      if r.Got? then Decoded(DecGroups(z.buf[..], z.size, r.next), g, z.pos, st) && (st.Done? ==> d == r.value)
      else st == StatusOf(r)
  {
    hide Var, Groups, DecBytes, DecGroups, Encoded, Up4;
    g := groups;
    st, d := z.Str(dir);
    ghost var b, p, first := z.buf[..], z.pos, st;
    if st.Done? {
      st, g := ZdrGroups(z, groups);
    }
    if z.op.Encode? {
      EncodedSeq(old(z.buf[..]), b, z.buf[..], old(z.pos), p, z.pos, z.size, Var(dir), Groups(groups), first, st);
    }
  }

  /** `zdr_exports` and `zdr_exportnode`. */
  method ZdrExports(z: Zdr, x: seq<Export>) returns (st: Status, v: seq<Export>)
    requires z.Valid() && ShortExports(x)
    modifies z`pos, z.buf
    ensures z.Valid() && (st.Done? ==> z.pos > old(z.pos))
    ensures z.op.Encode? ==> v == x && Encoded(old(z.buf[..]), z.buf[..], old(z.pos), z.pos, z.size, Exports(x), st)
    ensures z.op.Decode? ==>
      z.buf[..] == old(z.buf[..]) && Decoded(DecExports(z.buf[..], z.size, old(z.pos)), v, z.pos, st)
    decreases Left(z.size, z.pos)
  {
    hide WordBytes, Var, Groups, DecWord, DecBytes, DecGroups, Encoded, Up4;
    v := x;
    var more;
    st, more := z.UInt(if x == [] then 0 else 1);
    ghost var b, p, first := z.buf[..], z.pos, st;
    if st.Done? && more == 0 {
      v := [];
      return;
    }
    if st.Done? {
      var dir, groups, rest := [], [], [];
      if z.op.Encode? {
        dir, groups, rest := x[0].dir, x[0].groups, x[1..];
      }
      st, dir, groups := ZdrExport(z, dir, groups);
      ghost var b', p', second := z.buf[..], z.pos, st;
      if st.Done? {
        st, rest := ZdrExports(z, rest);
      }
      if z.op.Decode? {
        v := [Export(dir, groups)] + rest;
      } else {
        EncodedSeq(b, b', z.buf[..], p, p', z.pos, z.size, Var(x[0].dir) + Groups(x[0].groups), Exports(x[1..]), second,
                   st);
      }
    }
    if z.op.Encode? && x != [] {
      ExportsRegroup(x);
      EncodedSeq(old(z.buf[..]), b, z.buf[..], old(z.pos), p, z.pos, z.size, WordBytes(1),
                 Var(x[0].dir) + Groups(x[0].groups) + Exports(x[1..]), first, st);
    }
  }

  lemma ExportsRegroup(x: seq<Export>)
    requires ShortExports(x) && x != []
    ensures Exports(x) == WordBytes(1) + (Var(x[0].dir) + Groups(x[0].groups) + Exports(x[1..]))
  {
    hide WordBytes, Var, Groups;
  }

  /** `zdr_mountres3`. */
  method ZdrMount(z: Zdr, r: MountRes) returns (st: Status, v: MountRes)
    requires z.Valid() && ValidRes(r)
    modifies z`pos, z.buf
    ensures z.Valid()
    ensures z.op.Encode? ==> v == r && Encoded(old(z.buf[..]), z.buf[..], old(z.pos), z.pos, z.size, Mount(r), st)
    ensures z.op.Decode? ==>
      z.buf[..] == old(z.buf[..]) && Decoded(DecMount(z.buf[..], z.size, old(z.pos)), v, z.pos, st)
  {
    hide WordBytes, Var, Array, DecWord, DecBytes, DecArray, Encoded, Up4;
    v := r;
    var status;
    st, status := z.UInt(if r.MountOk? then 0 else r.status);
    ghost var b, p, first := z.buf[..], z.pos, st;
    if st.Done? && status != 0 {
      v := MountError(status);
      return;
    }
    if st.Done? {
      var handle, flavors := [], [];
      if z.op.Encode? {
        handle, flavors := r.handle, r.flavors;
      }
      st, handle := z.VarBytes(handle);
      ghost var b', p', second := z.buf[..], z.pos, st;
      if st.Done? {
        st, flavors := z.IntArray(flavors);
      }
      if z.op.Decode? {
        v := MountOk(handle, flavors);
      } else {
        EncodedSeq(b, b', z.buf[..], p, p', z.pos, z.size, Var(r.handle), Array(r.flavors), second, st);
      }
    }
    if z.op.Encode? && r.MountOk? {
      EncodedSeq(old(z.buf[..]), b, z.buf[..], old(z.pos), p, z.pos, z.size, WordBytes(0),
                 Var(r.handle) + Array(r.flavors), first, st);
    }
  }
}
