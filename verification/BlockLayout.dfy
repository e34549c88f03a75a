/** Blocks of the bitfield generator: where the fields of a block lie, and the
    words that the emitted constructor, readers and writers compute. */
module BlockLayout {
  import opened Bits

  /** `base`, `base_bits` and `base_sign_extend` of a specification. */
  datatype Base = Base(bits: nat, usable: nat, signExtend: bool)

  /** A declared field; padding has no name. */
  datatype Decl = Decl(named: bool, size: nat, high: bool)

  datatype Field = Field(offset: nat, size: nat, high: bool)

  predicate ValidBase(m: Base) {
    0 < m.usable <= m.bits
  }

  // ---- layout ----

  function Total(decls: seq<Decl>): nat {
    if decls == [] then 0 else decls[0].size + Total(decls[1..])
  }

  /** The fields take the bits from the top down, in the order of declaration. */
  function Laid(decls: seq<Decl>): seq<Field> {
    if decls == [] then [] else
      (if decls[0].named then [Field(Total(decls[1..]), decls[0].size, decls[0].high)] else []) + Laid(decls[1..])
  }

  predicate Below(f: Field, top: nat) {
    f.offset + f.size <= top
  }

  predicate Apart(f: Field, g: Field) {
    f.offset + f.size <= g.offset || g.offset + g.size <= f.offset
  }

  predicate AllApart(fields: seq<Field>) {
    forall i, j :: 0 <= i < j < |fields| ==> Apart(fields[i], fields[j])
  }

  /** Declared fields lie inside the block and never overlap. */
  lemma {:induction false} LaidApart(decls: seq<Decl>)
    ensures AllApart(Laid(decls)) && forall k :: 0 <= k < |Laid(decls)| ==> Below(Laid(decls)[k], Total(decls))
  {
    if decls != [] {
      LaidApart(decls[1..]);
      var rest := Laid(decls[1..]);
      forall i, j | 0 <= i < j < |Laid(decls)| ensures Apart(Laid(decls)[i], Laid(decls)[j]) {
        if decls[0].named {
          assert Laid(decls)[j] == rest[j - 1];
          assert i > 0 ==> Laid(decls)[i] == rest[i - 1];
        }
      }
      forall k | 0 <= k < |Laid(decls)| ensures Below(Laid(decls)[k], Total(decls)) {
        assert decls[0].named && k > 0 ==> Laid(decls)[k] == rest[k - 1];
      }
    }
  }

  /** The fields come from the top down: the first declared is the highest. */
  lemma {:induction false} LaidDown(decls: seq<Decl>, i: nat, j: nat)
    requires i < j < |Laid(decls)|
    ensures Laid(decls)[j].offset + Laid(decls)[j].size <= Laid(decls)[i].offset
  {
    var rest := Laid(decls[1..]);
    if decls[0].named {
      if i == 0 {
        LaidApart(decls[1..]);
        assert Below(rest[j - 1], Total(decls[1..]));
      } else {
        LaidDown(decls[1..], i - 1, j - 1);
      }
    } else {
      LaidDown(decls[1..], i, j);
    }
  }

  predicate AllNamed(decls: seq<Decl>) {
    forall k :: 0 <= k < |decls| ==> decls[k].named
  }

  /** Without padding they fill the block: each ends where the one before begins, the first at the top and
      the last at bit 0. */
  lemma {:induction false} LaidFull(decls: seq<Decl>, i: nat)
    requires AllNamed(decls) && i < |decls|
    ensures |Laid(decls)| == |decls|
    ensures var f := Laid(decls)[i];
      && f.size == decls[i].size && f.high == decls[i].high
      && f.offset + f.size == (if i == 0 then Total(decls) else Laid(decls)[i - 1].offset)
      && (i == |decls| - 1 ==> f.offset == 0)
  {
    var rest := decls[1..];
    if rest == [] {
      assert Laid(rest) == [];
    } else {
      LaidFull(rest, if i == 0 then 0 else i - 1);
      assert i > 1 ==> Laid(decls)[i - 1] == Laid(rest)[i - 2];
    }
  }

  lemma {:induction false} TotalSnoc(decls: seq<Decl>, k: nat)
    requires k < |decls|
    ensures Total(decls[k..]) == decls[k].size + Total(decls[k + 1..])
    ensures Laid(decls[k..]) ==
      (if decls[k].named then [Field(Total(decls[k + 1..]), decls[k].size, decls[k].high)] else []) +
      Laid(decls[k + 1..])
  {
    assert decls[k..][1..] == decls[k + 1..];
  }

  /** `Block.__init__`: sums the sizes, then hands out offsets from the top down. */
  method Layout(decls: seq<Decl>) returns (size: nat, fields: seq<Field>)
    ensures size == Total(decls) && fields == Laid(decls)
    ensures AllApart(fields) && forall k :: 0 <= k < |fields| ==> Below(fields[k], size)
  {
    hide AllApart, Below;
    size := 0;
    for k := 0 to |decls|
      invariant size + Total(decls[k..]) == Total(decls)
    {
      TotalSnoc(decls, k);
      size := size + decls[k].size;
    }
    var offset := size;
    fields := [];
    for k := 0 to |decls|
      invariant offset == Total(decls[k..]) && fields + Laid(decls[k..]) == Laid(decls)
    {
      TotalSnoc(decls, k);
      offset := offset - decls[k].size;
      if decls[k].named {
        ghost var before := fields;
        fields := fields + [Field(offset, decls[k].size, decls[k].high)];
        assert fields + Laid(decls[k + 1..]) == before + Laid(decls[k..]);
      }
    }
    LaidApart(decls);
  }

  /** The field does not cross a word boundary. */
  predicate InOneWord(m: Base, f: Field)
    requires m.bits > 0
  {
    f.offset / m.bits == (f.offset + f.size - 1) / m.bits
  }

  predicate Accepted(m: Base, size: nat, fields: seq<Field>)
    requires m.bits > 0
  {
    size % m.bits == 0 && forall k :: 0 <= k < |fields| ==> InOneWord(m, fields[k])
  }

  /** `Block.set_base`. */
  method SetBase(m: Base, size: nat, fields: seq<Field>) returns (ok: bool, multiple: nat)
    requires m.bits > 0
    ensures ok <==> Accepted(m, size, fields)
    ensures ok ==> multiple * m.bits == size
  {
    multiple := 0;
    if size % m.bits != 0 {
      return false, 0;
    }
    multiple := size / m.bits;
    for k := 0 to |fields|
      invariant forall j :: 0 <= j < k ==> InOneWord(m, fields[j])
    {
      if !InOneWord(m, fields[k]) {
        return false, multiple;
      }
    }
    ok := true;
  }

  function Index(m: Base, f: Field): nat
    requires m.bits > 0
  {
    f.offset / m.bits
  }

  function Place(m: Base, f: Field): nat
    requires m.bits > 0
  {
    f.offset % m.bits
  }

  predicate Sited(m: Base, f: Field)
    requires m.bits > 0
  {
    Place(m, f) + f.size <= m.bits && (f.size == 0 ==> Place(m, f) > 0)
  }

  lemma QuotientStep(x: int, d: nat)
    requires d > 0
    ensures x % d == 0 <==> x / d == (x - 1) / d + 1
    ensures x % d != 0 <==> x / d == (x - 1) / d
  {
    var q, r := x / d, x % d;
    assert x == q * d + r;
    if r == 0 {
      assert x - 1 == (q - 1) * d + (d - 1);
      QuotientIs(x - 1, q - 1, d - 1, d);
    } else {
      QuotientIs(x - 1, q, r - 1, d);
    }
  }

  lemma {:induction false} AtLeastOnce(k: nat, d: nat)
    requires k > 0
    ensures k * d >= d
  {
    if k > 1 {
      AtLeastOnce(k - 1, d);
      assert k * d == (k - 1) * d + d;
    }
  }

  lemma QuotientIs(x: int, q: int, r: nat, d: nat)
    requires d > 0 && r < d && x == q * d + r
    ensures x / d == q
  {
    var q' := x / d;
    assert x == q' * d + x % d;
    if q > q' {
      AtLeastOnce(q - q', d);
    } else if q < q' {
      AtLeastOnce(q' - q, d);
    }
  }

  /** A field accepted by `SetBase` lies inside one word. */
  lemma InsideWord(m: Base, f: Field)
    requires m.bits > 0 && InOneWord(m, f)
    ensures Sited(m, f)
  {
    if f.size == 0 {
      QuotientStep(f.offset, m.bits);
    } else {
      var last := f.offset + f.size - 1;
      assert last == (last / m.bits) * m.bits + last % m.bits;
      assert f.offset == (f.offset / m.bits) * m.bits + f.offset % m.bits;
    }
  }

  // ---- the emitted word expressions ----

  function Mask(m: Base, f: Field): Num
    requires m.bits > 0
  {
    Range(Place(m, f), Place(m, f) + f.size)
  }

  /** How far a reader shifts: left when positive, right when negative. */
  function Turn(m: Base, f: Field): int
    requires m.bits > 0
  {
    if f.high then m.usable - f.size - Place(m, f) else 0 - Place(m, f)
  }

  function HighBits(m: Base, f: Field): Num {
    if f.high && m.signExtend then Range(m.usable, m.bits) else {}
  }

  function Read(m: Base, f: Field, w: Num): Num
    requires ValidBase(m)
  {
    var ret := Move(m.bits, w * Mask(m, f), Turn(m, f));
    if f.high && m.signExtend && m.usable - 1 in ret then ret + HighBits(m, f) else ret
  }

  function Write(m: Base, f: Field, w: Num, v: Num): Num
    requires ValidBase(m)
  {
    w * Not(m.bits, Mask(m, f)) + Move(m.bits, v, -Turn(m, f)) * Mask(m, f)
  }

  /** The value bits that a field can store. */
  predicate Stored(m: Base, f: Field, b: nat) {
    if f.high then m.usable - f.size <= b < m.usable else b < f.size
  }

  /** The values a field can represent: low fields hold the low bits; high fields hold the top of
      the usable bits, with the bits above them clear or copies of the top usable bit. */
  predicate Fits(m: Base, f: Field, v: Num)
    requires ValidBase(m)
  {
    && IsWord(m.bits, v)
    && (forall b :: b in v ==> Stored(m, f, b) || (f.high && m.usable <= b))
    && (f.high ==> forall b :: m.usable <= b < m.bits ==> (b in v <==> m.signExtend && m.usable - 1 in v))
  }

  lemma ReadBit(m: Base, f: Field, w: Num, b: nat)
    requires ValidBase(m) && Sited(m, f)
    ensures b in Read(m, f, w) <==>
      if Stored(m, f, b) then b - Turn(m, f) in w
      else f.high && f.size > 0 && m.signExtend && m.usable <= b < m.bits && m.usable - 1 - Turn(m, f) in w
  {
  }

  lemma WriteBit(m: Base, f: Field, w: Num, v: Num, p: nat)
    requires ValidBase(m) && Sited(m, f) && IsWord(m.bits, w)
    ensures p in Write(m, f, w, v) <==>
      if Place(m, f) <= p < Place(m, f) + f.size then p + Turn(m, f) >= 0 && p + Turn(m, f) in v else p in w
  {
  }

  /** Reading back a written field gives the value exactly when the field can represent it. */
  lemma ReadAfterWrite(m: Base, f: Field, w: Num, v: Num)
    requires ValidBase(m) && Sited(m, f) && IsWord(m.bits, w) && IsWord(m.bits, v)
    ensures Read(m, f, Write(m, f, w, v)) == v <==> Fits(m, f, v)
  {
    hide Read, Write;
    var w' := Write(m, f, w, v);
    var r := Read(m, f, w');
    forall b: nat ensures b in r <==>
        if Stored(m, f, b) then b in v
        else f.high && f.size > 0 && m.signExtend && m.usable <= b < m.bits && m.usable - 1 in v
    {
      ReadBit(m, f, w', b);
      if Stored(m, f, b) {
        WriteBit(m, f, w, v, b - Turn(m, f));
      } else if f.high && f.size > 0 {
        WriteBit(m, f, w, v, m.usable - 1 - Turn(m, f));
      }
    }
    if Fits(m, f, v) {
      assert f.size == 0 && f.high ==> m.usable - 1 !in v;
      forall b: nat ensures b in r <==> b in v {
      }
    }
  }

  /** Writing one field leaves every other field of the word as it was. */
  lemma WriteElsewhere(m: Base, f: Field, g: Field, w: Num, v: Num)
    requires ValidBase(m) && Sited(m, f) && Sited(m, g) && IsWord(m.bits, w)
    requires Place(m, f) + f.size <= Place(m, g) || Place(m, g) + g.size <= Place(m, f)
    ensures Read(m, g, Write(m, f, w, v)) == Read(m, g, w)
  {
    hide Read, Write;
    var w' := Write(m, f, w, v);
    forall b: nat ensures b in Read(m, g, w') <==> b in Read(m, g, w) {
      ReadBit(m, g, w, b);
      ReadBit(m, g, w', b);
      if Stored(m, g, b) {
        WriteBit(m, f, w, v, b - Turn(m, g));
      } else if g.high && g.size > 0 {
        WriteBit(m, f, w, v, m.usable - 1 - Turn(m, g));
      }
    }
  }

  // ---- the emitted assertions ----

  /** The C type of a literal. */
  datatype Literal = Literal(width: nat, signed: bool)

  /** Where the mask of a field ends. */
  function Top(m: Base, f: Field): nat
    requires m.bits > 0
  {
    if f.size == 0 then 0 else Place(m, f) + f.size
  }

  /** The type of the mask in a writer's assertion. The writers of unions give it a suffix; without one
      a hexadecimal literal has the first of `int`, `unsigned`, `long long` and `unsigned long long`
      that holds it. */
  function MaskType(m: Base, f: Field, suffixed: bool): Literal
    requires m.bits > 0
  {
    if suffixed then Literal(if m.bits <= 32 then 32 else 64, false)
    else if Top(m, f) <= 32 then Literal(32, Top(m, f) < 32)
    else Literal(64, Top(m, f) < 64)
  }

  /** C defines the shift of the mask. */
  predicate Shifts(m: Base, f: Field, suffixed: bool)
    requires m.bits > 0
  {
    var w: int := MaskType(m, f, suffixed).width;
    -w < Turn(m, f) < w
  }

  /** A field of a word with a C type. */
  predicate Typed(m: Base, f: Field, suffixed: bool) {
    ValidBase(m) && m.bits <= 64 && Sited(m, f) && Shifts(m, f, suffixed)
  }

  /** The complement of the mask in its own type, shifted like a read and converted to the type of the
      word. A signed complement is negative: its right shift brings in ones, and its conversion copies
      the sign. */
  function Complement(m: Base, f: Field, suffixed: bool): Num
    requires Typed(m, f, suffixed)
  {
    var (w, k) := (MaskType(m, f, suffixed).width, Turn(m, f));
    var signed := MaskType(m, f, suffixed).signed;
    var moved := Move(w, Not(w, Mask(m, f)), k);
    var c := if signed && k < 0 then moved + Range(w + k, w) else moved;
    if signed && w - 1 in c then c + Range(w, m.bits) else c
  }

  predicate WriteAssert(m: Base, f: Field, v: Num, suffixed: bool)
    requires Typed(m, f, suffixed)
  {
    (Complement(m, f, suffixed) + HighBits(m, f)) * v ==
      if f.high && m.signExtend && m.usable - 1 in v then HighBits(m, f) else {}
  }

  /** The shifted complement is a negative number. */
  predicate Negative(m: Base, f: Field, suffixed: bool)
    requires Typed(m, f, suffixed)
  {
    var t := MaskType(m, f, suffixed);
    t.signed && (Turn(m, f) <= 0 || t.width - 1 - Turn(m, f) !in Mask(m, f))
  }

  /** The value bits that the writer drops but its assertion does not look at. */
  function Unseen(m: Base, f: Field, suffixed: bool): Num
    requires Typed(m, f, suffixed)
  {
    var (w, k) := (MaskType(m, f, suffixed).width, Turn(m, f));
    var beyond := if Negative(m, f, suffixed) then {} else Range(if k <= 0 then w + k else w, m.bits) - HighBits(m, f);
    if k <= 0 then beyond else Range(0, k) + (beyond - Range(m.usable - f.size, m.usable))
  }

  /** The value bits that the field stores but the assertion refuses. */
  function Barred(m: Base, f: Field, suffixed: bool): Num
    requires Typed(m, f, suffixed)
  {
    var w := MaskType(m, f, suffixed).width;
    if Turn(m, f) <= 0 || !Negative(m, f, suffixed) then {}
    else Range(w, m.usable) * Range(m.usable - f.size, m.usable)
  }

  lemma TurnInWord(m: Base, f: Field)
    requires ValidBase(m) && Sited(m, f)
    ensures -(m.bits as int) <= Turn(m, f) <= m.usable
    ensures Turn(m, f) > 0 ==> f.high && Turn(m, f) == m.usable - f.size - Place(m, f)
    ensures forall b: nat :: Stored(m, f, b) <==> Place(m, f) <= b - Turn(m, f) < Place(m, f) + f.size
  {
  }

  /** What the complement shows at bit `b`. */
  lemma ComplementHas(m: Base, f: Field, suffixed: bool, b: nat)
    requires Typed(m, f, suffixed) && b < m.bits
    ensures var (w, k) := (MaskType(m, f, suffixed).width, Turn(m, f));
      b in Complement(m, f, suffixed) <==>
        if (if k <= 0 then b - k < w else b < w) then b >= k && !Stored(m, f, b) else Negative(m, f, suffixed)
  {
    TurnInWord(m, f);
    var (w, k) := (MaskType(m, f, suffixed).width, Turn(m, f));
    MaskHas(m, f, b - k);
    MovedHas(w, Mask(m, f), k, b);
    MovedHas(w, Mask(m, f), k, w - 1);
    MaskHas(m, f, w - 1 - k);
    hide Mask, Turn, Place, Move, Not, Stored;
  }

  lemma MaskHas(m: Base, f: Field, p: int)
    requires m.bits > 0
    ensures p >= 0 ==> (p in Mask(m, f) <==> Place(m, f) <= p < Place(m, f) + f.size)
  {
  }

  lemma MovedHas(w: nat, x: Num, k: int, d: nat)
    ensures d in Move(w, Not(w, x), k) <==> d < w && 0 <= d - k < w && d - k !in x
  {
  }

  lemma ComplementBit(m: Base, f: Field, suffixed: bool, b: nat)
    requires Typed(m, f, suffixed) && b < m.bits
    ensures b in Complement(m, f, suffixed) + HighBits(m, f) <==>
      if Stored(m, f, b) then b in Barred(m, f, suffixed) else b !in Unseen(m, f, suffixed)
  {
    hide Complement, Negative;
    TurnInWord(m, f);
    ComplementHas(m, f, suffixed, b);
  }

  /** Values that pass and have no bit the assertion misses are the values that fit and are not barred. */
  lemma WriteAssertMeans(m: Base, f: Field, v: Num, suffixed: bool)
    requires Typed(m, f, suffixed) && IsWord(m.bits, v)
    ensures WriteAssert(m, f, v, suffixed) && v * Unseen(m, f, suffixed) == {} <==>
      Fits(m, f, v) && v * Barred(m, f, suffixed) == {}
  {
    hide Complement, Unseen, Barred;
    var c := Complement(m, f, suffixed) + HighBits(m, f);
    forall b: nat | b < m.bits
      ensures b in c <==> if Stored(m, f, b) then b in Barred(m, f, suffixed) else b !in Unseen(m, f, suffixed)
    {
      ComplementBit(m, f, suffixed, b);
    }
    UnseenNotStored(m, f, suffixed);
    if WriteAssert(m, f, v, suffixed) && v * Unseen(m, f, suffixed) == {} {
      forall b | b in v ensures Stored(m, f, b) || (f.high && m.usable <= b) {
        assert b !in v * Unseen(m, f, suffixed);
        assert b in c ==> b in c * v;
      }
      forall b: nat | f.high && m.usable <= b < m.bits ensures b in v <==> m.signExtend && m.usable - 1 in v {
        assert b !in v * Unseen(m, f, suffixed);
        assert b in c * v <==> b in c && b in v;
      }
      forall b: nat ensures b !in v * Barred(m, f, suffixed) {
        assert b in c && b in v ==> b in c * v;
      }
    }
    if Fits(m, f, v) && v * Barred(m, f, suffixed) == {} {
      FitsPasses(m, f, v, suffixed);
    }
  }

  lemma FitsPasses(m: Base, f: Field, v: Num, suffixed: bool)
    requires Typed(m, f, suffixed) && Fits(m, f, v) && v * Barred(m, f, suffixed) == {}
    ensures WriteAssert(m, f, v, suffixed) && v * Unseen(m, f, suffixed) == {}
  {
    hide Complement, Unseen, Barred;
    var c := Complement(m, f, suffixed) + HighBits(m, f);
    UnseenNotStored(m, f, suffixed);
    forall b: nat
      ensures b in c * v <==> b in v && b in HighBits(m, f)
      ensures b !in v * Unseen(m, f, suffixed)
    {
      assert b !in v * Barred(m, f, suffixed);
      if b < m.bits {
        ComplementBit(m, f, suffixed, b);
      }
    }
  }

  lemma UnseenNotStored(m: Base, f: Field, suffixed: bool)
    requires Typed(m, f, suffixed)
    ensures forall b :: b in Unseen(m, f, suffixed) ==>
      !Stored(m, f, b) && b < m.bits && (f.high ==> b != m.usable - 1) && b !in HighBits(m, f)
    ensures forall b :: b in Barred(m, f, suffixed) ==> Stored(m, f, b) && b < m.usable
  {
    TurnInWord(m, f);
  }

  /** A writer reads back every value its assertion lets through exactly when it has no unseen bits. */
  lemma WriteAssertExact(m: Base, f: Field, w: Num, suffixed: bool)
    requires Typed(m, f, suffixed) && IsWord(m.bits, w)
    ensures Unseen(m, f, suffixed) == {} <==>
      forall v :: IsWord(m.bits, v) && WriteAssert(m, f, v, suffixed) ==> Read(m, f, Write(m, f, w, v)) == v
  {
    hide Unseen, Barred, WriteAssert, Read, Write, Fits;
    if Unseen(m, f, suffixed) == {} {
      forall v | IsWord(m.bits, v) && WriteAssert(m, f, v, suffixed) ensures Read(m, f, Write(m, f, w, v)) == v {
        assert v * Unseen(m, f, suffixed) == {};
        WriteAssertMeans(m, f, v, suffixed);
        ReadAfterWrite(m, f, w, v);
      }
    } else {
      var b :| b in Unseen(m, f, suffixed);
      UnseenPasses(m, f, suffixed, b);
      assert b in {b} * Unseen(m, f, suffixed);
      NotFitting(m, f, b, suffixed);
      ReadAfterWrite(m, f, w, {b});
    }
  }

  lemma UnseenPasses(m: Base, f: Field, suffixed: bool, b: nat)
    requires Typed(m, f, suffixed) && b in Unseen(m, f, suffixed)
    ensures IsWord(m.bits, {b}) && WriteAssert(m, f, {b}, suffixed)
  {
    hide Complement, Unseen, Barred;
    UnseenNotStored(m, f, suffixed);
    ComplementBit(m, f, suffixed, b);
  }

  lemma NotFitting(m: Base, f: Field, b: nat, suffixed: bool)
    requires Typed(m, f, suffixed) && b in Unseen(m, f, suffixed)
    ensures !Fits(m, f, {b})
  {
    hide Unseen, Barred;
    UnseenNotStored(m, f, suffixed);
  }

  /** The assertion lets every value through that the field can represent exactly when none is barred. */
  lemma WriteAssertComplete(m: Base, f: Field, suffixed: bool)
    requires Typed(m, f, suffixed)
    ensures (forall v :: IsWord(m.bits, v) && Fits(m, f, v) ==> WriteAssert(m, f, v, suffixed)) <==>
      Barred(m, f, suffixed) == {}
  {
    hide Unseen, Barred, WriteAssert, Fits;
    if Barred(m, f, suffixed) == {} {
      forall v | IsWord(m.bits, v) && Fits(m, f, v) ensures WriteAssert(m, f, v, suffixed) {
        assert v * Barred(m, f, suffixed) == {};
        WriteAssertMeans(m, f, v, suffixed);
      }
    } else {
      var b :| b in Barred(m, f, suffixed);
      var v := BarredValue(m, f, suffixed, b);
    }
  }

  lemma BarredValue(m: Base, f: Field, suffixed: bool, b: nat) returns (v: Num)
    requires Typed(m, f, suffixed) && b in Barred(m, f, suffixed)
    ensures IsWord(m.bits, v) && Fits(m, f, v) && !WriteAssert(m, f, v, suffixed)
    ensures b != m.usable - 1 ==> v == {b}
  {
    v := if b == m.usable - 1 then {b} + HighBits(m, f) else {b};
    var c := Complement(m, f, suffixed) + HighBits(m, f);
    ComplementBit(m, f, suffixed, b);
    UnseenNotStored(m, f, suffixed);
    hide Complement, Unseen, Barred;
    assert b in c * v;
  }

  /** Bits 4-7 of a 32-bit union word: the suffixed assertion accepts 2^28, which reads back as 0. */
  lemma TopBitDropped()
    ensures var m, f := Base(32, 32, false), Field(4, 4, false);
      Typed(m, f, true) && WriteAssert(m, f, {28}, true) && Read(m, f, Write(m, f, {}, {28})) == {}
  {
    Dropped(Base(32, 32, false), Field(4, 4, false), true, 28);
  }

  /** Bits 20-31 of a 64-bit block: the mask is an `unsigned`, and the assertion accepts 2^40. */
  lemma HalfWordUnseen()
    ensures var m, f := Base(64, 64, false), Field(20, 12, false);
      Typed(m, f, false) && WriteAssert(m, f, {40}, false) && Read(m, f, Write(m, f, {}, {40})) == {}
  {
    Dropped(Base(64, 64, false), Field(20, 12, false), false, 40);
  }

  lemma Dropped(m: Base, f: Field, suffixed: bool, b: nat)
    requires Typed(m, f, suffixed) && !f.high && b in Unseen(m, f, suffixed)
    ensures WriteAssert(m, f, {b}, suffixed) && Read(m, f, Write(m, f, {}, {b})) == {}
  {
    hide Read, Write, Unseen, WriteAssert;
    UnseenPasses(m, f, suffixed, b);
    UnseenNotStored(m, f, suffixed);
    forall d: nat ensures d !in Read(m, f, Write(m, f, {}, {b})) {
      ReadBit(m, f, Write(m, f, {}, {b}), d);
      if Stored(m, f, d) {
        WriteBit(m, f, {}, {b}, d - Turn(m, f));
      }
    }
  }

  /** A high field at bits 10-19 of a 64-bit block with 48 usable bits: the mask is an `int`, its shifted
      complement is negative, and the assertion refuses 2^40, which the field stores. */
  lemma HighFieldBarred()
    ensures var m, f := Base(64, 48, true), Field(10, 10, true);
      Typed(m, f, false) && Fits(m, f, {40}) && !WriteAssert(m, f, {40}, false)
  {
    var m, f := Base(64, 48, true), Field(10, 10, true);
    assert 40 in Barred(m, f, false);
    var v := BarredValue(m, f, false, 40);
  }

  // ---- the emitted constructor ----

  /** Python refuses the negative shift of the remaining case. */
  predicate Generable(m: Base, f: Field) {
    f.high && f.size < m.bits ==> f.size <= m.usable
  }

  function ValueMask(m: Base, f: Field): Num
    requires Generable(m, f) && f.size < m.bits
  {
    if f.high then Up(Range(0, f.size), m.usable - f.size) else Range(0, f.size)
  }

  predicate NewAssert(m: Base, f: Field, v: Num)
    requires ValidBase(m) && Generable(m, f)
  {
    f.size < m.bits ==>
      v * Not(m.bits, ValueMask(m, f)) == if m.signExtend && m.usable - 1 in v then HighBits(m, f) else {}
  }

  function NewBits(m: Base, f: Field, v: Num): Num
    requires ValidBase(m) && Generable(m, f)
  {
    Move(m.bits, if f.size < m.bits then v * ValueMask(m, f) else v, -Turn(m, f))
  }

  /** Where a constructor has an assertion, it accepts exactly the values that fit. */
  lemma NewAssertExact(m: Base, f: Field, v: Num)
    requires ValidBase(m) && Sited(m, f) && Generable(m, f) && IsWord(m.bits, v) && f.size < m.bits
    ensures NewAssert(m, f, v) <==> Fits(m, f, v)
  {
    var c := Not(m.bits, ValueMask(m, f));
    forall b: nat | b < m.bits ensures b in c <==> !Stored(m, f, b) {
    }
    forall b: nat ensures b in v * c <==> b in v && !Stored(m, f, b) {
    }
    if NewAssert(m, f, v) {
      forall b | b in v ensures Stored(m, f, b) || (f.high && m.usable <= b) {
        assert !Stored(m, f, b) ==> b in v * c;
      }
      forall b: nat | f.high && m.usable <= b < m.bits ensures b in v <==> m.signExtend && m.usable - 1 in v {
        assert b in v ==> b in v * c;
      }
    }
  }

  /** No assertion is emitted for a field that takes a whole word, and a high one does not hold it all. */
  predicate Unasserted(m: Base, f: Field) {
    f.high && f.size == m.bits && m.usable < m.bits
  }

  /** Everything that a constructor lets through fits exactly when the field is no such field. */
  lemma NewAssertMeets(m: Base, f: Field)
    requires ValidBase(m) && Sited(m, f) && Generable(m, f)
    ensures (forall v :: IsWord(m.bits, v) && NewAssert(m, f, v) ==> Fits(m, f, v)) <==> !Unasserted(m, f)
  {
    hide NewAssert, Fits;
    if Unasserted(m, f) {
      WholeWord(m, f);
    } else {
      forall v | IsWord(m.bits, v) && NewAssert(m, f, v) ensures Fits(m, f, v) {
        if f.size < m.bits {
          NewAssertExact(m, f, v);
        } else {
          WholeFits(m, f, v);
        }
      }
    }
  }

  lemma WholeWord(m: Base, f: Field)
    requires ValidBase(m) && Generable(m, f) && Unasserted(m, f)
    ensures var v := {m.bits - 1}; IsWord(m.bits, v) && NewAssert(m, f, v) && !Fits(m, f, v)
  {
    var v := {m.bits - 1};
    assert m.bits - 1 in v && m.usable - 1 !in v;
  }

  lemma WholeFits(m: Base, f: Field, v: Num)
    requires ValidBase(m) && Sited(m, f) && IsWord(m.bits, v) && f.size == m.bits && !Unasserted(m, f)
    ensures Fits(m, f, v)
  {
  }

  lemma NewBit(m: Base, f: Field, v: Num, p: nat)
    requires ValidBase(m) && Sited(m, f) && Generable(m, f) && IsWord(m.bits, v)
    ensures p in NewBits(m, f, v) <==>
      Place(m, f) <= p < Place(m, f) + f.size && p + Turn(m, f) >= 0 && p + Turn(m, f) in v
  {
  }
}
