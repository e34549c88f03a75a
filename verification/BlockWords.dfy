/** Whole blocks: arrays of words under the emitted constructor, readers and writers. */
module BlockWords {
  import opened Bits
  import opened BlockLayout

  /** A layout the generator has accepted. */
  predicate Ready(m: Base, size: nat, fields: seq<Field>) {
    && ValidBase(m)
    && Accepted(m, size, fields)
    && AllApart(fields)
    && forall k :: 0 <= k < |fields| ==> Below(fields[k], size) && Generable(m, fields[k])
  }

  predicate Words(m: Base, size: nat, words: seq<Num>)
    requires m.bits > 0
  {
    |words| == size / m.bits && forall i :: 0 <= i < |words| ==> IsWord(m.bits, words[i])
  }

  lemma Divided(x: nat, d: nat)
    requires d > 0
    ensures x == (x / d) * d + x % d
  {
  }

  lemma Ordered(a: nat, b: nat, d: nat)
    requires d > 0 && a * d < b * d
    ensures a < b
  {
  }

  /** Every field of an accepted block has its word. */
  lemma Within(m: Base, size: nat, f: Field)
    requires m.bits > 0 && size % m.bits == 0 && InOneWord(m, f) && Below(f, size)
    ensures Sited(m, f) && Index(m, f) < size / m.bits
  {
    InsideWord(m, f);
    Divided(f.offset, m.bits);
    Divided(size, m.bits);
    Ordered(Index(m, f), size / m.bits, m.bits);
  }

  /** Fields that do not overlap in the block do not overlap in a word they share. */
  lemma SharedWord(m: Base, f: Field, g: Field)
    requires m.bits > 0 && Apart(f, g) && Index(m, f) == Index(m, g)
    ensures Place(m, f) + f.size <= Place(m, g) || Place(m, g) + g.size <= Place(m, f)
  {
    Divided(f.offset, m.bits);
    Divided(g.offset, m.bits);
  }

  function Get(m: Base, f: Field, words: seq<Num>): Num
    requires ValidBase(m) && Index(m, f) < |words|
  {
    Read(m, f, words[Index(m, f)])
  }

  function Set(m: Base, f: Field, words: seq<Num>, v: Num): (r: seq<Num>)
    requires ValidBase(m) && Index(m, f) < |words|
    ensures |r| == |words|
  {
    words[Index(m, f) := Write(m, f, words[Index(m, f)], v)]
  }

  /** The pointer writer. */
  method PtrSet(m: Base, f: Field, words: array<Num>, v: Num)
    requires ValidBase(m) && Index(m, f) < words.Length
    modifies words
    ensures words[..] == Set(m, f, old(words[..]), v)
  {
    var i := f.offset / m.bits;
    words[i] := words[i] * Not(m.bits, Mask(m, f));
    words[i] := words[i] + Move(m.bits, v, -Turn(m, f)) * Mask(m, f);
  }

  lemma SetWords(m: Base, size: nat, f: Field, words: seq<Num>, v: Num)
    requires ValidBase(m) && Words(m, size, words) && Index(m, f) < |words| && Sited(m, f)
    ensures Words(m, size, Set(m, f, words, v))
  {
  }

  /** get-after-set. */
  lemma GetAfterSet(m: Base, size: nat, fields: seq<Field>, k: nat, words: seq<Num>, v: Num)
    requires Ready(m, size, fields) && k < |fields| && Words(m, size, words) && IsWord(m.bits, v)
    ensures Index(m, fields[k]) < |words|
    ensures Get(m, fields[k], Set(m, fields[k], words, v)) == v <==> Fits(m, fields[k], v)
  {
    hide Read, Write, Fits;
    Within(m, size, fields[k]);
    ReadAfterWrite(m, fields[k], words[Index(m, fields[k])], v);
  }

  /** A set changes no other field, whatever value it is given. */
  lemma SetKeepsOthers(m: Base, size: nat, fields: seq<Field>, k: nat, j: nat, words: seq<Num>, v: Num)
    requires Ready(m, size, fields) && k < |fields| && j < |fields| && j != k && Words(m, size, words)
    ensures Index(m, fields[k]) < |words| && Index(m, fields[j]) < |words|
    ensures Get(m, fields[j], Set(m, fields[k], words, v)) == Get(m, fields[j], words)
  {
    hide Read, Write;
    var f, g := fields[k], fields[j];
    Within(m, size, f);
    Within(m, size, g);
    assert Apart(f, g) by {
      assert Apart(fields[if k < j then k else j], fields[if k < j then j else k]);
    }
    if Index(m, f) == Index(m, g) {
      SharedWord(m, f, g);
      WriteElsewhere(m, f, g, words[Index(m, f)], v);
    }
  }

  /** One store into field `field`. */
  datatype Store = Store(field: nat, value: Num)

  predicate Stores(m: Base, fields: seq<Field>, ops: seq<Store>)
    requires ValidBase(m)
  {
    forall i :: 0 <= i < |ops| ==> ops[i].field < |fields| && Fits(m, fields[ops[i].field], ops[i].value)
  }

  /** The block after a run of sets. */
  function SetAll(m: Base, size: nat, fields: seq<Field>, words: seq<Num>, ops: seq<Store>): (r: seq<Num>)
    requires Ready(m, size, fields) && Words(m, size, words) && Stores(m, fields, ops)
    ensures Words(m, size, r)
    decreases |ops|
  {
    if ops == [] then words else
      var last := ops[|ops| - 1];
      var before := SetAll(m, size, fields, words, ops[..|ops| - 1]);
      Within(m, size, fields[last.field]);
      SetWords(m, size, fields[last.field], before, last.value);
      Set(m, fields[last.field], before, last.value)
  }

  /** The last value stored into field `j`, or what the block held. */
  function LastStored(ops: seq<Store>, j: nat, initial: Num): Num {
    if ops == [] then initial
    else if ops[|ops| - 1].field == j then ops[|ops| - 1].value
    else LastStored(ops[..|ops| - 1], j, initial)
  }

  /** After any run of sets every field reads as the last value stored into it. */
  lemma {:induction false} GetAfterRun(m: Base, size: nat, fields: seq<Field>, words: seq<Num>, ops: seq<Store>, j: nat)
    requires Ready(m, size, fields) && Words(m, size, words) && Stores(m, fields, ops) && j < |fields|
    ensures Index(m, fields[j]) < |words|
    ensures Get(m, fields[j], SetAll(m, size, fields, words, ops)) == LastStored(ops, j, Get(m, fields[j], words))
    decreases |ops|
  {
    hide Read, Write, Fits, AllApart, Get, Set;
    Within(m, size, fields[j]);
    if ops != [] {
      var last, before := ops[|ops| - 1], SetAll(m, size, fields, words, ops[..|ops| - 1]);
      GetAfterRun(m, size, fields, words, ops[..|ops| - 1], j);
      if last.field == j {
        FittingIsWord(m, fields[j], last.value);
        GetAfterSet(m, size, fields, j, before, last.value);
      } else {
        SetKeepsOthers(m, size, fields, last.field, j, before, last.value);
      }
    }
  }

  lemma FittingIsWord(m: Base, f: Field, v: Num)
    requires ValidBase(m) && Fits(m, f, v)
    ensures IsWord(m.bits, v)
  {
  }

  // ---- bits of the block ----

  /** Bit `n` of the block: the words hold it from the lowest on. */
  predicate BlockBit(m: Base, words: seq<Num>, n: nat)
    requires m.bits > 0
  {
    n / m.bits < |words| && n % m.bits in words[n / m.bits]
  }

  /** The bit of a value that bit `n` of the block stands for in a field: a low field holds the low bits, a
      high field the top of the usable ones. */
  function ValueBit(m: Base, f: Field, n: int): int {
    n - f.offset + if f.high then m.usable - f.size else 0
  }

  lemma BitPlace(m: Base, f: Field, n: nat)
    requires m.bits > 0 && InOneWord(m, f) && f.offset <= n < f.offset + f.size
    ensures n / m.bits == Index(m, f) && n % m.bits == Place(m, f) + (n - f.offset)
    ensures n % m.bits + Turn(m, f) == ValueBit(m, f, n)
  {
    InsideWord(m, f);
    Divided(f.offset, m.bits);
    QuotientIs(n, Index(m, f), Place(m, f) + (n - f.offset), m.bits);
    Divided(n, m.bits);
  }

  /** What a reader returns: the bits of its field, and above them, in a signed high field, copies of the top
      one. */
  lemma GetBit(m: Base, size: nat, f: Field, words: seq<Num>, b: nat)
    requires ValidBase(m) && size % m.bits == 0 && InOneWord(m, f) && Below(f, size) && |words| == size / m.bits
    ensures Index(m, f) < |words|
    ensures b in Get(m, f, words) <==>
      || (exists n: nat :: f.offset <= n < f.offset + f.size && ValueBit(m, f, n) == b && BlockBit(m, words, n))
      || (f.high && m.signExtend && f.size > 0 && m.usable <= b < m.bits &&
          BlockBit(m, words, f.offset + f.size - 1))
  {
    hide Read, InOneWord;
    Within(m, size, f);
    var w := words[Index(m, f)];
    ReadBit(m, f, w, b);
    if f.size > 0 {
      BitPlace(m, f, f.offset + f.size - 1);
    }
    if Stored(m, f, b) {
      var n := f.offset + b - if f.high then m.usable - f.size else 0;
      BitPlace(m, f, n);
      assert ValueBit(m, f, n) == b;
    }
    forall n: nat | f.offset <= n < f.offset + f.size && ValueBit(m, f, n) == b ensures Stored(m, f, b) {
    }
  }

  /** A bit of the block is in the field exactly when it is in the word of the field, at its place there. */
  lemma InField(m: Base, f: Field, n: nat)
    requires m.bits > 0 && InOneWord(m, f)
    ensures f.offset <= n < f.offset + f.size <==>
      n / m.bits == Index(m, f) && Place(m, f) <= n % m.bits < Place(m, f) + f.size
  {
    hide InOneWord;
    Divided(f.offset, m.bits);
    Divided(n, m.bits);
    if f.offset <= n < f.offset + f.size {
      BitPlace(m, f, n);
    }
  }

  lemma WordSet(m: Base, size: nat, f: Field, words: seq<Num>, v: Num, i: nat, p: nat)
    requires ValidBase(m) && Sited(m, f) && Words(m, size, words) && Index(m, f) < |words| && i < |words|
    ensures p in Set(m, f, words, v)[i] <==>
      if i == Index(m, f) && Place(m, f) <= p < Place(m, f) + f.size
      then p + Turn(m, f) >= 0 && p + Turn(m, f) in v
      else p in words[i]
  {
    hide Write, Place, Turn, Index;
    if i == Index(m, f) {
      WriteBit(m, f, words[i], v, p);
    }
  }

  /** What a writer leaves: in its field the bits of the value, and everywhere else, padding included, what
      was there. */
  lemma SetBit(m: Base, size: nat, f: Field, words: seq<Num>, v: Num, n: nat)
    requires ValidBase(m) && size % m.bits == 0 && InOneWord(m, f) && Below(f, size) && Words(m, size, words)
    ensures Index(m, f) < |words|
    ensures BlockBit(m, Set(m, f, words, v), n) <==>
      if f.offset <= n < f.offset + f.size then ValueBit(m, f, n) >= 0 && ValueBit(m, f, n) in v
      else BlockBit(m, words, n)
  {
    hide Set, InOneWord, Place, Turn, Index, Sited, Below;
    Within(m, size, f);
    InField(m, f, n);
    if n / m.bits < |words| {
      WordSet(m, size, f, words, v, n / m.bits, n % m.bits);
    }
    if f.offset <= n < f.offset + f.size {
      BitPlace(m, f, n);
    }
  }

  // ---- construction ----

  /** Word `i` of the constructed block: the parts of the fields it holds. */
  function Built(m: Base, fields: seq<Field>, values: seq<Num>, i: nat): Num
    requires ValidBase(m) && |fields| == |values| && forall k :: 0 <= k < |fields| ==> Generable(m, fields[k])
    decreases |fields|
  {
    if fields == [] then {} else
      var last := |fields| - 1;
      Built(m, fields[..last], values[..last], i) +
      (if Index(m, fields[last]) == i then NewBits(m, fields[last], values[last]) else {})
  }

  predicate Part(m: Base, f: Field, v: Num, i: nat, p: nat)
    requires ValidBase(m) && Generable(m, f)
  {
    Index(m, f) == i && p in NewBits(m, f, v)
  }

  lemma {:induction false} BuiltBit(m: Base, fields: seq<Field>, values: seq<Num>, i: nat, p: nat)
    requires ValidBase(m) && |fields| == |values| && forall k :: 0 <= k < |fields| ==> Generable(m, fields[k])
    ensures p in Built(m, fields, values, i) <==> exists k :: 0 <= k < |fields| && Part(m, fields[k], values[k], i, p)
    decreases |fields|
  {
    hide NewBits;
    if fields != [] {
      var last := |fields| - 1;
      BuiltBit(m, fields[..last], values[..last], i, p);
      if p in Built(m, fields, values, i) {
        if p in Built(m, fields[..last], values[..last], i) {
          var k :| 0 <= k < last && Part(m, fields[..last][k], values[..last][k], i, p);
          assert Part(m, fields[k], values[k], i, p);
        } else {
          assert Part(m, fields[last], values[last], i, p);
        }
      }
      if k :| 0 <= k < |fields| && Part(m, fields[k], values[k], i, p) {
        assert k < last ==> Part(m, fields[..last][k], values[..last][k], i, p);
      }
    }
  }

  function New(m: Base, size: nat, fields: seq<Field>, values: seq<Num>): (r: seq<Num>)
    requires Ready(m, size, fields) && |fields| == |values|
    ensures |r| == size / m.bits
  {
    seq(size / m.bits, i requires 0 <= i => Built(m, fields, values, i))
  }

  /** In the constructed block each field's bits are those its own value put there. */
  lemma NewHolds(m: Base, size: nat, fields: seq<Field>, values: seq<Num>, k: nat, p: nat)
    requires Ready(m, size, fields) && |fields| == |values| && k < |fields|
    requires forall j :: 0 <= j < |values| ==> IsWord(m.bits, values[j])
    ensures Sited(m, fields[k]) && Index(m, fields[k]) < size / m.bits
    ensures Place(m, fields[k]) <= p < Place(m, fields[k]) + fields[k].size ==>
      (p in New(m, size, fields, values)[Index(m, fields[k])] <==> p in NewBits(m, fields[k], values[k]))
  {
    hide NewBits, Built, Generable, Turn;
    var f := fields[k];
    Within(m, size, f);
    BuiltBit(m, fields, values, Index(m, f), p);
    if Place(m, f) <= p < Place(m, f) + f.size {
      if p in NewBits(m, f, values[k]) {
        assert Part(m, f, values[k], Index(m, f), p);
      }
      if j :| 0 <= j < |fields| && Part(m, fields[j], values[j], Index(m, f), p) {
        Within(m, size, fields[j]);
        NewBit(m, fields[j], values[j], p);
        if j != k {
          assert Apart(fields[if k < j then k else j], fields[if k < j then j else k]);
          SharedWord(m, f, fields[j]);
        }
      }
    }
  }

  /** What a constructor builds: in each field the bits of its value, and nothing anywhere else. */
  lemma BlockBuilt(m: Base, size: nat, fields: seq<Field>, values: seq<Num>, n: nat)
    requires Ready(m, size, fields) && |fields| == |values|
    requires forall j :: 0 <= j < |values| ==> IsWord(m.bits, values[j])
    ensures BlockBit(m, New(m, size, fields, values), n) <==>
      exists k :: 0 <= k < |fields| && fields[k].offset <= n < fields[k].offset + fields[k].size &&
        ValueBit(m, fields[k], n) >= 0 && ValueBit(m, fields[k], n) in values[k]
  {
    hide NewBits, Built, Generable, InOneWord;
    BuiltBit(m, fields, values, n / m.bits, n % m.bits);
    forall k | 0 <= k < |fields|
      ensures Part(m, fields[k], values[k], n / m.bits, n % m.bits) <==>
        fields[k].offset <= n < fields[k].offset + fields[k].size &&
        ValueBit(m, fields[k], n) >= 0 && ValueBit(m, fields[k], n) in values[k]
    {
      PartBit(m, size, fields[k], values[k], n);
    }
    if k :| 0 <= k < |fields| && fields[k].offset <= n < fields[k].offset + fields[k].size {
      Within(m, size, fields[k]);
      BitPlace(m, fields[k], n);
    }
  }

  lemma PartBit(m: Base, size: nat, f: Field, v: Num, n: nat)
    requires ValidBase(m) && Generable(m, f) && size % m.bits == 0 && InOneWord(m, f) && Below(f, size)
    requires IsWord(m.bits, v)
    ensures Part(m, f, v, n / m.bits, n % m.bits) <==>
      f.offset <= n < f.offset + f.size && ValueBit(m, f, n) >= 0 && ValueBit(m, f, n) in v
  {
    hide NewBits, Generable, InOneWord;
    Within(m, size, f);
    Divided(f.offset, m.bits);
    Divided(n, m.bits);
    NewBit(m, f, v, n % m.bits);
    if f.offset <= n < f.offset + f.size {
      BitPlace(m, f, n);
    }
  }

  /** get-after-new. */
  lemma GetAfterNew(m: Base, size: nat, fields: seq<Field>, values: seq<Num>, k: nat)
    requires Ready(m, size, fields) && |fields| == |values| && k < |fields|
    requires forall j :: 0 <= j < |values| ==> IsWord(m.bits, values[j])
    ensures Index(m, fields[k]) < size / m.bits
    ensures Get(m, fields[k], New(m, size, fields, values)) == values[k] <==> Fits(m, fields[k], values[k])
  {
    hide Read, Write, NewBits, Built, New, Fits;
    NewHolds(m, size, fields, values, k, 0);
    var f, v := fields[k], values[k];
    var w := New(m, size, fields, values)[Index(m, f)];
    forall p: nat | Place(m, f) <= p < Place(m, f) + f.size ensures p in w <==> p in Write(m, f, {}, v) {
      NewHolds(m, size, fields, values, k, p);
      NewBit(m, f, v, p);
      WriteBit(m, f, {}, v, p);
    }
    SameRead(m, f, w, Write(m, f, {}, v));
    ReadAfterWrite(m, f, {}, v);
  }

  /** Arguments that pass every assertion of the constructor. */
  predicate Arguments(m: Base, fields: seq<Field>, values: seq<Num>)
    requires ValidBase(m) && forall k :: 0 <= k < |fields| ==> Generable(m, fields[k])
  {
    && |values| == |fields|
    && forall k :: 0 <= k < |fields| ==> IsWord(m.bits, values[k]) && NewAssert(m, fields[k], values[k])
  }

  /** The readers give every argument back. */
  predicate ReadBack(m: Base, size: nat, fields: seq<Field>, values: seq<Num>)
    requires Ready(m, size, fields) && |values| == |fields|
  {
    forall k :: 0 <= k < |fields| ==>
      Index(m, fields[k]) < size / m.bits && Get(m, fields[k], New(m, size, fields, values)) == values[k]
  }

  /** get-after-new holds of all arguments that pass the assertions exactly when no high field takes a
      whole word with unusable bits. */
  lemma NewReadsBack(m: Base, size: nat, fields: seq<Field>)
    requires Ready(m, size, fields)
    ensures (forall values :: Arguments(m, fields, values) ==> ReadBack(m, size, fields, values)) <==>
      forall k :: 0 <= k < |fields| ==> !Unasserted(m, fields[k])
  {
    hide NewAssert, Fits, Get, New, Generable, Unasserted;
    if k :| 0 <= k < |fields| && Unasserted(m, fields[k]) {
      var values := OnlyTopBit(m, fields, k);
      GetAfterNew(m, size, fields, values, k);
    }
    if forall k :: 0 <= k < |fields| ==> !Unasserted(m, fields[k]) {
      forall values | Arguments(m, fields, values) ensures ReadBack(m, size, fields, values) {
        forall k | 0 <= k < |fields|
          ensures Index(m, fields[k]) < size / m.bits && Get(m, fields[k], New(m, size, fields, values)) == values[k]
        {
          GetAfterNew(m, size, fields, values, k);
          Within(m, size, fields[k]);
          NewAssertMeets(m, fields[k]);
        }
      }
    }
  }

  /** The top bit for field `k`, and nothing for the others. */
  lemma OnlyTopBit(m: Base, fields: seq<Field>, k: nat) returns (values: seq<Num>)
    requires ValidBase(m) && (forall j :: 0 <= j < |fields| ==> Generable(m, fields[j]))
    requires k < |fields| && Unasserted(m, fields[k])
    ensures Arguments(m, fields, values) && values[k] == {m.bits - 1} && !Fits(m, fields[k], values[k])
  {
    hide Generable, Unasserted, Fits;
    values := seq(|fields|, j => {})[k := {m.bits - 1}];
    WholeWord(m, fields[k]);
    forall j | 0 <= j < |fields| ensures IsWord(m.bits, values[j]) && NewAssert(m, fields[j], values[j]) {
      if j != k {
        NothingPasses(m, fields[j]);
      }
    }
  }

  lemma NothingPasses(m: Base, f: Field)
    requires ValidBase(m) && Generable(m, f)
    ensures NewAssert(m, f, {})
  {
  }

  /** A high field of 64 bits in words of which 48 are usable: 2^63 passes and is not read back. */
  lemma WholeWordLost()
    ensures var m, fields := Base(64, 48, true), [Field(0, 64, true)];
      Ready(m, 64, fields) && Arguments(m, fields, [{63}]) && !ReadBack(m, 64, fields, [{63}])
  {
    var m, fields := Base(64, 48, true), [Field(0, 64, true)];
    WholeWord(m, fields[0]);
    GetAfterNew(m, 64, fields, [{63}], 0);
  }

  /** A reader looks only at the bits of its own field. */
  lemma SameRead(m: Base, f: Field, w: Num, w': Num)
    requires ValidBase(m) && Sited(m, f)
    requires forall p: nat :: Place(m, f) <= p < Place(m, f) + f.size ==> (p in w <==> p in w')
    ensures Read(m, f, w) == Read(m, f, w')
  {
    hide Read;
    forall b: nat ensures b in Read(m, f, w) <==> b in Read(m, f, w') {
      ReadBit(m, f, w, b);
      ReadBit(m, f, w', b);
    }
  }

  /** The constructor: every field's part is or-ed into its word. */
  method PtrNew(m: Base, size: nat, fields: seq<Field>, values: seq<Num>, words: array<Num>)
    requires Ready(m, size, fields) && |fields| == |values| && words.Length == size / m.bits
    modifies words
    ensures words[..] == New(m, size, fields, values)
  {
    hide NewBits, Generable;
    for i := 0 to words.Length
      invariant forall j :: 0 <= j < i ==> words[j] == {}
    {
      words[i] := {};
    }
    for k := 0 to |fields|
      invariant forall i :: 0 <= i < words.Length ==> words[i] == Built(m, fields[..k], values[..k], i)
    {
      Within(m, size, fields[k]);
      assert fields[..k + 1][..k] == fields[..k] && values[..k + 1][..k] == values[..k];
      var i := Index(m, fields[k]);
      words[i] := words[i] + NewBits(m, fields[k], values[k]);
    }
    assert fields[..|fields|] == fields && values[..|fields|] == values;
  }
}
