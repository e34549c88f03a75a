/** Tags in constructed and updated blocks, and the emitted equality test. */
module UnionWords {
  import opened Bits
  import opened BlockLayout
  import opened BlockWords
  import opened TagScheme

  /** A union that has passed every check, for words of `base` bits. */
  predicate Checked(s: Scheme, base: nat, tags: seq<Tag>) {
    && base > 0
    && Formed(s) && MasksOk(s) && OneTagWord(s, base) && FieldsInWord(s, base)
    && (forall i :: 0 <= i < |tags| ==> TagOk(s, tags[i]))
    && forall i, j :: 0 <= i < j < |tags| ==> tags[i].value != tags[j].value
  }

  function TagField(t: Tag): Field {
    Field(t.offset, t.size, false)
  }

  /** The words hold the element's tag. */
  predicate Holds(base: nat, t: Tag, words: seq<Num>) {
    base > 0 && t.offset / base < |words| && Carries(base, t, words[t.offset / base])
  }

  /** The tag reader returns `value`. */
  predicate ReadsAs(s: Scheme, base: nat, words: seq<Num>, value: Num) {
    base > 0 && Formed(s) && s.classOffset / base < |words| && TagRead(s, base, words[s.classOffset / base]) == value
  }

  /** The tag reader returns the tag that the words hold. */
  lemma HeldIsRead(s: Scheme, base: nat, tags: seq<Tag>, i: nat, words: seq<Num>)
    requires Checked(s, base, tags) && i < |tags| && Holds(base, tags[i], words)
    ensures ReadsAs(s, base, words, tags[i].value)
  {
    hide Carries, MasksOk, FieldsInWord, TagRead, Formed, OneTagWord, TagOk;
    SameWord(s, base, tags[i]);
    TagReadIsTag(s, base, tags[i], words[tags[i].offset / base]);
  }

  lemma SameWord(s: Scheme, base: nat, t: Tag)
    requires base > 0 && Formed(s) && OneTagWord(s, base) && TagOk(s, t)
    ensures t.offset / base == s.classOffset / base
  {
  }

  lemma {:induction false} BuiltIsWord(m: Base, fields: seq<Field>, values: seq<Num>, i: nat)
    requires ValidBase(m) && |fields| == |values| && forall k :: 0 <= k < |fields| ==> Generable(m, fields[k])
    ensures IsWord(m.bits, Built(m, fields, values, i))
    decreases |fields|
  {
    if fields != [] {
      BuiltIsWord(m, fields[..|fields| - 1], values[..|fields| - 1], i);
    }
  }

  /** The block a constructor builds carries its element's tag. */
  lemma NewCarries(m: Base, size: nat, fields: seq<Field>, values: seq<Num>, k: nat, t: Tag)
    requires Ready(m, size, fields) && |fields| == |values| && k < |fields|
    requires forall j :: 0 <= j < |values| ==> IsWord(m.bits, values[j])
    requires fields[k] == TagField(t) && values[k] == t.value
    ensures Holds(m.bits, t, New(m, size, fields, values))
  {
    hide NewBits, Generable;
    NewHolds(m, size, fields, values, k, 0);
    var word := New(m, size, fields, values)[t.offset / m.bits];
    BuiltIsWord(m, fields, values, t.offset / m.bits);
    forall b: nat | b < t.size ensures b in t.value <==> HasBit(word, b, t.offset % m.bits) {
      var p := b + t.offset % m.bits;
      NewHolds(m, size, fields, values, k, p);
      NewBit(m, fields[k], values[k], p);
    }
  }

  /** The reader applied to a constructed block returns that block's tag. */
  lemma TagAfterNew(s: Scheme, tags: seq<Tag>, i: nat, m: Base, size: nat, fields: seq<Field>, values: seq<Num>, k: nat)
    requires Checked(s, m.bits, tags) && i < |tags|
    requires Ready(m, size, fields) && |fields| == |values| && k < |fields|
    requires forall j :: 0 <= j < |values| ==> IsWord(m.bits, values[j])
    requires fields[k] == TagField(tags[i]) && values[k] == tags[i].value
    ensures ReadsAs(s, m.bits, New(m, size, fields, values), tags[i].value)
  {
    hide *;
    NewCarries(m, size, fields, values, k, tags[i]);
    HeldIsRead(s, m.bits, tags, i, New(m, size, fields, values));
  }

  /** Setting any other field keeps the tag, whatever value is stored. */
  lemma SetCarries(m: Base, size: nat, fields: seq<Field>, words: seq<Num>, k: nat, j: nat, t: Tag, v: Num)
    requires Ready(m, size, fields) && Words(m, size, words) && k < |fields| && j < |fields| && j != k
    requires fields[k] == TagField(t) && Holds(m.bits, t, words)
    ensures Index(m, fields[j]) < |words| && Holds(m.bits, t, Set(m, fields[j], words, v))
  {
    hide Write;
    var f := fields[j];
    Within(m, size, f);
    Within(m, size, fields[k]);
    var word := Set(m, f, words, v)[t.offset / m.bits];
    WriteIsWord(m, f, words[Index(m, f)], v);
    forall b: nat | b < t.size ensures b in t.value <==> HasBit(word, b, t.offset % m.bits) {
      if Index(m, f) == Index(m, fields[k]) {
        assert Apart(fields[if k < j then k else j], fields[if k < j then j else k]);
        SharedWord(m, f, fields[k]);
        WriteBit(m, f, words[Index(m, f)], v, b + t.offset % m.bits);
      }
      assert HasBit(words[t.offset / m.bits], b, t.offset % m.bits) <==> HasBit(word, b, t.offset % m.bits);
    }
  }

  lemma WriteIsWord(m: Base, f: Field, w: Num, v: Num)
    requires ValidBase(m) && IsWord(m.bits, w)
    ensures IsWord(m.bits, Write(m, f, w, v))
  {
  }

  lemma TagAfterSet(s: Scheme, tags: seq<Tag>, i: nat, m: Base, size: nat, fields: seq<Field>, words: seq<Num>, k: nat,
                    j: nat, v: Num)
    requires Checked(s, m.bits, tags) && i < |tags|
    requires Ready(m, size, fields) && Words(m, size, words) && k < |fields| && j < |fields| && j != k
    requires fields[k] == TagField(tags[i]) && Holds(m.bits, tags[i], words)
    ensures Index(m, fields[j]) < |words|
    ensures ReadsAs(s, m.bits, Set(m, fields[j], words, v), tags[i].value)
  {
    hide Checked, Words, Holds, ReadsAs, Set, TagField, AllApart, Accepted, Below, Generable;
    SetCarries(m, size, fields, words, k, j, tags[i], v);
    HeldIsRead(s, m.bits, tags, i, Set(m, fields[j], words, v));
  }

  /** The tag as a constructor puts it into a word of which nothing else is set. */
  function TagWord(base: nat, t: Tag): Num
    requires base > 0
  {
    Shl(base, t.value, t.offset % base)
  }

  /** No bit of the tag is shifted out of the word. */
  predicate Kept(base: nat, t: Tag)
    requires base > 0
  {
    forall b :: b in t.value ==> b + t.offset % base < base
  }

  /** The tag a constructor stores is the tag that is read exactly when none of its bits is shifted out. */
  lemma ReadBackExact(s: Scheme, base: nat, t: Tag)
    requires base > 0 && Formed(s) && MasksOk(s) && TagOk(s, t) && OneTagWord(s, base)
    ensures TagRead(s, base, TagWord(base, t)) == t.value <==> Kept(base, t)
  {
    hide *;
    if Kept(base, t) {
      TagWordCarries(base, t);
      TagReadIsTag(s, base, t, TagWord(base, t));
    } else {
      var k := ReadFrom(s, base, TagWord(base, t));
      LostIsNotRead(base, t, TagRead(s, base, TagWord(base, t)), k);
    }
  }

  /** The reader takes its bits from some distance up the word. */
  lemma ReadFrom(s: Scheme, base: nat, word: Num) returns (k: nat)
    requires base > 0 && Formed(s)
    ensures forall b :: b in TagRead(s, base, word) ==> b + k in word
  {
    hide Chosen;
    k := s.tagOffset[Chosen(s, base, word, 0)] % base;
  }

  lemma LostIsNotRead(base: nat, t: Tag, read: Num, k: nat)
    requires base > 0 && !Kept(base, t) && forall b :: b in read ==> b + k in TagWord(base, t)
    ensures read != t.value
  {
    hide TagWord;
    var lost :| lost in t.value && lost + t.offset % base >= base;
    if read == t.value {
      TagWordBit(base, t, lost + k);
      Falls(base, t, k, lost);
    }
  }

  lemma TagWordBit(base: nat, t: Tag, p: nat)
    requires base > 0
    ensures p in TagWord(base, t) <==> p < base && p >= t.offset % base && p - t.offset % base in t.value
  {
  }

  /** A number is no copy of itself further down. */
  lemma {:induction false} Falls(base: nat, t: Tag, k: nat, b: nat)
    requires base > 0 && k < t.offset % base && b in t.value && forall c :: c in t.value ==> c + k in TagWord(base, t)
    ensures false
    decreases b
  {
    hide TagWord;
    TagWordBit(base, t, b + k);
    Falls(base, t, k, b + k - t.offset % base);
  }

  lemma TagWordCarries(base: nat, t: Tag)
    requires base > 0 && Kept(base, t)
    ensures Carries(base, t, TagWord(base, t))
  {
    forall b: nat | b < t.size ensures b in t.value <==> HasBit(TagWord(base, t), b, t.offset % base) {
      assert From(t.value, b + t.offset % base, 0 - t.offset % base) <==> b in t.value;
    }
  }

  /** The check at the head of a union accessor passes exactly on words that carry the tag. */
  lemma AccessorAssert(s: Scheme, base: nat, t: Tag, word: Num)
    requires base > 0 && Formed(s) && TagOk(s, t) && FieldsInWord(s, base) && IsWord(base, word)
    ensures FieldOf(s, base, word, t.size) == t.value <==> Carries(base, t, word)
  {
    if Carries(base, t, word) {
      OwnField(s, base, t, word);
    }
    if FieldOf(s, base, word, t.size) == t.value {
      forall b: nat | b < t.size ensures b in t.value <==> HasBit(word, b, t.offset % base) {
        assert b in FieldOf(s, base, word, t.size) <==> b + t.offset % base in word;
      }
    }
  }

  // ---- the equality test ----

  /** When the tag by itself selects its own width, `_equals` is equality of tags. */
  lemma EqualsIsEquality(s: Scheme, base: nat, tags: seq<Tag>, i: nat, j: nat, word: Num)
    requires Checked(s, base, tags) && i < |tags| && j < |tags| && Carries(base, tags[i], word)
    requires Chosen(s, base, tags[j].value, 0) == tags[j].size
    ensures TagEquals(s, base, word, tags[j].value) <==> i == j
  {
    hide Carries, MasksOk, OneTagWord, FieldsInWord, FieldOf, TagOk;
    var t, u := tags[i], tags[j];
    assert TagOk(s, t) && TagOk(s, u);
    Distinct(s, base, tags, i, j);
    AccessorAssert(s, base, u, word) by {
      CarriesIsWord(base, t, word);
    }
    if Carries(base, u, word) {
      TagReadIsTag(s, base, t, word);
      TagReadIsTag(s, base, u, word);
    }
  }

  lemma Distinct(s: Scheme, base: nat, tags: seq<Tag>, i: nat, j: nat)
    requires Checked(s, base, tags) && i < |tags| && j < |tags|
    ensures tags[i].value == tags[j].value <==> i == j
  {
    if i < j {
      assert tags[i].value != tags[j].value;
    } else if j < i {
      assert tags[j].value != tags[i].value;
    }
  }

  lemma CarriesIsWord(base: nat, t: Tag, word: Num)
    requires base > 0 && Carries(base, t, word)
    ensures IsWord(base, word)
  {
  }

  /** With the tag at bit 0 of its word, or a single width, it does. */
  lemma SelectsItself(s: Scheme, base: nat, t: Tag)
    requires base > 0 && Formed(s) && MasksOk(s) && OneTagWord(s, base) && FieldsInWord(s, base) && TagOk(s, t)
    requires t.offset % base == 0 || |s.widths| == 1
    ensures Chosen(s, base, t.value, 0) == t.size
  {
    hide MasksOk, OneTagWord;
    TagWidth(s, t);
    if t.offset % base == 0 {
      forall b | b in t.value ensures b < t.size {
        assert b + t.offset in Up(t.value, t.offset);
        assert b + t.offset in Up(Range(0, t.size), t.offset);
      }
      ChosenIsOwn(s, base, t, t.value, 0);
    }
  }

  /** Position `b` of the field of width `w` is bit `b - lead` of the tag field of `t`. */
  function Lead(s: Scheme, base: nat, t: Tag, w: nat): int
    requires base > 0 && w in s.tagOffset
  {
    t.offset % base - s.tagOffset[w] % base
  }

  predicate Overlaps(s: Scheme, base: nat, t: Tag, w: nat, b: nat)
    requires base > 0 && w in s.tagOffset
  {
    0 <= b - Lead(s, base, t, w) < t.size
  }

  /** Whether `t` and `x`, laid over each other, agree at bit `b` of the field of width `w`. */
  predicate AgreeAt(s: Scheme, base: nat, t: Tag, x: Num, w: nat, b: nat)
    requires base > 0 && w in s.tagOffset
  {
    Overlaps(s, base, t, w, b) ==> (b in x <==> b - Lead(s, base, t, w) in t.value)
  }

  predicate FitsField(x: Num, w: nat) {
    forall b :: b in x ==> b < w
  }

  /** Every word that carries `t` shows `x` in the field of width `w`. */
  predicate MustShow(s: Scheme, base: nat, t: Tag, x: Num, w: nat)
    requires base > 0 && w in s.tagOffset
  {
    FitsField(x, w) && forall b: nat :: b < w ==> Overlaps(s, base, t, w, b) && AgreeAt(s, base, t, x, w, b)
  }

  /** Some word that carries `t` shows `x` in the field of width `w`. */
  predicate MayShow(s: Scheme, base: nat, t: Tag, x: Num, w: nat)
    requires base > 0 && w in s.tagOffset
  {
    FitsField(x, w) && forall b: nat :: b < w ==> AgreeAt(s, base, t, x, w, b)
  }

  /** A word that carries `t`, with `x` in the field of width `w` where `t` leaves room. */
  function Witness(s: Scheme, base: nat, t: Tag, x: Num, w: nat): Num
    requires base > 0 && w in s.tagOffset
  {
    Shl(base, t.value, t.offset % base) +
      (Shl(base, x * Range(0, w), s.tagOffset[w] % base) - Range(t.offset % base, t.offset % base + t.size))
  }

  lemma WitnessBit(s: Scheme, base: nat, t: Tag, x: Num, w: nat, b: nat)
    requires base > 0 && w in s.tagOffset && FieldsInWord(s, base) && b < w
    requires FitsField(t.value, t.size) && t.offset % base + t.size <= base
    ensures b + s.tagOffset[w] % base in Witness(s, base, t, x, w) <==>
      if Overlaps(s, base, t, w, b) then b - Lead(s, base, t, w) in t.value else b in x
  {
  }

  lemma WitnessCarries(s: Scheme, base: nat, t: Tag, x: Num, w: nat)
    requires base > 0 && w in s.tagOffset && FitsField(t.value, t.size) && t.offset % base + t.size <= base
    ensures Carries(base, t, Witness(s, base, t, x, w))
  {
    forall b: nat | b < t.size ensures b in t.value <==> HasBit(Witness(s, base, t, x, w), b, t.offset % base) {
    }
  }

  lemma CarriedBit(s: Scheme, base: nat, t: Tag, word: Num, w: nat, b: nat)
    requires base > 0 && w in s.tagOffset && FieldsInWord(s, base) && Carries(base, t, word) && b < w
    ensures b in FieldOf(s, base, word, w) <==> b + s.tagOffset[w] % base in word
    ensures Overlaps(s, base, t, w, b) ==> (b in FieldOf(s, base, word, w) <==> b - Lead(s, base, t, w) in t.value)
  {
    if Overlaps(s, base, t, w, b) {
      assert HasBit(word, b - Lead(s, base, t, w), t.offset % base) <==> b + s.tagOffset[w] % base in word;
    }
  }

  lemma MayShowExact(s: Scheme, base: nat, t: Tag, x: Num, w: nat)
    requires base > 0 && w in s.tagOffset && FieldsInWord(s, base)
    requires FitsField(t.value, t.size) && t.offset % base + t.size <= base
    ensures (exists word :: Carries(base, t, word) && FieldOf(s, base, word, w) == x) <==> MayShow(s, base, t, x, w)
  {
    hide Carries, Witness, FieldsInWord;
    if word :| Carries(base, t, word) && FieldOf(s, base, word, w) == x {
      forall b: nat | b < w ensures AgreeAt(s, base, t, x, w, b) {
        CarriedBit(s, base, t, word, w, b);
      }
    }
    if MayShow(s, base, t, x, w) {
      var word := Witness(s, base, t, x, w);
      WitnessCarries(s, base, t, x, w);
      forall b: nat ensures b in FieldOf(s, base, word, w) <==> b in x {
        if b < w {
          assert AgreeAt(s, base, t, x, w, b);
          WitnessBit(s, base, t, x, w, b);
          CarriedBit(s, base, t, word, w, b);
        }
      }
    }
  }

  lemma MustShowExact(s: Scheme, base: nat, t: Tag, x: Num, w: nat)
    requires base > 0 && w in s.tagOffset && FieldsInWord(s, base)
    requires FitsField(t.value, t.size) && t.offset % base + t.size <= base
    ensures (forall word :: Carries(base, t, word) ==> FieldOf(s, base, word, w) == x) <==> MustShow(s, base, t, x, w)
  {
    hide Carries, Witness, FieldsInWord;
    if MustShow(s, base, t, x, w) {
      forall word | Carries(base, t, word) ensures FieldOf(s, base, word, w) == x {
        forall b: nat ensures b in FieldOf(s, base, word, w) <==> b in x {
          if b < w {
            assert AgreeAt(s, base, t, x, w, b);
            CarriedBit(s, base, t, word, w, b);
          }
        }
      }
    }
    if forall word :: Carries(base, t, word) ==> FieldOf(s, base, word, w) == x {
      var zeros, ones := Witness(s, base, t, {}, w), Witness(s, base, t, Range(0, w), w);
      WitnessCarries(s, base, t, {}, w);
      WitnessCarries(s, base, t, Range(0, w), w);
      assert FieldOf(s, base, zeros, w) == x && FieldOf(s, base, ones, w) == x;
      forall b: nat | b < w ensures Overlaps(s, base, t, w, b) && AgreeAt(s, base, t, x, w, b) {
        WitnessBit(s, base, t, {}, w, b);
        WitnessBit(s, base, t, Range(0, w), w, b);
        CarriedBit(s, base, t, zeros, w, b);
        CarriedBit(s, base, t, ones, w, b);
      }
    }
  }

  lemma TagInField(s: Scheme, base: nat, t: Tag)
    requires base > 0 && Formed(s) && FieldsInWord(s, base) && TagOk(s, t)
    ensures FitsField(t.value, t.size) && t.offset % base + t.size <= base
  {
    forall b | b in t.value ensures b < t.size {
      assert b + t.offset in Up(t.value, t.offset);
      assert b + t.offset in Up(Range(0, t.size), t.offset);
    }
  }

  /** `_equals` against the tag of element `j`, on words of element `i`, in general: it is right on all
      of them exactly when, at the width that the unshifted tag selects, the words of `i` must show the
      tag (if `i == j`) or cannot show it (if not). */
  lemma EqualsExact(s: Scheme, base: nat, tags: seq<Tag>, i: nat, j: nat)
    requires Checked(s, base, tags) && i < |tags| && j < |tags|
    ensures (forall word :: Carries(base, tags[i], word) ==> (TagEquals(s, base, word, tags[j].value) <==> i == j)) <==>
      var w := Chosen(s, base, tags[j].value, 0);
      if i == j then MustShow(s, base, tags[i], tags[j].value, w) else !MayShow(s, base, tags[i], tags[j].value, w)
  {
    hide Carries, FieldOf, MustShow, MayShow, MasksOk, OneTagWord, TagOk, FieldsInWord;
    var w := Chosen(s, base, tags[j].value, 0);
    assert w in s.widths;
    assert TagOk(s, tags[i]);
    TagInField(s, base, tags[i]);
    MustShowExact(s, base, tags[i], tags[j].value, w);
    MayShowExact(s, base, tags[i], tags[j].value, w);
  }

  // ---- a checked union on which `_equals` errs ----

  function LateTags(): seq<Tag> {
    [Tag("a", {}, 4, 1, false, 32, 32), Tag("b", {0}, 4, 2, false, 32, 32), Tag("c", {0, 1}, 4, 2, false, 32, 32)]
  }

  function LateScheme(): Scheme {
    Scheme(map[1 := 4, 2 := 4], 4, map[1 := {0}, 2 := {0}], [1, 2])
  }

  lemma LateShape()
    ensures Formed(LateScheme())
  {
    var s := LateScheme();
    assert s.classes.Keys == {1, 2} && s.tagOffset.Keys == {1, 2};
  }

  lemma LateWord()
    ensures Formed(LateScheme()) && OneTagWord(LateScheme(), 32) && FieldsInWord(LateScheme(), 32)
  {
    LateShape();
    hide Formed;
  }

  lemma LateFormed()
    ensures Formed(LateScheme()) && MasksOk(LateScheme())
    ensures OneTagWord(LateScheme(), 32) && FieldsInWord(LateScheme(), 32)
  {
    LateShape();
    LateWord();
    hide Formed, OneTagWord, FieldsInWord;
    var s := LateScheme();
    assert 0 in s.classes[1];
    assert MaskInField(s, 1) && MaskInField(s, 2);
  }

  lemma LateTagOk(i: nat)
    requires i < 3
    ensures Formed(LateScheme()) && TagOk(LateScheme(), LateTags()[i])
  {
    LateFormed();
    hide MasksOk, OneTagWord, FieldsInWord;
    var s, t := LateScheme(), LateTags()[i];
    assert i == 0 ==> 0 !in ClassValue(s, t.value, t.size);
    assert i > 0 ==> 0 in ClassValue(s, t.value, t.size);
  }

  lemma LateChecked()
    ensures Checked(LateScheme(), 32, LateTags())
  {
    LateFormed();
    var tags := LateTags();
    hide Formed, MasksOk, OneTagWord, FieldsInWord, TagOk;
    forall i | 0 <= i < |tags| ensures TagOk(LateScheme(), tags[i]) {
      LateTagOk(i);
    }
    assert 1 in tags[2].value && 1 !in tags[1].value && 0 in tags[1].value && 0 in tags[2].value && 0 !in tags[0].value;
  }

  lemma LateChosen()
    ensures Formed(LateScheme()) && Chosen(LateScheme(), 32, {0}, 0) == 1
  {
    LateFormed();
    hide MasksOk, OneTagWord, FieldsInWord;
    assert 4 in WordClassmask(LateScheme(), 32, 1);
  }

  /** Two tag widths at bit 4 of a word: `_equals` takes a word with tag 3 for one with tag 1. */
  lemma ShiftedTagsConfused()
    ensures Checked(LateScheme(), 32, LateTags())
    ensures Carries(32, LateTags()[2], {4, 5})
    ensures TagEquals(LateScheme(), 32, {4, 5}, LateTags()[1].value)
  {
    LateChecked();
    LateChosen();
    hide Checked, Formed, MasksOk;
    var t := LateTags()[2];
    forall b: nat | b < t.size ensures b in t.value <==> HasBit({4, 5}, b, t.offset % 32) {
    }
    assert FieldOf(LateScheme(), 32, {4, 5}, 1) == {0};
  }
}
