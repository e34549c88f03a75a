/** Tagged unions of the bitfield generator: variable-width tags told apart by
    class masks, the checks made on them, and the emitted tag readers. */
module TagScheme {
  import opened Bits
  import opened BlockWords

  /** One element of a union: its tag value, and the tag field, base and size of its block. */
  datatype Tag = Tag(name: string, value: Num, offset: nat, size: nat, high: bool, base: nat, blockSize: nat)

  /** What the generator knows of the tag: per width the offset of the tag field and the class mask
      relative to `classOffset`, and the widths in ascending order. */
  datatype Scheme = Scheme(tagOffset: map<nat, nat>, classOffset: nat, classes: map<nat, Num>, widths: seq<nat>)

  function Offsets(tags: seq<Tag>): map<nat, nat> {
    if tags == [] then map[] else
      var last := tags[|tags| - 1];
      Offsets(tags[..|tags| - 1])[last.size := last.offset]
  }

  predicate Ascending(s: seq<nat>) {
    forall i, j :: 0 <= i < j < |s| ==> s[i] < s[j]
  }

  predicate Lists(s: seq<nat>, keys: set<nat>) {
    Ascending(s) && (forall k :: k in s ==> k in keys) && (forall k :: k in keys ==> k in s)
  }

  /** Every width has an offset, none below the class offset, and a mask; the widths list them all. */
  predicate Formed(s: Scheme) {
    && s.classes.Keys == s.tagOffset.Keys
    && Lists(s.widths, s.classes.Keys) && s.widths != []
    && forall w :: w in s.tagOffset ==> s.classOffset <= s.tagOffset[w]
  }

  /** The mask lies inside the tag field of its width. */
  predicate MaskInField(s: Scheme, w: nat)
    requires Formed(s) && w in s.classes
  {
    Up(s.classes[w], s.classOffset) <= Up(Range(0, w), s.tagOffset[w])
  }

  /** The sanity checks of `make_classes`. */
  predicate MasksOk(s: Scheme)
    requires Formed(s)
  {
    && (forall i :: 0 <= i < |s.widths| ==> MaskInField(s, s.widths[i]))
    && (|s.widths| > 1 ==> s.classes[s.widths[0]] != {})
    && (forall i :: 1 <= i < |s.widths| - 1 ==> s.classes[s.widths[i - 1]] != s.classes[s.widths[i]])
    && (forall i :: 1 <= i < |s.widths| ==> s.classes[s.widths[i - 1]] <= s.classes[s.widths[i]])
  }

  /** The value, relative to the class offset. */
  function ClassValue(s: Scheme, value: Num, width: nat): Num
    requires Formed(s) && width in s.classes
  {
    Up(value, s.tagOffset[width] - s.classOffset)
  }

  /** `assert_value_in_class`. */
  predicate ValueOk(s: Scheme, value: Num, width: nat)
    requires Formed(s) && width in s.classes
  {
    && Up(value, s.tagOffset[width]) <= Up(Range(0, width), s.tagOffset[width])
    && (forall i :: 0 <= i < |s.widths| && s.widths[i] < width ==>
          s.classes[s.widths[i]] <= ClassValue(s, value, width))
    && (width != s.widths[|s.widths| - 1] ==> !(s.classes[width] <= ClassValue(s, value, width)))
  }

  /** The checks of `resolve` on one element. */
  predicate TagOk(s: Scheme, t: Tag)
    requires Formed(s)
  {
    t.size in s.tagOffset && t.offset == s.tagOffset[t.size] && ValueOk(s, t.value, t.size) && !t.high
  }

  /** All tag fields lie in the same word. */
  predicate OneTagWord(s: Scheme, base: nat)
    requires base > 0 && Formed(s)
  {
    forall w :: w in s.tagOffset ==> s.tagOffset[w] / base == s.classOffset / base
  }

  /** The tag field of every width lies inside its word. */
  predicate FieldsInWord(s: Scheme, base: nat)
    requires base > 0
  {
    forall w :: w in s.tagOffset ==> s.tagOffset[w] % base + w <= base
  }

  // ---- the emitted readers ----

  function WordClassmask(s: Scheme, base: nat, w: nat): Num
    requires base > 0 && w in s.classes
  {
    Up(s.classes[w], s.classOffset % base)
  }

  function FieldOf(s: Scheme, base: nat, word: Num, w: nat): Num
    requires base > 0 && w in s.tagOffset
  {
    Shr(base, word, s.tagOffset[w] % base) * Range(0, w)
  }

  /** The width whose entry of the emitted chain of tests is taken for `x`, from entry `i` on. */
  function Chosen(s: Scheme, base: nat, x: Num, i: nat): (w: nat)
    requires base > 0 && Formed(s) && i < |s.widths|
    ensures w in s.widths
    decreases |s.widths| - i
  {
    var w := s.widths[i];
    assert w in s.widths;
    if i + 1 == |s.widths| || !(WordClassmask(s, base, w) <= x) then w else Chosen(s, base, x, i + 1)
  }

  function TagRead(s: Scheme, base: nat, word: Num): Num
    requires base > 0 && Formed(s)
  {
    FieldOf(s, base, word, Chosen(s, base, word, 0))
  }

  /** `_equals`: the tests are made on the tag itself, unshifted. */
  predicate TagEquals(s: Scheme, base: nat, word: Num, tag: Num)
    requires base > 0 && Formed(s)
  {
    FieldOf(s, base, word, Chosen(s, base, tag, 0)) == tag
  }

  // ---- the reader returns the tag ----

  /** The word holds the value in the tag field. */
  predicate Carries(base: nat, t: Tag, word: Num)
    requires base > 0
  {
    && IsWord(base, word)
    && forall b: nat :: b < t.size ==> (b in t.value <==> HasBit(word, b, t.offset % base))
  }

  predicate HasBit(word: Num, b: nat, at: nat) {
    b + at in word
  }

  lemma SameQuotient(a: nat, b: nat, d: nat)
    requires d > 0 && a / d == b / d
    ensures a - b == a % d - b % d
  {
    Divided(a, d);
    Divided(b, d);
  }

  /** A class-mask bit inside the tag field shows in the word just as it does in the value. */
  lemma MaskBit(s: Scheme, base: nat, t: Tag, word: Num, b: nat)
    requires base > 0 && Formed(s) && TagOk(s, t) && OneTagWord(s, base) && Carries(base, t, word)
    requires s.tagOffset[t.size] - s.classOffset <= b < s.tagOffset[t.size] - s.classOffset + t.size
    ensures b in ClassValue(s, t.value, t.size) <==> b + s.classOffset % base in word
  {
    SameQuotient(t.offset, s.classOffset, base);
    assert HasBit(word, b - (t.offset - s.classOffset), t.offset % base) <==> b + s.classOffset % base in word;
  }

  lemma NarrowerMatches(s: Scheme, base: nat, t: Tag, word: Num, i: nat)
    requires base > 0 && Formed(s) && TagOk(s, t) && OneTagWord(s, base) && Carries(base, t, word)
    requires i < |s.widths| && s.widths[i] < t.size
    ensures s.widths[i] in s.widths && WordClassmask(s, base, s.widths[i]) <= word
  {
    hide TagOk, Carries, ClassValue;
    var mask := s.classes[s.widths[i]];
    forall b | b in WordClassmask(s, base, s.widths[i]) ensures b in word {
      var c := b - s.classOffset % base;
      ValueBits(s, t, i, c);
      MaskBit(s, base, t, word, c);
    }
  }

  lemma ValueBits(s: Scheme, t: Tag, i: nat, b: nat)
    requires Formed(s) && TagOk(s, t) && i < |s.widths| && s.widths[i] < t.size && s.widths[i] in s.classes
    requires b in s.classes[s.widths[i]]
    ensures b in ClassValue(s, t.value, t.size)
    ensures s.tagOffset[t.size] - s.classOffset <= b < s.tagOffset[t.size] - s.classOffset + t.size
  {
    var at := s.tagOffset[t.size];
    assert b in ClassValue(s, t.value, t.size);
    var v := b - (at - s.classOffset);
    assert v in t.value;
    assert v + at in Up(t.value, at);
    assert v + at in Up(Range(0, t.size), at);
  }

  lemma OwnDiffers(s: Scheme, base: nat, t: Tag, word: Num)
    requires base > 0 && Formed(s) && MasksOk(s) && TagOk(s, t) && OneTagWord(s, base) && Carries(base, t, word)
    requires t.size != s.widths[|s.widths| - 1]
    ensures !(WordClassmask(s, base, t.size) <= word)
  {
    hide Carries, ClassValue;
    var b :| b in s.classes[t.size] && b !in ClassValue(s, t.value, t.size);
    OwnMaskBit(s, t, b);
    MaskBit(s, base, t, word, b);
    assert b + s.classOffset % base in WordClassmask(s, base, t.size);
  }

  lemma OwnMaskBit(s: Scheme, t: Tag, b: nat)
    requires Formed(s) && MasksOk(s) && TagOk(s, t) && b in s.classes[t.size]
    ensures s.tagOffset[t.size] - s.classOffset <= b < s.tagOffset[t.size] - s.classOffset + t.size
  {
    var i :| 0 <= i < |s.widths| && s.widths[i] == t.size;
    assert MaskInField(s, s.widths[i]);
    assert b + s.classOffset in Up(s.classes[t.size], s.classOffset);
  }

  /** The chain of tests ends at the width of the tag that the word carries. */
  lemma {:induction false} ChosenIsOwn(s: Scheme, base: nat, t: Tag, word: Num, i: nat)
    requires base > 0 && Formed(s) && MasksOk(s) && TagOk(s, t) && OneTagWord(s, base) && Carries(base, t, word)
    requires i < |s.widths| && s.widths[i] <= t.size
    ensures Chosen(s, base, word, i) == t.size
    decreases |s.widths| - i
  {
    hide MasksOk, TagOk, Carries, OneTagWord;
    var last := |s.widths| - 1;
    assert t.size in s.widths by {
      TagWidth(s, t);
    }
    if s.widths[i] == t.size {
      if i < last {
        assert s.widths[i] < s.widths[last];
        OwnDiffers(s, base, t, word);
      }
    } else {
      NarrowerMatches(s, base, t, word, i);
      var j :| 0 <= j < |s.widths| && s.widths[j] == t.size;
      assert i < j;
      assert i + 1 < j ==> s.widths[i + 1] < s.widths[j];
      ChosenIsOwn(s, base, t, word, i + 1);
    }
  }

  lemma TagWidth(s: Scheme, t: Tag)
    requires Formed(s) && TagOk(s, t)
    ensures t.size in s.widths && s.widths[0] <= t.size
  {
    assert t.size in s.widths;
  }

  lemma OwnField(s: Scheme, base: nat, t: Tag, word: Num)
    requires base > 0 && Formed(s) && TagOk(s, t) && Carries(base, t, word)
    ensures FieldOf(s, base, word, t.size) == t.value
  {
    var at := s.tagOffset[t.size];
    forall b: nat ensures b in FieldOf(s, base, word, t.size) <==> b in t.value {
      if b in t.value {
        assert b + at in Up(t.value, at);
        assert b + at in Up(Range(0, t.size), at);
      }
      if b < t.size {
        assert b in t.value <==> HasBit(word, b, t.offset % base);
      }
    }
  }

  /** The emitted reader returns the tag that the word carries. */
  lemma TagReadIsTag(s: Scheme, base: nat, t: Tag, word: Num)
    requires base > 0 && Formed(s) && MasksOk(s) && TagOk(s, t) && OneTagWord(s, base)
    requires Carries(base, t, word)
    ensures TagRead(s, base, word) == t.value
  {
    hide MasksOk, TagOk, Carries, OneTagWord, FieldOf;
    TagWidth(s, t);
    ChosenIsOwn(s, base, t, word, 0);
    OwnField(s, base, t, word);
  }

  // ---- and does so only for tags that pass the check ----

  /** The word with the tag and nothing else. */
  function Bare(base: nat, t: Tag): Num
    requires base > 0
  {
    Up(t.value, t.offset % base)
  }

  lemma BareCarries(base: nat, t: Tag)
    requires base > 0 && t.value <= Range(0, t.size) && t.offset % base + t.size <= base
    ensures Carries(base, t, Bare(base, t))
  {
    forall b: nat | b < t.size ensures b in t.value <==> HasBit(Bare(base, t), b, t.offset % base) {
    }
  }

  lemma UpWithin(a: Num, b: Num, n: nat)
    ensures Up(a, n) <= Up(b, n) <==> a <= b
  {
    forall x | x in a && Up(a, n) <= Up(b, n) ensures x in b {
      assert x + n in Up(a, n);
    }
  }

  lemma BareIs(s: Scheme, base: nat, t: Tag)
    requires base > 0 && Formed(s) && t.size in s.classes && t.offset == s.tagOffset[t.size] && OneTagWord(s, base)
    ensures Bare(base, t) == Up(ClassValue(s, t.value, t.size), s.classOffset % base)
  {
    SameQuotient(t.offset, s.classOffset, base);
  }

  lemma {:induction false} ChosenFrom(s: Scheme, base: nat, x: Num, i: nat)
    requires base > 0 && Formed(s) && i < |s.widths|
    ensures s.widths[i] <= Chosen(s, base, x, i)
    decreases |s.widths| - i
  {
    hide WordClassmask;
    if i + 1 < |s.widths| {
      ChosenFrom(s, base, x, i + 1);
    }
  }

  /** Where the chain of tests ends: all masks before match, and the one there does not, if it is not the last. */
  lemma {:induction false} ChosenMeans(s: Scheme, base: nat, x: Num, i: nat, j: nat)
    requires base > 0 && Formed(s) && i <= j < |s.widths| && Chosen(s, base, x, i) == s.widths[j]
    ensures forall k :: i <= k < j ==> s.widths[k] in s.widths && WordClassmask(s, base, s.widths[k]) <= x
    ensures s.widths[j] in s.widths && (j + 1 < |s.widths| ==> !(WordClassmask(s, base, s.widths[j]) <= x))
    decreases |s.widths| - i
  {
    hide WordClassmask;
    assert s.widths[i] in s.widths && s.widths[j] in s.widths;
    if i < j {
      assert s.widths[i] < s.widths[j];
      ChosenMeans(s, base, x, i + 1, j);
    } else if j + 1 < |s.widths| {
      assert s.widths[j] < s.widths[j + 1];
      ChosenFrom(s, base, x, j + 1);
    }
  }

  /** The check on tag values refuses no more than it must: of a value that fits into its field, every word
      that carries it is read at its own width exactly when it passes. */
  lemma ValueOkExact(s: Scheme, base: nat, t: Tag)
    requires base > 0 && Formed(s) && MasksOk(s) && OneTagWord(s, base) && !t.high
    requires t.size in s.classes && t.offset == s.tagOffset[t.size]
    requires t.value <= Range(0, t.size) && t.offset % base + t.size <= base
    ensures ValueOk(s, t.value, t.size) <==>
      forall word :: Carries(base, t, word) ==> Chosen(s, base, word, 0) == t.size
  {
    hide MasksOk, Chosen, Carries, ValueOk;
    if ValueOk(s, t.value, t.size) {
      TagWidth(s, t);
      forall word | Carries(base, t, word) ensures Chosen(s, base, word, 0) == t.size {
        ChosenIsOwn(s, base, t, word, 0);
      }
    }
    if forall word :: Carries(base, t, word) ==> Chosen(s, base, word, 0) == t.size {
      BareCarries(base, t);
      OwnWidthPasses(s, base, t);
    }
  }

  lemma OwnWidthPasses(s: Scheme, base: nat, t: Tag)
    requires base > 0 && Formed(s) && OneTagWord(s, base) && t.size in s.classes && t.offset == s.tagOffset[t.size]
    requires t.value <= Range(0, t.size) && Chosen(s, base, Bare(base, t), 0) == t.size
    ensures ValueOk(s, t.value, t.size)
  {
    hide Chosen, Bare, ClassValue;
    var at, value := s.classOffset % base, ClassValue(s, t.value, t.size);
    var j :| 0 <= j < |s.widths| && s.widths[j] == t.size;
    ChosenMeans(s, base, Bare(base, t), 0, j);
    BareIs(s, base, t);
    UpWithin(t.value, Range(0, t.size), t.offset);
    UpWithin(s.classes[t.size], value, at);
    forall i | 0 <= i < |s.widths| && s.widths[i] < t.size
      ensures s.widths[i] in s.classes && s.classes[s.widths[i]] <= value
    {
      assert s.widths[i] in s.widths;
      assert i < j;
      UpWithin(s.classes[s.widths[i]], value, at);
    }
  }
}
