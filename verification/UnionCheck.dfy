/** The checks that `TaggedUnion` makes before any code is emitted. */
module UnionCheck {
  import opened Bits
  import opened BlockLayout
  import opened TagScheme
  import opened UnionWords

  /** The declared class masks, moved from the tag field to the class offset; without any, one empty
      mask for the narrowest width. */
  predicate Positioned(tagOffset: map<nat, nat>, classOffset: nat, declared: map<nat, Num>, classes: map<nat, Num>)
    requires declared.Keys <= tagOffset.Keys
    requires forall w :: w in tagOffset ==> classOffset <= tagOffset[w]
  {
    if declared == map[] then
      |classes.Keys| == 1 &&
      forall w :: w in classes ==> classes[w] == {} && w in tagOffset && forall v :: v in tagOffset ==> w <= v
    else
      classes.Keys == declared.Keys &&
      forall w :: w in declared ==> classes[w] == Up(declared[w], tagOffset[w] - classOffset)
  }

  predicate Smallest(tagOffset: map<nat, nat>, least: nat) {
    (exists w :: w in tagOffset && tagOffset[w] == least) && forall w :: w in tagOffset ==> least <= tagOffset[w]
  }

  /** Some element uses width `w`. */
  predicate Uses(tags: seq<Tag>, w: nat) {
    exists i :: 0 <= i < |tags| && tags[i].size == w
  }

  lemma {:induction false} OffsetsUsed(tags: seq<Tag>, w: nat)
    ensures w in Offsets(tags) <==> Uses(tags, w)
  {
    if tags != [] {
      var last := |tags| - 1;
      OffsetsUsed(tags[..last], w);
      if Uses(tags[..last], w) {
        var i :| 0 <= i < last && tags[..last][i].size == w;
        assert tags[i].size == w;
      }
      if i :| 0 <= i < |tags| && tags[i].size == w {
        assert i < last ==> tags[..last][i].size == w;
      }
    }
  }

  method Least(keys: set<nat>) returns (least: nat)
    requires keys != {}
    ensures least in keys && forall k :: k in keys ==> least <= k
  {
    least :| least in keys;
    var rest := keys - {least};
    while rest != {}
      invariant rest <= keys && least in keys && forall k :: k in keys ==> k in rest || least <= k
      decreases |rest|
    {
      var k :| k in rest;
      if k < least {
        least := k;
      }
      rest := rest - {k};
    }
  }

  method Sorted(keys: set<nat>) returns (s: seq<nat>)
    ensures Lists(s, keys)
  {
    s := [];
    var rest := keys;
    while rest != {}
      invariant rest <= keys && Ascending(s)
      invariant (forall k :: k in s ==> k in keys && k !in rest) && (forall k :: k in keys ==> k in rest || k in s)
      invariant forall i, k :: 0 <= i < |s| && k in rest ==> s[i] < k
      decreases |rest|
    {
      var k := Least(rest);
      s := s + [k];
      rest := rest - {k};
    }
  }

  predicate NoneTwice(tags: seq<Tag>) {
    forall i, j :: 0 <= i < j < |tags| ==> tags[i].name != tags[j].name && tags[i].value != tags[j].value
  }

  /** `TaggedUnion.__init__`: no name and no value twice. */
  method NoDuplicates(tags: seq<Tag>) returns (ok: bool)
    ensures ok <==> NoneTwice(tags)
  {
    var names: set<string> := {};
    var values: set<Num> := {};
    for k := 0 to |tags|
      invariant NoneTwice(tags[..k])
      invariant forall n :: n in names <==> exists i :: 0 <= i < k && tags[i].name == n
      invariant forall v :: v in values <==> exists i :: 0 <= i < k && tags[i].value == v
    {
      if tags[k].name in names || tags[k].value in values {
        return false;
      }
      names := names + {tags[k].name};
      values := values + {tags[k].value};
    }
    assert tags[..|tags|] == tags;
    ok := true;
  }

  /** Every element passes, and all blocks have one base and one size. */
  predicate Resolved(s: Scheme, tags: seq<Tag>)
    requires Formed(s)
  {
    && (forall i :: 0 <= i < |tags| ==> TagOk(s, tags[i]))
    && (forall i :: 0 <= i < |tags| ==> tags[i].base == tags[0].base && tags[i].blockSize == tags[0].blockSize)
  }

  /** Everything that is checked of a union with the declared masks. */
  predicate Passes(s: Scheme, tags: seq<Tag>, declared: map<nat, Num>, base: nat)
    requires base > 0
  {
    && NoneTwice(tags) && tags != [] && declared.Keys <= Offsets(tags).Keys
    && Formed(s) && MasksOk(s) && Resolved(s, tags) && OneTagWord(s, base)
  }

  class TaggedUnion {
    const tags: seq<Tag>
    var classes: map<nat, Num>
    var tagOffset: map<nat, nat>
    var classOffset: nat
    var widths: seq<nat>

    constructor (tags: seq<Tag>, classes: map<nat, Num>)
      ensures this.tags == tags && this.classes == classes
    {
      this.tags, this.classes := tags, classes;
      tagOffset, classOffset, widths := map[], 0, [];
    }

    function View(): Scheme
      reads this
    {
      Scheme(tagOffset, classOffset, classes, widths)
    }

    /** Collects the offset of the tag field for each width, and the least of them. */
    method CollectOffsets()
      requires tags != []
      modifies `tagOffset, `classOffset
      ensures tagOffset == Offsets(tags) && Smallest(tagOffset, classOffset)
    {
      tagOffset := map[];
      for i := 0 to |tags|
        invariant tagOffset == Offsets(tags[..i])
      {
        assert tags[..i + 1][..i] == tags[..i];
        tagOffset := tagOffset[tags[i].size := tags[i].offset];
      }
      assert tags[..|tags|] == tags;
      assert tags[|tags| - 1].size in tagOffset;
      var least := Least(tagOffset.Values);
      forall w | w in tagOffset ensures least <= tagOffset[w] {
        assert tagOffset[w] in tagOffset.Values;
      }
      classOffset := least;
    }

    /** Makes the declared masks relative to the class offset. */
    method PositionMasks() returns (ok: bool)
      requires tagOffset != map[] && Smallest(tagOffset, classOffset)
      modifies `classes
      ensures ok <==> old(classes).Keys <= tagOffset.Keys
      ensures ok ==> Positioned(tagOffset, classOffset, old(classes), classes)
    {
      var declared := classes;
      if !(declared.Keys <= tagOffset.Keys) {
        return false;
      }
      ok := true;
      if classes == map[] {
        assert exists w :: w in tagOffset.Keys;
        var w := Least(tagOffset.Keys);
        classes := map[w := {}];
        assert classes.Keys == {w};
        return;
      }
      Shift();
    }

    /** Moves every mask up by the distance of its tag field from the class offset. */
    method Shift()
      requires classes.Keys <= tagOffset.Keys && forall w :: w in classes ==> classOffset <= tagOffset[w]
      modifies `classes
      ensures classes.Keys == old(classes).Keys
      ensures forall w :: w in classes ==> classes[w] == Up(old(classes)[w], tagOffset[w] - classOffset)
    {
      hide Up;
      var declared := classes;
      var rest := declared.Keys;
      while rest != {}
        invariant rest <= declared.Keys && classes.Keys == declared.Keys
        invariant forall w :: w in rest ==> classes[w] == declared[w]
        invariant forall w :: w in declared && w !in rest ==> classes[w] == Up(declared[w], tagOffset[w] - classOffset)
        decreases |rest|
      {
        var w :| w in rest;
        classes := classes[w := Up(classes[w], tagOffset[w] - classOffset)];
        rest := rest - {w};
      }
    }

    /** The sanity checks on the masks. */
    method CheckMasks() returns (ok: bool)
      requires Formed(View())
      ensures ok <==> MasksOk(View())
    {
      hide Formed, MaskInField;
      WidthsHave(View());
      for i := 0 to |widths|
        invariant forall j :: 0 <= j < i ==> MaskInField(View(), widths[j])
      {
        if !MaskInField(View(), widths[i]) {
          return false;
        }
      }
      if |widths| > 1 && classes[widths[0]] == {} {
        return false;
      }
      var k := 1;
      while k < |widths| - 1
        invariant 1 <= k && forall j :: 1 <= j < k && j < |widths| - 1 ==> classes[widths[j - 1]] != classes[widths[j]]
      {
        if classes[widths[k - 1]] == classes[widths[k]] {
          return false;
        }
        k := k + 1;
      }
      for i := 1 to |widths|
        invariant forall j :: 1 <= j < i ==> classes[widths[j - 1]] <= classes[widths[j]]
      {
        if !(classes[widths[i - 1]] <= classes[widths[i]]) {
          return false;
        }
      }
      ok := true;
    }

    /** `make_classes`. */
    method MakeClasses() returns (ok: bool)
      modifies `classes, `tagOffset, `classOffset, `widths
      ensures ok ==> tags != [] && tagOffset == Offsets(tags) && Smallest(tagOffset, classOffset)
      ensures tags != [] && old(classes).Keys <= Offsets(tags).Keys ==>
        && tagOffset == Offsets(tags) && Smallest(tagOffset, classOffset)
        && Positioned(tagOffset, classOffset, old(classes), classes) && Lists(widths, classes.Keys)
      ensures ok <==> tags != [] && old(classes).Keys <= Offsets(tags).Keys && Formed(View()) && MasksOk(View())
    {
      hide Positioned, MasksOk, Offsets;
      if tags == [] {
        return false;
      }
      CollectOffsets();
      ok := PositionMasks();
      if !ok {
        return;
      }
      widths := Sorted(classes.Keys);
      if classes.Keys != tagOffset.Keys {
        return false;
      }
      assert widths != [] by {
        assert exists w :: w in classes.Keys;
      }
      ok := CheckMasks();
    }

    /** `assert_value_in_class`. */
    method ValueInClass(value: Num, width: nat) returns (ok: bool)
      requires Formed(View()) && width in classes
      ensures ok <==> ValueOk(View(), value, width)
    {
      var ovalue := Up(value, tagOffset[width]);
      var cvalue := Up(value, tagOffset[width] - classOffset);
      var field := Up(Range(0, width), tagOffset[width]);
      if ovalue + field != field {
        assert !(ovalue <= field);
        return false;
      }
      assert ovalue <= field;
      WidthsHave(View());
      for i := 0 to |widths|
        invariant forall j :: 0 <= j < i && widths[j] < width ==> classes[widths[j]] <= cvalue
      {
        if widths[i] < width && cvalue * classes[widths[i]] != classes[widths[i]] {
          assert !(classes[widths[i]] <= cvalue);
          return false;
        }
      }
      ok := width == widths[|widths| - 1] || cvalue * classes[width] != classes[width];
      assert cvalue * classes[width] == classes[width] <==> classes[width] <= cvalue;
    }

    /** The loop of `resolve` over the elements. */
    method CheckTags() returns (ok: bool)
      requires Formed(View()) && tagOffset == Offsets(tags)
      ensures ok <==> Resolved(View(), tags)
    {
      hide Formed, ValueOk, Offsets;
      for i := 0 to |tags|
        invariant forall j :: 0 <= j < i ==> TagOk(View(), tags[j])
        invariant forall j :: 0 <= j < i ==> tags[j].base == tags[0].base && tags[j].blockSize == tags[0].blockSize
      {
        var t := tags[i];
        OffsetsUsed(tags, t.size);
        SameKeys(View());
        var fits := ValueInClass(t.value, t.size);
        if t.base != tags[0].base || t.blockSize != tags[0].blockSize ||
           t.offset != tagOffset[t.size] || !fits || t.high
        {
          return false;
        }
      }
      ok := true;
    }

    /** `resolve`. */
    method Resolve() returns (ok: bool)
      modifies `classes, `tagOffset, `classOffset, `widths
      ensures ok <==>
        tags != [] && old(classes).Keys <= Offsets(tags).Keys &&
        Formed(View()) && MasksOk(View()) && Resolved(View(), tags)
      ensures ok ==> tagOffset == Offsets(tags) && Smallest(tagOffset, classOffset)
    {
      hide Formed, MasksOk, Resolved, Offsets;
      ok := MakeClasses();
      if ok {
        ok := CheckTags();
      }
    }

    /** `set_base`. */
    method SetBase(base: nat) returns (ok: bool)
      requires base > 0 && Formed(View()) && Smallest(tagOffset, classOffset)
      ensures ok <==> OneTagWord(View(), base)
    {
      WidthsHave(View());
      var index := tagOffset[widths[0]] / base;
      for i := 0 to |widths|
        invariant forall j :: 0 <= j < i ==> tagOffset[widths[j]] / base == index
      {
        if tagOffset[widths[i]] / base != index {
          return false;
        }
      }
      ok := true;
      forall w | w in tagOffset ensures tagOffset[w] / base == index {
        assert w in widths;
      }
    }

    /** All checks together. What passes meets the conditions of the theorems on the emitted code exactly
        when no tag field crosses a boundary of the union's words. The checks make sure of that only
        when the blocks were declared under the base of the union. */
    method Check(m: Base) returns (ok: bool)
      requires ValidBase(m) && forall i :: 0 <= i < |tags| ==> OwnWord(tags[i])
      modifies `classes, `tagOffset, `classOffset, `widths
      ensures ok <==> Passes(View(), tags, old(classes), m.bits)
      ensures ok ==> (Checked(View(), m.bits, tags) <==> FieldsInWord(View(), m.bits))
      ensures ok && m.bits == tags[0].base ==> Checked(View(), m.bits, tags)
    {
      hide Formed, MasksOk, Offsets, OneTagWord, OwnWord, Smallest;
      ok := NoDuplicates(tags);
      if ok {
        ok := Resolve();
      }
      if ok {
        ok := SetBase(m.bits);
      }
      if ok {
        assert forall i, j :: 0 <= i < j < |tags| ==> tags[i].value != tags[j].value;
        if m.bits == tags[0].base {
          TagsInWords(View(), tags, m.bits);
        }
      }
    }
  }

  /** The block has passed its own `set_base`: its tag field lies inside one word of its own base. */
  predicate OwnWord(t: Tag) {
    t.base > 0 && InOneWord(Base(t.base, t.base, false), TagField(t))
  }

  function CrossingTag(): Tag {
    Tag("a", {3}, 30, 4, false, 64, 64)
  }

  /** What the generator makes of a union of that tag alone. */
  function CrossingScheme(): Scheme {
    Scheme(map[4 := 30], 30, map[4 := {}], [4])
  }

  /** A union under `base 32` of a block under `base 64` with its tag at bits 30-33: every check is
      passed, and no 32-bit word reads as the tag. */
  lemma CrossingAccepted()
    ensures OwnWord(CrossingTag()) && Passes(CrossingScheme(), [CrossingTag()], map[], 32)
    ensures CrossingScheme().tagOffset == Offsets([CrossingTag()])
    ensures forall word :: IsWord(32, word) ==> TagRead(CrossingScheme(), 32, word) != CrossingTag().value
  {
    var s, t := CrossingScheme(), CrossingTag();
    assert [t][..0] == [];
    CrossingPasses();
    forall word | IsWord(32, word) ensures TagRead(s, 32, word) != t.value {
      assert Chosen(s, 32, word, 0) == 4;
      assert 3 in t.value && 3 !in FieldOf(s, 32, word, 4);
    }
  }

  lemma CrossingPasses()
    ensures var s, t := CrossingScheme(), CrossingTag();
      Formed(s) && MasksOk(s) && Resolved(s, [t]) && OneTagWord(s, 32)
  {
    var s, t := CrossingScheme(), CrossingTag();
    assert s.widths[0] == 4;
    assert Formed(s);
    assert MaskInField(s, 4);
    forall b | b in Up(t.value, 30) ensures b in Up(Range(0, 4), 30) {
    }
    assert TagOk(s, t);
  }

  lemma WidthsHave(s: Scheme)
    requires Formed(s)
    ensures s.widths != [] && forall i :: 0 <= i < |s.widths| ==> s.widths[i] in s.classes && s.widths[i] in s.tagOffset
  {
    forall i | 0 <= i < |s.widths| ensures s.widths[i] in s.classes && s.widths[i] in s.tagOffset {
      assert s.widths[i] in s.widths;
    }
  }

  lemma SameKeys(s: Scheme)
    requires Formed(s)
    ensures s.classes.Keys == s.tagOffset.Keys
  {
  }

  /** Blocks whose fields do not cross words keep the tag field of every width inside a word of their base. */
  lemma TagsInWords(s: Scheme, tags: seq<Tag>, base: nat)
    requires base > 0 && Formed(s) && Resolved(s, tags) && s.tagOffset == Offsets(tags)
    requires forall i :: 0 <= i < |tags| ==> OwnWord(tags[i]) && tags[i].base == base
    ensures FieldsInWord(s, base)
  {
    hide Formed, ValueOk, Offsets, InOneWord;
    forall w | w in s.tagOffset ensures s.tagOffset[w] % base + w <= base {
      OffsetsUsed(tags, w);
      var i :| 0 <= i < |tags| && tags[i].size == w;
      assert TagOk(s, tags[i]);
      InsideWord(Base(base, base, false), TagField(tags[i]));
    }
  }
}
