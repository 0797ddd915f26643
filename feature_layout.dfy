/**
 * The page-feature registry as a value: the descriptors a feature set
 * holds, the table of built-in features, and the two operations that shape
 * the layout of a page's reserved area — adding a feature and reordering
 * the set so that built-in features come first.  The class in page_feat.dfy
 * keeps the same fields in place and is proved against these functions.
 *
 * Offsets are counted from the start of the reserved area at the end of the
 * page; a well-formed set packs its features back to back, the first at
 * offset 0.
 */
module FeatureLayout {
  import opened Common

  /** Built-in feature identifiers (`PageFeature`). */
  const PF_ENCRYPTION_TAG: nat := 0
  const PF_EXT_CHECKSUMS: nat := 1
  const PF_MAX_FEATURE: nat := 2

  /** Limits whose defining headers are not part of this model (see README). */
  const MAX_PAGE_FEATURES: nat := 16
  const MaxReservedPageSize: nat := 256
  const BLCKSZ: nat := 8192
  /** Size of a stored feature name including its terminating NUL. */
  const PAGE_FEATURE_NAME_LEN: nat := 21

  /** A row of the built-in table: a name and its default width in bytes. */
  datatype PageFeatureDesc = PageFeatureDesc(name: string, size: uint16)

  /** The built-in table, indexed by feature identifier. */
  const BuiltinFeatureDescs: seq<PageFeatureDesc> :=
    [PageFeatureDesc("encryption_tags", 0), PageFeatureDesc("extended_checksums", 64)]

  /** One allocated feature of a set (`AllocatedPageFeatureDesc`). */
  datatype FeatureDesc = FeatureDesc(name: string, offset: int, size: int, isBuiltin: bool, builtin: int)

  /**
   * Everything a `PageFeatureSetData` holds except its name.  The 16-bit
   * built-in bitmap is kept as the set of its one bits: bit `i` is set
   * exactly when `i` is in `bitmap`.
   */
  datatype FeatureSetState = FeatureSetState(
    bitmap: set<nat>,
    bytesManaged: uint16,
    bytesUsed: nat,
    featCapacity: uint16,
    locked: bool,
    feats: seq<FeatureDesc>)

  // ---------------------------------------------------------------------
  // Built-in table and bitmap
  // ---------------------------------------------------------------------

  function BuiltinName(feature: nat): string
    requires feature < PF_MAX_FEATURE
  {
    BuiltinFeatureDescs[feature].name
  }

  /** Linear search of the built-in table by name, from index `i` on. */
  function BuiltinIndexFrom(name: string, i: nat): (r: Option<nat>)
    requires i <= PF_MAX_FEATURE
    decreases PF_MAX_FEATURE - i
    ensures r.Some? ==> i <= r.value < PF_MAX_FEATURE && BuiltinName(r.value) == name
    ensures r.None? ==> forall k :: i <= k < PF_MAX_FEATURE ==> BuiltinName(k) != name
  {
    if i == PF_MAX_FEATURE then None
    else if BuiltinName(i) == name then Some(i)
    else BuiltinIndexFrom(name, i + 1)
  }

  function BuiltinIndex(name: string): (r: Option<nat>)
    ensures r.Some? ==> r.value < PF_MAX_FEATURE && BuiltinName(r.value) == name
    ensures r.None? ==> forall k :: 0 <= k < PF_MAX_FEATURE ==> BuiltinName(k) != name
  {
    BuiltinIndexFrom(name, 0)
  }

  predicate IsBuiltinName(name: string) {
    BuiltinIndex(name).Some?
  }

  /** A name that is not in the built-in table. */
  predicate UserName(name: string) {
    forall k :: 0 <= k < PF_MAX_FEATURE ==> BuiltinName(k) != name
  }

  /** The built-in table's names are distinct, so a name has at most one identifier. */
  lemma BuiltinIndexOfName(feature: nat)
    requires feature < PF_MAX_FEATURE
    ensures BuiltinIndex(BuiltinName(feature)) == Some(feature)
  {
    assert BuiltinName(0) != BuiltinName(1);
  }

  /** Built-in names have 15 and 18 characters. */
  lemma BuiltinNameLength(name: string)
    requires IsBuiltinName(name)
    ensures 15 <= |name| <= 18
  {
    assert |BuiltinName(0)| == 15 && |BuiltinName(1)| == 18;
  }

  // ---------------------------------------------------------------------
  // Names and sizes
  // ---------------------------------------------------------------------

  /** The name kept by the set: at most `PAGE_FEATURE_NAME_LEN - 1` characters. */
  function StoredName(name: string): (r: string)
    ensures |r| < PAGE_FEATURE_NAME_LEN
    ensures r == name <==> |name| < PAGE_FEATURE_NAME_LEN
  {
    if |name| < PAGE_FEATURE_NAME_LEN then name else name[..PAGE_FEATURE_NAME_LEN - 1]
  }

  /** The stored name is the given name cut short, never altered. */
  lemma StoredNamePrefix(name: string)
    ensures StoredName(name) <= name
  {
  }

  /**
   * `(size + 7) & ~7` stored back into a `uint16`: clearing the low three
   * bits rounds down to a multiple of 8, and the one result past the 16-bit
   * range, 0x10000, is truncated to 0.
   */
  function RoundUp8(size: uint16): uint16
  {
    var r := (size + 7) - (size + 7) % 8;
    if r == 0x1_0000 then 0 else r
  }

  /**
   * The rounded size is a multiple of 8, the least one not below `size`,
   * except at the top of the 16-bit range where it wraps to zero.
   */
  lemma RoundUp8Rounds(size: uint16)
    ensures RoundUp8(size) % 8 == 0
    ensures size <= 0xFFF8 ==> size <= RoundUp8(size) < size + 8
    ensures size > 0xFFF8 ==> RoundUp8(size) == 0
    ensures size % 8 == 0 ==> RoundUp8(size) == size
  {
  }

  /** Index of the first feature whose stored name is `name`, searching from `i`. */
  function NameIndexFrom(feats: seq<FeatureDesc>, name: string, i: nat): (r: Option<nat>)
    requires i <= |feats|
    decreases |feats| - i
    ensures r.Some? ==> && i <= r.value < |feats| && feats[r.value].name == name
                        && forall k :: i <= k < r.value ==> feats[k].name != name
    ensures r.None? ==> forall k :: i <= k < |feats| ==> feats[k].name != name
  {
    if i == |feats| then None
    else if feats[i].name == name then Some(i)
    else NameIndexFrom(feats, name, i + 1)
  }

  function NameIndex(feats: seq<FeatureDesc>, name: string): (r: Option<nat>)
    ensures r.Some? ==> && r.value < |feats| && feats[r.value].name == name
                        && forall k :: 0 <= k < r.value ==> feats[k].name != name
    ensures r.None? ==> forall k :: 0 <= k < |feats| ==> feats[k].name != name
  {
    NameIndexFrom(feats, name, 0)
  }

  // ---------------------------------------------------------------------
  // Packing
  // ---------------------------------------------------------------------

  function SumSizes(feats: seq<FeatureDesc>): int
  {
    if feats == [] then 0 else SumSizes(feats[..|feats| - 1]) + feats[|feats| - 1].size
  }

  lemma {:induction false} SumSizesAppend(a: seq<FeatureDesc>, b: seq<FeatureDesc>)
    ensures SumSizes(a + b) == SumSizes(a) + SumSizes(b)
    decreases |b|
  {
    if b == [] {
      assert a + b == a;
    } else {
      assert (a + b)[..|a + b| - 1] == a + b[..|b| - 1];
      SumSizesAppend(a, b[..|b| - 1]);
    }
  }

  /** Reordering descriptors does not change how many bytes they take. */
  lemma {:induction false} SumSizesPermutation(a: seq<FeatureDesc>, b: seq<FeatureDesc>)
    requires multiset(a) == multiset(b)
    ensures SumSizes(a) == SumSizes(b)
    decreases |a|
  {
    if a != [] {
      var x := a[|a| - 1];
      assert x in multiset(b) by { assert x in a; }
      var k :| 0 <= k < |b| && b[k] == x;
      var a', b' := a[..|a| - 1] + a[|a|..], b[..k] + b[k + 1..];
      assert multiset(a') == multiset(b') by {
        MultisetRemove(a, |a| - 1);
        MultisetRemove(b, k);
      }
      SumSizesPermutation(a', b');
      SumSizesRemove(a, |a| - 1);
      SumSizesRemove(b, k);
    }
  }

  lemma MultisetRemove(s: seq<FeatureDesc>, k: nat)
    requires k < |s|
    ensures multiset(s[..k] + s[k + 1..]) == multiset(s) - multiset{s[k]}
  {
    assert s == s[..k] + [s[k]] + s[k + 1..];
  }

  lemma SumSizesRemove(s: seq<FeatureDesc>, k: nat)
    requires k < |s|
    ensures SumSizes(s) == SumSizes(s[..k] + s[k + 1..]) + s[k].size
  {
    assert s[..k + 1] + s[k + 1..] == s;
    SumSizesAppend(s[..k + 1], s[k + 1..]);
    PrefixSumStep(s, k);
    SumSizesAppend(s[..k], s[k + 1..]);
  }

  /** Each feature starts where the previous ones end. */
  ghost predicate Packed(feats: seq<FeatureDesc>) {
    forall i {:trigger feats[i].offset} :: 0 <= i < |feats| ==> feats[i].offset == SumSizes(feats[..i])
  }

  predicate IsBuiltinWithId(d: FeatureDesc, b: int) {
    d.isBuiltin && d.builtin == b
  }

  /** What every descriptor of a set satisfies, given the set's bitmap. */
  ghost predicate DescOk(d: FeatureDesc, bitmap: set<nat>) {
    && 0 < d.size < 0x1_0000 && d.size % 8 == 0
    && |d.name| < PAGE_FEATURE_NAME_LEN && '\0' !in d.name
    && (d.isBuiltin ==> 0 <= d.builtin < PF_MAX_FEATURE && d.name == BuiltinName(d.builtin) && d.builtin in bitmap)
    && (!d.isBuiltin ==> d.builtin == -1 && UserName(d.name))
  }

  ghost predicate BuiltinsDistinct(feats: seq<FeatureDesc>) {
    forall i, j :: 0 <= i < j < |feats| && feats[i].isBuiltin && feats[j].isBuiltin ==>
      feats[i].builtin != feats[j].builtin
  }

  /** The invariant every operation on a feature set keeps. */
  ghost predicate WellFormed(s: FeatureSetState) {
    && |s.feats| <= s.featCapacity
    && Packed(s.feats)
    && SumSizes(s.feats) == s.bytesUsed
    && (forall d :: d in s.feats ==> DescOk(d, s.bitmap))
    && BuiltinsDistinct(s.feats)
  }

  /** A set as `NewPageFeatureSet` creates it. */
  function NewState(bytesCapacity: uint16, maxFeatures: uint16): (s: FeatureSetState)
    ensures WellFormed(s) && s.feats == [] && !s.locked && s.bitmap == {}
  {
    FeatureSetState({}, bytesCapacity, 0, maxFeatures, false, [])
  }

  // ---------------------------------------------------------------------
  // Adding a feature
  // ---------------------------------------------------------------------

  datatype AddOutcome = AddOutcome(ok: bool, state: FeatureSetState)

  /**
   * `PageFeatureSetAddFeatureByName`, check by check in the order the code
   * makes them.  The byte check uses the size after rounding but before a
   * built-in's default is substituted, and a built-in name sets its bitmap
   * bit before a zero size is rejected.
   */
  function AddSpec(s: FeatureSetState, name: string, size: uint16): AddOutcome
  {
    if |s.feats| >= s.featCapacity then AddOutcome(false, s)
    else
      var rsize := RoundUp8(size);
      if rsize > s.bytesManaged - s.bytesUsed then AddOutcome(false, s)
      else if NameIndex(s.feats, name).Some? then AddOutcome(false, s)
      else
        var b := BuiltinIndex(name);
        if b.Some? && s.locked then AddOutcome(false, s)
        else
          var bitmap := if b.Some? then s.bitmap + {b.value} else s.bitmap;
          var fsize := if b.Some? && rsize == 0 then BuiltinFeatureDescs[b.value].size else rsize;
          if fsize == 0 then AddOutcome(false, s.(bitmap := bitmap))
          else
            var d := FeatureDesc(StoredName(name), s.bytesUsed, fsize, b.Some?, if b.Some? then b.value else -1);
            AddOutcome(true, s.(bitmap := bitmap, bytesUsed := s.bytesUsed + fsize, feats := s.feats + [d]))
  }

  /** The number of bytes an accepted request takes. */
  function GrantedSize(name: string, size: uint16): uint16 {
    var b := BuiltinIndex(name);
    if b.Some? && RoundUp8(size) == 0 then BuiltinFeatureDescs[b.value].size else RoundUp8(size)
  }

  /**
   * An accepted request appends exactly one descriptor, at the end of the
   * bytes already used, and changes nothing else but the bitmap and the
   * byte count.
   */
  lemma AddAppendsOne(s: FeatureSetState, name: string, size: uint16)
    requires AddSpec(s, name, size).ok
    ensures var t := AddSpec(s, name, size).state;
      && |t.feats| == |s.feats| + 1
      && t.feats[..|s.feats|] == s.feats
      && t.feats[|s.feats|] == FeatureDesc(StoredName(name), s.bytesUsed, GrantedSize(name, size),
                                           IsBuiltinName(name), if IsBuiltinName(name) then BuiltinIndex(name).value else -1)
      && t.bytesUsed == s.bytesUsed + GrantedSize(name, size)
      && t.bytesManaged == s.bytesManaged && t.featCapacity == s.featCapacity && t.locked == s.locked
      && (IsBuiltinName(name) ==> t.bitmap == s.bitmap + {BuiltinIndex(name).value})
      && (!IsBuiltinName(name) ==> t.bitmap == s.bitmap)
  {
    var t := AddSpec(s, name, size).state;
    assert t.feats[..|s.feats|] == s.feats;
  }

  /**
   * A request is refused exactly when the set is full, the rounded size does
   * not fit, the name is already stored, a built-in is asked of a locked
   * set, or the granted size is zero; a refusal keeps the descriptors and
   * the byte count, and changes the bitmap only on the zero-size path.
   */
  lemma AddRefusal(s: FeatureSetState, name: string, size: uint16)
    ensures !AddSpec(s, name, size).ok <==>
      || |s.feats| >= s.featCapacity
      || RoundUp8(size) > s.bytesManaged - s.bytesUsed
      || NameIndex(s.feats, name).Some?
      || (IsBuiltinName(name) && s.locked)
      || GrantedSize(name, size) == 0
    ensures var t := AddSpec(s, name, size).state;
      !AddSpec(s, name, size).ok ==>
        && t.feats == s.feats && t.bytesUsed == s.bytesUsed && t.locked == s.locked
        && (t.bitmap != s.bitmap ==> GrantedSize(name, size) == 0 && IsBuiltinName(name))
  {
  }

  lemma PrefixSumStep(feats: seq<FeatureDesc>, i: nat)
    requires i < |feats|
    ensures SumSizes(feats[..i + 1]) == SumSizes(feats[..i]) + feats[i].size
  {
    assert feats[..i + 1][..i] == feats[..i];
  }

  /** Sums of longer prefixes are not smaller when no size is negative. */
  lemma {:induction false} PrefixSumMonotone(feats: seq<FeatureDesc>, i: nat, j: nat)
    requires i <= j <= |feats|
    requires forall k :: 0 <= k < |feats| ==> feats[k].size >= 0
    ensures SumSizes(feats[..i]) <= SumSizes(feats[..j])
    decreases j - i
  {
    if i < j {
      PrefixSumStep(feats, j - 1);
      PrefixSumMonotone(feats, i, j - 1);
    }
  }

  /** A newly stored descriptor satisfies `DescOk` for the new bitmap. */
  lemma NewDescOk(s: FeatureSetState, name: string, size: uint16)
    requires AddSpec(s, name, size).ok
    requires '\0' !in name
    ensures DescOk(AddSpec(s, name, size).state.feats[|s.feats|], AddSpec(s, name, size).state.bitmap)
  {
    var t := AddSpec(s, name, size).state;
    var d := t.feats[|s.feats|];
    RoundUp8Rounds(size);
    assert d.name == StoredName(name);
    if IsBuiltinName(name) {
      BuiltinNameLength(name);
      assert d.name == name;
      var b := BuiltinIndex(name).value;
      assert t.bitmap == s.bitmap + {b};
    } else if |name| < PAGE_FEATURE_NAME_LEN {
      assert d.name == name;
    } else {
      assert |d.name| == 20;
      if IsBuiltinName(d.name) {
        BuiltinNameLength(d.name);
      }
    }
    assert '\0' !in d.name by {
      assert d.name <= name;
    }
  }

  /** A refused request keeps the set well formed: at most a bit is added. */
  lemma RefusedAddPreservesWellFormed(s: FeatureSetState, name: string, size: uint16)
    requires WellFormed(s)
    requires !AddSpec(s, name, size).ok
    ensures WellFormed(AddSpec(s, name, size).state)
  {
    var t := AddSpec(s, name, size).state;
    if t.bitmap != s.bitmap {
      var i := BuiltinIndex(name).value;
      assert t == s.(bitmap := s.bitmap + {i});
      forall d | d in t.feats ensures DescOk(d, t.bitmap) {
        assert DescOk(d, s.bitmap);
      }
    }
  }

  /** An accepted request only adds bits, so the old descriptors stay valid. */
  lemma AcceptedAddKeepsDescs(s: FeatureSetState, name: string, size: uint16)
    requires WellFormed(s)
    requires AddSpec(s, name, size).ok
    ensures forall e :: e in s.feats ==> DescOk(e, AddSpec(s, name, size).state.bitmap)
  {
    var t := AddSpec(s, name, size).state;
    assert s.bitmap <= t.bitmap;
    forall e | e in s.feats ensures DescOk(e, t.bitmap) {
      assert DescOk(e, s.bitmap);
    }
  }

  /** An accepted built-in is new to the set, so built-in identifiers stay distinct. */
  lemma AcceptedAddKeepsBuiltinsDistinct(s: FeatureSetState, name: string, size: uint16)
    requires WellFormed(s)
    requires AddSpec(s, name, size).ok
    ensures BuiltinsDistinct(AddSpec(s, name, size).state.feats)
  {
    var t := AddSpec(s, name, size).state;
    var n := |s.feats|;
    AddAppendsOne(s, name, size);
    var d := t.feats[n];
    assert t.feats == s.feats + [d];
    forall i, j | 0 <= i < j < |t.feats| && t.feats[i].isBuiltin && t.feats[j].isBuiltin
      ensures t.feats[i].builtin != t.feats[j].builtin
    {
      if j == n {
        var e := t.feats[i];
        assert e == s.feats[i];
        assert DescOk(e, s.bitmap);
        assert e.name == BuiltinName(e.builtin) && name == BuiltinName(d.builtin);
        assert s.feats[i].name != name;
      }
    }
  }

  /** An accepted request keeps the set well formed. */
  lemma AcceptedAddPreservesWellFormed(s: FeatureSetState, name: string, size: uint16)
    requires WellFormed(s)
    requires '\0' !in name
    requires AddSpec(s, name, size).ok
    ensures WellFormed(AddSpec(s, name, size).state)
  {
    var t := AddSpec(s, name, size).state;
    var n := |s.feats|;
    AddAppendsOne(s, name, size);
    var d := t.feats[n];
    assert t.feats == s.feats + [d];
    AcceptedAddPacked(s.feats, d);
    NewDescOk(s, name, size);
    AcceptedAddKeepsDescs(s, name, size);
    AcceptedAddKeepsBuiltinsDistinct(s, name, size);
    assert forall e :: e in t.feats ==> e in s.feats || e == d;
  }

  lemma AcceptedAddPacked(feats: seq<FeatureDesc>, d: FeatureDesc)
    requires Packed(feats)
    requires d.offset == SumSizes(feats)
    ensures Packed(feats + [d])
    ensures SumSizes(feats + [d]) == SumSizes(feats) + d.size
  {
    var t := feats + [d];
    assert t[..|feats|] == feats;
    forall i | 0 <= i < |t| ensures t[i].offset == SumSizes(t[..i]) {
      if i < |feats| {
        assert t[..i] == feats[..i];
      }
    }
  }

  /** Adding a feature, accepted or refused, keeps the set well formed. */
  lemma AddPreservesWellFormed(s: FeatureSetState, name: string, size: uint16)
    requires WellFormed(s)
    requires '\0' !in name
    ensures WellFormed(AddSpec(s, name, size).state)
  {
    if AddSpec(s, name, size).ok {
      AcceptedAddPreservesWellFormed(s, name, size);
    } else {
      RefusedAddPreservesWellFormed(s, name, size);
    }
  }

  /**
   * A request whose rounded size is not zero never takes the set past the
   * bytes it manages.
   */
  lemma AddStaysWithinCapacity(s: FeatureSetState, name: string, size: uint16)
    requires s.bytesUsed <= s.bytesManaged
    requires RoundUp8(size) != 0
    ensures AddSpec(s, name, size).state.bytesUsed <= s.bytesManaged
  {
  }

  /**
   * The byte check is made before a built-in's default width is substituted,
   * so asking for a built-in with size 0 can use more bytes than the set
   * manages: a 16-byte set accepts the 64-byte extended checksums.
   */
  lemma DefaultSizeSkipsCapacityCheck()
    ensures var r := AddSpec(NewState(16, 4), "extended_checksums", 0);
      r.ok && r.state.bytesUsed == 64 > r.state.bytesManaged
  {
    assert BuiltinIndex("extended_checksums") == Some(PF_EXT_CHECKSUMS) by {
      BuiltinIndexOfName(PF_EXT_CHECKSUMS);
    }
    assert RoundUp8(0) == 0;
  }

  /**
   * A locked set refuses every built-in feature, but still takes a new
   * user-defined feature that fits.
   */
  lemma LockedSetRule(s: FeatureSetState, name: string, size: uint16)
    requires s.locked
    ensures IsBuiltinName(name) ==> !AddSpec(s, name, size).ok
    ensures !IsBuiltinName(name) && |s.feats| < s.featCapacity && NameIndex(s.feats, name).None?
            && 0 < RoundUp8(size) <= s.bytesManaged - s.bytesUsed
            ==> AddSpec(s, name, size).ok
  {
  }

  /**
   * Once a name of at most `PAGE_FEATURE_NAME_LEN - 1` characters has been
   * added, adding it again is refused, whatever the size.
   */
  lemma ReAddRefused(s: FeatureSetState, name: string, size: uint16, size2: uint16)
    requires AddSpec(s, name, size).ok
    requires |name| < PAGE_FEATURE_NAME_LEN
    ensures !AddSpec(AddSpec(s, name, size).state, name, size2).ok
  {
    var t := AddSpec(s, name, size).state;
    assert t.feats[|s.feats|].name == name;
  }

  /**
   * The duplicate check compares the full requested name with the stored,
   * truncated names, so a longer name is accepted a second time.
   */
  lemma LongNameAddedTwice()
    ensures var name := "abcdefghijklmnopqrstu";
      var t := AddSpec(NewState(64, 4), name, 8).state;
      && AddSpec(NewState(64, 4), name, 8).ok
      && AddSpec(t, name, 8).ok
      && |AddSpec(t, name, 8).state.feats| == 2
  {
    var name := "abcdefghijklmnopqrstu";
    assert BuiltinName(0) != name && BuiltinName(1) != name;
    assert BuiltinIndex(name).None?;
    var t := AddSpec(NewState(64, 4), name, 8).state;
    assert t.feats[0].name == name[..20] != name;
  }

  /**
   * A refused zero-size request for a built-in still leaves its bit set:
   * the bitmap alone does not prove that a feature has a slot.
   */
  lemma ZeroSizeBuiltinSetsBit()
    ensures var r := AddSpec(NewState(64, 4), "encryption_tags", 0);
      !r.ok && r.state.feats == [] && PF_ENCRYPTION_TAG in r.state.bitmap
  {
    BuiltinIndexOfName(PF_ENCRYPTION_TAG);
    assert RoundUp8(0) == 0;
  }

  /** In a well-formed set every built-in that has a slot has its bit set. */
  lemma SlotImpliesBit(s: FeatureSetState, feature: nat)
    requires WellFormed(s)
    requires feature < PF_MAX_FEATURE
    requires exists i :: 0 <= i < |s.feats| && IsBuiltinWithId(s.feats[i], feature)
    ensures feature in s.bitmap
  {
    var i :| 0 <= i < |s.feats| && IsBuiltinWithId(s.feats[i], feature);
    assert DescOk(s.feats[i], s.bitmap);
  }

  /** Slots of a well-formed set do not overlap: an earlier one ends before a later one starts. */
  lemma SlotsDisjoint(s: FeatureSetState, i: nat, j: nat)
    requires WellFormed(s)
    requires i < j < |s.feats|
    ensures s.feats[i].offset + s.feats[i].size <= s.feats[j].offset
    ensures s.feats[j].offset + s.feats[j].size <= s.bytesUsed
  {
    var f := s.feats;
    assert forall k :: 0 <= k < |f| ==> f[k].size >= 0 by {
      forall k | 0 <= k < |f| ensures f[k].size >= 0 {
        assert DescOk(f[k], s.bitmap);
      }
    }
    assert f[i].offset == SumSizes(f[..i]) && f[j].offset == SumSizes(f[..j]);
    SlotBefore(f, i, j);
    SlotWithin(f, j);
  }

  lemma SlotBefore(f: seq<FeatureDesc>, i: nat, j: nat)
    requires forall k :: 0 <= k < |f| ==> f[k].size >= 0
    requires i < j < |f|
    requires f[i].offset == SumSizes(f[..i]) && f[j].offset == SumSizes(f[..j])
    ensures f[i].offset + f[i].size <= f[j].offset
  {
    PrefixSumStep(f, i);
    PrefixSumMonotone(f, i + 1, j);
  }

  lemma SlotWithin(f: seq<FeatureDesc>, j: nat)
    requires forall k :: 0 <= k < |f| ==> f[k].size >= 0
    requires j < |f|
    requires f[j].offset == SumSizes(f[..j])
    ensures f[j].offset + f[j].size <= SumSizes(f)
  {
    PrefixSumStep(f, j);
    PrefixSumMonotone(f, j + 1, |f|);
    assert f[..|f|] == f;
  }

  // ---------------------------------------------------------------------
  // Reordering: built-ins first, by identifier, then user features
  // ---------------------------------------------------------------------

  /** Index of the first built-in descriptor with identifier `b`, searching from `j`. */
  function FirstBuiltin(feats: seq<FeatureDesc>, b: int, j: nat): (r: Option<nat>)
    requires j <= |feats|
    decreases |feats| - j
    ensures r.Some? ==> && j <= r.value < |feats| && IsBuiltinWithId(feats[r.value], b)
                        && forall k :: j <= k < r.value ==> !IsBuiltinWithId(feats[k], b)
    ensures r.None? ==> forall k :: j <= k < |feats| ==> !IsBuiltinWithId(feats[k], b)
  {
    if j == |feats| then None
    else if IsBuiltinWithId(feats[j], b) then Some(j)
    else FirstBuiltin(feats, b, j + 1)
  }

  /** The user-defined descriptors, in their original order. */
  function Users(feats: seq<FeatureDesc>): seq<FeatureDesc>
  {
    if feats == [] then []
    else Users(feats[..|feats| - 1]) + (if feats[|feats| - 1].isBuiltin then [] else [feats[|feats| - 1]])
  }

  /** The built-in descriptors, in their original order. */
  function Builtins(feats: seq<FeatureDesc>): seq<FeatureDesc>
  {
    if feats == [] then []
    else Builtins(feats[..|feats| - 1]) + (if feats[|feats| - 1].isBuiltin then [feats[|feats| - 1]] else [])
  }

  /** The built-in descriptors with identifier `b`. */
  function WithId(feats: seq<FeatureDesc>, b: int): seq<FeatureDesc>
  {
    if feats == [] then []
    else WithId(feats[..|feats| - 1], b) + (if IsBuiltinWithId(feats[|feats| - 1], b) then [feats[|feats| - 1]] else [])
  }

  /** The slot the first pass gives built-in `i`: its first descriptor, if its bit is set. */
  function PickBuiltin(feats: seq<FeatureDesc>, bitmap: set<nat>, i: nat): seq<FeatureDesc>
  {
    if i in bitmap && FirstBuiltin(feats, i, 0).Some? then [feats[FirstBuiltin(feats, i, 0).value]] else []
  }

  /** The first pass of the reordering over bits `0 .. n - 1`. */
  function PickBuiltins(feats: seq<FeatureDesc>, bitmap: set<nat>, n: nat): seq<FeatureDesc>
  {
    if n == 0 then [] else PickBuiltins(feats, bitmap, n - 1) + PickBuiltin(feats, bitmap, n - 1)
  }

  /** Both passes: the second runs only when the first has not placed every descriptor. */
  function OptimizedOrder(feats: seq<FeatureDesc>, bitmap: set<nat>): seq<FeatureDesc>
  {
    var b := PickBuiltins(feats, bitmap, PF_MAX_FEATURE);
    if |b| < |feats| then b + Users(feats) else b
  }

  /** The same descriptors packed back to back from offset 0. */
  function Relayout(descs: seq<FeatureDesc>): (r: seq<FeatureDesc>)
    ensures |r| == |descs|
  {
    if descs == [] then []
    else
      var init := descs[..|descs| - 1];
      Relayout(init) + [descs[|descs| - 1].(offset := SumSizes(init))]
  }

  /**
   * `OptimizePageFeatureSet`: a locked set, a set without built-ins and a
   * set of at most one feature are left alone; otherwise the built-ins move
   * to the front in identifier order, the user features follow in their
   * order, and the offsets are recomputed.
   */
  function OptimizeSpec(s: FeatureSetState): FeatureSetState
  {
    if s.locked || s.bitmap == {} || |s.feats| <= 1 then s
    else s.(feats := Relayout(OptimizedOrder(s.feats, s.bitmap)))
  }

  lemma {:induction false} SumSizesSameSizes(a: seq<FeatureDesc>, b: seq<FeatureDesc>)
    requires |a| == |b|
    requires forall i :: 0 <= i < |a| ==> a[i].size == b[i].size
    ensures SumSizes(a) == SumSizes(b)
    decreases |a|
  {
    if a != [] {
      SumSizesSameSizes(a[..|a| - 1], b[..|b| - 1]);
    }
  }

  lemma {:induction false} RelayoutIndex(descs: seq<FeatureDesc>, i: nat)
    requires i < |descs|
    ensures Relayout(descs)[i] == descs[i].(offset := SumSizes(descs[..i]))
    decreases |descs|
  {
    var n := |descs|;
    var init := descs[..n - 1];
    assert Relayout(descs) == Relayout(init) + [descs[n - 1].(offset := SumSizes(init))];
    if i < n - 1 {
      RelayoutIndex(init, i);
      assert init[..i] == descs[..i];
    } else {
      assert descs[..i] == init;
    }
  }

  /** Relayout changes offsets only, keeps the byte total and packs the descriptors. */
  lemma RelayoutPacks(descs: seq<FeatureDesc>)
    ensures forall i :: 0 <= i < |descs| ==> Relayout(descs)[i] == descs[i].(offset := SumSizes(descs[..i]))
    ensures SumSizes(Relayout(descs)) == SumSizes(descs)
    ensures Packed(Relayout(descs))
  {
    var r := Relayout(descs);
    forall i | 0 <= i < |descs| ensures r[i] == descs[i].(offset := SumSizes(descs[..i])) {
      RelayoutIndex(descs, i);
    }
    SumSizesSameSizes(r, descs);
    forall i | 0 <= i < |r| ensures r[i].offset == SumSizes(r[..i]) {
      SumSizesSameSizes(r[..i], descs[..i]);
    }
  }

  lemma {:induction false} PartitionByKind(feats: seq<FeatureDesc>)
    ensures multiset(feats) == multiset(Builtins(feats)) + multiset(Users(feats))
    decreases |feats|
  {
    if feats != [] {
      var init := feats[..|feats| - 1];
      PartitionByKind(init);
      assert feats == init + [feats[|feats| - 1]];
    }
  }

  lemma {:induction false} BuiltinsById(feats: seq<FeatureDesc>)
    requires forall k :: 0 <= k < |feats| && feats[k].isBuiltin ==> 0 <= feats[k].builtin < PF_MAX_FEATURE
    ensures multiset(Builtins(feats)) == multiset(WithId(feats, 0)) + multiset(WithId(feats, 1))
    decreases |feats|
  {
    if feats != [] {
      var init := feats[..|feats| - 1];
      BuiltinsById(init);
    }
  }

  lemma {:induction false} WithIdNone(feats: seq<FeatureDesc>, b: int)
    requires forall k :: 0 <= k < |feats| ==> !IsBuiltinWithId(feats[k], b)
    ensures WithId(feats, b) == []
    decreases |feats|
  {
    if feats != [] {
      WithIdNone(feats[..|feats| - 1], b);
    }
  }

  lemma {:induction false} WithIdUnique(feats: seq<FeatureDesc>, b: int, k: nat)
    requires BuiltinsDistinct(feats)
    requires k < |feats| && IsBuiltinWithId(feats[k], b)
    ensures WithId(feats, b) == [feats[k]]
    decreases |feats|
  {
    var n := |feats|;
    var init := feats[..n - 1];
    if k == n - 1 {
      WithIdNone(init, b);
    } else {
      assert !IsBuiltinWithId(feats[n - 1], b);
      WithIdUnique(init, b, k);
    }
  }

  /** In a well-formed set the first pass finds every built-in descriptor with identifier `i`. */
  lemma PickBuiltinIsWithId(s: FeatureSetState, i: nat)
    requires WellFormed(s)
    ensures PickBuiltin(s.feats, s.bitmap, i) == WithId(s.feats, i)
  {
    if i !in s.bitmap {
      forall k | 0 <= k < |s.feats| ensures !IsBuiltinWithId(s.feats[k], i) {
        assert DescOk(s.feats[k], s.bitmap);
      }
      WithIdNone(s.feats, i);
    } else {
      if FirstBuiltin(s.feats, i, 0).Some? {
        WithIdUnique(s.feats, i, FirstBuiltin(s.feats, i, 0).value);
      } else {
        WithIdNone(s.feats, i);
      }
    }
  }

  /** The first pass yields built-ins only, with strictly increasing identifiers below `n`. */
  lemma {:induction false} PickBuiltinsAscending(feats: seq<FeatureDesc>, bitmap: set<nat>, n: nat)
    ensures forall a :: 0 <= a < |PickBuiltins(feats, bitmap, n)| ==>
      PickBuiltins(feats, bitmap, n)[a].isBuiltin && 0 <= PickBuiltins(feats, bitmap, n)[a].builtin < n
    ensures forall a, c :: 0 <= a < c < |PickBuiltins(feats, bitmap, n)| ==>
      PickBuiltins(feats, bitmap, n)[a].builtin < PickBuiltins(feats, bitmap, n)[c].builtin
    decreases n
  {
    if n > 0 {
      var p' := PickBuiltins(feats, bitmap, n - 1);
      var q := PickBuiltin(feats, bitmap, n - 1);
      var p := p' + q;
      PickBuiltinsAscending(feats, bitmap, n - 1);
      assert |q| <= 1;
      assert forall a :: 0 <= a < |q| ==> q[a].isBuiltin && q[a].builtin == n - 1;
      forall a | 0 <= a < |p| ensures p[a].isBuiltin && 0 <= p[a].builtin < n {
        if a >= |p'| {
          assert p[a] == q[a - |p'|];
        } else {
          assert p[a] == p'[a];
        }
      }
      forall a, c | 0 <= a < c < |p| ensures p[a].builtin < p[c].builtin {
        if c >= |p'| {
          assert c == |p'|;
          assert p[a] == p'[a] && p[c] == q[0];
        } else {
          assert p[a] == p'[a] && p[c] == p'[c];
        }
      }
    }
  }

  /** In a well-formed set the first pass collects exactly the built-in descriptors. */
  lemma PickBuiltinsCollects(s: FeatureSetState)
    requires WellFormed(s)
    ensures multiset(PickBuiltins(s.feats, s.bitmap, PF_MAX_FEATURE)) == multiset(Builtins(s.feats))
  {
    var f := s.feats;
    var p := PickBuiltins(f, s.bitmap, PF_MAX_FEATURE);
    assert PickBuiltins(f, s.bitmap, 1) == PickBuiltin(f, s.bitmap, 0);
    assert p == PickBuiltin(f, s.bitmap, 0) + PickBuiltin(f, s.bitmap, 1);
    PickBuiltinIsWithId(s, 0);
    PickBuiltinIsWithId(s, 1);
    forall k | 0 <= k < |f| && f[k].isBuiltin ensures 0 <= f[k].builtin < PF_MAX_FEATURE {
      assert DescOk(f[k], s.bitmap);
    }
    BuiltinsById(f);
  }

  /** For a well-formed set both passes place every descriptor exactly once. */
  lemma OptimizedOrderPermutes(s: FeatureSetState)
    requires WellFormed(s)
    ensures OptimizedOrder(s.feats, s.bitmap) ==
            PickBuiltins(s.feats, s.bitmap, PF_MAX_FEATURE) + Users(s.feats)
    ensures multiset(OptimizedOrder(s.feats, s.bitmap)) == multiset(s.feats)
  {
    var f := s.feats;
    var p := PickBuiltins(f, s.bitmap, PF_MAX_FEATURE);
    PickBuiltinsCollects(s);
    PartitionByKind(f);
    if |p| >= |f| {
      assert |Users(f)| == 0 by {
        assert |multiset(f)| == |multiset(Builtins(f))| + |multiset(Users(f))|;
      }
      assert p + Users(f) == p;
    }
  }

  /**
   * The reordered sequence starts with the built-ins in increasing
   * identifier order and ends with the user features in their original
   * order.
   */
  lemma OptimizedOrderShape(s: FeatureSetState)
    requires WellFormed(s)
    ensures var o := OptimizedOrder(s.feats, s.bitmap);
      var k := |o| - |Users(s.feats)|;
      && 0 <= k <= |o|
      && (forall a :: 0 <= a < k ==> o[a].isBuiltin)
      && (forall a, c :: 0 <= a < c < k ==> o[a].builtin < o[c].builtin)
      && o[k..] == Users(s.feats)
  {
    OptimizedOrderPermutes(s);
    PickBuiltinsAscending(s.feats, s.bitmap, PF_MAX_FEATURE);
    var o := OptimizedOrder(s.feats, s.bitmap);
    var p := PickBuiltins(s.feats, s.bitmap, PF_MAX_FEATURE);
    assert o[|p|..] == Users(s.feats);
  }

  lemma {:induction false} UsersAreUsers(feats: seq<FeatureDesc>)
    ensures forall d :: d in Users(feats) ==> d in feats && !d.isBuiltin
    decreases |feats|
  {
    if feats != [] {
      UsersAreUsers(feats[..|feats| - 1]);
    }
  }

  /**
   * Reordering keeps a well-formed set well formed, with the same number of
   * features and the same byte total, each feature keeping everything but
   * its offset.
   */
  lemma OptimizePreservesWellFormed(s: FeatureSetState)
    requires WellFormed(s)
    ensures var o := OptimizeSpec(s);
      && WellFormed(o)
      && |o.feats| == |s.feats| && o.bytesUsed == s.bytesUsed
      && o.bitmap == s.bitmap && o.locked == s.locked
      && multiset(OptimizedOrder(s.feats, s.bitmap)) == multiset(s.feats)
      && (o != s ==> o.feats == Relayout(OptimizedOrder(s.feats, s.bitmap)))
  {
    var order := OptimizedOrder(s.feats, s.bitmap);
    var k := |PickBuiltins(s.feats, s.bitmap, PF_MAX_FEATURE)|;
    OrderParts(s, order, k);
    if OptimizeSpec(s) != s {
      SumSizesPermutation(order, s.feats);
      assert |order| == |multiset(order)| == |s.feats|;
      forall i, j | 0 <= i < j < |order| && order[i].isBuiltin && order[j].isBuiltin
        ensures order[i].builtin != order[j].builtin
      {
      }
      RelayoutKeepsWellFormed(s, order);
    }
  }

  lemma RelayoutKeepsDescs(bitmap: set<nat>, order: seq<FeatureDesc>)
    requires forall a :: 0 <= a < |order| ==> DescOk(order[a], bitmap)
    ensures forall e :: e in Relayout(order) ==> DescOk(e, bitmap)
  {
    var r := Relayout(order);
    RelayoutPacks(order);
    forall e | e in r ensures DescOk(e, bitmap) {
      var i :| 0 <= i < |r| && r[i] == e;
      assert DescOk(order[i], bitmap);
    }
  }

  lemma RelayoutKeepsBuiltinsDistinct(order: seq<FeatureDesc>)
    requires BuiltinsDistinct(order)
    ensures BuiltinsDistinct(Relayout(order))
  {
    var r := Relayout(order);
    RelayoutPacks(order);
    forall i, j | 0 <= i < j < |r| && r[i].isBuiltin && r[j].isBuiltin
      ensures r[i].builtin != r[j].builtin
    {
      assert r[i].builtin == order[i].builtin && r[j].builtin == order[j].builtin;
    }
  }

  /** Packing a sequence of valid, distinct descriptors gives a well-formed set. */
  lemma RelayoutKeepsWellFormed(s: FeatureSetState, order: seq<FeatureDesc>)
    requires |order| <= s.featCapacity
    requires SumSizes(order) == s.bytesUsed
    requires forall a :: 0 <= a < |order| ==> DescOk(order[a], s.bitmap)
    requires BuiltinsDistinct(order)
    ensures WellFormed(s.(feats := Relayout(order)))
  {
    RelayoutPacks(order);
    RelayoutKeepsDescs(s.bitmap, order);
    RelayoutKeepsBuiltinsDistinct(order);
  }

  /** No two descriptors share a name. */
  ghost predicate DistinctNames(feats: seq<FeatureDesc>) {
    forall i, j :: 0 <= i < j < |feats| ==> feats[i].name != feats[j].name
  }

  lemma {:induction false} UsersKeepDistinctNames(feats: seq<FeatureDesc>)
    requires DistinctNames(feats)
    ensures DistinctNames(Users(feats))
    decreases |feats|
  {
    if feats != [] {
      var init := feats[..|feats| - 1];
      UsersKeepDistinctNames(init);
      UsersAreUsers(init);
      var x := feats[|feats| - 1];
      forall d | d in Users(init) ensures d.name != x.name {
        var k :| 0 <= k < |init| && init[k] == d;
      }
    }
  }

  lemma OrderDescs(s: FeatureSetState, order: seq<FeatureDesc>)
    requires WellFormed(s)
    requires order == OptimizedOrder(s.feats, s.bitmap)
    ensures multiset(order) == multiset(s.feats)
    ensures forall a :: 0 <= a < |order| ==> DescOk(order[a], s.bitmap)
  {
    OptimizedOrderPermutes(s);
    forall a | 0 <= a < |order| ensures DescOk(order[a], s.bitmap) {
      assert order[a] in multiset(s.feats);
    }
  }

  lemma OrderSplit(s: FeatureSetState, order: seq<FeatureDesc>, k: nat)
    requires WellFormed(s)
    requires order == OptimizedOrder(s.feats, s.bitmap)
    requires k == |PickBuiltins(s.feats, s.bitmap, PF_MAX_FEATURE)|
    ensures k <= |order|
    ensures order[..k] == PickBuiltins(s.feats, s.bitmap, PF_MAX_FEATURE)
    ensures order[k..] == Users(s.feats)
  {
    OptimizedOrderPermutes(s);
    var p := PickBuiltins(s.feats, s.bitmap, PF_MAX_FEATURE);
    assert order == p + Users(s.feats);
  }

  lemma OrderBuiltinPart(s: FeatureSetState, order: seq<FeatureDesc>, k: nat)
    requires WellFormed(s)
    requires order == OptimizedOrder(s.feats, s.bitmap)
    requires k == |PickBuiltins(s.feats, s.bitmap, PF_MAX_FEATURE)|
    ensures k <= |order|
    ensures forall a :: 0 <= a < k ==>
      order[a].isBuiltin && 0 <= order[a].builtin < PF_MAX_FEATURE && order[a].name == BuiltinName(order[a].builtin)
    ensures forall a, c :: 0 <= a < c < k ==> order[a].builtin < order[c].builtin
  {
    OrderSplit(s, order, k);
    OrderDescs(s, order);
    var p := PickBuiltins(s.feats, s.bitmap, PF_MAX_FEATURE);
    PickBuiltinsAscending(s.feats, s.bitmap, PF_MAX_FEATURE);
    forall a | 0 <= a < k ensures order[a] == p[a] {
      assert order[a] == order[..k][a];
    }
  }

  lemma OrderUserPart(s: FeatureSetState, order: seq<FeatureDesc>, k: nat)
    requires WellFormed(s)
    requires order == OptimizedOrder(s.feats, s.bitmap)
    requires k == |PickBuiltins(s.feats, s.bitmap, PF_MAX_FEATURE)|
    ensures k <= |order|
    ensures forall a :: k <= a < |order| ==> !order[a].isBuiltin && UserName(order[a].name)
  {
    OrderSplit(s, order, k);
    OrderDescs(s, order);
    UsersAreUsers(s.feats);
    forall a | k <= a < |order| ensures !order[a].isBuiltin {
      assert order[a] == Users(s.feats)[a - k];
    }
  }

  /** What the reordered sequence's two parts are made of, in a well-formed set. */
  lemma OrderParts(s: FeatureSetState, order: seq<FeatureDesc>, k: nat)
    requires WellFormed(s)
    requires order == OptimizedOrder(s.feats, s.bitmap)
    requires k == |PickBuiltins(s.feats, s.bitmap, PF_MAX_FEATURE)|
    ensures k <= |order|
    ensures order[k..] == Users(s.feats)
    ensures multiset(order) == multiset(s.feats)
    ensures forall a :: 0 <= a < |order| ==> DescOk(order[a], s.bitmap)
    ensures forall a :: 0 <= a < k ==>
      order[a].isBuiltin && 0 <= order[a].builtin < PF_MAX_FEATURE && order[a].name == BuiltinName(order[a].builtin)
    ensures forall a, c :: 0 <= a < c < k ==> order[a].builtin < order[c].builtin
    ensures forall a :: k <= a < |order| ==> !order[a].isBuiltin && UserName(order[a].name)
  {
    OrderSplit(s, order, k);
    OrderDescs(s, order);
    OrderBuiltinPart(s, order, k);
    OrderUserPart(s, order, k);
  }

  lemma OrderNamesDistinct(s: FeatureSetState, order: seq<FeatureDesc>, k: nat)
    requires WellFormed(s)
    requires DistinctNames(s.feats)
    requires order == OptimizedOrder(s.feats, s.bitmap)
    requires k == |PickBuiltins(s.feats, s.bitmap, PF_MAX_FEATURE)|
    ensures DistinctNames(order)
  {
    OrderParts(s, order, k);
    var users := Users(s.feats);
    UsersKeepDistinctNames(s.feats);
    assert BuiltinName(0) != BuiltinName(1);
    forall i, j | 0 <= i < j < |order| ensures order[i].name != order[j].name {
      if i >= k {
        assert order[i] == users[i - k] && order[j] == users[j - k];
      } else if j < k {
        assert order[i].builtin == 0 && order[j].builtin == 1;
      } else {
        assert UserName(order[j].name);
      }
    }
  }

  lemma RelayoutKeepsNames(order: seq<FeatureDesc>)
    requires DistinctNames(order)
    ensures DistinctNames(Relayout(order))
  {
    RelayoutPacks(order);
    var r := Relayout(order);
    forall i, j | 0 <= i < j < |r| ensures r[i].name != r[j].name {
      assert r[i].name == order[i].name && r[j].name == order[j].name;
    }
  }

  /** Reordering a set whose names are distinct keeps them distinct. */
  lemma OptimizeKeepsNamesDistinct(s: FeatureSetState)
    requires WellFormed(s)
    requires DistinctNames(s.feats)
    ensures DistinctNames(OptimizeSpec(s).feats)
  {
    if OptimizeSpec(s) != s {
      var order := OptimizedOrder(s.feats, s.bitmap);
      OrderNamesDistinct(s, order, |PickBuiltins(s.feats, s.bitmap, PF_MAX_FEATURE)|);
      RelayoutKeepsNames(order);
    }
  }
}
