/**
 * The page-feature registry of `src/common/pagefeat.c` as the C code runs
 * it: a `PageFeatureSet` object whose descriptor array, bitmap, counters and
 * lock are updated in place.  Every method is proved against the value-level
 * definitions of `FeatureLayout` and `Catalog`, where the properties of the
 * registry are proved once.
 */
module PageFeat {
  import opened Common
  import opened FeatureLayout
  import opened CatalogText
  import opened Catalog

  // ---------------------------------------------------------------------
  // Lookups on descriptor sequences
  // ---------------------------------------------------------------------

  /**
   * Where a slot starts, counted from the start of the page: stored offsets
   * count back from the end of the block.  The C computes it in `int` and
   * returns it as `uint16`.
   */
  function OffsetFromStart(d: FeatureDesc): uint16 {
    ((BLCKSZ - d.offset - d.size) % 0x1_0000) as uint16
  }

  /** `PageFeatureSetNamedFeatureOffset` on the descriptors: 0 when no name matches. */
  function NamedOffsetSpec(feats: seq<FeatureDesc>, name: string): uint16 {
    match NameIndex(feats, name)
    case None => 0
    case Some(k) => OffsetFromStart(feats[k])
  }

  /** `PageFeatureSetNamedFeatureSize` on the descriptors: 0 when no name matches. */
  function NamedSizeSpec(feats: seq<FeatureDesc>, name: string): uint16 {
    match NameIndex(feats, name)
    case None => 0
    case Some(k) => (feats[k].size % 0x1_0000) as uint16
  }

  /**
   * In a well-formed set that fits in a block, the slot a name lookup
   * returns is that feature's bytes, inside the trailer of used bytes at the
   * end of the block; an unknown name gives 0.
   */
  lemma NamedOffsetInTrailer(s: FeatureSetState, name: string)
    requires WellFormed(s) && s.bytesUsed <= BLCKSZ
    ensures NameIndex(s.feats, name).None? ==> NamedOffsetSpec(s.feats, name) == 0 && NamedSizeSpec(s.feats, name) == 0
    ensures NameIndex(s.feats, name).Some? ==>
      && NamedOffsetSpec(s.feats, name) as int == BLCKSZ - s.feats[NameIndex(s.feats, name).value].offset - s.feats[NameIndex(s.feats, name).value].size
      && NamedSizeSpec(s.feats, name) as int == s.feats[NameIndex(s.feats, name).value].size
      && BLCKSZ - s.bytesUsed <= NamedOffsetSpec(s.feats, name) as int
      && NamedOffsetSpec(s.feats, name) as int + NamedSizeSpec(s.feats, name) as int <= BLCKSZ
  {
    match NameIndex(s.feats, name)
    case None =>
    case Some(k) =>
      var d := s.feats[k];
      assert DescOk(d, s.bitmap);
      FeatureSlot(s, k);
  }

  /** Feature `k` occupies bytes `offset .. offset + size` of the used bytes. */
  lemma FeatureSlot(s: FeatureSetState, k: nat)
    requires WellFormed(s) && k < |s.feats|
    ensures 0 <= s.feats[k].offset && s.feats[k].offset + s.feats[k].size <= s.bytesUsed
  {
    if k + 1 < |s.feats| {
      SlotsDisjoint(s, k, k + 1);
      SlotsDisjoint(s, k, |s.feats| - 1);
    } else {
      var f := s.feats;
      PrefixSumStep(f, k);
      assert f[..k + 1] == f;
      assert DescOk(f[k], s.bitmap);
      NonNegativePrefix(f, k);
    }
    NonNegativePrefix(s.feats, k);
  }

  lemma NonNegativePrefix(f: seq<FeatureDesc>, k: nat)
    requires k <= |f|
    requires forall d :: d in f ==> d.size > 0
    ensures SumSizes(f[..k]) >= 0
  {
    forall j | 0 <= j < |f| ensures f[j].size >= 0 {
      assert f[j] in f;
    }
    PrefixSumMonotone(f, 0, k);
    assert f[..0] == [];
  }

  /** Two different names of a well-formed set never share a byte of the page. */
  lemma NamedSlotsDisjoint(s: FeatureSetState, a: string, b: string)
    requires WellFormed(s) && s.bytesUsed <= BLCKSZ
    requires NameIndex(s.feats, a).Some? && NameIndex(s.feats, b).Some? && a != b
    ensures var oa := NamedOffsetSpec(s.feats, a) as int;
            var ob := NamedOffsetSpec(s.feats, b) as int;
            oa + NamedSizeSpec(s.feats, a) as int <= ob || ob + NamedSizeSpec(s.feats, b) as int <= oa
  {
    var i := NameIndex(s.feats, a).value;
    var j := NameIndex(s.feats, b).value;
    NamedOffsetInTrailer(s, a);
    NamedOffsetInTrailer(s, b);
    if i < j {
      SlotsDisjoint(s, i, j);
    } else {
      assert i != j;
      SlotsDisjoint(s, j, i);
    }
  }

  // ---------------------------------------------------------------------
  // The feature set object
  // ---------------------------------------------------------------------

  /**
   * `PageFeatureSetData`: the set's name, its byte and descriptor
   * capacities, the built-in bitmap (as the set of its one bits), the bytes
   * and descriptors in use, and the lock.  `feats` is the descriptor array
   * allocated with the set, `featCapacity` entries long.
   */
  class PageFeatureSet {
    const name: string
    const bytesManaged: uint16
    const featCapacity: uint16
    const feats: array<FeatureDesc>
    var builtinBitmap: set<nat>
    var bytesUsed: nat
    var featCount: nat
    var locked: bool

    ghost predicate Valid()
      reads this
    {
      feats.Length == featCapacity as int && featCount <= feats.Length
    }

    /** The set as a value: everything but its name. */
    ghost function State(): FeatureSetState
      reads this, feats
      requires Valid()
    {
      FeatureSetState(builtinBitmap, bytesManaged, bytesUsed, featCapacity, locked, feats[..featCount])
    }

    /** `NewPageFeatureSet`: an empty, unlocked set with the given capacities. */
    constructor New(setName: string, bytesCapacity: uint16, maxFeatures: uint16)
      ensures Valid() && fresh(feats)
      ensures name == StoredName(setName)
      ensures State() == NewState(bytesCapacity, maxFeatures)
    {
      name := StoredName(setName);
      bytesManaged := bytesCapacity;
      featCapacity := maxFeatures;
      feats := new FeatureDesc[maxFeatures];
      builtinBitmap := {};
      bytesUsed := 0;
      featCount := 0;
      locked := false;
    }

    /** `EmptyPageFeatureSet`: a locked set with no room for anything. */
    constructor Empty()
      ensures Valid() && fresh(feats)
      ensures name == "empty"
      ensures State() == FeatureSetState({}, 0, 0, 0, true, [])
    {
      name := "empty";
      bytesManaged := 0;
      featCapacity := 0;
      feats := new FeatureDesc[0];
      builtinBitmap := {};
      bytesUsed := 0;
      featCount := 0;
      locked := true;
    }

    /** `PageFeatureSetCalculateSize`: the bytes the features take. */
    function CalculateSize(): (r: nat)
      reads this, feats
      requires Valid() && WellFormed(State())
      ensures r == SumSizes(State().feats)
    {
      bytesUsed
    }

    /** `PageFeatureSetHasFeature`: whether bit `feature` of the bitmap is set. */
    function HasFeature(feature: nat): (r: bool)
      reads this
      requires feature < PF_MAX_FEATURE
    {
      feature in builtinBitmap
    }

    /**
     * `PageFeatureSetAddFeatureByName`, check by check.  The set changes
     * exactly as `AddSpec` says, including the bitmap bit a built-in name
     * sets before a zero size is refused.
     */
    method AddFeatureByName(featName: string, size: uint16) returns (ok: bool)
      requires Valid()
      modifies this, feats
      ensures Valid()
      ensures ok == AddSpec(old(State()), featName, size).ok
      ensures State() == AddSpec(old(State()), featName, size).state
    {
      ghost var s := State();
      if featCount >= featCapacity as int {
        return false;
      }
      var rsize := RoundUp8(size);
      if rsize as int > bytesManaged as int - bytesUsed {
        return false;
      }
      var i := 0;
      while i < featCount
        invariant 0 <= i <= featCount
        invariant forall k :: 0 <= k < i ==> s.feats[k].name != featName
      {
        if feats[i].name == featName {
          assert s.feats[i].name == featName;
          return false;
        }
        i := i + 1;
      }
      assert NameIndex(s.feats, featName).None?;
      var builtin: int := -1;
      var fsize := rsize;
      var b: nat := 0;
      while b < PF_MAX_FEATURE
        invariant b <= PF_MAX_FEATURE
        invariant forall k :: 0 <= k < b ==> BuiltinName(k) != featName
        invariant builtin == -1 && fsize == rsize && builtinBitmap == s.bitmap
      {
        if featName == BuiltinName(b) {
          BuiltinIndexOfName(b);
          if locked {
            return false;
          }
          builtinBitmap := builtinBitmap + {b};
          builtin := b;
          if fsize == 0 {
            fsize := BuiltinFeatureDescs[b].size;
          }
          break;
        }
        b := b + 1;
      }
      assert builtin == -1 ==> BuiltinIndex(featName).None?;
      assert builtin != -1 ==> BuiltinIndex(featName) == Some(builtin as nat);
      if fsize == 0 {
        return false;
      }
      var d := FeatureDesc(StoredName(featName), bytesUsed, fsize as int, builtin != -1, builtin);
      feats[featCount] := d;
      bytesUsed := bytesUsed + fsize as int;
      featCount := featCount + 1;
      assert feats[..featCount] == s.feats + [d];
      return true;
    }

    /** `PageFeatureSetAddFeature`: adding a built-in by its identifier. */
    method AddFeature(feature: nat, size: uint16) returns (ok: bool)
      requires Valid() && feature < PF_MAX_FEATURE
      modifies this, feats
      ensures Valid()
      ensures ok == AddSpec(old(State()), BuiltinName(feature), size).ok
      ensures State() == AddSpec(old(State()), BuiltinName(feature), size).state
    {
      ok := AddFeatureByName(BuiltinName(feature), size);
    }

    /**
     * `OptimizePageFeatureSet`: the first pass copies, bit by bit, the first
     * descriptor of each built-in whose bit is set; the second, run only when
     * descriptors remain, copies the user features in order; each copy gets
     * the next free offset, and the result replaces the array's prefix.  The
     * C asserts at the end that both passes placed every descriptor and every
     * byte, which holds for a well-formed set.
     */
    method Optimize()
      requires Valid() && WellFormed(State())
      modifies feats
      ensures Valid()
      ensures State() == OptimizeSpec(old(State()))
    {
      if locked || builtinBitmap == {} || featCount <= 1 {
        return;
      }
      ghost var s := State();
      OrderFits(s);
      Reorder(feats, featCount, builtinBitmap);
      assert State() == s.(feats := Relayout(OptimizedOrder(s.feats, s.bitmap)));
    }

    /**
     * `WritePageFeatureSet`: reorder, then, if the file could be created,
     * write the header and one line per feature, checking each offset
     * against the running total; a set written in full is locked.
     */
    method Write(canCreate: bool) returns (ok: bool, text: string)
      requires Valid() && WellFormed(State())
      modifies this, feats
      ensures Valid()
      ensures WriteSpec(old(State()), canCreate) == WriteOutcome(ok, text, State())
    {
      Optimize();
      if !canCreate {
        return false, "";
      }
      var header := HeaderText(featCount, bytesUsed);
      var linesOk, written, totSize := WriteFeatureLines(feats, featCount);
      if !linesOk || totSize != bytesUsed {
        return false, header + written;
      }
      locked := true;
      return true, header + written;
    }

    /** `PageFeatureSetHasNamedFeature`: a linear search of the names. */
    method HasNamedFeature(featName: string) returns (r: bool)
      requires Valid()
      ensures r <==> exists k :: 0 <= k < featCount && feats[k].name == featName
    {
      var i := 0;
      while i < featCount
        invariant 0 <= i <= featCount
        invariant forall k :: 0 <= k < i ==> feats[k].name != featName
      {
        if feats[i].name == featName {
          return true;
        }
        i := i + 1;
      }
      return false;
    }

    /** `PageFeatureSetNamedFeatureOffset`: where the named slot starts in the page, or 0. */
    method NamedFeatureOffset(featName: string) returns (r: uint16)
      requires Valid()
      ensures r == NamedOffsetSpec(State().feats, featName)
    {
      ghost var f := State().feats;
      var i := 0;
      while i < featCount
        invariant 0 <= i <= featCount
        invariant forall k :: 0 <= k < i ==> f[k].name != featName
      {
        if feats[i].name == featName {
          assert NameIndex(f, featName) == Some(i);
          return OffsetFromStart(feats[i]);
        }
        i := i + 1;
      }
      return 0;
    }

    /** `PageFeatureSetFeatureOffset`: the same for a built-in's name. */
    method FeatureOffset(feature: nat) returns (r: uint16)
      requires Valid() && feature < PF_MAX_FEATURE
      ensures r == NamedOffsetSpec(State().feats, BuiltinName(feature))
    {
      r := NamedFeatureOffset(BuiltinName(feature));
    }

    /**
     * `PageFeatureSetNamedFeatureSize`: the size of the named slot, or 0.
     * The search runs over the cluster's set, not over this one.
     */
    method NamedFeatureSize(cluster: PageFeatureSet, featName: string) returns (r: uint16)
      requires cluster.Valid()
      ensures r == NamedSizeSpec(cluster.State().feats, featName)
    {
      r := ClusterNamedFeatureSize(cluster, featName);
    }

    /** `PageFeatureSetFeatureSize`: the same for a built-in's name. */
    method FeatureSize(cluster: PageFeatureSet, feature: nat) returns (r: uint16)
      requires cluster.Valid() && feature < PF_MAX_FEATURE
      ensures r == NamedSizeSpec(cluster.State().feats, BuiltinName(feature))
    {
      r := NamedFeatureSize(cluster, BuiltinName(feature));
    }
  }

  // ---------------------------------------------------------------------
  // Steps of the reordering loops
  // ---------------------------------------------------------------------

  /**
   * The body of `OptimizePageFeatureSet` past its early exits: both passes
   * into a scratch array, then the copy back over `feats[..n]`.
   */
  method Reorder(feats: array<FeatureDesc>, n: nat, bitmap: set<nat>)
    requires n <= feats.Length
    requires |PickBuiltins(feats[..n], bitmap, PF_MAX_FEATURE)| + |Users(feats[..n])| == n
    modifies feats
    ensures feats[..n] == Relayout(OptimizedOrder(old(feats[..n]), bitmap))
    ensures feats[n..] == old(feats[n..])
  {
    ghost var f := feats[..n];
    var descs := new FeatureDesc[n];
    var curFeat, curOff := PlaceBuiltins(feats, n, bitmap, descs);
    if curFeat < n {
      curFeat, curOff := PlaceUsers(feats, n, descs, PickBuiltins(f, bitmap, PF_MAX_FEATURE), curFeat, curOff);
    } else {
      assert Users(f) == [];
      assert f == feats[..n];
    }
    CopyPrefix(descs, feats, n);
  }

  /**
   * The first pass of `OptimizePageFeatureSet`: bit by bit, the built-in
   * with that identifier is copied into the scratch array `descs`.
   */
  method PlaceBuiltins(src: array<FeatureDesc>, n: nat, bitmap: set<nat>, descs: array<FeatureDesc>)
    returns (curFeat: nat, curOff: int)
    requires src != descs && n <= src.Length && descs.Length == n
    requires |PickBuiltins(src[..n], bitmap, PF_MAX_FEATURE)| <= n
    modifies descs
    ensures curFeat == |PickBuiltins(src[..n], bitmap, PF_MAX_FEATURE)|
    ensures descs[..curFeat] == Relayout(PickBuiltins(src[..n], bitmap, PF_MAX_FEATURE))
    ensures curOff == SumSizes(PickBuiltins(src[..n], bitmap, PF_MAX_FEATURE))
  {
    curFeat, curOff := 0, 0;
    var i: nat := 0;
    while i < PF_MAX_FEATURE
      invariant i <= PF_MAX_FEATURE
      invariant curFeat == |PickBuiltins(src[..n], bitmap, i)|
      invariant descs[..curFeat] == Relayout(PickBuiltins(src[..n], bitmap, i))
      invariant curOff == SumSizes(PickBuiltins(src[..n], bitmap, i))
    {
      curFeat, curOff := PlaceBuiltin(src, n, bitmap, descs, i, curFeat, curOff);
      i := i + 1;
    }
  }

  /**
   * One bit of the first pass: if bit `i` is set, the first built-in
   * descriptor with identifier `i` goes to the next slot.
   */
  method PlaceBuiltin(src: array<FeatureDesc>, n: nat, bitmap: set<nat>, descs: array<FeatureDesc>, i: nat, feat0: nat, off0: int)
    returns (curFeat: nat, curOff: int)
    requires src != descs && n <= src.Length && descs.Length == n && i < PF_MAX_FEATURE
    requires |PickBuiltins(src[..n], bitmap, PF_MAX_FEATURE)| <= n
    requires feat0 == |PickBuiltins(src[..n], bitmap, i)|
    requires descs[..feat0] == Relayout(PickBuiltins(src[..n], bitmap, i))
    requires off0 == SumSizes(PickBuiltins(src[..n], bitmap, i))
    modifies descs
    ensures curFeat == |PickBuiltins(src[..n], bitmap, i + 1)|
    ensures descs[..curFeat] == Relayout(PickBuiltins(src[..n], bitmap, i + 1))
    ensures curOff == SumSizes(PickBuiltins(src[..n], bitmap, i + 1))
  {
    ghost var f := src[..n];
    curFeat, curOff := feat0, off0;
    if i !in bitmap {
      PickMissing(f, bitmap, i);
      return;
    }
    var j := FindBuiltin(src, n, i);
    if j == n {
      PickMissing(f, bitmap, i);
      return;
    }
    PickFound(f, bitmap, i, j);
    PickBuiltinsGrow(f, bitmap, i + 1);
    assert f[j] == src[j];
    Place(descs, curFeat, PickBuiltins(f, bitmap, i), src[j], curOff);
    curOff := curOff + src[j].size;
    curFeat := curFeat + 1;
  }

  /** The inner loop of the first pass: the index of the first built-in `i` among `src[..n]`, or `n`. */
  method FindBuiltin(src: array<FeatureDesc>, n: nat, i: nat) returns (j: nat)
    requires n <= src.Length
    ensures j <= n
    ensures j < n ==> FirstBuiltin(src[..n], i, 0) == Some(j)
    ensures j == n ==> FirstBuiltin(src[..n], i, 0).None?
  {
    ghost var f := src[..n];
    j := 0;
    while j < n && !(src[j].isBuiltin && src[j].builtin == i)
      invariant j <= n
      invariant FirstBuiltin(f, i, j) == FirstBuiltin(f, i, 0)
    {
      j := j + 1;
    }
    if j < n {
      assert f[j] == src[j];
    }
  }

  /**
   * The second pass: the user descriptors of `src[..n]`, in order, after
   * the `p` the first pass placed.
   */
  method PlaceUsers(src: array<FeatureDesc>, n: nat, descs: array<FeatureDesc>, ghost p: seq<FeatureDesc>, feat0: nat, off0: int)
    returns (curFeat: nat, curOff: int)
    requires src != descs && n <= src.Length && descs.Length == n
    requires |p| + |Users(src[..n])| == n
    requires feat0 == |p| && descs[..feat0] == Relayout(p) && off0 == SumSizes(p)
    modifies descs
    ensures curFeat == n
    ensures descs[..n] == Relayout(p + Users(src[..n]))
  {
    curFeat, curOff := feat0, off0;
    var j := 0;
    assert src[..n][..0] == [] && p + Users(src[..n][..0]) == p;
    while j < n
      invariant j <= n
      invariant curFeat == |p + Users(src[..n][..j])| <= n
      invariant descs[..curFeat] == Relayout(p + Users(src[..n][..j]))
      invariant curOff == SumSizes(p + Users(src[..n][..j]))
    {
      curFeat, curOff := PlaceUser(src, n, descs, j, p, curFeat, curOff);
      j := j + 1;
    }
    assert src[..n][..n] == src[..n];
  }

  /** One step of the second pass: descriptor `j` is copied if it is a user feature. */
  method PlaceUser(src: array<FeatureDesc>, n: nat, descs: array<FeatureDesc>, j: nat, ghost p: seq<FeatureDesc>, feat0: nat, off0: int)
    returns (curFeat: nat, curOff: int)
    requires src != descs && j < n <= src.Length && descs.Length == n
    requires |p| + |Users(src[..n])| == n
    requires feat0 == |p + Users(src[..n][..j])| <= n
    requires descs[..feat0] == Relayout(p + Users(src[..n][..j]))
    requires off0 == SumSizes(p + Users(src[..n][..j]))
    modifies descs
    ensures curFeat == |p + Users(src[..n][..j + 1])| <= n
    ensures descs[..curFeat] == Relayout(p + Users(src[..n][..j + 1]))
    ensures curOff == SumSizes(p + Users(src[..n][..j + 1]))
  {
    ghost var f := src[..n];
    curFeat, curOff := feat0, off0;
    UsersAfter(p, f, j);
    UsersPrefixFits(f, j + 1);
    if !src[j].isBuiltin {
      assert f[j] == src[j];
      Place(descs, curFeat, p + Users(f[..j]), src[j], curOff);
      curOff := curOff + src[j].size;
      curFeat := curFeat + 1;
    }
  }

  /** For a well-formed set the two passes together fill exactly the descriptors there are. */
  lemma OrderFits(s: FeatureSetState)
    requires WellFormed(s)
    ensures |PickBuiltins(s.feats, s.bitmap, PF_MAX_FEATURE)| + |Users(s.feats)| == |s.feats|
    ensures OptimizedOrder(s.feats, s.bitmap) == PickBuiltins(s.feats, s.bitmap, PF_MAX_FEATURE) + Users(s.feats)
  {
    OptimizedOrderPermutes(s);
    assert |multiset(OptimizedOrder(s.feats, s.bitmap))| == |multiset(s.feats)|;
  }

  /** The closing `memcpy` of the reordering. */
  method CopyPrefix(src: array<FeatureDesc>, dst: array<FeatureDesc>, n: nat)
    requires src != dst && n <= src.Length && n <= dst.Length
    modifies dst
    ensures dst[..n] == src[..n] && dst[n..] == old(dst[n..])
  {
    var k := 0;
    while k < n
      invariant k <= n
      invariant dst[..k] == src[..k] && dst[n..] == old(dst[n..])
    {
      dst[k] := src[k];
      assert dst[..k + 1] == dst[..k] + [dst[k]];
      assert src[..k + 1] == src[..k] + [src[k]];
      k := k + 1;
    }
  }

  /** One copy of the reordering: `d` goes to slot `k` at the next free offset. */
  method Place(descs: array<FeatureDesc>, k: nat, ghost p: seq<FeatureDesc>, d: FeatureDesc, off: int)
    requires k < descs.Length && |p| == k
    requires descs[..k] == Relayout(p) && off == SumSizes(p)
    modifies descs
    ensures descs[..k + 1] == Relayout(p + [d])
    ensures off + d.size == SumSizes(p + [d])
  {
    descs[k] := d.(offset := off);
    RelayoutSnoc(p, d);
    assert descs[..k + 1] == descs[..k] + [descs[k]];
    SumSizesAppend(p, [d]);
  }

  /** Appending one descriptor to a relayout places it after the others. */
  lemma RelayoutSnoc(p: seq<FeatureDesc>, d: FeatureDesc)
    ensures Relayout(p + [d]) == Relayout(p) + [d.(offset := SumSizes(p))]
  {
    assert (p + [d])[..|p|] == p;
  }

  /** A set bit whose built-in is found adds that descriptor to the first pass. */
  lemma PickFound(f: seq<FeatureDesc>, bm: set<nat>, i: nat, j: nat)
    requires j < |f| && i in bm
    requires FirstBuiltin(f, i, 0) == Some(j)
    ensures PickBuiltins(f, bm, i + 1) == PickBuiltins(f, bm, i) + [f[j]]
  {
  }

  /** A clear bit, or one whose built-in is absent, adds nothing. */
  lemma PickMissing(f: seq<FeatureDesc>, bm: set<nat>, i: nat)
    requires i !in bm || FirstBuiltin(f, i, 0).None?
    ensures PickBuiltins(f, bm, i + 1) == PickBuiltins(f, bm, i)
  {
  }

  /** Later bits only add to what the first pass has picked. */
  lemma PickBuiltinsGrow(f: seq<FeatureDesc>, bm: set<nat>, n: nat)
    requires n <= PF_MAX_FEATURE
    ensures |PickBuiltins(f, bm, n)| <= |PickBuiltins(f, bm, PF_MAX_FEATURE)|
  {
  }

  lemma UsersStep(f: seq<FeatureDesc>, j: nat)
    requires j < |f|
    ensures Users(f[..j + 1]) == Users(f[..j]) + (if f[j].isBuiltin then [] else [f[j]])
  {
    assert f[..j + 1][..j] == f[..j];
  }

  lemma UsersAfter(p: seq<FeatureDesc>, f: seq<FeatureDesc>, j: nat)
    requires j < |f|
    ensures !f[j].isBuiltin ==> p + Users(f[..j + 1]) == (p + Users(f[..j])) + [f[j]]
    ensures f[j].isBuiltin ==> p + Users(f[..j + 1]) == p + Users(f[..j])
  {
    UsersStep(f, j);
  }

  /** The user features of a prefix are no more than those of the whole sequence. */
  lemma {:induction false} UsersPrefixFits(f: seq<FeatureDesc>, j: nat)
    requires j <= |f|
    ensures |Users(f[..j])| <= |Users(f)|
    decreases |f| - j
  {
    if j < |f| {
      UsersStep(f, j);
      UsersPrefixFits(f, j + 1);
    } else {
      assert f[..j] == f;
    }
  }

  /** The size lookup over the cluster's set, shared by the set-level and page-level getters. */
  method ClusterNamedFeatureSize(cluster: PageFeatureSet, featName: string) returns (r: uint16)
    requires cluster.Valid()
    ensures r == NamedSizeSpec(cluster.State().feats, featName)
  {
    ghost var f := cluster.State().feats;
    var i := 0;
    while i < cluster.featCount
      invariant 0 <= i <= cluster.featCount
      invariant forall k :: 0 <= k < i ==> f[k].name != featName
    {
      if cluster.feats[i].name == featName {
        assert NameIndex(f, featName) == Some(i);
        return (cluster.feats[i].size % 0x1_0000) as uint16;
      }
      i := i + 1;
    }
    return 0;
  }

  /** `PageFeatureBuiltinFeatureSize`: the default size in the built-in table. */
  function BuiltinFeatureSize(feature: nat): (r: uint16)
    requires feature < PF_MAX_FEATURE
    ensures r % 8 == 0
    ensures BuiltinIndex(BuiltinName(feature)) == Some(feature) && GrantedSize(BuiltinName(feature), 0) == r
  {
    BuiltinIndexOfName(feature);
    BuiltinFeatureDescs[feature].size
  }

  // ---------------------------------------------------------------------
  // Writing and reading the catalog file
  // ---------------------------------------------------------------------

  /** What has been written so far followed by what the remaining lines give. */
  function Joined(written: string, rest: LinesOutcome): LinesOutcome {
    LinesOutcome(rest.ok, written + rest.text, rest.total)
  }

  /**
   * The feature lines of `WritePageFeatureSet`: each descriptor must start
   * at the running total and be non-empty, or the writing stops there.
   */
  method WriteFeatureLines(feats: array<FeatureDesc>, n: nat) returns (ok: bool, written: string, totSize: int)
    requires n <= feats.Length
    ensures LinesOutcome(ok, written, totSize) == WriteLines(feats[..n], 0, 0)
  {
    ghost var f := feats[..n];
    ghost var full := WriteLines(f, 0, 0);
    written, totSize := "", 0;
    JoinedNothing(full);
    var i := 0;
    while i < n
      invariant i <= n
      invariant full == Joined(written, WriteLines(f, i, totSize))
    {
      var d := feats[i];
      assert d == f[i];
      var fits;
      fits, written, totSize := WriteNext(d, written, totSize, f, i, full);
      if !fits {
        return false, written, totSize;
      }
      i := i + 1;
    }
    WriteLinesDone(f, totSize, written, full);
    ok := true;
  }

  lemma JoinedNothing(o: LinesOutcome)
    ensures Joined("", o) == o
  {
    assert "" + o.text == o.text;
  }

  /** Past the last descriptor the writing has succeeded with what was written. */
  lemma WriteLinesDone(f: seq<FeatureDesc>, total: int, written: string, full: LinesOutcome)
    requires full == Joined(written, WriteLines(f, |f|, total))
    ensures full == LinesOutcome(true, written, total)
  {
    assert written + "" == written;
  }

  /** One feature line of the writer: checked against the running total, then printed. */
  method WriteNext(d: FeatureDesc, written: string, total: int, ghost f: seq<FeatureDesc>, ghost i: nat, ghost full: LinesOutcome)
    returns (fits: bool, written': string, total': int)
    requires i < |f| && f[i] == d && full == Joined(written, WriteLines(f, i, total))
    ensures !fits ==> full == LinesOutcome(false, written, total) && written' == written && total' == total
    ensures fits ==> full == Joined(written', WriteLines(f, i + 1, total'))
  {
    if d.offset != total || d.size == 0 {
      WriteLinesStop(f, i, total, written, full);
      return false, written, total;
    }
    written', total' := written + LineText(d.name, d.offset, d.size), total + d.size;
    WriteLinesJoin(f, i, d, total, written, full, written', total');
    return true, written', total';
  }

  /** A descriptor out of place stops the writing with what has been written so far. */
  lemma WriteLinesStop(f: seq<FeatureDesc>, i: nat, total: int, written: string, full: LinesOutcome)
    requires i < |f| && (f[i].offset != total || f[i].size == 0)
    requires full == Joined(written, WriteLines(f, i, total))
    ensures full == LinesOutcome(false, written, total)
  {
    assert WriteLines(f, i, total) == LinesOutcome(false, "", total);
    assert written + "" == written;
  }

  /** Writing line `i` moves it from the lines still to come to the text written. */
  lemma WriteLinesJoin(f: seq<FeatureDesc>, i: nat, d: FeatureDesc, total: int, written: string, full: LinesOutcome,
                        written': string, total': int)
    requires i < |f| && f[i] == d && d.offset == total && d.size != 0
    requires full == Joined(written, WriteLines(f, i, total))
    requires written' == written + LineText(d.name, d.offset, d.size) && total' == total + d.size
    ensures full == Joined(written', WriteLines(f, i + 1, total'))
  {
    var more := WriteLines(f, i + 1, total');
    var line := LineText(d.name, d.offset, d.size);
    WriteLinesStep(f, i, d, total, total');
    assert full == LinesOutcome(more.ok, written + (line + more.text), more.total);
    Concat3(written, line, more.text);
  }

  lemma Concat3(a: string, b: string, c: string)
    ensures a + (b + c) == (a + b) + c
  {
  }

  /** `last_dir_separator`: the tail of `path` from its last `/`. */
  function LastDirSeparator(path: string): (r: string)
    requires '/' in path
    ensures 1 <= |r| <= |path| && r[0] == '/' && '/' !in r[1..]
    ensures path == path[..|path| - |r|] + r
  {
    if '/' in path[1..] then
      assert path == [path[0]] + path[1..];
      LastDirSeparator(path[1..])
    else
      assert path == [path[0]] + path[1..];
      path
  }

  /**
   * `ReadPageFeatureSet` on the file at `path`, whose contents are `text`.
   * The set is named after the tail of the path from its last `/`, that
   * separator included.  A file the model rejects yields no set and the
   * reason; one it accepts yields a fresh set holding the state `ReadSpec`
   * describes.
   */
  method ReadPageFeatureSet(path: string, text: string) returns (pfs: PageFeatureSet?, err: Option<ReadError>)
    requires '/' in path
    ensures ReadSpec(text).ReadOk? ==>
      && pfs != null && fresh(pfs) && fresh(pfs.feats) && pfs.Valid() && err == None
      && pfs.name == StoredName(LastDirSeparator(path))
      && pfs.State() == ReadSpec(text).state
    ensures ReadSpec(text).ReadFailed? ==> pfs == null && err == Some(ReadSpec(text).error)
  {
    var name := LastDirSeparator(path);
    var header := ScanHeader(text);
    if header.None? {
      return null, Some(Corrupted);
    }
    var h := header.value;
    if h.count < 0 || h.count > MAX_PAGE_FEATURES {
      return null, Some(InvalidCount);
    }
    if h.size < 0 || h.size > MaxReservedPageSize {
      return null, Some(InvalidTotalSize);
    }
    var fs := new PageFeatureSet.New(name, h.size as uint16, h.count as uint16);
    err := ReadLines(fs, h.rest, h.count, h.size, ReadSpec(text));
    pfs := if err.None? then fs else null;
  }

  /**
   * The feature lines of `ReadPageFeatureSet` and its closing checks of the
   * count and the byte total; a set read in full is locked.
   */
  method ReadLines(fs: PageFeatureSet, lines: string, count: int, size: int, ghost expected: ReadResult)
    returns (err: Option<ReadError>)
    requires fs.Valid() && size <= MaxReservedPageSize
    requires expected == ReadBody(fs.State(), ScanLines(lines), count, size, 0, 0)
    modifies fs, fs.feats
    ensures fs.Valid()
    ensures expected.ReadOk? ==> err == None && fs.State() == expected.state
    ensures expected.ReadFailed? ==> err == Some(expected.error)
  {
    ghost var remaining := ScanLines(lines);
    ghost var st := fs.State();
    var totCnt, totSize := 0, 0;
    var rest := lines;
    while true
      invariant fs.Valid() && fs.State() == st && remaining == ScanLines(rest)
      invariant expected == ReadBody(st, remaining, count, size, totCnt, totSize)
      decreases |rest|
    {
      var scanned := ScanLine(rest);
      if scanned.None? {
        break;
      }
      var line := scanned.value;
      assert remaining != [] && remaining[0] == line by {
        RemainingLines(rest, line, remaining);
      }
      ghost var tail := ScanLines(line.rest);
      assert remaining[1..] == tail by {
        RemainingLines(rest, line, remaining);
      }
      err, st, totCnt, totSize := ReadNext(fs, line, size, totSize, st, remaining, tail, count, totCnt, expected);
      if err.Some? {
        return;
      }
      rest := line.rest;
      remaining := tail;
    }
    NoMoreLines(rest, remaining);
    if totCnt != count {
      return Some(CountMismatch);
    }
    if totSize != size {
      return Some(TotalMismatch);
    }
    fs.locked := true;
    return None;
  }

  /** The lines still to be read: the one just scanned, then those after it. */
  lemma RemainingLines(rest: string, line: ScannedLine, remaining: seq<ScannedLine>)
    requires ScanLine(rest) == Some(line) && remaining == ScanLines(rest)
    ensures remaining != [] && remaining[0] == line && remaining[1..] == ScanLines(line.rest)
  {
    ScanLinesStep(rest, line);
  }

  lemma NoMoreLines(rest: string, remaining: seq<ScannedLine>)
    requires ScanLine(rest).None? && remaining == ScanLines(rest)
    ensures remaining == []
  {
  }

  /**
   * One feature line of the replay: `st` is the set so far and `remaining`
   * the lines from this one on; the replay goes on from the set returned.
   */
  method ReadNext(fs: PageFeatureSet, line: ScannedLine, size: int, totSize: int, ghost st: FeatureSetState,
                  ghost remaining: seq<ScannedLine>, ghost tail: seq<ScannedLine>,
                  ghost count: int, totCnt: int, ghost expected: ReadResult)
    returns (err: Option<ReadError>, ghost next: FeatureSetState, cnt': int, total': int)
    requires fs.Valid() && fs.State() == st && size <= MaxReservedPageSize
    requires remaining != [] && remaining[0] == line && remaining[1..] == tail
    requires expected == ReadBody(st, remaining, count, size, totCnt, totSize)
    modifies fs, fs.feats
    ensures fs.Valid() && fs.State() == next
    ensures cnt' == totCnt + 1 && total' == totSize + line.size
    ensures err.Some? ==> expected == ReadFailed(err.value)
    ensures err.None? ==> expected == ReadBody(next, tail, count, size, cnt', total')
  {
    ghost var a := AcceptLine(st, line, size, totSize);
    ReadBodyOnLine(st, remaining, line, tail, count, size, totCnt, totSize, a);
    err := ReadLine(fs, line, size, totSize);
    next := fs.State();
    cnt', total' := totCnt + 1, totSize + line.size;
  }

  /** The replay from a line on: that line's outcome, then the lines after it. */
  lemma ReadBodyOnLine(st: FeatureSetState, remaining: seq<ScannedLine>, line: ScannedLine, tail: seq<ScannedLine>,
                       count: int, size: int, totCnt: int, totSize: int, a: LineResult)
    requires size <= MaxReservedPageSize
    requires remaining != [] && remaining[0] == line && remaining[1..] == tail
    requires a == AcceptLine(st, line, size, totSize)
    ensures a.LineRejected? ==> ReadBody(st, remaining, count, size, totCnt, totSize) == ReadFailed(a.error)
    ensures a.LineAccepted? ==>
      ReadBody(st, remaining, count, size, totCnt, totSize) == ReadBody(a.state, tail, count, size, totCnt + 1, totSize + line.size)
  {
  }

  /**
   * The checks of one feature line of `ReadPageFeatureSet`, then its
   * addition to the set being read.
   */
  method ReadLine(fs: PageFeatureSet, line: ScannedLine, size: int, totSize: int) returns (err: Option<ReadError>)
    requires fs.Valid() && size <= MaxReservedPageSize
    modifies fs, fs.feats
    ensures fs.Valid()
    ensures AcceptLine(old(fs.State()), line, size, totSize).LineRejected? ==>
      err == Some(AcceptLine(old(fs.State()), line, size, totSize).error)
    ensures AcceptLine(old(fs.State()), line, size, totSize).LineAccepted? ==>
      err == None && fs.State() == AcceptLine(old(fs.State()), line, size, totSize).state
  {
    var featName := CStr(line.name);
    if |featName| == 0 {
      return Some(EmptyName);
    }
    if line.offset < 0 || line.offset > size || line.size <= 0 || line.size > size {
      return Some(InvalidOffsetOrSize);
    }
    if line.offset != totSize {
      return Some(OffsetsMisaligned);
    }
    var added := fs.AddFeatureByName(featName, line.size as uint16);
    if !added {
      return Some(AddFailed);
    }
    return None;
  }

  /**
   * `ClusterPageFeatureInit`: a missing or empty name (`name[0] == '\0'`)
   * gives the empty locked set; otherwise the catalog file
   * `<dataDir>/pg_pagefeat/<name>`, built by `sprintf` from the two C
   * strings and whose contents are `text`, is read.  A file that does not
   * load stops the server, which is the `None` result here.
   */
  method ClusterPageFeatureInit(dataDir: string, name: string, text: string) returns (cluster: Option<PageFeatureSet>, path: string)
    ensures (name == [] || name[0] == '\0') ==>
      (path == [] && cluster.Some? && fresh(cluster.value) &&
       cluster.value.Valid() && cluster.value.name == "empty" &&
       cluster.value.State() == FeatureSetState({}, 0, 0, 0, true, []))
    ensures !(name == [] || name[0] == '\0') ==> path == CStr(dataDir) + "/pg_pagefeat/" + CStr(name)
    ensures !(name == [] || name[0] == '\0') ==> (cluster.Some? <==> ReadSpec(text).ReadOk?)
    ensures !(name == [] || name[0] == '\0') && cluster.Some? ==>
      && fresh(cluster.value) && cluster.value.Valid()
      && cluster.value.name == StoredName(LastDirSeparator(path))
      && cluster.value.State() == ReadSpec(text).state
  {
    if name == [] || name[0] == '\0' {
      var empty := new PageFeatureSet.Empty();
      return Some(empty), [];
    }
    path := CStr(dataDir) + "/pg_pagefeat/" + CStr(name);
    assert path[|CStr(dataDir)|] == '/';
    var pfs, err := ReadPageFeatureSet(path, text);
    if pfs == null {
      return None, path;
    }
    return Some(pfs), path;
  }

  // ---------------------------------------------------------------------
  // Page-level lookups against the cluster's set
  // ---------------------------------------------------------------------

  /**
   * What the lookups read of a page header: whether `PD_EXTENDED_FEATS` is
   * set in its flags, and its feature bitmap as the set of its one bits.
   */
  datatype PageHeader = PageHeader(extendedFeats: bool, features: set<nat>)

  /** A page answers for the cluster's features only when its header says it uses them. */
  predicate PageUsesFeatures(page: Option<PageHeader>) {
    page.Some? && page.value.extendedFeats && page.value.features != {}
  }

  /** `PageHasFeature`: the page flag and the cluster's bit. */
  function PageHasFeature(page: PageHeader, cluster: PageFeatureSet, feature: nat): (r: bool)
    reads cluster
    requires feature < PF_MAX_FEATURE
  {
    page.extendedFeats && cluster.HasFeature(feature)
  }

  /**
   * A built-in that holds a slot in a well-formed cluster set is reported
   * by `PageFeatureSetHasFeature`, and by `PageHasFeature` on every page
   * that uses extended features.
   */
  lemma SlottedFeatureReported(page: PageHeader, cluster: PageFeatureSet, feature: nat)
    requires cluster.Valid() && WellFormed(cluster.State()) && feature < PF_MAX_FEATURE
    requires exists i :: 0 <= i < |cluster.State().feats| && IsBuiltinWithId(cluster.State().feats[i], feature)
    ensures cluster.HasFeature(feature)
    ensures page.extendedFeats ==> PageHasFeature(page, cluster, feature)
  {
    SlotImpliesBit(cluster.State(), feature);
  }

  /** `PageHasNamedFeature`: the page flag and a name in the cluster's set. */
  method PageHasNamedFeature(page: PageHeader, cluster: PageFeatureSet, featName: string) returns (r: bool)
    requires cluster.Valid()
    ensures r <==> page.extendedFeats && NameIndex(cluster.State().feats, featName).Some?
  {
    if !page.extendedFeats {
      return false;
    }
    r := cluster.HasNamedFeature(featName);
  }

  /**
   * `PageGetNamedFeatureOffset`: 0 for a missing page or one not using the
   * features, otherwise the cluster's offset for the name.  The C asserts
   * that such a page carries the cluster's bitmap.
   */
  method PageGetNamedFeatureOffset(page: Option<PageHeader>, cluster: PageFeatureSet, featName: string) returns (r: uint16)
    requires cluster.Valid()
    requires PageUsesFeatures(page) ==> page.value.features == cluster.builtinBitmap
    ensures !PageUsesFeatures(page) ==> r == 0
    ensures PageUsesFeatures(page) ==> r == NamedOffsetSpec(cluster.State().feats, featName)
  {
    if page.None? || !page.value.extendedFeats || page.value.features == {} {
      return 0;
    }
    r := cluster.NamedFeatureOffset(featName);
  }

  /** `PageGetFeatureOffset`: the same for a built-in's name. */
  method PageGetFeatureOffset(page: Option<PageHeader>, cluster: PageFeatureSet, feature: nat) returns (r: uint16)
    requires cluster.Valid() && feature < PF_MAX_FEATURE
    requires PageUsesFeatures(page) ==> page.value.features == cluster.builtinBitmap
    ensures !PageUsesFeatures(page) ==> r == 0
    ensures PageUsesFeatures(page) ==> r == NamedOffsetSpec(cluster.State().feats, BuiltinName(feature))
  {
    r := PageGetNamedFeatureOffset(page, cluster, BuiltinName(feature));
  }

  /** `PageGetNamedFeatureSize`: 0 for a page not using the features, else the cluster's size for the name. */
  method PageGetNamedFeatureSize(page: Option<PageHeader>, cluster: PageFeatureSet, featName: string) returns (r: uint16)
    requires cluster.Valid()
    requires PageUsesFeatures(page) ==> page.value.features == cluster.builtinBitmap
    ensures !PageUsesFeatures(page) ==> r == 0
    ensures PageUsesFeatures(page) ==> r == NamedSizeSpec(cluster.State().feats, featName)
  {
    if page.None? || !page.value.extendedFeats || page.value.features == {} {
      return 0;
    }
    r := ClusterNamedFeatureSize(cluster, featName);
  }

  /** `PageGetFeatureSize`: the same for a built-in's name. */
  method PageGetFeatureSize(page: Option<PageHeader>, cluster: PageFeatureSet, feature: nat) returns (r: uint16)
    requires cluster.Valid() && feature < PF_MAX_FEATURE
    requires PageUsesFeatures(page) ==> page.value.features == cluster.builtinBitmap
    ensures !PageUsesFeatures(page) ==> r == 0
    ensures PageUsesFeatures(page) ==> r == NamedSizeSpec(cluster.State().feats, BuiltinName(feature))
  {
    r := PageGetNamedFeatureSize(page, cluster, BuiltinName(feature));
  }
}
