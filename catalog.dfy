/**
 * Persistent page-feature sets: `ReadPageFeatureSet` and
 * `WritePageFeatureSet` as functions on the text of the catalog file.
 * Opening, syncing and closing the file are left to the caller; the
 * functions see the file's whole contents (reading) or produce them
 * (writing).
 */
module Catalog {
  import opened Common
  import opened FeatureLayout
  import opened CatalogText

  /** The messages `ReadPageFeatureSet` reports before returning NULL. */
  datatype ReadError =
    | Corrupted            // "corrupted feature set file"
    | InvalidCount         // "invalid feature count"
    | InvalidTotalSize     // "invalid feature total size"
    | EmptyName            // "empty feature name"
    | InvalidOffsetOrSize  // "invalid feature offset or size"
    | OffsetsMisaligned    // "feature offsets do not line up"
    | AddFailed            // "error adding feature to set"
    | CountMismatch        // "read different count of features than in header line"
    | TotalMismatch        // "read different byte total than in header line"

  datatype ReadResult = ReadOk(state: FeatureSetState) | ReadFailed(error: ReadError)

  /** A set as a successful read leaves it: locked, full, every byte in use. */
  ghost predicate Loaded(t: FeatureSetState) {
    && WellFormed(t) && t.locked
    && |t.feats| == t.featCapacity && t.bytesUsed == t.bytesManaged
  }

  datatype LineResult = LineAccepted(state: FeatureSetState) | LineRejected(error: ReadError)

  /**
   * The checks one feature line goes through, then its addition to the set.
   * The name is what C sees of the characters read, up to a NUL.
   */
  function AcceptLine(st: FeatureSetState, line: ScannedLine, size: int, totSize: int): LineResult
    requires size <= MaxReservedPageSize
  {
    var name := CStr(line.name);
    if |name| == 0 then LineRejected(EmptyName)
    else if line.offset < 0 || line.offset > size || line.size <= 0 || line.size > size then
      LineRejected(InvalidOffsetOrSize)
    else if line.offset != totSize then LineRejected(OffsetsMisaligned)
    else
      var added := AddSpec(st, name, line.size as uint16);
      if !added.ok then LineRejected(AddFailed) else LineAccepted(added.state)
  }

  /**
   * The feature lines, in the order the loop reads them.  `count` and
   * `size` come from the header; `totCnt` and `totSize` are what the lines
   * accepted so far add up to.  The offset check compares with the sizes as
   * written in the file, while the set itself adds them rounded up to
   * multiples of eight.
   */
  function ReadBody(st: FeatureSetState, lines: seq<ScannedLine>, count: int, size: int, totCnt: int, totSize: int): ReadResult
    requires size <= MaxReservedPageSize
    decreases |lines|
  {
    if lines == [] then
      if totCnt != count then ReadFailed(CountMismatch)
      else if totSize != size then ReadFailed(TotalMismatch)
      else ReadOk(st.(locked := true))
    else
      match AcceptLine(st, lines[0], size, totSize)
      case LineRejected(e) => ReadFailed(e)
      case LineAccepted(next) => ReadBody(next, lines[1..], count, size, totCnt + 1, totSize + lines[0].size)
  }

  /** `ReadPageFeatureSet` on the contents of the file. */
  function ReadSpec(text: string): ReadResult
  {
    match ScanHeader(text)
    case None => ReadFailed(Corrupted)
    case Some(h) =>
      if h.count < 0 || h.count > MAX_PAGE_FEATURES then ReadFailed(InvalidCount)
      else if h.size < 0 || h.size > MaxReservedPageSize then ReadFailed(InvalidTotalSize)
      else ReadBody(NewState(h.size as uint16, h.count as uint16), ScanLines(h.rest), h.count, h.size, 0, 0)
  }

  /** One line of the replay keeps the relation between the set and the running totals. */
  lemma ReadStep(st: FeatureSetState, name: string, lineSize: int, size: int, totSize: int)
    requires 0 < lineSize <= size <= MaxReservedPageSize
    requires WellFormed(st) && !st.locked && st.bytesManaged as int == size
    requires '\0' !in name
    requires totSize <= st.bytesUsed <= size
    requires AddSpec(st, name, lineSize as uint16).ok
    ensures WellFormed(AddSpec(st, name, lineSize as uint16).state)
    ensures !AddSpec(st, name, lineSize as uint16).state.locked
    ensures AddSpec(st, name, lineSize as uint16).state.bytesManaged == st.bytesManaged
    ensures AddSpec(st, name, lineSize as uint16).state.featCapacity == st.featCapacity
    ensures |AddSpec(st, name, lineSize as uint16).state.feats| == |st.feats| + 1
    ensures totSize + lineSize <= AddSpec(st, name, lineSize as uint16).state.bytesUsed <= size
  {
    AcceptedAddPreservesWellFormed(st, name, lineSize as uint16);
    AddAppendsOne(st, name, lineSize as uint16);
    RoundUp8Rounds(lineSize as uint16);
  }

  /** Locking a set changes nothing its invariant speaks of. */
  lemma LockKeepsWellFormed(st: FeatureSetState)
    requires WellFormed(st)
    ensures WellFormed(st.(locked := true))
  {
    var t := st.(locked := true);
    assert t.feats == st.feats && t.bitmap == st.bitmap;
  }

  /** An accepted line leaves a set that still fits the header and the running totals. */
  lemma AcceptLineKeeps(st: FeatureSetState, line: ScannedLine, size: int, totSize: int)
    requires size <= MaxReservedPageSize
    requires WellFormed(st) && !st.locked && st.bytesManaged as int == size
    requires totSize <= st.bytesUsed <= size
    requires AcceptLine(st, line, size, totSize).LineAccepted?
    ensures WellFormed(AcceptLine(st, line, size, totSize).state)
    ensures !AcceptLine(st, line, size, totSize).state.locked
    ensures AcceptLine(st, line, size, totSize).state.bytesManaged == st.bytesManaged
    ensures AcceptLine(st, line, size, totSize).state.featCapacity == st.featCapacity
    ensures |AcceptLine(st, line, size, totSize).state.feats| == |st.feats| + 1
    ensures totSize + line.size <= AcceptLine(st, line, size, totSize).state.bytesUsed <= size
  {
    ReadStep(st, CStr(line.name), line.size, size, totSize);
  }

  lemma ReadBodyAccepted(st: FeatureSetState, lines: seq<ScannedLine>, count: int, size: int, totCnt: int, totSize: int,
                         next: FeatureSetState, nextSize: int)
    requires size <= MaxReservedPageSize
    requires lines != [] && AcceptLine(st, lines[0], size, totSize) == LineAccepted(next)
    requires nextSize == totSize + lines[0].size
    ensures ReadBody(st, lines, count, size, totCnt, totSize) == ReadBody(next, lines[1..], count, size, totCnt + 1, nextSize)
  {
  }

  lemma ReadBodyRejected(st: FeatureSetState, lines: seq<ScannedLine>, count: int, size: int, totCnt: int, totSize: int)
    requires size <= MaxReservedPageSize
    requires lines != [] && AcceptLine(st, lines[0], size, totSize).LineRejected?
    ensures ReadBody(st, lines, count, size, totCnt, totSize) == ReadFailed(AcceptLine(st, lines[0], size, totSize).error)
  {
  }

  /** Whatever a successful replay returns is a loaded set. */
  lemma {:induction false} ReadBodyLoads(st: FeatureSetState, lines: seq<ScannedLine>, count: int, size: int, totCnt: int, totSize: int)
    requires size <= MaxReservedPageSize
    requires WellFormed(st) && !st.locked
    requires st.bytesManaged as int == size && st.featCapacity as int == count
    requires |st.feats| == totCnt && totSize <= st.bytesUsed <= size
    ensures ReadBody(st, lines, count, size, totCnt, totSize).ReadOk? ==>
              Loaded(ReadBody(st, lines, count, size, totCnt, totSize).state)
    decreases |lines|
  {
    if lines == [] {
      LockKeepsWellFormed(st);
    } else {
      var a := AcceptLine(st, lines[0], size, totSize);
      if a.LineAccepted? {
        AcceptLineKeeps(st, lines[0], size, totSize);
        ReadBodyAccepted(st, lines, count, size, totCnt, totSize, a.state, totSize + lines[0].size);
        ReadBodyLoads(a.state, lines[1..], count, size, totCnt + 1, totSize + lines[0].size);
      } else {
        ReadBodyRejected(st, lines, count, size, totCnt, totSize);
      }
    }
  }

  /**
   * A file that reads without error gives a well-formed, locked set that
   * holds exactly the header's count of features and uses exactly the
   * header's byte total.
   */
  lemma ReadLoads(text: string)
    ensures ReadSpec(text).ReadOk? ==> Loaded(ReadSpec(text).state)
  {
    match ScanHeader(text)
    case None =>
    case Some(h) =>
      if 0 <= h.count <= MAX_PAGE_FEATURES && 0 <= h.size <= MaxReservedPageSize {
        ReadBodyLoads(NewState(h.size as uint16, h.count as uint16), ScanLines(h.rest), h.count, h.size, 0, 0);
      }
  }

  // ---------------------------------------------------------------------
  // Writing
  // ---------------------------------------------------------------------

  datatype LinesOutcome = LinesOutcome(ok: bool, text: string, total: int)

  /**
   * The feature lines of `WritePageFeatureSet` from index `i` on, with
   * `total` the sizes written so far.  A descriptor whose offset is not
   * that total, or whose size is zero, stops the writing ("data structure
   * has bad data"); the text written until then stays in the file.
   */
  function WriteLines(feats: seq<FeatureDesc>, i: nat, total: int): LinesOutcome
    requires i <= |feats|
    decreases |feats| - i
  {
    if i == |feats| then LinesOutcome(true, "", total)
    else if feats[i].offset != total || feats[i].size == 0 then LinesOutcome(false, "", total)
    else
      var more := WriteLines(feats, i + 1, total + feats[i].size);
      LinesOutcome(more.ok, LineText(feats[i].name, feats[i].offset, feats[i].size) + more.text, more.total)
  }

  /** What a write returns, the text left in the file and the set afterwards. */
  datatype WriteOutcome = WriteOutcome(ok: bool, text: string, state: FeatureSetState)

  /**
   * `WritePageFeatureSet`: the set is reordered first, whatever happens
   * next; `canCreate` says whether the file could be created (it must not
   * exist yet).  The count check after the loop always holds once the loop
   * has run to the end, so only the byte total is compared.
   */
  function WriteSpec(s: FeatureSetState, canCreate: bool): WriteOutcome
  {
    var o := OptimizeSpec(s);
    if !canCreate then WriteOutcome(false, "", o)
    else
      var header := HeaderText(|o.feats|, o.bytesUsed);
      var lines := WriteLines(o.feats, 0, 0);
      if !lines.ok || lines.total != o.bytesUsed then WriteOutcome(false, header + lines.text, o)
      else WriteOutcome(true, header + lines.text, o.(locked := true))
  }

  /** The bitmap bits of the built-in features among `feats`. */
  function BuiltinBits(feats: seq<FeatureDesc>): set<nat>
  {
    set j | 0 <= j < |feats| && feats[j].isBuiltin && feats[j].builtin >= 0 :: feats[j].builtin as nat
  }

  /** Every built-in feature of a well-formed set has its bit set. */
  lemma BuiltinBitsInBitmap(s: FeatureSetState)
    requires WellFormed(s)
    ensures BuiltinBits(s.feats) <= s.bitmap
  {
    forall j | 0 <= j < |s.feats| && s.feats[j].isBuiltin && s.feats[j].builtin >= 0
      ensures s.feats[j].builtin as nat in s.bitmap
    {
      assert DescOk(s.feats[j], s.bitmap);
    }
  }

  /** Descriptors that the writer prints and the reader adds back unchanged. */
  ghost predicate Replayable(feats: seq<FeatureDesc>, bitmap: set<nat>) {
    && Packed(feats)
    && DistinctNames(feats)
    && (forall k :: 0 <= k < |feats| ==> DescOk(feats[k], bitmap) && CatalogName(feats[k].name))
  }

  lemma {:induction false} SumSizesPositive(feats: seq<FeatureDesc>, i: nat, j: nat)
    requires i <= j <= |feats|
    requires forall k :: 0 <= k < |feats| ==> feats[k].size > 0
    ensures SumSizes(feats[..i]) <= SumSizes(feats[..j])
    ensures 0 <= SumSizes(feats[..i])
  {
    PrefixSumMonotone(feats, i, j);
    PrefixSumMonotone(feats, 0, i);
    assert feats[..0] == [];
  }

  /** A packed sequence of non-empty descriptors is written out in full. */
  lemma WriteLinesPacked(feats: seq<FeatureDesc>, i: nat)
    requires i <= |feats|
    requires Packed(feats)
    requires forall k :: 0 <= k < |feats| ==> feats[k].size > 0
    ensures WriteLines(feats, i, SumSizes(feats[..i])).ok
    ensures WriteLines(feats, i, SumSizes(feats[..i])).total == SumSizes(feats)
  {
    WriteLinesPackedOk(feats, i);
    WriteLinesPackedTotal(feats, i);
  }

  lemma {:induction false} WriteLinesPackedOk(feats: seq<FeatureDesc>, i: nat)
    requires i <= |feats|
    requires Packed(feats)
    requires forall k :: 0 <= k < |feats| ==> feats[k].size > 0
    ensures WriteLines(feats, i, SumSizes(feats[..i])).ok
    decreases |feats| - i
  {
    if i < |feats| {
      WriteLinesPackedStep(feats, i);
      WriteLinesPackedOk(feats, i + 1);
    }
  }

  lemma {:induction false} WriteLinesPackedTotal(feats: seq<FeatureDesc>, i: nat)
    requires i <= |feats|
    requires Packed(feats)
    requires forall k :: 0 <= k < |feats| ==> feats[k].size > 0
    ensures WriteLines(feats, i, SumSizes(feats[..i])).total == SumSizes(feats)
    decreases |feats| - i
  {
    if i == |feats| {
      assert feats[..i] == feats;
    } else {
      WriteLinesPackedStep(feats, i);
      WriteLinesPackedTotal(feats, i + 1);
    }
  }

  /** One line of a packed sequence: the outcome from `i` is the outcome from `i + 1`. */
  lemma WriteLinesPackedStep(feats: seq<FeatureDesc>, i: nat)
    requires i < |feats|
    requires Packed(feats)
    requires feats[i].size > 0
    ensures WriteLines(feats, i, SumSizes(feats[..i])).ok == WriteLines(feats, i + 1, SumSizes(feats[..i + 1])).ok
    ensures WriteLines(feats, i, SumSizes(feats[..i])).total == WriteLines(feats, i + 1, SumSizes(feats[..i + 1])).total
  {
    assert feats[i].offset == SumSizes(feats[..i]);
    PrefixSumStep(feats, i);
    WriteLinesStep(feats, i, feats[i], SumSizes(feats[..i]), SumSizes(feats[..i + 1]));
  }

  /** The lines from `i` on start with the name of feature `i`, or are empty. */
  lemma WriteLinesStart(feats: seq<FeatureDesc>, i: nat)
    requires i <= |feats|
    requires Packed(feats)
    requires forall k :: 0 <= k < |feats| ==> feats[k].size > 0 && CatalogName(feats[k].name)
    ensures var t := WriteLines(feats, i, SumSizes(feats[..i])).text;
      t == [] || !IsSpace(t[0])
  {
    if i < |feats| {
      PrefixSumStep(feats, i);
      var name := feats[i].name;
      assert PrintName(name) == name;
      var more := WriteLines(feats, i + 1, SumSizes(feats[..i + 1]));
      var line := LineText(name, feats[i].offset, feats[i].size);
      assert (line + more.text)[0] == line[0] == name[0];
    }
  }

  /**
   * The set after reading back the first `i` of `feats`: the bits, byte
   * count and descriptors of that prefix, capacity for all of `feats`.
   */
  ghost predicate ReplayedPrefix(st: FeatureSetState, feats: seq<FeatureDesc>, i: nat)
    requires i <= |feats|
  {
    && st.bitmap == BuiltinBits(feats[..i])
    && st.bytesManaged as int == SumSizes(feats)
    && st.bytesUsed == SumSizes(feats[..i])
    && st.featCapacity as int == |feats|
    && st.feats == feats[..i]
  }

  lemma NameIsNew(feats: seq<FeatureDesc>, i: nat)
    requires DistinctNames(feats) && i < |feats|
    ensures NameIndex(feats[..i], feats[i].name).None?
  {
    forall k | 0 <= k < i ensures feats[..i][k].name != feats[i].name {
      assert feats[k].name != feats[i].name;
    }
  }

  lemma BuiltinIndexOfDesc(d: FeatureDesc, bitmap: set<nat>)
    requires DescOk(d, bitmap)
    ensures BuiltinIndex(d.name).Some? <==> d.isBuiltin
    ensures d.isBuiltin ==> BuiltinIndex(d.name) == Some(d.builtin as nat)
  {
    if d.isBuiltin {
      BuiltinIndexOfName(d.builtin);
    }
  }

  lemma BuiltinBitsStep(feats: seq<FeatureDesc>, i: nat)
    requires i < |feats|
    ensures BuiltinBits(feats[..i + 1]) ==
      BuiltinBits(feats[..i]) + (if feats[i].isBuiltin && feats[i].builtin >= 0 then {feats[i].builtin as nat} else {})
  {
    var a := feats[..i + 1];
    assert forall j :: 0 <= j < i ==> a[j] == feats[..i][j];
  }

  lemma PrefixStep(feats: seq<FeatureDesc>, i: nat)
    requires i < |feats|
    ensures feats[..i + 1] == feats[..i] + [feats[i]]
  {
  }

  /** Reading line `i` back is one accepted addition of descriptor `i`. */
  lemma ReplayAdd(feats: seq<FeatureDesc>, bitmap: set<nat>, i: nat, st: FeatureSetState)
    requires Replayable(feats, bitmap)
    requires i < |feats|
    requires !st.locked && ReplayedPrefix(st, feats, i)
    ensures AddSpec(st, feats[i].name, feats[i].size as uint16).ok
    ensures !AddSpec(st, feats[i].name, feats[i].size as uint16).state.locked
    ensures ReplayedPrefix(AddSpec(st, feats[i].name, feats[i].size as uint16).state, feats, i + 1)
  {
    var d := feats[i];
    assert DescOk(d, bitmap) && CatalogName(d.name);
    PrefixSumStep(feats, i);
    SumSizesPositive(feats, i + 1, |feats|);
    assert feats[..|feats|] == feats;
    RoundUp8Rounds(d.size as uint16);
    NameIsNew(feats, i);
    BuiltinIndexOfDesc(d, bitmap);
    BuiltinBitsStep(feats, i);
    PrefixStep(feats, i);
  }

  /** `lines` carry the names, offsets and sizes of `feats` from index `i` on. */
  ghost predicate LinesMatch(lines: seq<ScannedLine>, feats: seq<FeatureDesc>, i: nat) {
    && i + |lines| == |feats|
    && forall j :: 0 <= j < |lines| ==>
         lines[j].name == feats[i + j].name && lines[j].offset == feats[i + j].offset && lines[j].size == feats[i + j].size
  }

  lemma ScanLinesStep(s: string, line: ScannedLine)
    requires ScanLine(s) == Some(line)
    ensures ScanLines(s) == [line] + ScanLines(line.rest)
  {
  }

  lemma WriteLinesStep(feats: seq<FeatureDesc>, i: nat, d: FeatureDesc, total: int, total': int)
    requires i < |feats| && feats[i] == d && d.offset == total && d.size != 0 && total' == total + d.size
    ensures WriteLines(feats, i, total).ok == WriteLines(feats, i + 1, total').ok
    ensures WriteLines(feats, i, total).total == WriteLines(feats, i + 1, total').total
    ensures WriteLines(feats, i, total).text == LineText(d.name, d.offset, d.size) + WriteLines(feats, i + 1, total').text
  {
    var more := WriteLines(feats, i + 1, total + feats[i].size);
    var line := LineText(feats[i].name, feats[i].offset, feats[i].size);
    assert WriteLines(feats, i, total) == LinesOutcome(more.ok, line + more.text, more.total);
    assert more == WriteLines(feats, i + 1, total') && line == LineText(d.name, d.offset, d.size);
  }

  lemma ScanLinesEmpty()
    ensures ScanLines([]) == []
  {
    assert NameRun([], 20) == 0;
  }

  /** The lines the writer prints from feature `i` on scan back as those features. */
  lemma {:induction false} ScanWrittenLines(feats: seq<FeatureDesc>, bitmap: set<nat>, i: nat)
    requires Replayable(feats, bitmap)
    requires i <= |feats|
    ensures LinesMatch(ScanLines(WriteLines(feats, i, SumSizes(feats[..i])).text), feats, i)
    decreases |feats| - i
  {
    if i == |feats| {
      ScanWrittenEnd(feats, bitmap, i);
    } else {
      ScanWrittenLines(feats, bitmap, i + 1);
      ScanWrittenCons(feats, bitmap, i);
    }
  }

  lemma ScanWrittenEnd(feats: seq<FeatureDesc>, bitmap: set<nat>, i: nat)
    requires i == |feats|
    ensures LinesMatch(ScanLines(WriteLines(feats, i, SumSizes(feats[..i])).text), feats, i)
  {
    ScanLinesEmpty();
  }

  lemma ScanWrittenCons(feats: seq<FeatureDesc>, bitmap: set<nat>, i: nat)
    requires Replayable(feats, bitmap)
    requires i < |feats|
    requires LinesMatch(ScanLines(WriteLines(feats, i + 1, SumSizes(feats[..i + 1])).text), feats, i + 1)
    ensures LinesMatch(ScanLines(WriteLines(feats, i, SumSizes(feats[..i])).text), feats, i)
  {
    ScanWrittenLine(feats, bitmap, i);
    PrefixSumStep(feats, i);
    var more := WriteLines(feats, i + 1, SumSizes(feats[..i + 1])).text;
    LinesMatchCons(ScannedLine(feats[i].name, feats[i].offset, feats[i].size, more), ScanLines(more), feats, i);
  }

  /** Line `i` as printed scans back as descriptor `i`, followed by the lines after it. */
  lemma ScanWrittenLine(feats: seq<FeatureDesc>, bitmap: set<nat>, i: nat)
    requires Replayable(feats, bitmap)
    requires i < |feats|
    ensures ScanLines(WriteLines(feats, i, SumSizes(feats[..i])).text) ==
      [ScannedLine(feats[i].name, feats[i].offset, feats[i].size, WriteLines(feats, i + 1, SumSizes(feats[..i]) + feats[i].size).text)]
      + ScanLines(WriteLines(feats, i + 1, SumSizes(feats[..i]) + feats[i].size).text)
  {
    var d := feats[i];
    ReplayBounds(feats, bitmap, i);
    assert CatalogName(d.name);
    PrefixSumStep(feats, i);
    var offset := SumSizes(feats[..i]);
    var more := WriteLines(feats, i + 1, SumSizes(feats[..i + 1])).text;
    WriteLinesStart(feats, i + 1);
    ScanLineText(d.name, offset, d.size, more);
    WriteLinesStep(feats, i, d, offset, SumSizes(feats[..i + 1]));
    ScanLinesStep(LineText(d.name, offset, d.size) + more, ScannedLine(d.name, offset, d.size, more));
  }

  lemma LinesMatchCons(line: ScannedLine, lines: seq<ScannedLine>, feats: seq<FeatureDesc>, i: nat)
    requires i < |feats|
    requires line.name == feats[i].name && line.offset == feats[i].offset && line.size == feats[i].size
    requires LinesMatch(lines, feats, i + 1)
    ensures LinesMatch([line] + lines, feats, i)
  {
    var all := [line] + lines;
    forall j | 0 <= j < |all|
      ensures all[j].name == feats[i + j].name && all[j].offset == feats[i + j].offset && all[j].size == feats[i + j].size
    {
      if j > 0 {
        assert all[j] == lines[j - 1];
      }
    }
  }

  lemma LinesMatchTail(lines: seq<ScannedLine>, feats: seq<FeatureDesc>, i: nat)
    requires lines != [] && LinesMatch(lines, feats, i)
    ensures LinesMatch(lines[1..], feats, i + 1)
  {
    forall j | 0 <= j < |lines[1..]|
      ensures lines[1..][j].name == feats[i + 1 + j].name && lines[1..][j].offset == feats[i + 1 + j].offset
           && lines[1..][j].size == feats[i + 1 + j].size
    {
      assert lines[1..][j] == lines[j + 1];
    }
  }

  /** A line that passes the reader's own checks is added under the name read. */
  lemma AcceptLineAdds(st: FeatureSetState, line: ScannedLine, size: int, totSize: int)
    requires size <= MaxReservedPageSize
    requires line.name != [] && '\0' !in line.name
    requires 0 <= line.offset <= size && 0 < line.size <= size && line.offset == totSize
    requires AddSpec(st, line.name, line.size as uint16).ok
    ensures AcceptLine(st, line, size, totSize) == LineAccepted(AddSpec(st, line.name, line.size as uint16).state)
  {
    assert CStr(line.name) == line.name;
  }

  lemma ReplayableSizes(feats: seq<FeatureDesc>, bitmap: set<nat>)
    requires Replayable(feats, bitmap)
    ensures forall k :: 0 <= k < |feats| ==> feats[k].size > 0
  {
    forall k | 0 <= k < |feats| ensures feats[k].size > 0 {
      assert DescOk(feats[k], bitmap);
    }
  }

  lemma SizeWithinTotal(feats: seq<FeatureDesc>, i: nat)
    requires forall k :: 0 <= k < |feats| ==> feats[k].size > 0
    requires i < |feats|
    ensures 0 <= SumSizes(feats[..i]) && SumSizes(feats[..i]) + feats[i].size <= SumSizes(feats)
  {
    PrefixSumStep(feats, i);
    SumSizesPositive(feats, i, |feats|);
    SumSizesPositive(feats, i + 1, |feats|);
    assert feats[..|feats|] == feats;
  }

  /** The line of descriptor `i` lies within the byte total and starts where the earlier ones end. */
  lemma ReplayBounds(feats: seq<FeatureDesc>, bitmap: set<nat>, i: nat)
    requires Replayable(feats, bitmap)
    requires i < |feats|
    ensures feats[i].name != [] && '\0' !in feats[i].name
    ensures 0 <= feats[i].offset <= SumSizes(feats) && 0 < feats[i].size <= SumSizes(feats)
    ensures feats[i].offset == SumSizes(feats[..i])
  {
    assert DescOk(feats[i], bitmap) && CatalogName(feats[i].name);
    ReplayableSizes(feats, bitmap);
    SizeWithinTotal(feats, i);
  }

  /** Reading back the lines of features `i` on adds exactly those features. */
  lemma {:induction false} ReplayFrom(feats: seq<FeatureDesc>, bitmap: set<nat>, i: nat, st: FeatureSetState, lines: seq<ScannedLine>)
    requires Replayable(feats, bitmap)
    requires i <= |feats| && SumSizes(feats) <= MaxReservedPageSize
    requires !st.locked && ReplayedPrefix(st, feats, i)
    requires LinesMatch(lines, feats, i)
    ensures ReadBody(st, lines, |feats|, SumSizes(feats), i, SumSizes(feats[..i]))
         == ReadOk(st.(bitmap := BuiltinBits(feats), bytesUsed := SumSizes(feats), locked := true, feats := feats))
    decreases |feats| - i
  {
    if i == |feats| {
      assert feats[..i] == feats;
    } else {
      var next := AddSpec(st, feats[i].name, feats[i].size as uint16).state;
      ReplayStep(feats, bitmap, i, st, lines);
      ReplayFrom(feats, bitmap, i + 1, next, lines[1..]);
      assert next.bytesManaged == st.bytesManaged && next.featCapacity == st.featCapacity;
    }
  }

  /** Line `i` is accepted as descriptor `i`, and the replay goes on from the set it leaves. */
  lemma ReplayStep(feats: seq<FeatureDesc>, bitmap: set<nat>, i: nat, st: FeatureSetState, lines: seq<ScannedLine>)
    requires Replayable(feats, bitmap)
    requires i < |feats| && SumSizes(feats) <= MaxReservedPageSize
    requires !st.locked && ReplayedPrefix(st, feats, i)
    requires LinesMatch(lines, feats, i)
    ensures var next := AddSpec(st, feats[i].name, feats[i].size as uint16).state;
      && !next.locked && ReplayedPrefix(next, feats, i + 1)
      && lines != [] && LinesMatch(lines[1..], feats, i + 1)
      && ReadBody(st, lines, |feats|, SumSizes(feats), i, SumSizes(feats[..i]))
         == ReadBody(next, lines[1..], |feats|, SumSizes(feats), i + 1, SumSizes(feats[..i + 1]))
  {
    var next := AddSpec(st, feats[i].name, feats[i].size as uint16).state;
    ReplayAdd(feats, bitmap, i, st);
    ReplayBounds(feats, bitmap, i);
    AcceptLineAdds(st, lines[0], SumSizes(feats), SumSizes(feats[..i]));
    PrefixSumStep(feats, i);
    ReadBodyAccepted(st, lines, |feats|, SumSizes(feats), i, SumSizes(feats[..i]), next, SumSizes(feats[..i + 1]));
    LinesMatchTail(lines, feats, i);
  }

  /** A well-formed set keeps its descriptors' names through reordering. */
  lemma OptimizeKeepsCatalogNames(s: FeatureSetState)
    requires WellFormed(s)
    requires forall k :: 0 <= k < |s.feats| ==> CatalogName(s.feats[k].name)
    ensures forall k :: 0 <= k < |OptimizeSpec(s).feats| ==> CatalogName(OptimizeSpec(s).feats[k].name)
  {
    if !(s.locked || s.bitmap == {} || |s.feats| <= 1) {
      var order := OptimizedOrder(s.feats, s.bitmap);
      assert multiset(order) == multiset(s.feats) by {
        OptimizedOrderPermutes(s);
      }
      CatalogNamesPermuted(s.feats, order);
      CatalogNamesRelayout(order);
    }
  }

  lemma CatalogNamesPermuted(a: seq<FeatureDesc>, b: seq<FeatureDesc>)
    requires multiset(a) == multiset(b)
    requires forall k :: 0 <= k < |a| ==> CatalogName(a[k].name)
    ensures forall k :: 0 <= k < |b| ==> CatalogName(b[k].name)
  {
    forall k | 0 <= k < |b| ensures CatalogName(b[k].name) {
      assert b[k] in multiset(a);
      var j :| 0 <= j < |a| && a[j] == b[k];
    }
  }

  lemma CatalogNamesRelayout(a: seq<FeatureDesc>)
    requires forall k :: 0 <= k < |a| ==> CatalogName(a[k].name)
    ensures forall k :: 0 <= k < |Relayout(a)| ==> CatalogName(Relayout(a)[k].name)
  {
    forall k | 0 <= k < |a| ensures Relayout(a)[k].name == a[k].name {
      RelayoutIndex(a, k);
    }
  }

  /**
   * Writing a well-formed set succeeds exactly when the file can be
   * created; it always leaves the set reordered, and locks it on success.
   */
  lemma WriteOutcomes(s: FeatureSetState, canCreate: bool)
    requires WellFormed(s)
    ensures WriteSpec(s, canCreate).ok <==> canCreate
    ensures WriteSpec(s, canCreate).state == OptimizeSpec(s).(locked := canCreate || OptimizeSpec(s).locked)
    ensures WellFormed(WriteSpec(s, canCreate).state)
    ensures canCreate ==>
      WriteSpec(s, canCreate).text == HeaderText(|s.feats|, s.bytesUsed) + WriteLines(OptimizeSpec(s).feats, 0, 0).text
  {
    var o := OptimizeSpec(s);
    OptimizePreservesWellFormed(s);
    assert o.feats[..0] == [];
    forall k | 0 <= k < |o.feats| ensures o.feats[k].size > 0 {
      assert DescOk(o.feats[k], o.bitmap);
    }
    WriteLinesPacked(o.feats, 0);
  }

  /** A header with a count and total in range hands the lines after it to the replay. */
  lemma ReadHeader(count: nat, size: nat, rest: string)
    requires count <= MAX_PAGE_FEATURES && size <= MaxReservedPageSize
    requires rest == [] || !IsSpace(rest[0])
    ensures ReadSpec(HeaderText(count, size) + rest) ==
      ReadBody(NewState(size as uint16, count as uint16), ScanLines(rest), count, size, 0, 0)
  {
    ScanHeaderText(count, size, rest);
  }

  /** What the writer prints for replayable descriptors reads back as those descriptors. */
  lemma ReadWritten(feats: seq<FeatureDesc>, bitmap: set<nat>)
    requires Replayable(feats, bitmap)
    requires |feats| <= MAX_PAGE_FEATURES && 0 <= SumSizes(feats) <= MaxReservedPageSize
    ensures ReadSpec(HeaderText(|feats|, SumSizes(feats)) + WriteLines(feats, 0, 0).text) ==
      ReadOk(FeatureSetState(BuiltinBits(feats), SumSizes(feats) as uint16, SumSizes(feats), |feats| as uint16, true, feats))
  {
    assert feats[..0] == [];
    var st := NewState(SumSizes(feats) as uint16, |feats| as uint16);
    ReplayableSizes(feats, bitmap);
    WriteLinesStart(feats, 0);
    ReadHeader(|feats|, SumSizes(feats), WriteLines(feats, 0, 0).text);
    ScanWrittenLines(feats, bitmap, 0);
    ReplayFrom(feats, bitmap, 0, st, ScanLines(WriteLines(feats, 0, 0).text));
  }

  /** The reordered set of a set that could be written and read back still can be. */
  lemma OptimizeReplayable(s: FeatureSetState)
    requires WellFormed(s) && DistinctNames(s.feats)
    requires forall k :: 0 <= k < |s.feats| ==> CatalogName(s.feats[k].name)
    ensures Replayable(OptimizeSpec(s).feats, s.bitmap)
    ensures |OptimizeSpec(s).feats| == |s.feats| && SumSizes(OptimizeSpec(s).feats) == s.bytesUsed
  {
    OptimizePreservesWellFormed(s);
    OptimizeKeepsNamesDistinct(s);
    OptimizeKeepsCatalogNames(s);
    var o := OptimizeSpec(s);
    assert o.bitmap == s.bitmap;
    forall k | 0 <= k < |o.feats| ensures DescOk(o.feats[k], s.bitmap) {
      assert o.feats[k] in o.feats;
    }
  }

  /**
   * The round trip: a well-formed set whose names survive the file
   * format, written out, reads back as the same features at the same
   * offsets, locked, with exactly the capacity it uses.  The bitmap read
   * back holds only the bits of features present.
   */
  lemma WriteThenRead(s: FeatureSetState)
    requires WellFormed(s) && DistinctNames(s.feats)
    requires forall k :: 0 <= k < |s.feats| ==> CatalogName(s.feats[k].name)
    requires |s.feats| <= MAX_PAGE_FEATURES && s.bytesUsed <= MaxReservedPageSize
    ensures WriteSpec(s, true).ok
    ensures ReadSpec(WriteSpec(s, true).text) ==
      ReadOk(FeatureSetState(BuiltinBits(WriteSpec(s, true).state.feats), s.bytesUsed as uint16, s.bytesUsed,
                             |s.feats| as uint16, true, WriteSpec(s, true).state.feats))
  {
    WriteOutcomes(s, true);
    OptimizeReplayable(s);
    ReadWritten(OptimizeSpec(s).feats, s.bitmap);
  }
}
