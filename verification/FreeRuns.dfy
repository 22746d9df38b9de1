/** Free space as merged runs, read from allocation bitmaps (`free_extents` of src/ext4.rs and src/exfat.rs). */
module FreeRuns {
  import opened Bytes
  import opened Arith

  // --- runs of consecutive free units, by index ---

  datatype Span = Span(lo: nat, hi: nat)

  /** A free unit extends the last run if it starts right where that ends, else it starts a new one. */
  function Add(spans: seq<Span>, n: nat, isFree: bool): seq<Span> {
    if !isFree then spans
    else if spans != [] && spans[|spans| - 1].hi == n then spans[..|spans| - 1] + [Span(spans[|spans| - 1].lo, n + 1)]
    else spans + [Span(n, n + 1)]
  }

  function Spans(free: seq<bool>): seq<Span> {
    if free == [] then [] else Add(Spans(free[..|free| - 1]), |free| - 1, free[|free| - 1])
  }

  function CountFree(free: seq<bool>): nat {
    if free == [] then 0 else CountFree(free[..|free| - 1]) + (if free[|free| - 1] then 1 else 0)
  }

  function TotalLength(spans: seq<Span>): int {
    if spans == [] then 0 else TotalLength(spans[..|spans| - 1]) + spans[|spans| - 1].hi - spans[|spans| - 1].lo
  }

  predicate Covers(spans: seq<Span>, i: nat) { exists k :: 0 <= k < |spans| && spans[k].lo <= i < spans[k].hi }

  /** Sorted, non-empty, inside 0..n, and with a gap between neighbours: no two could be merged. */
  predicate Separated(spans: seq<Span>, n: nat) {
    && (forall k :: 0 <= k < |spans| ==> spans[k].lo < spans[k].hi <= n)
    && (forall j, k :: 0 <= j < k < |spans| ==> spans[j].hi < spans[k].lo)
  }

  /** The runs are exactly the free set. */
  ghost predicate IsFreeSet(spans: seq<Span>, free: seq<bool>) {
    && Separated(spans, |free|)
    && (forall i :: 0 <= i < |free| ==> (free[i] <==> Covers(spans, i)))
    && TotalLength(spans) == CountFree(free)
  }

  lemma ExtendLast(spans: seq<Span>, n: nat)
    requires Separated(spans, n) && spans != [] && spans[|spans| - 1].hi == n
    ensures var more := spans[..|spans| - 1] + [Span(spans[|spans| - 1].lo, n + 1)];
            && Separated(more, n + 1) && TotalLength(more) == TotalLength(spans) + 1
            && forall i: nat :: Covers(more, i) <==> Covers(spans, i) || i == n
  {
    var last := |spans| - 1;
    var more := spans[..last] + [Span(spans[last].lo, n + 1)];
    assert more[..last] == spans[..last];
    forall i: nat ensures Covers(more, i) <==> Covers(spans, i) || i == n {
      if Covers(spans, i) {
        var k :| 0 <= k < |spans| && spans[k].lo <= i < spans[k].hi;
        assert more[k].lo <= i < more[k].hi;
      }
      if i == n { assert more[last].lo <= i < more[last].hi; }
      if Covers(more, i) && i != n {
        var k :| 0 <= k < |more| && more[k].lo <= i < more[k].hi;
        assert spans[k].lo <= i < spans[k].hi;
      }
    }
  }

  lemma StartNew(spans: seq<Span>, n: nat)
    requires Separated(spans, n) && (spans != [] ==> spans[|spans| - 1].hi != n)
    ensures var more := spans + [Span(n, n + 1)];
            && Separated(more, n + 1) && TotalLength(more) == TotalLength(spans) + 1
            && forall i: nat :: Covers(more, i) <==> Covers(spans, i) || i == n
  {
    var more := spans + [Span(n, n + 1)];
    assert more[..|spans|] == spans;
    forall i: nat ensures Covers(more, i) <==> Covers(spans, i) || i == n {
      if Covers(spans, i) {
        var k :| 0 <= k < |spans| && spans[k].lo <= i < spans[k].hi;
        assert more[k].lo <= i < more[k].hi;
      }
      if i == n { assert more[|spans|].lo <= i < more[|spans|].hi; }
    }
  }

  lemma AddKeeps(spans: seq<Span>, n: nat, isFree: bool)
    requires Separated(spans, n)
    ensures Separated(Add(spans, n, isFree), n + 1)
    ensures TotalLength(Add(spans, n, isFree)) == TotalLength(spans) + (if isFree then 1 else 0)
    ensures forall i: nat :: i <= n ==>
            (Covers(Add(spans, n, isFree), i) <==> if i == n then isFree else Covers(spans, i))
  {
    hide Covers, TotalLength;
    Uncovered(spans, n);
    if isFree {
      if spans != [] && spans[|spans| - 1].hi == n { ExtendLast(spans, n); } else { StartNew(spans, n); }
    }
  }

  lemma Uncovered(spans: seq<Span>, n: nat)
    requires Separated(spans, n)
    ensures !Covers(spans, n)
  {
  }

  /** Merging unit by unit yields exactly the free set, in maximal runs. */
  lemma {:induction false} SpansAreTheFreeSet(free: seq<bool>)
    ensures IsFreeSet(Spans(free), free)
  {
    hide Covers, Separated, Add, TotalLength;
    if free == [] {
      NoSpans();
    } else {
      var n := |free| - 1;
      SpansAreTheFreeSet(free[..n]);
      AddKeeps(Spans(free[..n]), n, free[n]);
      forall i | 0 <= i < |free| ensures free[i] <==> Covers(Spans(free), i) {
        if i < n { assert free[..n][i] == free[i]; }
      }
    }
  }

  lemma NoSpans()
    ensures Separated([], 0) && TotalLength([]) == 0 && forall i: nat :: !Covers([], i)
  {
  }

  /** There is only one list of maximal runs for a free set. */
  lemma {:induction false} FreeSetDecidesSpans(a: seq<Span>, b: seq<Span>, free: seq<bool>)
    requires IsFreeSet(a, free) && IsFreeSet(b, free)
    ensures a == b
  {
    forall k | 0 <= k < |a| || 0 <= k < |b| ensures k < |a| && k < |b| && a[k] == b[k] { SameSpan(a, b, free, k); }
  }

  lemma {:induction false} SameSpan(a: seq<Span>, b: seq<Span>, free: seq<bool>, k: nat)
    requires IsFreeSet(a, free) && IsFreeSet(b, free) && (k < |a| || k < |b|)
    ensures k < |a| && k < |b| && a[k] == b[k]
  {
    if k > 0 { SameSpan(a, b, free, k - 1); }
    if k < |a| { NextSpan(a, b, free, k); }
    if k < |b| { NextSpan(b, a, free, k); }
  }

  /** If the lists agree before `k`, the next run of `b` is not behind the next run of `a`, and not shorter. */
  lemma NextSpan(a: seq<Span>, b: seq<Span>, free: seq<bool>, k: nat)
    requires IsFreeSet(a, free) && IsFreeSet(b, free) && k < |a| && k <= |b| && (k > 0 ==> a[k - 1] == b[k - 1])
    ensures k < |b| && b[k].lo <= a[k].lo && (a[k].lo == b[k].lo ==> a[k].hi <= b[k].hi)
  {
    assert Covers(a, a[k].lo) by { assert a[k].lo <= a[k].lo < a[k].hi; }
    var j :| 0 <= j < |b| && b[j].lo <= a[k].lo < b[j].hi;
    assert j >= k;
    EndIsUncovered(b, |free|, k);
    assert a[k].lo <= b[k].hi < a[k].hi ==> Covers(a, b[k].hi);
  }

  lemma EndIsUncovered(spans: seq<Span>, n: nat, k: nat)
    requires Separated(spans, n) && k < |spans|
    ensures !Covers(spans, spans[k].hi)
  {
    forall i | 0 <= i < |spans| ensures !(spans[i].lo <= spans[k].hi < spans[i].hi) { }
  }

  // --- the same runs as byte ranges ---

  /** (start, length) in bytes, for units of `unit` bytes of which number 0 lies at `origin`. */
  function Extent(s: Span, origin: nat, unit: nat): (nat, int) {
    (origin + s.lo * unit, (s.hi - s.lo) * unit)
  }

  function Extents(spans: seq<Span>, origin: nat, unit: nat): (r: seq<(nat, int)>)
    ensures |r| == |spans|
  {
    seq(|spans|, i requires 0 <= i < |spans| => Extent(spans[i], origin, unit))
  }

  lemma EndOfExtent(s: Span, origin: nat, unit: nat, n: nat)
    requires unit > 0
    ensures var (start, len) := Extent(s, origin, unit);
            && start + len == origin + s.hi * unit
            && (start + len == origin + n * unit <==> s.hi == n)
            && len + unit == (s.hi + 1 - s.lo) * unit
  {
    assert s.lo * unit + (s.hi - s.lo) * unit == s.hi * unit;
    assert (s.hi - n) * unit == s.hi * unit - n * unit;
    assert (s.hi + 1 - s.lo) * unit == (s.hi - s.lo) * unit + unit;
  }

  /** `match out.last_mut()`: lengthen the last range or start a new one, told apart by their byte positions. */
  function Push(out: seq<(nat, int)>, start: nat, unit: nat): seq<(nat, int)> {
    if out != [] && out[|out| - 1].0 + out[|out| - 1].1 == start then
      out[|out| - 1 := (out[|out| - 1].0, out[|out| - 1].1 + unit)]
    else out + [(start, unit)]
  }

  /** On byte ranges it does what `Add` does on runs. */
  lemma PushIsAdd(spans: seq<Span>, origin: nat, unit: nat, n: nat)
    requires unit > 0
    ensures Push(Extents(spans, origin, unit), origin + n * unit, unit) == Extents(Add(spans, n, true), origin, unit)
  {
    hide Extent;
    var out := Extents(spans, origin, unit);
    assert Extent(Span(n, n + 1), origin, unit) == (origin + n * unit, unit) by { OneUnit(n, origin, unit); }
    if spans != [] {
      var s := spans[|spans| - 1];
      EndOfExtent(s, origin, unit, n);
      if s.hi == n {
        assert Extent(Span(s.lo, n + 1), origin, unit) == (out[|out| - 1].0, out[|out| - 1].1 + unit) by {
          Lengthened(s, n, origin, unit);
        }
      }
    }
  }

  lemma OneUnit(n: nat, origin: nat, unit: nat)
    ensures Extent(Span(n, n + 1), origin, unit) == (origin + n * unit, unit)
  {
  }

  lemma Lengthened(s: Span, n: nat, origin: nat, unit: nat)
    requires unit > 0 && s.hi == n
    ensures Extent(Span(s.lo, n + 1), origin, unit) == (Extent(s, origin, unit).0, Extent(s, origin, unit).1 + unit)
  {
    EndOfExtent(s, origin, unit, n);
  }

  /** The byte lengths add up to the unit size times the number of free units. */
  function TotalBytes(out: seq<(nat, int)>): int {
    if out == [] then 0 else TotalBytes(out[..|out| - 1]) + out[|out| - 1].1
  }

  lemma {:induction false} TotalOfExtents(spans: seq<Span>, origin: nat, unit: nat)
    ensures TotalBytes(Extents(spans, origin, unit)) == TotalLength(spans) * unit
  {
    if spans != [] {
      var front, last := spans[..|spans| - 1], spans[|spans| - 1];
      TotalOfExtents(front, origin, unit);
      assert Extents(spans, origin, unit)[..|spans| - 1] == Extents(front, origin, unit);
      assert (TotalLength(front) + (last.hi - last.lo)) * unit
        == TotalLength(front) * unit + (last.hi - last.lo) * unit;
    }
  }

  /** Byte `x` lies in one of the ranges. */
  ghost predicate InRange(out: seq<(nat, int)>, x: nat) {
    exists k :: 0 <= k < |out| && out[k].0 <= x < out[k].0 + out[k].1
  }

  lemma InExtentIff(s: Span, origin: nat, unit: nat, x: nat)
    requires unit > 0 && s.lo <= s.hi
    ensures var (start, len) := Extent(s, origin, unit);
            start <= x < start + len <==> origin <= x && s.lo <= (x - origin) / unit < s.hi
  {
    Monotone(0, s.lo, unit);
    if origin <= x {
      Below(x - origin, s.lo, unit);
      Below(x - origin, s.hi, unit);
      EndOfExtent(s, origin, unit, s.hi);
    }
  }

  lemma InRangeIffCovered(spans: seq<Span>, n: nat, origin: nat, unit: nat, x: nat)
    requires unit > 0 && Separated(spans, n)
    ensures InRange(Extents(spans, origin, unit), x) <==> origin <= x && Covers(spans, (x - origin) / unit)
  {
    hide Extent;
    var out := Extents(spans, origin, unit);
    forall k | 0 <= k < |spans|
      ensures out[k].0 <= x < out[k].0 + out[k].1 <==> origin <= x && spans[k].lo <= (x - origin) / unit < spans[k].hi
    {
      InExtentIff(spans[k], origin, unit, x);
    }
  }

  /** A byte lies in a range exactly when its unit is free. */
  lemma InRangeIff(free: seq<bool>, origin: nat, unit: nat, x: nat)
    requires unit > 0
    ensures InRange(Extents(Spans(free), origin, unit), x)
        <==> origin <= x && (x - origin) / unit < |free| && free[(x - origin) / unit]
  {
    hide Spans, InRange, Separated, Covers;
    SpansAreTheFreeSet(free);
    InRangeIffCovered(Spans(free), |free|, origin, unit, x);
    if origin <= x && Covers(Spans(free), (x - origin) / unit) {
      CoveredInside(Spans(free), |free|, (x - origin) / unit);
    }
  }

  lemma CoveredInside(spans: seq<Span>, n: nat, i: nat)
    requires Separated(spans, n) && Covers(spans, i)
    ensures i < n
  {
  }

  // --- bitmaps ---

  /** `b & (1 << k) != 0`. */
  predicate BitSet(b: byte, k: nat)
    requires k < 8
  {
    b / [1, 2, 4, 8, 16, 32, 64, 128][k] % 2 == 1
  }

  /** A bit past the bitmap that was read counts as allocated. */
  predicate Allocated(bitmap: seq<byte>, bit: nat) { bit / 8 < |bitmap| ==> BitSet(bitmap[bit / 8], bit % 8) }

  // --- ext2/3/4: one bitmap per block group ---

  datatype ExtVolume = ExtVolume(
    offset: nat, blockSize: nat, totalBlocks: nat, blockBitmaps: seq<nat>, blocksPerGroup: nat, firstDataBlock: nat)

  function ReadBlock(vol: ExtVolume, src: seq<byte>, block: nat): seq<byte> {
    ReadAt(src, SatAdd(vol.offset, SatMul(block, vol.blockSize)), vol.blockSize)
  }

  function BlockOffset(vol: ExtVolume, block: nat): nat { vol.offset + block * vol.blockSize }

  /** How many blocks have a bitmap: the walk ends at the first group without one. */
  function BlockCount(vol: ExtVolume): nat
    requires vol.blocksPerGroup > 0
  {
    Min(Max(0, vol.totalBlocks - vol.firstDataBlock), |vol.blockBitmaps| * vol.blocksPerGroup)
  }

  /** Whether block `rel`, counted from the first data block, is free. */
  predicate BlockFree(vol: ExtVolume, src: seq<byte>, rel: nat)
    requires vol.blocksPerGroup > 0
  {
    rel / vol.blocksPerGroup < |vol.blockBitmaps|
    && !Allocated(ReadBlock(vol, src, vol.blockBitmaps[rel / vol.blocksPerGroup]), rel % vol.blocksPerGroup)
  }

  function FreeBlocks(vol: ExtVolume, src: seq<byte>, n: nat): (free: seq<bool>)
    requires vol.blocksPerGroup > 0
    ensures |free| == n
  {
    seq(n, i requires 0 <= i < n => BlockFree(vol, src, i))
  }

  /** `free_extents` of an ext volume: the maximal runs of its free blocks, across group boundaries. */
  method ExtFreeExtents(vol: ExtVolume, src: seq<byte>) returns (out: seq<(nat, int)>)
    requires vol.blockSize > 0
    ensures vol.blocksPerGroup == 0 ==> out == []
    ensures vol.blocksPerGroup > 0 ==>
              out == Extents(Spans(FreeBlocks(vol, src, BlockCount(vol))), BlockOffset(vol, vol.firstDataBlock),
                             vol.blockSize)
  {
    hide Add, Extent, Allocated, ReadBlock, Spans, Push, Extents, BlockFree, BlockOffset;
    if vol.blocksPerGroup == 0 {
      return [];
    }
    out := [];
    var curGroup: Option<nat> := None;
    var bitmap: seq<byte> := [];
    var block := vol.firstDataBlock;
    ghost var origin := BlockOffset(vol, vol.firstDataBlock);
    ghost var rels: nat := 0;
    NoBlocks(vol, src);
    while block < vol.totalBlocks
      invariant block == vol.firstDataBlock + rels && rels <= |vol.blockBitmaps| * vol.blocksPerGroup
      invariant block <= Max(vol.totalBlocks, vol.firstDataBlock)
      invariant curGroup.Some? ==>
                  && curGroup.value < |vol.blockBitmaps|
                  && bitmap == ReadBlock(vol, src, vol.blockBitmaps[curGroup.value])
      invariant out == Extents(Spans(FreeBlocks(vol, src, rels)), origin, vol.blockSize)
    {
      var rel := block - vol.firstDataBlock;
      var group := rel / vol.blocksPerGroup;
      Below(rel, |vol.blockBitmaps|, vol.blocksPerGroup);
      if curGroup != Some(group) {
        if group >= |vol.blockBitmaps| {
          break;
        }
        bitmap := ReadBlock(vol, src, vol.blockBitmaps[group]);
        curGroup := Some(group);
      }
      var free := !Allocated(bitmap, rel % vol.blocksPerGroup);
      NextBlock(vol, src, rel);
      if free {
        out := Push(out, BlockOffset(vol, block), vol.blockSize);
      }
      block := block + 1;
      rels := rels + 1;
    }
  }

  lemma NoBlocks(vol: ExtVolume, src: seq<byte>)
    requires vol.blocksPerGroup > 0
    ensures Extents(Spans(FreeBlocks(vol, src, 0)), BlockOffset(vol, vol.firstDataBlock), vol.blockSize) == []
  {
  }

  /** What one more block does to the ranges. */
  lemma NextBlock(vol: ExtVolume, src: seq<byte>, rel: nat)
    requires vol.blockSize > 0 && vol.blocksPerGroup > 0 && rel / vol.blocksPerGroup < |vol.blockBitmaps|
    ensures var origin := BlockOffset(vol, vol.firstDataBlock);
            var out := Extents(Spans(FreeBlocks(vol, src, rel)), origin, vol.blockSize);
            var bitmap := ReadBlock(vol, src, vol.blockBitmaps[rel / vol.blocksPerGroup]);
            Extents(Spans(FreeBlocks(vol, src, rel + 1)), origin, vol.blockSize)
            == if Allocated(bitmap, rel % vol.blocksPerGroup) then out
               else Push(out, BlockOffset(vol, vol.firstDataBlock + rel), vol.blockSize)
  {
    hide Add, Extent, Allocated, ReadBlock, Push, Extents, BlockOffset;
    var before := FreeBlocks(vol, src, rel);
    assert FreeBlocks(vol, src, rel + 1)[..rel] == before;
    StartOfBlock(vol, rel);
    PushIsAdd(Spans(before), BlockOffset(vol, vol.firstDataBlock), vol.blockSize, rel);
    NotAdded(Spans(before), rel);
  }

  lemma NotAdded(spans: seq<Span>, n: nat)
    ensures Add(spans, n, false) == spans
  {
  }

  lemma StartOfBlock(vol: ExtVolume, rel: nat)
    ensures BlockOffset(vol, vol.firstDataBlock + rel) == BlockOffset(vol, vol.firstDataBlock) + rel * vol.blockSize
  {
  }

  // --- exFAT: one bitmap for all clusters ---

  datatype ExfatVolume = ExfatVolume(
    offset: nat, bytesPerSector: nat, sectorsPerCluster: nat, heapOffsetSectors: nat, clusterCount: nat,
    fatOffsetSectors: nat)
  {
    /**
     * The volumes whose clusters have a size: those that `ParsedIff` tells from the others that `Volume::parse`
     * accepts.
     */
    predicate Parsed() {
      && bytesPerSector > 0 && sectorsPerCluster > 0 && clusterCount <= 0xFFFF_FFFF
      && offset + (heapOffsetSectors + clusterCount * sectorsPerCluster) * bytesPerSector < U64_LIMIT
    }
  }

  // --- the two shifts of the boot sector ---

  /** The check in `Volume::parse`: the sum of the two bytes is one byte itself. */
  predicate ShiftsAccepted(sectorShift: byte, clusterShift: byte) {
    9 <= sectorShift <= 12 && (sectorShift + clusterShift) % 256 <= 25
  }

  function Pow2(n: nat): (p: nat)
    ensures p > 0
  {
    if n == 0 then 1 else 2 * Pow2(n - 1)
  }

  lemma {:induction false} Pow2Sum(a: nat, b: nat)
    ensures Pow2(a + b) == Pow2(a) * Pow2(b)
  {
    if a > 0 { Pow2Sum(a - 1, b); }
  }

  lemma {:induction false} Pow2Grows(a: nat, b: nat)
    requires a <= b
    ensures Pow2(a) <= Pow2(b)
  {
    if a < b { Pow2Grows(a, b - 1); }
  }

  lemma BitMeans(b: byte, k: nat)
    requires k < 8
    ensures BitSet(b, k) <==> b / Pow2(k) % 2 == 1
  {
    hide Pow2;
    EightPowers();
  }

  lemma EightPowers()
    ensures Pow2(0) == 1 && Pow2(1) == 2 && Pow2(2) == 4 && Pow2(3) == 8
    ensures Pow2(4) == 16 && Pow2(5) == 32 && Pow2(6) == 64 && Pow2(7) == 128
  {
  }

  /** `1u64 << n` looks at the lower six bits of `n`. */
  function ShiftedOne(n: byte): nat { Pow2(n % 64) }

  /** The volume has the fields of such a boot sector, at an offset in the lower half of the 64-bit range. */
  predicate FromBootSector(vol: ExfatVolume, sectorShift: byte, clusterShift: byte) {
    && ShiftsAccepted(sectorShift, clusterShift)
    && vol.bytesPerSector == ShiftedOne(sectorShift) && vol.sectorsPerCluster == ShiftedOne(clusterShift)
    && vol.heapOffsetSectors <= 0xFFFF_FFFF && vol.clusterCount <= 0xFFFF_FFFF && vol.offset < 0x8000_0000_0000_0000
  }

  lemma WrappedShifts(sectorShift: byte, clusterShift: byte)
    requires ShiftsAccepted(sectorShift, clusterShift) && sectorShift + clusterShift > 25
    ensures (ShiftedOne(sectorShift) * ShiftedOne(clusterShift)) % U64_LIMIT == 0
  {
    hide Pow2;
    var k: nat := sectorShift + clusterShift - 256;
    assert clusterShift % 64 == clusterShift - 192 && sectorShift % 64 == sectorShift;
    Pow2Sum(sectorShift, clusterShift - 192);
    Pow2Sum(64, k);
    TwoTo64();
    TimesIsMultiple(Pow2(k), U64_LIMIT);
  }

  lemma SmallPowers()
    ensures Pow2(1) == 2 && Pow2(4) == 16
  {
  }

  lemma TwoTo64()
    ensures Pow2(64) == U64_LIMIT && Pow2(25) == 0x200_0000 && Pow2(12) == 0x1000
  {
    hide Pow2;
    SmallPowers();
    Pow2Sum(4, 4);
    Pow2Sum(8, 4);
    Pow2Sum(8, 8);
    Pow2Sum(16, 8);
    Pow2Sum(24, 1);
    Pow2Sum(16, 16);
    Pow2Sum(32, 32);
  }

  lemma TimesIsMultiple(k: nat, m: nat)
    requires m > 0
    ensures (m * k) % m == 0
  {
    InGroup(k, 0, m);
  }

  /**
   * A volume whose shifts are accepted is one that the rest of this module speaks of exactly when their sum did not
   * wrap; then clusters have at most 32 MiB. When it did, the 64-bit cluster size is 0.
   */
  lemma ParsedIff(vol: ExfatVolume, sectorShift: byte, clusterShift: byte)
    requires FromBootSector(vol, sectorShift, clusterShift)
    ensures sectorShift + clusterShift <= 25 ==>
            vol.Parsed() && 0 < Wrap(ClusterBytes(vol)) == ClusterBytes(vol) <= 0x200_0000
    ensures sectorShift + clusterShift > 25 ==> Wrap(ClusterBytes(vol)) == 0
  {
    hide Pow2;
    if sectorShift + clusterShift > 25 {
      WrappedShifts(sectorShift, clusterShift);
      assert ClusterBytes(vol) == ShiftedOne(sectorShift) * ShiftedOne(clusterShift) by {
        Commute(vol.sectorsPerCluster, vol.bytesPerSector);
      }
    } else {
      assert clusterShift % 64 == clusterShift && sectorShift % 64 == sectorShift;
      TwoTo64();
      Pow2Sum(clusterShift, sectorShift);
      Pow2Grows(sectorShift + clusterShift, 25);
      Pow2Grows(sectorShift, 12);
      Factor(vol.heapOffsetSectors, vol.clusterCount, vol.sectorsPerCluster, vol.bytesPerSector);
      Product(vol.heapOffsetSectors, 0xFFFF_FFFF, vol.bytesPerSector, 0x1000);
      Product(vol.clusterCount, 0xFFFF_FFFF, ClusterBytes(vol), 0x200_0000);
    }
  }

  lemma Commute(a: nat, b: nat)
    ensures a * b == b * a
  {
  }

  lemma Product(a: nat, x: nat, b: nat, y: nat)
    requires a <= x && b <= y
    ensures a * b <= x * y
  {
    Monotone(a, x, b);
    Monotone(b, y, x);
  }

  function ClusterBytes(vol: ExfatVolume): nat { vol.sectorsPerCluster * vol.bytesPerSector }

  function HeapStart(vol: ExfatVolume): nat { vol.offset + vol.heapOffsetSectors * vol.bytesPerSector }

  function ClusterOffset(vol: ExfatVolume, cluster: nat): nat {
    var sector := SatAdd(vol.heapOffsetSectors, SatMul(Max(0, cluster - 2), vol.sectorsPerCluster));
    SatAdd(vol.offset, SatMul(sector, vol.bytesPerSector))
  }

  /** Inside a parsed volume the saturating arithmetic never saturates. */
  lemma OffsetIsExact(vol: ExfatVolume, i: nat)
    requires vol.Parsed() && i <= vol.clusterCount
    ensures ClusterOffset(vol, 2 + i) == HeapStart(vol) + i * ClusterBytes(vol)
  {
    var sectors, end := i * vol.sectorsPerCluster, vol.heapOffsetSectors + vol.clusterCount * vol.sectorsPerCluster;
    Monotone(i, vol.clusterCount, vol.sectorsPerCluster);
    Monotone(vol.heapOffsetSectors + sectors, end, vol.bytesPerSector);
    Monotone(1, vol.bytesPerSector, vol.heapOffsetSectors + sectors);
    Factor(vol.heapOffsetSectors, i, vol.sectorsPerCluster, vol.bytesPerSector);
  }

  /** `bitmap_bytes`: the cluster count bounds the read, whatever length the directory entry claims. */
  function BitmapBytes(vol: ExfatVolume, claimed: nat): nat { Min(claimed, (vol.clusterCount + 7) / 8) }

  /** The bitmap as it is read: a contiguous run from its first cluster. */
  function ExfatBitmap(vol: ExfatVolume, src: seq<byte>, first: nat, claimed: nat): seq<byte> {
    ReadAt(src, ClusterOffset(vol, first), BitmapBytes(vol, claimed))
  }

  function FreeClusters(bitmap: seq<byte>, n: nat): (free: seq<bool>)
    ensures |free| == n
  {
    seq(n, i requires 0 <= i < n => !Allocated(bitmap, i))
  }

  /** The first cluster, counted from 0, whose number is not a 32-bit one; the program takes it for number 0. */
  const WRAPPED_CLUSTER: nat := 0xFFFF_FFFE

  /** The ranges of the first `n` clusters: of a volume of 2^32 - 1 clusters the last is reported as the first. */
  function FreeRanges(vol: ExfatVolume, bitmap: seq<byte>, n: nat): seq<(nat, int)> {
    Extents(Spans(FreeClusters(bitmap, Min(n, WRAPPED_CLUSTER))), HeapStart(vol), ClusterBytes(vol))
    + (if n > WRAPPED_CLUSTER && !Allocated(bitmap, WRAPPED_CLUSTER) then [(HeapStart(vol), ClusterBytes(vol))] else [])
  }

  /** `free_extents` of an exFAT volume whose root directory names a bitmap at `first` of `claimed` bytes. */
  method ExfatFreeExtents(vol: ExfatVolume, src: seq<byte>, first: nat, claimed: nat) returns (out: seq<(nat, int)>)
    requires vol.Parsed()
    ensures first < 2 || first > vol.clusterCount + 1 ==> out == []
    ensures 2 <= first <= vol.clusterCount + 1 ==>
              out == FreeRanges(vol, ExfatBitmap(vol, src, first, claimed), vol.clusterCount)
  {
    hide Add, Extent, Allocated, ClusterOffset, ClusterBytes, HeapStart;
    if first < 2 || first > vol.clusterCount + 1 {
      return [];
    }
    var bitmap := ReadAt(src, ClusterOffset(vol, first), BitmapBytes(vol, claimed));
    var cb := ClusterBytes(vol);
    PositiveCluster(vol);
    ghost var origin := HeapStart(vol);
    out := [];
    for i := 0 to vol.clusterCount
      invariant out == FreeRanges(vol, bitmap, i)
    {
      if i < WRAPPED_CLUSTER {
        out := PushCluster(vol, bitmap, out, i);
      } else if !Allocated(bitmap, i) {
        OffsetIsExact(vol, 0);
        FirstClusterOffset(vol);
        SpansAreTheFreeSet(FreeClusters(bitmap, i));
        PushAtStart(Spans(FreeClusters(bitmap, i)), i, origin, cb);
        out := Push(out, ClusterOffset(vol, (2 + i) % 0x1_0000_0000), cb);
      }
    }
  }

  method PushCluster(vol: ExfatVolume, bitmap: seq<byte>, out0: seq<(nat, int)>, i: nat) returns (out: seq<(nat, int)>)
    requires vol.Parsed() && i < vol.clusterCount && i < WRAPPED_CLUSTER && out0 == FreeRanges(vol, bitmap, i)
    ensures out == FreeRanges(vol, bitmap, i + 1)
  {
    hide Add, Extent, Allocated, ClusterOffset, ClusterBytes, HeapStart;
    PositiveCluster(vol);
    ghost var before := FreeClusters(bitmap, i);
    assert FreeClusters(bitmap, i + 1)[..i] == before;
    if !Allocated(bitmap, i) {
      OffsetIsExact(vol, i);
      PushIsAdd(Spans(before), HeapStart(vol), ClusterBytes(vol), i);
      out := Push(out0, ClusterOffset(vol, 2 + i), ClusterBytes(vol));
    } else {
      out := out0;
      assert Add(Spans(before), i, false) == Spans(before) by { NotAdded(Spans(before), i); }
    }
  }

  lemma FirstClusterOffset(vol: ExfatVolume)
    ensures ClusterOffset(vol, 0) == ClusterOffset(vol, 2)
  {
  }

  /** A range at the heap's start lengthens none of those behind it. */
  lemma PushAtStart(spans: seq<Span>, n: nat, origin: nat, unit: nat)
    requires unit > 0 && Separated(spans, n)
    ensures Push(Extents(spans, origin, unit), origin, unit) == Extents(spans, origin, unit) + [(origin, unit)]
  {
    hide Extent;
    if spans != [] { EndOfExtent(spans[|spans| - 1], origin, unit, 0); }
  }

  lemma PositiveCluster(vol: ExfatVolume)
    requires vol.Parsed()
    ensures ClusterBytes(vol) > 0
  {
  }

  /** `cluster_allocated` names the same bits by cluster number; clusters 0 and 1 share the first. */
  predicate ClusterAllocated(bitmap: seq<byte>, cluster: nat) { Allocated(bitmap, Max(0, cluster - 2)) }

  /** The ranges `free_extents` returns cover the bytes of a cluster exactly when the bitmap calls the cluster free. */
  lemma ClusterCoveredIffFree(bitmap: seq<byte>, count: nat, cluster: nat)
    requires 2 <= cluster < count + 2
    ensures Covers(Spans(FreeClusters(bitmap, count)), cluster - 2) <==> !ClusterAllocated(bitmap, cluster)
  {
    SpansAreTheFreeSet(FreeClusters(bitmap, count));
  }

  // --- what the returned ranges mean, byte by byte ---

  /**
   * A byte of an ext volume lies in a range of `free_extents` exactly when its block has a bitmap that calls it free.
   */
  lemma ExtByteFreeIff(vol: ExtVolume, src: seq<byte>, out: seq<(nat, int)>, x: nat)
    requires vol.blockSize > 0 && vol.blocksPerGroup > 0
    requires out == Extents(Spans(FreeBlocks(vol, src, BlockCount(vol))), BlockOffset(vol, vol.firstDataBlock),
                            vol.blockSize)
    ensures var origin := BlockOffset(vol, vol.firstDataBlock);
            InRange(out, x) <==>
            origin <= x && (x - origin) / vol.blockSize < BlockCount(vol)
              && BlockFree(vol, src, (x - origin) / vol.blockSize)
  {
    hide BlockFree, BlockCount;
    InRangeIff(FreeBlocks(vol, src, BlockCount(vol)), BlockOffset(vol, vol.firstDataBlock), vol.blockSize, x);
  }

  /** A byte of an exFAT volume belongs to a cluster that the bitmap calls free. */
  predicate ByteFree(vol: ExfatVolume, bitmap: seq<byte>, x: nat)
    requires ClusterBytes(vol) > 0
  {
    && HeapStart(vol) <= x && (x - HeapStart(vol)) / ClusterBytes(vol) < vol.clusterCount
    && !ClusterAllocated(bitmap, 2 + (x - HeapStart(vol)) / ClusterBytes(vol))
  }

  lemma ClusterRanges(vol: ExfatVolume, bitmap: seq<byte>, n: nat, x: nat)
    requires ClusterBytes(vol) > 0
    ensures InRange(Extents(Spans(FreeClusters(bitmap, n)), HeapStart(vol), ClusterBytes(vol)), x) <==>
            && HeapStart(vol) <= x && (x - HeapStart(vol)) / ClusterBytes(vol) < n
            && !ClusterAllocated(bitmap, 2 + (x - HeapStart(vol)) / ClusterBytes(vol))
  {
    hide ClusterBytes, HeapStart, Allocated, InRange, Spans;
    InRangeIff(FreeClusters(bitmap, n), HeapStart(vol), ClusterBytes(vol), x);
  }

  /** A byte lies in a range exactly when its cluster is free, on every volume of less than 2^32 - 1 clusters. */
  lemma ExfatByteFreeIff(vol: ExfatVolume, bitmap: seq<byte>, x: nat)
    requires vol.Parsed() && vol.clusterCount <= WRAPPED_CLUSTER
    ensures ClusterBytes(vol) > 0
    ensures InRange(FreeRanges(vol, bitmap, vol.clusterCount), x) <==> ByteFree(vol, bitmap, x)
  {
    PositiveCluster(vol);
    hide ClusterBytes, HeapStart, ClusterAllocated, InRange, Spans, FreeClusters, Extents, ExfatVolume.Parsed;
    var ranges := Extents(Spans(FreeClusters(bitmap, vol.clusterCount)), HeapStart(vol), ClusterBytes(vol));
    assert FreeRanges(vol, bitmap, vol.clusterCount) == ranges;
    ClusterRanges(vol, bitmap, vol.clusterCount, x);
  }

  /** On a volume of 2^32 - 1 clusters the ranges are right, byte for byte, exactly when the last cluster is in use. */
  lemma LargestVolumeIff(vol: ExfatVolume, bitmap: seq<byte>)
    requires vol.Parsed() && vol.clusterCount == 0xFFFF_FFFF
    ensures ClusterBytes(vol) > 0
    ensures (forall x: nat :: InRange(FreeRanges(vol, bitmap, vol.clusterCount), x) <==> ByteFree(vol, bitmap, x))
        <==> Allocated(bitmap, WRAPPED_CLUSTER)
  {
    PositiveCluster(vol);
    hide ClusterBytes, HeapStart, Allocated, InRange, Spans, FreeClusters, Extents, ExfatVolume.Parsed;
    var origin, size := HeapStart(vol), ClusterBytes(vol);
    var ranges := Extents(Spans(FreeClusters(bitmap, WRAPPED_CLUSTER)), origin, size);
    if Allocated(bitmap, WRAPPED_CLUSTER) {
      assert FreeRanges(vol, bitmap, vol.clusterCount) == ranges;
      forall x: nat ensures InRange(ranges, x) <==> ByteFree(vol, bitmap, x) {
        ClusterRanges(vol, bitmap, WRAPPED_CLUSTER, x);
      }
    } else {
      // the last cluster's own first byte is in no range
      var x := origin + WRAPPED_CLUSTER * size;
      InGroup(WRAPPED_CLUSTER, 0, size);
      Monotone(1, WRAPPED_CLUSTER, size);
      assert ByteFree(vol, bitmap, x);
      ClusterRanges(vol, bitmap, WRAPPED_CLUSTER, x);
      AppendedRange(ranges, (origin, size), x);
      assert FreeRanges(vol, bitmap, vol.clusterCount) == ranges + [(origin, size)];
      assert !InRange(FreeRanges(vol, bitmap, vol.clusterCount), x);
    }
  }

  /**
   * A volume of 2^32 - 1 clusters of one sector, and a bitmap that calls the last of them free and all others in use.
   */
  const LARGEST: ExfatVolume := ExfatVolume(0, 512, 1, 64, 0xFFFF_FFFF, 24)

  const LARGEST_BITMAP: seq<byte> := seq(0x2000_0000, i => if i == 0x1FFF_FFFF then 0xBF else 0xFF)

  /** The free cluster is in no range, and the first one, which is in use, is in one. */
  lemma LargestVolumeMisreported()
    ensures LARGEST.Parsed() && BitmapBytes(LARGEST, |LARGEST_BITMAP|) == |LARGEST_BITMAP|
    ensures var ranges, last := FreeRanges(LARGEST, LARGEST_BITMAP, LARGEST.clusterCount),
            0x8000 + 512 * WRAPPED_CLUSTER;
            && InRange(ranges, 0x8000) && !ByteFree(LARGEST, LARGEST_BITMAP, 0x8000)
            && !InRange(ranges, last) && ByteFree(LARGEST, LARGEST_BITMAP, last)
  {
    var vol, bitmap, last := LARGEST, LARGEST_BITMAP, 0x8000 + 512 * WRAPPED_CLUSTER;
    assert HeapStart(vol) == 0x8000 && ClusterBytes(vol) == 512;
    assert bitmap[0] == 0xFF && bitmap[0x1FFF_FFFF] == 0xBF;
    assert Allocated(bitmap, 0) && !Allocated(bitmap, WRAPPED_CLUSTER);
    hide Allocated, Spans, FreeClusters, InRange, HeapStart, ClusterBytes;
    var ranges := Extents(Spans(FreeClusters(bitmap, WRAPPED_CLUSTER)), HeapStart(vol), ClusterBytes(vol));
    assert FreeRanges(vol, bitmap, vol.clusterCount) == ranges + [(0x8000, 512)];
    AppendedRange(ranges, (0x8000, 512), 0x8000);
    AppendedRange(ranges, (0x8000, 512), last);
    ClusterRanges(vol, bitmap, WRAPPED_CLUSTER, last);
  }

  lemma AppendedRange(out: seq<(nat, int)>, r: (nat, int), x: nat)
    ensures InRange(out + [r], x) <==> InRange(out, x) || r.0 <= x < r.0 + r.1
  {
    if InRange(out, x) {
      var k :| 0 <= k < |out| && out[k].0 <= x < out[k].0 + out[k].1;
      assert (out + [r])[k] == out[k];
    }
    if r.0 <= x < r.0 + r.1 { assert (out + [r])[|out|] == r; }
  }
}
