/**
 * The exFAT structures byte for byte: where clusters, table entries and bitmap bits lie in the source, on a volume that
 * starts anywhere in it, and a literal directory.
 */
module ExfatOnDisk {
  import opened Bytes
  import opened Arith
  import opened FreeRuns
  import Chain = ExfatChain
  import opened ExfatEntries

  /** Cluster `2 + i` starts `i` clusters behind the heap's first sector. */
  lemma ClusterInSource(vol: ExfatVolume, i: nat)
    requires vol.Parsed() && i <= vol.clusterCount
    ensures ClusterOffset(vol, 2 + i)
         == vol.offset + (vol.heapOffsetSectors + i * vol.sectorsPerCluster) * vol.bytesPerSector
  {
    OffsetIsExact(vol, i);
    hide ClusterOffset;
    Factor(vol.heapOffsetSectors, i, vol.sectorsPerCluster, vol.bytesPerSector);
  }

  /** The table has four bytes for each cluster number, and they name the next cluster of the chain, if they can. */
  lemma NextInSource(vol: ExfatVolume, src: seq<byte>, c: nat)
    requires |src| < U64_LIMIT
    ensures Chain.NextCluster(vol, src, c)
         == var at := vol.offset + vol.fatOffsetSectors * vol.bytesPerSector + 4 * c;
            if at + 4 > |src| then None
            else
              var next := U32Le(src, at);
              if 2 <= next <= vol.clusterCount + 1 && next != 0xFFFF_FFF7 && next != 0xFFFF_FFFF then Some(next)
              else None
  {
    var table := vol.fatOffsetSectors * vol.bytesPerSector;
    var at := vol.offset + table + 4 * c;
    assert Chain.FatEntryOffset(vol, c) == Min(at, U64_LIMIT - 1);
    hide Chain.FatEntryOffset;
    var b := ReadAt(src, Min(at, U64_LIMIT - 1), 4);
    if at + 4 <= |src| { assert b == src[at..at + 4]; }
  }

  /** Bit `i` of the allocation bitmap, which starts at cluster `first`, is part of it and of the source, and clear. */
  predicate ClearBit(vol: ExfatVolume, src: seq<byte>, first: nat, claimed: nat, i: nat)
    requires first >= 2
  {
    var at := vol.offset + (vol.heapOffsetSectors + (first - 2) * vol.sectorsPerCluster) * vol.bytesPerSector + i / 8;
    && i / 8 < claimed && i / 8 < (vol.clusterCount + 7) / 8
    && at < |src| && src[at] / Pow2(i % 8) % 2 == 0
  }

  lemma ClearBitMeans(vol: ExfatVolume, src: seq<byte>, first: nat, claimed: nat, i: nat)
    requires vol.Parsed() && 2 <= first <= vol.clusterCount + 1 && |src| < U64_LIMIT
    ensures ClearBit(vol, src, first, claimed, i) <==> !Allocated(ExfatBitmap(vol, src, first, claimed), i)
  {
    ClusterInSource(vol, first - 2);
    var start := ClusterOffset(vol, first);
    hide ClusterOffset, ExfatVolume.Parsed;
    var bitmap := ExfatBitmap(vol, src, first, claimed);
    if i / 8 < |bitmap| { BitMeans(bitmap[i / 8], i % 8); }
  }

  /**
   * A byte of the source lies in a range of `free_extents` exactly when the cluster it belongs to has a clear bit in
   * the bitmap, on every volume of less than 2^32 - 1 clusters.
   */
  lemma FreeByteInSource(vol: ExfatVolume, src: seq<byte>, first: nat, claimed: nat, out: seq<(nat, int)>, x: nat)
    requires vol.Parsed() && vol.clusterCount < 0xFFFF_FFFF && |src| < U64_LIMIT
    requires 2 <= first <= vol.clusterCount + 1
    requires out == FreeRanges(vol, ExfatBitmap(vol, src, first, claimed), vol.clusterCount)
    ensures vol.sectorsPerCluster * vol.bytesPerSector > 0
    ensures InRange(out, x) <==>
            var heap := vol.offset + vol.heapOffsetSectors * vol.bytesPerSector;
            && heap <= x
            && var i := (x - heap) / (vol.sectorsPerCluster * vol.bytesPerSector);
               i < vol.clusterCount && ClearBit(vol, src, first, claimed, i)
  {
    PositiveCluster(vol);
    ExfatByteFreeIff(vol, ExfatBitmap(vol, src, first, claimed), x);
    hide ClearBit, Allocated, InRange, FreeRanges, ExfatBitmap, ExfatVolume.Parsed;
    var heap := HeapStart(vol);
    if heap <= x { ClearBitMeans(vol, src, first, claimed, (x - heap) / ClusterBytes(vol)); }
  }

  // --- a volume of 4 KiB clusters that starts at 1 MiB ---

  const VOLUME: ExfatVolume := ExfatVolume(0x10_0000, 512, 8, 128, 1000, 24)

  lemma PlacesInVolume()
    ensures ClusterOffset(VOLUME, 2) == 0x11_0000 && ClusterOffset(VOLUME, 5) == 0x11_3000
    ensures HeapStart(VOLUME) == 0x11_0000 && ClusterBytes(VOLUME) == 4096
    ensures Chain.FatEntryOffset(VOLUME, 5) == 0x10_3014
  {
  }

  // --- a directory: a live folder and a deleted file ---

  const LIVE_FILE_ENTRY: seq<byte> :=
    [0x85, 2, 0xCC, 0xCC] + [0x10, 0, 0xCC, 0xCC] + [0xCC, 0xCC, 0xCC, 0xCC] + [1, 2, 3, 4] + [5, 6, 7, 8] + Zeros(12)

  const LIVE_STREAM_ENTRY: seq<byte> :=
    [0xC0, 3, 0, 3] + [0xCC, 0xCC, 0, 0] + [9, 9, 9, 9] + [9, 9, 9, 9] + Zeros(4) + [7, 0, 0, 1]
    + [0x10, 0x20, 0, 0] + [0, 0, 0, 1]

  const LIVE_NAME_ENTRY: seq<byte> := [0xC1, 0, 0x61, 0] + [0x62, 0, 0x63, 1] + Zeros(24)

  const DELETED_FILE_ENTRY: seq<byte> :=
    [0x05, 2, 0xCC, 0xCC] + [0x20, 0, 0xCC, 0xCC] + [0xCC, 0xCC, 0xCC, 0xCC] + [1, 0, 0, 0] + [2, 0, 0, 0] + Zeros(12)

  const DELETED_STREAM_ENTRY: seq<byte> :=
    [0x40, 1, 0, 1] + [0xCC, 0xCC, 0, 0] + [9, 9, 9, 9] + [9, 9, 9, 9] + Zeros(4) + [8, 0, 0, 0]
    + [3, 0, 0, 0] + [0, 0, 0, 0]

  const DELETED_NAME_ENTRY: seq<byte> := [0x41, 0, 0x78, 0] + [0xFF, 0xFF, 0, 0] + Zeros(24)

  const FOLDER: Item :=
    Item([0x61, 0x62, 0x163], false, true, 0x100_0007, 0x100_0000_0000_2010, true, 0x403_0201, 0x807_0605)

  const FILE: Item := Item([0x78], true, false, 8, 3, false, 1, 2)

  lemma FileEntries()
    ensures var f := LIVE_FILE_ENTRY;
            && |f| == 32 && TypeOf(f) == TYPE_FILE && f[1] == 2 && f[0] >= IN_USE
            && U16Le(f, 4) == 0x10 && U32Le(f, 12) == 0x403_0201 && U32Le(f, 16) == 0x807_0605
    ensures var f := DELETED_FILE_ENTRY;
            && |f| == 32 && TypeOf(f) == TYPE_FILE && f[1] == 2 && f[0] < IN_USE
            && U16Le(f, 4) == 0x20 && U32Le(f, 12) == 1 && U32Le(f, 16) == 2
  {
  }

  lemma StreamEntries()
    ensures var s := LIVE_STREAM_ENTRY;
            && |s| == 32 && TypeOf(s) == TYPE_STREAM && s[1] == 3 && s[3] == 3
            && U32Le(s, 20) == 0x100_0007 && U64Le(s, 24) == 0x100_0000_0000_2010
    ensures var s := DELETED_STREAM_ENTRY;
            && |s| == 32 && TypeOf(s) == TYPE_STREAM && s[1] == 1 && s[3] == 1
            && U32Le(s, 20) == 8 && U64Le(s, 24) == 3
  {
  }

  lemma NameEntries()
    ensures |LIVE_NAME_ENTRY| == |DELETED_NAME_ENTRY| == 32
    ensures TypeOf(LIVE_NAME_ENTRY) == TypeOf(DELETED_NAME_ENTRY) == TYPE_NAME
    ensures Units(LIVE_NAME_ENTRY)[..3] == [0x61, 0x62, 0x163] && Units(DELETED_NAME_ENTRY)[..1] == [0x78]
  {
  }

  /** A set of three entries, given its fields. */
  lemma OneSet(f: Slot, s: Slot, n: Slot, rest: seq<Slot>)
    requires TypeOf(f) == TYPE_FILE && f[1] == 2 && TypeOf(s) == TYPE_STREAM && TypeOf(n) == TYPE_NAME
    requires 0 < s[3] <= 15
    ensures Items([f, s, n] + rest) == [ItemOf(f, s, Units(n))] + Items(rest)
  {
    hide TypeOf, Units, Items, U16Le, U32Le, U64Le;
    var es := [f, s, n] + rest;
    ItemsStep(es);
    assert es[2..3] == [n] && es[3..] == rest && [n][1..] == [];
    assert Units(n) + [] == Units(n);
    assert NameUnits(es[2..3]) == Units(n);
  }

  lemma DirectoryExample()
    ensures |LIVE_FILE_ENTRY| == |LIVE_STREAM_ENTRY| == |LIVE_NAME_ENTRY| == 32
    ensures |DELETED_FILE_ENTRY| == |DELETED_STREAM_ENTRY| == |DELETED_NAME_ENTRY| == 32
    ensures Items(Slots(LIVE_FILE_ENTRY + LIVE_STREAM_ENTRY + LIVE_NAME_ENTRY
                        + DELETED_FILE_ENTRY + DELETED_STREAM_ENTRY + DELETED_NAME_ENTRY)) == [FOLDER, FILE]
  {
    FileEntries();
    StreamEntries();
    NameEntries();
    TwoSets(LIVE_FILE_ENTRY, LIVE_STREAM_ENTRY, LIVE_NAME_ENTRY,
            DELETED_FILE_ENTRY, DELETED_STREAM_ENTRY, DELETED_NAME_ENTRY);
    hide LIVE_FILE_ENTRY, LIVE_STREAM_ENTRY, LIVE_NAME_ENTRY;
    hide DELETED_FILE_ENTRY, DELETED_STREAM_ENTRY, DELETED_NAME_ENTRY;
    hide Slots, TypeOf, Units, Items, U16Le, U32Le, U64Le;
    assert ItemOf(LIVE_FILE_ENTRY, LIVE_STREAM_ENTRY, Units(LIVE_NAME_ENTRY)) == FOLDER;
    assert ItemOf(DELETED_FILE_ENTRY, DELETED_STREAM_ENTRY, Units(DELETED_NAME_ENTRY)) == FILE;
  }

  lemma TwoSets(f: Slot, s: Slot, n: Slot, g: Slot, t: Slot, m: Slot)
    requires TypeOf(f) == TYPE_FILE && f[1] == 2 && TypeOf(s) == TYPE_STREAM && TypeOf(n) == TYPE_NAME
    requires TypeOf(g) == TYPE_FILE && g[1] == 2 && TypeOf(t) == TYPE_STREAM && TypeOf(m) == TYPE_NAME
    requires 0 < s[3] <= 15 && 0 < t[3] <= 15
    ensures Items(Slots(f + s + n + g + t + m)) == [ItemOf(f, s, Units(n)), ItemOf(g, t, Units(m))]
  {
    SlotsOfFlat([f, s, n, g, t, m], []);
    FlatSix(f, s, n, g, t, m);
    hide Slots, Flat, TypeOf, Units, Items, U16Le, U32Le, U64Le, ItemOf;
    OneSet(f, s, n, [g, t, m]);
    OneSet(g, t, m, []);
    NothingLeft();
    assert [f, s, n] + [g, t, m] == [f, s, n, g, t, m] && [g, t, m] + [] == [g, t, m];
    assert Flat([f, s, n, g, t, m]) + [] == Flat([f, s, n, g, t, m]);
  }

  lemma FlatSix(f: Slot, s: Slot, n: Slot, g: Slot, t: Slot, m: Slot)
    ensures Flat([f, s, n, g, t, m]) == f + s + n + g + t + m
  {
    assert Flat([]) == [];
    assert [m][1..] == [] && [t, m][1..] == [m] && [g, t, m][1..] == [t, m] && [n, g, t, m][1..] == [g, t, m];
    assert Flat([m]) == m + [];
    assert Flat([t, m]) == t + m;
    assert Flat([g, t, m]) == g + t + m;
    assert Flat([n, g, t, m]) == n + g + t + m;
    assert [s, n, g, t, m][1..] == [n, g, t, m] && [f, s, n, g, t, m][1..] == [s, n, g, t, m];
    assert Flat([s, n, g, t, m]) == s + n + g + t + m;
  }

  lemma NothingLeft()
    ensures Items([]) == []
  {
  }
}
