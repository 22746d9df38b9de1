/**
 * The ext structures byte for byte: where each field lies in the source, on a volume that starts anywhere in it, and
 * one example of each.
 */
module Ext4OnDisk {
  import opened Bytes
  import opened Arith
  import opened FreeRuns
  import opened Ext4Extents
  import Ext4Files
  import Ind = Ext4Indirect
  import opened Ext4Journal
  import Idx = Ext4JournalIndex

  /** Byte `k` of block `b` is that byte of the volume; a block is short only where the source ends. */
  lemma BlockBytes(vol: ExtVolume, src: seq<byte>, b: nat)
    requires |src| < U64_LIMIT
    ensures var at, block := vol.offset + b * vol.blockSize, ReadBlock(vol, src, b);
            && |block| == Min(vol.blockSize, Max(0, |src| - at))
            && forall k :: 0 <= k < |block| ==> at + k < |src| && block[k] == src[at + k]
  {
    var at := vol.offset + b * vol.blockSize;
    if at < |src| {
      assert SatAdd(vol.offset, SatMul(b, vol.blockSize)) == at;
    }
  }

  /** The flag that picks the kind of block map is bit 3 of the inode's byte 0x22; the map's root starts at 0x28. */
  lemma InodeFields(inode: seq<byte>)
    requires |inode| >= 0x64
    ensures Ext4Files.UsesExtents(inode) <==> inode[0x22] / 8 % 2 == 1
    ensures Ext4Files.IBlock(inode) == inode[0x28..0x64]
  {
    FlagBit(U16Le(inode, 0x20), inode[0x22], inode[0x23]);
  }

  lemma FlagBit(low: nat, b: nat, high: nat)
    requires low < 0x1_0000
    ensures (low + 0x1_0000 * b + 0x100_0000 * high) / 0x8_0000 % 2 == b / 8 % 2
  {
    var q, r := b / 8, b % 8;
    InGroup(q + 32 * high, low + 0x1_0000 * r, 0x8_0000);
    assert low + 0x1_0000 * b + 0x100_0000 * high == (q + 32 * high) * 0x8_0000 + (low + 0x1_0000 * r);
    InGroup(16 * high + q / 2, q % 2, 2);
  }

  // --- indirect blocks ---

  /** Pointer `i` of block `b`: four bytes of the source, none in block 0 or behind the source's end. */
  function SourcePointer(vol: ExtVolume, src: seq<byte>, b: nat, i: nat): Option<nat> {
    var at := vol.offset + b * vol.blockSize + 4 * i;
    if b == 0 || i >= vol.blockSize / 4 || at + 4 > |src| then None else Some(U32Le(src, at))
  }

  function Follow(vol: ExtVolume, src: seq<byte>, b: Option<nat>, i: nat): Option<nat> {
    match b case None => None case Some(ptr) => SourcePointer(vol, src, ptr, i)
  }

  lemma PointerInSource(vol: ExtVolume, src: seq<byte>, b: nat, i: nat)
    requires |src| < U64_LIMIT
    ensures SourcePointer(vol, src, b, i)
         == var block := ReadBlock(vol, src, b);
            if b == 0 || i >= |block| / 4 then None else Some(Ind.Pointer(block, i))
  {
    BlockBytes(vol, src, b);
    hide ReadBlock;
  }

  /** One digit of index arithmetic is one pointer of the source. */
  lemma LookupDigit(vol: ExtVolume, src: seq<byte>, b: nat, level: nat, d: nat, i: nat)
    requires |src| < U64_LIMIT && vol.blockSize >= 4 && level >= 1 && i < Ind.Reach(vol, level - 1)
    ensures Ind.Lookup(vol, src, b, level, d * Ind.Reach(vol, level - 1) + i)
         == match SourcePointer(vol, src, b, d)
            case None => None
            case Some(ptr) => Ind.InSlot(vol, src, ptr, level, i)
  {
    hide ReadBlock, Ind.Reach, Ind.Pointer, Ind.InSlot, SourcePointer;
    PointerInSource(vol, src, b, d);
    var r := Ind.Reach(vol, level - 1);
    InGroup(d, i, r);
    if b != 0 && d < |ReadBlock(vol, src, b)| / 4 { Ind.LookupInChild(vol, src, b, level, d, i); }
  }

  lemma PointersBelow(vol: ExtVolume)
    ensures var p := vol.blockSize / 4;
            && Ind.Reach(vol, 0) == 1 && Ind.Reach(vol, 1) == p && Ind.Reach(vol, 2) == p * p
            && Ind.Reach(vol, 3) == p * (p * p)
  {
    assert Ind.Reach(vol, 0) == 1;
    assert Ind.Reach(vol, 1) == vol.blockSize / 4;
  }

  lemma LookupOnce(vol: ExtVolume, src: seq<byte>, b: nat, j: nat)
    requires |src| < U64_LIMIT && vol.blockSize >= 4
    ensures Ind.Lookup(vol, src, b, 1, j) == SourcePointer(vol, src, b, j)
  {
    PointersBelow(vol);
    hide Ind.Reach, Ind.Lookup, SourcePointer;
    LookupDigit(vol, src, b, 1, j, 0);
  }

  lemma LookupTwice(vol: ExtVolume, src: seq<byte>, b: nat, i: nat, j: nat)
    requires |src| < U64_LIMIT && vol.blockSize >= 4 && j < vol.blockSize / 4
    ensures Ind.Lookup(vol, src, b, 2, i * (vol.blockSize / 4) + j)
         == Follow(vol, src, SourcePointer(vol, src, b, i), j)
  {
    PointersBelow(vol);
    hide Ind.Reach, Ind.Lookup, SourcePointer;
    LookupDigit(vol, src, b, 2, i, j);
    var first := SourcePointer(vol, src, b, i);
    if first.Some? { LookupOnce(vol, src, first.value, j); }
  }

  lemma LookupThrice(vol: ExtVolume, src: seq<byte>, b: nat, p: nat, q: nat, h: nat, i: nat, j: nat)
    requires |src| < U64_LIMIT && vol.blockSize >= 4 && p == vol.blockSize / 4 && q == p * p && i < p && j < p
    ensures Ind.Lookup(vol, src, b, 3, h * q + (i * p + j))
            == Follow(vol, src, Follow(vol, src, SourcePointer(vol, src, b, h), i), j)
  {
    PointersBelow(vol);
    hide Ind.Reach, Ind.Lookup, Ind.InSlot, SourcePointer;
    TwoDigits(i, j, p);
    LookupDigit(vol, src, b, 3, h, i * p + j);
    var first := SourcePointer(vol, src, b, h);
    if first.Some? {
      LookupTwice(vol, src, first.value, i, j);
      SlotLookup(vol, src, first.value, i * p + j);
    }
  }

  lemma SlotLookup(vol: ExtVolume, src: seq<byte>, ptr: nat, k: nat)
    requires vol.blockSize >= 4
    ensures Ind.InSlot(vol, src, ptr, 3, k) == Ind.Lookup(vol, src, ptr, 2, k)
  {
    hide Ind.Lookup;
  }

  lemma TwoDigits(i: nat, j: nat, p: nat)
    requires i < p && j < p
    ensures i * p + j < p * p
  {
    OneMore(i, p);
    Monotone(i + 1, p, p);
  }

  lemma ThreeDigits(h: nat, i: nat, j: nat, p: nat, q: nat)
    requires h < p && i < p && j < p && q == p * p
    ensures h * q + (i * p + j) < p * q
  {
    TwoDigits(i, j, p);
    OneMore(h, q);
    Monotone(h + 1, p, q);
  }

  /** The tier of a block number decides which of the inode's pointers leads to it. */
  lemma Tiers(vol: ExtVolume, src: seq<byte>, iBlock: seq<byte>, k: nat)
    requires |iBlock| == 60 && vol.blockSize >= 4
    ensures var r1, r2, r3 := Ind.Reach(vol, 1), Ind.Reach(vol, 2), Ind.Reach(vol, 3);
            && (k < 12 ==> Ind.Entry(vol, src, iBlock, k) == Some(U32Le(iBlock, 4 * k)))
            && (k < r1 ==> Ind.Entry(vol, src, iBlock, 12 + k) == Ind.Lookup(vol, src, U32Le(iBlock, 48), 1, k))
            && (k < r2 ==> Ind.Entry(vol, src, iBlock, 12 + r1 + k) == Ind.Lookup(vol, src, U32Le(iBlock, 52), 2, k))
            && (k < r3 ==>
                  Ind.Entry(vol, src, iBlock, 12 + r1 + r2 + k) == Ind.Lookup(vol, src, U32Le(iBlock, 56), 3, k))
            && Ind.Entry(vol, src, iBlock, 12 + r1 + r2 + r3 + k) == None
  {
    hide Ind.Lookup, Ind.Reach;
  }

  /** `k` has the digits h, i, j in base `p`, whose square is `q`. */
  predicate Digits(k: nat, h: nat, i: nat, j: nat, p: nat, q: nat) {
    q == p * p && h < p && i < p && j < p && k == h * q + i * p + j
  }

  lemma DigitsReach(vol: ExtVolume, k: nat, h: nat, i: nat, j: nat, p: nat, q: nat)
    requires p == vol.blockSize / 4 && Digits(k, h, i, j, p, q)
    ensures Ind.Reach(vol, 1) == p && Ind.Reach(vol, 2) == q && k < Ind.Reach(vol, 3)
    ensures h == 0 ==> k < q
  {
    PointersBelow(vol);
    TwoDigits(i, j, p);
    ThreeDigits(h, i, j, p, q);
  }

  lemma DigitsMean(k: nat, h: nat, i: nat, j: nat, p: nat, q: nat)
    requires Digits(k, h, i, j, p, q)
    ensures q == p * p && h < p && i < p && j < p && k == h * q + (i * p + j) && (h == 0 ==> k == i * p + j)
  {
  }

  lemma LookupDigits(vol: ExtVolume, src: seq<byte>, b: nat, k: nat, h: nat, i: nat, j: nat, p: nat, q: nat)
    requires |src| < U64_LIMIT && vol.blockSize >= 4 && p == vol.blockSize / 4 && Digits(k, h, i, j, p, q)
    ensures Ind.Lookup(vol, src, b, 3, k)
            == Follow(vol, src, Follow(vol, src, SourcePointer(vol, src, b, h), i), j)
  {
    hide *;
    DigitsMean(k, h, i, j, p, q);
    LookupThrice(vol, src, b, p, q, h, i, j);
  }

  lemma LookupTwoDigits(vol: ExtVolume, src: seq<byte>, b: nat, k: nat, i: nat, j: nat, p: nat, q: nat)
    requires |src| < U64_LIMIT && vol.blockSize >= 4 && p == vol.blockSize / 4 && Digits(k, 0, i, j, p, q)
    ensures Ind.Lookup(vol, src, b, 2, k) == Follow(vol, src, SourcePointer(vol, src, b, i), j)
  {
    hide *;
    DigitsMean(k, 0, i, j, p, q);
    LookupTwice(vol, src, b, i, j);
  }

  /**
   * The pointer of a logical block, read out of the source: one of the inode's own twelve, or one, two or three
   * pointers away from the inode's last three. Pointers have four bytes, so that a block holds `p` of them, and the
   * digits of the block number in base `p` say which to follow.
   */
  lemma EntryInSource(vol: ExtVolume, src: seq<byte>, iBlock: seq<byte>, k: nat, h: nat, i: nat, j: nat, p: nat, q: nat)
    requires |src| < U64_LIMIT && |iBlock| == 60 && vol.blockSize >= 4
    requires p == vol.blockSize / 4 && Digits(k, h, i, j, p, q)
    ensures k < 12 ==> Ind.Entry(vol, src, iBlock, k) == Some(U32Le(iBlock, 4 * k))
    ensures k < p ==> Ind.Entry(vol, src, iBlock, 12 + k) == SourcePointer(vol, src, U32Le(iBlock, 48), k)
    ensures h == 0 ==> Ind.Entry(vol, src, iBlock, 12 + p + k)
                       == Follow(vol, src, SourcePointer(vol, src, U32Le(iBlock, 52), i), j)
    ensures Ind.Entry(vol, src, iBlock, 12 + p + q + k)
            == Follow(vol, src, Follow(vol, src, SourcePointer(vol, src, U32Le(iBlock, 56), h), i), j)
  {
    DigitsReach(vol, k, h, i, j, p, q);
    LookupOnce(vol, src, U32Le(iBlock, 48), k);
    if h == 0 { LookupTwoDigits(vol, src, U32Le(iBlock, 52), k, i, j, p, q); }
    LookupDigits(vol, src, U32Le(iBlock, 56), k, h, i, j, p, q);
    hide *;
    Tiers(vol, src, iBlock, k);
  }

  lemma NoEntry(vol: ExtVolume, src: seq<byte>, iBlock: seq<byte>, p: nat, k: nat)
    requires |iBlock| == 60 && vol.blockSize >= 4 && p == vol.blockSize / 4
    ensures Ind.Entry(vol, src, iBlock, 12 + p + p * p + p * (p * p) + k) == None
  {
    PointersBelow(vol);
    hide Ind.Lookup, Ind.Entry, Ind.Reach;
    Tiers(vol, src, iBlock, k);
  }

  // --- free blocks ---

  /** Bit `bit` of the bitmap in block `b` is in the source and clear. */
  predicate ClearBit(vol: ExtVolume, src: seq<byte>, b: nat, bit: nat) {
    var at := vol.offset + b * vol.blockSize + bit / 8;
    bit / 8 < vol.blockSize && at < |src| && src[at] / Pow2(bit % 8) % 2 == 0
  }

  lemma ClearBitMeans(vol: ExtVolume, src: seq<byte>, b: nat, bit: nat)
    requires |src| < U64_LIMIT
    ensures ClearBit(vol, src, b, bit) <==> !Allocated(ReadBlock(vol, src, b), bit)
  {
    BlockBytes(vol, src, b);
    hide ReadBlock;
    var block := ReadBlock(vol, src, b);
    if bit / 8 < |block| { BitMeans(block[bit / 8], bit % 8); }
  }

  /**
   * A byte of the source lies in a range of `free_extents` exactly when the block of the volume that it belongs to is a
   * data block with a bitmap, and its bit there is clear.
   */
  lemma FreeByteInSource(vol: ExtVolume, src: seq<byte>, out: seq<(nat, int)>, x: nat)
    requires vol.blockSize > 0 && vol.blocksPerGroup > 0 && |src| < U64_LIMIT
    requires out == Extents(Spans(FreeBlocks(vol, src, BlockCount(vol))), BlockOffset(vol, vol.firstDataBlock),
                            vol.blockSize)
    ensures InRange(out, x) <==>
            && vol.offset <= x
            && var n := (x - vol.offset) / vol.blockSize;
               && vol.firstDataBlock <= n < vol.totalBlocks
               && var group := (n - vol.firstDataBlock) / vol.blocksPerGroup;
                  && group < |vol.blockBitmaps|
                  && ClearBit(vol, src, vol.blockBitmaps[group], (n - vol.firstDataBlock) % vol.blocksPerGroup)
  {
    hide ClearBit, Allocated, ReadBlock, InRange, Extents, Spans, FreeBlocks;
    ExtByteFreeIff(vol, src, out, x);
    Monotone(0, vol.firstDataBlock, vol.blockSize);
    if vol.offset <= x {
      BlockOfByte(x - vol.offset, vol.firstDataBlock, vol.blockSize);
      var n := (x - vol.offset) / vol.blockSize;
      if vol.firstDataBlock <= n {
        var rel := n - vol.firstDataBlock;
        Below(rel, |vol.blockBitmaps|, vol.blocksPerGroup);
        if rel / vol.blocksPerGroup < |vol.blockBitmaps| {
          ClearBitMeans(vol, src, vol.blockBitmaps[rel / vol.blocksPerGroup], rel % vol.blocksPerGroup);
        }
      }
    }
  }

  /** The block of a byte, counted from block `first` on. */
  lemma BlockOfByte(y: nat, first: nat, size: nat)
    requires size > 0
    ensures first * size <= y <==> first <= y / size
    ensures first * size <= y ==> (y - first * size) / size == y / size - first
  {
    var q, r := y / size, y % size;
    assert y == q * size + r;
    Monotone(first, q, size);
    Monotone(q + 1, first, size);
    OneMore(q, size);
    if first <= q {
      assert q * size - first * size == (q - first) * size;
      InGroup(q - first, r, size);
    }
  }

  // --- one example of each, on a volume of 1 KiB blocks that starts at 1 MiB ---

  const BASE: nat := 0x10_0000

  const VOLUME: ExtVolume := ExtVolume(BASE, 1024, 64, [3], 8192, 1)

  function Padding(n: nat): (s: seq<byte>)
    ensures |s| == n && forall i :: 0 <= i < n ==> s[i] == 0
  {
    seq(n, _ => 0)
  }

  /** A source whose volume has this content from block `b` on, and zeros before. */
  function From(b: nat, content: seq<byte>): (s: seq<byte>)
    ensures |s| == BASE + 1024 * b + |content|
  {
    Padding(BASE + 1024 * b) + content
  }

  lemma BlockOfContent(b: nat, content: seq<byte>, i: nat)
    requires 1024 * (i + 1) <= |content| && BASE + 1024 * b + |content| < U64_LIMIT
    ensures ReadBlock(VOLUME, From(b, content), b + i) == content[1024 * i..1024 * i + 1024]
  {
    BlockBytes(VOLUME, From(b, content), b + i);
    hide ReadBlock;
  }

  // a file of 13 blocks whose single indirect block is block 5, which points at block 7

  const INDIRECT_INODE: seq<byte> := Padding(48) + [5, 0, 0, 0] + Padding(8)

  const INDIRECT_BLOCK: seq<byte> := [7, 0, 0, 0] + Padding(1020)

  lemma IndirectEntries(k: nat)
    requires k < 13
    ensures Ind.Entry(VOLUME, From(5, INDIRECT_BLOCK), INDIRECT_INODE, k) == Some(if k < 12 then 0 else 7)
  {
    var src := From(5, INDIRECT_BLOCK);
    Ind.ReachIsPositive(VOLUME, 0);
    SourceOfPointer();
    SingleEntry();
    hide Ind.Lookup, Ind.Reach, SourcePointer, From;
    if k < 12 { Tiers(VOLUME, src, INDIRECT_INODE, k); }
  }

  lemma SingleEntry()
    ensures Ind.Entry(VOLUME, From(5, INDIRECT_BLOCK), INDIRECT_INODE, 12)
         == SourcePointer(VOLUME, From(5, INDIRECT_BLOCK), 5, 0)
  {
    var src, inode := From(5, INDIRECT_BLOCK), INDIRECT_INODE;
    assert |src| < U64_LIMIT && |inode| == 60 && U32Le(inode, 48) == 5;
    PointersBelow(VOLUME);
    hide SourcePointer, From, Ind.Entry, Ind.Lookup, Ind.Reach, INDIRECT_INODE, INDIRECT_BLOCK, U32Le;
    Tiers(VOLUME, src, inode, 0);
    LookupOnce(VOLUME, src, 5, 0);
  }

  lemma SourceOfPointer()
    ensures SourcePointer(VOLUME, From(5, INDIRECT_BLOCK), 5, 0) == Some(7)
  {
    var src := From(5, INDIRECT_BLOCK);
    assert src[BASE + 5120] == 7 && src[BASE + 5121] == 0 && src[BASE + 5122] == 0 && src[BASE + 5123] == 0;
    hide From, Padding;
  }

  method MapIndirectExample() returns (blocks: seq<nat>)
    ensures blocks == [0, 0, 0, 0, 0, 0, 0, 0, 0, 0, 0, 0, 7]
  {
    blocks := Ind.MapIndirect(VOLUME, From(5, INDIRECT_BLOCK), INDIRECT_INODE, 13);
    hide From, Ind.Entry, Ind.Entries, Ind.Present, Ind.Capacity, Ind.HolesFrom, Padding;
    forall k | 0 <= k < 13 ensures Ind.Entry(VOLUME, From(5, INDIRECT_BLOCK), INDIRECT_INODE, k)
                                == Some(if k < 12 then 0 else 7) {
      IndirectEntries(k);
    }
    Ind.InStepIff(VOLUME, From(5, INDIRECT_BLOCK), INDIRECT_INODE, 13);
  }

  // an extent tree of two levels: the root names the node in block 9, which holds two extents, the second unwritten

  const EXTENT_ROOT: seq<byte> :=
    [0x0A, 0xF3, 1, 0, 4, 0, 1, 0, 0, 0, 0, 0] + [0, 0, 0, 0, 9, 0, 0, 0, 0, 0, 0, 0] + Padding(36)

  const EXTENT_NODE: seq<byte> :=
    [0x0A, 0xF3, 2, 0, 84, 0, 0, 0, 0, 0, 0, 0] + [3, 0, 0, 0, 2, 0, 1, 0, 0x20, 0, 0, 0]
    + [7, 0, 0, 0, 4, 0x80, 0, 0, 0x30, 0, 0, 0] + Padding(988)

  lemma NodeBlock()
    ensures ReadBlock(VOLUME, From(9, EXTENT_NODE), 9) == EXTENT_NODE
  {
    assert |EXTENT_NODE| == 1024;
    hide From, EXTENT_NODE, ReadBlock;
    BlockOfContent(9, EXTENT_NODE, 0);
    assert EXTENT_NODE[0..1024] == EXTENT_NODE;
  }

  lemma ExtentTreeExample()
    ensures LeavesOf(VOLUME, From(9, EXTENT_NODE), EXTENT_ROOT, 0) == [Leaf(3, 0x1_0000_0020, 2), Leaf(7, 0x30, 4)]
  {
    hide *;
    ExtentFields();
    NodeBlock();
    LeafNode(VOLUME, From(9, EXTENT_NODE), EXTENT_NODE, 1);
    IndexNode(VOLUME, From(9, EXTENT_NODE), EXTENT_ROOT, 0);
  }

  lemma ExtentMapExample()
    ensures InsertAll(map[], [Leaf(3, 0x1_0000_0020, 2), Leaf(7, 0x30, 4)])
         == map[3 := (0x1_0000_0020, 2), 7 := (0x30, 4)]
  {
    var leaves := [Leaf(3, 0x1_0000_0020, 2), Leaf(7, 0x30, 4)];
    assert leaves[..1][..0] == [];
    assert InsertAll(map[], leaves[..1]) == map[3 := (0x1_0000_0020, 2)];
  }

  lemma TranslationExample(l: nat, v: nat)
    requires var m := map[3 := (0x1_0000_0020, 2), 7 := (0x30, 4)]; Translates(m, m.Keys, l, v)
    ensures v == if 3 <= l < 5 then 0x1_0000_0020 + (l - 3) else if 7 <= l < 11 then 0x30 + (l - 7) else 0
  {
    var m := map[3 := (0x1_0000_0020, 2), 7 := (0x30, 4)];
    assert Reaches(m, 3, l) <==> 3 <= l < 5;
    assert Reaches(m, 7, l) <==> 7 <= l < 11;
    if 3 <= l < 5 {
      assert 3 in m.Keys && Reaches(m, 3, l);
    } else if 7 <= l < 11 {
      assert 7 in m.Keys && Reaches(m, 7, l);
    }
  }

  method MapExtentsExample() returns (blocks: seq<nat>)
    ensures blocks == [0, 0, 0, 0x1_0000_0020, 0x1_0000_0021, 0, 0, 0x30, 0x31, 0x32]
  {
    blocks := MapExtents(VOLUME, From(9, EXTENT_NODE), EXTENT_ROOT, 10);
    ExtentTreeExample();
    ExtentMapExample();
    hide From, EXTENT_NODE, EXTENT_ROOT, LeavesOf, InsertAll, Translates;
    forall l | 0 <= l < 10
      ensures blocks[l] == if 3 <= l < 5 then 0x1_0000_0020 + (l - 3) else if 7 <= l < 11 then 0x30 + (l - 7) else 0
    {
      TranslationExample(l, blocks[l]);
    }
  }

  /** A node of two leaf entries, and one of a single index entry. */
  lemma LeafNode(vol: ExtVolume, src: seq<byte>, node: seq<byte>, depth: nat)
    requires depth <= 6 && |node| >= 36 && U16Le(node, 0) == EXTENT_MAGIC
    requires U16Le(node, 2) == 2 && U16Le(node, 6) == 0
    ensures LeavesOf(vol, src, node, depth) == [LeafAt(node, 0), LeafAt(node, 1)]
  {
    hide LeafAt, U16Le, ReadBlock;
    assert Ext4Extents.LeavesUpTo(vol, src, node, depth, 0) == [];
    assert Ext4Extents.LeavesUpTo(vol, src, node, depth, 1) == [LeafAt(node, 0)];
    assert Ext4Extents.LeavesUpTo(vol, src, node, depth, 2) == [LeafAt(node, 0), LeafAt(node, 1)];
  }

  lemma IndexNode(vol: ExtVolume, src: seq<byte>, node: seq<byte>, depth: nat)
    requires depth <= 6 && |node| >= 24 && U16Le(node, 0) == EXTENT_MAGIC
    requires U16Le(node, 2) == 1 && U16Le(node, 6) == 1
    ensures LeavesOf(vol, src, node, depth) == LeavesOf(vol, src, ReadBlock(vol, src, ChildAt(node, 0)), depth + 1)
  {
    hide LeafAt, ChildAt, U16Le, ReadBlock;
    var below := EntryLeaves(vol, src, node, depth, 0);
    assert Ext4Extents.LeavesUpTo(vol, src, node, depth, 0) == [];
    assert Ext4Extents.LeavesUpTo(vol, src, node, depth, 1) == below;
  }

  lemma ExtentFields()
    ensures |EXTENT_ROOT| == 60 && |EXTENT_NODE| == 1024
    ensures U16Le(EXTENT_ROOT, 0) == EXTENT_MAGIC && U16Le(EXTENT_ROOT, 2) == 1 && U16Le(EXTENT_ROOT, 6) == 1
    ensures ChildAt(EXTENT_ROOT, 0) == 9
    ensures U16Le(EXTENT_NODE, 0) == EXTENT_MAGIC && U16Le(EXTENT_NODE, 2) == 2 && U16Le(EXTENT_NODE, 6) == 0
    ensures LeafAt(EXTENT_NODE, 0) == Leaf(3, 0x1_0000_0020, 2) && LeafAt(EXTENT_NODE, 1) == Leaf(7, 0x30, 4)
  {
  }

  /** A child's number has 48 bits. */
  lemma ChildExample()
    ensures ChildAt(Padding(12) + [0, 0, 0, 0, 1, 2, 3, 4, 5, 6, 0, 0], 0) == 0x0605_0403_0201
  {
  }

  // the three layouts of journal tags

  const UUID: seq<byte> := seq(16, _ => 0xAA)

  /** The first tag brings its UUID, the second is the last, and what follows it is not read. */
  lemma NarrowTags()
    ensures TagsFrom(Padding(12) + [0, 0, 0, 5, 0xCC, 0xCC, 0, 0] + UUID + [0, 0, 0, 6, 0xCC, 0xCC, 0, 8] + UUID
                     + [0, 0, 0, 7, 0, 0, 0, 2], Narrow, 12, 0) == [5, 6]
  {
    var block := Padding(12) + [0, 0, 0, 5, 0xCC, 0xCC, 0, 0] + UUID + [0, 0, 0, 6, 0xCC, 0xCC, 0, 8] + UUID
      + [0, 0, 0, 7, 0, 0, 0, 2];
    assert BlockNrAt(block, Narrow, 12) == 5 && FlagsAt(block, Narrow, 12) == 0;
    assert BlockNrAt(block, Narrow, 36) == 6 && FlagsAt(block, Narrow, 36) == 8;
    hide BlockNrAt, FlagsAt;
    assert TagsFrom(block, Narrow, 36, 1) == [6];
  }

  /** The first tag has a block number of more than 32 bits and shares the UUID. */
  lemma WideTags()
    ensures TagsFrom(Padding(12) + [0, 0, 0, 5, 0xCC, 0xCC, 0, 2, 0, 0, 0, 1]
                     + [0, 0, 0, 6, 0xCC, 0xCC, 0, 10, 0, 0, 0, 0], Wide, 12, 0) == [0x1_0000_0005, 6]
  {
    var block := Padding(12) + [0, 0, 0, 5, 0xCC, 0xCC, 0, 2, 0, 0, 0, 1]
      + [0, 0, 0, 6, 0xCC, 0xCC, 0, 10, 0, 0, 0, 0];
    assert BlockNrAt(block, Wide, 12) == 0x1_0000_0005 && FlagsAt(block, Wide, 12) == 2;
    assert BlockNrAt(block, Wide, 24) == 6 && FlagsAt(block, Wide, 24) == 10;
    hide BlockNrAt, FlagsAt;
    assert TagsFrom(block, Wide, 24, 1) == [6];
  }

  lemma ChecksumTags()
    ensures TagsFrom(Padding(12) + [0, 0, 0, 5, 0, 0, 0, 2, 0, 0, 0, 1, 0xCC, 0xCC, 0xCC, 0xCC]
                     + [0, 0, 0, 6, 0, 0, 0, 10, 0, 0, 0, 0, 0xCC, 0xCC, 0xCC, 0xCC], ChecksumV3, 12, 0)
         == [0x1_0000_0005, 6]
  {
    var block := Padding(12) + [0, 0, 0, 5, 0, 0, 0, 2, 0, 0, 0, 1, 0xCC, 0xCC, 0xCC, 0xCC]
      + [0, 0, 0, 6, 0, 0, 0, 10, 0, 0, 0, 0, 0xCC, 0xCC, 0xCC, 0xCC];
    assert BlockNrAt(block, ChecksumV3, 12) == 0x1_0000_0005 && FlagsAt(block, ChecksumV3, 12) == 2;
    assert BlockNrAt(block, ChecksumV3, 28) == 6 && FlagsAt(block, ChecksumV3, 28) == 10;
    hide BlockNrAt, FlagsAt;
    assert TagsFrom(block, ChecksumV3, 28, 1) == [6];
  }

  /** What a journal superblock says: its length, where its log starts, and two flags of byte 0x2B. */
  lemma JournalHeader(vol: ExtVolume, src: seq<byte>, blocks: seq<nat>, nBlocks: nat)
    requires Idx.Opened(vol, src, blocks, nBlocks).Some?
    ensures |blocks| > 0 && |ReadBlock(vol, src, blocks[0])| >= 0x2C
    ensures var sb, journal := ReadBlock(vol, src, blocks[0]), Idx.Opened(vol, src, blocks, nBlocks).value;
            && U32Be(sb, 0) == 0xC03B_3998
            && journal.0.maxLen == Min(U32Be(sb, 0x10), nBlocks) && journal.1 == Max(U32Be(sb, 0x14), 1)
            && (journal.0.csumV3 <==> sb[0x2B] / 0x10 % 2 == 1) && (journal.0.is64Bit <==> sb[0x2B] / 2 % 2 == 1)
  {
    hide U32Be, ReadBlock;
    LastFlags(ReadBlock(vol, src, blocks[0]));
  }

  lemma LastFlags(sb: seq<byte>)
    requires |sb| >= 0x2C
    ensures U32Be(sb, 0x28) / 0x10 % 2 == sb[0x2B] / 0x10 % 2 && U32Be(sb, 0x28) / 2 % 2 == sb[0x2B] / 2 % 2
  {
    var high := 0x1_0000 * (sb[0x28] as int) + 0x100 * (sb[0x29] as int) + sb[0x2A] as int;
    assert U32Be(sb, 0x28) == 0x100 * high + sb[0x2B];
    hide U32Be;
    LowByte(high, sb[0x2B], 0x10, 16);
    LowByte(high, sb[0x2B], 2, 128);
  }

  lemma LowByte(high: nat, b: nat, unit: nat, units: nat)
    requires b < 0x100 && unit > 0 && unit * units == 0x100 && units % 2 == 0
    ensures (0x100 * high + b) / unit % 2 == b / unit % 2
  {
    var q, r := b / unit, b % unit;
    assert 0x100 * high + b == (units * high + q) * unit + r by {
      assert 0x100 * high == (units * high) * unit;
    }
    InGroup(units * high + q, r, unit);
    var half := units / 2;
    assert units * high + q == (half * high + q / 2) * 2 + q % 2;
    InGroup(half * high + q / 2, q % 2, 2);
  }

  // a journal of three blocks: its superblock, a descriptor with one tag, and the copy of block 77

  const JOURNAL_SUPER: seq<byte> :=
    [0xC0, 0x3B, 0x39, 0x98, 0, 0, 0, 4] + Padding(8) + [0, 0, 0, 8, 0, 0, 0, 1] + Padding(16) + [0, 0, 0, 0x10]
    + Padding(980)

  const DESCRIPTOR: seq<byte> :=
    [0xC0, 0x3B, 0x39, 0x98, 0, 0, 0, 1, 0, 0, 0, 9] + [0, 0, 0, 77, 0, 0, 0, 10, 0, 0, 0, 0, 1, 2, 3, 4]
    + Padding(996)

  lemma JournalFields()
    ensures |JOURNAL_SUPER| == |DESCRIPTOR| == 1024
    ensures U32Be(JOURNAL_SUPER, 0) == 0xC03B_3998 && U32Be(JOURNAL_SUPER, 0x10) == 8
    ensures U32Be(JOURNAL_SUPER, 0x14) == 1 && U32Be(JOURNAL_SUPER, 0x28) == 0x10
    ensures U32Be(DESCRIPTOR, 0) == 0xC03B_3998 && U32Be(DESCRIPTOR, 4) == 1
    ensures BlockNrAt(DESCRIPTOR, ChecksumV3, 12) == 77 && FlagsAt(DESCRIPTOR, ChecksumV3, 12) == 10
  {
  }

  lemma JournalBlocks()
    ensures ReadBlock(VOLUME, From(5, JOURNAL_SUPER + DESCRIPTOR), 5) == JOURNAL_SUPER
    ensures ReadBlock(VOLUME, From(5, JOURNAL_SUPER + DESCRIPTOR), 6) == DESCRIPTOR
  {
    var content := JOURNAL_SUPER + DESCRIPTOR;
    JournalFields();
    hide From, JOURNAL_SUPER, DESCRIPTOR, ReadBlock;
    BlockOfContent(5, content, 0);
    BlockOfContent(5, content, 1);
  }

  lemma JournalExample()
    ensures Idx.JournalCopies(VOLUME, From(5, JOURNAL_SUPER + DESCRIPTOR), [5, 6, 7], 3) == [Idx.Copy(77, 2)]
  {
    JournalBlocks();
    JournalFields();
    hide From, JOURNAL_SUPER, DESCRIPTOR, ReadBlock, U32Be, BlockNrAt, FlagsAt;
    var src, blocks := From(5, JOURNAL_SUPER + DESCRIPTOR), [5, 6, 7];
    var j := Idx.Journal(VOLUME, blocks, 3, true, false);
    assert Idx.Opened(VOLUME, src, blocks, 3) == Some((j, 1));
    assert TagsFrom(DESCRIPTOR, ChecksumV3, 12, 0) == [77];
    hide TagsFrom;
    assert Idx.TagsAt(j, src, 1) == [77];
    assert Idx.Named([77], 1, 1, 3) == [];
    assert Idx.Named([77], 1, 0, 3) == [Idx.Copy(77, 2)];
    assert Idx.Copies(j, src, 3, 1) == [];
  }
}
