/** Reading a file through its block map (`read_file_data`, `map_blocks`). */
module Ext4Files {
  import opened Bytes
  import opened Arith
  import opened FreeRuns
  import opened Ext4Extents
  import opened Ext4Indirect

  /** Byte `k` of block `b`: zero in a hole, nothing where the source has ended. */
  function BlockByte(vol: ExtVolume, src: seq<byte>, b: nat, k: nat): Option<byte> {
    var at := vol.offset + b * vol.blockSize + k;
    if b == 0 then Some(0) else if at < |src| then Some(src[at]) else None
  }

  predicate Mapped(vol: ExtVolume, blocks: seq<nat>, j: nat)
    requires vol.blockSize > 0
  {
    j / vol.blockSize < |blocks|
  }

  /** Byte `j` of the file a block map describes. */
  function FileByte(vol: ExtVolume, src: seq<byte>, blocks: seq<nat>, j: nat): Option<byte>
    requires vol.blockSize > 0 && Mapped(vol, blocks, j)
  {
    BlockByte(vol, src, blocks[j / vol.blockSize], j % vol.blockSize)
  }

  /** Every byte of `out` is that of the mapped file. */
  ghost predicate Agrees(vol: ExtVolume, src: seq<byte>, blocks: seq<nat>, out: seq<byte>)
    requires vol.blockSize > 0
  {
    forall j :: 0 <= j < |out| ==> Mapped(vol, blocks, j) && FileByte(vol, src, blocks, j) == Some(out[j])
  }

  /** What reading `size` bytes must return: the longest readable prefix of the mapped file. */
  ghost predicate IsFileData(vol: ExtVolume, src: seq<byte>, blocks: seq<nat>, size: nat, out: seq<byte>)
    requires vol.blockSize > 0
  {
    && |out| <= size && Agrees(vol, src, blocks, out)
    && (|out| < size && Mapped(vol, blocks, |out|) ==> FileByte(vol, src, blocks, |out|) == None)
  }

  /** Nothing else is such a prefix. */
  lemma FileDataIsUnique(vol: ExtVolume, src: seq<byte>, blocks: seq<nat>, size: nat, a: seq<byte>, b: seq<byte>)
    requires vol.blockSize > 0 && IsFileData(vol, src, blocks, size, a) && IsFileData(vol, src, blocks, size, b)
    ensures a == b
  {
    hide FileByte;
    forall j | 0 <= j < |a| && j < |b| ensures a[j] == b[j] {
      assert Mapped(vol, blocks, j) && FileByte(vol, src, blocks, j) == Some(a[j]);
    }
    if |a| < |b| { assert false; }
    if |b| < |a| { assert false; }
  }

  /** Saturation only happens past the end of a source of 64-bit size, where nothing can be read. */
  lemma SaturationIsPastTheEnd(vol: ExtVolume, src: seq<byte>, b: nat, n: nat)
    requires |src| < U64_LIMIT
    ensures ReadAt(src, SatAdd(vol.offset, SatMul(b, vol.blockSize)), n)
            == ReadAt(src, vol.offset + b * vol.blockSize, n)
  {
  }

  /** Read one block's share of the file; a short read means the source has ended. */
  method ReadShare(vol: ExtVolume, src: seq<byte>, b: nat, take: nat) returns (data: seq<byte>)
    requires |src| < U64_LIMIT
    ensures |data| <= take && forall k :: 0 <= k < |data| ==> BlockByte(vol, src, b, k) == Some(data[k])
    ensures |data| < take ==> BlockByte(vol, src, b, |data|) == None
  {
    if b == 0 {
      return seq(take, _ => 0);
    }
    SaturationIsPastTheEnd(vol, src, b, take);
    data := ReadAt(src, SatAdd(vol.offset, SatMul(b, vol.blockSize)), take);
  }

  /** Bytes of block `i` continue a file that was read up to it. */
  lemma NextBlock(vol: ExtVolume, src: seq<byte>, blocks: seq<nat>, i: nat, out: seq<byte>, data: seq<byte>)
    requires vol.blockSize > 0 && i < |blocks| && |out| == i * vol.blockSize && |data| <= vol.blockSize
    requires Agrees(vol, src, blocks, out)
    requires forall k :: 0 <= k < |data| ==> BlockByte(vol, src, blocks[i], k) == Some(data[k])
    ensures Agrees(vol, src, blocks, out + data)
  {
    hide BlockByte;
    forall j | 0 <= j < |out + data|
      ensures Mapped(vol, blocks, j) && FileByte(vol, src, blocks, j) == Some((out + data)[j])
    {
      if j < |out| {
        assert Mapped(vol, blocks, j);
      } else {
        InGroup(i, j - |out|, vol.blockSize);
      }
    }
  }

  /** The loop of `read_file_data` over the block map. */
  method Assemble(vol: ExtVolume, src: seq<byte>, blocks: seq<nat>, size: nat) returns (out: seq<byte>)
    requires vol.blockSize > 0 && |src| < U64_LIMIT
    ensures IsFileData(vol, src, blocks, size, out)
  {
    hide BlockByte, Mapped, FileByte, Agrees;
    out := [];
    NothingRead(vol, src, blocks);
    var i := 0;
    ghost var base := 0;
    while i < |blocks| && |out| < size
      invariant i <= |blocks| && base == i * vol.blockSize && |out| == Min(base, size)
      invariant Agrees(vol, src, blocks, out)
      decreases |blocks| - i
    {
      var take := Min(size - |out|, vol.blockSize);
      var data := ReadShare(vol, src, blocks[i], take);
      NextBlock(vol, src, blocks, i, out, data);
      out := out + data;
      if |data| < take {
        ShareEnds(vol, src, blocks, i, |data|);
        return; // the source ended
      }
      OneMore(i, vol.blockSize);
      i := i + 1;
      base := base + vol.blockSize;
    }
    if |out| < size { MapEnds(vol, blocks); }
  }

  lemma NothingRead(vol: ExtVolume, src: seq<byte>, blocks: seq<nat>)
    requires vol.blockSize > 0
    ensures Agrees(vol, src, blocks, [])
  {
  }

  lemma ShareEnds(vol: ExtVolume, src: seq<byte>, blocks: seq<nat>, i: nat, k: nat)
    requires k < vol.blockSize && i < |blocks| && BlockByte(vol, src, blocks[i], k) == None
    ensures Mapped(vol, blocks, i * vol.blockSize + k) && FileByte(vol, src, blocks, i * vol.blockSize + k) == None
  {
    InGroup(i, k, vol.blockSize);
  }

  lemma MapEnds(vol: ExtVolume, blocks: seq<nat>)
    requires vol.blockSize > 0
    ensures !Mapped(vol, blocks, |blocks| * vol.blockSize)
  {
    InGroup(|blocks|, 0, vol.blockSize);
  }

  // --- a whole file ---

  const FLAG_EXTENTS: nat := 0x8_0000

  /** The inode fields that decide the block map: its flags and its 60 bytes of block pointers or extents. */
  predicate UsesExtents(inode: seq<byte>)
    requires |inode| >= 0x64
  {
    U32Le(inode, 0x20) / FLAG_EXTENTS % 2 == 1
  }

  function IBlock(inode: seq<byte>): (r: seq<byte>)
    requires |inode| >= 0x64
    ensures |r| == 60
  {
    inode[0x28..0x28 + 60]
  }

  /** What the block map of `n` blocks holds, for either kind of inode. */
  ghost predicate IsBlockMap(vol: ExtVolume, src: seq<byte>, inode: seq<byte>, n: nat, blocks: seq<nat>)
    requires |inode| >= 0x64 && vol.blockSize >= 4
  {
    if UsesExtents(inode) then
      var m := InsertAll(map[], LeavesOf(vol, src, IBlock(inode), 0));
      |blocks| == n && forall l :: 0 <= l < n ==> Translates(m, m.Keys, l, blocks[l])
    else
      blocks == Take(Present(Entries(vol, src, IBlock(inode), Capacity(vol))), n)
  }

  method MapBlocks(vol: ExtVolume, src: seq<byte>, inode: seq<byte>, n: nat) returns (blocks: seq<nat>)
    requires |inode| >= 0x64 && vol.blockSize >= 4
    ensures IsBlockMap(vol, src, inode, n, blocks)
  {
    hide Translates, InsertAll, Present, Entries, Ext4Extents.LeavesOf;
    if UsesExtents(inode) {
      blocks := MapExtents(vol, src, IBlock(inode), n);
    } else {
      blocks := MapIndirect(vol, src, IBlock(inode), n);
    }
  }

  /** The number of blocks of `b` bytes that hold `a` bytes. */
  function DivCeil(a: nat, b: nat): (r: nat)
    requires b > 0
    ensures a <= r * b < a + b
  {
    var r := (a + b - 1) / b;
    assert a + b - 1 == r * b + (a + b - 1) % b;
    r
  }

  /** `read_file_data`: nothing for an impossible size, else the file through its block map, clamped to the source. */
  method ReadFileData(vol: ExtVolume, src: seq<byte>, inode: seq<byte>, size0: nat) returns (out: seq<byte>)
    requires |inode| >= 0x64 && vol.blockSize >= 4 && |src| < U64_LIMIT
    ensures size0 == 0 || size0 > SatMul(vol.totalBlocks, vol.blockSize) || src == [] ==> out == []
    ensures 0 < size0 <= SatMul(vol.totalBlocks, vol.blockSize) && src != [] ==>
              var size := Min(size0, |src|);
              exists blocks :: IsBlockMap(vol, src, inode, DivCeil(size, vol.blockSize), blocks)
                               && IsFileData(vol, src, blocks, size, out)
  {
    hide IsBlockMap, IsFileData;
    if size0 == 0 || size0 > SatMul(vol.totalBlocks, vol.blockSize) {
      return [];
    }
    var size := Min(size0, |src|);
    if size == 0 {
      return [];
    }
    var blocks := MapBlocks(vol, src, inode, DivCeil(size, vol.blockSize));
    out := Assemble(vol, src, blocks, size);
  }

  // --- a sparse file that is read wrongly ---

  /** The inode of the sparse file, without the extents flag. */
  function SparseFile(): (s: seq<byte>)
    ensures |s| == 128 && !UsesExtents(s) && IBlock(s) == SparseInode()
  {
    var s: seq<byte> := seq(128, i => if i == 92 then 1 else 0);
    assert s[0x28..0x28 + 60] == SparseInode();
    s
  }

  /** Block 12 of this file of 269 blocks is a hole, yet what is read there is the content of block 268. */
  method ReadSparseFile() returns (out: seq<byte>)
    ensures Entry(SPARSE_VOLUME, SparseSource(), IBlock(SparseFile()), 12) == None
    ensures Entry(SPARSE_VOLUME, SparseSource(), IBlock(SparseFile()), 268) == Some(7)
            && SparseSource()[7 * 1024] == 0xAB
    ensures |out| > 12 * 1024 && out[12 * 1024] == 0xAB
  {
    out := ReadFileData(SPARSE_VOLUME, SparseSource(), SparseFile(), 269 * 1024);
    ZeroIndirectPointerShiftsTheMap();
    SparseByte();
    hide *;
    ghost var blocks :| IsBlockMap(SPARSE_VOLUME, SparseSource(), SparseFile(), 269, blocks)
                        && IsFileData(SPARSE_VOLUME, SparseSource(), blocks, 269 * 1024, out);
    SparseMap(blocks);
    SparseData(blocks, out);
  }

  lemma SparseByte()
    ensures SparseSource()[7 * 1024] == 0xAB
  {
  }

  lemma SparseMap(blocks: seq<nat>)
    requires IsBlockMap(SPARSE_VOLUME, SparseSource(), SparseFile(), 269, blocks)
    ensures |blocks| > 12 && blocks[12] == 7 && forall k :: 0 <= k < 12 ==> blocks[k] == 0
  {
    hide Present, Entries, Capacity, Entry, SparseFile, SparseSource, SparseInode;
    ZeroIndirectPointerShiftsTheMap();
  }

  lemma SparseData(blocks: seq<nat>, out: seq<byte>)
    requires |blocks| > 12 && blocks[12] == 7 && forall k :: 0 <= k < 12 ==> blocks[k] == 0
    requires IsFileData(SPARSE_VOLUME, SparseSource(), blocks, 269 * 1024, out)
    ensures |out| > 12 * 1024 && out[12 * 1024] == 0xAB
  {
    hide FileByte, Mapped, SparseSource;
    forall j: nat | j <= 12 * 1024
      ensures Mapped(SPARSE_VOLUME, blocks, j)
           && FileByte(SPARSE_VOLUME, SparseSource(), blocks, j) == Some(if j < 12 * 1024 then 0 else 0xAB)
    {
      SparseFileByte(blocks, j);
    }
  }

  lemma SparseFileByte(blocks: seq<nat>, j: nat)
    requires |blocks| > 12 && blocks[12] == 7 && (forall k :: 0 <= k < 12 ==> blocks[k] == 0) && j <= 12 * 1024
    ensures Mapped(SPARSE_VOLUME, blocks, j)
         && FileByte(SPARSE_VOLUME, SparseSource(), blocks, j) == Some(if j < 12 * 1024 then 0 else 0xAB)
  {
    hide SparseSource;
    SparseByte();
  }
}
