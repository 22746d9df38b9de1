/** The index of journaled block copies (`build_journal_index` in src/ext4.rs). */
module Ext4JournalIndex {
  import opened Bytes
  import opened FreeRuns
  import opened Ext4Journal

  const JBD2_MAGIC: nat := 0xC03B_3998
  const DESCRIPTOR_BLOCK: nat := 1
  const MAX_JOURNAL_BLOCKS: nat := 0x20_0000

  /** The journal file: its blocks on the volume, the part in use, and the tag layout. */
  datatype Journal = Journal(vol: ExtVolume, blocks: seq<nat>, maxLen: nat, csumV3: bool, is64Bit: bool)

  /** The block at a journal position is a copy of a filesystem block. */
  datatype Copy = Copy(fsBlock: nat, position: nat)

  // --- the copies a journal holds ---

  predicate IsDescriptor(block: seq<byte>) {
    |block| >= 12 && U32Be(block, 0) == JBD2_MAGIC && U32Be(block, 4) == DESCRIPTOR_BLOCK
  }

  /** The tags at a journal position; only a descriptor has any. */
  function TagsAt(j: Journal, src: seq<byte>, ji: nat): seq<nat>
    requires ji < |j.blocks|
  {
    var block := ReadBlock(j.vol, src, j.blocks[ji]);
    if IsDescriptor(block) then TagsFrom(block, LayoutOf(j.csumV3, j.is64Bit), 12, 0) else []
  }

  predicate InUse(j: Journal, ji: nat, steps: nat) {
    ji < j.maxLen && ji < |j.blocks| && steps < MAX_JOURNAL_BLOCKS
  }

  /** Tags `k` and up name the positions behind the descriptor at `ji`, as far as the journal goes. */
  function Named(tags: seq<nat>, ji: nat, k: nat, limit: nat): seq<Copy>
    decreases |tags| - k
  {
    if k >= |tags| || ji + 1 + k >= limit then [] else [Copy(tags[k], ji + 1 + k)] + Named(tags, ji, k + 1, limit)
  }

  /** The positions read as journal headers, from `ji` on, when `steps` were read before. */
  function Headers(j: Journal, src: seq<byte>, ji: nat, steps: nat): seq<nat>
    decreases MAX_JOURNAL_BLOCKS - steps
  {
    if !InUse(j, ji, steps) then [] else [ji] + Headers(j, src, ji + 1 + |TagsAt(j, src, ji)|, steps + 1)
  }

  function Copies(j: Journal, src: seq<byte>, ji: nat, steps: nat): seq<Copy>
    decreases MAX_JOURNAL_BLOCKS - steps
  {
    if !InUse(j, ji, steps) then []
    else
      var tags := TagsAt(j, src, ji);
      Named(tags, ji, 0, |j.blocks|) + Copies(j, src, ji + 1 + |tags|, steps + 1)
  }

  // --- their order ---

  /** Positions ascend strictly and stay in [lo, hi). */
  ghost predicate Ascending(copies: seq<Copy>, lo: nat, hi: nat) {
    && (forall i :: 0 <= i < |copies| ==> lo <= copies[i].position < hi)
    && (forall i, k :: 0 <= i < k < |copies| ==> copies[i].position < copies[k].position)
  }

  lemma {:induction false} NamedCopies(tags: seq<nat>, ji: nat, k: nat, limit: nat)
    requires k <= |tags|
    ensures |Named(tags, ji, k, limit)| == Max(0, Min(|tags| - k, limit - (ji + 1 + k)))
    ensures forall i :: 0 <= i < |Named(tags, ji, k, limit)| ==>
            Named(tags, ji, k, limit)[i] == Copy(tags[k + i], ji + 1 + k + i)
    decreases |tags| - k
  {
    if k < |tags| && ji + 1 + k < limit { NamedCopies(tags, ji, k + 1, limit); }
  }

  /** No journal position is recorded twice, and none behind the journal's end. */
  lemma {:induction false} CopiesAscend(j: Journal, src: seq<byte>, ji: nat, steps: nat)
    ensures Ascending(Copies(j, src, ji, steps), ji + 1, |j.blocks|)
    decreases MAX_JOURNAL_BLOCKS - steps
  {
    hide TagsAt;
    if InUse(j, ji, steps) {
      var tags := TagsAt(j, src, ji);
      NamedCopies(tags, ji, 0, |j.blocks|);
      CopiesAscend(j, src, ji + 1 + |tags|, steps + 1);
    }
  }

  /** A copy is recorded exactly when a header that is read names it by a tag. */
  lemma {:induction false} CopyIffNamed(j: Journal, src: seq<byte>, ji: nat, steps: nat, c: Copy)
    ensures c in Copies(j, src, ji, steps) <==>
            exists d :: d in Headers(j, src, ji, steps) && NamedBy(j, src, d, c)
    decreases MAX_JOURNAL_BLOCKS - steps
  {
    hide TagsAt;
    if InUse(j, ji, steps) {
      var tags := TagsAt(j, src, ji);
      var first := Named(tags, ji, 0, |j.blocks|);
      NamedCopies(tags, ji, 0, |j.blocks|);
      CopyIffNamed(j, src, ji + 1 + |tags|, steps + 1, c);
      if NamedBy(j, src, ji, c) { assert first[c.position - (ji + 1)] == c; }
    }
  }

  predicate NamedBy(j: Journal, src: seq<byte>, d: nat, c: Copy) {
    && d < |j.blocks| && d < c.position < |j.blocks|
    && c.position - (d + 1) < |TagsAt(j, src, d)| && TagsAt(j, src, d)[c.position - (d + 1)] == c.fsBlock
  }

  /** Journaled data is never read as a header, whatever bytes it holds. */
  lemma {:induction false} DataIsNoHeader(j: Journal, src: seq<byte>, ji: nat, steps: nat, c: Copy)
    requires c in Copies(j, src, ji, steps)
    ensures c.position !in Headers(j, src, ji, steps)
    decreases MAX_JOURNAL_BLOCKS - steps
  {
    hide TagsAt;
    var tags := TagsAt(j, src, ji);
    var next := ji + 1 + |tags|;
    NamedCopies(tags, ji, 0, |j.blocks|);
    CopiesAscend(j, src, next, steps + 1);
    HeadersFollow(j, src, next, steps + 1);
    if c in Copies(j, src, next, steps + 1) { DataIsNoHeader(j, src, next, steps + 1, c); }
  }

  lemma {:induction false} HeadersFollow(j: Journal, src: seq<byte>, ji: nat, steps: nat)
    ensures forall d :: d in Headers(j, src, ji, steps) ==> d >= ji
    decreases MAX_JOURNAL_BLOCKS - steps
  {
    hide TagsAt;
    if InUse(j, ji, steps) { HeadersFollow(j, src, ji + 1 + |TagsAt(j, src, ji)|, steps + 1); }
  }

  // --- the index ---

  /** The positions recorded for a filesystem block, in order. */
  function PositionsOf(copies: seq<Copy>, b: nat): seq<nat> {
    if copies == [] then []
    else
      var c := copies[|copies| - 1];
      PositionsOf(copies[..|copies| - 1], b) + (if c.fsBlock == b then [c.position] else [])
  }

  /** What the index says of filesystem block `b`: where its copies stand on the volume, in journal order. */
  ghost predicate IndexesBlock(m: map<nat, seq<nat>>, copies: seq<Copy>, blocks: seq<nat>, b: nat) {
    var positions := PositionsOf(copies, b);
    && (b in m <==> positions != [])
    && (b in m ==>
          && |m[b]| == |positions|
          && forall i :: 0 <= i < |positions| ==> positions[i] < |blocks| && m[b][i] == blocks[positions[i]])
  }

  ghost predicate Indexes(m: map<nat, seq<nat>>, copies: seq<Copy>, blocks: seq<nat>) {
    forall b: nat :: IndexesBlock(m, copies, blocks, b)
  }

  ghost predicate Ordered(positions: seq<nat>, lo: nat, hi: nat) {
    && (forall p :: p in positions ==> lo <= p < hi)
    && (forall i, k :: 0 <= i < k < |positions| ==> positions[i] < positions[k])
  }

  lemma AppendPosition(was: seq<nat>, lo: nat, p: nat, hi: nat)
    requires Ordered(was, lo, p) && lo <= p < hi
    ensures Ordered(was, lo, hi) && Ordered(was + [p], lo, hi)
  {
    forall i, k | 0 <= i < k < |was + [p]| ensures (was + [p])[i] < (was + [p])[k] { assert was[i] in was; }
  }

  lemma OneMoreCopy(before: seq<Copy>, c: Copy, b: nat)
    requires forall p :: p in PositionsOf(before, b) <==> Copy(b, p) in before
    ensures PositionsOf(before + [c], b)
         == if c.fsBlock == b then PositionsOf(before, b) + [c.position] else PositionsOf(before, b)
    ensures forall p :: p in PositionsOf(before + [c], b) <==> Copy(b, p) in before + [c]
  {
    assert (before + [c])[..|before|] == before;
  }

  lemma NoPositions(b: nat, lo: nat, hi: nat)
    ensures PositionsOf([], b) == [] && Ordered([], lo, hi)
  {
  }

  lemma AscendingFront(copies: seq<Copy>, lo: nat, hi: nat)
    requires copies != [] && Ascending(copies, lo, hi)
    ensures Ascending(copies[..|copies| - 1], lo, copies[|copies| - 1].position)
            && lo <= copies[|copies| - 1].position < hi
  {
  }

  /** The positions of a block are those of its copies, ascending. */
  lemma {:induction false} PositionsInOrder(copies: seq<Copy>, b: nat, lo: nat, hi: nat)
    requires Ascending(copies, lo, hi)
    ensures Ordered(PositionsOf(copies, b), lo, hi)
    ensures forall p :: p in PositionsOf(copies, b) <==> Copy(b, p) in copies
  {
    hide Ascending, PositionsOf, Ordered;
    if copies == [] {
      NoPositions(b, lo, hi);
    } else {
      var n := |copies| - 1;
      var before, c := copies[..n], copies[n];
      AscendingFront(copies, lo, hi);
      PositionsInOrder(before, b, lo, c.position);
      assert copies == before + [c];
      OneMoreCopy(before, c, b);
      AppendPosition(PositionsOf(before, b), lo, c.position, hi);
    }
  }

  /** Each journal block is recorded under at most one filesystem block. */
  lemma RecordedOnce(copies: seq<Copy>, a: nat, b: nat, lo: nat, hi: nat, p: nat)
    requires Ascending(copies, lo, hi) && p in PositionsOf(copies, a) && p in PositionsOf(copies, b)
    ensures a == b
  {
    PositionsInOrder(copies, a, lo, hi);
    PositionsInOrder(copies, b, lo, hi);
    var i :| 0 <= i < |copies| && copies[i] == Copy(a, p);
    var k :| 0 <= k < |copies| && copies[k] == Copy(b, p);
  }

  function Pushed(m: map<nat, seq<nat>>, b: nat, block: nat): map<nat, seq<nat>> {
    m[b := (if b in m then m[b] else []) + [block]]
  }

  lemma PushIndexes(m: map<nat, seq<nat>>, copies: seq<Copy>, blocks: seq<nat>, c: Copy)
    requires Indexes(m, copies, blocks) && c.position < |blocks|
    ensures Indexes(Pushed(m, c.fsBlock, blocks[c.position]), copies + [c], blocks)
  {
    var m', copies' := Pushed(m, c.fsBlock, blocks[c.position]), copies + [c];
    forall b: nat ensures IndexesBlock(m', copies', blocks, b) {
      assert IndexesBlock(m, copies, blocks, b);
      assert copies'[..|copies|] == copies;
      assert PositionsOf(copies', b) == PositionsOf(copies, b) + (if c.fsBlock == b then [c.position] else []);
    }
  }

  /** The entries of one descriptor. */
  method PushTags(m: map<nat, seq<nat>>, tags: seq<nat>, ji: nat, blocks: seq<nat>, ghost copies: seq<Copy>)
      returns (index: map<nat, seq<nat>>)
    requires Indexes(m, copies, blocks)
    ensures Indexes(index, copies + Named(tags, ji, 0, |blocks|), blocks)
  {
    hide Indexes, Pushed;
    index := m;
    ghost var done := [];
    var k := 0;
    assert copies + done == copies;
    while k < |tags|
      invariant k <= |tags| && done + Named(tags, ji, k, |blocks|) == Named(tags, ji, 0, |blocks|)
      invariant Indexes(index, copies + done, blocks)
    {
      var dataJi := ji + 1 + k;
      if dataJi >= |blocks| {
        break;
      }
      ghost var c := Copy(tags[k], dataJi);
      PushIndexes(index, copies + done, blocks, c);
      assert copies + done + [c] == copies + (done + [c]);
      index := Pushed(index, tags[k], blocks[dataJi]);
      done := done + [c];
      k := k + 1;
    }
    assert done == Named(tags, ji, 0, |blocks|);
  }

  /** The journal behind a superblock; the header fields are big-endian. Nothing if it is not one of a jbd2 journal. */
  function Opened(vol: ExtVolume, src: seq<byte>, blocks: seq<nat>, nBlocks: nat): Option<(Journal, nat)> {
    if blocks == [] then None
    else
      var sb := ReadBlock(vol, src, blocks[0]);
      if |sb| < 0x2C || U32Be(sb, 0) != JBD2_MAGIC then None
      else
        var incompat := U32Be(sb, 0x28);
        Some((Journal(vol, blocks, Min(U32Be(sb, 0x10), nBlocks), incompat / 0x10 % 2 == 1, incompat / 2 % 2 == 1),
              Max(U32Be(sb, 0x14), 1)))
  }

  /** The copies a journal file holds. */
  function JournalCopies(vol: ExtVolume, src: seq<byte>, blocks: seq<nat>, nBlocks: nat): seq<Copy> {
    match Opened(vol, src, blocks, nBlocks)
    case None => []
    case Some((j, first)) => Copies(j, src, first, 0)
  }

  /** `build_journal_index`, given the block map of the journal's inode. */
  method BuildJournalIndex(vol: ExtVolume, src: seq<byte>, blocks: seq<nat>, nBlocks: nat)
    returns (index: map<nat, seq<nat>>)
    ensures Indexes(index, JournalCopies(vol, src, blocks, nBlocks), blocks)
  {
    hide ReadBlock, Indexes, Opened, Named, TagsFrom, LayoutOf, U32Be, Copies, TagsAt, IsDescriptor;
    index := map[];
    NothingIndexed(blocks);
    var journal := Opened(vol, src, blocks, nBlocks);
    if journal.None? {
      return;
    }
    var j, first := journal.value.0, journal.value.1;
    OpenedBlocks(vol, src, blocks, nBlocks);
    ghost var done: seq<Copy> := [];
    var ji: nat, steps: nat := first, 0;
    while ji < j.maxLen && ji < |blocks| && steps < MAX_JOURNAL_BLOCKS
      invariant done + Copies(j, src, ji, steps) == Copies(j, src, first, 0)
      invariant Indexes(index, done, blocks)
      decreases MAX_JOURNAL_BLOCKS - steps
    {
      HeaderRead(j, src, ji, steps, done);
      steps := steps + 1;
      var block := ReadBlock(vol, src, blocks[ji]);
      if !IsDescriptor(block) {
        ji := ji + 1;
        continue;
      }
      var tags := ParseJournalTags(block, j.csumV3, j.is64Bit);
      index := PushTags(index, tags, ji, blocks, done);
      done := done + Named(tags, ji, 0, |blocks|);
      ji := ji + 1 + |tags|;
    }
    JournalDone(j, src, ji, steps);
    assert done + [] == done;
  }

  lemma HeaderRead(j: Journal, src: seq<byte>, ji: nat, steps: nat, done: seq<Copy>)
    requires InUse(j, ji, steps)
    ensures var block := ReadBlock(j.vol, src, j.blocks[ji]);
            if IsDescriptor(block) then
              var tags := TagsFrom(block, LayoutOf(j.csumV3, j.is64Bit), 12, 0);
              done + Copies(j, src, ji, steps)
              == done + Named(tags, ji, 0, |j.blocks|) + Copies(j, src, ji + 1 + |tags|, steps + 1)
            else Copies(j, src, ji, steps) == Copies(j, src, ji + 1, steps + 1)
  {
    hide IsDescriptor, TagsFrom, ReadBlock;
    NoTagsNamed(ji, |j.blocks|);
    var tags := TagsAt(j, src, ji);
    var here, behind := Named(tags, ji, 0, |j.blocks|), Copies(j, src, ji + 1 + |tags|, steps + 1);
    assert done + (here + behind) == done + here + behind;
  }

  lemma JournalDone(j: Journal, src: seq<byte>, ji: nat, steps: nat)
    requires !InUse(j, ji, steps)
    ensures Copies(j, src, ji, steps) == []
  {
  }

  lemma NothingIndexed(blocks: seq<nat>)
    ensures Indexes(map[], [], blocks)
  {
  }

  lemma NoTagsNamed(ji: nat, limit: nat)
    ensures Named([], ji, 0, limit) == []
  {
  }

  lemma OpenedBlocks(vol: ExtVolume, src: seq<byte>, blocks: seq<nat>, nBlocks: nat)
    requires Opened(vol, src, blocks, nBlocks).Some?
    ensures var j := Opened(vol, src, blocks, nBlocks).value.0;
            j.vol == vol && j.blocks == blocks && j.maxLen <= nBlocks
  {
  }

  /**
   * The whole index of any journal: a filesystem block has exactly the copies that headers name by their tags, in
   * strictly ascending journal position; no journal position serves two filesystem blocks, and none that holds a copy
   * was read as a header.
   */
  lemma IndexedCopies(vol: ExtVolume, src: seq<byte>, blocks: seq<nat>, nBlocks: nat, a: nat, b: nat, p: nat)
    requires Opened(vol, src, blocks, nBlocks).Some?
    ensures var journal := Opened(vol, src, blocks, nBlocks).value;
            var j, first := journal.0, journal.1;
            var copies := JournalCopies(vol, src, blocks, nBlocks);
            && (p in PositionsOf(copies, b) <==>
                exists d :: d in Headers(j, src, first, 0) && NamedBy(j, src, d, Copy(b, p)))
            && (forall i, k :: 0 <= i < k < |PositionsOf(copies, b)| ==>
                PositionsOf(copies, b)[i] < PositionsOf(copies, b)[k])
            && (p in PositionsOf(copies, a) && p in PositionsOf(copies, b) ==> a == b)
            && (p in PositionsOf(copies, b) ==> p !in Headers(j, src, first, 0))
  {
    hide Opened, TagsAt, NamedBy, Copies, Headers;
    var journal := Opened(vol, src, blocks, nBlocks).value;
    var j, first: nat := journal.0, journal.1;
    var copies := Copies(j, src, first, 0);
    CopiesAscend(j, src, first, 0);
    PositionsInOrder(copies, b, first + 1, |j.blocks|);
    CopyIffNamed(j, src, first, 0, Copy(b, p));
    if p in PositionsOf(copies, b) {
      DataIsNoHeader(j, src, first, 0, Copy(b, p));
      if p in PositionsOf(copies, a) { RecordedOnce(copies, a, b, first + 1, |j.blocks|, p); }
    }
  }
}
