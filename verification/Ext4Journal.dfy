/** Descriptor tags of the jbd2 journal and the index of journaled block copies (src/ext4.rs). */
module Ext4Journal {
  import opened Bytes

  /** The three tag layouts: 8 bytes, 12 bytes with the upper half of the block number, 16 bytes with a checksum. */
  datatype Layout = Narrow | Wide | ChecksumV3

  const MAX_TAGS: nat := 100_000

  predicate SameUuid(flags: nat) { flags / 2 % 2 == 1 }

  predicate LastTag(flags: nat) { flags / 8 % 2 == 1 }

  function TagSize(layout: Layout): nat {
    match layout
    case Narrow => 8
    case Wide => 12
    case ChecksumV3 => 16
  }

  // --- parsing ---

  function FlagsAt(block: seq<byte>, layout: Layout, pos: nat): nat
    requires pos + TagSize(layout) <= |block|
  {
    if layout == ChecksumV3 then U32Be(block, pos + 4) else U16Be(block, pos + 6)
  }

  function BlockNrAt(block: seq<byte>, layout: Layout, pos: nat): nat
    requires pos + TagSize(layout) <= |block|
  {
    U32Be(block, pos) + (if layout == Narrow then 0 else 0x1_0000_0000 * U32Be(block, pos + 8))
  }

  /** Where the tag after the one at `pos` starts: a UUID of 16 bytes follows unless the tag says it is the same. */
  function NextPos(block: seq<byte>, layout: Layout, pos: nat): nat
    requires pos + TagSize(layout) <= |block|
  {
    pos + TagSize(layout) + (if SameUuid(FlagsAt(block, layout, pos)) then 0 else 16)
  }

  /** The tags from `pos` on, when `n` were read before. */
  function TagsFrom(block: seq<byte>, layout: Layout, pos: nat, n: nat): seq<nat>
    decreases Max(0, |block| - pos)
  {
    if pos + TagSize(layout) > |block| then []
    else
      var next := NextPos(block, layout, pos);
      [BlockNrAt(block, layout, pos)]
      + (if LastTag(FlagsAt(block, layout, pos)) || next >= |block| || n + 1 > MAX_TAGS then []
         else TagsFrom(block, layout, next, n + 1))
  }

  function LayoutOf(csumV3: bool, is64Bit: bool): Layout {
    if csumV3 then ChecksumV3 else if is64Bit then Wide else Narrow
  }

  /** Read one tag: its block number, its flags and where the next one starts; nothing if the block ends before. */
  method ReadTag(block: seq<byte>, csumV3: bool, is64Bit: bool, pos: nat) returns (tag: Option<(nat, nat)>, next: nat)
    ensures tag.None? <==> pos + TagSize(LayoutOf(csumV3, is64Bit)) > |block|
    ensures tag.Some? ==>
              && next == NextPos(block, LayoutOf(csumV3, is64Bit), pos)
              && tag.value == (BlockNrAt(block, LayoutOf(csumV3, is64Bit), pos),
                               FlagsAt(block, LayoutOf(csumV3, is64Bit), pos))
  {
    hide U32Be, U16Be, SameUuid;
    next := pos;
    var blocknr, flags;
    if csumV3 {
      if pos + 16 > |block| {
        return None, next;
      }
      blocknr, flags := 0x1_0000_0000 * U32Be(block, pos + 8) + U32Be(block, pos), U32Be(block, pos + 4);
      next := pos + 16;
    } else {
      if pos + 8 > |block| {
        return None, next;
      }
      blocknr, flags := U32Be(block, pos), U16Be(block, pos + 6);
      next := pos + 8;
      if is64Bit {
        if next + 4 > |block| {
          return None, next;
        }
        blocknr := blocknr + 0x1_0000_0000 * U32Be(block, next);
        next := next + 4;
      }
    }
    if !SameUuid(flags) {
      next := next + 16;
    }
    tag := Some((blocknr, flags));
  }

  lemma FirstTag(block: seq<byte>, layout: Layout, pos: nat, tags: seq<nat>)
    requires pos + TagSize(layout) <= |block|
    ensures NextPos(block, layout, pos) > pos
    ensures tags + TagsFrom(block, layout, pos, |tags|)
            == var more := tags + [BlockNrAt(block, layout, pos)];
               var next := NextPos(block, layout, pos);
               if LastTag(FlagsAt(block, layout, pos)) || next >= |block| || |more| > MAX_TAGS then more
               else more + TagsFrom(block, layout, next, |more|)
  {
    hide BlockNrAt, FlagsAt, SameUuid, LastTag;
    var more := tags + [BlockNrAt(block, layout, pos)];
    var next := NextPos(block, layout, pos);
    if !(LastTag(FlagsAt(block, layout, pos)) || next >= |block| || |more| > MAX_TAGS) {
      var rest := TagsFrom(block, layout, next, |more|);
      assert tags + ([BlockNrAt(block, layout, pos)] + rest) == more + rest;
    }
  }

  /** `parse_journal_tags`; the tags stand behind a header of 12 bytes. */
  method ParseJournalTags(block: seq<byte>, csumV3: bool, is64Bit: bool) returns (tags: seq<nat>)
    ensures tags == TagsFrom(block, LayoutOf(csumV3, is64Bit), 12, 0)
  {
    hide TagsFrom, NextPos, BlockNrAt, FlagsAt, LayoutOf, LastTag, TagSize;
    ghost var layout := LayoutOf(csumV3, is64Bit);
    tags := [];
    var pos: nat := 12;
    while true
      invariant tags + TagsFrom(block, layout, pos, |tags|) == TagsFrom(block, layout, 12, 0)
      decreases Max(0, |block| - pos)
    {
      var tag, next := ReadTag(block, csumV3, is64Bit, pos);
      if tag.None? {
        NoMoreTags(block, layout, pos, |tags|);
        return;
      }
      FirstTag(block, layout, pos, tags);
      tags := tags + [tag.value.0];
      pos := next;
      if LastTag(tag.value.1) || pos >= |block| || |tags| > MAX_TAGS {
        return;
      }
    }
  }

  lemma NoMoreTags(block: seq<byte>, layout: Layout, pos: nat, n: nat)
    requires pos + TagSize(layout) > |block|
    ensures TagsFrom(block, layout, pos, n) == []
  {
  }

  // --- encoding ---

  datatype Tag = Tag(blocknr: nat, flags: nat, checksum: nat, uuid: seq<byte>) {
    predicate Valid(layout: Layout) {
      && blocknr < (if layout == Narrow then 0x1_0000_0000 else U64_LIMIT)
      && flags < 0x1_0000 && checksum < 0x1_0000 && |uuid| == 16
    }
  }

  function EncodeTag(t: Tag, layout: Layout): (s: seq<byte>)
    requires t.Valid(layout)
    ensures |s| == TagSize(layout) + (if SameUuid(t.flags) then 0 else 16)
  {
    (match layout
     case Narrow => Be32(t.blocknr) + Be16(t.checksum) + Be16(t.flags)
     case Wide => Be32(t.blocknr % 0x1_0000_0000) + Be16(t.checksum) + Be16(t.flags) + Be32(t.blocknr / 0x1_0000_0000)
     case ChecksumV3 =>
       Be32(t.blocknr % 0x1_0000_0000) + Be32(t.flags) + Be32(t.blocknr / 0x1_0000_0000) + Be32(t.checksum))
    + (if SameUuid(t.flags) then [] else t.uuid)
  }

  predicate ValidTags(tags: seq<Tag>, layout: Layout) {
    && (forall i :: 0 <= i < |tags| ==> tags[i].Valid(layout))
    && (forall i :: 0 <= i < |tags| ==> (LastTag(tags[i].flags) <==> i == |tags| - 1))
  }

  function EncodeTags(tags: seq<Tag>, layout: Layout): seq<byte>
    requires forall i :: 0 <= i < |tags| ==> tags[i].Valid(layout)
  {
    if tags == [] then [] else EncodeTag(tags[0], layout) + EncodeTags(tags[1..], layout)
  }

  function BlockNumbers(tags: seq<Tag>): seq<nat> {
    if tags == [] then [] else [tags[0].blocknr] + BlockNumbers(tags[1..])
  }

  lemma U32BeAt(s: seq<byte>, i: nat, v: nat)
    requires v < 0x1_0000_0000 && i + 4 <= |s| && s[i..i + 4] == Be32(v)
    ensures U32Be(s, i) == v
  {
    var w := Be32(v);
    assert s[i] == w[0] && s[i + 1] == w[1] && s[i + 2] == w[2] && s[i + 3] == w[3];
    assert U32Be(w, 0) == v;
  }

  lemma U16BeAt(s: seq<byte>, i: nat, v: nat)
    requires v < 0x1_0000 && i + 2 <= |s| && s[i..i + 2] == Be16(v)
    ensures U16Be(s, i) == v
  {
    var w := Be16(v);
    assert s[i] == w[0] && s[i + 1] == w[1];
    assert U16Be(w, 0) == v;
  }

  /** One encoded tag is read back, wherever it stands. */
  lemma TagIsRead(block: seq<byte>, pos: nat, t: Tag, layout: Layout)
    requires t.Valid(layout) && pos + |EncodeTag(t, layout)| <= |block|
    requires block[pos..pos + |EncodeTag(t, layout)|] == EncodeTag(t, layout)
    ensures BlockNrAt(block, layout, pos) == t.blocknr && FlagsAt(block, layout, pos) == t.flags
    ensures NextPos(block, layout, pos) == pos + |EncodeTag(t, layout)|
  {
    hide Be32, Be16, U32Be, U16Be;
    var e := EncodeTag(t, layout);
    forall a: nat, b: nat | a <= b <= |e| ensures block[pos + a..pos + b] == e[a..b] {
      SliceOfSlice(block, pos, pos + |e|, a, b);
    }
    if layout == Narrow {
      assert e[0..4] == Be32(t.blocknr) && e[6..8] == Be16(t.flags);
      assert block[pos..pos + 4] == e[0..4] && block[pos + 6..pos + 8] == e[6..8];
      U32BeAt(block, pos, t.blocknr);
      U16BeAt(block, pos + 6, t.flags);
    } else {
      var lo, hi := t.blocknr % 0x1_0000_0000, t.blocknr / 0x1_0000_0000;
      assert e[0..4] == Be32(lo) && e[8..12] == Be32(hi);
      assert block[pos..pos + 4] == e[0..4] && block[pos + 8..pos + 12] == e[8..12];
      U32BeAt(block, pos, lo);
      U32BeAt(block, pos + 8, hi);
      if layout == Wide {
        assert e[6..8] == Be16(t.flags) && block[pos + 6..pos + 8] == e[6..8];
        U16BeAt(block, pos + 6, t.flags);
      } else {
        assert e[4..8] == Be32(t.flags) && block[pos + 4..pos + 8] == e[4..8];
        U32BeAt(block, pos + 4, t.flags);
      }
    }
  }

  /**
   * Tags round-trip in every layout, with any choice of SAME_UUID and of the flags the parser ignores, any checksums
   * and UUIDs, and anything behind the last tag.
   */
  lemma {:induction false} TagsRoundTrip(head: seq<byte>, tags: seq<Tag>, rest: seq<byte>, layout: Layout, n: nat)
    requires tags != [] && ValidTags(tags, layout) && n + |tags| <= MAX_TAGS + 1
    ensures TagsFrom(head + EncodeTags(tags, layout) + rest, layout, |head|, n) == BlockNumbers(tags)
    decreases |tags|
  {
    hide EncodeTag, BlockNrAt, FlagsAt, NextPos, LastTag, TagsFrom, Tag.Valid;
    var e, tail := EncodeTag(tags[0], layout), tags[1..];
    var block := head + EncodeTags(tags, layout) + rest;
    assert block[|head|..|head| + |e|] == e;
    TagIsRead(block, |head|, tags[0], layout);
    OneTag(block, layout, |head|, n, tags[0].flags);
    if tail != [] {
      assert forall i :: 0 <= i < |tail| ==> tail[i] == tags[i + 1];
      TagsRoundTrip(head + e, tail, rest, layout, n + 1);
      assert block == (head + e) + EncodeTags(tail, layout) + rest;
      assert !LastTag(tags[0].flags);
      NonEmptyEncoding(tail, layout);
    }
  }

  lemma OneTag(block: seq<byte>, layout: Layout, pos: nat, n: nat, flags: nat)
    requires pos + TagSize(layout) <= |block| && FlagsAt(block, layout, pos) == flags
    ensures var first, next := [BlockNrAt(block, layout, pos)], NextPos(block, layout, pos);
            TagsFrom(block, layout, pos, n)
            == first + (if LastTag(flags) || next >= |block| || n + 1 > MAX_TAGS then []
                        else TagsFrom(block, layout, next, n + 1))
  {
    hide BlockNrAt, FlagsAt, LastTag;
  }

  lemma NonEmptyEncoding(tags: seq<Tag>, layout: Layout)
    requires tags != [] && forall i :: 0 <= i < |tags| ==> tags[i].Valid(layout)
    ensures |EncodeTags(tags, layout)| > 0
  {
  }
}
