/** Direct and indirect block pointers of ext2/3, flattened recursively (`map_indirect`, `read_indirect`). */
module Ext4Indirect {
  import opened Bytes
  import opened Arith
  import opened FreeRuns

  /** Pointers in a whole block, and their number below an interior pointer of a level. */
  function PerBlock(vol: ExtVolume): nat { vol.blockSize / 4 }

  function Reach(vol: ExtVolume, level: nat): nat {
    if level == 0 then 1 else PerBlock(vol) * Reach(vol, level - 1)
  }

  lemma {:induction false} ReachIsPositive(vol: ExtVolume, level: nat)
    requires vol.blockSize >= 4
    ensures Reach(vol, level) > 0
  {
    if level > 0 {
      ReachIsPositive(vol, level - 1);
      Monotone(1, PerBlock(vol), Reach(vol, level - 1));
    }
  }

  function Pointer(data: seq<byte>, i: nat): nat
    requires i < |data| / 4
  {
    U32Le(data, 4 * i)
  }

  // --- index arithmetic ---

  /**
   * The pointer of block `k` below an interior pointer: its digits in base PerBlock lead through the tree. There is
   * none where an interior pointer is zero or the block that holds the next digit is cut off by the end of the source.
   */
  function Lookup(vol: ExtVolume, src: seq<byte>, block: nat, level: nat, k: nat): Option<nat>
    requires level >= 1 && vol.blockSize >= 4
    decreases level
  {
    ReachIsPositive(vol, level - 1);
    var digit := k / Reach(vol, level - 1);
    if block == 0 || digit >= |ReadBlock(vol, src, block)| / 4 then None
    else
      var ptr := Pointer(ReadBlock(vol, src, block), digit);
      if level == 1 then Some(ptr) else Lookup(vol, src, ptr, level - 1, k % Reach(vol, level - 1))
  }

  /** The pointer of logical block `k` of a file: direct, single, double or triple indirect. */
  function Entry(vol: ExtVolume, src: seq<byte>, iBlock: seq<byte>, k: nat): Option<nat>
    requires |iBlock| == 60 && vol.blockSize >= 4
  {
    var p1, p2, p3 := Reach(vol, 1), Reach(vol, 2), Reach(vol, 3);
    if k < 12 then Some(Pointer(iBlock, k))
    else if k < 12 + p1 then Lookup(vol, src, Pointer(iBlock, 12), 1, k - 12)
    else if k < 12 + p1 + p2 then Lookup(vol, src, Pointer(iBlock, 13), 2, k - 12 - p1)
    else if k < 12 + p1 + p2 + p3 then Lookup(vol, src, Pointer(iBlock, 14), 3, k - 12 - p1 - p2)
    else None
  }

  function Capacity(vol: ExtVolume): nat { 12 + Reach(vol, 1) + Reach(vol, 2) + Reach(vol, 3) }

  /** The pointers of `n` blocks from `lo` on, one way and the other. */
  function Lookups(vol: ExtVolume, src: seq<byte>, block: nat, level: nat, lo: nat, n: nat): (r: seq<Option<nat>>)
    requires level >= 1 && vol.blockSize >= 4
    ensures |r| == n && forall i :: 0 <= i < n ==> r[i] == Lookup(vol, src, block, level, lo + i)
  {
    seq(n, i requires 0 <= i < n => Lookup(vol, src, block, level, lo + i))
  }

  function Entries(vol: ExtVolume, src: seq<byte>, iBlock: seq<byte>, n: nat): (r: seq<Option<nat>>)
    requires |iBlock| == 60 && vol.blockSize >= 4
    ensures |r| == n && forall k :: 0 <= k < n ==> r[k] == Entry(vol, src, iBlock, k)
  {
    seq(n, k requires 0 <= k < n => Entry(vol, src, iBlock, k))
  }

  /** The values that are there, in order. */
  function Present(s: seq<Option<nat>>): (r: seq<nat>)
    ensures |r| <= |s|
  {
    if s == [] then [] else Present(s[..|s| - 1]) + (match s[|s| - 1] case None => [] case Some(v) => [v])
  }

  lemma {:induction false} PresentConcat(a: seq<Option<nat>>, b: seq<Option<nat>>)
    ensures Present(a + b) == Present(a) + Present(b)
  {
    if b == [] {
      assert a + b == a;
    } else {
      assert (a + b)[..|a + b| - 1] == a + b[..|b| - 1];
      PresentConcat(a, b[..|b| - 1]);
    }
  }

  lemma {:induction false} PresentNone(s: seq<Option<nat>>)
    requires forall i :: 0 <= i < |s| ==> s[i] == None
    ensures Present(s) == []
  {
    if s != [] { PresentNone(s[..|s| - 1]); }
  }

  lemma {:induction false} PresentAll(s: seq<Option<nat>>)
    requires forall i :: 0 <= i < |s| ==> s[i].Some?
    ensures |Present(s)| == |s| && forall i :: 0 <= i < |s| ==> Present(s)[i] == s[i].value
  {
    if s != [] { PresentAll(s[..|s| - 1]); }
  }

  // --- recursive flattening ---

  /** Every leaf pointer below an interior pointer, in the order of the walk; nothing below a zero. */
  function Leaves(vol: ExtVolume, src: seq<byte>, block: nat, level: nat): seq<nat>
    requires level >= 1
    decreases level, 1, 0
  {
    if block == 0 then [] else LeavesUpTo(vol, src, block, level, |ReadBlock(vol, src, block)| / 4)
  }

  function LeavesUpTo(vol: ExtVolume, src: seq<byte>, block: nat, level: nat, n: nat): seq<nat>
    requires level >= 1 && n <= |ReadBlock(vol, src, block)| / 4
    decreases level, 0, n
  {
    if n == 0 then []
    else
      var ptr := Pointer(ReadBlock(vol, src, block), n - 1);
      LeavesUpTo(vol, src, block, level, n - 1) + (if level == 1 then [ptr] else Leaves(vol, src, ptr, level - 1))
  }

  function InSlot(vol: ExtVolume, src: seq<byte>, ptr: nat, level: nat, i: nat): Option<nat>
    requires level >= 1 && vol.blockSize >= 4
  {
    if level == 1 then Some(ptr) else Lookup(vol, src, ptr, level - 1, i)
  }

  /** Below slot `d` of a block, index arithmetic in the block is index arithmetic in the child. */
  lemma LookupInChild(vol: ExtVolume, src: seq<byte>, block: nat, level: nat, d: nat, i: nat)
    requires level >= 1 && vol.blockSize >= 4 && block != 0 && d < |ReadBlock(vol, src, block)| / 4
             && i < Reach(vol, level - 1)
    ensures Lookup(vol, src, block, level, d * Reach(vol, level - 1) + i)
         == InSlot(vol, src, Pointer(ReadBlock(vol, src, block), d), level, i)
  {
    hide Reach, ReadBlock;
    ReachIsPositive(vol, level - 1);
    InGroup(d, i, Reach(vol, level - 1));
  }

  /** The first `n` slots of a block hold what index arithmetic finds below them. */
  lemma {:induction false} SlotsArePresent(vol: ExtVolume, src: seq<byte>, block: nat, level: nat, n: nat)
    requires level >= 1 && vol.blockSize >= 4 && block != 0 && n <= |ReadBlock(vol, src, block)| / 4
    ensures LeavesUpTo(vol, src, block, level, n)
            == Present(Lookups(vol, src, block, level, 0, n * Reach(vol, level - 1)))
    decreases level, 0, n
  {
    hide Lookup, ReadBlock, Reach, Present, Leaves;
    if n == 0 {
      PresentNone(Lookups(vol, src, block, level, 0, 0));
    } else {
      var r, d := Reach(vol, level - 1), n - 1;
      SlotsArePresent(vol, src, block, level, d);
      OneMore(d, r);
      var front, more := Lookups(vol, src, block, level, 0, d * r), Lookups(vol, src, block, level, d * r, r);
      assert Lookups(vol, src, block, level, 0, n * r) == front + more;
      PresentConcat(front, more);
      var ptr := Pointer(ReadBlock(vol, src, block), d);
      forall i | 0 <= i < r ensures more[i] == InSlot(vol, src, ptr, level, i) {
        LookupInChild(vol, src, block, level, d, i);
      }
      SlotIsPresent(vol, src, ptr, level, more);
    }
  }

  lemma {:induction false} SlotIsPresent(vol: ExtVolume, src: seq<byte>, ptr: nat, level: nat, more: seq<Option<nat>>)
    requires level >= 1 && vol.blockSize >= 4 && |more| == Reach(vol, level - 1)
    requires forall i :: 0 <= i < |more| ==> more[i] == InSlot(vol, src, ptr, level, i)
    ensures Present(more) == if level == 1 then [ptr] else Leaves(vol, src, ptr, level - 1)
    decreases level, 0, 0
  {
    hide Lookup, ReadBlock, Leaves;
    if level == 1 {
      assert more == [Some(ptr)] && more[..0] == [];
    } else {
      assert more == Lookups(vol, src, ptr, level - 1, 0, |more|);
      LeavesArePresent(vol, src, ptr, level - 1);
    }
  }

  /** Recursive flattening below an interior pointer agrees with index arithmetic. */
  lemma {:induction false} LeavesArePresent(vol: ExtVolume, src: seq<byte>, block: nat, level: nat)
    requires level >= 1 && vol.blockSize >= 4
    ensures Leaves(vol, src, block, level) == Present(Lookups(vol, src, block, level, 0, Reach(vol, level)))
    decreases level, 1, 0
  {
    hide ReadBlock, Present;
    var r, full := Reach(vol, level - 1), Reach(vol, level);
    ReachIsPositive(vol, level - 1);
    var all := Lookups(vol, src, block, level, 0, full);
    if block == 0 {
      PresentNone(all);
    } else {
      var count := |ReadBlock(vol, src, block)| / 4;
      BlockIsAtMostFull(vol, src, block);
      Monotone(count, PerBlock(vol), r);
      SlotsArePresent(vol, src, block, level, count);
      SplitAtCount(vol, src, block, level, count, count * r, full);
    }
  }

  lemma SplitAtCount(vol: ExtVolume, src: seq<byte>, block: nat, level: nat, count: nat, filled: nat, full: nat)
    requires level >= 1 && vol.blockSize >= 4 && block != 0 && count == |ReadBlock(vol, src, block)| / 4
    requires filled == count * Reach(vol, level - 1) && filled <= full
    ensures Present(Lookups(vol, src, block, level, 0, full)) == Present(Lookups(vol, src, block, level, 0, filled))
  {
    hide ReadBlock, Present, Reach;
    ReachIsPositive(vol, level - 1);
    var front, rest := Lookups(vol, src, block, level, 0, filled),
      Lookups(vol, src, block, level, filled, full - filled);
    forall i | 0 <= i < |rest| ensures rest[i] == None { BehindTheSlots(count, filled + i, Reach(vol, level - 1)); }
    PresentNone(rest);
    PresentConcat(front, rest);
    assert Lookups(vol, src, block, level, 0, full) == front + rest;
  }

  lemma BlockIsAtMostFull(vol: ExtVolume, src: seq<byte>, block: nat)
    ensures |ReadBlock(vol, src, block)| / 4 <= PerBlock(vol)
  {
  }

  lemma BehindTheSlots(count: nat, k: nat, r: nat)
    requires r > 0 && count * r <= k
    ensures k / r >= count
  {
    var q := k / r;
    assert q * r <= k < q * r + r;
    Monotone(q + 1, count, r);
  }

  // --- the whole file ---

  function Direct(iBlock: seq<byte>): (r: seq<nat>)
    requires |iBlock| == 60
    ensures |r| == 12 && forall i :: 0 <= i < 12 ==> r[i] == Pointer(iBlock, i)
  {
    seq(12, i requires 0 <= i < 12 => U32Le(iBlock, 4 * i))
  }

  function AllPointers(vol: ExtVolume, src: seq<byte>, iBlock: seq<byte>): (r: seq<nat>)
    requires |iBlock| == 60
    ensures Direct(iBlock) <= r
  {
    Direct(iBlock) + Leaves(vol, src, Pointer(iBlock, 12), 1) + Leaves(vol, src, Pointer(iBlock, 13), 2)
      + Leaves(vol, src, Pointer(iBlock, 14), 3)
  }

  /** The walk over all four tiers meets the pointers that index arithmetic finds, in logical order. */
  lemma AllPointersArePresent(vol: ExtVolume, src: seq<byte>, iBlock: seq<byte>)
    requires |iBlock| == 60 && vol.blockSize >= 4
    ensures AllPointers(vol, src, iBlock) == Present(Entries(vol, src, iBlock, Capacity(vol)))
  {
    hide Lookup, Reach, ReadBlock, Leaves, Present, Pointer;
    var p1, p2, p3 := Reach(vol, 1), Reach(vol, 2), Reach(vol, 3);
    var direct := seq(12, i requires 0 <= i < 12 => Some(Direct(iBlock)[i]));
    var t1 := Lookups(vol, src, Pointer(iBlock, 12), 1, 0, p1);
    var t2 := Lookups(vol, src, Pointer(iBlock, 13), 2, 0, p2);
    var t3 := Lookups(vol, src, Pointer(iBlock, 14), 3, 0, p3);
    var entries, tiers := Entries(vol, src, iBlock, Capacity(vol)), direct + t1 + t2 + t3;
    forall k | 0 <= k < Capacity(vol) ensures entries[k] == tiers[k] {
      assert entries[k] == Entry(vol, src, iBlock, k);
      if k < 12 {
        assert tiers[k] == direct[k] == Some(Direct(iBlock)[k]);
      } else if k < 12 + p1 {
        assert tiers[k] == t1[k - 12] == Lookup(vol, src, Pointer(iBlock, 12), 1, k - 12);
      } else if k < 12 + p1 + p2 {
        assert tiers[k] == t2[k - 12 - p1] == Lookup(vol, src, Pointer(iBlock, 13), 2, k - 12 - p1);
      } else {
        assert tiers[k] == t3[k - 12 - p1 - p2] == Lookup(vol, src, Pointer(iBlock, 14), 3, k - 12 - p1 - p2);
      }
    }
    assert entries == tiers;
    PresentConcat(direct + t1 + t2, t3);
    PresentConcat(direct + t1, t2);
    PresentConcat(direct, t1);
    PresentAll(direct);
    assert Present(direct) == Direct(iBlock);
    LeavesArePresent(vol, src, Pointer(iBlock, 12), 1);
    LeavesArePresent(vol, src, Pointer(iBlock, 13), 2);
    LeavesArePresent(vol, src, Pointer(iBlock, 14), 3);
  }

  function Take(s: seq<nat>, n: nat): seq<nat> { if |s| <= n then s else s[..n] }

  lemma TakeAppend(s: seq<nat>, t: seq<nat>, n: nat)
    ensures Take(Take(s, n) + t, n) == Take(s + t, n)
  {
  }

  lemma {:induction false} MoreSlots(vol: ExtVolume, src: seq<byte>, block: nat, level: nat, i: nat, n: nat)
    requires level >= 1 && i <= n <= |ReadBlock(vol, src, block)| / 4
    ensures LeavesUpTo(vol, src, block, level, i) <= LeavesUpTo(vol, src, block, level, n)
    decreases n
  {
    hide ReadBlock, Leaves;
    if i < n { MoreSlots(vol, src, block, level, i, n - 1); }
  }

  /** `read_indirect`: push the leaves below `block` until `numBlocks` entries are there. */
  method ReadIndirect(vol: ExtVolume, src: seq<byte>, block: nat, level: nat, numBlocks: nat, out0: seq<nat>)
    returns (out: seq<nat>)
    requires level >= 1 && |out0| <= numBlocks
    ensures out == Take(out0 + Leaves(vol, src, block, level), numBlocks)
    decreases level
  {
    hide ReadBlock, Take;
    out := out0;
    TakeAll(out0, Leaves(vol, src, block, level), numBlocks);
    if block == 0 || |out| >= numBlocks {
      return;
    }
    var data := ReadBlock(vol, src, block);
    var count := |data| / 4;
    for i := 0 to count
      invariant out == Take(out0 + LeavesUpTo(vol, src, block, level, i), numBlocks) && |out| <= numBlocks
    {
      ghost var before := out0 + LeavesUpTo(vol, src, block, level, i);
      if |out| >= numBlocks {
        MoreSlots(vol, src, block, level, i, count);
        TakePrefix(before, out0 + LeavesUpTo(vol, src, block, level, count), numBlocks);
        return;
      }
      var ptr := Pointer(data, i);
      ghost var more := if level == 1 then [ptr] else Leaves(vol, src, ptr, level - 1);
      TakeAppend(before, more, numBlocks);
      assert before + more == out0 + LeavesUpTo(vol, src, block, level, i + 1);
      if level == 1 {
        TakeAll(out, [ptr], numBlocks);
        out := out + [ptr];
      } else {
        out := ReadIndirect(vol, src, ptr, level - 1, numBlocks, out);
        TakeIsShort(before + more, numBlocks);
      }
    }
  }

  lemma TakeAll(s: seq<nat>, t: seq<nat>, n: nat)
    requires |s| <= n
    ensures Take(s, n) == s && Take(s + [], n) == s && (|s| == n ==> Take(s + t, n) == s)
    ensures |s + t| <= n ==> Take(s + t, n) == s + t
  {
    assert s + [] == s;
  }

  lemma TakePrefix(s: seq<nat>, t: seq<nat>, n: nat)
    requires s <= t && |Take(s, n)| >= n
    ensures Take(s, n) == Take(t, n)
  {
  }

  /** `map_indirect`: the first `numBlocks` pointers that index arithmetic finds, in logical order. */
  method MapIndirect(vol: ExtVolume, src: seq<byte>, iBlock: seq<byte>, numBlocks: nat) returns (out: seq<nat>)
    requires |iBlock| == 60 && vol.blockSize >= 4
    ensures out == Take(Present(Entries(vol, src, iBlock, Capacity(vol))), numBlocks)
  {
    hide Leaves, Take, Pointer, AllPointers;
    out := [];
    ghost var direct := Direct(iBlock);
    AllPointersArePresent(vol, src, iBlock);
    for i := 0 to 12
      invariant out == direct[..i] && |out| <= numBlocks
    {
      if |out| >= numBlocks {
        TakeAll(out, [], numBlocks);
        TakePrefix(out, AllPointers(vol, src, iBlock), numBlocks);
        return;
      }
      out := out + [Pointer(iBlock, i)];
    }
    assert direct[..12] == direct;
    var single, double, triple := Pointer(iBlock, 12), Pointer(iBlock, 13), Pointer(iBlock, 14);
    out := ReadIndirect(vol, src, single, 1, numBlocks, out);
    TakeIsShort(direct + Leaves(vol, src, single, 1), numBlocks);
    out := ReadIndirect(vol, src, double, 2, numBlocks, out);
    TakeAppend(direct + Leaves(vol, src, single, 1), Leaves(vol, src, double, 2), numBlocks);
    TakeIsShort(direct + Leaves(vol, src, single, 1) + Leaves(vol, src, double, 2), numBlocks);
    out := ReadIndirect(vol, src, triple, 3, numBlocks, out);
    TakeAppend(direct + Leaves(vol, src, single, 1) + Leaves(vol, src, double, 2), Leaves(vol, src, triple, 3),
               numBlocks);
    WholeWalk(vol, src, iBlock);
  }

  lemma TakeIsShort(s: seq<nat>, n: nat)
    ensures |Take(s, n)| <= n
  {
  }

  lemma WholeWalk(vol: ExtVolume, src: seq<byte>, iBlock: seq<byte>)
    requires |iBlock| == 60
    ensures AllPointers(vol, src, iBlock)
         == Direct(iBlock) + Leaves(vol, src, Pointer(iBlock, 12), 1) + Leaves(vol, src, Pointer(iBlock, 13), 2)
            + Leaves(vol, src, Pointer(iBlock, 14), 3)
  {
    hide Leaves;
  }

  // --- when slot k of the map is block k of the file ---

  /** The logical block behind each slot that the walk fills. */
  function Slots(s: seq<Option<nat>>): (r: seq<nat>)
    ensures |r| == |Present(s)|
  {
    if s == [] then [] else Slots(s[..|s| - 1]) + (if s[|s| - 1].Some? then [|s| - 1] else [])
  }

  lemma {:induction false} SlotsHoldTheirBlocks(s: seq<Option<nat>>, j: nat)
    requires j < |Slots(s)|
    ensures Slots(s)[j] < |s| && s[Slots(s)[j]] == Some(Present(s)[j]) && Slots(s)[j] >= j
    ensures j > 0 ==> Slots(s)[j - 1] < Slots(s)[j]
  {
    var front := s[..|s| - 1];
    if j < |Slots(front)| {
      SlotsHoldTheirBlocks(front, j);
    } else if j > 0 {
      SlotsHoldTheirBlocks(front, j - 1);
    }
    if |Slots(front)| > 0 { SlotsBounded(front); }
  }

  lemma {:induction false} SlotsBounded(s: seq<Option<nat>>)
    ensures |Slots(s)| <= |s|
  {
    if s != [] { SlotsBounded(s[..|s| - 1]); }
  }

  /** The pointer of logical block `k`, 0 for a hole: what slot `k` of a map should hold. */
  function Want(s: seq<Option<nat>>, k: nat): nat { if k < |s| && s[k].Some? then s[k].value else 0 }

  /** The first `n` blocks have their pointers, none of them missing. */
  predicate NoneMissing(s: seq<Option<nat>>, n: nat) { n <= |s| && forall k :: 0 <= k < n ==> s[k].Some? }

  /** `f` is the first missing block, and from there on both the file and the map hold nothing but zeros. */
  predicate ZeroBehind(s: seq<Option<nat>>, m: seq<nat>, f: nat, n: nat) {
    && f < n == |m| && NoneMissing(s, f) && (f < |s| ==> s[f] == None)
    && forall k :: f <= k < n ==> Want(s, k) == 0 && m[k] == 0
  }

  ghost predicate InStep(s: seq<Option<nat>>, m: seq<nat>, n: nat) {
    |m| == n && forall k :: 0 <= k < n ==> m[k] == Want(s, k)
  }

  /** Up to the first missing block, slot and block agree. */
  lemma {:induction false} FullBefore(s: seq<Option<nat>>, f: nat)
    requires NoneMissing(s, f)
    ensures |Present(s)| >= f && forall k :: 0 <= k < f ==> Present(s)[k] == Want(s, k)
  {
    hide Slots, Present;
    FullPrefix(s, f);
  }

  /** Behind a missing block, an agreement passes from slot to block to slot: all are zero. */
  lemma {:induction false} ZerosPropagate(s: seq<Option<nat>>, m: seq<nat>, f: nat, n: nat, k: nat)
    requires m == Take(Present(s), n) && InStep(s, m, n) && NoneMissing(s, f) && (f < |s| ==> s[f] == None)
             && f <= k < n
    ensures Want(s, k) == 0
    decreases k
  {
    hide Slots, Present;
    if k < |s| && s[k].Some? {
      var j := SlotOf(s, k);
      FullSlots(s, f);
      if k > f { SlotBehind(s, f, k, j); }
      ZerosPropagate(s, m, f, n, j);
    }
  }

  lemma FullSlots(s: seq<Option<nat>>, f: nat)
    requires NoneMissing(s, f)
    ensures |Slots(s)| >= f && forall k :: 0 <= k < f ==> Slots(s)[k] == k
  {
    hide Slots, Present;
    FullPrefix(s, f);
  }

  /** Every present block has a slot. */
  lemma {:induction false} SlotOf(s: seq<Option<nat>>, k: nat) returns (j: nat)
    requires k < |s| && s[k].Some?
    ensures j < |Slots(s)| && Slots(s)[j] == k && Present(s)[j] == s[k].value && j <= k
  {
    var front := s[..|s| - 1];
    if k == |s| - 1 {
      j := |Slots(front)|;
      SlotsBounded(front);
    } else {
      j := SlotOf(front, k);
    }
  }

  /** A slot of a block behind a missing one lies before the block. */
  lemma {:induction false} SlotBehind(s: seq<Option<nat>>, f: nat, k: nat, j: nat)
    requires f < k < |s| && s[f] == None && j < |Slots(s)| && Slots(s)[j] == k
    ensures j < k
  {
    var front := s[..|s| - 1];
    if k < |s| - 1 {
      SlotsInOrder(s, j);
      if j < |Slots(front)| { SlotBehind(front, f, k, j); }
    } else {
      if j < |Slots(front)| { SlotsHoldTheirBlocks(front, j); }
      MissingShortens(front, f);
    }
  }

  lemma {:induction false} MissingShortens(s: seq<Option<nat>>, f: nat)
    requires f < |s| && s[f] == None
    ensures |Slots(s)| < |s|
  {
    if f < |s| - 1 { MissingShortens(s[..|s| - 1], f); } else { SlotsBounded(s[..|s| - 1]); }
  }

  lemma {:induction false} SlotsInOrder(s: seq<Option<nat>>, j: nat)
    requires j < |Slots(s)|
    ensures Slots(s)[j] < |s| && (j == |Slots(s[..|s| - 1])| ==> Slots(s)[j] == |s| - 1)
  {
    SlotsHoldTheirBlocks(s, j);
  }

  lemma FirstMissing(s: seq<Option<nat>>, n: nat) returns (f: nat)
    requires !NoneMissing(s, n)
    ensures f < n && NoneMissing(s, f) && (f < |s| ==> s[f] == None)
  {
    f := 0;
    while f < |s| && s[f].Some?
      invariant NoneMissing(s, f) && f < n
    {
      f := f + 1;
    }
  }

  lemma InStepOrZero(s: seq<Option<nat>>, n: nat)
    ensures var m := Take(Present(s), n);
            InStep(s, m, n) <==> NoneMissing(s, n) || exists f: nat :: ZeroBehind(s, m, f, n)
  {
    hide Present;
    var m := Take(Present(s), n);
    if NoneMissing(s, n) {
      FullBefore(s, n);
    } else {
      var f := FirstMissing(s, n);
      FullBefore(s, f);
      if InStep(s, m, n) {
        forall k: nat | f <= k < n ensures Want(s, k) == 0 && m[k] == 0 { ZerosPropagate(s, m, f, n, k); }
        assert ZeroBehind(s, m, f, n);
      }
      forall g: nat | ZeroBehind(s, m, g, n) ensures InStep(s, m, n) {
        FullBefore(s, g);
      }
    }
  }

  function PointerOrHole(vol: ExtVolume, src: seq<byte>, iBlock: seq<byte>, k: nat): nat
    requires |iBlock| == 60 && vol.blockSize >= 4
  {
    match Entry(vol, src, iBlock, k) case None => 0 case Some(ptr) => ptr
  }

  lemma BehindCapacity(vol: ExtVolume, src: seq<byte>, iBlock: seq<byte>, k: nat)
    requires |iBlock| == 60 && vol.blockSize >= 4
    ensures k >= Capacity(vol) ==> Entry(vol, src, iBlock, k) == None
  {
    hide Reach, Lookup;
  }

  /** Block `f` is the first that misses an interior pointer, and from there on file and map hold nothing but holes. */
  ghost predicate HolesFrom(vol: ExtVolume, src: seq<byte>, iBlock: seq<byte>, map_: seq<nat>, f: nat, n: nat)
    requires |iBlock| == 60 && vol.blockSize >= 4
  {
    && f < n == |map_| && Entry(vol, src, iBlock, f) == None
    && (forall k :: 0 <= k < f ==> Entry(vol, src, iBlock, k).Some?)
    && forall k :: f <= k < n ==> PointerOrHole(vol, src, iBlock, k) == 0 == map_[k]
  }

  lemma HolesAreZeros(vol: ExtVolume, src: seq<byte>, iBlock: seq<byte>, map_: seq<nat>, f: nat, n: nat)
    requires |iBlock| == 60 && vol.blockSize >= 4
    ensures HolesFrom(vol, src, iBlock, map_, f, n)
        <==> ZeroBehind(Entries(vol, src, iBlock, Capacity(vol)), map_, f, n)
  {
    hide Entry, Capacity, Want, PointerOrHole, Entries;
    EntriesMean(vol, src, iBlock);
    var entries := Entries(vol, src, iBlock, Capacity(vol));
    assert f > 0 && Entry(vol, src, iBlock, f - 1).Some? ==> f <= |entries|;
    assert NoneMissing(entries, f) <==> forall k :: 0 <= k < f ==> Entry(vol, src, iBlock, k).Some?;
  }

  lemma EntriesMean(vol: ExtVolume, src: seq<byte>, iBlock: seq<byte>)
    requires |iBlock| == 60 && vol.blockSize >= 4
    ensures var entries := Entries(vol, src, iBlock, Capacity(vol));
            forall k: nat ::
              && Want(entries, k) == PointerOrHole(vol, src, iBlock, k)
              && (Entry(vol, src, iBlock, k).Some? <==> k < |entries| && entries[k].Some?)
  {
    hide Entry, Capacity;
    var entries := Entries(vol, src, iBlock, Capacity(vol));
    forall k: nat
      ensures Want(entries, k) == PointerOrHole(vol, src, iBlock, k)
      ensures Entry(vol, src, iBlock, k).Some? <==> k < |entries| && entries[k].Some?
    {
      BehindCapacity(vol, src, iBlock, k);
    }
  }

  /**
   * The map that is returned holds in slot k the pointer of logical block k, 0 for a hole, for every k below n, exactly
   * when no interior pointer those blocks need is zero or cut off, or the file and the map are nothing but holes behind
   * the first block that misses one. A zero interior pointer is a hole of many blocks that the walk skips without
   * emitting, so that everything behind it moves forward.
   */
  lemma InStepIff(vol: ExtVolume, src: seq<byte>, iBlock: seq<byte>, n: nat)
    requires |iBlock| == 60 && vol.blockSize >= 4
    ensures var map_ := Take(Present(Entries(vol, src, iBlock, Capacity(vol))), n);
            (|map_| == n && forall k :: 0 <= k < n ==> map_[k] == PointerOrHole(vol, src, iBlock, k))
            <==>
            || (forall k :: 0 <= k < n ==> Entry(vol, src, iBlock, k).Some?)
            || exists f: nat :: HolesFrom(vol, src, iBlock, map_, f, n)
  {
    hide Entry, Present, Capacity, Want, PointerOrHole, HolesFrom, ZeroBehind;
    var entries := Entries(vol, src, iBlock, Capacity(vol));
    var map_ := Take(Present(entries), n);
    InStepOrZero(entries, n);
    EntriesMean(vol, src, iBlock);
    forall f: nat ensures HolesFrom(vol, src, iBlock, map_, f, n) <==> ZeroBehind(entries, map_, f, n) {
      HolesAreZeros(vol, src, iBlock, map_, f, n);
    }
    if n > 0 && forall k :: 0 <= k < n ==> Entry(vol, src, iBlock, k).Some? {
      assert Entry(vol, src, iBlock, n - 1).Some?;
    }
    assert NoneMissing(entries, n) <==> forall k :: 0 <= k < n ==> Entry(vol, src, iBlock, k).Some?;
  }

  lemma {:induction false} FullPrefix(s: seq<Option<nat>>, n: nat)
    requires n <= |s| && forall k :: 0 <= k < n ==> s[k].Some?
    ensures |Slots(s)| >= n && forall k :: 0 <= k < n ==> Slots(s)[k] == k && Some(Present(s)[k]) == s[k]
  {
    if s != [] && n > 0 {
      var front := s[..|s| - 1];
      assert forall k :: 0 <= k < |front| ==> front[k] == s[k];
      if n < |s| {
        FullPrefix(front, n);
      } else {
        FullPrefix(front, n - 1);
        SlotsBounded(front);
      }
    }
  }

  // --- a sparse file that is mapped out of step ---

  const SPARSE_VOLUME: ExtVolume := ExtVolume(0, 1024, 300, [], 8192, 1)

  /** Block 1 points at block 2, block 2 at block 7, which starts with the byte AB. */
  function SparseSource(): (s: seq<byte>)
    ensures |s| == 276480
  {
    seq(276480, i => if i == 1024 then 2 else if i == 2048 then 7 else if i == 7168 then 0xAB else 0)
  }

  /** No direct blocks, no single indirect block, a double indirect block at 1. */
  function SparseInode(): (s: seq<byte>)
    ensures |s| == 60
  {
    seq(60, i => if i == 52 then 1 else 0)
  }

  lemma SparseReach()
    ensures Reach(SPARSE_VOLUME, 0) == 1 && Reach(SPARSE_VOLUME, 1) == 256 && Reach(SPARSE_VOLUME, 2) == 65536
    ensures Reach(SPARSE_VOLUME, 3) > 0
  {
    ReachIsPositive(SPARSE_VOLUME, 3);
    assert Reach(SPARSE_VOLUME, 0) == 1;
  }

  lemma SparseLookup()
    ensures Lookup(SPARSE_VOLUME, SparseSource(), 1, 2, 0) == Some(7)
  {
    hide Reach;
    SparseReach();
    var src := SparseSource();
    var b1, b2 := ReadBlock(SPARSE_VOLUME, src, 1), ReadBlock(SPARSE_VOLUME, src, 2);
    assert |b1| == 1024 && b1[0] == src[1024] && b1[1] == src[1025] && b1[2] == src[1026] && b1[3] == src[1027];
    assert |b2| == 1024 && b2[0] == src[2048] && b2[1] == src[2049] && b2[2] == src[2050] && b2[3] == src[2051];
    assert Pointer(b1, 0) == 2 && Pointer(b2, 0) == 7;
    assert Lookup(SPARSE_VOLUME, src, 2, 1, 0) == Some(7);
  }

  /** Logical block 12 of this file is a hole, yet slot 12 of its map holds the pointer of logical block 268. */
  lemma ZeroIndirectPointerShiftsTheMap()
    ensures var entries := Entries(SPARSE_VOLUME, SparseSource(), SparseInode(), Capacity(SPARSE_VOLUME));
            && Entry(SPARSE_VOLUME, SparseSource(), SparseInode(), 12) == None
            && Entry(SPARSE_VOLUME, SparseSource(), SparseInode(), 268) == Some(7)
            && |Present(entries)| > 12 && Present(entries)[12] == 7 && forall k :: 0 <= k < 12 ==>
              Present(entries)[k] == 0
  {
    hide Reach, Lookup, Present;
    SparseReach();
    SparseLookup();
    var vol, src, inode := SPARSE_VOLUME, SparseSource(), SparseInode();
    assert Pointer(inode, 12) == 0 && Pointer(inode, 13) == 1;
    forall k | 12 <= k < 268 ensures Entry(vol, src, inode, k) == None { NothingBelowZero(vol, src, 1, k - 12); }
    var entries := Entries(vol, src, inode, Capacity(vol));
    var direct, hole, next, rest := entries[..12], entries[12..268], entries[268..269], entries[269..];
    assert entries == direct + hole + next + rest;
    PresentConcat(direct + hole + next, rest);
    PresentConcat(direct + hole, next);
    PresentConcat(direct, hole);
    PresentAll(direct);
    PresentNone(hole);
    PresentAll(next);
    assert forall k :: 0 <= k < 12 ==> entries[k] == Some(Pointer(inode, k)) && Pointer(inode, k) == 0;
  }

  lemma NothingBelowZero(vol: ExtVolume, src: seq<byte>, level: nat, k: nat)
    requires level >= 1 && vol.blockSize >= 4
    ensures Lookup(vol, src, 0, level, k) == None
  {
  }
}
