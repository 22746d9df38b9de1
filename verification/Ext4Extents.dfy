/** Extent trees of ext4: collecting them, mapping logical to physical blocks, and reading a file through the map. */
module Ext4Extents {
  import opened Bytes
  import opened FreeRuns

  const EXTENT_MAGIC: nat := 0xF30A
  const MAX_EXTENT_DEPTH: nat := 6

  datatype Leaf = Leaf(logical: nat, phys: nat, len: nat)

  // --- the tree ---

  predicate IsNode(node: seq<byte>) { |node| >= 12 && U16Le(node, 0) == EXTENT_MAGIC }

  /** Entry `i` is inside the node. */
  predicate HasEntry(node: seq<byte>, i: nat) { 12 + i * 12 + 12 <= |node| }

  /** A length above 32768 marks an unwritten extent of the rest. */
  function LeafAt(node: seq<byte>, i: nat): Leaf
    requires HasEntry(node, i)
  {
    var e := 12 + i * 12;
    var rawLen := U16Le(node, e + 4);
    Leaf(U32Le(node, e), 0x1_0000_0000 * U16Le(node, e + 6) + U32Le(node, e + 8),
         if rawLen > 32768 then rawLen - 32768 else rawLen)
  }

  function ChildAt(node: seq<byte>, i: nat): nat
    requires HasEntry(node, i)
  {
    var e := 12 + i * 12;
    0x1_0000_0000 * U16Le(node, e + 8) + U32Le(node, e + 4)
  }

  /**
   * The leaf extents below a node in the order of the walk; a node past the depth guard, or without magic, has none.
   */
  function LeavesOf(vol: ExtVolume, src: seq<byte>, node: seq<byte>, depth: nat): seq<Leaf>
    decreases MAX_EXTENT_DEPTH + 1 - depth, 0x1_0000
  {
    if !IsNode(node) || depth > MAX_EXTENT_DEPTH then [] else LeavesUpTo(vol, src, node, depth, U16Le(node, 2))
  }

  /** Those below the first `n` entries. */
  function LeavesUpTo(vol: ExtVolume, src: seq<byte>, node: seq<byte>, depth: nat, n: nat): seq<Leaf>
    requires IsNode(node) && depth <= MAX_EXTENT_DEPTH && n < 0x1_0000
    decreases MAX_EXTENT_DEPTH + 1 - depth, n
  {
    if n == 0 then []
    else if !HasEntry(node, n - 1) then LeavesUpTo(vol, src, node, depth, n - 1)
    else LeavesUpTo(vol, src, node, depth, n - 1) + EntryLeaves(vol, src, node, depth, n - 1)
  }

  function EntryLeaves(vol: ExtVolume, src: seq<byte>, node: seq<byte>, depth: nat, i: nat): seq<Leaf>
    requires IsNode(node) && depth <= MAX_EXTENT_DEPTH && HasEntry(node, i)
    decreases MAX_EXTENT_DEPTH + 1 - depth, 0
  {
    if U16Le(node, 6) == 0 then [LeafAt(node, i)]
    else LeavesOf(vol, src, ReadBlock(vol, src, ChildAt(node, i)), depth + 1)
  }

  /** `BTreeMap::insert`, leaf after leaf: a later extent with the same start replaces the earlier one. */
  function InsertAll(m: map<nat, (nat, nat)>, leaves: seq<Leaf>): map<nat, (nat, nat)> {
    if leaves == [] then m
    else
      var last := leaves[|leaves| - 1];
      InsertAll(m, leaves[..|leaves| - 1])[last.logical := (last.phys, last.len)]
  }

  lemma {:induction false} InsertConcat(m: map<nat, (nat, nat)>, a: seq<Leaf>, b: seq<Leaf>)
    ensures InsertAll(m, a + b) == InsertAll(InsertAll(m, a), b)
  {
    if b == [] {
      assert a + b == a;
    } else {
      assert (a + b)[..|a + b| - 1] == a + b[..|b| - 1];
      InsertConcat(m, a, b[..|b| - 1]);
    }
  }

  /** Past the first missing entry there are none. */
  lemma {:induction false} NoEntriesLeft(vol: ExtVolume, src: seq<byte>, node: seq<byte>, depth: nat, i: nat, n: nat)
    requires IsNode(node) && depth <= MAX_EXTENT_DEPTH && i <= n < 0x1_0000 && !HasEntry(node, i)
    ensures LeavesUpTo(vol, src, node, depth, n) == LeavesUpTo(vol, src, node, depth, i)
    decreases n
  {
    if i < n { NoEntriesLeft(vol, src, node, depth, i, n - 1); }
  }

  /** `collect_extents`: recursive, on trees that may be cyclic; the depth guard ends it. */
  method CollectExtents(vol: ExtVolume, src: seq<byte>, node: seq<byte>, m0: map<nat, (nat, nat)>, depth: nat)
    returns (m: map<nat, (nat, nat)>)
    ensures m == InsertAll(m0, LeavesOf(vol, src, node, depth))
    decreases MAX_EXTENT_DEPTH + 1 - depth
  {
    m := m0;
    if |node| < 12 || depth > MAX_EXTENT_DEPTH || U16Le(node, 0) != EXTENT_MAGIC {
      return;
    }
    var entries := U16Le(node, 2);
    for i := 0 to entries
      invariant m == InsertAll(m0, LeavesUpTo(vol, src, node, depth, i))
    {
      if !HasEntry(node, i) {
        NoEntriesLeft(vol, src, node, depth, i, entries);
        return;
      }
      InsertConcat(m0, LeavesUpTo(vol, src, node, depth, i), EntryLeaves(vol, src, node, depth, i));
      if U16Le(node, 6) == 0 {
        var leaf := LeafAt(node, i);
        assert [leaf][..0] == [];
        m := m[leaf.logical := (leaf.phys, leaf.len)];
      } else {
        m := CollectExtents(vol, src, ReadBlock(vol, src, ChildAt(node, i)), m, depth + 1);
      }
    }
  }

  // --- the map ---

  /** The extent that starts at `s` reaches logical block `l`. */
  predicate Reaches(m: map<nat, (nat, nat)>, s: nat, l: nat) { s in m && s <= l < s + m[s].1 }

  /**
   * `v` is what the extents starting in `starts` make of block `l`: the one with the greatest start decides, 0 is a
   * hole.
   */
  ghost predicate Translates(m: map<nat, (nat, nat)>, starts: set<nat>, l: nat, v: nat) {
    if exists s :: s in starts && Reaches(m, s, l) then
      exists s :: s in starts && Reaches(m, s, l) && v == m[s].0 + (l - s)
                  && forall s' :: s' in starts && Reaches(m, s', l) ==> s' <= s
    else v == 0
  }

  lemma TranslationIsUnique(m: map<nat, (nat, nat)>, starts: set<nat>, l: nat, v: nat, w: nat)
    requires Translates(m, starts, l, v) && Translates(m, starts, l, w)
    ensures v == w
  {
  }

  /** The survivor of a start is the last leaf that has it. */
  lemma {:induction false} SurvivorIsLast(leaves: seq<Leaf>, s: nat)
    ensures s in InsertAll(map[], leaves) <==> exists i :: 0 <= i < |leaves| && leaves[i].logical == s
    ensures forall i :: 0 <= i < |leaves| && leaves[i].logical == s
                        && (forall j :: i < j < |leaves| ==> leaves[j].logical != s) ==>
                          s in InsertAll(map[], leaves)
                          && InsertAll(map[], leaves)[s] == (leaves[i].phys, leaves[i].len)
  {
    if leaves != [] {
      var front := leaves[..|leaves| - 1];
      SurvivorIsLast(front, s);
      assert forall i :: 0 <= i < |front| ==> front[i] == leaves[i];
    }
  }

  method MinKey(keys: set<nat>) returns (k: nat)
    requires keys != {}
    ensures k in keys && forall j :: j in keys ==> k <= j
  {
    k :| k in keys;
    var rest := keys - {k};
    while rest != {}
      invariant k in keys && rest <= keys && forall j :: j in keys && j !in rest ==> k <= j
      decreases rest
    {
      var j :| j in rest;
      if j < k { k := j; }
      rest := rest - {j};
    }
  }

  /** An extent that starts behind all others decides the blocks it reaches and leaves the rest alone. */
  lemma LaterStartDecides(m: map<nat, (nat, nat)>, starts: set<nat>, s: nat, l: nat, v: nat)
    requires s in m && (forall s' :: s' in starts ==> s' < s) && Translates(m, starts, l, v)
    ensures Translates(m, starts + {s}, l, if Reaches(m, s, l) then m[s].0 + (l - s) else v)
  {
    if Reaches(m, s, l) {
      assert s in starts + {s};
    } else if s' :| s' in starts && Reaches(m, s', l) {
      assert s' in starts + {s};
    }
  }

  /** Write one extent's blocks into the map, as far as the map reaches. */
  method PlaceExtent(out: array<nat>, s: nat, phys: nat, len: nat)
    modifies out
    ensures forall l :: 0 <= l < out.Length ==> out[l] == if s <= l < s + len then phys + (l - s) else old(out[l])
  {
    for k := 0 to len
      invariant forall l :: 0 <= l < out.Length ==> out[l] == if s <= l < s + k then phys + (l - s) else old(out[l])
    {
      var l := s + k;
      if l < out.Length {
        out[l] := phys + k;
      }
    }
  }

  /** The extent arm of `map_blocks`: every logical block translated by the surviving extent with the greatest start. */
  method MapExtents(vol: ExtVolume, src: seq<byte>, root: seq<byte>, numBlocks: nat) returns (blocks: seq<nat>)
    ensures |blocks| == numBlocks
    ensures var m := InsertAll(map[], LeavesOf(vol, src, root, 0));
            forall l :: 0 <= l < numBlocks ==> Translates(m, m.Keys, l, blocks[l])
  {
    hide InsertAll, LeavesOf, Translates, Reaches;
    var m := CollectExtents(vol, src, root, map[], 0);
    var out := new nat[numBlocks](_ => 0);
    var rest := m.Keys;
    ghost var starts: set<nat> := {};
    forall l: nat ensures Translates(m, {}, l, 0) { NoExtents(m, l); }
    while rest != {}
      invariant rest + starts == m.Keys && forall s, s' :: s in starts && s' in rest ==> s < s'
      invariant forall l :: 0 <= l < numBlocks ==> Translates(m, starts, l, out[l])
      decreases rest
    {
      var s := MinKey(rest);
      ghost var before := out[..];
      PlaceExtent(out, s, m[s].0, m[s].1);
      forall l | 0 <= l < numBlocks ensures Translates(m, starts + {s}, l, out[l]) {
        LaterStartDecides(m, starts, s, l, before[l]);
        ReachesMeans(m, s, l);
      }
      rest := rest - {s};
      starts := starts + {s};
    }
    assert starts == m.Keys;
    blocks := out[..];
  }

  lemma NoExtents(m: map<nat, (nat, nat)>, l: nat)
    ensures Translates(m, {}, l, 0)
  {
  }

  lemma ReachesMeans(m: map<nat, (nat, nat)>, s: nat, l: nat)
    requires s in m
    ensures Reaches(m, s, l) <==> s <= l < s + m[s].1
  {
  }
}
