/** Copying a file along its chain in the exFAT allocation table (`copy_chain`, `next_cluster` in src/exfat.rs). */
module ExfatChain {
  import opened Bytes
  import opened Arith
  import opened FreeRuns

  predicate ValidCluster(vol: ExfatVolume, c: nat) { 2 <= c <= vol.clusterCount + 1 }

  function FatEntryOffset(vol: ExfatVolume, c: nat): nat {
    SatAdd(SatAdd(vol.offset, SatMul(vol.fatOffsetSectors, vol.bytesPerSector)), 4 * c)
  }

  /** The cluster behind `c`; none at the end of a chain, and none for a table entry that names no cluster. */
  function NextCluster(vol: ExfatVolume, src: seq<byte>, c: nat): (r: Option<nat>)
    ensures r.Some? ==> ValidCluster(vol, r.value)
  {
    var b := ReadAt(src, FatEntryOffset(vol, c), 4);
    if |b| < 4 then None
    else
      var v := U32Le(b, 0);
      if !ValidCluster(vol, v) || v == 0xFFFF_FFF7 || v == 0xFFFF_FFFF then None else Some(v)
  }

  // --- the chain ---

  function Clusters(n: nat): (r: set<nat>)
    ensures forall c: nat :: c in r <==> 2 <= c <= n + 1
  {
    if n == 0 then {} else Clusters(n - 1) + {n + 1}
  }

  lemma OneLeft(n: nat, guard: set<nat>, c: nat)
    requires 2 <= c <= n + 1 && c !in guard
    ensures |Clusters(n) - (guard + {c})| < |Clusters(n) - guard|
  {
    assert Clusters(n) - guard == (Clusters(n) - (guard + {c})) + {c};
  }

  lemma GuardGrows(vol: ExfatVolume, guard: set<nat>, c: nat)
    requires ValidCluster(vol, c) && c !in guard
    ensures |Clusters(vol.clusterCount) - (guard + {c})| < |Clusters(vol.clusterCount) - guard|
  {
    OneLeft(vol.clusterCount, guard, c);
  }

  /** The clusters met from `c` on, up to the first one seen before. */
  function Chain(vol: ExfatVolume, src: seq<byte>, c: nat, guard: set<nat>): seq<nat>
    decreases |Clusters(vol.clusterCount) - guard|
  {
    if !ValidCluster(vol, c) || c in guard then []
    else
      OneLeft(vol.clusterCount, guard, c);
      [c] + (match NextCluster(vol, src, c) case None => [] case Some(next) => Chain(vol, src, next, guard + {c}))
  }

  /** A chain runs along the table through different clusters of the volume, and stops only where it has to. */
  lemma {:induction false} ChainFollows(vol: ExfatVolume, src: seq<byte>, c: nat, guard: set<nat>)
    ensures var r := Chain(vol, src, c, guard);
            && (r == [] <==> !ValidCluster(vol, c) || c in guard) && (r != [] ==> r[0] == c)
            && (forall i :: 0 <= i < |r| ==> ValidCluster(vol, r[i]) && r[i] !in guard)
            && (forall i, k :: 0 <= i < k < |r| ==> r[i] != r[k])
            && (forall i :: 0 <= i < |r| - 1 ==> NextCluster(vol, src, r[i]) == Some(r[i + 1]))
            && (r != [] ==> var next := NextCluster(vol, src, r[|r| - 1]);
                            next.None? || next.value in guard || next.value in r)
    decreases |Clusters(vol.clusterCount) - guard|
  {
    hide NextCluster, ValidCluster, Clusters;
    if ValidCluster(vol, c) && c !in guard {
      GuardGrows(vol, guard, c);
      var next := NextCluster(vol, src, c);
      if next.Some? {
        ChainFollows(vol, src, next.value, guard + {c});
        var r, rest := Chain(vol, src, c, guard), Chain(vol, src, next.value, guard + {c});
        assert r == [c] + rest;
        assert forall i :: 0 < i < |r| ==> r[i] == rest[i - 1];
        assert rest != [] ==> r[|r| - 1] == rest[|rest| - 1];
      }
    }
  }

  // --- the copy ---

  /** One read: a cluster, or what is still wanted of it. */
  function Piece(vol: ExfatVolume, src: seq<byte>, c: nat, remaining: nat): (data: seq<byte>)
    ensures |data| <= remaining
  {
    ReadAt(src, ClusterOffset(vol, c), Min(remaining, ClusterBytes(vol)))
  }

  /** What is copied for the clusters of a chain: one read each, until the length is reached or a read is empty. */
  function Gathered(vol: ExfatVolume, src: seq<byte>, chain: seq<nat>, remaining: nat): seq<byte> {
    if chain == [] || remaining == 0 then []
    else
      var data := Piece(vol, src, chain[0], remaining);
      if data == [] then [] else data + Gathered(vol, src, chain[1..], remaining - |data|)
  }

  /** What is copied from cluster `c` on. */
  function CopyFrom(vol: ExfatVolume, src: seq<byte>, c: nat, guard: set<nat>, remaining: nat): seq<byte> {
    Gathered(vol, src, Chain(vol, src, c, guard), remaining)
  }

  /** What the chain holds behind `c`. */
  function Behind(vol: ExfatVolume, src: seq<byte>, c: nat, guard: set<nat>): seq<nat> {
    match NextCluster(vol, src, c)
    case None => []
    case Some(next) => Chain(vol, src, next, guard + {c})
  }

  lemma GatheredStep(vol: ExfatVolume, src: seq<byte>, c: nat, rest: seq<nat>, remaining: nat)
    requires remaining > 0
    ensures var data := Piece(vol, src, c, remaining);
            Gathered(vol, src, [c] + rest, remaining)
            == if data == [] then [] else data + Gathered(vol, src, rest, remaining - |data|)
  {
    hide Piece;
    assert ([c] + rest)[1..] == rest;
  }

  lemma CopyStep(vol: ExfatVolume, src: seq<byte>, c: nat, guard: set<nat>, remaining: nat, out: seq<byte>)
    ensures var data := Piece(vol, src, c, remaining);
            if remaining == 0 || !ValidCluster(vol, c) || c in guard || data == [] then
              out + CopyFrom(vol, src, c, guard, remaining) == out
            else match NextCluster(vol, src, c)
              case None => out + CopyFrom(vol, src, c, guard, remaining) == out + data
              case Some(next) =>
                out + CopyFrom(vol, src, c, guard, remaining)
                == (out + data) + CopyFrom(vol, src, next, guard + {c}, remaining - |data|)
  {
    hide Piece, NextCluster;
    var data := Piece(vol, src, c, remaining);
    if remaining == 0 || !ValidCluster(vol, c) || c in guard {
      assert CopyFrom(vol, src, c, guard, remaining) == [];
    } else {
      hide Gathered;
      assert Chain(vol, src, c, guard) == [c] + Behind(vol, src, c, guard);
      hide Chain;
      GatheredStep(vol, src, c, Behind(vol, src, c, guard), remaining);
      if data != [] {
        var rest := Gathered(vol, src, Behind(vol, src, c, guard), remaining - |data|);
        assert out + (data + rest) == (out + data) + rest;
        assert Gathered(vol, src, [], remaining - |data|) == [] by { GatheredNothing(vol, src, remaining - |data|); }
      }
    }
  }

  lemma GatheredNothing(vol: ExfatVolume, src: seq<byte>, remaining: nat)
    ensures Gathered(vol, src, [], remaining) == []
  {
  }

  /** `copy_chain`: the bytes written. Ends on any table, cyclic ones included. */
  method CopyChain(vol: ExfatVolume, src: seq<byte>, first: nat, length: nat) returns (out: seq<byte>)
    ensures out == Gathered(vol, src, Chain(vol, src, first, {}), length)
  {
    hide NextCluster, Piece, CopyFrom, Clusters, ValidCluster;
    out := [];
    var remaining: nat, cluster: nat, guard: set<nat> := length, first, {};
    CopyFromStart(vol, src, first, length);
    ghost var all := CopyFrom(vol, src, first, {}, length);
    hide *;
    while remaining > 0
      invariant out + CopyFrom(vol, src, cluster, guard, remaining) == all
      decreases |Clusters(vol.clusterCount) - guard|
    {
      CopyStep(vol, src, cluster, guard, remaining, out);
      if !ValidCluster(vol, cluster) || cluster in guard {
        return;
      }
      GuardGrows(vol, guard, cluster);
      guard := guard + {cluster};
      var data := Piece(vol, src, cluster, remaining);
      if data == [] {
        return;
      }
      out := out + data;
      remaining := remaining - |data|;
      var next := NextCluster(vol, src, cluster);
      if next.None? {
        return;
      }
      cluster := next.value;
    }
    CopyStep(vol, src, cluster, guard, remaining, out);
  }

  lemma CopyFromStart(vol: ExfatVolume, src: seq<byte>, first: nat, length: nat)
    ensures [] + CopyFrom(vol, src, first, {}, length) == Gathered(vol, src, Chain(vol, src, first, {}), length)
  {
  }

  // --- what the copy means ---

  /** Byte `j` of the file the chain describes: byte `j % size` of cluster `j / size`, if the source has it. */
  function FromChain(vol: ExfatVolume, src: seq<byte>, chain: seq<nat>, j: nat): Option<byte>
    requires ClusterBytes(vol) > 0
  {
    var i, size := j / ClusterBytes(vol), ClusterBytes(vol);
    if i < |chain| && ClusterOffset(vol, chain[i]) + j % size < |src|
      then Some(src[ClusterOffset(vol, chain[i]) + j % size])
    else None
  }

  ghost predicate Agrees(vol: ExfatVolume, src: seq<byte>, chain: seq<nat>, out: seq<byte>)
    requires ClusterBytes(vol) > 0
  {
    forall j :: 0 <= j < |out| ==> FromChain(vol, src, chain, j) == Some(out[j])
  }

  /**
   * The first cluster that has not all the bytes it is read for has some of them, and the next cluster of the chain
   * starts inside the source. That can be told from the chain, the length and the size of the source.
   */
  predicate Misplaces(vol: ExfatVolume, src: seq<byte>, chain: seq<nat>, remaining: nat) {
    && chain != [] && remaining > 0
    && var start, need := ClusterOffset(vol, chain[0]), Min(remaining, ClusterBytes(vol));
       if start >= |src| then false
       else if start + need > |src| then |chain| > 1 && ClusterOffset(vol, chain[1]) < |src|
       else Misplaces(vol, src, chain[1..], remaining - need)
  }

  /** The bytes the source holds of the clusters, up to the first one behind its end. */
  function Held(vol: ExfatVolume, src: seq<byte>, chain: seq<nat>): nat {
    if chain == [] || ClusterOffset(vol, chain[0]) >= |src| then 0
    else Min(ClusterBytes(vol), |src| - ClusterOffset(vol, chain[0])) + Held(vol, src, chain[1..])
  }

  lemma AgreesStep(vol: ExfatVolume, src: seq<byte>, chain: seq<nat>, out: seq<byte>)
    requires ClusterBytes(vol) > 0 && chain != [] && |out| >= ClusterBytes(vol)
    requires ClusterOffset(vol, chain[0]) + ClusterBytes(vol) <= |src|
    requires out[..ClusterBytes(vol)]
             == src[ClusterOffset(vol, chain[0])..ClusterOffset(vol, chain[0]) + ClusterBytes(vol)]
    ensures Agrees(vol, src, chain, out) <==> Agrees(vol, src, chain[1..], out[ClusterBytes(vol)..])
  {
    hide ClusterOffset, ClusterBytes, FromChain;
    var size := ClusterBytes(vol);
    var rest := out[size..];
    forall j | 0 <= j < size ensures FromChain(vol, src, chain, j) == Some(out[j]) {
      FromFirst(vol, src, chain, j);
      assert out[j] == out[..size][j];
    }
    forall j | 0 <= j < |rest| ensures FromChain(vol, src, chain, size + j) == FromChain(vol, src, chain[1..], j) {
      FromLater(vol, src, chain, size + j);
    }
    if Agrees(vol, src, chain, out) {
      forall j | 0 <= j < |rest| ensures FromChain(vol, src, chain[1..], j) == Some(rest[j]) {
        assert FromChain(vol, src, chain, size + j) == Some(out[size + j]);
      }
    }
    if Agrees(vol, src, chain[1..], rest) {
      forall j | 0 <= j < |out| ensures FromChain(vol, src, chain, j) == Some(out[j]) {
        if j >= size { assert FromChain(vol, src, chain[1..], j - size) == Some(rest[j - size]); }
      }
    }
  }

  lemma FromFirst(vol: ExfatVolume, src: seq<byte>, chain: seq<nat>, j: nat)
    requires j < ClusterBytes(vol) && chain != []
    ensures var at := ClusterOffset(vol, chain[0]) + j;
            FromChain(vol, src, chain, j) == if at < |src| then Some(src[at]) else None
  {
    hide ClusterOffset, ClusterBytes;
    InGroup(0, j, ClusterBytes(vol));
  }

  lemma FromLater(vol: ExfatVolume, src: seq<byte>, chain: seq<nat>, j: nat)
    requires 0 < ClusterBytes(vol) <= j && chain != []
    ensures FromChain(vol, src, chain, j) == FromChain(vol, src, chain[1..], j - ClusterBytes(vol))
  {
    hide ClusterOffset, ClusterBytes;
    NextGroup(j, ClusterBytes(vol));
  }

  /**
   * The last cluster that is read for, all of it there or not: what it gives is the file's, and what follows is not.
   */
  lemma LastRead(vol: ExfatVolume, src: seq<byte>, chain: seq<nat>, out: seq<byte>, n: nat)
    requires ClusterBytes(vol) > 0 && chain != [] && n <= |out| && n <= ClusterBytes(vol)
    requires ClusterOffset(vol, chain[0]) + n <= |src|
    requires out[..n] == src[ClusterOffset(vol, chain[0])..ClusterOffset(vol, chain[0]) + n]
    requires |out| == n || (n < ClusterBytes(vol) && ClusterOffset(vol, chain[0]) + n == |src|)
    ensures Agrees(vol, src, chain, out) <==> |out| == n
  {
    hide ClusterOffset, ClusterBytes, FromChain;
    forall j | 0 <= j < n ensures FromChain(vol, src, chain, j) == Some(out[j]) {
      FromFirst(vol, src, chain, j);
      assert out[j] == out[..n][j];
    }
    if n < |out| {
      FromFirst(vol, src, chain, n);
      assert FromChain(vol, src, chain, n) == None;
    }
  }

  /** What one read gives: all of it, a part at the source's end, or nothing behind it. */
  lemma ReadCases(src: seq<byte>, start: nat, need: nat)
    requires need > 0
    ensures start >= |src| <==> ReadAt(src, start, need) == []
    ensures start + need <= |src| ==> ReadAt(src, start, need) == src[start..start + need]
    ensures start < |src| < start + need ==> ReadAt(src, start, need) == src[start..|src|]
  {
  }

  /**
   * The copy is the file that the chain describes, byte for byte, exactly when no cluster that falls short of what it
   * is read for is followed by one that gives anything.
   */
  lemma {:induction false} CopyFollowsChain(vol: ExfatVolume, src: seq<byte>, chain: seq<nat>, length: nat)
    requires ClusterBytes(vol) > 0
    ensures Agrees(vol, src, chain, Gathered(vol, src, chain, length)) <==> !Misplaces(vol, src, chain, length)
    decreases |chain|
  {
    hide ClusterOffset, ClusterBytes, Agrees;
    var out, size := Gathered(vol, src, chain, length), ClusterBytes(vol);
    if chain == [] || length == 0 {
      NothingAgrees(vol, src, chain);
    } else {
      var start, need := ClusterOffset(vol, chain[0]), Min(length, size);
      var data := ReadAt(src, start, need);
      ReadCases(src, start, need);
      var rest := Gathered(vol, src, chain[1..], length - |data|);
      if data == [] {
        NothingAgrees(vol, src, chain);
      } else if |data| == size {
        CopyFollowsChain(vol, src, chain[1..], length - size);
        assert out[..size] == data && out[size..] == rest;
        AgreesStep(vol, src, chain, out);
      } else {
        assert out[..|data|] == data;
        RestIsEmptyIff(vol, src, chain[1..], length - |data|);
        LastRead(vol, src, chain, out, |data|);
        if |data| == need { assert Misplaces(vol, src, chain[1..], 0) == false; }
      }
    }
  }

  lemma NothingAgrees(vol: ExfatVolume, src: seq<byte>, chain: seq<nat>)
    requires ClusterBytes(vol) > 0
    ensures Agrees(vol, src, chain, [])
  {
  }

  lemma RestIsEmptyIff(vol: ExfatVolume, src: seq<byte>, chain: seq<nat>, remaining: nat)
    requires ClusterBytes(vol) > 0
    ensures Gathered(vol, src, chain, remaining) == []
        <==> remaining == 0 || chain == [] || ClusterOffset(vol, chain[0]) >= |src|
  {
    hide ClusterOffset, ClusterBytes;
    if remaining > 0 && chain != [] { ReadCases(src, ClusterOffset(vol, chain[0]), Min(remaining, ClusterBytes(vol))); }
  }

  /** The chain is kept, and no other way to read the file tried, exactly when its clusters hold that many bytes. */
  lemma {:induction false} ChainSufficesIff(vol: ExfatVolume, src: seq<byte>, chain: seq<nat>, length: nat)
    requires ClusterBytes(vol) > 0
    ensures |Gathered(vol, src, chain, length)| == Min(length, Held(vol, src, chain))
    ensures |Gathered(vol, src, chain, length)| >= length <==> length <= Held(vol, src, chain)
    decreases |chain|
  {
    hide ClusterOffset, ClusterBytes;
    if chain != [] && length > 0 {
      var start, need := ClusterOffset(vol, chain[0]), Min(length, ClusterBytes(vol));
      ReadCases(src, start, need);
      ChainSufficesIff(vol, src, chain[1..], length - |ReadAt(src, start, need)|);
    }
  }

  /** On a source that holds every cluster of the chain whole, the copy is always the file's beginning. */
  lemma {:induction false} WholeChainAgrees(vol: ExfatVolume, src: seq<byte>, chain: seq<nat>, length: nat)
    requires ClusterBytes(vol) > 0
    requires forall i :: 0 <= i < |chain| ==> ClusterOffset(vol, chain[i]) + ClusterBytes(vol) <= |src|
    ensures !Misplaces(vol, src, chain, length) && Held(vol, src, chain) == |chain| * ClusterBytes(vol)
  {
    hide ClusterOffset, ClusterBytes;
    if chain != [] {
      WholeChainAgrees(vol, src, chain[1..], Max(0, length - ClusterBytes(vol)));
      OneMore(|chain| - 1, ClusterBytes(vol));
    }
  }

  // --- a truncated source whose copy is kept and wrong ---

  /** Clusters of 512 bytes from byte 12800 on, and a table at byte 12288. */
  const CUT_VOLUME: ExfatVolume := ExfatVolume(0, 512, 1, 25, 2, 24)

  /** Cluster 3 leads to cluster 2, which is the last. Of cluster 3 the source holds 488 bytes. */
  function CutSource(): (s: seq<byte>)
    ensures |s| == 13800
  {
    seq(13800, i => if i == 12300 then 2 else if 12296 <= i < 12300 then 0xFF else if 12800 <= i < 13312 then 7 else 0)
  }

  lemma CutChain()
    ensures Chain(CUT_VOLUME, CutSource(), 3, {}) == [3, 2]
    ensures ClusterBytes(CUT_VOLUME) == 512 && ClusterOffset(CUT_VOLUME, 3) == 13312
            && ClusterOffset(CUT_VOLUME, 2) == 12800
  {
    var src := CutSource();
    assert ReadAt(src, 12300, 4) == src[12300..12304] && ReadAt(src, 12296, 4) == src[12296..12300];
    assert U32Le(src[12300..12304], 0) == 2;
    assert U32Le(src[12296..12300], 0) == 0xFFFF_FFFF;
    assert NextCluster(CUT_VOLUME, src, 3) == Some(2);
    assert NextCluster(CUT_VOLUME, src, 2) == None;
  }

  /**
   * All 1000 bytes asked for are copied and kept, yet byte 488, of which the source holds nothing, is the first byte of
   * the next cluster.
   */
  lemma CutCopyIsKeptAndWrong()
    ensures var out := Gathered(CUT_VOLUME, CutSource(), Chain(CUT_VOLUME, CutSource(), 3, {}), 1000);
            && |out| == 1000 && out[488] == 7
            && FromChain(CUT_VOLUME, CutSource(), [3, 2], 488) == None
            && Misplaces(CUT_VOLUME, CutSource(), [3, 2], 1000)
  {
    CutChain();
    hide ClusterOffset, ClusterBytes, Chain, CutSource;
    var src: seq<byte> := CutSource();
    assert [3, 2][1..] == [2] && [2][1..] == [];
    var first, second := ReadAt(src, 13312, 512), ReadAt(src, 12800, 512);
    ReadCases(src, 13312, 512);
    ReadCases(src, 12800, 512);
    assert Gathered(CUT_VOLUME, src, [2], 512) == second + Gathered(CUT_VOLUME, src, [], 0);
    assert Gathered(CUT_VOLUME, src, [3, 2], 1000) == first + Gathered(CUT_VOLUME, src, [2], 512);
    FromFirst(CUT_VOLUME, src, [3, 2], 488);
    CutByte();
    assert second[0] == src[12800];
  }

  lemma CutByte()
    ensures CutSource()[12800] == 7
  {
  }
}
