/** End of a ZIP archive by its end-of-central-directory record (`zip_length`). */
module Zip {
  import opened Bytes
  import opened Footer

  /** `PK\x05\x06`, section 4.3.16 of PKWARE APPNOTE. */
  const EOCD: seq<byte> := [0x50, 0x4B, 0x05, 0x06]

  /** A marker at `m` whose 22-byte record is readable and whose comment ends by `limit`. */
  predicate FitsAt(src: seq<byte>, limit: nat, m: nat)
    requires limit <= |src|
  {
    OccursAt(src, limit, EOCD, m) && m + 22 <= |src| && RecordEnd(src, m) <= limit
  }

  function RecordEnd(src: seq<byte>, m: nat): nat
    requires m + 22 <= |src|
  {
    m + 22 + U16Le(src, m + 20)
  }

  /** A 32-bit geometry field holding the ZIP64 sentinel. */
  predicate IsZip64(src: seq<byte>, m: nat)
    requires m + 22 <= |src|
  {
    U32Le(src, m + 12) == 0xFFFF_FFFF || U32Le(src, m + 16) == 0xFFFF_FFFF
  }

  /** The record at `m` describes the archive that starts at `fileStart`. */
  predicate Owns(src: seq<byte>, fileStart: nat, limit: nat, m: nat)
    requires limit <= |src|
  {
    FitsAt(src, limit, m) && !IsZip64(src, m) && fileStart + U32Le(src, m + 16) + U32Le(src, m + 12) == m
  }

  predicate Zip64Candidate(src: seq<byte>, limit: nat, m: nat)
    requires limit <= |src|
  {
    FitsAt(src, limit, m) && IsZip64(src, m)
  }

  /** One pass in source order from `p`: the first record that owns the archive, else the last ZIP64 candidate. */
  function ZipEnd(src: seq<byte>, fileStart: nat, limit: nat, p: nat, best: Option<nat>): (r: Option<nat>)
    requires limit <= |src| && fileStart <= p
    requires best.Some? ==> fileStart < best.value <= limit
    ensures r.Some? ==> fileStart < r.value <= limit
    decreases Max(0, limit - p)
  {
    if p >= limit then best
    else if Owns(src, fileStart, limit, p) then Some(RecordEnd(src, p))
    else ZipEnd(src, fileStart, limit, p + 1, if Zip64Candidate(src, limit, p) then Some(RecordEnd(src, p)) else best)
  }

  function ZipLength(src: seq<byte>, fileStart: nat, limit: nat): (r: Option<nat>)
    requires limit <= |src|
    ensures r.Some? ==> 0 < r.value && fileStart + r.value <= limit
  {
    match ZipEnd(src, fileStart, limit, fileStart, None)
    case None => None
    case Some(e) => Some(e - fileStart)
  }

  lemma {:induction false} FirstOwnerWins(src: seq<byte>, fileStart: nat, limit: nat, p: nat, best: Option<nat>, m: nat)
    requires limit <= |src| && fileStart <= p <= m && (best.Some? ==> fileStart < best.value <= limit)
    requires Owns(src, fileStart, limit, m) && forall k :: p <= k < m ==> !Owns(src, fileStart, limit, k)
    ensures ZipEnd(src, fileStart, limit, p, best) == Some(RecordEnd(src, m))
    decreases m - p
  {
    if p < m {
      var next := if Zip64Candidate(src, limit, p) then Some(RecordEnd(src, p)) else best;
      FirstOwnerWins(src, fileStart, limit, p + 1, next, m);
    }
  }

  lemma {:induction false} LastCandidateWins(src: seq<byte>, fileStart: nat, limit: nat, p: nat, best: Option<nat>)
    requires limit <= |src| && fileStart <= p && (best.Some? ==> fileStart < best.value <= limit)
    requires forall k :: p <= k < limit ==> !Owns(src, fileStart, limit, k)
    ensures forall m :: p <= m < limit && Zip64Candidate(src, limit, m)
                        && (forall k :: m < k < limit ==> !Zip64Candidate(src, limit, k))
                        ==> ZipEnd(src, fileStart, limit, p, best) == Some(RecordEnd(src, m))
    ensures (forall m :: p <= m < limit ==> !Zip64Candidate(src, limit, m)) ==>
            ZipEnd(src, fileStart, limit, p, best) == best
    decreases Max(0, limit - p)
  {
    if p < limit {
      var next := if Zip64Candidate(src, limit, p) then Some(RecordEnd(src, p)) else best;
      LastCandidateWins(src, fileStart, limit, p + 1, next);
    }
  }

  /**
   * The three outcomes of `zip_length`: the first record that owns the archive; failing that the last ZIP64 candidate;
   * else none.
   */
  lemma ZipLengthMeaning(src: seq<byte>, fileStart: nat, limit: nat, m: nat)
    requires limit <= |src| && fileStart <= m
    ensures Owns(src, fileStart, limit, m) && (forall k :: fileStart <= k < m ==> !Owns(src, fileStart, limit, k))
            ==> ZipLength(src, fileStart, limit) == Some(RecordEnd(src, m) - fileStart)
    ensures (forall k :: fileStart <= k < limit ==> !Owns(src, fileStart, limit, k))
            && Zip64Candidate(src, limit, m) && (forall k :: m < k < limit ==> !Zip64Candidate(src, limit, k))
            ==> ZipLength(src, fileStart, limit) == Some(RecordEnd(src, m) - fileStart)
    ensures (forall k :: fileStart <= k < limit ==> !Owns(src, fileStart, limit, k) && !Zip64Candidate(src, limit, k))
            ==> ZipLength(src, fileStart, limit) == None
  {
    if Owns(src, fileStart, limit, m) && (forall k :: fileStart <= k < m ==> !Owns(src, fileStart, limit, k)) {
      FirstOwnerWins(src, fileStart, limit, fileStart, None, m);
    }
    if forall k :: fileStart <= k < limit ==> !Owns(src, fileStart, limit, k) {
      LastCandidateWins(src, fileStart, limit, fileStart, None);
    }
  }

  /**
   * An archive stored at a positive offset inside another, with a record that is consistent with its own start, is
   * never taken for the outer archive: its record is neither an owner nor a ZIP64 fallback.
   */
  lemma EmbeddedNeverChosen(src: seq<byte>, fileStart: nat, inner: nat, limit: nat, m: nat)
    requires limit <= |src| && fileStart < inner && Owns(src, inner, limit, m)
    ensures !Owns(src, fileStart, limit, m) && !Zip64Candidate(src, limit, m)
  {
  }

  /** What the pass gives is the end of a record that owns the archive or of a ZIP64 candidate, or what it came with. */
  lemma {:induction false} ZipEndIsRecord(src: seq<byte>, fileStart: nat, limit: nat, p: nat, best: Option<nat>)
    requires limit <= |src| && fileStart <= p && (best.Some? ==> fileStart < best.value <= limit)
    ensures var r := ZipEnd(src, fileStart, limit, p, best);
            r.Some? ==> r == best || exists m :: p <= m < limit && EndsArchive(src, fileStart, limit, m, r.value)
    decreases Max(0, limit - p)
  {
    if p < limit && !Owns(src, fileStart, limit, p) {
      var next := if Zip64Candidate(src, limit, p) then Some(RecordEnd(src, p)) else best;
      ZipEndIsRecord(src, fileStart, limit, p + 1, next);
      if Zip64Candidate(src, limit, p) { assert EndsArchive(src, fileStart, limit, p, RecordEnd(src, p)); }
    } else if p < limit {
      assert EndsArchive(src, fileStart, limit, p, RecordEnd(src, p));
    }
  }

  ghost predicate EndsArchive(src: seq<byte>, fileStart: nat, limit: nat, m: nat, end: nat)
    requires limit <= |src|
  {
    (Owns(src, fileStart, limit, m) || Zip64Candidate(src, limit, m)) && RecordEnd(src, m) == end
  }

  /**
   * The length is never that of an embedded archive's record, unless another record, which does count, ends at the same
   * byte.
   */
  lemma EmbeddedNeverTheEnd(src: seq<byte>, fileStart: nat, inner: nat, limit: nat, m: nat)
    requires limit <= |src| && fileStart < inner && Owns(src, inner, limit, m)
    requires ZipLength(src, fileStart, limit) == Some(RecordEnd(src, m) - fileStart)
    ensures exists other: nat :: other != m && EndsArchive(src, fileStart, limit, other, RecordEnd(src, m))
  {
    hide ZipEnd, Owns, Zip64Candidate;
    ZipEndIsRecord(src, fileStart, limit, fileStart, None);
    EmbeddedNeverChosen(src, fileStart, inner, limit, m);
    var other :| fileStart <= other < limit && EndsArchive(src, fileStart, limit, other, RecordEnd(src, m));
    assert other != m;
  }

  /** Two markers cannot overlap, so stepping past a whole marker skips none. */
  lemma MarkersApart(src: seq<byte>, limit: nat, m: nat, k: nat)
    requires limit <= |src| && OccursAt(src, limit, EOCD, m) && m < k < m + 4
    ensures !OccursAt(src, limit, EOCD, k)
  {
    assert src[m..m + 4][k - m] == src[k];
    assert k + 4 <= limit ==> src[k..k + 4][0] == src[k];
  }

  /** A stretch without markers does not change the pass. */
  lemma {:induction false} SkipQuiet(src: seq<byte>, fileStart: nat, limit: nat, p: nat, q: nat, best: Option<nat>)
    requires limit <= |src| && fileStart <= p <= q && (best.Some? ==> fileStart < best.value <= limit)
    requires forall k :: p <= k < q ==> !OccursAt(src, limit, EOCD, k)
    ensures ZipEnd(src, fileStart, limit, p, best) == ZipEnd(src, fileStart, limit, q, best)
    decreases q - p
  {
    if p < q { SkipQuiet(src, fileStart, limit, p + 1, q, best); }
  }

  /** The pass steps from `p` over a quiet stretch, the marker at `m`, and the marker's own bytes. */
  lemma StepOver(src: seq<byte>, fileStart: nat, limit: nat, p: nat, m: nat, best: Option<nat>)
    requires limit <= |src| && fileStart <= p <= m && (best.Some? ==> fileStart < best.value <= limit)
    requires OccursAt(src, limit, EOCD, m) && forall k :: p <= k < m ==> !OccursAt(src, limit, EOCD, k)
    ensures forall k :: m < k < m + 4 ==> !OccursAt(src, limit, EOCD, k)
    ensures ZipEnd(src, fileStart, limit, p, best)
         == if Owns(src, fileStart, limit, m) then Some(RecordEnd(src, m))
            else ZipEnd(src, fileStart, limit, m + 4, if Zip64Candidate(src, limit, m) then Some(RecordEnd(src, m))
                        else best)
  {
    forall k | m < k < m + 4 ensures !OccursAt(src, limit, EOCD, k) { MarkersApart(src, limit, m, k); }
    SkipQuiet(src, fileStart, limit, p, m, best);
    SkipQuiet(src, fileStart, limit, m + 1, m + 4, if Zip64Candidate(src, limit, m) then Some(RecordEnd(src, m))
              else best);
  }

  datatype Grade = Owner(end: nat) | Fallback(end: nat) | Neither

  /** Read the record behind a marker and grade it; a record that cannot be read whole is passed over. */
  method GradeRecord(src: seq<byte>, fileStart: nat, limit: nat, m: nat) returns (g: Grade)
    requires limit <= |src| && OccursAt(src, limit, EOCD, m)
    ensures g.Owner? <==> Owns(src, fileStart, limit, m)
    ensures g.Fallback? <==> Zip64Candidate(src, limit, m)
    ensures !g.Neither? ==> m + 22 <= |src| && g.end == RecordEnd(src, m)
  {
    var e := ReadAt(src, m, 22);
    if |e| >= 22 {
      var cdSize, cdOff := U32Le(e, 12), U32Le(e, 16);
      var end := m + 22 + U16Le(e, 20);
      var isZip64 := cdSize == 0xFFFF_FFFF || cdOff == 0xFFFF_FFFF;
      if end <= limit {
        if !isZip64 && fileStart + cdOff + cdSize == m {
          return Owner(end);
        }
        if isZip64 {
          return Fallback(end);
        }
      }
    }
    return Neither;
  }

  /** Grade the next marker of the pass, which is at `m`: either it ends the search or the pass goes on behind it. */
  method VisitMarker(src: seq<byte>, fileStart: nat, limit: nat, p: nat, m: nat, best0: Option<nat>)
    returns (owned: Option<nat>, best: Option<nat>)
    requires fileStart <= p <= m && limit <= |src| && (best0.Some? ==> fileStart < best0.value <= limit)
    requires OccursAt(src, limit, EOCD, m) && forall k :: p <= k < m ==> !OccursAt(src, limit, EOCD, k)
    ensures forall k :: m < k < m + 4 ==> !OccursAt(src, limit, EOCD, k)
    ensures best.Some? ==> fileStart < best.value <= limit
    ensures ZipEnd(src, fileStart, limit, p, best0) == if owned.Some? then owned
            else ZipEnd(src, fileStart, limit, m + 4, best)
  {
    StepOver(src, fileStart, limit, p, m, best0);
    var g := GradeRecord(src, fileStart, limit, m);
    match g {
      case Owner(end) => return Some(end), best0;
      case Fallback(end) => return None, Some(end);
      case Neither => return None, best0;
    }
  }

  /**
   * The next window starts three bytes before this one's end, with no marker between there and the place searched so
   * far.
   */
  lemma LeaveWindow(src: seq<byte>, fileStart: nat, limit: nat, pos: nat, n: nat, from: nat, best: Option<nat>)
    requires fileStart <= pos && pos + n <= limit <= |src| && from <= n
             && (best.Some? ==> fileStart < best.value <= limit)
    requires forall k :: 0 < from && pos + from - 3 <= k < pos + from ==> !OccursAt(src, limit, EOCD, k)
    requires forall k :: pos + from <= k < pos + n - 3 ==> !OccursAt(src, limit, EOCD, k)
    ensures ZipEnd(src, fileStart, limit, pos + from, best) == ZipEnd(src, fileStart, limit, pos + Max(0, n - 3), best)
  {
    var next := pos + Max(0, n - 3);
    if pos + from <= next {
      SkipQuiet(src, fileStart, limit, pos + from, next, best);
    } else {
      SkipQuiet(src, fileStart, limit, next, pos + from, best);
    }
  }

  /** Every marker that ends inside the window src[pos..pos + |buf|) and starts at or after `from`, graded in order. */
  method ScanWindow(src: seq<byte>, fileStart: nat, limit: nat, pos: nat, buf: seq<byte>, best0: Option<nat>)
    returns (owned: Option<nat>, best: Option<nat>)
    requires fileStart <= pos && pos + |buf| <= limit <= |src| && buf == src[pos..pos + |buf|]
    requires best0.Some? ==> fileStart < best0.value <= limit
    ensures owned.Some? ==> ZipEnd(src, fileStart, limit, pos, best0) == owned
    ensures best.Some? ==> fileStart < best.value <= limit
    ensures owned.None? ==>
              ZipEnd(src, fileStart, limit, pos, best0)
              == ZipEnd(src, fileStart, limit, pos + Max(0, |buf| - 3), best)
  {
    hide ZipEnd, FindFrom, RecordEnd, IsZip64;
    best := best0;
    var n := |buf|;
    var from := 0;
    while true
      invariant 0 <= from <= n
      invariant best.Some? ==> fileStart < best.value <= limit
      invariant forall k :: 0 < from && pos + from - 3 <= k < pos + from ==> !OccursAt(src, limit, EOCD, k)
      invariant ZipEnd(src, fileStart, limit, pos + from, best) == ZipEnd(src, fileStart, limit, pos, best0)
      decreases n - from
    {
      WindowSearchFrom(src, limit, EOCD, pos, buf, from);
      var found := FindSubsequence(buf[from..], EOCD);
      if found.None? {
        break;
      }
      var idx := from + found.value;
      var owned', best' := VisitMarker(src, fileStart, limit, pos + from, pos + idx, best);
      best := best';
      if owned'.Some? {
        return owned', best;
      }
      from := idx + |EOCD|;
    }
    LeaveWindow(src, fileStart, limit, pos, n, from, best);
    return None, best;
  }

  /** No marker fits into the last three bytes. */
  lemma TailQuiet(src: seq<byte>, fileStart: nat, limit: nat, p: nat, best: Option<nat>)
    requires limit <= |src| && fileStart <= p && p + 3 >= limit && (best.Some? ==> fileStart < best.value <= limit)
    ensures ZipEnd(src, fileStart, limit, p, best) == best
  {
    SkipQuiet(src, fileStart, limit, p, Max(p, limit), best);
  }

  /** `zip_length` with its 1 MiB window made a parameter. */
  method ComputeZipLength(src: seq<byte>, fileStart: nat, limit: nat, window: nat) returns (r: Option<nat>)
    requires window >= 1 && fileStart <= limit <= |src|
    ensures r == ZipLength(src, fileStart, limit)
  {
    hide ZipEnd, FindFrom, RecordEnd, IsZip64;
    var overlap := |EOCD| - 1;
    var pos := fileStart;
    var best: Option<nat> := None; // end offset of the last ZIP64 candidate
    while pos < limit
      invariant fileStart <= pos
      invariant best.Some? ==> fileStart < best.value <= limit
      invariant ZipEnd(src, fileStart, limit, pos, best) == ZipEnd(src, fileStart, limit, fileStart, None)
    {
      var want := Min(limit - pos, window + overlap);
      var buf := ReadAt(src, pos, want);
      var n := |buf|;
      var owned;
      owned, best := ScanWindow(src, fileStart, limit, pos, buf, best);
      if owned.Some? {
        return Some(owned.value - fileStart);
      }
      if n < want || pos + n >= limit {
        pos := pos + Max(0, n - overlap);
        break;
      }
      pos := pos + n - overlap;
    }
    TailQuiet(src, fileStart, limit, pos, best);
    return if best.Some? then Some(best.value - fileStart) else None;
  }
}
