/** From bytes on the disk to a row in the manifest. */
module EndToEnd {
  import opened Bytes
  import opened Signatures
  import opened Lengths
  import opened Carving
  import opened Carver
  import Corpus
  import Resume
  import J = Jpeg
  import F = Fips180

  /** The first entry of the signature table. */
  const JPEG: Signature := Signature("JPEG image", "jpg", [0xFF, 0xD8, 0xFF], 0, None, Jpeg, 50 * 1024 * 1024)

  lemma {:induction false} FilesGrow(run: Run, st: State, lo: nat, hi: nat)
    requires run.Valid() && hi <= run.scanEnd
    ensures st.tally.files <= Scan(run, st, lo, hi).tally.files
    decreases hi
  {
    hide HitAt, RowOf, Length, ConfidenceOf, Eligible;
    if lo < hi {
      FilesGrow(run, st, lo, hi - 1);
      EligibleInRange(run.opts, Scan(run, st, lo, hi - 1).skipUntil, hi - 1);
    }
  }

  /** The candidate passes the run's size limits and its header check. */
  predicate Acceptable(run: Run, sig: Signature, fileStart: nat, len: nat) {
    && len >= run.opts.minSize
    && (run.opts.maxSize.Some? ==> len <= run.opts.maxSize.value)
    && (run.opts.validate ==> run.oracle.verdict(sig, ReadAt(run.src, fileStart, Min(len, HEADER_LEN))) != Invalid)
  }

  lemma HitIsRecorded(run: Run, st: State, sig: Signature, start: nat, len: nat)
    requires run.Valid() && start <= run.scanEnd && Acceptable(run, sig, start, len)
    requires Length(run.oracle, run.src, sig, start, run.scanEnd) == Some(len)
    ensures var verdict := run.oracle.verdict(sig, ReadAt(run.src, start, Min(len, HEADER_LEN)));
            var row := RowOf(run, st.tally.filesRecovered, sig, start, len,
                             ConfidenceOf(run, sig, start, len, verdict));
            || AtHit(run, st, sig, start).tally.files == st.tally.files + [row]
            || (AtHit(run, st, sig, start).tally.files == st.tally.files && run.opts.dedup && row.sha256 in st.seen)
  {
    hide RowOf, Length, ConfidenceOf;
  }

  /**
   * Nothing eligible is lost: a hit outside the claimed regions, with an acceptable length, is in the manifest at the
   * end of the scan, unless its content was recovered before and duplicates are dropped.
   */
  lemma EligibleHitIsRecorded(run: Run, st: State, lo: nat, p: nat, sig: Signature, len: nat)
    requires run.Valid() && lo <= p < run.scanEnd && HitAt(run, p) == Some(sig)
    requires !Scan(run, st, lo, p).stopped && Eligible(run.opts, Scan(run, st, lo, p).skipUntil, sig, p)
    requires Length(run.oracle, run.src, sig, p - sig.magicOffset, run.scanEnd) == Some(len)
    requires Acceptable(run, sig, p - sig.magicOffset, len)
    ensures var before, start := Scan(run, st, lo, p), p - sig.magicOffset;
            var verdict := run.oracle.verdict(sig, ReadAt(run.src, start, Min(len, HEADER_LEN)));
            var row := RowOf(run, before.tally.filesRecovered, sig, start, len,
                             ConfidenceOf(run, sig, start, len, verdict));
            || row in Scan(run, st, lo, run.scanEnd).tally.files
            || (run.opts.dedup && row.sha256 in before.seen)
  {
    hide HitAt, RowOf, Length, ConfidenceOf, AtHit, Eligible, Acceptable;
    ScanSplit(run, st, lo, p + 1, run.scanEnd);
    var before, after := Scan(run, st, lo, p), Scan(run, st, lo, p + 1);
    EligibleInRange(run.opts, before.skipUntil, p);
    assert after == AtHit(run, before, sig, p - sig.magicOffset);
    HitIsRecorded(run, before, sig, p - sig.magicOffset, len);
    FilesGrow(run, after, p + 1, run.scanEnd);
    var files := Scan(run, st, lo, run.scanEnd).tally.files;
    assert after.tally.files != before.tally.files ==>
      files[|before.tally.files|] == after.tally.files[|before.tally.files|];
  }

  /** Where a generated JPEG starts, the scan finds the JPEG signature. */
  lemma JpegIsHit(run: Run, at: nat, v: seq<byte>)
    requires run.Valid() && run.active != [] && run.active[0] == JPEG
    requires Corpus.IsGeneratedJpeg(v) && at + |v| <= run.scanEnd && run.src[at..at + |v|] == v
    ensures HitAt(run, at) == Some(JPEG)
  {
    var window := run.src[at..run.scanEnd];
    forall i | 0 <= i < 3 ensures window[i] == JPEG.magic[i] {
      assert window[i] == run.src[at + i] == run.src[at..at + |v|][i] == v[i] == v[..20][i];
    }
    assert window[0..3] == JPEG.magic;
  }

  /**
   * A JPEG of the test corpus, planted anywhere in a source that the scan does not take for the inside of another file,
   * comes back in the manifest with its own offset, its own length and the SHA-256 of its own bytes.
   */
  lemma PlantedJpegComesBack(run: Run, st: State, lo: nat, at: nat, v: seq<byte>)
    requires run.Valid() && run.active != [] && run.active[0] == JPEG
    requires Corpus.IsGeneratedJpeg(v) && lo <= at && at + |v| <= run.scanEnd && run.src[at..at + |v|] == v
    requires |v| <= JPEG.maxSize && Acceptable(run, JPEG, at, |v|)
    requires !Scan(run, st, lo, at).stopped && Eligible(run.opts, Scan(run, st, lo, at).skipUntil, JPEG, at)
    ensures (run.opts.dedup && F.Digest(v) in Scan(run, st, lo, at).seen)
            || exists row :: row in Scan(run, st, lo, run.scanEnd).tally.files
                             && row.ext == "jpg" && row.offset == at && row.size == |v|
                             && row.sha256 == F.Digest(v) && row.confidence != Truncated
  {
    hide HitAt, F.Digest, RowName, Scan, J.JpegLength;
    JpegIsHit(run, at, v);
    Corpus.GeneratedJpegCarvesExactly(run.src, at, v, Limit(JPEG, at, run.scanEnd));
    EligibleHitIsRecorded(run, st, lo, at, JPEG, |v|);
    assert ReadAt(run.src, at, |v|) == v;
  }

  /** The same of the engine: the row is among those that `carve_seeded` returns. */
  method CarvePlanted(src: seq<byte>, active: seq<Signature>, opts: Options, oracle: Oracle, seed: set<seq<byte>>,
                      sizes: Sizes, known: set<string>, at: nat, v: seq<byte>)
    returns (stats: CarveStats)
    requires |src| < U64_LIMIT && Usable(active) && active != [] && active[0] == JPEG
    requires sizes.Valid() && SumsFit(active, sizes.chunk, sizes.buffer) && opts.maxFiles.None?
    requires Corpus.IsGeneratedJpeg(v) && |v| <= JPEG.maxSize
    requires var run := RunOf(src, active, opts, oracle);
             && BaseStart(run) <= at && at + |v| <= run.scanEnd && src[at..at + |v|] == v
               && Acceptable(run, JPEG, at, |v|)
             && Eligible(opts, Scan(run, Resume.FreshState(seed), BaseStart(run), at).skipUntil, JPEG, at)
    ensures var run := RunOf(src, active, opts, oracle);
            (opts.dedup && F.Digest(v) in Scan(run, Resume.FreshState(seed), BaseStart(run), at).seen)
            || exists row :: row in stats.files
                             && row.ext == "jpg" && row.offset == at && row.size == |v|
                             && row.sha256 == F.Digest(v) && row.confidence != Truncated
  {
    hide Scan, F.Digest, InstalledFor, Eligible, Acceptable, Room, Overlap, SeesAll, SumsFit, EngineTrips, LeftBehind,
      Chunked;
    SumsFitIsEnough(active, sizes.chunk, sizes.buffer);
    ghost var run, fresh' := RunOf(src, active, opts, oracle), Resume.FreshState(seed);
    SumsFitNeverTrips(run, sizes, fresh', BaseStart(run), []);
    var ending, none;
    ending, stats, none := CarveSeeded(src, active, opts, oracle, seed, sizes, known, None, false, []);
    Resume.NeverStops(run, fresh', BaseStart(run), at);
    Resume.NeverStops(run, fresh', BaseStart(run), run.scanEnd);
    PlantedJpegComesBack(run, fresh', BaseStart(run), at, v);
  }
}
