/**
 * The carving engine: chunked reading, zero-block skipping, hit handling and streaming writes (`carve_seeded`,
 * `write_file`).
 */
module Carver {
  import opened Bytes
  import opened Signatures
  import opened Lengths
  import opened Carving
  import F = Fips180
  import Hash
  import opened Checkpoint
  import Invariants
  import RunLog

  class CarveStats {
    var bytesScanned: nat
    var verified: nat
    var plausible: nat
    var truncated: nat
    var filesRecovered: nat
    var bytesRecovered: nat
    var rejected: nat
    var duplicates: nat
    var skippedLarge: nat
    var perType: map<string, nat>
    var files: seq<Row>

    function View(): Tally
      reads this
    {
      Tally(files, filesRecovered, bytesRecovered, rejected, duplicates, skippedLarge, verified, plausible, truncated,
            perType)
    }

    constructor ()
      ensures View() == EMPTY_TALLY && bytesScanned == 0
    {
      bytesScanned, verified, plausible, truncated := 0, 0, 0, 0;
      filesRecovered, bytesRecovered, rejected, duplicates, skippedLarge := 0, 0, 0, 0, 0;
      perType, files := map[], [];
    }

    method CountConfidence(c: Confidence)
      modifies this`verified, this`plausible, this`truncated
      ensures verified == old(verified) + (if c == Verified then 1 else 0)
      ensures plausible == old(plausible) + (if c == Plausible then 1 else 0)
      ensures truncated == old(truncated) + (if c == Truncated then 1 else 0)
    {
      match c {
        case Verified => verified := verified + 1;
        case Plausible => plausible := plausible + 1;
        case Truncated => truncated := truncated + 1;
      }
    }

    /** A recovered file enters the counters and the manifest. */
    method Enter(row: Row)
      modifies this
      ensures View() == Record(old(View()), row) && bytesScanned == old(bytesScanned)
    {
      filesRecovered := filesRecovered + 1;
      bytesRecovered := bytesRecovered + row.size;
      CountConfidence(row.confidence);
      perType := Bump(perType, row.ext);
      files := files + [row];
    }
  }

  lemma ReadMore(src: seq<byte>, start: nat, n: nat, want: nat, len: nat)
    requires |ReadAt(src, start, n)| == n <= len && want > 0
    ensures var more := ReadAt(src, start + n, want);
            && ReadAt(src, start, n + |more|) == ReadAt(src, start, n) + more
            && |ReadAt(src, start, n + |more|)| == n + |more|
            && (more == [] ==> ReadAt(src, start, len) == ReadAt(src, start, n))
  {
  }

  /** Stream the candidate's bytes through the hasher in pieces of at most `copyChunk`. */
  method CopyAndHash(src: seq<byte>, fileStart: nat, len: nat, copyChunk: nat)
    returns (remaining: nat, digest: seq<byte>)
    requires copyChunk >= 1
    ensures remaining == len - |ReadAt(src, fileStart, len)|
    ensures digest == F.Digest(ReadAt(src, fileStart, len))
  {
    hide F.Digest, F.Blocks, ReadAt;
    var hasher := new Hash.Sha256();
    var bufLen := Min(Max(len, 1), copyChunk);
    var pos := fileStart;
    remaining := len;
    ghost var fed: seq<byte> := [];
    while remaining > 0
      invariant remaining <= len && pos == fileStart + len - remaining
      invariant hasher.Valid() && hasher.Counted() && fresh(hasher) && fresh(hasher.state) && fresh(hasher.buf)
      invariant hasher.Fed() == fed == ReadAt(src, fileStart, len - remaining) && |fed| == len - remaining
    {
      var want := Min(remaining, bufLen);
      var buf := ReadAt(src, pos, want);
      ReadMore(src, fileStart, len - remaining, want, len);
      if buf == [] {
        break;
      }
      hasher.Update(buf);
      fed := fed + buf;
      remaining := remaining - |buf|;
      pos := pos + |buf|;
    }
    assert fed == ReadAt(src, fileStart, len);
    digest := hasher.Finalize();
  }

  /** `write_file`. */
  method WriteFile(run: Run, sig: Signature, fileStart: nat, len: nat, confidence: Confidence, stats: CarveStats,
                   seen: set<seq<byte>>, copyChunk: nat) returns (seen': set<seq<byte>>)
    requires copyChunk >= 1
    modifies stats
    ensures (stats.View(), seen') == Write(run, old(stats.View()), seen, sig, fileStart, len, confidence)
    ensures stats.bytesScanned == old(stats.bytesScanned)
  {
    hide F.Digest, RowName, EffectiveExt, Record;
    var ext := EffectiveExt(run, sig, fileStart, len);
    var name := RowName(run.opts.organize, stats.filesRecovered, fileStart, ext);
    var remaining, digest := CopyAndHash(run.src, fileStart, len, copyChunk);
    if run.opts.dedup && digest in seen {
      stats.duplicates := stats.duplicates + 1;
      return seen;
    }
    seen' := if run.opts.dedup then seen + {digest} else seen;
    var written := len - remaining;
    var graded := if remaining > 0 then Truncated else confidence;
    stats.Enter(Row(name, ext, fileStart, written, digest, graded));
  }

  /**
   * The constants of the engine, made parameters, and the machine's: a buffer of `buffer` bytes or more is not granted,
   * and the program that asks for one stops.
   */
  datatype Sizes = Sizes(chunk: nat, window: nat, copyChunk: nat, interval: nat, buffer: nat) {
    predicate Valid() { 1 <= chunk < U64_LIMIT && window >= 1 && copyChunk >= 1 && interval >= 1 }
  }

  /** A followed-up hit: length, size limits, validation, writing, and what the scan may skip afterwards. */
  method HandleHit(run: Run, sizes: Sizes, stats: CarveStats, skipUntil0: u64, seen0: set<seq<byte>>,
                   ghost claims0: seq<Claim>, sig: Signature, fileStart: nat)
    returns (skipUntil: u64, seen: set<seq<byte>>, ghost claims: seq<Claim>, stopped: bool, tripped: bool)
    requires run.Valid() && sizes.Valid() && fileStart <= run.scanEnd
    modifies stats
    ensures tripped <==> FieldTooFar(sig, sizes.buffer)
    ensures !tripped ==>
              State(skipUntil, seen, stats.View(), claims, stopped) ==
              AtHit(run, State(skipUntil0, seen0, old(stats.View()), claims0, false), sig, fileStart)
    ensures stats.bytesScanned == old(stats.bytesScanned)
  {
    hide Write, Length, ConfidenceOf;
    skipUntil, seen, claims, stopped := skipUntil0, seen0, claims0, false;
    var found;
    found, tripped := FileLength(run.oracle, run.src, sig, fileStart, run.scanEnd, sizes.window, sizes.buffer);
    if tripped {
      return;
    }
    if found.None? || found.value < run.opts.minSize {
      return;
    }
    var len := found.value;
    if run.opts.maxSize.Some? && len > run.opts.maxSize.value {
      stats.skippedLarge := stats.skippedLarge + 1;
    } else {
      var verdict := run.oracle.verdict(sig, ReadAt(run.src, fileStart, Min(len, HEADER_LEN)));
      if run.opts.validate && verdict == Invalid {
        stats.rejected := stats.rejected + 1;
        return;
      }
      var confidence := ConfidenceOf(run, sig, fileStart, len, verdict);
      seen := WriteFile(run, sig, fileStart, len, confidence, stats, seen, sizes.copyChunk);
      stopped := run.opts.maxFiles.Some? && stats.filesRecovered >= run.opts.maxFiles.value;
    }
    if !run.opts.allowNested && !IsVolume(sig) {
      skipUntil := Wrap(fileStart + len);
    }
    claims := claims + [Claim(fileStart, len, IsVolume(sig))];
  }

  // --- what a chunk's buffer shows ---

  const ZERO_BLOCK: nat := 64

  /**
   * The buffer shows a position's hit, or that there is none, exactly when what it holds of the bytes behind decides
   * it.
   */
  lemma BufferDecidesIff(run: Run, p: nat, end: nat)
    requires run.Valid() && p <= end <= run.scanEnd
    ensures SeenAt(run, p, end) == HitAt(run, p) <==> Decided(run.active, run.src[p..run.scanEnd], end - p)
  {
    hide FirstMatch, Decided;
    SliceOfSlice(run.src, p, run.scanEnd, 0, end - p);
    DecidedIff(run.active, run.src[p..run.scanEnd], end - p);
    assert run.src[p..run.scanEnd][..end - p] == run.src[p..end];
  }

  /**
   * The positions jumped over in a block of zeros hold no hit, however far one sees behind the block, and stop nothing.
   */
  lemma ZerosAreQuiet(run: Run, p: nat, block: nat, skip: nat, end: nat)
    requires run.Valid() && p + block <= end <= run.scanEnd && MaxLeadingZeros(run.active).Some?
    requires MaxLeadingZeros(run.active).value < block && skip == block - MaxLeadingZeros(run.active).value
    requires forall k :: p <= k < p + block ==> run.src[k] == 0
    ensures forall q :: p <= q < p + skip ==> SeenAt(run, q, end) == None && !SearchTrips(run.active, run.src[q..end])
  {
    hide FirstMatch, SearchTrips, MaxLeadingZeros;
    var window := run.src[p..end];
    forall q | p <= q < p + skip ensures SeenAt(run, q, end) == None && !SearchTrips(run.active, run.src[q..end]) {
      ZeroSkipIsSafe(run.active, window, block, q - p);
      SliceOfSlice(run.src, p, end, q - p, end - p);
    }
  }

  lemma EligibleInRange(opts: Options, skipUntil: nat, p: nat)
    ensures forall sig :: Eligible(opts, skipUntil, sig, p) ==> p >= sig.magicOffset
  {
  }

  // --- when the program stops with an error ---

  /** The fields of this signature can be added up and reached. */
  predicate Sound(sig: Signature, buffer: nat) { TagFits(sig) && !FieldTooFar(sig, buffer) }

  /** Looking at this window stops the program: in the search, or over the length field of an eligible hit. */
  predicate VisitTrips(run: Run, buffer: nat, skipUntil: nat, window: seq<byte>, p: nat) {
    || SearchTrips(run.active, window)
    || (var found := FirstMatch(run.active, window);
        found.Some? && Eligible(run.opts, skipUntil, found.value, p) && FieldTooFar(found.value, buffer))
  }

  /**
   * The pass that starts at `lo` in this state and sees no further than `end` comes to position `p` and stops with an
   * error.
   */
  ghost predicate TripsAt(run: Run, buffer: nat, st: State, lo: nat, p: nat, end: nat)
    requires run.Valid() && p <= end <= run.scanEnd
  {
    var before := ScanSeen(run, st, lo, p, end);
    !before.stopped && VisitTrips(run, buffer, before.skipUntil, run.src[p..end], p)
  }

  /** It does so somewhere in lo..hi. */
  ghost predicate PassTrips(run: Run, buffer: nat, st: State, lo: nat, hi: nat, end: nat)
    requires run.Valid() && hi <= end <= run.scanEnd
  {
    exists p :: lo <= p < hi && TripsAt(run, buffer, st, lo, p, end)
  }

  lemma SoundNeverTrips(run: Run, buffer: nat, st: State, lo: nat, hi: nat, end: nat)
    requires run.Valid() && hi <= end <= run.scanEnd && forall sig :: sig in run.active ==> Sound(sig, buffer)
    ensures !PassTrips(run, buffer, st, lo, hi, end)
  {
    hide ScanSeen, SearchTrips;
    forall p | lo <= p < hi ensures !TripsAt(run, buffer, st, lo, p, end) {
      FittingTagsNeverTrip(run.active, run.src[p..end]);
    }
  }

  /** A block of zeros in the buffer can be jumped over. */
  lemma SkipZeros(run: Run, buffer: nat, st: State, abs: nat, end: nat, buf: seq<byte>, i: nat, skip: nat)
    requires run.Valid() && end == abs + |buf| <= run.scanEnd && buf == run.src[abs..end] && i + ZERO_BLOCK <= |buf|
    requires MaxLeadingZeros(run.active).Some? && MaxLeadingZeros(run.active).value < ZERO_BLOCK
    requires skip == ZERO_BLOCK - MaxLeadingZeros(run.active).value
    requires forall k :: i <= k < i + ZERO_BLOCK ==> buf[k] == 0
    ensures ScanSeen(run, st, abs, abs + i + skip, end) == ScanSeen(run, st, abs, abs + i, end)
    ensures forall p :: abs + i <= p < abs + i + skip ==> !TripsAt(run, buffer, st, abs, p, end)
  {
    hide ScanSeen, SearchTrips, FirstMatch, MaxLeadingZeros;
    assert forall k :: abs + i <= k < abs + i + ZERO_BLOCK ==> run.src[k] == buf[k - abs];
    ZerosAreQuiet(run, abs + i, ZERO_BLOCK, skip, end);
    SeenQuiet(run, st, abs, abs + i, abs + i + skip, end);
    forall p | abs + i <= p < abs + i + skip ensures !TripsAt(run, buffer, st, abs, p, end) {
      assert SeenAt(run, p, end) == FirstMatch(run.active, run.src[p..end]);
    }
  }

  /** Behind a stop nothing is looked at. */
  lemma StoppedNeverTrips(run: Run, buffer: nat, st: State, lo: nat, mid: nat, hi: nat, end: nat)
    requires run.Valid() && lo <= mid <= hi <= end <= run.scanEnd && ScanSeen(run, st, lo, mid, end).stopped
    ensures ScanSeen(run, st, lo, hi, end) == ScanSeen(run, st, lo, mid, end)
    ensures forall p :: mid <= p < hi ==> !TripsAt(run, buffer, st, lo, p, end)
  {
    hide ScanSeen, VisitTrips;
    SeenStopped(run, st, lo, mid, hi, end);
    forall p | mid <= p < hi ensures !TripsAt(run, buffer, st, lo, p, end) { SeenStopped(run, st, lo, mid, p, end); }
  }

  /** Look at one position of the buffer and follow up what is found there. */
  method VisitPosition(run: Run, sizes: Sizes, index: SignatureIndex, stats: CarveStats, abs: nat, buf: seq<byte>,
                       i: nat, skipUntil0: u64, seen0: set<seq<byte>>, ghost claims0: seq<Claim>)
    returns (skipUntil: u64, seen: set<seq<byte>>, ghost claims: seq<Claim>, stopped: bool, tripped: bool)
    requires run.Valid() && sizes.Valid() && index.Valid() && index.active == run.active && i < |buf|
    requires abs + |buf| <= run.scanEnd && buf == run.src[abs..abs + |buf|]
    modifies stats
    ensures tripped <==> VisitTrips(run, sizes.buffer, skipUntil0, run.src[abs + i..abs + |buf|], abs + i)
    ensures !tripped ==>
              State(skipUntil, seen, stats.View(), claims, stopped) ==
              OnHit(run, State(skipUntil0, seen0, old(stats.View()), claims0, false), abs + i,
                    SeenAt(run, abs + i, abs + |buf|))
    ensures stats.bytesScanned == old(stats.bytesScanned)
  {
    hide AtHit, FirstMatch, SearchTrips, FieldTooFar, MaxLeadingZeros, Bucket, PrefixMarked;
    hide Eligible;
    SliceOfSlice(run.src, abs, abs + |buf|, i, |buf|);
    skipUntil, seen, claims, stopped := skipUntil0, seen0, claims0, false;
    var found;
    found, tripped := index.MatchAt(buf[i..]);
    if tripped {
      return;
    }
    EligibleInRange(run.opts, skipUntil0, abs + i);
    if found.Some? && Eligible(run.opts, skipUntil0, found.value, abs + i) {
      skipUntil, seen, claims, stopped, tripped :=
        HandleHit(run, sizes, stats, skipUntil0, seen0, claims0, found.value, abs + i - found.value.magicOffset);
    }
  }

  /**
   * The inner loop of `carve_seeded` over one chunk's buffer: one pass over its positions that sees only the buffer.
   */
  method ScanChunk(run: Run, sizes: Sizes, index: SignatureIndex, stats: CarveStats, abs: nat, buf: seq<byte>,
                   scanLimit: nat, skipUntil0: u64, seen0: set<seq<byte>>, ghost claims0: seq<Claim>)
    returns (skipUntil: u64, seen: set<seq<byte>>, ghost claims: seq<Claim>, stopped: bool, tripped: bool)
    requires run.Valid() && sizes.Valid() && index.Valid() && index.active == run.active
    requires abs + |buf| <= run.scanEnd && buf == run.src[abs..abs + |buf|] && scanLimit <= |buf|
    modifies stats
    ensures var st0 := State(skipUntil0, seen0, old(stats.View()), claims0, false);
            && (tripped <==> PassTrips(run, sizes.buffer, st0, abs, abs + scanLimit, abs + |buf|))
            && (!tripped ==> State(skipUntil, seen, stats.View(), claims, stopped)
                             == ScanSeen(run, st0, abs, abs + scanLimit, abs + |buf|))
    ensures stats.bytesScanned == old(stats.bytesScanned)
  {
    hide OnHit, SeenAt, ScanSeen, VisitTrips, TripsAt, MaxLeadingZeros, Bucket, PrefixMarked;
    skipUntil, seen, claims, stopped, tripped := skipUntil0, seen0, claims0, false, false;
    ghost var st0, end := State(skipUntil0, seen0, stats.View(), claims0, false), abs + |buf|;
    NothingSeen(run, st0, abs, end);
    var zeroSkip := index.ZeroSkip(ZERO_BLOCK);
    var i := 0;
    while i < scanLimit
      invariant i <= scanLimit && !stopped && !tripped && stats.bytesScanned == old(stats.bytesScanned)
      invariant State(skipUntil, seen, stats.View(), claims, stopped) == ScanSeen(run, st0, abs, abs + i, end)
      invariant forall p :: abs <= p < abs + i ==> !TripsAt(run, sizes.buffer, st0, abs, p, end)
    {
      if buf[i] == 0 && zeroSkip.Some? && i + ZERO_BLOCK <= scanLimit
         && forall k | i <= k < i + ZERO_BLOCK :: buf[k] == 0
      {
        SkipZeros(run, sizes.buffer, st0, abs, end, buf, i, zeroSkip.value);
        i := i + zeroSkip.value;
        continue;
      }
      TripsHere(run, sizes.buffer, st0, abs, abs + i, end, skipUntil);
      NextSeen(run, st0, abs, abs + i, end);
      skipUntil, seen, claims, stopped, tripped :=
        VisitPosition(run, sizes, index, stats, abs, buf, i, skipUntil, seen, claims);
      if tripped {
        return;
      }
      i := i + 1;
      if stopped {
        StoppedNeverTrips(run, sizes.buffer, st0, abs, abs + i, abs + scanLimit, end);
        return;
      }
    }
  }

  lemma NextSeen(run: Run, st: State, lo: nat, p: nat, end: nat)
    requires run.Valid() && lo <= p < end <= run.scanEnd
    ensures ScanSeen(run, st, lo, p + 1, end) == OnHit(run, ScanSeen(run, st, lo, p, end), p, SeenAt(run, p, end))
  {
    hide OnHit, SeenAt;
  }

  lemma TripsHere(run: Run, buffer: nat, st: State, lo: nat, p: nat, end: nat, skipUntil: nat)
    requires run.Valid() && lo <= p <= end <= run.scanEnd
    requires !ScanSeen(run, st, lo, p, end).stopped && ScanSeen(run, st, lo, p, end).skipUntil == skipUntil
    ensures TripsAt(run, buffer, st, lo, p, end) <==> VisitTrips(run, buffer, skipUntil, run.src[p..end], p)
  {
  }

  function ScanEnd(src: seq<byte>, opts: Options): nat { Min(if opts.end.Some? then opts.end.value else |src|, |src|) }

  function RunOf(src: seq<byte>, active: seq<Signature>, opts: Options, oracle: Oracle): (run: Run)
    ensures run.scanEnd <= |src|
  {
    Run(src, active, opts, oracle, ScanEnd(src, opts))
  }

  function BaseStart(run: Run): nat { Min(run.opts.start, run.scanEnd) }

  /** Where a run starts and with what: from the beginning, or from what was loaded, clamped into the range to scan. */
  function StartPos(run: Run, saved: Option<Loaded>): (p: nat)
    ensures BaseStart(run) <= p <= run.scanEnd
  {
    if saved.None? then BaseStart(run) else Max(BaseStart(run), Min(saved.value.pos, run.scanEnd))
  }

  function StartState(seed: set<seq<byte>>, saved: Option<Loaded>): State {
    match saved
    case None => State(0, seed, EMPTY_TALLY, [], false)
    case Some(ld) => State(ld.skipUntil, seed + ld.seen, ld.tally, [], false)
  }

  method LoadStats(t: Tally) returns (stats: CarveStats)
    ensures fresh(stats) && stats.View() == t && stats.bytesScanned == 0
  {
    stats := new CarveStats();
    stats.verified, stats.plausible, stats.truncated := t.verified, t.plausible, t.truncated;
    stats.filesRecovered, stats.bytesRecovered := t.filesRecovered, t.bytesRecovered;
    stats.rejected, stats.duplicates, stats.skippedLarge := t.rejected, t.duplicates, t.skippedLarge;
    stats.perType, stats.files := t.perType, t.files;
  }

  // --- the chunk's arithmetic, in 64 bits ---

  /** How many bytes a chunk shares with the next one. */
  function Overlap(active: seq<Signature>): nat { Wrap(MaxReach(active) + MaxMagicOffset(active)) }

  /** The size of the chunk buffer. */
  function Room(active: seq<Signature>, chunk: nat): nat { Wrap(chunk + Overlap(active)) }

  /** With `left` bytes to go, a chunk leaves the position where it was. */
  predicate Stalls(active: seq<Signature>, chunk: nat, left: nat) {
    0 < Room(active, chunk) <= Overlap(active) && Room(active, chunk) < left
  }

  /** The buffer is larger than the overlap exactly when their 64-bit sum does not wrap. */
  lemma RoomIff(active: seq<Signature>, chunk: nat)
    requires 1 <= chunk < U64_LIMIT
    ensures Overlap(active) < Room(active, chunk) <==> chunk + Overlap(active) < U64_LIMIT
  {
  }

  /** How much of a chunk's buffer to scan: all of it at the end of the range, else all but the overlap. */
  function ScanLimit(n: nat, want: nat, abs: nat, scanEnd: nat, overlap: nat): nat
  {
    if n == want && abs + n < scanEnd then Max(0, n - overlap) else n
  }

  /** Where the buffer of the chunk at `p` ends, and where the next chunk starts. */
  function BufferEnd(run: Run, chunk: nat, p: nat): (end: nat)
    requires p <= run.scanEnd
    ensures p <= end <= run.scanEnd
  {
    Min(run.scanEnd, p + Room(run.active, chunk))
  }

  function NextChunk(run: Run, chunk: nat, p: nat): (next: nat)
    requires p <= run.scanEnd
    ensures p <= next <= BufferEnd(run, chunk, p)
  {
    var end := BufferEnd(run, chunk, p);
    if end == run.scanEnd then end else Max(p, end - Overlap(run.active))
  }

  /** A chunk moves forward unless it stalls or reads nothing. */
  lemma AdvancesIff(run: Run, chunk: nat, p: nat)
    requires p < run.scanEnd && 1 <= chunk < U64_LIMIT
    ensures NextChunk(run, chunk, p) == p <==>
            Room(run.active, chunk) == 0 || Stalls(run.active, chunk, run.scanEnd - p)
    ensures Room(run.active, chunk) <= Overlap(run.active) ==>
              NextChunk(run, chunk, p) == p || NextChunk(run, chunk, p) == run.scanEnd
  {
    hide MaxReach, MaxMagicOffset;
    RoomIff(run.active, chunk);
  }

  // --- the chunks of a run ---

  /**
   * One chunk: a pass over its positions by a reader who sees its buffer. A stop leaves the position at the chunk's
   * start.
   */
  function ChunkStep(run: Run, chunk: nat, st: State, p: nat): (r: (State, nat))
    requires run.Valid() && p <= run.scanEnd
    ensures p <= r.1 <= run.scanEnd
  {
    if st.stopped || p >= run.scanEnd then (st, p)
    else
      var st' := ScanSeen(run, st, p, NextChunk(run, chunk, p), BufferEnd(run, chunk, p));
      (st', if st'.stopped then p else NextChunk(run, chunk, p))
  }

  /** State and position after `k` chunks. */
  function Chunked(run: Run, chunk: nat, st0: State, p0: nat, k: nat): (r: (State, nat))
    requires run.Valid() && p0 <= run.scanEnd
    ensures p0 <= r.1 <= run.scanEnd
  {
    if k == 0 then (st0, p0)
    else
      var (st, p) := Chunked(run, chunk, st0, p0, k - 1);
      ChunkStep(run, chunk, st, p)
  }

  /** The run comes to chunk `k` and stops in it with an error. */
  ghost predicate ChunkTrips(run: Run, sizes: Sizes, st0: State, p0: nat, k: nat)
    requires run.Valid() && p0 <= run.scanEnd
  {
    var (st, p) := Chunked(run, sizes.chunk, st0, p0, k);
    p < run.scanEnd && !st.stopped
    && PassTrips(run, sizes.buffer, st, p, NextChunk(run, sizes.chunk, p), BufferEnd(run, sizes.chunk, p))
  }

  predicate NotCancelled(cancelled: seq<bool>, from: nat) { forall i :: from <= i < |cancelled| ==> !cancelled[i] }

  /** Some chunk that is not cancelled, nor any before it, stops with an error. */
  ghost predicate EngineTrips(run: Run, sizes: Sizes, st0: State, p0: nat, cancelled: seq<bool>)
    requires run.Valid() && p0 <= run.scanEnd
  {
    exists k: nat :: ChunkTrips(run, sizes, st0, p0, k) && NotCancelled(cancelled[..Min(k + 1, |cancelled|)], 0)
  }

  /** Once a chunk changes nothing, no later one does. */
  lemma {:induction false} ChunkedFixed(run: Run, chunk: nat, st0: State, p0: nat, k: nat, j: nat)
    requires run.Valid() && p0 <= run.scanEnd && k <= j
    requires var (st, p) := Chunked(run, chunk, st0, p0, k); ChunkStep(run, chunk, st, p) == (st, p)
    ensures Chunked(run, chunk, st0, p0, j) == Chunked(run, chunk, st0, p0, k)
    decreases j
  {
    hide ChunkStep;
    if k < j { ChunkedFixed(run, chunk, st0, p0, k, j - 1); }
  }

  /** A run that was cancelled, stopped, or has nothing more to read or no way forward, stops with no error behind. */
  lemma NoErrorBehind(run: Run, sizes: Sizes, st0: State, p0: nat, cancelled: seq<bool>, k: nat)
    requires run.Valid() && p0 <= run.scanEnd && forall j: nat :: j < k ==> !ChunkTrips(run, sizes, st0, p0, j)
    requires var (st, p) := Chunked(run, sizes.chunk, st0, p0, k);
             (k < |cancelled| && cancelled[k]) || st.stopped || NextChunk(run, sizes.chunk, p) == p
    ensures !EngineTrips(run, sizes, st0, p0, cancelled)
  {
    hide NextChunk, ScanSeen, TripsAt;
    var (st, p) := Chunked(run, sizes.chunk, st0, p0, k);
    forall j: nat
      ensures !(ChunkTrips(run, sizes, st0, p0, j) && NotCancelled(cancelled[..Min(j + 1, |cancelled|)], 0))
    {
      if j >= k {
        if k < |cancelled| && cancelled[k] {
          assert cancelled[..Min(j + 1, |cancelled|)][k];
        } else {
          if NextChunk(run, sizes.chunk, p) == p { NothingSeen(run, st, p, BufferEnd(run, sizes.chunk, p)); }
          ChunkedFixed(run, sizes.chunk, st0, p0, k, j);
        }
      }
    }
  }

  /** Every state of every run keeps the books, whatever the buffers show. */
  lemma {:induction false} ChunkedKeeps(run: Run, seed: set<seq<byte>>, chunk: nat, st0: State, p0: nat, k: nat)
    requires run.Valid() && p0 <= run.scanEnd && Invariants.Inv(run, seed, st0)
    ensures Invariants.Inv(run, seed, Chunked(run, chunk, st0, p0, k).0)
  {
    hide Invariants.Inv, NextChunk, BufferEnd, ScanSeen;
    if k > 0 {
      ChunkedKeeps(run, seed, chunk, st0, p0, k - 1);
      var (st, p) := Chunked(run, chunk, st0, p0, k - 1);
      Invariants.SeenKeeps(run, seed, st, p, NextChunk(run, chunk, p), BufferEnd(run, chunk, p));
    }
  }

  /** And its regions are disjoint exactly while all of them end. */
  lemma {:induction false} ChunkedClaims(run: Run, chunk: nat, st0: State, p0: nat, k: nat)
    requires run.Valid() && p0 <= run.scanEnd
    ensures Invariants.ClaimsKept(run, st0, Chunked(run, chunk, st0, p0, k).0)
  {
    hide NextChunk, BufferEnd, ScanSeen, Invariants.AllEnd, Invariants.DisjointIffAllEnd, Invariants.LengthsEnd;
    if k > 0 {
      ChunkedClaims(run, chunk, st0, p0, k - 1);
      var (st, p) := Chunked(run, chunk, st0, p0, k - 1);
      Invariants.SeenClaims(run, st, p, NextChunk(run, chunk, p), BufferEnd(run, chunk, p));
      Invariants.ClaimsChain(st0.claims, st.claims, Chunked(run, chunk, st0, p0, k).0.claims);
    }
  }

  /**
   * The limit on the number of files is met inside a chunk, and the position stays where that chunk starts: it is the
   * position of the last checkpoint, so that a resumed run looks at the whole chunk again.
   */
  lemma StoppedAtChunkStart(run: Run, chunk: nat, st0: State, p0: nat, k: nat)
    requires run.Valid() && p0 <= run.scanEnd
    requires !Chunked(run, chunk, st0, p0, k).0.stopped && Chunked(run, chunk, st0, p0, k + 1).0.stopped
    ensures Chunked(run, chunk, st0, p0, k + 1).1 == Chunked(run, chunk, st0, p0, k).1 < run.scanEnd
  {
    hide ScanSeen, NextChunk, BufferEnd;
  }

  // --- when the chunks are the one pass ---

  /**
   * In a chunk with a next one, a position has `n` bytes in the buffer, more than the overlap. This says of every
   * window that a source of 64-bit size can hold there that `n` bytes decide it.
   */
  ghost predicate SeesAll(active: seq<Signature>, chunk: nat) {
    forall n: nat, window: seq<byte> ::
      Overlap(active) < n <= Room(active, chunk) && n <= |window| && Room(active, chunk) - n + |window| < U64_LIMIT
      ==> Decided(active, window, n)
  }

  /** An overlap that covers the lookahead is enough. */
  lemma CoveredLookahead(active: seq<Signature>, chunk: nat)
    requires MaxReach(active) <= Overlap(active) + 1
    ensures SeesAll(active, chunk)
  {
    hide FirstMatch, Overlap, Room, Reach;
  }

  /** The shortest window in which this signature is found: its magic, its tag, and zeros elsewhere. */
  function Sample(sig: Signature): (window: seq<byte>)
    ensures |window| == Reach(sig)
  {
    seq(Reach(sig), i requires 0 <= i =>
          if i < |sig.magic| then sig.magic[i]
          else if sig.secondary.Some? && 0 <= i - sig.secondary.value.0 < |sig.secondary.value.1|
               then sig.secondary.value.1[i - sig.secondary.value.0]
          else 0)
  }

  /** For a table in which no signature hides another there, covering the lookahead is also necessary. */
  lemma CoveredLookaheadIff(active: seq<Signature>, chunk: nat)
    requires chunk >= 1 && Room(active, chunk) == chunk + Overlap(active) < U64_LIMIT - 1
    requires forall sig :: sig in active ==> |sig.magic| < U64_LIMIT && FirstMatch(active, Sample(sig)) == Some(sig)
    ensures SeesAll(active, chunk) <==> MaxReach(active) <= Overlap(active) + 1
  {
    hide *;
    if MaxReach(active) <= Overlap(active) + 1 {
      CoveredLookahead(active, chunk);
    } else {
      LargestReach(active);
      var sig :| sig in active && Reach(sig) == MaxReach(active);
      FarReachIsMissed(active, chunk, sig);
    }
  }

  lemma FarReachIsMissed(active: seq<Signature>, chunk: nat, sig: Signature)
    requires Overlap(active) < Room(active, chunk) < U64_LIMIT - 1 && Overlap(active) + 1 < Reach(sig)
    requires |sig.magic| < U64_LIMIT && FirstMatch(active, Sample(sig)) == Some(sig)
    ensures !SeesAll(active, chunk)
  {
    assert Reach(sig) < U64_LIMIT;
    hide FirstMatch, Overlap, Room, Reach, Sample;
    var n := Min(Room(active, chunk), Reach(sig) - 1);
    assert !Decided(active, Sample(sig), n);
  }

  lemma {:induction false} LargestReach(active: seq<Signature>)
    requires MaxReach(active) > 0
    ensures exists sig :: sig in active && Reach(sig) == MaxReach(active)
  {
    hide Reach;
    var front, last := active[..|active| - 1], active[|active| - 1];
    if Reach(last) < MaxReach(front) { LargestReach(front); } else { assert last in active; }
  }

  /** The buffer of the chunk at `abs` shows what there is at position `p`. */
  ghost predicate Shows(active: seq<Signature>, chunk: nat, src: seq<byte>, scanEnd: nat, abs: nat, p: nat)
    requires abs <= p <= scanEnd <= |src| && p <= abs + Room(active, chunk)
  {
    FirstMatch(active, src[p..Min(scanEnd, abs + Room(active, chunk))]) == FirstMatch(active, src[p..scanEnd])
  }

  /**
   * For a table whose buffer does not wrap: the first chunk of every source shows what there is at every position that
   * it scans exactly when `SeesAll` holds of the table; and then so do all chunks, wherever they start and the range
   * ends.
   */
  lemma SeesAllIff(active: seq<Signature>, chunk: nat)
    requires Room(active, chunk) == chunk + Overlap(active)
    ensures SeesAll(active, chunk) <==>
            forall src: seq<byte>, p: nat ::
              |src| < U64_LIMIT && p <= |src| && p < chunk ==> Shows(active, chunk, src, |src|, 0, p)
    ensures SeesAll(active, chunk) ==>
            forall src: seq<byte>, scanEnd: nat, abs: nat, p: nat ::
              |src| < U64_LIMIT && abs <= p <= scanEnd <= |src| && p < abs + chunk ==>
                Shows(active, chunk, src, scanEnd, abs, p)
  {
    hide FirstMatch, Overlap, Room, Decided, Shows;
    if SeesAll(active, chunk) {
      forall src: seq<byte>, scanEnd: nat, abs: nat, p: nat
        | |src| < U64_LIMIT && abs <= p <= scanEnd <= |src| && p < abs + chunk
        ensures Shows(active, chunk, src, scanEnd, abs, p)
      {
        SeesThere(active, chunk, src, scanEnd, abs, p);
      }
    }
    if forall src: seq<byte>, p: nat ::
        |src| < U64_LIMIT && p <= |src| && p < chunk ==> Shows(active, chunk, src, |src|, 0, p)
    {
      forall n: nat, window: seq<byte> |
        Overlap(active) < n <= Room(active, chunk) && n <= |window| && Room(active, chunk) - n + |window| < U64_LIMIT
        ensures Decided(active, window, n)
      {
        var zeros: seq<byte> := seq(Room(active, chunk) - n, _ => 0);
        assert Shows(active, chunk, zeros + window, |zeros + window|, 0, |zeros|);
        ShownIsDecided(active, chunk, zeros, window, n);
      }
    }
  }

  lemma ShownIsDecided(active: seq<Signature>, chunk: nat, before: seq<byte>, window: seq<byte>, n: nat)
    requires n <= |window| < U64_LIMIT && |before| + n == Room(active, chunk)
    requires Shows(active, chunk, before + window, |before + window|, 0, |before|)
    ensures Decided(active, window, n)
  {
    hide FirstMatch, Room, Decided;
    var src := before + window;
    assert src[|before|..|src|] == window && src[|before|..Room(active, chunk)] == window[..n];
    DecidedIff(active, window, n);
  }

  lemma SeesThere(active: seq<Signature>, chunk: nat, src: seq<byte>, scanEnd: nat, abs: nat, p: nat)
    requires SeesAll(active, chunk) && Room(active, chunk) == chunk + Overlap(active)
    requires |src| < U64_LIMIT && abs <= p <= scanEnd <= |src| && p < abs + chunk
    ensures Shows(active, chunk, src, scanEnd, abs, p)
  {
    hide FirstMatch, Overlap, Room, Decided;
    var end, window := Min(scanEnd, abs + Room(active, chunk)), src[p..scanEnd];
    if end < scanEnd {
      assert Decided(active, window, end - p);
      DecidedIff(active, window, end - p);
      SliceOfSlice(src, p, scanEnd, 0, end - p);
      assert window[..end - p] == src[p..end];
    }
  }

  /** A chunk then continues the pass over the whole range. */
  lemma ChunkContinues(run: Run, chunk: nat, st: State, p: nat)
    requires run.Valid() && 1 <= chunk < U64_LIMIT && SeesAll(run.active, chunk) && p <= run.scanEnd
    ensures ScanSeen(run, st, p, NextChunk(run, chunk, p), BufferEnd(run, chunk, p))
            == Scan(run, st, p, NextChunk(run, chunk, p))
  {
    hide Scan, ScanSeen, FirstMatch, MaxReach, MaxMagicOffset, SeesAll;
    RoomIff(run.active, chunk);
    var end, next := BufferEnd(run, chunk, p), NextChunk(run, chunk, p);
    forall q | p <= q < next ensures SeenAt(run, q, end) == HitAt(run, q) {
      if end < run.scanEnd { SeesThere(run.active, chunk, run.src, run.scanEnd, p, q); }
    }
    ScanSeenIsScan(run, st, p, next, end);
  }

  lemma {:induction false} ChunkedIsScan(run: Run, chunk: nat, st0: State, p0: nat, k: nat)
    requires run.Valid() && 1 <= chunk < U64_LIMIT && SeesAll(run.active, chunk) && p0 <= run.scanEnd
    ensures var (st, p) := Chunked(run, chunk, st0, p0, k);
            st == Scan(run, st0, p0, if st.stopped then run.scanEnd else p)
  {
    hide Scan, ScanSeen, SeesAll, NextChunk, BufferEnd;
    EmptyScan(run, st0, p0);
    if k == 0 {
      if st0.stopped { ScanStopped(run, st0, p0, run.scanEnd); }
    } else {
      ChunkedIsScan(run, chunk, st0, p0, k - 1);
      var (st, p) := Chunked(run, chunk, st0, p0, k - 1);
      if !st.stopped && p < run.scanEnd {
        var next := NextChunk(run, chunk, p);
        ChunkContinues(run, chunk, st, p);
        ScanSplit(run, st0, p0, p, next);
        var st' := Scan(run, st, p, next);
        if st'.stopped {
          ScanSplit(run, st0, p0, next, run.scanEnd);
          ScanStopped(run, st', next, run.scanEnd);
        }
      }
    }
  }

  // --- which hits the counters count, and where the rows come from ---

  /** The positions of a run that starts from the beginning, told by its options. */
  lemma RangeMeans(src: seq<byte>, active: seq<Signature>, opts: Options, oracle: Oracle, p: nat)
    ensures var run := RunOf(src, active, opts, oracle);
            BaseStart(run) <= p < run.scanEnd <==>
            opts.start <= p < |src| && (opts.end.Some? ==> p < opts.end.value)
  {
  }

  /** Any number of chunks leaves the state of a log of the positions they got through. */
  lemma {:induction false} ChunkedIsLogged(run: Run, chunk: nat, st0: State, p0: nat, k: nat) returns (log: RunLog.Log)
    requires run.Valid() && p0 <= run.scanEnd
    ensures var (st, p) := Chunked(run, chunk, st0, p0, k);
            st == RunLog.After(run, st0, log)
            && RunLog.IsLog(run, st0, log, p0, if st.stopped then run.scanEnd else p, false)
  {
    hide ScanSeen, NextChunk, BufferEnd, RunLog.IsLog, RunLog.LogFrom;
    hide RunLog.Boundary, RunLog.Known, RunLog.TallyAfter, RunLog.Claims, RunLog.Halted;
    var (st, p) := Chunked(run, chunk, st0, p0, k);
    if k == 0 {
      log := [];
      RunLog.NothingLogged(run, st0);
      RunLog.NoPositions(run, st0, p0, false);
      if st.stopped { RunLog.HaltedIsLog(run, st0, log, p0, p0, false); }
    } else {
      log := ChunkedIsLogged(run, chunk, st0, p0, k - 1);
      var (before, from) := Chunked(run, chunk, st0, p0, k - 1);
      if !before.stopped && from < run.scanEnd {
        var next, end := NextChunk(run, chunk, from), BufferEnd(run, chunk, from);
        RunLog.SeenIsLogged(run, st0, log, from, next, end);
        RunLog.LogFromIsLog(run, st0, log, p0, from, next, end, false);
        log := RunLog.LogFrom(run, st0, log, from, next, end);
        if st.stopped { RunLog.HaltedIsLog(run, st0, log, p0, next, false); }
      }
    }
  }

  lemma ScanIsAccounted(run: Run, st0: State, p0: nat, hi: nat)
    requires run.Valid() && p0 <= hi <= run.scanEnd
    ensures RunLog.Accounted(run, st0, Scan(run, st0, p0, hi).tally, p0, hi, true)
  {
    hide Scan, RunLog.IsLog, RunLog.TallyAfter;
    var log := RunLog.ScanIsLogged(run, st0, p0, hi);
  }

  /**
   * The counters of a run are those of its log, and its rows stem from hits: from those that its chunks see, and where
   * the chunks see all there is, from the hits of the one pass.
   */
  lemma ChunkedIsAccounted(run: Run, chunk: nat, st0: State, p0: nat, k: nat)
    requires run.Valid() && p0 <= run.scanEnd && 1 <= chunk < U64_LIMIT
    ensures var (st, p) := Chunked(run, chunk, st0, p0, k);
            var hi := if st.stopped then run.scanEnd else p;
            && RunLog.Accounted(run, st0, st.tally, p0, hi, SeesAll(run.active, chunk))
            && RunLog.RowsStem(run, st0.tally, st.tally, p0, hi, SeesAll(run.active, chunk))
  {
    hide Scan, Chunked, SeesAll, RunLog.IsLog, RunLog.TallyAfter, RunLog.RowsStem;
    var (st, p) := Chunked(run, chunk, st0, p0, k);
    var hi := if st.stopped then run.scanEnd else p;
    if SeesAll(run.active, chunk) {
      ChunkedIsScan(run, chunk, st0, p0, k);
      ScanIsAccounted(run, st0, p0, hi);
    } else {
      var log := ChunkedIsLogged(run, chunk, st0, p0, k);
    }
    RunLog.AccountedRows(run, st0, st.tally, p0, hi, SeesAll(run.active, chunk));
  }

  // --- what a caller can check ---

  /** The sums of the table's fields stay in range, and the buffers they ask for are granted. */
  predicate SumsFit(active: seq<Signature>, chunk: nat, buffer: nat) {
    && chunk + MaxReach(active) + MaxMagicOffset(active) < Min(buffer, U64_LIMIT)
    && forall sig :: sig in active ==> Sound(sig, buffer)
  }

  lemma SumsFitIsEnough(active: seq<Signature>, chunk: nat, buffer: nat)
    requires SumsFit(active, chunk, buffer) && chunk >= 1
    ensures SeesAll(active, chunk) && Overlap(active) < Room(active, chunk) < buffer
  {
    hide SeesAll;
    CoveredLookahead(active, chunk);
  }

  /** A table of sound signatures never stops a run with an error, whatever the chunks see. */
  lemma SoundTableNeverTrips(run: Run, sizes: Sizes, st0: State, p0: nat, cancelled: seq<bool>)
    requires run.Valid() && p0 <= run.scanEnd && forall sig :: sig in run.active ==> Sound(sig, sizes.buffer)
    ensures !EngineTrips(run, sizes, st0, p0, cancelled)
  {
    hide Sound, PassTrips, NextChunk, BufferEnd, Chunked;
    forall k: nat ensures !ChunkTrips(run, sizes, st0, p0, k) {
      var (st, p) := Chunked(run, sizes.chunk, st0, p0, k);
      SoundNeverTrips(run, sizes.buffer, st, p, NextChunk(run, sizes.chunk, p), BufferEnd(run, sizes.chunk, p));
    }
  }

  lemma SumsFitNeverTrips(run: Run, sizes: Sizes, st0: State, p0: nat, cancelled: seq<bool>)
    requires run.Valid() && p0 <= run.scanEnd && SumsFit(run.active, sizes.chunk, sizes.buffer)
    ensures !EngineTrips(run, sizes, st0, p0, cancelled)
  {
    hide Sound, EngineTrips;
    SoundTableNeverTrips(run, sizes, st0, p0, cancelled);
  }

  // --- checkpoints ---

  function LastOf(start: nat, marks: seq<nat>): nat { if marks == [] then start else marks[|marks| - 1] }

  /** The text is the checkpoint of a chunk's end at `at`. */
  ghost predicate Marked(run: Run, chunk: nat, st0: State, p0: nat, text: string, at: nat)
    requires run.Valid() && p0 <= run.scanEnd
  {
    exists k: nat ::
      var (st, p) := Chunked(run, chunk, st0, p0, k);
      p == at && !st.stopped && CheckpointOf(text, at, run.scanEnd, st, run.opts.dedup)
  }

  /**
   * The installed checkpoints are those of chunks' ends, which keep at least the interval from each other and from the
   * start.
   */
  ghost predicate Installed(run: Run, sizes: Sizes, st0: State, p0: nat, texts: seq<string>, marks: seq<nat>)
    requires run.Valid() && p0 <= run.scanEnd
  {
    && |marks| == |texts|
    && forall i :: 0 <= i < |marks| ==>
         p0 <= marks[i] <= run.scanEnd && LastOf(p0, marks[..i]) + sizes.interval <= marks[i]
         && Marked(run, sizes.chunk, st0, p0, texts[i], marks[i])
  }

  /** The same, told of the one pass. */
  ghost predicate InstalledFor(run: Run, st0: State, p0: nat, interval: nat, texts: seq<string>, marks: seq<nat>)
    requires run.Valid()
  {
    && |marks| == |texts|
    && forall i :: 0 <= i < |marks| ==>
         p0 <= marks[i] <= run.scanEnd && LastOf(p0, marks[..i]) + interval <= marks[i]
         && CheckpointOf(texts[i], marks[i], run.scanEnd, Scan(run, st0, p0, marks[i]), run.opts.dedup)
  }

  lemma AtChunkEnd(run: Run, chunk: nat, st0: State, p0: nat, text: string, st: State, at: nat, k: nat)
    requires run.Valid() && p0 <= run.scanEnd && Chunked(run, chunk, st0, p0, k) == (st, at)
    requires !st.stopped && CheckpointOf(text, at, run.scanEnd, st, run.opts.dedup)
    ensures Marked(run, chunk, st0, p0, text, at)
  {
    hide CheckpointOf;
  }

  /** One more periodic checkpoint. */
  lemma InstallOne(run: Run, sizes: Sizes, st0: State, p0: nat, texts: seq<string>, marks: seq<nat>, text: string,
                   st: State, at: nat, k: nat)
    requires run.Valid() && p0 <= at <= run.scanEnd && Installed(run, sizes, st0, p0, texts, marks)
    requires LastOf(p0, marks) + sizes.interval <= at && Chunked(run, sizes.chunk, st0, p0, k) == (st, at)
    requires !st.stopped && CheckpointOf(text, at, run.scanEnd, st, run.opts.dedup)
    ensures Installed(run, sizes, st0, p0, texts + [text], marks + [at]) && LastOf(p0, marks + [at]) == at
  {
    hide Marked, CheckpointOf, Chunked;
    AtChunkEnd(run, sizes.chunk, st0, p0, text, st, at, k);
    forall i | 0 <= i < |marks| ensures (marks + [at])[..i] == marks[..i] { }
    assert (marks + [at])[..|marks|] == marks;
  }

  lemma NothingInstalled(run: Run, sizes: Sizes, st0: State, p0: nat)
    requires run.Valid() && p0 <= run.scanEnd
    ensures Chunked(run, sizes.chunk, st0, p0, 0) == (st0, p0) && Installed(run, sizes, st0, p0, [], [])
            && LastOf(p0, []) == p0
  {
  }

  // --- how a scan ends ---

  /** How a call ends: it returns, it goes round for ever, or it stops with an error. */
  datatype Ending = Returned | Diverges | Tripped

  /** The count of scanned bytes: the way from the start of the range, once a chunk was read. */
  predicate ScannedCount(run: Run, start: nat, abs: nat, bytesScanned: nat)
    requires BaseStart(run) <= start <= abs <= run.scanEnd
  {
    || bytesScanned == abs - BaseStart(run)
    || (abs == start && bytesScanned == 0)
  }

  /**
   * What is left of a scan of `k` chunks: their tally, checkpoints an interval apart, less than one interval behind the
   * last of them, and a final checkpoint of the state it ends in.
   */
  ghost predicate LeftBehind(run: Run, st0: State, p0: nat, sizes: Sizes, t: Tally, bytesScanned: nat,
                             installed: seq<string>, checkpointing: bool, k: nat, marks: seq<nat>)
    requires run.Valid() && BaseStart(run) <= p0 <= run.scanEnd
  {
    var (final, pos) := Chunked(run, sizes.chunk, st0, p0, k);
    && t == final.tally && ScannedCount(run, p0, pos, bytesScanned)
    && |installed| == (if checkpointing then |marks| + 1 else 0)
    && (checkpointing ==>
          && Installed(run, sizes, st0, p0, installed[..|marks|], marks)
          && pos < LastOf(p0, marks) + sizes.interval
          && CheckpointOf(installed[|marks|], pos, run.scanEnd, final, run.opts.dedup))
  }

  /**
   * What every run keeps: its books, its claims, counters that are those of the log of its hits, and rows that stem
   * from hits, which are those of the one pass where the chunks see all there is.
   */
  ghost predicate RunKeeps(run: Run, seed: set<seq<byte>>, chunk: nat, st0: State, p0: nat, k: nat)
    requires run.Valid() && p0 <= run.scanEnd
  {
    var (final, pos) := Chunked(run, chunk, st0, p0, k);
    var hi := if final.stopped then run.scanEnd else pos;
    && (Invariants.Inv(run, seed, st0) ==> Invariants.Inv(run, seed, final))
    && Invariants.ClaimsKept(run, st0, final)
    && RunLog.Accounted(run, st0, final.tally, p0, hi, SeesAll(run.active, chunk))
    && RunLog.RowsStem(run, st0.tally, final.tally, p0, hi, SeesAll(run.active, chunk))
  }

  lemma EveryRunKeeps(run: Run, seed: set<seq<byte>>, chunk: nat, st0: State, p0: nat, k: nat)
    requires run.Valid() && p0 <= run.scanEnd && 1 <= chunk < U64_LIMIT
    ensures RunKeeps(run, seed, chunk, st0, p0, k)
  {
    hide Chunked, SeesAll, Invariants.Inv, Invariants.ClaimsKept, RunLog.Accounted, RunLog.RowsStem;
    if Invariants.Inv(run, seed, st0) { ChunkedKeeps(run, seed, chunk, st0, p0, k); }
    ChunkedClaims(run, chunk, st0, p0, k);
    ChunkedIsAccounted(run, chunk, st0, p0, k);
  }

  /** The same, told of the one pass: it ends at `pos`, after a stop for the file limit or not. */
  ghost predicate EndsAt(run: Run, st0: State, p0: nat, sizes: Sizes, t: Tally, bytesScanned: nat,
                         installed: seq<string>, checkpointing: bool, pos: nat, stopped: bool, marks: seq<nat>)
  {
    && run.Valid() && BaseStart(run) <= p0 <= pos <= run.scanEnd
    && var final := Scan(run, st0, p0, if stopped then run.scanEnd else pos);
    && t == final.tally && stopped == final.stopped
    && ScannedCount(run, p0, pos, bytesScanned)
    && |installed| == (if checkpointing then |marks| + 1 else 0)
    && (checkpointing ==>
          && InstalledFor(run, st0, p0, sizes.interval, installed[..|marks|], marks)
          && pos < LastOf(p0, marks) + sizes.interval
          && CheckpointOf(installed[|marks|], pos, run.scanEnd, final, run.opts.dedup))
  }

  lemma InstalledInOnePass(run: Run, sizes: Sizes, st0: State, p0: nat, texts: seq<string>, marks: seq<nat>)
    requires run.Valid() && sizes.Valid() && p0 <= run.scanEnd && SeesAll(run.active, sizes.chunk)
    requires Installed(run, sizes, st0, p0, texts, marks)
    ensures InstalledFor(run, st0, p0, sizes.interval, texts, marks)
  {
    hide Scan, Chunked, SeesAll, CheckpointOf;
    forall i | 0 <= i < |marks|
      ensures CheckpointOf(texts[i], marks[i], run.scanEnd, Scan(run, st0, p0, marks[i]), run.opts.dedup)
    {
      assert Marked(run, sizes.chunk, st0, p0, texts[i], marks[i]);
      var k: nat :| var (st, p) := Chunked(run, sizes.chunk, st0, p0, k);
                    p == marks[i] && !st.stopped && CheckpointOf(texts[i], marks[i], run.scanEnd, st, run.opts.dedup);
      ChunkedIsScan(run, sizes.chunk, st0, p0, k);
    }
  }

  lemma LeftInOnePass(run: Run, st0: State, p0: nat, sizes: Sizes, t: Tally, bytesScanned: nat, installed: seq<string>,
                      checkpointing: bool, k: nat, marks: seq<nat>)
    requires run.Valid() && sizes.Valid() && BaseStart(run) <= p0 <= run.scanEnd && SeesAll(run.active, sizes.chunk)
    requires LeftBehind(run, st0, p0, sizes, t, bytesScanned, installed, checkpointing, k, marks)
    ensures var (final, pos) := Chunked(run, sizes.chunk, st0, p0, k);
            EndsAt(run, st0, p0, sizes, t, bytesScanned, installed, checkpointing, pos, final.stopped, marks)
  {
    hide Scan, Chunked, SeesAll, CheckpointOf, Installed, InstalledFor;
    ChunkedIsScan(run, sizes.chunk, st0, p0, k);
    if checkpointing { InstalledInOnePass(run, sizes, st0, p0, installed[..|marks|], marks); }
  }

  lemma EmptyScan(run: Run, st: State, p: nat)
    requires run.Valid() && p <= run.scanEnd
    ensures Scan(run, st, p, p) == st
  {
  }

  // --- the engine ---

  /** One chunk: read it, scan it, and find where the next one starts. */
  method DoChunk(run: Run, sizes: Sizes, index: SignatureIndex, stats: CarveStats, abs: nat, skipUntil0: u64,
                 seen0: set<seq<byte>>, ghost claims0: seq<Claim>)
    returns (abs': nat, skipUntil: u64, seen: set<seq<byte>>, ghost claims: seq<Claim>, stopped: bool, tripped: bool)
    requires run.Valid() && sizes.Valid() && index.Valid() && index.active == run.active && abs < run.scanEnd
    modifies stats
    ensures stats.bytesScanned == old(stats.bytesScanned) && abs' == NextChunk(run, sizes.chunk, abs)
    ensures var st := State(skipUntil0, seen0, old(stats.View()), claims0, false);
            var end := BufferEnd(run, sizes.chunk, abs);
            && (tripped <==> PassTrips(run, sizes.buffer, st, abs, abs', end))
            && (!tripped ==> State(skipUntil, seen, stats.View(), claims, stopped) == ScanSeen(run, st, abs, abs', end))
  {
    hide ScanSeen, PassTrips, MaxLeadingZeros, Bucket, PrefixMarked, MaxReach, MaxMagicOffset, Wrap, Usable;
    var overlap := Wrap(index.maxLookahead + MaxMagicOffset(run.active));
    var want := Min(run.scanEnd - abs, Wrap(sizes.chunk + overlap));
    var buf := ReadAt(run.src, abs, want);
    var scanLimit := ScanLimit(|buf|, want, abs, run.scanEnd, overlap);
    skipUntil, seen, claims, stopped, tripped :=
      ScanChunk(run, sizes, index, stats, abs, buf, scanLimit, skipUntil0, seen0, claims0);
    abs' := abs + scanLimit;
  }

  /**
   * The chunk loop of `carve_seeded`, with its periodic checkpoints. A chunk that leaves the position where it was
   * changes nothing, so that the loop goes round for ever unless it is cancelled.
   */
  method ScanChunks(run: Run, sizes: Sizes, index: SignatureIndex, stats: CarveStats, start: nat,
                    skipUntil0: u64, seen0: set<seq<byte>>, checkpointing: bool, cancelled: seq<bool>)
    returns (ending: Ending, abs: nat, skipUntil: u64, seen: set<seq<byte>>, ghost claims: seq<Claim>, stopped: bool,
             installed: seq<string>, ghost marks: seq<nat>, ghost k: nat)
    requires run.Valid() && sizes.Valid() && index.Valid() && index.active == run.active
    requires BaseStart(run) <= start <= run.scanEnd && stats.bytesScanned == 0
    modifies stats
    ensures var st0 := State(skipUntil0, seen0, old(stats.View()), [], false);
            && (ending == Diverges <==>
                  Stalls(run.active, sizes.chunk, run.scanEnd - start) && NotCancelled(cancelled, 0))
            && (ending == Tripped <==> EngineTrips(run, sizes, st0, start, cancelled))
            && start <= abs <= run.scanEnd && Installed(run, sizes, st0, start, installed, marks)
            && (if checkpointing then abs < LastOf(start, marks) + sizes.interval else installed == [])
            && (ending == Returned ==>
                  && Chunked(run, sizes.chunk, st0, start, k)
                    == (State(skipUntil, seen, stats.View(), claims, stopped), abs)
                  && ScannedCount(run, start, abs, stats.bytesScanned)
                  && (!stopped && NotCancelled(cancelled, 0) ==>
                        abs == run.scanEnd || (abs == start && Room(run.active, sizes.chunk) == 0)))
  {
    hide ScanSeen, MaxLeadingZeros, Bucket, PrefixMarked, IsCheckpoint, Installed, Room, Overlap, PassTrips,
      EngineTrips;
    hide NextChunk, BufferEnd, ChunkTrips, Chunked, LastOf, MaxReach, MaxMagicOffset, BaseStart;
    ghost var st0 := State(skipUntil0, seen0, stats.View(), [], false);
    ending, abs, skipUntil, seen, claims, stopped := Returned, start, skipUntil0, seen0, [], false;
    installed, marks, k := [], [], 0;
    var lastCheckpoint := abs;
    var poll := 0;
    NothingInstalled(run, sizes, st0, start);
    while abs < run.scanEnd
      invariant start <= abs <= run.scanEnd && !stopped && ending == Returned && index.Valid() && poll == k
      invariant Room(run.active, sizes.chunk) <= Overlap(run.active) ==> abs == start || abs == run.scanEnd
      invariant abs > start ==> !Stalls(run.active, sizes.chunk, run.scanEnd - start)
      invariant abs > start ==> Room(run.active, sizes.chunk) > 0
      invariant abs == start ==> poll == 0
      invariant stats.bytesScanned == if abs > start then abs - BaseStart(run) else 0
      invariant lastCheckpoint == LastOf(start, marks) && lastCheckpoint <= abs
      invariant if checkpointing then abs < lastCheckpoint + sizes.interval else installed == []
      invariant Chunked(run, sizes.chunk, st0, start, k) == (State(skipUntil, seen, stats.View(), claims, false), abs)
      invariant forall j: nat :: j < k ==> !ChunkTrips(run, sizes, st0, start, j)
      invariant NotCancelled(cancelled[..Min(k, |cancelled|)], 0)
      invariant Installed(run, sizes, st0, start, installed, marks)
      decreases run.scanEnd - abs
    {
      if poll < |cancelled| && cancelled[poll] {
        NoErrorBehind(run, sizes, st0, start, cancelled, k);
        return;
      }
      poll := poll + 1;
      AdvancesIff(run, sizes.chunk, abs);
      if Room(run.active, sizes.chunk) == 0 {
        NoErrorBehind(run, sizes, st0, start, cancelled, k);
        return; // an empty read
      }
      ghost var before := State(skipUntil, seen, stats.View(), claims, false);
      NextStep(run, sizes, st0, start, cancelled, k, before, abs);
      var next, tripped;
      next, skipUntil, seen, claims, stopped, tripped :=
        DoChunk(run, sizes, index, stats, abs, skipUntil, seen, claims);
      if tripped {
        ending := Tripped;
        return;
      }
      k := k + 1;
      if stopped {
        NoErrorBehind(run, sizes, st0, start, cancelled, k);
        return;
      }
      var stalled := next == abs;
      abs := next;
      stats.bytesScanned := abs - BaseStart(run);
      if stalled {
        NoErrorBehind(run, sizes, st0, start, cancelled, k);
        ending := if NotCancelled(cancelled, poll) then Diverges else Returned;
        return;
      }
      if checkpointing && abs - lastCheckpoint >= sizes.interval {
        var text := WriteCheckpoint(abs, run.scanEnd, skipUntil, stats.View(), seen, run.opts.dedup);
        InstallOne(run, sizes, st0, start, installed, marks, text, State(skipUntil, seen, stats.View(), claims, false),
                   abs, k);
        installed, marks := installed + [text], marks + [abs];
        lastCheckpoint := abs;
      }
    }
    AtTheEnd(run, sizes.chunk);
    NoErrorBehind(run, sizes, st0, start, cancelled, k);
  }

  lemma AtTheEnd(run: Run, chunk: nat)
    ensures NextChunk(run, chunk, run.scanEnd) == run.scanEnd
  {
  }

  /** What chunk `k` does, and what it means for the run if it stops with an error. */
  lemma NextStep(run: Run, sizes: Sizes, st0: State, p0: nat, cancelled: seq<bool>, k: nat, st: State, p: nat)
    requires run.Valid() && p0 <= run.scanEnd && Chunked(run, sizes.chunk, st0, p0, k) == (st, p)
    requires p < run.scanEnd && !st.stopped && NotCancelled(cancelled[..Min(k, |cancelled|)], 0)
    requires k < |cancelled| ==> !cancelled[k]
    ensures var next, end := NextChunk(run, sizes.chunk, p), BufferEnd(run, sizes.chunk, p);
            var st' := ScanSeen(run, st, p, next, end);
            && Chunked(run, sizes.chunk, st0, p0, k + 1) == (st', if st'.stopped then p else next)
            && (next == p ==> !st'.stopped)
            && (ChunkTrips(run, sizes, st0, p0, k) <==> PassTrips(run, sizes.buffer, st, p, next, end))
            && (PassTrips(run, sizes.buffer, st, p, next, end) ==>
                EngineTrips(run, sizes, st0, p0, cancelled) && next > p)
    ensures NotCancelled(cancelled[..Min(k + 1, |cancelled|)], 0)
  {
    hide NextChunk, BufferEnd, ScanSeen, TripsAt;
    NothingSeen(run, st, p, BufferEnd(run, sizes.chunk, p));
    assert ChunkTrips(run, sizes, st0, p0, k) ==> NotCancelled(cancelled[..Min(k + 1, |cancelled|)], 0);
  }

  /**
   * `carve_seeded`. The scan reads overlapping chunks of any size, jumps over blocks of zeros and may be cancelled
   * before any chunk. Its states are those of its chunks, and keep the books. Where the chunks' buffers show all there
   * is, that is the one-pass scan of the positions it got through.
   *
   * `saved` is the text of the checkpoint when the run resumes, `cancelled` the answers of the progress sink. Of the
   * checkpoints in `installed` each replaces the one before; the last is written when the scan ends.
   */
  method CarveSeeded(src: seq<byte>, active: seq<Signature>, opts: Options, oracle: Oracle, seed: set<seq<byte>>,
                     sizes: Sizes, known: set<string>, saved: Option<string>, checkpointing: bool, cancelled: seq<bool>)
    returns (ending: Ending, stats: CarveStats, installed: seq<string>)
    requires |src| < U64_LIMIT && Usable(active) && sizes.Valid()
    ensures var run := RunOf(src, active, opts, oracle);
            var loaded := if saved.Some? then Some(ReadText(known, saved.value)) else None;
            var p0, st0 := StartPos(run, loaded), StartState(seed, loaded);
            && (ending == Diverges <==> Room(active, sizes.chunk) < sizes.buffer
                                        && Stalls(active, sizes.chunk, run.scanEnd - p0) && NotCancelled(cancelled, 0))
            && (ending == Tripped <==>
                  Room(active, sizes.chunk) >= sizes.buffer || EngineTrips(run, sizes, st0, p0, cancelled))
            && (ending == Returned ==>
                  exists k: nat, marks: seq<nat> ::
                    && LeftBehind(run, st0, p0, sizes, stats.View(), stats.bytesScanned, installed, checkpointing, k,
                                  marks)
                    && RunKeeps(run, seed, sizes.chunk, st0, p0, k)
                    && var (final, pos) := Chunked(run, sizes.chunk, st0, p0, k);
                    (!final.stopped && NotCancelled(cancelled, 0) ==>
                       pos == run.scanEnd || (pos == p0 && Room(active, sizes.chunk) == 0)))
            && (ending == Returned && SeesAll(active, sizes.chunk) ==>
                  exists pos: nat, stopped: bool, marks: seq<nat> ::
                    && EndsAt(run, st0, p0, sizes, stats.View(), stats.bytesScanned, installed, checkpointing, pos,
                              stopped, marks)
                    && (!stopped && NotCancelled(cancelled, 0) ==>
                          pos == run.scanEnd || (pos == p0 && Room(active, sizes.chunk) == 0)))
  {
    hide Chunked, ReadText, MaxLeadingZeros, Bucket, PrefixMarked, IsCheckpoint, Installed, SeesAll, Stalls, Room,
      EngineTrips;
    hide RunKeeps, EndsAt, Scan;
    var run := RunOf(src, active, opts, oracle);
    var index := new SignatureIndex(active);
    stats := new CarveStats();
    installed := [];
    if Room(active, sizes.chunk) >= sizes.buffer {
      return Tripped, stats, installed;
    }
    var seen, start := seed, BaseStart(run);
    var skipUntil: u64 := 0;
    ghost var loaded: Option<Loaded> := None;
    if saved.Some? {
      var ld := ReadCheckpoint(known, saved.value);
      loaded := Some(ld);
      start := Max(start, Min(ld.pos, run.scanEnd));
      skipUntil := ld.skipUntil;
      seen := seen + ld.seen;
      stats := LoadStats(ld.tally);
    }
    ghost var claims, marks, k;
    ghost var st0, p0 := StartState(seed, loaded), StartPos(run, loaded);
    assert start == p0 && loaded == if saved.Some? then Some(ReadText(known, saved.value)) else None;
    var abs, stopped;
    ending, abs, skipUntil, seen, claims, stopped, installed, marks, k :=
      ScanChunks(run, sizes, index, stats, start, skipUntil, seen, checkpointing, cancelled);
    if ending != Returned {
      return;
    }
    SameLength(run, sizes, st0, start, installed, marks);
    if checkpointing {
      var text := WriteCheckpoint(abs, run.scanEnd, skipUntil, stats.View(), seen, opts.dedup);
      assert (installed + [text])[..|installed|] == installed;
      installed := installed + [text];
    }
    assert LeftBehind(run, st0, p0, sizes, stats.View(), stats.bytesScanned, installed, checkpointing, k, marks);
    EveryRunKeeps(run, seed, sizes.chunk, st0, p0, k);
    if SeesAll(active, sizes.chunk) {
      LeftInOnePass(run, st0, p0, sizes, stats.View(), stats.bytesScanned, installed, checkpointing, k, marks);
    }
  }

  lemma SameLength(run: Run, sizes: Sizes, st0: State, p0: nat, installed: seq<string>, marks: seq<nat>)
    requires run.Valid() && p0 <= run.scanEnd && Installed(run, sizes, st0, p0, installed, marks)
    ensures |installed| == |marks|
  {
  }
}
