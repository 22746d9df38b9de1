/** An interrupted scan that is resumed from its checkpoint ends like an uninterrupted one. */
module Resume {
  import opened Bytes
  import opened Signatures
  import opened Lengths
  import opened Text
  import opened Carving
  import opened Checkpoint
  import opened CheckpointRoundTrip
  import opened Carver
  import Invariants
  import F = Fips180

  // --- what a checkpoint does not keep never influences the scan ---

  /** The scan's past that later positions do not depend on: rows, per-type counts, oversized files, claims. */
  datatype Past = Past(files: seq<Row>, perType: map<string, nat>, skippedLarge: nat, claims: seq<Claim>)

  function PastOf(st: State): Past { Past(st.tally.files, st.tally.perType, st.tally.skippedLarge, st.claims) }

  /** The state that goes on from `st` as if it had no past. */
  function Forget(st: State): State {
    st.(tally := st.tally.(files := [], perType := map[], skippedLarge := 0), claims := [])
  }

  /** What was found since, put behind a past. */
  function Graft(past: Past, st: State): State {
    st.(tally := st.tally.(files := past.files + st.tally.files, perType := TypesOf(past.perType, st.tally.files),
                           skippedLarge := past.skippedLarge + st.tally.skippedLarge),
        claims := past.claims + st.claims)
  }

  lemma ForgetAndGraft(st: State)
    ensures Graft(PastOf(st), Forget(st)) == st
  {
    assert st.tally.files + [] == st.tally.files && st.claims + [] == st.claims;
  }

  lemma GraftWrite(run: Run, past: Past, st: State, sig: Signature, fileStart: nat, len: nat, c: Confidence)
    ensures Write(run, Graft(past, st).tally, st.seen, sig, fileStart, len, c)
         == var (t, seen) := Write(run, st.tally, st.seen, sig, fileStart, len, c);
            (Graft(past, st.(tally := t)).tally, seen)
  {
    hide RowOf, Bump;
    var row := RowOf(run, st.tally.filesRecovered, sig, fileStart, len, c);
    assert (st.tally.files + [row])[..|st.tally.files|] == st.tally.files;
    assert (past.files + st.tally.files) + [row] == past.files + (st.tally.files + [row]);
  }

  lemma GraftClaim(run: Run, past: Past, st: State, sig: Signature, fileStart: nat, len: nat)
    ensures Claimed(run, Graft(past, st), sig, fileStart, len) == Graft(past, Claimed(run, st, sig, fileStart, len))
  {
    var claim := Claim(fileStart, len, IsVolume(sig));
    assert (past.claims + st.claims) + [claim] == past.claims + (st.claims + [claim]);
  }

  lemma GraftHit(run: Run, past: Past, st: State, sig: Signature, fileStart: nat)
    requires run.Valid() && fileStart <= run.scanEnd
    ensures AtHit(run, Graft(past, st), sig, fileStart) == Graft(past, AtHit(run, st, sig, fileStart))
  {
    hide Write, Length, ConfidenceOf, TypesOf, Claimed;
    var found := Length(run.oracle, run.src, sig, fileStart, run.scanEnd);
    if found.Some? {
      var len := found.value;
      var verdict := run.oracle.verdict(sig, ReadAt(run.src, fileStart, Min(len, HEADER_LEN)));
      var c := ConfidenceOf(run, sig, fileStart, len, verdict);
      var (t, seen) := Write(run, st.tally, st.seen, sig, fileStart, len, c);
      GraftWrite(run, past, st, sig, fileStart, len, c);
      GraftClaim(run, past, st.(tally := t, seen := seen), sig, fileStart, len);
      GraftClaim(run, past, st.(tally := st.tally.(skippedLarge := st.tally.skippedLarge + 1)), sig, fileStart, len);
    }
  }

  /** Scanning on from a state is scanning on without its past and putting the past in front afterwards. */
  lemma {:induction false} GraftScan(run: Run, past: Past, st: State, lo: nat, hi: nat)
    requires run.Valid() && hi <= run.scanEnd
    ensures Scan(run, Graft(past, st), lo, hi) == Graft(past, Scan(run, st, lo, hi))
    decreases hi
  {
    hide AtHit, HitAt, Graft, Eligible;
    GraftKeepsControl(past, st);
    if lo < hi {
      GraftScan(run, past, st, lo, hi - 1);
      var prev := Scan(run, st, lo, hi - 1);
      GraftKeepsControl(past, prev);
      EligibleInRange(run.opts, prev.skipUntil, hi - 1);
      var found := HitAt(run, hi - 1);
      if !prev.stopped && found.Some? && Eligible(run.opts, prev.skipUntil, found.value, hi - 1) {
        GraftHit(run, past, prev, found.value, hi - 1 - found.value.magicOffset);
      }
    }
  }

  lemma GraftKeepsControl(past: Past, st: State)
    ensures Graft(past, st).stopped == st.stopped && Graft(past, st).skipUntil == st.skipUntil
  {
  }

  // --- everything a run puts into a checkpoint fits its lines ---

  /**
   * What the program's types and its signature table give: sizes in 64 bits, and extensions without blanks or line
   * breaks.
   */
  ghost predicate Writable(run: Run) {
    && |run.src| < U64_LIMIT
    && (forall sig :: sig in run.active ==> IsToken(sig.ext))
    && (forall sig, head :: IsToken(run.oracle.refine(sig, head)))
  }

  ghost predicate StateFits(st: State) { forall row :: row in st.tally.files ==> RowFits(row) }

  lemma NameHasNoBreak(organize: bool, count: nat, fileStart: nat, ext: string)
    requires '\n' !in ext
    ensures '\n' !in RowName(organize, count, fileStart, ext)
  {
    hide Decimal, HexNumber;
    assert !IsDigit('\n') && !IsHexDigit('\n');
  }

  lemma RowOfFits(run: Run, count: nat, sig: Signature, fileStart: nat, len: nat, c: Confidence)
    requires Writable(run) && sig in run.active && fileStart <= |run.src|
    ensures RowFits(RowOf(run, count, sig, fileStart, len, c))
  {
    hide F.Digest, RowName;
    NameHasNoBreak(run.opts.organize, count, fileStart, EffectiveExt(run, sig, fileStart, len));
  }

  lemma HitFits(run: Run, st: State, sig: Signature, fileStart: nat)
    requires run.Valid() && Writable(run) && sig in run.active && fileStart <= run.scanEnd && StateFits(st)
    ensures StateFits(AtHit(run, st, sig, fileStart))
  {
    hide Length, ConfidenceOf, RowOf, RowFits;
    var found := Length(run.oracle, run.src, sig, fileStart, run.scanEnd);
    if found.Some? {
      var len := found.value;
      var verdict := run.oracle.verdict(sig, ReadAt(run.src, fileStart, Min(len, HEADER_LEN)));
      RowOfFits(run, st.tally.filesRecovered, sig, fileStart, len, ConfidenceOf(run, sig, fileStart, len, verdict));
    }
  }

  lemma {:induction false} ScanFits(run: Run, st: State, lo: nat, hi: nat)
    requires run.Valid() && Writable(run) && hi <= run.scanEnd && StateFits(st)
    ensures StateFits(Scan(run, st, lo, hi))
    decreases hi
  {
    hide AtHit, StateFits, Writable;
    if lo < hi {
      ScanFits(run, st, lo, hi - 1);
      var prev := Scan(run, st, lo, hi - 1);
      var found := HitAt(run, hi - 1);
      if !prev.stopped && found.Some? && Eligible(run.opts, prev.skipUntil, found.value, hi - 1) {
        HitFits(run, prev, found.value, hi - 1 - found.value.magicOffset);
      }
    }
  }

  // --- resuming ---

  /** The counters' machine width. */
  predicate CountersFit(t: Tally) {
    && t.filesRecovered < U64_LIMIT && t.bytesRecovered < U64_LIMIT && t.rejected < U64_LIMIT
      && t.duplicates < U64_LIMIT
    && t.verified < U64_LIMIT && t.plausible < U64_LIMIT && t.truncated < U64_LIMIT
  }

  predicate AllKnown(known: set<string>, files: seq<Row>) { forall row :: row in files ==> row.ext in known }

  function FreshState(seed: set<seq<byte>>): State { State(0, seed, EMPTY_TALLY, [], false) }

  /** The past a reader of the checkpoint starts with. */
  function RestoredPast(known: set<string>, st: State): Past {
    Past(Kept(known, st.tally.files), TypesOf(map[], Kept(known, st.tally.files)), 0, [])
  }

  /** Digests in `seen` are whole, and reading them back with the seed gives the same set. */
  lemma SeenSurvives(run: Run, seed: set<seq<byte>>, st: State)
    requires Invariants.Inv(run, seed, st) && forall d :: d in seed ==> |d| == 32
    ensures (forall d :: d in st.seen ==> |d| == 32)
    ensures seed + (if run.opts.dedup then st.seen else {}) == st.seen
  {
    hide F.Digest;
    assert forall i :: 0 <= i < |st.tally.files| ==> |st.tally.files[i].sha256| == 32;
  }

  /** The state a resumed run starts in: the interrupted one, with the past that survived. */
  lemma RestartState(run: Run, known: set<string>, seed: set<seq<byte>>, k: nat, st: State, text: string)
    requires run.Valid() && Invariants.Inv(run, seed, st) && (forall d :: d in seed ==> |d| == 32)
    requires k <= run.scanEnd && |run.src| < U64_LIMIT && StateFits(st) && CountersFit(st.tally) && !st.stopped
    requires CheckpointOf(text, k, run.scanEnd, st, run.opts.dedup)
    ensures ReadText(known, text).pos == k
    ensures StartState(seed, Some(ReadText(known, text))) == Graft(RestoredPast(known, st), Forget(st))
  {
    hide ReadText, Kept, Invariants.Inv, CheckpointLines, Join, RowFits;
    SeenSurvives(run, seed, st);
    var order :| SetOf(order) == (if run.opts.dedup then st.seen else {})
                 && text == Join(CheckpointLines(k, run.scanEnd, st.skipUntil, st.tally, order));
    forall d | d in order ensures |d| == 32 { assert d in SetOf(order); }
    RoundTrip(known, k, run.scanEnd, st.skipUntil, st.tally, order);
    var kept := Kept(known, st.tally.files);
    assert kept + [] == kept;
  }

  /**
   * The uninterrupted and the resumed run differ in nothing but the past that is put in front of what is found later.
   */
  lemma OneLaterScan(run: Run, known: set<string>, seed: set<seq<byte>>, st0: State, p0: nat, k: nat, text: string,
                     hi: nat)
    requires run.Valid() && Writable(run) && BaseStart(run) <= p0 <= k <= hi <= run.scanEnd
    requires Invariants.Inv(run, seed, st0) && StateFits(st0) && forall d :: d in seed ==> |d| == 32
    requires var mid := Scan(run, st0, p0, k);
             !mid.stopped && CountersFit(mid.tally) && CheckpointOf(text, k, run.scanEnd, mid, run.opts.dedup)
    ensures var ld, mid := ReadText(known, text), Scan(run, st0, p0, k);
            var later := Scan(run, Forget(mid), k, hi);
            && StartPos(run, Some(ld)) == k
            && Scan(run, st0, p0, hi) == Graft(PastOf(mid), later)
            && Scan(run, StartState(seed, Some(ld)), k, hi) == Graft(RestoredPast(known, mid), later)
  {
    hide Scan, ReadText, CheckpointOf, Invariants.Inv, StateFits, Writable, Kept, Graft, Forget, PastOf, StartState;
    var mid := Scan(run, st0, p0, k);
    Invariants.ScanKeeps(run, seed, st0, p0, k);
    ScanFits(run, st0, p0, k);
    RestartState(run, known, seed, k, mid, text);
    ScanSplit(run, st0, p0, k, hi);
    ForgetAndGraft(mid);
    GraftScan(run, PastOf(mid), Forget(mid), k, hi);
    GraftScan(run, RestoredPast(known, mid), Forget(mid), k, hi);
  }

  /**
   * Resume is transparent. Whatever the position the checkpoint was written at, by a fresh run or by one that was
   * itself resumed with all its rows, a resumed run ends with the position, the skip boundary, the dedup set and the
   * counters of the uninterrupted run; the oversized files, which the checkpoint does not keep, add up. Its manifest
   * and per-type counts are those of the uninterrupted run exactly when the signature table resolves the extension of
   * every row written so far.
   */
  lemma ResumeIsTransparent(run: Run, known: set<string>, seed: set<seq<byte>>, st0: State, p0: nat, k: nat,
                            text: string)
    requires run.Valid() && Writable(run) && BaseStart(run) <= p0 <= k <= run.scanEnd
             && forall d :: d in seed ==> |d| == 32
    requires Invariants.Inv(run, seed, st0) && StateFits(st0)
    requires var mid := Scan(run, st0, p0, k);
             !mid.stopped && CountersFit(mid.tally) && CheckpointOf(text, k, run.scanEnd, mid, run.opts.dedup)
    ensures var ld, mid := ReadText(known, text), Scan(run, st0, p0, k);
            var full := Scan(run, st0, p0, run.scanEnd);
            var resumed := Scan(run, StartState(seed, Some(ld)), StartPos(run, Some(ld)), run.scanEnd);
            && StartPos(run, Some(ld)) == k
            && resumed.(tally := full.tally, claims := full.claims) == full
            && resumed.tally.(files := full.tally.files, perType := full.tally.perType,
                              skippedLarge := full.tally.skippedLarge)
               == full.tally
            && mid.tally.skippedLarge + resumed.tally.skippedLarge == full.tally.skippedLarge
            && mid.claims + resumed.claims == full.claims
            && (resumed.tally.files == full.tally.files <==> AllKnown(known, mid.tally.files))
            && (AllKnown(known, mid.tally.files) ==> resumed.tally.perType == full.tally.perType)
  {
    hide Scan, ReadText, CheckpointOf, Invariants.Inv, StateFits, Writable, Kept, StartState;
    var mid := Scan(run, st0, p0, k);
    Invariants.ScanKeeps(run, seed, st0, p0, k);
    OneLaterScan(run, known, seed, st0, p0, k, text, run.scanEnd);
    KeptIsAll(known, mid.tally.files);
    TypesAreCounted(run, seed, mid);
    SamePrefix(Kept(known, mid.tally.files), mid.tally.files, Scan(run, Forget(mid), k, run.scanEnd).tally.files);
  }

  /** With one past for another that lists fewer rows, or the same, the books balance exactly if it is the same. */
  lemma BooksBalanceIff(run: Run, seed: set<seq<byte>>, known: set<string>, mid: State, later: State)
    requires Invariants.Inv(run, seed, Graft(PastOf(mid), later)) && Invariants.Inv(run, seed, mid)
    ensures Invariants.Inv(run, seed, Graft(RestoredPast(known, mid), later)) <==> AllKnown(known, mid.tally.files)
  {
    hide Kept, Invariants.Consistent, Invariants.Genuine, Invariants.Deduplicated;
    var kept := Kept(known, mid.tally.files);
    var full, resumed := Graft(PastOf(mid), later), Graft(RestoredPast(known, mid), later);
    KeptIsAll(known, mid.tally.files);
    if kept == mid.tally.files {
      TypesAreCounted(run, seed, mid);
      assert resumed.tally == full.tally.(skippedLarge := later.tally.skippedLarge);
      SameBooks(full.tally, later.tally.skippedLarge);
    } else {
      FewerRows(known, mid.tally.files);
      Unbalanced(full.tally, resumed.tally);
    }
  }

  lemma SameBooks(t: Tally, skippedLarge: nat)
    requires Invariants.Consistent(t)
    ensures Invariants.Consistent(t.(skippedLarge := skippedLarge))
  {
  }

  lemma Unbalanced(full: Tally, resumed: Tally)
    requires Invariants.Consistent(full) && resumed.filesRecovered == full.filesRecovered
             && |resumed.files| < |full.files|
    ensures !Invariants.Consistent(resumed)
  {
  }

  lemma {:induction false} FewerRows(known: set<string>, files: seq<Row>)
    requires Kept(known, files) != files
    ensures |Kept(known, files)| < |files|
  {
    if files != [] {
      var front, last := files[..|files| - 1], files[|files| - 1];
      KeptIsAll(known, front);
      assert files == front + [last];
      if Kept(known, front) != front { FewerRows(known, front); }
    }
  }

  /** Disjoint claims stay so without the first ones. */
  lemma FewerClaims(full: State, resumed: State, n: nat)
    requires Invariants.Disjoint(full) && n <= |full.claims| && resumed.claims == full.claims[n..]
    requires resumed.skipUntil == full.skipUntil && resumed.tally.files == full.tally.files
    ensures Invariants.Disjoint(resumed)
  {
    assert forall i :: 0 <= i < |resumed.claims| ==> resumed.claims[i] == full.claims[n + i];
  }

  /**
   * The books of a run balance on after it is resumed, where it starts and after any number of positions, exactly when
   * the signature table resolves the extension of every row written before: otherwise the counters speak of more rows
   * than there are. Then the regions are disjoint, too, if those of the uninterrupted run are.
   */
  lemma ResumedInvariantIff(run: Run, known: set<string>, seed: set<seq<byte>>, st0: State, p0: nat, k: nat,
                            text: string, hi: nat)
    requires run.Valid() && Writable(run) && BaseStart(run) <= p0 <= k <= hi <= run.scanEnd
             && forall d :: d in seed ==> |d| == 32
    requires Invariants.Inv(run, seed, st0) && StateFits(st0)
    requires var mid := Scan(run, st0, p0, k);
             !mid.stopped && CountersFit(mid.tally) && CheckpointOf(text, k, run.scanEnd, mid, run.opts.dedup)
    ensures var ld, mid := ReadText(known, text), Scan(run, st0, p0, k);
            var full, resumed := Scan(run, st0, p0, hi), Scan(run, StartState(seed, Some(ld)), k, hi);
            && (Invariants.Inv(run, seed, resumed) <==> AllKnown(known, mid.tally.files))
            && (AllKnown(known, mid.tally.files) && Invariants.Disjoint(full) ==> Invariants.Disjoint(resumed))
  {
    hide Scan, ReadText, CheckpointOf, Invariants.Inv, Invariants.Disjoint, StateFits, Writable, Kept, StartState;
    var mid := Scan(run, st0, p0, k);
    Invariants.ScanKeeps(run, seed, st0, p0, k);
    Invariants.ScanKeeps(run, seed, st0, p0, hi);
    OneLaterScan(run, known, seed, st0, p0, k, text, hi);
    var later := Scan(run, Forget(mid), k, hi);
    BooksBalanceIff(run, seed, known, mid, later);
    KeptIsAll(known, mid.tally.files);
    if AllKnown(known, mid.tally.files) && Invariants.Disjoint(Graft(PastOf(mid), later)) {
      FewerClaims(Graft(PastOf(mid), later), Graft(RestoredPast(known, mid), later), |mid.claims|);
    }
  }

  /** A fresh run starts in a state that the lemmas above ask for. */
  lemma FreshFits(run: Run, seed: set<seq<byte>>)
    ensures StateFits(FreshState(seed)) && Invariants.Inv(run, seed, FreshState(seed))
  {
    Invariants.FreshStart(run, seed);
  }

  lemma TypesAreCounted(run: Run, seed: set<seq<byte>>, st: State)
    requires Invariants.Inv(run, seed, st)
    ensures st.tally.perType == TypesOf(map[], st.tally.files)
  {
  }

  lemma SamePrefix(a: seq<Row>, b: seq<Row>, x: seq<Row>)
    ensures a + x == b + x <==> a == b
  {
    if a + x == b + x {
      assert a == (a + x)[..|a|] && b == (b + x)[..|b|];
    }
  }

  lemma {:induction false} NeverStops(run: Run, st: State, lo: nat, hi: nat)
    requires run.Valid() && hi <= run.scanEnd && run.opts.maxFiles.None? && !st.stopped
    ensures !Scan(run, st, lo, hi).stopped
    decreases hi
  {
    hide HitAt, Write, Length, ConfidenceOf, Eligible;
    if lo < hi {
      NeverStops(run, st, lo, hi - 1);
      EligibleInRange(run.opts, Scan(run, st, lo, hi - 1).skipUntil, hi - 1);
    }
  }

  /**
   * Two calls of the engine, the first cancelled anywhere and the second resumed from its last checkpoint with other
   * chunk, window and buffer sizes, leave the tally of a single uninterrupted pass.
   */
  method InterruptedThenResumed(src: seq<byte>, active: seq<Signature>, opts: Options, oracle: Oracle,
                                seed: set<seq<byte>>, first: Sizes, second: Sizes, known: set<string>,
                                cancelled: seq<bool>)
    returns (stats: CarveStats)
    requires |src| < U64_LIMIT && Usable(active) && first.Valid() && second.Valid() && opts.maxFiles.None?
    requires forall d :: d in seed ==> |d| == 32
    requires SumsFit(active, first.chunk, first.buffer) && SumsFit(active, second.chunk, second.buffer)
    requires Writable(RunOf(src, active, opts, oracle))
    requires var run := RunOf(src, active, opts, oracle);
             forall k :: BaseStart(run) <= k <= run.scanEnd ==>
               var t := Scan(run, FreshState(seed), BaseStart(run), k).tally; CountersFit(t) && AllKnown(known, t.files)
    ensures var run := RunOf(src, active, opts, oracle);
            var full := Scan(run, FreshState(seed), BaseStart(run), run.scanEnd).tally;
            stats.View().(skippedLarge := full.skippedLarge) == full
  {
    hide Scan, ReadText, IsCheckpoint, Writable, InstalledFor, Room, Overlap, SeesAll, SumsFit, EngineTrips;
    hide LeftBehind, Chunked, Usable, MaxReach, MaxMagicOffset, ScannedCount;
    hide RunKeeps, Invariants.ClaimsKept, Invariants.Inv, StateFits;
    SumsFitIsEnough(active, first.chunk, first.buffer);
    SumsFitIsEnough(active, second.chunk, second.buffer);
    ghost var run := RunOf(src, active, opts, oracle);
    ghost var base, fresh' := BaseStart(run), FreshState(seed);
    SumsFitNeverTrips(run, first, fresh', base, cancelled);
    var ending, s1, texts := CarveSeeded(src, active, opts, oracle, seed, first, known, None, true, cancelled);
    ghost var pos: nat, stopped: bool, marks: seq<nat> :|
      EndsAt(run, fresh', base, first, s1.View(), s1.bytesScanned, texts, true, pos, stopped, marks);
    NeverStops(run, fresh', base, pos);
    NeverStops(run, fresh', base, run.scanEnd);
    var text := texts[|texts| - 1];
    ghost var loaded := Some(ReadText(known, text));
    SumsFitNeverTrips(run, second, StartState(seed, loaded), StartPos(run, loaded), []);
    var none;
    ending, stats, none := CarveSeeded(src, active, opts, oracle, seed, second, known, Some(text), false, []);
    FreshFits(run, seed);
    ResumeIsTransparent(run, known, seed, fresh', base, pos, text);
  }
}
