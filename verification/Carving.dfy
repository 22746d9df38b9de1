/**
 * What a carving run does, byte position by byte position, without chunks, windows or skipped blocks: the specification
 * that the engine in Carver.dfy is proved against.
 */
module Carving {
  import opened Bytes
  import opened Signatures
  import opened Lengths
  import opened Text
  import F = Fips180

  datatype Confidence = Verified | Plausible | Truncated

  /** One manifest row. */
  datatype Row = Row(name: string, ext: string, offset: nat, size: nat, sha256: seq<byte>, confidence: Confidence)

  /** The counters and rows of `CarveStats`, apart from the position it reports as progress. */
  datatype Tally = Tally(
    files: seq<Row>, filesRecovered: nat, bytesRecovered: nat, rejected: nat, duplicates: nat, skippedLarge: nat,
    verified: nat, plausible: nat, truncated: nat, perType: map<string, nat>)

  const EMPTY_TALLY: Tally := Tally([], 0, 0, 0, 0, 0, 0, 0, 0, map[])

  datatype Options = Options(
    start: nat, end: Option<nat>, minSize: nat, maxSize: Option<nat>, maxFiles: Option<nat>, allowNested: bool,
    validate: bool, dedup: bool, organize: bool, align: nat)

  /** A region the scan took for a file: written, found to be a duplicate, or recognised and left for its size. */
  datatype Claim = Claim(start: nat, len: nat, volume: bool)

  /** `claims` is a history of the run that the program does not keep. */
  datatype State = State(skipUntil: u64, seen: set<seq<byte>>, tally: Tally, claims: seq<Claim>, stopped: bool)

  datatype Run = Run(src: seq<byte>, active: seq<Signature>, opts: Options, oracle: Oracle, scanEnd: nat) {
    predicate Valid() { scanEnd <= |src| < U64_LIMIT && Usable(active) }
  }

  // --- names ---

  function PadLeft(s: string, width: nat): (r: string)
    ensures |r| >= |s|
  {
    seq(Max(0, width - |s|), _ => '0') + s
  }

  function HexNumber(n: nat): (s: string)
    ensures forall i :: 0 <= i < |s| ==> IsHexDigit(s[i])
  {
    if n < 16 then [HexDigit(n)] else HexNumber(n / 16) + [HexDigit(n % 16)]
  }

  /** `{:08}_{:#016x}.{}`, behind a per-type directory when grouping. */
  function RowName(organize: bool, count: nat, fileStart: nat, ext: string): string {
    (if organize then ext + "/" else "") + PadLeft(Decimal(count), 8) + "_0x" + PadLeft(HexNumber(fileStart), 14)
    + "." + ext
  }

  // --- one candidate ---

  const HEADER_LEN: nat := 64
  const HEAD_WINDOW: nat := 0x1_0000

  /** `effective_ext`: only ZIP and OLE2 containers are looked into. */
  function EffectiveExt(run: Run, sig: Signature, fileStart: nat, len: nat): string {
    if sig.ext != "zip" && sig.ext != "ole" then sig.ext
    else run.oracle.refine(sig, ReadAt(run.src, fileStart, Min(len, HEAD_WINDOW)))
  }

  /** Strategies that return a length only when the format's own end was seen. */
  predicate EndWasMarked(extent: Extent) {
    extent.Fixed? || extent.Footer? || extent.Jpeg? || extent.SizeField? || (extent.Other? && extent.marksEnd)
  }

  function ConfidenceOf(run: Run, sig: Signature, fileStart: nat, len: nat, verdict: Validity): Confidence
    requires fileStart <= run.scanEnd
  {
    var cap := Min(fileStart + sig.maxSize, run.scanEnd) - fileStart;
    if len >= cap && !EndWasMarked(sig.extent) then Truncated
    else if verdict == Valid then Verified
    else Plausible
  }

  function Bump(perType: map<string, nat>, ext: string): map<string, nat> {
    perType[ext := (if ext in perType then perType[ext] else 0) + 1]
  }

  /** The per-type counts after more rows. */
  function TypesOf(before: map<string, nat>, files: seq<Row>): map<string, nat> {
    if files == [] then before else Bump(TypesOf(before, files[..|files| - 1]), files[|files| - 1].ext)
  }

  /** A recovered file enters the tally. */
  function Record(t: Tally, row: Row): Tally {
    t.(files := t.files + [row],
       filesRecovered := t.filesRecovered + 1,
       bytesRecovered := t.bytesRecovered + row.size,
       verified := t.verified + (if row.confidence == Verified then 1 else 0),
       plausible := t.plausible + (if row.confidence == Plausible then 1 else 0),
       truncated := t.truncated + (if row.confidence == Truncated then 1 else 0),
       perType := Bump(t.perType, row.ext))
  }

  function RowOf(run: Run, count: nat, sig: Signature, fileStart: nat, len: nat, confidence: Confidence): Row {
    var content := ReadAt(run.src, fileStart, len);
    var ext := EffectiveExt(run, sig, fileStart, len);
    Row(RowName(run.opts.organize, count, fileStart, ext), ext, fileStart, |content|, F.Digest(content),
        if |content| < len then Truncated else confidence)
  }

  /** `write_file`: a new row, or one more duplicate. */
  function Write(run: Run, t: Tally, seen: set<seq<byte>>, sig: Signature, fileStart: nat, len: nat,
                 confidence: Confidence)
    : (Tally, set<seq<byte>>)
  {
    var row := RowOf(run, t.filesRecovered, sig, fileStart, len, confidence);
    if run.opts.dedup && row.sha256 in seen then (t.(duplicates := t.duplicates + 1), seen)
    else (Record(t, row), if run.opts.dedup then seen + {row.sha256} else seen)
  }

  /**
   * The scan takes the region for a file and, unless told otherwise, looks for nothing else inside it. Where the region
   * ends is a 64-bit sum.
   */
  function Claimed(run: Run, st: State, sig: Signature, fileStart: nat, len: nat): State {
    st.(skipUntil := if !run.opts.allowNested && !IsVolume(sig) then Wrap(fileStart + len) else st.skipUntil,
        claims := st.claims + [Claim(fileStart, len, IsVolume(sig))])
  }

  function AtHit(run: Run, st: State, sig: Signature, fileStart: nat): State
    requires run.Valid() && fileStart <= run.scanEnd
  {
    match Length(run.oracle, run.src, sig, fileStart, run.scanEnd)
    case None => st
    case Some(len) =>
      if len < run.opts.minSize then st
      else if run.opts.maxSize.Some? && len > run.opts.maxSize.value then
        Claimed(run, st.(tally := st.tally.(skippedLarge := st.tally.skippedLarge + 1)), sig, fileStart, len)
      else
        var verdict := run.oracle.verdict(sig, ReadAt(run.src, fileStart, Min(len, HEADER_LEN)));
        if run.opts.validate && verdict == Invalid then st.(tally := st.tally.(rejected := st.tally.rejected + 1))
        else
          var confidence := ConfidenceOf(run, sig, fileStart, len, verdict);
          var (tally, seen) := Write(run, st.tally, st.seen, sig, fileStart, len, confidence);
          var st' := Claimed(run, st.(tally := tally, seen := seen), sig, fileStart, len);
          st'.(stopped := run.opts.maxFiles.Some? && tally.filesRecovered >= run.opts.maxFiles.value)
  }

  /** The signature the scan finds at position `p`, over everything up to the end of the scan. */
  function HitAt(run: Run, p: nat): Option<Signature>
    requires run.Valid() && p <= run.scanEnd
  {
    FirstMatch(run.active, run.src[p..run.scanEnd])
  }

  /** A hit is followed up when its file starts inside the source, on the alignment, and outside what is claimed. */
  predicate Eligible(opts: Options, skipUntil: nat, sig: Signature, p: nat) {
    && p >= sig.magicOffset
    && (opts.align <= 1 || (p - sig.magicOffset) % opts.align == 0)
    && (opts.allowNested || p - sig.magicOffset >= skipUntil)
  }

  /** What a hit at position `p`, if there is one, does to the state. */
  function OnHit(run: Run, st: State, p: nat, hit: Option<Signature>): State
    requires run.Valid() && p < run.scanEnd
  {
    if st.stopped then st
    else match hit
      case None => st
      case Some(sig) =>
        if Eligible(run.opts, st.skipUntil, sig, p) then AtHit(run, st, sig, p - sig.magicOffset) else st
  }

  /** One byte position. */
  function StepAt(run: Run, st: State, p: nat): State
    requires run.Valid() && p < run.scanEnd
  {
    OnHit(run, st, p, HitAt(run, p))
  }

  /** One pass over the positions lo..hi. */
  function Scan(run: Run, st: State, lo: nat, hi: nat): State
    requires run.Valid() && hi <= run.scanEnd
    decreases hi
  {
    if hi <= lo then st else StepAt(run, Scan(run, st, lo, hi - 1), hi - 1)
  }

  /** A pass can be cut in two anywhere. */
  lemma {:induction false} ScanSplit(run: Run, st: State, lo: nat, mid: nat, hi: nat)
    requires run.Valid() && lo <= mid <= hi <= run.scanEnd
    ensures Scan(run, st, lo, hi) == Scan(run, Scan(run, st, lo, mid), mid, hi)
    decreases hi
  {
    if mid < hi { ScanSplit(run, st, lo, mid, hi - 1); }
  }

  /** Positions without a hit change nothing. */
  lemma {:induction false} ScanQuiet(run: Run, st: State, lo: nat, hi: nat)
    requires run.Valid() && hi <= run.scanEnd && forall p :: lo <= p < hi ==> HitAt(run, p) == None
    ensures Scan(run, st, lo, hi) == st
    decreases hi
  {
    if lo < hi { ScanQuiet(run, st, lo, hi - 1); }
  }

  lemma {:induction false} ScanStopped(run: Run, st: State, lo: nat, hi: nat)
    requires run.Valid() && hi <= run.scanEnd && st.stopped
    ensures Scan(run, st, lo, hi) == st
    decreases hi
  {
    if lo < hi { ScanStopped(run, st, lo, hi - 1); }
  }

  // --- a reader who sees no further than a given end ---

  /** The signature found at position `p` by a reader who sees no further than `end`. */
  function SeenAt(run: Run, p: nat, end: nat): Option<Signature>
    requires p <= end <= |run.src|
  {
    FirstMatch(run.active, run.src[p..end])
  }

  /** One pass over the positions lo..hi by such a reader. */
  function ScanSeen(run: Run, st: State, lo: nat, hi: nat, end: nat): State
    requires run.Valid() && hi <= end <= run.scanEnd
    decreases hi
  {
    if hi <= lo then st else OnHit(run, ScanSeen(run, st, lo, hi - 1, end), hi - 1, SeenAt(run, hi - 1, end))
  }

  /** Where the reader sees at every position what there is, the pass is the whole pass. */
  lemma {:induction false} ScanSeenIsScan(run: Run, st: State, lo: nat, hi: nat, end: nat)
    requires run.Valid() && hi <= end <= run.scanEnd
             && forall p :: lo <= p < hi ==> SeenAt(run, p, end) == HitAt(run, p)
    ensures ScanSeen(run, st, lo, hi, end) == Scan(run, st, lo, hi)
    decreases hi
  {
    hide OnHit, SeenAt, HitAt;
    if lo < hi { ScanSeenIsScan(run, st, lo, hi - 1, end); }
  }

  lemma NothingSeen(run: Run, st: State, p: nat, end: nat)
    requires run.Valid() && p <= end <= run.scanEnd
    ensures ScanSeen(run, st, p, p, end) == st
  {
  }

  lemma {:induction false} SeenStopped(run: Run, st: State, lo: nat, mid: nat, hi: nat, end: nat)
    requires run.Valid() && lo <= mid <= hi <= end <= run.scanEnd && ScanSeen(run, st, lo, mid, end).stopped
    ensures ScanSeen(run, st, lo, hi, end) == ScanSeen(run, st, lo, mid, end)
    decreases hi
  {
    if mid < hi { SeenStopped(run, st, lo, mid, hi - 1, end); }
  }

  lemma {:induction false} SeenQuiet(run: Run, st: State, lo: nat, mid: nat, hi: nat, end: nat)
    requires run.Valid() && lo <= mid <= hi <= end <= run.scanEnd
    requires forall p :: mid <= p < hi ==> SeenAt(run, p, end) == None
    ensures ScanSeen(run, st, lo, hi, end) == ScanSeen(run, st, lo, mid, end)
    decreases hi
  {
    hide SeenAt;
    if mid < hi { SeenQuiet(run, st, lo, mid, hi - 1, end); }
  }
}
