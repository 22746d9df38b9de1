/**
 * The log of a scan: which hits it follows up, what becomes of each, and what state that leaves. Every entry is decided
 * by the source, the options and the entries before it, so that the log says which hits each counter counts and where
 * each row comes from.
 */
module RunLog {
  import opened Bytes
  import opened Signatures
  import opened Lengths
  import opened Carving
  import F = Fips180

  /** What becomes of a hit that is followed up and has a length. */
  datatype Fate = TooLarge | Refused | Duplicate | Written

  /** A hit at position `p`, for a file that starts at `start`. */
  datatype Event = Event(p: nat, start: nat, sig: Signature, len: nat, fate: Fate)

  type Log = seq<Event>

  // --- what a log adds up to ---

  /** The bytes of the file that the source holds. */
  function Content(run: Run, e: Event): seq<byte> { ReadAt(run.src, e.start, e.len) }

  function Count(log: Log, fate: Fate): nat {
    if log == [] then 0 else Count(log[..|log| - 1], fate) + (if log[|log| - 1].fate == fate then 1 else 0)
  }

  /** What is found inside the file is passed over, unless nesting is allowed or the file is a volume image. */
  predicate Hides(run: Run, e: Event) {
    && !run.opts.allowNested && e.fate != Refused
    && e.sig.ext !in ["erofs", "f2fs", "btrfs", "xfs", "exfat", "apfs", "refs", "ntfs", "swap", "romfs", "cramfs",
                      "jfs", "ufs", "befs", "hfsplus", "reiserfs"]
  }

  /** Files have to start here or behind: at the end of the last file that hides its inside. */
  function Boundary(run: Run, from: u64, log: Log): u64 {
    if log == [] then from
    else
      var e := log[|log| - 1];
      if Hides(run, e) then Wrap(e.start + e.len) else Boundary(run, from, log[..|log| - 1])
  }

  /** The digests that count as recovered before. */
  function Known(run: Run, seen: set<seq<byte>>, log: Log): set<seq<byte>> {
    if log == [] then seen
    else
      var e, before := log[|log| - 1], Known(run, seen, log[..|log| - 1]);
      if run.opts.dedup && e.fate == Written then before + {F.Digest(Content(run, e))} else before
  }

  /** The limit on the number of files was met when the last file was written or found to be a duplicate. */
  predicate Halted(run: Run, st0: State, log: Log) {
    st0.stopped
    || (log != [] && log[|log| - 1].fate in {Duplicate, Written} && run.opts.maxFiles.Some?
        && st0.tally.filesRecovered + Count(log, Written) >= run.opts.maxFiles.value)
  }

  /** The format's own end was seen: not so for archives, and for other formats as they say. */
  predicate EndSeen(sig: Signature) {
    !sig.extent.Zip? && !sig.extent.SevenZip? && (sig.extent.Other? ==> sig.extent.marksEnd)
  }

  /** The bytes the header check looks at, and its verdict. */
  function Verdict(run: Run, sig: Signature, start: nat, len: nat): Validity {
    run.oracle.verdict(sig, ReadAt(run.src, start, Min(len, 64)))
  }

  /** The file fills all the room that its type and the scan leave it, and nothing says that it ends there. */
  predicate Unbounded(run: Run, e: Event) {
    && !EndSeen(e.sig)
    && e.start + e.len >= Min(e.start + e.sig.maxSize, run.scanEnd)
  }

  /** The row of the file, when `count` files were recovered before. */
  function RowFor(run: Run, count: nat, e: Event): Row {
    var ext := if e.sig.ext in ["zip", "ole"] then
                 run.oracle.refine(e.sig, ReadAt(run.src, e.start, Min(e.len, 65536)))
               else e.sig.ext;
    Row(RowName(run.opts.organize, count, e.start, ext), ext, e.start, |Content(run, e)|, F.Digest(Content(run, e)),
        if |Content(run, e)| < e.len || Unbounded(run, e) then Truncated
        else if Verdict(run, e.sig, e.start, e.len) == Valid then Verified else Plausible)
  }

  function Rows(run: Run, count: nat, log: Log): (r: seq<Row>)
    ensures |r| == Count(log, Written)
  {
    if log == [] then []
    else
      var before, e := log[..|log| - 1], log[|log| - 1];
      Rows(run, count, before) + (if e.fate == Written then [RowFor(run, count + Count(before, Written), e)] else [])
  }

  function TotalSize(rows: seq<Row>): nat {
    if rows == [] then 0 else TotalSize(rows[..|rows| - 1]) + rows[|rows| - 1].size
  }

  function Graded(rows: seq<Row>, c: Confidence): nat {
    if rows == [] then 0 else Graded(rows[..|rows| - 1], c) + (if rows[|rows| - 1].confidence == c then 1 else 0)
  }

  function Claims(log: Log): seq<Claim> {
    if log == [] then []
    else
      var e := log[|log| - 1];
      Claims(log[..|log| - 1]) + (if e.fate == Refused then [] else [Claim(e.start, e.len, IsVolume(e.sig))])
  }

  /** The counters and rows of a run that started with `t` and has this log. */
  function TallyAfter(run: Run, t: Tally, log: Log): Tally {
    var rows := Rows(run, t.filesRecovered, log);
    Tally(t.files + rows, t.filesRecovered + Count(log, Written), t.bytesRecovered + TotalSize(rows),
          t.rejected + Count(log, Refused), t.duplicates + Count(log, Duplicate),
          t.skippedLarge + Count(log, TooLarge), t.verified + Graded(rows, Verified),
          t.plausible + Graded(rows, Plausible), t.truncated + Graded(rows, Truncated),
          TypesOf(t.perType, rows))
  }

  function After(run: Run, st0: State, log: Log): State {
    State(Boundary(run, st0.skipUntil, log), Known(run, st0.seen, log), TallyAfter(run, st0.tally, log),
          st0.claims + Claims(log), Halted(run, st0, log))
  }

  // --- the log itself ---

  /** What becomes of a file of this length, given the digests that were recovered before. */
  function FateOf(run: Run, known: set<seq<byte>>, sig: Signature, start: nat, len: nat): Fate {
    if run.opts.maxSize.Some? && run.opts.maxSize.value < len then TooLarge
    else if run.opts.validate && Verdict(run, sig, start, len) == Invalid then Refused
    else if run.opts.dedup && F.Digest(ReadAt(run.src, start, len)) in known then Duplicate
    else Written
  }

  /** The entry that a hit at position `p` adds, if any. */
  function EventAt(run: Run, st0: State, log: Log, p: nat, hit: Option<Signature>): Option<Event>
    requires run.Valid() && p < run.scanEnd
  {
    if Halted(run, st0, log) || hit.None? || p < hit.value.magicOffset then None
    else
      var sig, start: nat := hit.value, p - hit.value.magicOffset;
      if run.opts.align > 1 && start % run.opts.align != 0 then None
      else if !run.opts.allowNested && start < Boundary(run, st0.skipUntil, log) then None
      else
        match Length(run.oracle, run.src, sig, start, run.scanEnd)
        case None => None
        case Some(len) =>
          if len < run.opts.minSize then None
          else Some(Event(p, start, sig, len, FateOf(run, Known(run, st0.seen, log), sig, start, len)))
  }

  function Extended(log: Log, e: Option<Event>): Log { if e.Some? then log + [e.value] else log }

  /** The log `before`, continued over the positions lo..hi by a reader who sees no further than `end`. */
  function LogFrom(run: Run, st0: State, before: Log, lo: nat, hi: nat, end: nat): Log
    requires run.Valid() && hi <= end <= run.scanEnd
    decreases hi
  {
    if hi <= lo then before
    else
      var log := LogFrom(run, st0, before, lo, hi - 1, end);
      Extended(log, EventAt(run, st0, log, hi - 1, SeenAt(run, hi - 1, end)))
  }

  // --- the state that a log leaves is the state of the scan ---

  lemma NothingLogged(run: Run, st0: State)
    ensures After(run, st0, []) == st0
  {
    assert st0.tally.files + [] == st0.tally.files && st0.claims + [] == st0.claims;
  }

  /** The entry's row is the one that is written for it. */
  lemma RowsAgree(run: Run, count: nat, e: Event)
    requires e.start <= run.scanEnd
    ensures RowOf(run, count, e.sig, e.start, e.len,
                  ConfidenceOf(run, e.sig, e.start, e.len, Verdict(run, e.sig, e.start, e.len)))
         == RowFor(run, count, e)
  {
    hide F.Digest, RowName;
  }

  lemma OneMoreRow(rows: seq<Row>, row: Row, perType: map<string, nat>)
    ensures TotalSize(rows + [row]) == TotalSize(rows) + row.size
    ensures forall c :: Graded(rows + [row], c) == Graded(rows, c) + (if row.confidence == c then 1 else 0)
    ensures TypesOf(perType, rows + [row]) == Bump(TypesOf(perType, rows), row.ext)
  {
    hide Bump;
    assert (rows + [row])[..|rows|] == rows;
  }

  lemma OneMoreEvent(run: Run, st0: State, log: Log, e: Event)
    ensures forall fate :: Count(log + [e], fate) == Count(log, fate) + (if e.fate == fate then 1 else 0)
    ensures forall n: nat :: Rows(run, n, log + [e])
                     == Rows(run, n, log) + (if e.fate == Written then [RowFor(run, n + Count(log, Written), e)]
                                             else [])
    ensures Claims(log + [e])
         == Claims(log) + (if e.fate == Refused then [] else [Claim(e.start, e.len, IsVolume(e.sig))])
    ensures Known(run, st0.seen, log + [e])
         == Known(run, st0.seen, log)
            + (if run.opts.dedup && e.fate == Written then {F.Digest(Content(run, e))} else {})
    ensures Boundary(run, st0.skipUntil, log + [e])
         == if Hides(run, e) then Wrap(e.start + e.len) else Boundary(run, st0.skipUntil, log)
  {
    hide F.Digest, RowFor, Hides, Content;
    assert (log + [e])[..|log|] == log;
  }

  /** The tally after one more entry: a row is recorded, or its counter goes up by one. */
  lemma WrittenTally(run: Run, st0: State, log: Log, e: Event)
    requires e.fate == Written
    ensures var before := TallyAfter(run, st0.tally, log);
            TallyAfter(run, st0.tally, log + [e]) == Record(before, RowFor(run, before.filesRecovered, e))
  {
    hide RowFor, Bump, Rows, Count, TotalSize, Graded, TypesOf, Known, Claims, Boundary, Hides, Content;
    OneMoreEvent(run, st0, log, e);
    var t := st0.tally;
    var rows, row := Rows(run, t.filesRecovered, log), RowFor(run, t.filesRecovered + Count(log, Written), e);
    OneMoreRow(rows, row, t.perType);
    assert t.files + (rows + [row]) == t.files + rows + [row];
  }

  lemma UnwrittenTally(run: Run, st0: State, log: Log, e: Event)
    requires e.fate != Written
    ensures var before := TallyAfter(run, st0.tally, log);
            TallyAfter(run, st0.tally, log + [e])
            == before.(skippedLarge := before.skippedLarge + (if e.fate == TooLarge then 1 else 0),
                       rejected := before.rejected + (if e.fate == Refused then 1 else 0),
                       duplicates := before.duplicates + (if e.fate == Duplicate then 1 else 0))
  {
    hide RowFor, Bump, Rows, Count, TotalSize, Graded, TypesOf, Known, Claims, Boundary, Hides, Content;
    OneMoreEvent(run, st0, log, e);
    var rows := Rows(run, st0.tally.filesRecovered, log);
    assert rows + [] == rows;
  }

  lemma HidesMeans(run: Run, e: Event)
    ensures Hides(run, e) <==> !run.opts.allowNested && e.fate != Refused && !IsVolume(e.sig)
  {
  }

  /** The state after one more entry is the one that the scan makes of the hit. */
  lemma RefusedState(run: Run, st0: State, log: Log, e: Event)
    requires e.fate == Refused && !Halted(run, st0, log)
    ensures var st := After(run, st0, log);
            After(run, st0, log + [e]) == st.(tally := st.tally.(rejected := st.tally.rejected + 1))
  {
    hide TallyAfter, Count, Known, Claims, Boundary, Hides, Content;
    OneMoreEvent(run, st0, log, e);
    UnwrittenTally(run, st0, log, e);
    HidesMeans(run, e);
    assert Known(run, st0.seen, log) + {} == Known(run, st0.seen, log);
    assert st0.claims + (Claims(log) + []) == st0.claims + Claims(log);
  }

  lemma ClaimedState(run: Run, st0: State, log: Log, e: Event)
    requires e.fate != Refused && !Halted(run, st0, log)
    ensures var st, after := After(run, st0, log), After(run, st0, log + [e]);
            after == Claimed(run, st.(tally := after.tally, seen := after.seen), e.sig, e.start, e.len)
                     .(stopped := e.fate in {Duplicate, Written} && run.opts.maxFiles.Some?
                                  && after.tally.filesRecovered >= run.opts.maxFiles.value)
  {
    hide TallyAfter, Count, Known, Claims, Boundary, Hides, Content;
    OneMoreEvent(run, st0, log, e);
    HidesMeans(run, e);
    RecoveredIsCount(run, st0, log + [e]);
    var claim := Claim(e.start, e.len, IsVolume(e.sig));
    assert st0.claims + (Claims(log) + [claim]) == st0.claims + Claims(log) + [claim];
  }

  lemma RecoveredIsCount(run: Run, st0: State, log: Log)
    ensures TallyAfter(run, st0.tally, log).filesRecovered == st0.tally.filesRecovered + Count(log, Written)
  {
  }

  lemma DigestOfRow(run: Run, count: nat, e: Event, c: Confidence)
    ensures RowOf(run, count, e.sig, e.start, e.len, c).sha256 == F.Digest(Content(run, e))
  {
    hide F.Digest, RowName;
  }

  /** Writing the file gives the tally and the digests of the longer log. */
  lemma WriteStep(run: Run, st0: State, log: Log, e: Event)
    requires e.start <= run.scanEnd && e.fate in {Duplicate, Written}
    requires e.fate == Duplicate <==> run.opts.dedup && F.Digest(Content(run, e)) in Known(run, st0.seen, log)
    ensures var st, after := After(run, st0, log), After(run, st0, log + [e]);
            Write(run, st.tally, st.seen, e.sig, e.start, e.len,
                  ConfidenceOf(run, e.sig, e.start, e.len, Verdict(run, e.sig, e.start, e.len)))
            == (after.tally, after.seen)
  {
    hide TallyAfter, Known, Claims, Boundary, Halted, RowOf, RowFor, Record, F.Digest, ConfidenceOf, Content;
    var st, c := After(run, st0, log), ConfidenceOf(run, e.sig, e.start, e.len,
                                                    Verdict(run, e.sig, e.start, e.len));
    OneMoreEvent(run, st0, log, e);
    assert st.seen + {} == st.seen;
    DigestOfRow(run, st.tally.filesRecovered, e, c);
    if e.fate == Written {
      WrittenTally(run, st0, log, e);
      RowsAgree(run, st.tally.filesRecovered, e);
    } else {
      UnwrittenTally(run, st0, log, e);
    }
  }

  lemma TooLargeState(run: Run, st0: State, log: Log, e: Event)
    requires e.fate == TooLarge
    ensures var st, after := After(run, st0, log), After(run, st0, log + [e]);
            && after.tally == st.tally.(skippedLarge := st.tally.skippedLarge + 1) && after.seen == st.seen
            && Claimed(run, st.(tally := after.tally), e.sig, e.start, e.len).stopped == st.stopped
  {
    hide TallyAfter, Known, Claims, Boundary, Halted, F.Digest;
    UnwrittenTally(run, st0, log, e);
    OneMoreEvent(run, st0, log, e);
    assert Known(run, st0.seen, log) + {} == Known(run, st0.seen, log);
  }

  /** Following up a hit adds the entry that its length, size, verdict and digest decide. */
  lemma HitStep(run: Run, st0: State, log: Log, p: nat, sig: Signature, start: nat)
    requires run.Valid() && start <= run.scanEnd && !Halted(run, st0, log)
    ensures var st, found := After(run, st0, log), Length(run.oracle, run.src, sig, start, run.scanEnd);
            AtHit(run, st, sig, start)
            == if found.None? || found.value < run.opts.minSize then st
               else After(run, st0, log + [Event(p, start, sig, found.value,
                                                 FateOf(run, Known(run, st0.seen, log), sig, start, found.value))])
  {
    hide Length, TallyAfter, Known, Claims, Boundary, Claimed, Write, F.Digest, ConfidenceOf;
    var st, found := After(run, st0, log), Length(run.oracle, run.src, sig, start, run.scanEnd);
    assert !st.stopped;
    if found.Some? && found.value >= run.opts.minSize {
      var len := found.value;
      var e := Event(p, start, sig, len, FateOf(run, st.seen, sig, start, len));
      match e.fate {
        case Refused => RefusedState(run, st0, log, e);
        case TooLarge =>
          TooLargeState(run, st0, log, e);
          ClaimedState(run, st0, log, e);
        case _ =>
          WriteStep(run, st0, log, e);
          ClaimedState(run, st0, log, e);
      }
    }
  }

  /** A hit at position `p` takes the state of a log to that of the log with its entry. */
  lemma EventStep(run: Run, st0: State, log: Log, p: nat, hit: Option<Signature>)
    requires run.Valid() && p < run.scanEnd
    ensures OnHit(run, After(run, st0, log), p, hit)
         == After(run, st0, Extended(log, EventAt(run, st0, log, p, hit)))
  {
    hide Length, TallyAfter, Known, Claims, Boundary, AtHit, FateOf, Halted;
    if !Halted(run, st0, log) && hit.Some? && p >= hit.value.magicOffset {
      HitStep(run, st0, log, p, hit.value, p - hit.value.magicOffset);
    }
  }

  /** A pass over any positions takes the state of a log to that of the log continued over them. */
  lemma {:induction false} SeenIsLogged(run: Run, st0: State, before: Log, lo: nat, hi: nat, end: nat)
    requires run.Valid() && hi <= end <= run.scanEnd
    ensures ScanSeen(run, After(run, st0, before), lo, hi, end)
         == After(run, st0, LogFrom(run, st0, before, lo, hi, end))
    decreases hi
  {
    hide After, OnHit, EventAt, SeenAt;
    if lo < hi {
      SeenIsLogged(run, st0, before, lo, hi - 1, end);
      EventStep(run, st0, LogFrom(run, st0, before, lo, hi - 1, end), hi - 1, SeenAt(run, hi - 1, end));
    }
  }

  // --- what a log is, position by position ---

  /**
   * Position `p` is accounted for: the entries up to `i` are of earlier positions, entry `i` is the one that the hit at
   * `p` adds to them, if it adds any, and all others are of later positions.
   */
  predicate LoggedAt(run: Run, st0: State, log: Log, p: nat, i: nat, end: nat)
    requires run.Valid() && p < end <= run.scanEnd && i <= |log|
  {
    && (forall j :: 0 <= j < i ==> log[j].p < p)
    && match EventAt(run, st0, log[..i], p, SeenAt(run, p, end))
       case None => forall j :: i <= j < |log| ==> p < log[j].p
       case Some(e) => i < |log| && log[i] == e && forall j :: i < j < |log| ==> p < log[j].p
  }

  ghost predicate Logged(run: Run, st0: State, log: Log, p: nat, exact: bool)
    requires run.Valid()
  {
    exists i: nat, end: nat ::
      i <= |log| && p < end <= run.scanEnd && (exact ==> end == run.scanEnd) && LoggedAt(run, st0, log, p, i, end)
  }

  /** The log of the positions lo..hi, for readers who may see less than there is, or all of it. */
  ghost predicate IsLog(run: Run, st0: State, log: Log, lo: nat, hi: nat, exact: bool)
    requires run.Valid()
  {
    && (forall j :: 0 <= j < |log| ==> lo <= log[j].p < hi)
    && forall p :: lo <= p < hi ==> Logged(run, st0, log, p, exact)
  }

  lemma StillLogged(run: Run, st0: State, log: Log, e: Event, p: nat, exact: bool)
    requires run.Valid() && Logged(run, st0, log, p, exact) && p < e.p
    ensures Logged(run, st0, log + [e], p, exact)
  {
    hide EventAt, SeenAt;
    var i: nat, end: nat :|
      i <= |log| && p < end <= run.scanEnd && (exact ==> end == run.scanEnd) && LoggedAt(run, st0, log, p, i, end);
    assert (log + [e])[..i] == log[..i];
    assert LoggedAt(run, st0, log + [e], p, i, end);
  }

  lemma EventIsHere(run: Run, st0: State, log: Log, p: nat, hit: Option<Signature>)
    requires run.Valid() && p < run.scanEnd
    ensures var e := EventAt(run, st0, log, p, hit);
            e.Some? ==> e.value.p == p && !Halted(run, st0, log)
  {
    hide Halted, Known, Boundary, Length, FateOf;
  }

  /** One more position. */
  lemma LogNext(run: Run, st0: State, log: Log, lo: nat, p: nat, end: nat, exact: bool)
    requires run.Valid() && lo <= p < end <= run.scanEnd && (exact ==> end == run.scanEnd)
    requires IsLog(run, st0, log, lo, p, exact)
    ensures IsLog(run, st0, Extended(log, EventAt(run, st0, log, p, SeenAt(run, p, end))), lo, p + 1, exact)
  {
    hide EventAt, SeenAt, Logged;
    var e := EventAt(run, st0, log, p, SeenAt(run, p, end));
    var more := Extended(log, e);
    EventIsHere(run, st0, log, p, SeenAt(run, p, end));
    forall q | lo <= q < p + 1 ensures Logged(run, st0, more, q, exact) {
      if q == p {
        assert more[..|log|] == log;
        ThisIsLogged(run, st0, more, p, |log|, end, exact);
      } else if e.Some? {
        StillLogged(run, st0, log, e.value, q, exact);
      }
    }
  }

  lemma ThisIsLogged(run: Run, st0: State, log: Log, p: nat, i: nat, end: nat, exact: bool)
    requires run.Valid() && p < end <= run.scanEnd && (exact ==> end == run.scanEnd) && i <= |log|
    requires LoggedAt(run, st0, log, p, i, end)
    ensures Logged(run, st0, log, p, exact)
  {
  }

  /** A log that is continued is a log. */
  lemma {:induction false} LogFromIsLog(run: Run, st0: State, before: Log, lo: nat, mid: nat, hi: nat, end: nat,
                                        exact: bool)
    requires run.Valid() && lo <= mid <= hi <= end <= run.scanEnd && (exact ==> end == run.scanEnd)
    requires IsLog(run, st0, before, lo, mid, exact)
    ensures IsLog(run, st0, LogFrom(run, st0, before, mid, hi, end), lo, hi, exact)
    decreases hi
  {
    hide EventAt, SeenAt, IsLog;
    if mid < hi {
      LogFromIsLog(run, st0, before, lo, mid, hi - 1, end, exact);
      LogNext(run, st0, LogFrom(run, st0, before, mid, hi - 1, end), lo, hi - 1, end, exact);
    }
  }

  /** Once the limit is met nothing more is logged, so that the log is that of all positions behind. */
  lemma {:induction false} HaltedLog(run: Run, st0: State, log: Log, lo: nat, hi: nat, end: nat)
    requires run.Valid() && hi <= end <= run.scanEnd && Halted(run, st0, log)
    ensures LogFrom(run, st0, log, lo, hi, end) == log
    decreases hi
  {
    hide Halted;
    if lo < hi {
      HaltedLog(run, st0, log, lo, hi - 1, end);
      EventIsHere(run, st0, log, hi - 1, SeenAt(run, hi - 1, end));
    }
  }

  lemma HaltedIsLog(run: Run, st0: State, log: Log, lo: nat, mid: nat, exact: bool)
    requires run.Valid() && lo <= mid <= run.scanEnd && IsLog(run, st0, log, lo, mid, exact) && Halted(run, st0, log)
    ensures IsLog(run, st0, log, lo, run.scanEnd, exact)
  {
    hide IsLog, Halted, LogFrom;
    HaltedLog(run, st0, log, mid, run.scanEnd, run.scanEnd);
    LogFromIsLog(run, st0, log, lo, mid, run.scanEnd, run.scanEnd, exact);
  }

  lemma NoPositions(run: Run, st0: State, lo: nat, exact: bool)
    requires run.Valid()
    ensures IsLog(run, st0, [], lo, lo, exact)
  {
  }

  /** The one pass over lo..hi leaves the state of its log. */
  lemma ScanIsLogged(run: Run, st0: State, lo: nat, hi: nat) returns (log: Log)
    requires run.Valid() && lo <= hi <= run.scanEnd
    ensures Scan(run, st0, lo, hi) == After(run, st0, log) && IsLog(run, st0, log, lo, hi, true)
  {
    hide Scan, ScanSeen, SeenAt, HitAt, IsLog, After, LogFrom;
    log := LogFrom(run, st0, [], lo, hi, run.scanEnd);
    NoPositions(run, st0, lo, true);
    LogFromIsLog(run, st0, [], lo, lo, hi, run.scanEnd, true);
    NothingLogged(run, st0);
    SeenIsLogged(run, st0, [], lo, hi, run.scanEnd);
    forall p | lo <= p < hi ensures SeenAt(run, p, run.scanEnd) == HitAt(run, p) { ToTheEnd(run, p); }
    ScanSeenIsScan(run, st0, lo, hi, run.scanEnd);
  }

  lemma ToTheEnd(run: Run, p: nat)
    requires run.Valid() && p <= run.scanEnd
    ensures SeenAt(run, p, run.scanEnd) == HitAt(run, p)
  {
  }

  /** The tally is what the log of these positions adds up to. */
  ghost predicate Accounted(run: Run, st0: State, t: Tally, lo: nat, hi: nat, exact: bool)
    requires run.Valid()
  {
    exists log :: IsLog(run, st0, log, lo, hi, exact) && t == TallyAfter(run, st0.tally, log)
  }

  // --- what the entries mean ---

  lemma {:induction false} KnownMeans(run: Run, seen: set<seq<byte>>, log: Log, d: seq<byte>)
    ensures d in Known(run, seen, log) <==>
            || d in seen
            || (run.opts.dedup
                && exists i :: 0 <= i < |log| && log[i].fate == Written && d == F.Digest(Content(run, log[i])))
  {
    hide F.Digest, Content;
    if log != [] {
      var before := log[..|log| - 1];
      KnownMeans(run, seen, before, d);
      assert forall i :: 0 <= i < |before| ==> before[i] == log[i];
    }
  }

  lemma {:induction false} BoundaryMeans(run: Run, from: u64, log: Log, i: nat)
    requires i < |log| && Hides(run, log[i]) && forall j :: i < j < |log| ==> !Hides(run, log[j])
    ensures Boundary(run, from, log) == Wrap(log[i].start + log[i].len)
  {
    hide Hides;
    if i < |log| - 1 { BoundaryMeans(run, from, log[..|log| - 1], i); }
  }

  lemma {:induction false} NothingHides(run: Run, from: u64, log: Log)
    requires forall j :: 0 <= j < |log| ==> !Hides(run, log[j])
    ensures Boundary(run, from, log) == from
  {
    hide Hides;
    if log != [] { NothingHides(run, from, log[..|log| - 1]); }
  }

  /** The fate of a file: too large, refused for its header, known by its digest, or written. */
  predicate FateMeans(run: Run, known: set<seq<byte>>, e: Event) {
    var large := run.opts.maxSize.Some? && e.len > run.opts.maxSize.value;
    var invalid := run.opts.validate
                   && run.oracle.verdict(e.sig, ReadAt(run.src, e.start, Min(e.len, 64))) == Invalid;
    var repeated := run.opts.dedup && F.Digest(ReadAt(run.src, e.start, e.len)) in known;
    && (e.fate == TooLarge <==> large) && (e.fate == Refused <==> !large && invalid)
    && (e.fate == Duplicate <==> !large && !invalid && repeated)
    && (e.fate == Written <==> !large && !invalid && !repeated)
  }

  /** What holds of an entry: the hit, where the file starts, its length, and its fate given the entries before. */
  ghost predicate EntryMeans(run: Run, st0: State, log: Log, i: nat, end: nat)
    requires run.Valid() && i < |log| && log[i].p < end <= run.scanEnd
  {
    var e, before := log[i], log[..i];
    && SeenAt(run, e.p, end) == Some(e.sig) && e.start + e.sig.magicOffset == e.p
    && (run.opts.align > 1 ==> e.start % run.opts.align == 0)
    && (run.opts.allowNested || e.start >= Boundary(run, st0.skipUntil, before))
    && Length(run.oracle, run.src, e.sig, e.start, run.scanEnd) == Some(e.len) && e.len >= run.opts.minSize
    && !Halted(run, st0, before) && FateMeans(run, Known(run, st0.seen, before), e)
  }

  lemma EventMeans(run: Run, st0: State, log: Log, p: nat, hit: Option<Signature>)
    requires run.Valid() && p < run.scanEnd
    ensures var e := EventAt(run, st0, log, p, hit);
            e.Some? ==>
              && hit == Some(e.value.sig) && e.value.p == p && e.value.start + e.value.sig.magicOffset == p
              && (run.opts.align > 1 ==> e.value.start % run.opts.align == 0)
              && (run.opts.allowNested || e.value.start >= Boundary(run, st0.skipUntil, log))
              && Length(run.oracle, run.src, e.value.sig, e.value.start, run.scanEnd) == Some(e.value.len)
              && e.value.len >= run.opts.minSize && !Halted(run, st0, log)
              && FateMeans(run, Known(run, st0.seen, log), e.value)
  {
    hide Halted, Known, Boundary, Length, F.Digest;
  }

  /** Every entry of a log is what its hit and the entries before it make it. */
  lemma EntriesMean(run: Run, st0: State, log: Log, lo: nat, hi: nat, exact: bool, i: nat)
    requires run.Valid() && IsLog(run, st0, log, lo, hi, exact) && i < |log|
    ensures exists end: nat ::
              && log[i].p < end <= run.scanEnd && (exact ==> end == run.scanEnd)
              && EntryMeans(run, st0, log, i, end)
  {
    var p := log[i].p;
    assert Logged(run, st0, log, p, exact);
    var k: nat, end: nat :|
      k <= |log| && p < end <= run.scanEnd && (exact ==> end == run.scanEnd) && LoggedAt(run, st0, log, p, k, end);
    hide EventAt, SeenAt, Halted, Known, Boundary, Length, FateMeans, IsLog;
    assert k == i;
    EventMeans(run, st0, log[..i], p, SeenAt(run, p, end));
    assert EntryMeans(run, st0, log, i, end);
  }

  // --- there is only one log ---

  lemma EntryDecided(run: Run, st0: State, log: Log, lo: nat, hi: nat, i: nat)
    requires run.Valid() && IsLog(run, st0, log, lo, hi, true) && i < |log|
    ensures lo <= log[i].p < hi && log[i].p < run.scanEnd
    ensures EventAt(run, st0, log[..i], log[i].p, SeenAt(run, log[i].p, run.scanEnd)) == Some(log[i])
    ensures forall j :: 0 <= j < |log| ==> (log[j].p < log[i].p <==> j < i)
  {
    hide EventAt, SeenAt;
    var p := log[i].p;
    assert Logged(run, st0, log, p, true);
    var k: nat :| k <= |log| && p < run.scanEnd && LoggedAt(run, st0, log, p, k, run.scanEnd);
    assert k == i;
  }

  lemma GapDecided(run: Run, st0: State, log: Log, lo: nat, hi: nat, p: nat, i: nat)
    requires run.Valid() && IsLog(run, st0, log, lo, hi, true) && lo <= p < hi && p < run.scanEnd && i <= |log|
    requires (forall j :: 0 <= j < i ==> log[j].p < p) && (i < |log| ==> p < log[i].p)
    ensures EventAt(run, st0, log[..i], p, SeenAt(run, p, run.scanEnd)) == None
  {
    hide EventAt, SeenAt;
    assert Logged(run, st0, log, p, true);
    var k: nat :| k <= |log| && p < run.scanEnd && LoggedAt(run, st0, log, p, k, run.scanEnd);
    EventIsHere(run, st0, log[..k], p, SeenAt(run, p, run.scanEnd));
    assert k < i ==> log[k].p < p;
  }

  lemma {:induction false} SamePrefix(run: Run, st0: State, a: Log, b: Log, lo: nat, hi: nat, n: nat)
    requires run.Valid() && IsLog(run, st0, a, lo, hi, true) && IsLog(run, st0, b, lo, hi, true) && n <= |a|
    ensures n <= |b| && a[..n] == b[..n]
  {
    hide EventAt, SeenAt, IsLog;
    if n > 0 {
      var i := n - 1;
      SamePrefix(run, st0, a, b, lo, hi, i);
      EntryDecided(run, st0, a, lo, hi, i);
      assert forall j :: 0 <= j < i ==> a[..i][j] == b[..i][j];
      if i < |b| {
        EntryDecided(run, st0, b, lo, hi, i);
        if b[i].p < a[i].p {
          GapDecided(run, st0, a, lo, hi, b[i].p, i);
        } else if b[i].p > a[i].p {
          GapDecided(run, st0, b, lo, hi, a[i].p, i);
        }
      } else {
        GapDecided(run, st0, b, lo, hi, a[i].p, i);
      }
      assert a[..n] == a[..i] + [a[i]] && b[..n] == b[..i] + [b[i]];
    }
  }

  /** For readers who see all there is, positions and starting state decide the log, and with it every counter. */
  lemma OneLog(run: Run, st0: State, a: Log, b: Log, lo: nat, hi: nat)
    requires run.Valid() && IsLog(run, st0, a, lo, hi, true) && IsLog(run, st0, b, lo, hi, true)
    ensures a == b
  {
    hide IsLog;
    SamePrefix(run, st0, a, b, lo, hi, |a|);
    SamePrefix(run, st0, b, a, lo, hi, |b|);
    assert a[..|a|] == a && b[..|b|] == b;
  }

  // --- where the rows come from ---

  /** The row of a file that was found at position `p` and has this length. */
  ghost predicate Stems(run: Run, row: Row, p: nat, end: nat, sig: Signature, len: nat)
    requires run.Valid() && p < end <= run.scanEnd
  {
    && SeenAt(run, p, end) == Some(sig) && row.offset + sig.magicOffset == p
    && (run.opts.align > 1 ==> row.offset % run.opts.align == 0)
    && Length(run.oracle, run.src, sig, row.offset, run.scanEnd) == Some(len)
    && run.opts.minSize <= len && (run.opts.maxSize.Some? ==> len <= run.opts.maxSize.value)
    && row.size == Min(len, |run.src| - row.offset)
    && row.sha256 == F.Digest(run.src[row.offset..row.offset + row.size])
    && row.ext == (if sig.ext != "zip" && sig.ext != "ole" then sig.ext
                   else run.oracle.refine(sig, ReadAt(run.src, row.offset, Min(len, 65536))))
    && var verdict := run.oracle.verdict(sig, ReadAt(run.src, row.offset, Min(len, 64)));
       var ends := EndSeen(sig) || row.offset + len < Min(row.offset + sig.maxSize, run.scanEnd);
       && (run.opts.validate ==> verdict != Invalid)
       && (row.confidence == Verified <==> verdict == Valid && ends && row.size == len)
       && (row.confidence == Truncated <==> !ends || row.size < len)
  }

  /** The row is that of a hit at a position in lo..hi, and named by its place in the manifest. */
  ghost predicate StemsFrom(run: Run, row: Row, count: nat, lo: nat, hi: nat, exact: bool)
    requires run.Valid()
  {
    && row.name == RowName(run.opts.organize, count, row.offset, row.ext)
    && exists p: nat, end: nat, sig, len: nat ::
         && lo <= p < hi && p < end <= run.scanEnd && (exact ==> end == run.scanEnd)
         && Stems(run, row, p, end, sig, len)
  }

  /** Every row beyond those of `t0` stems from a hit. */
  ghost predicate RowsStem(run: Run, t0: Tally, t: Tally, lo: nat, hi: nat, exact: bool)
    requires run.Valid()
  {
    && t0.files <= t.files
    && forall i :: |t0.files| <= i < |t.files| ==>
         StemsFrom(run, t.files[i], t0.filesRecovered + (i - |t0.files|), lo, hi, exact)
  }

  lemma {:induction false} RowHasEntry(run: Run, count: nat, log: Log, k: nat) returns (i: nat)
    requires k < |Rows(run, count, log)|
    ensures i < |log| && log[i].fate == Written && Rows(run, count, log)[k] == RowFor(run, count + k, log[i])
  {
    hide RowFor;
    var before := log[..|log| - 1];
    if k < |Rows(run, count, before)| {
      i := RowHasEntry(run, count, before, k);
    } else {
      i := |log| - 1;
    }
  }

  lemma EntryRowStems(run: Run, st0: State, log: Log, i: nat, end: nat, count: nat)
    requires run.Valid() && i < |log| && log[i].p < end <= run.scanEnd
    requires EntryMeans(run, st0, log, i, end) && log[i].fate == Written
    ensures var e, row := log[i], RowFor(run, count, log[i]);
            && Stems(run, row, e.p, end, e.sig, e.len)
            && row.name == RowName(run.opts.organize, count, row.offset, row.ext)
  {
    hide F.Digest, RowName, SeenAt, Halted, Known, Boundary, Length;
    var e := log[i];
    var content := ReadAt(run.src, e.start, e.len);
    assert content == run.src[e.start..e.start + |content|];
  }

  lemma RowStems(run: Run, st0: State, log: Log, lo: nat, hi: nat, exact: bool, n: nat)
    requires run.Valid() && IsLog(run, st0, log, lo, hi, exact) && n < |Rows(run, st0.tally.filesRecovered, log)|
    ensures StemsFrom(run, Rows(run, st0.tally.filesRecovered, log)[n], st0.tally.filesRecovered + n, lo, hi, exact)
  {
    hide IsLog, Rows, RowFor, Stems, RowName, EntryMeans;
    var i := RowHasEntry(run, st0.tally.filesRecovered, log, n);
    EntriesMean(run, st0, log, lo, hi, exact, i);
    EntryInRange(run, st0, log, lo, hi, exact, i);
    var end: nat :| log[i].p < end <= run.scanEnd && (exact ==> end == run.scanEnd)
                    && EntryMeans(run, st0, log, i, end);
    EntryRowStems(run, st0, log, i, end, st0.tally.filesRecovered + n);
  }

  /** So where the tally is accounted for, every new row stems from a hit. */
  lemma AccountedRows(run: Run, st0: State, t: Tally, lo: nat, hi: nat, exact: bool)
    requires run.Valid() && Accounted(run, st0, t, lo, hi, exact)
    ensures RowsStem(run, st0.tally, t, lo, hi, exact)
  {
    hide IsLog, Rows, StemsFrom, Count;
    var log: Log :| IsLog(run, st0, log, lo, hi, exact) && t == TallyAfter(run, st0.tally, log);
    var rows := Rows(run, st0.tally.filesRecovered, log);
    assert t.files == st0.tally.files + rows;
    forall k | |st0.tally.files| <= k < |t.files|
      ensures StemsFrom(run, t.files[k], st0.tally.filesRecovered + (k - |st0.tally.files|), lo, hi, exact)
    {
      RowStems(run, st0, log, lo, hi, exact, k - |st0.tally.files|);
    }
  }

  lemma EntryInRange(run: Run, st0: State, log: Log, lo: nat, hi: nat, exact: bool, i: nat)
    requires run.Valid() && IsLog(run, st0, log, lo, hi, exact) && i < |log|
    ensures lo <= log[i].p < hi
  {
  }
}
