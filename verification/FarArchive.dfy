/** A 7-Zip header whose declared end wraps: the scan forgets the region it has just claimed, and two rows overlap. */
module FarArchive {
  import opened Bytes
  import opened Signatures
  import opened Lengths
  import opened Carving
  import opened Carver
  import F = Fips180
  import Invariants
  import Resume

  const SEVEN_ZIP: Signature :=
    Signature("7-Zip archive", "7z", [0x37, 0x7A, 0xBC, 0xAF, 0x27, 0x1C], 0, None, SevenZip, 4 * 1024 * 1024 * 1024)

  /** The next header is 2^64 - 532 bytes behind this one and has no bytes. */
  const FAR_HEADER: seq<byte> :=
    [0x37, 0x7A, 0xBC, 0xAF, 0x27, 0x1C, 0, 4, 0, 0, 0, 0, 0xEC, 0xFD, 0xFF, 0xFF, 0xFF, 0xFF, 0xFF, 0xFF,
     0, 0, 0, 0, 0, 0, 0, 0, 0, 0, 0, 0]

  /** The next header follows and has one byte. */
  const NEAR_HEADER: seq<byte> :=
    [0x37, 0x7A, 0xBC, 0xAF, 0x27, 0x1C, 0, 4, 0, 0, 0, 0, 0, 0, 0, 0, 0, 0, 0, 0,
     1, 0, 0, 0, 0, 0, 0, 0, 0, 0, 0, 0]

  /** Two KiB of zeros with the far header at 512 and the near one at 1024. */
  function TwoArchives(): (src: seq<byte>)
    ensures |src| == 2048
  {
    seq(2048, i =>
          if 512 <= i < 544 then FAR_HEADER[i - 512] else if 1024 <= i < 1056 then NEAR_HEADER[i - 1024] else 0)
  }

  /** The default options: validation on, no nesting, no deduplication. */
  const DEFAULTS: Options := Options(0, None, 0, None, None, false, true, false, false, 1)

  function RunOnTwo(oracle: Oracle): Run { RunOf(TwoArchives(), [SEVEN_ZIP], DEFAULTS, oracle) }

  /** No header validator knows archives of this type. */
  ghost predicate NoValidator(oracle: Oracle) { forall head :: oracle.verdict(SEVEN_ZIP, head) == Unknown }

  const FAR_SIZE: nat := U64_LIMIT - 500

  lemma HeaderFields()
    ensures 32 + U64Le(FAR_HEADER, 12) + U64Le(FAR_HEADER, 20) == FAR_SIZE
    ensures 32 + U64Le(NEAR_HEADER, 12) + U64Le(NEAR_HEADER, 20) == 33
  {
  }

  lemma SameField(a: seq<byte>, i: nat, b: seq<byte>, j: nat)
    requires i + 8 <= |a| && j + 8 <= |b| && a[i..i + 8] == b[j..j + 8]
    ensures U64Le(a, i) == U64Le(b, j)
  {
    var s, t := a[i..i + 8], b[j..j + 8];
    assert forall k :: 0 <= k < 8 ==> s[k] == a[i + k] && t[k] == b[j + k];
  }

  lemma DeclaredSizes()
    ensures DeclaredSize(TwoArchives(), 512) == FAR_SIZE && DeclaredSize(TwoArchives(), 1024) == 33
  {
    hide U64Le;
    var src := TwoArchives();
    HeaderFields();
    assert src[524..532] == FAR_HEADER[12..20] && src[532..540] == FAR_HEADER[20..28];
    assert src[1036..1044] == NEAR_HEADER[12..20] && src[1044..1052] == NEAR_HEADER[20..28];
    SameField(src, 524, FAR_HEADER, 12);
    SameField(src, 532, FAR_HEADER, 20);
    SameField(src, 1036, NEAR_HEADER, 12);
    SameField(src, 1044, NEAR_HEADER, 20);
  }

  lemma ArchiveMatches(window: seq<byte>)
    requires |window| >= 6 && forall k :: 0 <= k < 6 ==> window[k] == SEVEN_ZIP.magic[k]
    ensures FirstMatch([SEVEN_ZIP], window) == Some(SEVEN_ZIP)
  {
    assert window[0..6] == SEVEN_ZIP.magic;
  }

  lemma NothingMatches(window: seq<byte>)
    requires window != [] ==> window[0] != 0x37
    ensures FirstMatch([SEVEN_ZIP], window) == None
  {
    assert |window| >= 6 ==> window[0..6][0] == window[0];
    assert [SEVEN_ZIP][1..] == [];
  }

  lemma NoOtherStart(p: nat)
    requires p < 2048 && p != 512 && p != 1024
    ensures TwoArchives()[p] != 0x37
  {
    assert forall k :: 1 <= k < 32 ==> FAR_HEADER[k] != 0x37 && NEAR_HEADER[k] != 0x37;
  }

  /** The archives are found where they are, and nowhere else. */
  lemma HitsOnTwo(oracle: Oracle, p: nat)
    requires p <= 2048
    ensures HitAt(RunOnTwo(oracle), p) == if p == 512 || p == 1024 then Some(SEVEN_ZIP) else None
  {
    hide FirstMatch, TwoArchives;
    var src := TwoArchives();
    var window := src[p..2048];
    if p == 512 || p == 1024 {
      MagicStands(p);
      assert forall k :: 0 <= k < 6 ==> window[k] == src[p + k];
      ArchiveMatches(window);
    } else {
      if p < 2048 {
        NoOtherStart(p);
        assert window[0] == src[p];
      }
      NothingMatches(window);
    }
  }

  lemma MagicStands(p: nat)
    requires p == 512 || p == 1024
    ensures forall k :: 0 <= k < 6 ==> TwoArchives()[p + k] == SEVEN_ZIP.magic[k]
  {
  }

  /** What the one pass leaves: a row to the end of the source, and inside it a second one. */
  function RowsOnTwo(oracle: Oracle): seq<Row> {
    var run := RunOnTwo(oracle);
    [RowOf(run, 0, SEVEN_ZIP, 512, FAR_SIZE, Truncated), RowOf(run, 1, SEVEN_ZIP, 1024, 33, Plausible)]
  }

  lemma FirstArchive(oracle: Oracle)
    requires NoValidator(oracle)
    ensures var run := RunOnTwo(oracle);
            AtHit(run, Resume.FreshState({}), SEVEN_ZIP, 512)
            == State(12, {}, Record(EMPTY_TALLY, RowsOnTwo(oracle)[0]), [Claim(512, FAR_SIZE, false)], false)
  {
    hide RowOf, DeclaredSize, TwoArchives;
    DeclaredSizes();
    assert Record(EMPTY_TALLY, RowsOnTwo(oracle)[0]).files == [RowsOnTwo(oracle)[0]];
  }

  lemma SecondArchive(oracle: Oracle, st: State)
    requires NoValidator(oracle) && st.tally.filesRecovered == 1 && !st.stopped
    ensures var run := RunOnTwo(oracle);
            AtHit(run, st, SEVEN_ZIP, 1024)
            == State(1057, st.seen, Record(st.tally, RowsOnTwo(oracle)[1]), st.claims + [Claim(1024, 33, false)], false)
  {
    hide RowOf, DeclaredSize, TwoArchives, Record;
    DeclaredSizes();
  }

  lemma Skipped(oracle: Oracle, st: State, lo: nat, hi: nat)
    requires lo <= hi <= 2048 && !(lo <= 512 < hi) && !(lo <= 1024 < hi)
    ensures Scan(RunOnTwo(oracle), st, lo, hi) == st
  {
    hide HitAt, Scan;
    var run := RunOnTwo(oracle);
    forall p | lo <= p < hi ensures HitAt(run, p) == None { HitsOnTwo(oracle, p); }
    ScanQuiet(run, st, lo, hi);
  }

  lemma ArchiveStep(oracle: Oracle, st: State, p: nat)
    requires (p == 512 || p == 1024) && st.skipUntil <= p && !st.stopped
    ensures Scan(RunOnTwo(oracle), st, p, p + 1) == AtHit(RunOnTwo(oracle), st, SEVEN_ZIP, p)
  {
    hide HitAt, AtHit, TwoArchives;
    HitsOnTwo(oracle, p);
    assert Scan(RunOnTwo(oracle), st, p, p) == st;
  }

  lemma RowSizes(oracle: Oracle)
    ensures var rows := RowsOnTwo(oracle);
            rows[0].offset == 512 && rows[0].size == 1536 && rows[1].offset == 1024 && rows[1].size == 33
  {
    hide F.Digest, RowName, TwoArchives;
  }

  /** Two rows, the second one inside the first; the books are in order, and the regions are not disjoint. */
  lemma RowsOverlap(oracle: Oracle)
    requires NoValidator(oracle)
    ensures var run := RunOnTwo(oracle);
            var st, rows := Scan(run, Resume.FreshState({}), 0, 2048), RowsOnTwo(oracle);
            && st.tally.files == rows && st.claims == [Claim(512, FAR_SIZE, false), Claim(1024, 33, false)]
            && rows[0].offset == 512 && rows[0].size == 1536 && rows[1].offset == 1024 && rows[1].size == 33
            && !Invariants.Disjoint(st) && Invariants.Inv(run, {}, st)
  {
    hide RowOf, TwoArchives, HitAt, AtHit, Scan, Invariants.Inv;
    var run, st0 := RunOnTwo(oracle), Resume.FreshState({});
    Skipped(oracle, st0, 0, 512);
    ScanSplit(run, st0, 0, 512, 2048);
    ArchiveStep(oracle, st0, 512);
    FirstArchive(oracle);
    ScanSplit(run, st0, 512, 513, 2048);
    var st1 := AtHit(run, st0, SEVEN_ZIP, 512);
    Skipped(oracle, st1, 513, 1024);
    ScanSplit(run, st1, 513, 1024, 2048);
    ArchiveStep(oracle, st1, 1024);
    SecondArchive(oracle, st1);
    ScanSplit(run, st1, 1024, 1025, 2048);
    Skipped(oracle, AtHit(run, st1, SEVEN_ZIP, 1024), 1025, 2048);
    RowSizes(oracle);
    var st := Scan(run, st0, 0, 2048);
    assert st.claims[0].start + st.claims[0].len > st.skipUntil;
    Invariants.FreshStart(run, {});
    Invariants.ScanKeeps(run, {}, st0, 0, 2048);
  }

  lemma TableFits(sizes: Sizes)
    requires sizes.Valid() && sizes.chunk + 6 < Min(sizes.buffer, U64_LIMIT)
    ensures Usable([SEVEN_ZIP]) && SumsFit([SEVEN_ZIP], sizes.chunk, sizes.buffer)
  {
    assert [SEVEN_ZIP][..0] == [];
    assert MaxReach([SEVEN_ZIP]) == 6 && MaxMagicOffset([SEVEN_ZIP]) == 0;
  }

  /** The engine with the default options returns these rows, whatever its chunks, windows and buffers. */
  method ScanOverlaps(oracle: Oracle, sizes: Sizes, known: set<string>) returns (found: seq<Row>)
    requires NoValidator(oracle) && sizes.Valid() && sizes.chunk + 6 < Min(sizes.buffer, U64_LIMIT)
    ensures |found| == 2 && found[0].offset < found[1].offset < found[0].offset + found[0].size
  {
    hide TwoArchives, Scan, RowOf, LeftBehind, Chunked, EngineTrips, SumsFit, SeesAll, Room, Overlap, NoValidator;
    hide Invariants.Inv, Invariants.ClaimsKept, Invariants.Disjoint;
    ghost var run := RunOnTwo(oracle);
    TableFits(sizes);
    SumsFitIsEnough([SEVEN_ZIP], sizes.chunk, sizes.buffer);
    SumsFitNeverTrips(run, sizes, StartState({}, None), 0, []);
    RowsOverlap(oracle);
    var ending, stats, installed :=
      CarveSeeded(TwoArchives(), [SEVEN_ZIP], DEFAULTS, oracle, {}, sizes, known, None, false, []);
    ghost var pos: nat, stopped: bool, marks: seq<nat> :|
      && EndsAt(run, StartState({}, None), 0, sizes, stats.View(), stats.bytesScanned, installed, false, pos, stopped,
                marks)
      && (!stopped ==> pos == run.scanEnd);
    Resume.NeverStops(run, StartState({}, None), 0, if stopped then run.scanEnd else pos);
    found := stats.files;
  }
}
