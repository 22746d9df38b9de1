/**
 * Custom carvers whose 64-bit fields do not fit the engine's sums: accepted by `Spec::parse`, and what a scan with them
 * does. Those that stall, blind or stop a scan break a clause of `Carver.SumsFit`, the check that rules them all out.
 */
module Widths {
  import opened Bytes
  import opened Footer
  import opened Signatures
  import opened Lengths
  import opened Text
  import opened Custom
  import opened Carving
  import opened Carver
  import EndToEnd
  import F = Fips180
  import Resume

  /** `SCAN_CHUNK`. */
  const SCAN_CHUNK: nat := 8 * 1024 * 1024

  const FIXED_JSON: Json := Obj(map["strategy" := Str("fixed"), "size" := Num(Some(1))])

  function FooterJson(marker: seq<byte>, trailing: u64): Json {
    Obj(map["strategy" := Str("footer"), "marker" := Str(ToHex(marker)), "trailing" := Num(Some(trailing))])
  }

  function FieldJson(offset: u64): Json {
    Obj(map["strategy" := Str("size_field"), "offset" := Num(Some(offset)), "width" := Num(Some(8))])
  }

  function SecondaryJson(offset: u64, tag: seq<byte>): Json {
    Obj(map["offset" := Num(Some(offset)), "bytes" := Str(ToHex(tag))])
  }

  /** A spec as it may stand in a request. */
  function SpecJson(magic: seq<byte>, magicOffset: u64, secondary: Option<(u64, seq<byte>)>, length: Json): Json {
    var fields := map["name" := Str("custom"), "ext" := Str("bin"), "magic" := Str(ToHex(magic)),
                      "magic_offset" := Num(Some(magicOffset)), "max_size" := Num(Some(4096)), "length" := length];
    Obj(match secondary
        case None => fields
        case Some((offset, tag)) => fields["secondary" := SecondaryJson(offset, tag)])
  }

  function SpecOf(magic: seq<byte>, magicOffset: u64, secondary: Option<(u64, seq<byte>)>, extent: Extent): Signature {
    Signature("custom", "bin", magic, magicOffset,
              match secondary case None => None case Some((offset, tag)) => Some((offset, tag)), extent, 4096)
  }

  lemma HexIsAccepted(key: string, bytes: seq<byte>)
    requires bytes != []
    ensures NonEmptyHex(key, ToHex(bytes)) == Accepted(bytes)
  {
    ParseInvertsToHex(bytes);
  }

  lemma SecondaryIsAccepted(item: Json, secondary: Option<(u64, seq<byte>)>)
    requires match secondary
             case None => Get(item, "secondary") == None
             case Some((offset, tag)) => tag != [] && Get(item, "secondary") == Some(SecondaryJson(offset, tag))
    ensures ParseSecondary(item)
         == Accepted(match secondary case None => None case Some((offset, tag)) => Some((offset, tag)))
  {
    hide NonEmptyHex, ToHex;
    if secondary.Some? { HexIsAccepted("secondary.bytes", secondary.value.1); }
  }

  /** Nothing in a spec's fields is checked against another: any offsets are accepted. */
  lemma SpecIsAccepted(magic: seq<byte>, magicOffset: u64, secondary: Option<(u64, seq<byte>)>, length: Json,
                       extent: Extent)
    requires magic != [] && (secondary.Some? ==> secondary.value.1 != []) && ParseLength(length) == Accepted(extent)
    ensures var parsed := Parse(SpecJson(magic, magicOffset, secondary, length));
            parsed.Accepted? && ToSignature(parsed.value) == SpecOf(magic, magicOffset, secondary, extent)
  {
    hide NonEmptyHex, ToHex, ParseSecondary, SecondaryJson, ParseLength;
    var item := SpecJson(magic, magicOffset, secondary, length);
    HexIsAccepted("magic", magic);
    SecondaryIsAccepted(item, secondary);
    assert forall i :: 0 <= i < |"bin"| ==> IsExtChar("bin"[i]);
    assert ValidateExt("bin") == Accepted("bin");
  }

  // --- chunk + overlap wraps: the scan does not end ---

  const LAST_OFFSET: u64 := 0xFFFF_FFFF_FFFF_F800

  function FarMagic(): Signature { SpecOf([0x41], LAST_OFFSET, None, Fixed(1)) }

  lemma FarMagicStalls(left: nat, buffer: nat)
    ensures Parse(SpecJson([0x41], LAST_OFFSET, None, FIXED_JSON)).Accepted?
    ensures ToSignature(Parse(SpecJson([0x41], LAST_OFFSET, None, FIXED_JSON)).value) == FarMagic()
    ensures !SumsFit([FarMagic()], SCAN_CHUNK, buffer) && Room([FarMagic()], SCAN_CHUNK) == SCAN_CHUNK - 2047
    ensures Stalls([FarMagic()], SCAN_CHUNK, left) <==> left > SCAN_CHUNK - 2047
  {
    assert ParseLength(FIXED_JSON) == Accepted(Fixed(1));
    SpecIsAccepted([0x41], LAST_OFFSET, None, FIXED_JSON, Fixed(1));
    assert [FarMagic()][..0] == [];
    assert MaxReach([FarMagic()]) == 1 && MaxMagicOffset([FarMagic()]) == LAST_OFFSET;
  }

  lemma FarMagicIsSound(buffer: nat)
    ensures Usable([FarMagic()]) && forall sig :: sig in [FarMagic()] ==> Sound(sig, buffer)
  {
  }

  const PLAIN: Options := Options(0, None, 0, None, None, false, false, false, false, 1)

  /**
   * With this spec alone the scan of any source of more than 8386561 bytes goes round for ever; that of a smaller one
   * ends.
   */
  method ScanWithFarMagic(src: seq<byte>, oracle: Oracle, window: nat, buffer: nat, known: set<string>)
    returns (ending: Ending)
    requires |src| < U64_LIMIT && window >= 1 && buffer > SCAN_CHUNK
    ensures ending == if |src| > SCAN_CHUNK - 2047 then Diverges else Returned
  {
    FarMagicStalls(|src|, buffer);
    FarMagicIsSound(buffer);
    hide Room, Stalls, SeesAll, EndsAt, FarMagic, EngineTrips, LeftBehind, Chunked, Sound;
    var sizes := Sizes(SCAN_CHUNK, window, 1, 1, buffer);
    SoundTableNeverTrips(RunOf(src, [FarMagic()], PLAIN, oracle), sizes, StartState({}, None), 0, []);
    var stats, installed;
    ending, stats, installed := CarveSeeded(src, [FarMagic()], PLAIN, oracle, {}, sizes, known, None, false, []);
  }

  // --- lookahead + offset wraps: a chunk's last positions do not see their lookahead ---

  const NEAR_LAST_OFFSET: u64 := 0xFFFF_FFFF_FFFF_F000

  function Tagged(): Signature { SpecOf([0x41], 0, Some((4096, [0x42])), Fixed(1)) }

  function Far(): Signature { SpecOf([0x43], NEAR_LAST_OFFSET, None, Fixed(1)) }

  const TAGGED_JSON: Json := SpecJson([0x41], 0, Some((4096, [0x42])), FIXED_JSON)

  const FAR_JSON: Json := SpecJson([0x43], NEAR_LAST_OFFSET, None, FIXED_JSON)

  lemma TaggedIsAccepted()
    ensures Parse(TAGGED_JSON).Accepted? && ToSignature(Parse(TAGGED_JSON).value) == Tagged()
    ensures Parse(FAR_JSON).Accepted? && ToSignature(Parse(FAR_JSON).value) == Far()
  {
    assert ParseLength(FIXED_JSON) == Accepted(Fixed(1));
    SpecIsAccepted([0x41], 0, Some((4096, [0x42])), FIXED_JSON, Fixed(1));
    SpecIsAccepted([0x43], NEAR_LAST_OFFSET, None, FIXED_JSON, Fixed(1));
  }

  lemma ShortOverlap(chunk: nat)
    requires 1 <= chunk < U64_LIMIT - 1
    ensures Overlap([Tagged(), Far()]) == 1 && Room([Tagged(), Far()], chunk) == chunk + 1 && Usable([Tagged(), Far()])
  {
    var active := [Tagged(), Far()];
    assert active[..1] == [Tagged()] && [Tagged()][..0] == [];
    assert MaxReach([Tagged()]) == 4097 && MaxMagicOffset([Tagged()]) == 0;
    assert MaxReach(active) == 4097 && MaxMagicOffset(active) == NEAR_LAST_OFFSET;
  }

  lemma TaggedAndFarAreSound(buffer: nat)
    ensures forall sig :: sig in [Tagged(), Far()] ==> Sound(sig, buffer)
  {
  }

  lemma TaggedIsFirst(window: seq<byte>)
    requires |window| > 4096 && window[0] == 0x41 && window[4096] == 0x42
    ensures FirstMatch([Tagged(), Far()], window) == Some(Tagged())
  {
    assert window[0..1] == [0x41];
    assert window[4096..4097] == [0x42];
  }

  lemma NothingWithoutTheTag(window: seq<byte>)
    requires window != [] ==> window[0] != 0x43 && (window[0] == 0x41 ==> |window| <= 4096)
    ensures FirstMatch([Tagged(), Far()], window) == None
  {
    assert window != [] ==> window[0..1] == [window[0]];
  }

  /**
   * The second spec can never match anything that counts, yet beside it the first is missed where its tag lies behind
   * the chunk's buffer: the last position a chunk scans has a hit, and the buffer does not show it.
   */
  lemma ShortOverlapMisses(run: Run, chunk: nat)
    requires run.Valid() && run.active == [Tagged(), Far()] && 1 <= chunk < U64_LIMIT - 1
    requires chunk + 4096 <= run.scanEnd && run.src[chunk - 1] == 0x41 && run.src[chunk - 1 + 4096] == 0x42
    ensures HitAt(run, chunk - 1) == Some(Tagged())
    ensures Room(run.active, chunk) == chunk + 1 && Overlap(run.active) == 1
    ensures SeenAt(run, chunk - 1, chunk + 1) == None
    ensures !SeesAll(run.active, chunk)
  {
    hide FirstMatch, Tagged, Far, Room, Overlap;
    ShortOverlap(chunk);
    var whole, part := run.src[chunk - 1..run.scanEnd], run.src[chunk - 1..chunk + 1];
    assert whole[0] == run.src[chunk - 1] && whole[4096] == run.src[chunk - 1 + 4096];
    TaggedIsFirst(whole);
    assert part[0] == run.src[chunk - 1] && |part| == 2;
    NothingWithoutTheTag(part);
    if SeesAll(run.active, chunk) { SeesThere(run.active, chunk, run.src, run.scanEnd, 0, chunk - 1); }
  }

  /**
   * A source of nothing but zeros, the first spec's magic at the end of the first chunk, and its tag in its place
   * behind.
   */
  function HiddenSource(chunk: nat): (src: seq<byte>)
    requires chunk >= 1
    ensures |src| == chunk + 4096
  {
    seq(chunk + 4096, i => if i == chunk - 1 then 0x41 else if i == chunk + 4095 then 0x42 else 0)
  }

  ghost predicate IsHidden(run: Run, chunk: nat) {
    && run.Valid() && 1 <= chunk < U64_LIMIT - 4096 && run.src == HiddenSource(chunk) && run.scanEnd == |run.src|
    && run.active == [Tagged(), Far()] && run.opts == PLAIN
  }

  lemma SeenBehindTheMagic(run: Run, chunk: nat, p: nat, end: nat)
    requires IsHidden(run, chunk) && p <= end <= run.scanEnd && (p == chunk - 1 ==> end < chunk + 4096)
    ensures SeenAt(run, p, end) == None
  {
    hide FirstMatch;
    var window := run.src[p..end];
    assert window != [] ==> window[0] == run.src[p];
    NothingWithoutTheTag(window);
  }

  /** No chunk sees the magic and its tag: the state stays as it was. */
  lemma {:induction false} ChunksSeeNothing(run: Run, chunk: nat, st0: State, k: nat)
    requires IsHidden(run, chunk)
    ensures Chunked(run, chunk, st0, 0, k).0 == st0
    ensures Chunked(run, chunk, st0, 0, k).1 == 0 || Chunked(run, chunk, st0, 0, k).1 >= chunk
  {
    hide Room, Overlap, SeenAt, ScanSeen, HiddenSource;
    ShortOverlap(chunk);
    if k > 0 {
      ChunksSeeNothing(run, chunk, st0, k - 1);
      var p := Chunked(run, chunk, st0, 0, k - 1).1;
      var next, end := NextChunk(run, chunk, p), BufferEnd(run, chunk, p);
      forall q | p <= q < next ensures SeenAt(run, q, end) == None { SeenBehindTheMagic(run, chunk, q, end); }
      SeenQuiet(run, st0, p, p, next, end);
      NothingSeen(run, st0, p, end);
    }
  }

  /** The one pass finds the file. */
  lemma PassFindsIt(run: Run, chunk: nat)
    requires IsHidden(run, chunk)
    ensures exists row :: row in Scan(run, Resume.FreshState({}), 0, run.scanEnd).tally.files && row.offset == chunk - 1
  {
    hide Scan, FirstMatch, Overlap, Room, RowName, F.Digest, ConfidenceOf;
    var st := Resume.FreshState({});
    forall p | 0 <= p < chunk - 1 ensures HitAt(run, p) == None { SeenBehindTheMagic(run, chunk, p, run.scanEnd); }
    ScanQuiet(run, st, 0, chunk - 1);
    ShortOverlapMisses(run, chunk);
    EndToEnd.EligibleHitIsRecorded(run, st, 0, chunk - 1, Tagged(), 1);
  }

  /**
   * So the engine, with any chunk size and any machine that grants the buffer, finds nothing in this source, ends as if
   * all were well, and leaves out a file that the one pass has.
   */
  method ScanMissesHidden(oracle: Oracle, chunk: nat, window: nat, buffer: nat, known: set<string>)
    returns (ending: Ending, found: seq<Row>)
    requires 1 <= chunk < U64_LIMIT - 4096 && window >= 1 && buffer > chunk + 1
    ensures ending == Returned && found == []
    ensures Parse(TAGGED_JSON).Accepted? && ToSignature(Parse(TAGGED_JSON).value) == Tagged()
    ensures Parse(FAR_JSON).Accepted? && ToSignature(Parse(FAR_JSON).value) == Far()
    ensures var run := RunOf(HiddenSource(chunk), [Tagged(), Far()], PLAIN, oracle);
            exists row :: row in Scan(run, Resume.FreshState({}), 0, run.scanEnd).tally.files && row.offset == chunk - 1
  {
    hide Parse, Tagged, Far, Room, Overlap, SeesAll, EndsAt, EngineTrips, Chunked, Scan, HiddenSource, Sound;
    ghost var run := RunOf(HiddenSource(chunk), [Tagged(), Far()], PLAIN, oracle);
    ShortOverlap(chunk);
    PassFindsIt(run, chunk);
    TaggedIsAccepted();
    var sizes := Sizes(chunk, window, 1, 1, buffer);
    TaggedAndFarAreSound(buffer);
    SoundTableNeverTrips(run, sizes, StartState({}, None), 0, []);
    var stats, installed;
    ending, stats, installed :=
      CarveSeeded(HiddenSource(chunk), [Tagged(), Far()], PLAIN, oracle, {}, sizes, known, None, false, []);
    ghost var k: nat, marks: seq<nat> :|
      LeftBehind(run, StartState({}, None), 0, sizes, stats.View(), stats.bytesScanned, installed, false, k, marks);
    ChunksSeeNothing(run, chunk, StartState({}, None), k);
    found := stats.files;
  }

  // --- a tag's end wraps: the search stops with a range error ---

  const MAX_U64: u64 := 0xFFFF_FFFF_FFFF_FFFF

  function Wrapped(): Signature { SpecOf([0x41], 0, Some((MAX_U64, [0x42])), Fixed(1)) }

  /** The search stops at every window that starts with the magic, and at no other. */
  lemma WrappedTagTrips(window: seq<byte>)
    ensures Parse(SpecJson([0x41], 0, Some((MAX_U64, [0x42])), FIXED_JSON)).Accepted?
    ensures ToSignature(Parse(SpecJson([0x41], 0, Some((MAX_U64, [0x42])), FIXED_JSON)).value) == Wrapped()
    ensures SearchTrips([Wrapped()], window) <==> window != [] && window[0] == 0x41
  {
    assert ParseLength(FIXED_JSON) == Accepted(Fixed(1));
    SpecIsAccepted([0x41], 0, Some((MAX_U64, [0x42])), FIXED_JSON, Fixed(1));
    TripsIff(Wrapped(), window);
    assert window != [] ==> window[0..1] == [window[0]];
    assert [Wrapped()][1..] == [];
  }

  // --- a length field out of reach: no buffer holds the bytes up to it ---

  const HALF: u64 := 0x8000_0000_0000_0000

  lemma FarFieldTrips(buffer: nat)
    requires buffer <= HALF
    ensures Parse(SpecJson([0x41], 0, None, FieldJson(HALF))).Accepted?
    ensures FieldTooFar(ToSignature(Parse(SpecJson([0x41], 0, None, FieldJson(HALF))).value), buffer)
  {
    assert ParseLength(FieldJson(HALF)) == Accepted(SizeField(HALF, 8, false, 1, 0));
    SpecIsAccepted([0x41], 0, None, FieldJson(HALF), SizeField(HALF, 8, false, 1, 0));
  }

  // --- marker end + trailing wraps: line ends are left behind ---

  function EndlessTrailing(): Signature { SpecOf([0x25], 0, None, Extent.Footer([0x21], MAX_U64)) }

  lemma FooterIsAccepted(magic: seq<byte>, marker: seq<byte>, trailing: u64)
    requires magic != [] && marker != []
    ensures var parsed := Parse(SpecJson(magic, 0, None, FooterJson(marker, trailing)));
            parsed.Accepted? && ToSignature(parsed.value) == SpecOf(magic, 0, None, Extent.Footer(marker, trailing))
  {
    hide ToHex, NonEmptyHex, Parse;
    HexIsAccepted("marker", marker);
    assert ParseLength(FooterJson(marker, trailing)) == Accepted(Extent.Footer(marker, trailing));
    SpecIsAccepted(magic, 0, None, FooterJson(marker, trailing), Extent.Footer(marker, trailing));
  }

  /** Any number of line ends is allowed behind the marker, and none is taken. */
  lemma EndlessTrailingTakesNothing(oracle: Oracle)
    ensures var parsed := Parse(SpecJson([0x25], 0, None, FooterJson([0x21], MAX_U64)));
            parsed.Accepted? && ToSignature(parsed.value) == EndlessTrailing()
    ensures Length(oracle, [0x25, 0x21, 0x0D, 0x0A], EndlessTrailing(), 0, 4) == Some(2)
    ensures FooterLength([0x25, 0x21, 0x0D, 0x0A], 0, [0x21], MAX_U64, 4) == Some(4)
  {
    hide Parse, SpecJson;
    FooterIsAccepted([0x25], [0x21], MAX_U64);
    LineEndsBehind([0x25, 0x21, 0x0D, 0x0A]);
  }

  lemma LineEndsBehind(src: seq<byte>)
    requires src == [0x25, 0x21, 0x0D, 0x0A]
    ensures FooterFound(src, 0, [0x21], MAX_U64, 4) == Some(2) && FooterLength(src, 0, [0x21], MAX_U64, 4) == Some(4)
  {
    hide FindFrom, EolRun;
    assert src[0..1] == [0x25] && src[1..2] == [0x21];
    assert OccursAt(src, 4, [0x21], 1) && !OccursAt(src, 4, [0x21], 0);
    FirstIsFound(src, 4, [0x21], 0, 1);
    EolRunUnique(src, 2, MAX_U64, 4, 2);
    assert Allowance(2, MAX_U64) == 0;
  }

  // --- a check on each field by itself ---

  predicate Modest(sig: Signature, bound: nat) {
    && |sig.magic| < bound && sig.magicOffset < bound
    && (sig.secondary.Some? ==> sig.secondary.value.0 + |sig.secondary.value.1| < bound)
    && (sig.extent.SizeField? ==> sig.extent.offset + sig.extent.width / 8 < bound)
    && (sig.extent.Footer? ==> sig.extent.trailing < bound)
  }

  lemma {:induction false} ModestMaxima(active: seq<Signature>, bound: nat)
    requires 0 < bound && forall sig :: sig in active ==> Modest(sig, bound)
    ensures MaxReach(active) < bound && MaxMagicOffset(active) < bound
  {
    if active != [] {
      var front, last := active[..|active| - 1], active[|active| - 1];
      ModestMaxima(front, bound);
      assert last in active && Modest(last, bound);
    }
  }

  /**
   * Fields below a third of the largest buffer the machine grants, and a chunk that is no larger, are all in order: the
   * scan ends, sees every hit, and its footers keep their promise.
   */
  lemma ModestFieldsFit(active: seq<Signature>, chunk: nat, buffer: nat, bound: nat)
    requires (forall sig :: sig in active ==> Modest(sig, bound)) && 0 < bound && chunk <= bound
    requires 3 * bound <= buffer <= U64_LIMIT
    ensures SumsFit(active, chunk, buffer)
    ensures forall sig, src: seq<byte>, start: nat, limit: nat ::
              sig in active && sig.extent.Footer? && limit <= |src| && |src| + bound <= U64_LIMIT ==>
              FooterFound(src, start, sig.extent.marker, sig.extent.trailing, limit)
              == FooterLength(src, start, sig.extent.marker, sig.extent.trailing, limit)
  {
    hide MaxReach, MaxMagicOffset, FooterFound, FooterLength;
    ModestMaxima(active, bound);
    forall sig | sig in active ensures Sound(sig, buffer) { assert Modest(sig, bound); }
    forall sig, src: seq<byte>, start: nat, limit: nat
      | sig in active && sig.extent.Footer? && limit <= |src| && |src| + bound <= U64_LIMIT
      ensures FooterFound(src, start, sig.extent.marker, sig.extent.trailing, limit)
           == FooterLength(src, start, sig.extent.marker, sig.extent.trailing, limit)
    {
      assert Modest(sig, bound);
      RoomForTrailing(src, start, sig.extent.marker, sig.extent.trailing, limit);
    }
  }

  // --- a magic that is its own marker ---

  /** Magic and marker may be the same; then the file is the magic alone, and the line ends behind it. */
  lemma MagicAsMarker(oracle: Oracle, marker: seq<byte>, src: seq<byte>, start: nat, scanEnd: nat)
    requires marker != [] && |marker| <= 4096 && start + |marker| <= scanEnd <= |src|
             && src[start..start + |marker|] == marker
    ensures var parsed := Parse(SpecJson(marker, 0, None, FooterJson(marker, 0)));
            parsed.Accepted? && Length(oracle, src, ToSignature(parsed.value), start, scanEnd) == Some(|marker|)
  {
    hide Parse, SpecJson, FooterFound, EolRun;
    FooterIsAccepted(marker, marker, 0);
    var limit := Min(start + 4096, scanEnd);
    assert OccursAt(src, limit, marker, start);
    MarkerAtStart(src, start, marker, 0, limit);
  }
}
