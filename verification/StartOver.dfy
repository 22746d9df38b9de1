/** What any text in the place of a checkpoint makes of a run: when it starts over, and when it does not. */
module StartOver {
  import opened Bytes
  import opened Signatures
  import opened Text
  import opened Carving
  import opened Checkpoint
  import opened CheckpointRoundTrip
  import opened Carver
  import Resume

  // --- what a line gives ---

  const COUNTERS: set<Key> := {Pos, SkipUntil, Files, Bytes, Rejected, Duplicates, VerifiedCount, PlausibleCount,
                                TruncatedCount}

  function Counter(ld: Loaded, k: Key): nat {
    match k
    case Pos => ld.pos
    case SkipUntil => ld.skipUntil
    case Files => ld.tally.filesRecovered
    case Bytes => ld.tally.bytesRecovered
    case Rejected => ld.tally.rejected
    case Duplicates => ld.tally.duplicates
    case VerifiedCount => ld.tally.verified
    case PlausibleCount => ld.tally.plausible
    case TruncatedCount => ld.tally.truncated
    case _ => 0
  }

  /** The number a line gives to a counter. One that cannot be read leaves a position alone and makes a tally 0. */
  function NumberIn(k: Key, raw: string): Option<u64> {
    match Words(raw)
    case None => None
    case Some(f) =>
      if KeyOf(f[0]) != k then None
      else if |f| >= 2 && ParseU64(f[1]).Some? then ParseU64(f[1])
      else if k == Pos || k == SkipUntil then None
      else Some(0)
  }

  /** The digest, or the row, that a line adds. */
  function DigestIn(raw: string): Option<seq<byte>> {
    match Words(raw)
    case None => None
    case Some(f) => if KeyOf(f[0]) == Seen && |f| >= 2 then ParseHex32(f[1]) else None
  }

  function RowIn(known: set<string>, raw: string): Option<Row> {
    match Words(raw)
    case None => None
    case Some(f) => if KeyOf(f[0]) == File then ParseRow(known, f) else None
  }

  lemma LineGives(known: set<string>, ld: Loaded, raw: string, k: Key)
    requires k in COUNTERS
    ensures Counter(ReadLine(known, ld, raw), k) == match NumberIn(k, raw) case None => Counter(ld, k) case Some(n) => n
  {
    hide Words, ParseU64, ParseRow, ParseHex32, KeyOf;
  }

  lemma LineAdds(known: set<string>, ld: Loaded, raw: string)
    ensures var after := ReadLine(known, ld, raw);
            && after.seen == (match DigestIn(raw) case None => ld.seen case Some(d) => ld.seen + {d})
            && after.tally.files == ld.tally.files + (match RowIn(known, raw) case None => [] case Some(row) => [row])
            && (RowIn(known, raw) == None ==> after.tally.perType == ld.tally.perType)
            && after.tally.skippedLarge == ld.tally.skippedLarge
  {
    hide Words, ParseU64, ParseRow, ParseHex32, KeyOf;
  }

  // --- what the lines of a text give ---

  /** Line `i` gives the counter a number, and no later line does. */
  predicate Gives(lines: seq<string>, k: Key, i: nat)
    requires i < |lines|
  {
    NumberIn(k, lines[i]).Some? && forall j :: i < j < |lines| ==> NumberIn(k, lines[j]) == None
  }

  lemma GivesNumber(lines: seq<string>, k: Key, i: nat)
    requires i < |lines| && Gives(lines, k, i)
    ensures NumberIn(k, lines[i]).Some?
  {
  }

  lemma GivesInFront(lines: seq<string>, k: Key, i: nat)
    requires i < |lines| - 1 && Gives(lines, k, i)
    ensures NumberIn(k, lines[|lines| - 1]) == None && Gives(lines[..|lines| - 1], k, i)
  {
    hide NumberIn;
  }

  /** Of the lines that give a counter a number the last one counts; without one the counter stays as it was. */
  lemma {:induction false} LastNumberCounts(known: set<string>, ld: Loaded, lines: seq<string>, k: Key)
    requires k in COUNTERS
    ensures (forall i :: 0 <= i < |lines| ==> NumberIn(k, lines[i]) == None)
              ==> Counter(ReadLines(known, ld, lines), k) == Counter(ld, k)
    ensures forall i :: 0 <= i < |lines| && Gives(lines, k, i)
              ==> NumberIn(k, lines[i]) == Some(Counter(ReadLines(known, ld, lines), k))
  {
    hide NumberIn, ReadLine, Counter, Gives;
    if lines != [] {
      var front, last := lines[..|lines| - 1], lines[|lines| - 1];
      LastNumberCounts(known, ld, front, k);
      LineGives(known, ReadLines(known, ld, front), last, k);
      assert forall i :: 0 <= i < |front| ==> front[i] == lines[i];
      forall i | 0 <= i < |lines| && Gives(lines, k, i)
        ensures NumberIn(k, lines[i]) == Some(Counter(ReadLines(known, ld, lines), k))
      {
        if i < |front| { GivesInFront(lines, k, i); } else { GivesNumber(lines, k, i); }
      }
    }
  }

  lemma {:induction false} LastGiver(lines: seq<string>, k: Key)
    requires exists i :: 0 <= i < |lines| && NumberIn(k, lines[i]).Some?
    ensures exists i :: 0 <= i < |lines| && Gives(lines, k, i)
  {
    hide NumberIn;
    var front, last := lines[..|lines| - 1], lines[|lines| - 1];
    if NumberIn(k, last).Some? {
      assert Gives(lines, k, |lines| - 1);
    } else {
      var i :| 0 <= i < |lines| && NumberIn(k, lines[i]).Some?;
      assert front[i] == lines[i];
      LastGiver(front, k);
      var g :| 0 <= g < |front| && Gives(front, k, g);
      assert forall j :: g < j < |front| ==> front[j] == lines[j];
      assert Gives(lines, k, g);
    }
  }

  /** The last number for the counter, if there is one, is at most `bound`. */
  predicate LastAtMost(lines: seq<string>, k: Key, bound: nat) {
    forall i :: 0 <= i < |lines| && Gives(lines, k, i) ==> NumberIn(k, lines[i]).value <= bound
  }

  lemma LastAtMostIff(known: set<string>, lines: seq<string>, k: Key, bound: nat)
    requires k in COUNTERS
    ensures Counter(ReadLines(known, FRESH, lines), k) <= bound <==> LastAtMost(lines, k, bound)
  {
    hide NumberIn, ReadLines;
    LastNumberCounts(known, FRESH, lines, k);
    if exists i :: 0 <= i < |lines| && NumberIn(k, lines[i]).Some? { LastGiver(lines, k); }
  }

  /** No line adds a row, and no line a digest that is not in the seed. */
  predicate AddsNothing(known: set<string>, seed: set<seq<byte>>, lines: seq<string>) {
    forall i :: 0 <= i < |lines| ==>
      RowIn(known, lines[i]) == None && (DigestIn(lines[i]).Some? ==> DigestIn(lines[i]).value in seed)
  }

  lemma {:induction false} AddsNothingIff(known: set<string>, seed: set<seq<byte>>, lines: seq<string>)
    ensures var ld := ReadLines(known, FRESH, lines);
            && (ld.tally.files == [] && ld.seen <= seed <==> AddsNothing(known, seed, lines))
            && (ld.tally.files == [] ==> ld.tally.perType == map[])
            && ld.tally.skippedLarge == 0
  {
    hide RowIn, DigestIn, ReadLine;
    if lines != [] {
      var front, last := lines[..|lines| - 1], lines[|lines| - 1];
      AddsNothingIff(known, seed, front);
      LineAdds(known, ReadLines(known, FRESH, front), last);
      assert forall i :: 0 <= i < |front| ==> front[i] == lines[i];
      assert AddsNothing(known, seed, lines) <==>
        AddsNothing(known, seed, front) && RowIn(known, last) == None
          && (DigestIn(last).Some? ==> DigestIn(last).value in seed);
    }
  }

  // --- where a run that is given any text starts, and with what ---

  /**
   * The text gives no number but 0 to the skip boundary and the tallies, no row, and no digest that is not in the seed.
   */
  ghost predicate SaysNothing(known: set<string>, seed: set<seq<byte>>, lines: seq<string>) {
    (forall k :: k in COUNTERS && k != Pos ==> LastAtMost(lines, k, 0)) && AddsNothing(known, seed, lines)
  }

  /**
   * Whatever stands in the file, the run starts at the beginning of its range exactly when there is nothing to scan, or
   * the last `pos` line that can be read, if there is one, does not point behind that beginning; and it starts in the
   * state of a fresh run exactly when the text says nothing else that a fresh run does not.
   */
  lemma StartsOverIff(run: Run, known: set<string>, seed: set<seq<byte>>, text: string)
    ensures StartPos(run, Some(ReadText(known, text))) == BaseStart(run) <==>
            BaseStart(run) == run.scanEnd || LastAtMost(Lines(text), Pos, BaseStart(run))
    ensures StartState(seed, Some(ReadText(known, text))) == Resume.FreshState(seed) <==>
            SaysNothing(known, seed, Lines(text))
  {
    hide ReadLines, Lines, BaseStart, LastAtMost, AddsNothing;
    var lines, ld := Lines(text), ReadText(known, text);
    LastAtMostIff(known, lines, Pos, BaseStart(run));
    forall k | k in COUNTERS && k != Pos ensures Counter(ld, k) <= 0 <==> LastAtMost(lines, k, 0) {
      LastAtMostIff(known, lines, k, 0);
    }
    AddsNothingIff(known, seed, lines);
    NothingLoadedIff(ld);
    assert seed + ld.seen == seed <==> ld.seen <= seed;
  }

  lemma NothingLoadedIff(ld: Loaded)
    ensures ld.skipUntil == 0 && ld.tally == EMPTY_TALLY <==>
            && (forall k :: k in COUNTERS && k != Pos ==> Counter(ld, k) <= 0)
            && ld.tally.files == [] && ld.tally.perType == map[] && ld.tally.skippedLarge == 0
  {
    if forall k :: k in COUNTERS && k != Pos ==> Counter(ld, k) <= 0 {
      assert Counter(ld, SkipUntil) == 0 && Counter(ld, Files) == 0 && Counter(ld, Bytes) == 0
        && Counter(ld, Rejected) == 0;
      assert Counter(ld, Duplicates) == 0 && Counter(ld, VerifiedCount) == 0;
      assert Counter(ld, PlausibleCount) == 0 && Counter(ld, TruncatedCount) == 0;
    }
  }

  // --- texts of a single line ---

  lemma LoneNumber(known: set<string>, k: Key, n: u64)
    requires k in COUNTERS
    ensures ReadText(known, Join([NumberLine(k, n)])) == WithNumber(FRESH, k, n)
  {
    hide NumberLine, ReadLine, Lines, WithNumber;
    var line := NumberLine(k, n);
    NumberLineNoBreak(k, n);
    assert [line][..0] == [];
    LinesOfJoin([line], "");
    assert Join([line]) + "" == Join([line]);
    NoLines();
    assert [line] + [] == [line];
    ReadNumberLine(known, FRESH, k, n);
    assert ReadLines(known, FRESH, [line]) == WithNumber(FRESH, k, n);
  }

  lemma NoLines()
    ensures Lines("") == []
  {
  }

  /**
   * A text of nothing but a readable position sends the run there with nothing found: what lies before is not scanned.
   */
  lemma LonePosition(run: Run, known: set<string>, seed: set<seq<byte>>, n: u64)
    requires run.Valid()
    ensures var loaded := Some(ReadText(known, Join([NumberLine(Pos, n)])));
            && StartState(seed, loaded) == Resume.FreshState(seed)
            && StartPos(run, loaded) == Max(BaseStart(run), Min(n, run.scanEnd))
  {
    hide Join, NumberLine, ReadText, BaseStart;
    LoneNumber(known, Pos, n);
    assert seed + {} == seed;
  }

  /** A text of nothing but the largest skip boundary lets the run start over, and find nothing in any source. */
  lemma LoneBoundary(run: Run, known: set<string>, seed: set<seq<byte>>, hi: nat)
    requires run.Valid() && !run.opts.allowNested && BaseStart(run) <= hi <= run.scanEnd
    ensures var loaded := Some(ReadText(known, Join([NumberLine(SkipUntil, U64_LIMIT - 1)])));
            && StartPos(run, loaded) == BaseStart(run)
            && Scan(run, StartState(seed, loaded), BaseStart(run), hi).tally == EMPTY_TALLY
  {
    hide Join, NumberLine, ReadText, BaseStart, Scan;
    LoneNumber(known, SkipUntil, U64_LIMIT - 1);
    var loaded := Some(ReadText(known, Join([NumberLine(SkipUntil, U64_LIMIT - 1)])));
    NothingEligible(run, StartState(seed, loaded), BaseStart(run), hi);
  }

  lemma {:induction false} NothingEligible(run: Run, st: State, lo: nat, hi: nat)
    requires run.Valid() && hi <= run.scanEnd && !run.opts.allowNested && st.skipUntil == U64_LIMIT - 1
    ensures Scan(run, st, lo, hi) == st
    decreases hi
  {
    hide HitAt, AtHit;
    if lo < hi { NothingEligible(run, st, lo, hi - 1); }
  }
}
