/**
 * What every reachable state of a scan keeps: bookkeeping, provenance of the rows, deduplication, and disjoint regions.
 */
module Invariants {
  import opened Bytes
  import opened Signatures
  import opened Lengths
  import opened Carving
  import F = Fips180

  // --- sums ---

  function SumOfSizes(files: seq<Row>): nat {
    if files == [] then 0 else SumOfSizes(files[..|files| - 1]) + files[|files| - 1].size
  }

  ghost function SumOfValues(m: map<string, nat>): nat {
    if m == map[] then 0
    else
      var k :| k in m;
      m[k] + SumOfValues(m - {k})
  }

  /** The sum does not depend on the order the keys are taken in. */
  lemma {:induction false} SumWithout(m: map<string, nat>, k: string)
    requires k in m
    ensures SumOfValues(m) == m[k] + SumOfValues(m - {k})
  {
    var first :| first in m && SumOfValues(m) == m[first] + SumOfValues(m - {first});
    if first != k {
      SumWithout(m - {first}, k);
      SumWithout(m - {k}, first);
      assert (m - {first}) - {k} == (m - {k}) - {first};
    }
  }

  lemma SumAfterBump(m: map<string, nat>, ext: string)
    ensures SumOfValues(Bump(m, ext)) == SumOfValues(m) + 1
  {
    var m' := Bump(m, ext);
    SumWithout(m', ext);
    if ext in m {
      SumWithout(m, ext);
      assert m' - {ext} == m - {ext};
    } else {
      assert m' - {ext} == m;
    }
  }

  // --- the invariant ---

  /** Every counter agrees with the rows. */
  ghost predicate Consistent(t: Tally) {
    && t.filesRecovered == |t.files| == t.verified + t.plausible + t.truncated == SumOfValues(t.perType)
    && t.bytesRecovered == SumOfSizes(t.files) && t.perType == TypesOf(map[], t.files)
  }

  function CountOf(files: seq<Row>, ext: string): nat {
    if files == [] then 0 else CountOf(files[..|files| - 1], ext) + (if files[|files| - 1].ext == ext then 1 else 0)
  }

  /** The count of a type is the number of its rows. */
  lemma {:induction false} TypesCount(files: seq<Row>, ext: string)
    ensures var types := TypesOf(map[], files);
            (ext in types <==> CountOf(files, ext) > 0) && (ext in types ==> types[ext] == CountOf(files, ext))
  {
    if files != [] { TypesCount(files[..|files| - 1], ext); }
  }

  /** Each row names bytes the source holds, and their digest. */
  ghost predicate Genuine(run: Run, files: seq<Row>) {
    forall i :: 0 <= i < |files| ==>
      && files[i].sha256 == F.Digest(ReadAt(run.src, files[i].offset, files[i].size))
      && |ReadAt(run.src, files[i].offset, files[i].size)| == files[i].size
  }

  /** With deduplication the digests of the rows are new and different, and are all that joined the seed. */
  ghost predicate Deduplicated(seed: set<seq<byte>>, seen: set<seq<byte>>, files: seq<Row>) {
    && seen == seed + (set i | 0 <= i < |files| :: files[i].sha256)
    && (forall i :: 0 <= i < |files| ==> files[i].sha256 !in seed)
    && (forall i, j :: 0 <= i < j < |files| ==> files[i].sha256 != files[j].sha256)
  }

  predicate VolumeRow(row: Row) { IsVolume(Signature([], row.ext, [], 0, None, Jpeg, 0)) }

  /** Without nesting, what a file claims lies before every later claim and before the skip boundary. */
  ghost predicate Disjoint(st: State) {
    && (forall i :: 0 <= i < |st.claims| && !st.claims[i].volume ==>
        st.claims[i].start + st.claims[i].len <= st.skipUntil)
    && (forall i, j :: 0 <= i < j < |st.claims| && !st.claims[i].volume ==>
          st.claims[i].start + st.claims[i].len <= st.claims[j].start)
    && (forall i :: 0 <= i < |st.tally.files| && !VolumeRow(st.tally.files[i]) ==>
          st.tally.files[i].offset + st.tally.files[i].size <= st.skipUntil)
    && (forall i, j :: 0 <= i < j < |st.tally.files| && !VolumeRow(st.tally.files[i]) ==>
          st.tally.files[i].offset + st.tally.files[i].size <= st.tally.files[j].offset)
  }

  /** The books. */
  ghost predicate Inv(run: Run, seed: set<seq<byte>>, st: State) {
    && Consistent(st.tally)
    && Genuine(run, st.tally.files)
    && (if run.opts.dedup then Deduplicated(seed, st.seen, st.tally.files) else st.seen == seed)
  }

  /** The claimed region of a file ends at a 64-bit position. */
  predicate Ends(claim: Claim) { claim.volume || claim.start + claim.len < U64_LIMIT }

  predicate AllEnd(claims: seq<Claim>) { forall i :: 0 <= i < |claims| ==> Ends(claims[i]) }

  /** The regions are disjoint as long as, and only as long as, they all end. */
  ghost predicate DisjointIffAllEnd(st: State) { Disjoint(st) <==> AllEnd(st.claims) }

  lemma RecordKeepsConsistent(t: Tally, row: Row)
    requires Consistent(t)
    ensures Consistent(Record(t, row))
  {
    SumAfterBump(t.perType, row.ext);
    assert (t.files + [row])[..|t.files|] == t.files;
  }

  lemma RowIsGenuine(run: Run, count: nat, sig: Signature, fileStart: nat, len: nat, c: Confidence)
    ensures Genuine(run, [RowOf(run, count, sig, fileStart, len, c)])
  {
    hide F.Digest, RowName;
    var content := ReadAt(run.src, fileStart, len);
    assert ReadAt(run.src, fileStart, |content|) == content;
  }

  lemma GenuineConcat(run: Run, a: seq<Row>, row: Row)
    requires Genuine(run, a) && Genuine(run, [row])
    ensures Genuine(run, a + [row])
  {
    hide F.Digest;
    assert [row][0] == row;
  }

  lemma NewDigest(seed: set<seq<byte>>, seen: set<seq<byte>>, files: seq<Row>, row: Row)
    requires Deduplicated(seed, seen, files) && row.sha256 !in seen
    ensures Deduplicated(seed, seen + {row.sha256}, files + [row])
  {
    var more := files + [row];
    var digests := set i | 0 <= i < |files| :: files[i].sha256;
    assert forall i :: 0 <= i < |files| ==> more[i].sha256 in digests && more[i] == files[i];
    assert more[|files|] == row;
    assert (set i | 0 <= i < |more| :: more[i].sha256) == digests + {row.sha256};
  }

  /** Writing a file keeps the books. */
  lemma WriteKeeps(run: Run, seed: set<seq<byte>>, t: Tally, seen: set<seq<byte>>, sig: Signature, fileStart: nat,
                   len: nat, c: Confidence)
    requires Consistent(t) && Genuine(run, t.files)
    requires if run.opts.dedup then Deduplicated(seed, seen, t.files) else seen == seed
    ensures var (t', seen') := Write(run, t, seen, sig, fileStart, len, c);
            && Consistent(t') && Genuine(run, t'.files)
            && (if run.opts.dedup then Deduplicated(seed, seen', t'.files) else seen' == seed)
            && (t'.files == t.files || t'.files == t.files + [RowOf(run, t.filesRecovered, sig, fileStart, len, c)])
  {
    hide F.Digest, RowName, Deduplicated, Genuine, Consistent;
    var row := RowOf(run, t.filesRecovered, sig, fileStart, len, c);
    if run.opts.dedup && row.sha256 in seen {
      DuplicateKeeps(t);
    } else {
      RecordKeepsConsistent(t, row);
      RowIsGenuine(run, t.filesRecovered, sig, fileStart, len, c);
      GenuineConcat(run, t.files, row);
      if run.opts.dedup { NewDigest(seed, seen, t.files, row); }
    }
  }

  lemma DuplicateKeeps(t: Tally)
    requires Consistent(t)
    ensures Consistent(t.(duplicates := t.duplicates + 1)) && Consistent(t.(rejected := t.rejected + 1))
    ensures Consistent(t.(skippedLarge := t.skippedLarge + 1))
  {
  }

  /** What does not end, ends behind every skip boundary. */
  lemma DisjointEnds(st: State)
    requires Disjoint(st)
    ensures AllEnd(st.claims)
  {
  }

  /** A claim made outside the claimed regions keeps them disjoint exactly if it ends. */
  lemma ClaimKeeps(run: Run, st: State, t: Tally, seen: set<seq<byte>>, sig: Signature, fileStart: nat, len: nat,
                   c: Confidence)
    requires !run.opts.allowNested && Disjoint(st) && fileStart >= st.skipUntil
    requires t.files == st.tally.files
             || t.files == st.tally.files + [RowOf(run, st.tally.filesRecovered, sig, fileStart, len, c)]
    ensures Disjoint(Claimed(run, st.(tally := t, seen := seen), sig, fileStart, len))
            <==> Ends(Claim(fileStart, len, IsVolume(sig)))
  {
    hide F.Digest, RowName;
    var row := RowOf(run, st.tally.filesRecovered, sig, fileStart, len, c);
    var after := Claimed(run, st.(tally := t, seen := seen), sig, fileStart, len);
    assert IsVolume(sig) ==> VolumeRow(row);
    assert row.offset + row.size <= fileStart + len;
    assert after.claims[|st.claims|] == Claim(fileStart, len, IsVolume(sig));
  }

  /** A claim that does not end, and no other, leaves the skip boundary before its own start. */
  lemma BoundaryFallsIff(run: Run, st: State, sig: Signature, fileStart: u64, len: u64)
    requires !run.opts.allowNested && fileStart >= st.skipUntil && !IsVolume(sig)
    ensures Claimed(run, st, sig, fileStart, len).skipUntil < fileStart <==> fileStart + len >= U64_LIMIT
  {
  }

  lemma ClaimIsDisjointIff(run: Run, st: State, t: Tally, seen: set<seq<byte>>, sig: Signature, fileStart: nat,
                           len: nat, c: Confidence)
    requires !run.opts.allowNested && DisjointIffAllEnd(st) && fileStart >= st.skipUntil
    requires t.files == st.tally.files
             || t.files == st.tally.files + [RowOf(run, st.tally.filesRecovered, sig, fileStart, len, c)]
    ensures DisjointIffAllEnd(Claimed(run, st.(tally := t, seen := seen), sig, fileStart, len))
  {
    hide Disjoint, RowOf, Ends, AllEnd;
    var after := Claimed(run, st.(tally := t, seen := seen), sig, fileStart, len);
    OneMoreClaim(st.claims, Claim(fileStart, len, IsVolume(sig)));
    if Disjoint(st) {
      ClaimKeeps(run, st, t, seen, sig, fileStart, len, c);
    } else if Disjoint(after) {
      DisjointEnds(after);
    }
  }

  lemma OneMoreClaim(claims: seq<Claim>, claim: Claim)
    ensures AllEnd(claims + [claim]) <==> AllEnd(claims) && Ends(claim)
  {
    if AllEnd(claims + [claim]) {
      assert forall i :: 0 <= i < |claims| ==> (claims + [claim])[i] == claims[i];
      assert (claims + [claim])[|claims|] == claim;
    }
  }

  /** Following up a hit keeps the books, and with them whether the claims' ends decide their disjointness. */
  lemma HitKeeps(run: Run, seed: set<seq<byte>>, st: State, sig: Signature, fileStart: nat)
    requires run.Valid() && fileStart <= run.scanEnd && Inv(run, seed, st)
    ensures Inv(run, seed, AtHit(run, st, sig, fileStart))
  {
    hide F.Digest, RowName, Deduplicated, Genuine, Consistent, Write, Length, ConfidenceOf, RowOf;
    DuplicateKeeps(st.tally);
    var found := Length(run.oracle, run.src, sig, fileStart, run.scanEnd);
    if found.Some? && found.value >= run.opts.minSize {
      var len := found.value;
      var verdict := run.oracle.verdict(sig, ReadAt(run.src, fileStart, Min(len, HEADER_LEN)));
      var c := ConfidenceOf(run, sig, fileStart, len, verdict);
      WriteKeeps(run, seed, st.tally, st.seen, sig, fileStart, len, c);
    }
  }

  lemma WriteAddsRow(run: Run, t: Tally, seen: set<seq<byte>>, sig: Signature, fileStart: nat, len: nat, c: Confidence)
    ensures var after := Write(run, t, seen, sig, fileStart, len, c).0.files;
            after == t.files || after == t.files + [RowOf(run, t.filesRecovered, sig, fileStart, len, c)]
  {
    hide RowOf;
  }

  lemma HitIsDisjointIff(run: Run, st: State, sig: Signature, fileStart: nat)
    requires run.Valid() && fileStart <= run.scanEnd && !run.opts.allowNested
    requires fileStart >= st.skipUntil && DisjointIffAllEnd(st)
    ensures DisjointIffAllEnd(AtHit(run, st, sig, fileStart))
  {
    hide Write, Length, ConfidenceOf, RowOf, DisjointIffAllEnd;
    var found := Length(run.oracle, run.src, sig, fileStart, run.scanEnd);
    if found.Some? && found.value >= run.opts.minSize {
      var len := found.value;
      var verdict := run.oracle.verdict(sig, ReadAt(run.src, fileStart, Min(len, HEADER_LEN)));
      var c := ConfidenceOf(run, sig, fileStart, len, verdict);
      var (t, seen) := Write(run, st.tally, st.seen, sig, fileStart, len, c);
      WriteAddsRow(run, st.tally, st.seen, sig, fileStart, len, c);
      ClaimIsDisjointIff(run, st, t, seen, sig, fileStart, len, c);
      var larger := st.tally.(skippedLarge := st.tally.skippedLarge + 1);
      ClaimIsDisjointIff(run, st, larger, st.seen, sig, fileStart, len, c);
      CountersIrrelevant(Claimed(run, st.(tally := t, seen := seen), sig, fileStart, len));
      CountersIrrelevant(st);
    }
  }

  lemma CountersIrrelevant(st: State)
    ensures DisjointIffAllEnd(st) ==> forall b :: DisjointIffAllEnd(st.(stopped := b))
    ensures DisjointIffAllEnd(st) ==> DisjointIffAllEnd(st.(tally := st.tally.(rejected := st.tally.rejected + 1)))
  {
    hide AllEnd;
  }

  /** What a hit does at a position keeps the books, whatever is found there. */
  lemma OnHitKeeps(run: Run, seed: set<seq<byte>>, st: State, p: nat, hit: Option<Signature>)
    requires run.Valid() && p < run.scanEnd && Inv(run, seed, st)
    ensures Inv(run, seed, OnHit(run, st, p, hit))
  {
    hide Inv, AtHit;
    if !st.stopped && hit.Some? && Eligible(run.opts, st.skipUntil, hit.value, p) {
      HitKeeps(run, seed, st, hit.value, p - hit.value.magicOffset);
    }
  }

  /** At most one claim is added; if it ends, the skip boundary does not move back. */
  lemma OnHitClaims(run: Run, st: State, p: nat, hit: Option<Signature>)
    requires run.Valid() && p < run.scanEnd
    ensures var after := OnHit(run, st, p, hit);
            && st.claims <= after.claims
            && (AllEnd(after.claims[|st.claims|..]) ==> st.skipUntil <= after.skipUntil)
            && (!run.opts.allowNested && DisjointIffAllEnd(st) ==> DisjointIffAllEnd(after))
  {
    hide Write, Length, ConfidenceOf, Disjoint;
    var after := OnHit(run, st, p, hit);
    if !st.stopped && hit.Some? && Eligible(run.opts, st.skipUntil, hit.value, p) {
      var start := p - hit.value.magicOffset;
      if !run.opts.allowNested && DisjointIffAllEnd(st) { HitIsDisjointIff(run, st, hit.value, start); }
      if |after.claims| > |st.claims| { assert after.claims[|st.claims|..][0] == after.claims[|st.claims|]; }
    }
  }

  /** Two stretches of new claims, put together. */
  lemma ClaimsChain(a: seq<Claim>, b: seq<Claim>, c: seq<Claim>)
    requires a <= b <= c
    ensures a <= c && (AllEnd(c[|a|..]) ==> AllEnd(b[|a|..]) && AllEnd(c[|b|..]))
  {
    hide Ends;
    if AllEnd(c[|a|..]) {
      forall i | 0 <= i < |b| - |a| ensures Ends(b[|a|..][i]) { assert b[|a|..][i] == c[|a|..][i]; }
      forall i | 0 <= i < |c| - |b| ensures Ends(c[|b|..][i]) { assert c[|b|..][i] == c[|a|..][|b| - |a| + i]; }
    }
  }

  // --- what a caller can check ---

  /** Wherever a file of the table may start in the source, the length found for it ends at a 64-bit position. */
  ghost predicate LengthsEnd(run: Run)
    requires run.Valid()
  {
    forall sig, start: nat :: sig in run.active && start <= run.scanEnd ==> LengthEnds(run, sig, start)
  }

  predicate LengthEnds(run: Run, sig: Signature, start: nat)
    requires run.Valid()
  {
    var found := Length(run.oracle, run.src, sig, start, run.scanEnd);
    found.Some? ==> start + found.value < U64_LIMIT
  }

  /** Of the modelled strategies only the archive's can fail this, and the headers in the source say where. */
  lemma LengthEndsIff(run: Run, sig: Signature, start: nat)
    requires run.Valid() && start <= run.scanEnd && !sig.extent.Other?
    ensures LengthEnds(run, sig, start) <==>
            !(sig.extent.SevenZip? && start + 32 <= |run.src| && DeclaredSize(run.src, start) < U64_LIMIT
              && U64_LIMIT <= start + DeclaredSize(run.src, start) <= U64_LIMIT + Limit(sig, start, run.scanEnd))
  {
    hide DeclaredSize;
    LengthInBounds(run.oracle, run.src, sig, start, run.scanEnd);
    if sig.extent.SevenZip? { PastLimitIff(run.src, start, Limit(sig, start, run.scanEnd)); }
  }

  lemma OnHitEnds(run: Run, st: State, p: nat, hit: Option<Signature>)
    requires run.Valid() && p < run.scanEnd && AllEnd(st.claims)
    requires hit.Some? ==> hit.value in run.active && LengthsEnd(run)
    ensures AllEnd(OnHit(run, st, p, hit).claims)
  {
    hide Write, Length, ConfidenceOf, AllEnd;
    if !st.stopped && hit.Some? && Eligible(run.opts, st.skipUntil, hit.value, p) {
      var start := p - hit.value.magicOffset;
      assert LengthEnds(run, hit.value, start);
      var found := Length(run.oracle, run.src, hit.value, start, run.scanEnd);
      if found.Some? { OneMoreClaim(st.claims, Claim(start, found.value, IsVolume(hit.value))); }
    }
  }

  // --- whole scans ---

  /**
   * The books balance in every state of a scan, however far its reader sees: no hit it misses or mistakes breaks them.
   */
  lemma {:induction false} SeenKeeps(run: Run, seed: set<seq<byte>>, st: State, lo: nat, hi: nat, end: nat)
    requires run.Valid() && hi <= end <= run.scanEnd && Inv(run, seed, st)
    ensures Inv(run, seed, ScanSeen(run, st, lo, hi, end))
    decreases hi
  {
    hide Inv, OnHit, SeenAt;
    if lo < hi {
      SeenKeeps(run, seed, st, lo, hi - 1, end);
      OnHitKeeps(run, seed, ScanSeen(run, st, lo, hi - 1, end), hi - 1, SeenAt(run, hi - 1, end));
    }
  }

  /**
   * Without nesting, a scan that starts with disjoint regions leaves disjoint regions exactly if all it claims ends.
   * The skip boundary never moves back while the new claims end, and where all lengths end, all claims do.
   */
  lemma {:induction false} SeenClaims(run: Run, st: State, lo: nat, hi: nat, end: nat)
    requires run.Valid() && hi <= end <= run.scanEnd
    ensures ClaimsKept(run, st, ScanSeen(run, st, lo, hi, end))
    decreases hi
  {
    hide OnHit, FirstMatch, AllEnd, DisjointIffAllEnd, LengthsEnd;
    if lo < hi {
      SeenClaims(run, st, lo, hi - 1, end);
      var before, hit := ScanSeen(run, st, lo, hi - 1, end), SeenAt(run, hi - 1, end);
      OnHitClaims(run, before, hi - 1, hit);
      if LengthsEnd(run) && AllEnd(st.claims) { OnHitEnds(run, before, hi - 1, hit); }
      ClaimsChain(st.claims, before.claims, ScanSeen(run, st, lo, hi, end).claims);
    }
  }

  ghost predicate ClaimsKept(run: Run, st: State, after: State)
    requires run.Valid()
  {
    && st.claims <= after.claims
    && (AllEnd(after.claims[|st.claims|..]) ==> st.skipUntil <= after.skipUntil)
    && (!run.opts.allowNested && DisjointIffAllEnd(st) ==> DisjointIffAllEnd(after))
    && (LengthsEnd(run) && AllEnd(st.claims) ==> AllEnd(after.claims))
  }

  /** The same of the one pass, whose reader sees to the end of the range. */
  lemma ScanKeeps(run: Run, seed: set<seq<byte>>, st: State, lo: nat, hi: nat)
    requires run.Valid() && hi <= run.scanEnd && Inv(run, seed, st)
    ensures Inv(run, seed, Scan(run, st, lo, hi))
  {
    hide Inv, Scan, ScanSeen, FirstMatch;
    ScanSeenIsScan(run, st, lo, hi, run.scanEnd);
    SeenKeeps(run, seed, st, lo, hi, run.scanEnd);
  }

  lemma ScanClaims(run: Run, st: State, lo: nat, hi: nat)
    requires run.Valid() && hi <= run.scanEnd
    ensures ClaimsKept(run, st, Scan(run, st, lo, hi))
  {
    hide ClaimsKept, Scan, ScanSeen, FirstMatch;
    ScanSeenIsScan(run, st, lo, hi, run.scanEnd);
    SeenClaims(run, st, lo, hi, run.scanEnd);
  }

  lemma NothingYet(seed: set<seq<byte>>)
    ensures Deduplicated(seed, seed, []) && Consistent(EMPTY_TALLY)
  {
    var none: seq<Row> := [];
    var digests := set i | 0 <= i < |none| :: none[i].sha256;
    assert digests == {};
    assert seed + digests == seed;
  }

  lemma FreshStart(run: Run, seed: set<seq<byte>>)
    ensures Inv(run, seed, State(0, seed, EMPTY_TALLY, [], false))
  {
    hide Deduplicated, Consistent, F.Digest;
    NothingYet(seed);
  }

  lemma NothingClaimed(seed: set<seq<byte>>)
    ensures Disjoint(State(0, seed, EMPTY_TALLY, [], false)) && AllEnd([])
  {
  }

  /**
   * A fresh run, with any seed, starts with its books in order and nothing claimed. So after any number of positions
   * the books are in order, and without nesting the regions are disjoint exactly if they all end, as they do where all
   * lengths end.
   */
  lemma ReachableStates(run: Run, seed: set<seq<byte>>, lo: nat, hi: nat)
    requires run.Valid() && hi <= run.scanEnd
    ensures var st := Scan(run, State(0, seed, EMPTY_TALLY, [], false), lo, hi);
            && Inv(run, seed, st)
            && (!run.opts.allowNested ==> (Disjoint(st) <==> AllEnd(st.claims)))
            && (LengthsEnd(run) ==> AllEnd(st.claims))
  {
    hide Scan, Inv, Disjoint, AllEnd, LengthsEnd;
    var fresh' := State(0, seed, EMPTY_TALLY, [], false);
    FreshStart(run, seed);
    NothingClaimed(seed);
    ScanKeeps(run, seed, fresh', lo, hi);
    ScanClaims(run, fresh', lo, hi);
  }
}
