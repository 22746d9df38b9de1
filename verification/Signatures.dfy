/** File signatures and the index that finds which of them matches at a scan position (`SignatureIndex`). */
module Signatures {
  import opened Bytes

  /**
   * How the end of a file is found. `Other` stands for the strategies this model takes as given; `marksEnd` says
   * whether such a strategy returns a length only when the format's own end was seen.
   */
  datatype Extent =
    | Fixed(size: nat)
    | SizeField(offset: nat, width: nat, bigEndian: bool, mul: nat, add: nat)
    | Footer(marker: seq<byte>, trailing: nat)
    | Jpeg
    | Zip
    | SevenZip
    | Other(kind: nat, marksEnd: bool)

  datatype Signature = Signature(
    name: string, ext: string, magic: seq<byte>, magicOffset: nat, secondary: Option<(nat, seq<byte>)>, extent: Extent,
    maxSize: nat)

  /** Whole filesystem images (`is_volume`): they never hide the files inside them. */
  predicate IsVolume(sig: Signature) {
    sig.ext in {"erofs", "f2fs", "btrfs", "xfs", "exfat", "apfs", "refs", "ntfs", "swap", "romfs", "cramfs", "jfs",
                "ufs", "befs", "hfsplus", "reiserfs"}
  }

  predicate PrefixAt(window: seq<byte>, off: nat, tag: seq<byte>) {
    off + |tag| <= |window| && window[off..off + |tag|] == tag
  }

  /** The magic stands at the head of the window and the secondary tag, if there is one, at its offset. */
  predicate Matches(sig: Signature, window: seq<byte>) {
    && PrefixAt(window, 0, sig.magic)
    && (sig.secondary.Some? ==> PrefixAt(window, sig.secondary.value.0, sig.secondary.value.1))
  }

  /** The first matching signature in table order. */
  function FirstMatch(sigs: seq<Signature>, window: seq<byte>): (r: Option<Signature>)
    ensures r.Some? ==> r.value in sigs && Matches(r.value, window)
    ensures r.None? <==> forall sig :: sig in sigs ==> !Matches(sig, window)
  {
    if sigs == [] then None
    else if Matches(sigs[0], window) then Some(sigs[0])
    else FirstMatch(sigs[1..], window)
  }

  /** Where the secondary tag ends, as a 64-bit sum. */
  function TagEnd(off: nat, tag: seq<byte>): nat { Wrap(off + |tag|) }

  /** The bytes from the magic position that decide a match. A tag whose end wraps lies behind every window. */
  function Reach(sig: Signature): nat {
    match sig.secondary
    case None => |sig.magic|
    case Some((off, tag)) => Max(|sig.magic|, TagEnd(off, tag))
  }

  /** The comparison of the tag starts behind its wrapped end: the program stops with a range error. */
  predicate Trips(sig: Signature, window: seq<byte>) {
    && PrefixAt(window, 0, sig.magic) && sig.secondary.Some?
    && var (off, tag) := sig.secondary.value;
       TagEnd(off, tag) <= |window| && TagEnd(off, tag) < off
  }

  /** A search of the table meets such a comparison before a match. */
  predicate SearchTrips(sigs: seq<Signature>, window: seq<byte>) {
    sigs != [] && (Trips(sigs[0], window) || (!Matches(sigs[0], window) && SearchTrips(sigs[1..], window)))
  }

  predicate TagFits(sig: Signature) {
    sig.secondary.Some? ==> sig.secondary.value.0 + |sig.secondary.value.1| < U64_LIMIT
  }

  /** While the sum stays below 2^64, nothing trips. */
  lemma {:induction false} FittingTagsNeverTrip(sigs: seq<Signature>, window: seq<byte>)
    requires forall sig :: sig in sigs ==> TagFits(sig)
    ensures !SearchTrips(sigs, window)
  {
    if sigs != [] {
      assert TagFits(sigs[0]);
      FittingTagsNeverTrip(sigs[1..], window);
    }
  }

  /** A single signature trips exactly at the windows that start with its magic and reach the wrapped end of its tag. */
  lemma TripsIff(sig: Signature, window: seq<byte>)
    requires sig.secondary.Some? && sig.secondary.value.0 < U64_LIMIT && |sig.secondary.value.1| < U64_LIMIT
    ensures Trips(sig, window) <==>
            !TagFits(sig) && PrefixAt(window, 0, sig.magic)
            && sig.secondary.value.0 + |sig.secondary.value.1| - U64_LIMIT <= |window|
  {
  }

  function MaxReach(sigs: seq<Signature>): (r: nat)
    ensures forall sig :: sig in sigs ==> Reach(sig) <= r
  {
    if sigs == [] then 0 else Max(MaxReach(sigs[..|sigs| - 1]), Reach(sigs[|sigs| - 1]))
  }

  function MaxMagicOffset(sigs: seq<Signature>): (r: nat)
    ensures forall sig :: sig in sigs ==> sig.magicOffset <= r
  {
    if sigs == [] then 0 else Max(MaxMagicOffset(sigs[..|sigs| - 1]), sigs[|sigs| - 1].magicOffset)
  }

  predicate Usable(sigs: seq<Signature>) { forall sig :: sig in sigs ==> sig.magic != [] }

  /** Bytes past the largest reach never change which signature matches. */
  lemma {:induction false} LookaheadDecides(sigs: seq<Signature>, window: seq<byte>, n: nat, look: nat)
    requires n <= |window| < U64_LIMIT && (n == |window| || look <= n)
    requires forall sig :: sig in sigs ==> Reach(sig) <= look
    ensures FirstMatch(sigs, window[..n]) == FirstMatch(sigs, window)
  {
    if sigs != [] {
      LookaheadDecides(sigs[1..], window, n, look);
      PrefixDecides(sigs[0], window, n);
    }
  }

  lemma PrefixDecides(sig: Signature, window: seq<byte>, n: nat)
    requires n <= |window| < U64_LIMIT && (n == |window| || Reach(sig) <= n)
    ensures Matches(sig, window[..n]) <==> Matches(sig, window)
  {
    if n == |window| {
      assert window[..n] == window;
    } else {
      assert window[..n][..|sig.magic|] == window[..|sig.magic|];
      if sig.secondary.Some? {
        var (off, tag) := sig.secondary.value;
        if off + |tag| < U64_LIMIT {
          assert window[..n][off..off + |tag|] == window[off..off + |tag|];
        }
      }
    }
  }

  /** The first match in the window, if there is one, is decided by `n` bytes. */
  predicate Decided(sigs: seq<Signature>, window: seq<byte>, n: nat) {
    match FirstMatch(sigs, window)
    case None => true
    case Some(sig) => Reach(sig) <= n
  }

  lemma ShorterMatches(sig: Signature, window: seq<byte>, n: nat)
    requires n <= |window| < U64_LIMIT && Matches(sig, window[..n])
    ensures Matches(sig, window) && Reach(sig) <= n
  {
    assert window[..n][..|sig.magic|] == window[..|sig.magic|];
    if sig.secondary.Some? {
      var (off, tag) := sig.secondary.value;
      assert window[..n][off..off + |tag|] == window[off..off + |tag|];
    }
  }

  /** A window cut to `n` bytes has the same first match exactly when that match is decided by `n` bytes. */
  lemma {:induction false} DecidedIff(sigs: seq<Signature>, window: seq<byte>, n: nat)
    requires n <= |window| < U64_LIMIT
    ensures FirstMatch(sigs, window[..n]) == FirstMatch(sigs, window) <==> Decided(sigs, window, n)
  {
    hide Matches, Reach;
    if sigs != [] {
      if Matches(sigs[0], window[..n]) {
        ShorterMatches(sigs[0], window, n);
      } else if Matches(sigs[0], window) {
        if Reach(sigs[0]) <= n { PrefixDecides(sigs[0], window, n); }
      } else {
        DecidedIff(sigs[1..], window, n);
      }
    }
  }

  // --- the index ---

  /** The signatures whose magic starts with `b`, in table order. */
  function Bucket(sigs: seq<Signature>, b: nat): (r: seq<Signature>)
    requires Usable(sigs)
    ensures forall sig :: sig in r <==> sig in sigs && sig.magic[0] == b
  {
    if sigs == [] then []
    else Bucket(sigs[..|sigs| - 1], b) + (if sigs[|sigs| - 1].magic[0] == b then [sigs[|sigs| - 1]] else [])
  }

  /** Some magic can start with these two bytes; a one-byte magic can be followed by any byte. */
  predicate PrefixMarked(sigs: seq<Signature>, b0: nat, b1: nat)
    requires Usable(sigs)
  {
    exists sig :: sig in sigs && sig.magic[0] == b0 && (|sig.magic| == 1 || sig.magic[1] == b1)
  }

  function LeadingZeros(s: seq<byte>): (n: nat)
    ensures n <= |s| && (forall i :: 0 <= i < n ==> s[i] == 0) && (n < |s| ==> s[n] != 0)
  {
    if s == [] || s[0] != 0 then 0 else 1 + LeadingZeros(s[1..])
  }

  /** The most leading zero bytes of any magic, or nothing when some magic is all zeros. */
  function MaxLeadingZeros(sigs: seq<Signature>): (r: Option<nat>)
    ensures r.Some? ==> forall sig :: sig in sigs ==>
            LeadingZeros(sig.magic) < |sig.magic| && LeadingZeros(sig.magic) <= r.value
    ensures r.None? ==> exists sig :: sig in sigs && LeadingZeros(sig.magic) == |sig.magic|
  {
    if sigs == [] then Some(0)
    else
      var last := sigs[|sigs| - 1];
      match MaxLeadingZeros(sigs[..|sigs| - 1])
      case None => None
      case Some(m) => if LeadingZeros(last.magic) < |last.magic| then Some(Max(m, LeadingZeros(last.magic))) else None
  }

  lemma {:induction false} FirstMatchSnoc(sigs: seq<Signature>, sig: Signature, window: seq<byte>)
    ensures FirstMatch(sigs + [sig], window)
         == if FirstMatch(sigs, window).Some? then FirstMatch(sigs, window) else if Matches(sig, window) then Some(sig)
           else None
  {
    if sigs != [] {
      assert (sigs + [sig])[1..] == sigs[1..] + [sig];
      FirstMatchSnoc(sigs[1..], sig, window);
    }
  }

  lemma MatchHead(sig: Signature, window: seq<byte>, k: nat)
    ensures Matches(sig, window) && k < |sig.magic| ==> k < |window| && window[k] == sig.magic[k]
  {
    assert Matches(sig, window) && k < |sig.magic| ==> window[..|sig.magic|][k] == window[k];
  }

  lemma {:induction false} TripsSnoc(sigs: seq<Signature>, sig: Signature, window: seq<byte>)
    ensures SearchTrips(sigs + [sig], window)
        <==> SearchTrips(sigs, window) || (FirstMatch(sigs, window).None? && Trips(sig, window))
  {
    hide Trips, Matches;
    if sigs == [] {
      assert [] + [sig] == [sig];
    } else {
      assert (sigs + [sig])[1..] == sigs[1..] + [sig];
      TripsSnoc(sigs[1..], sig, window);
    }
  }

  /** The bucket of the first byte trips exactly when the whole table does. */
  lemma {:induction false} BucketTrips(sigs: seq<Signature>, window: seq<byte>)
    requires Usable(sigs) && window != []
    ensures SearchTrips(Bucket(sigs, window[0]), window) <==> SearchTrips(sigs, window)
  {
    hide Matches, FirstMatch, SearchTrips;
    if sigs != [] {
      var front, last := sigs[..|sigs| - 1], sigs[|sigs| - 1];
      assert sigs == front + [last];
      BucketTrips(front, window);
      BucketSuffices(front, window);
      TripsSnoc(front, last, window);
      if last.magic[0] == window[0] {
        TripsSnoc(Bucket(front, window[0]), last, window);
      } else {
        TripsHead(last, window, 0);
        assert Bucket(sigs, window[0]) == Bucket(front, window[0]);
      }
    } else {
      assert Bucket(sigs, window[0]) == sigs;
    }
  }

  lemma TripsHead(sig: Signature, window: seq<byte>, k: nat)
    ensures Trips(sig, window) && k < |sig.magic| ==> k < |window| && window[k] == sig.magic[k]
  {
    assert Trips(sig, window) && k < |sig.magic| ==> window[..|sig.magic|][k] == window[k];
  }

  lemma {:induction false} NothingTrips(sigs: seq<Signature>, window: seq<byte>)
    requires forall sig :: sig in sigs ==> !Trips(sig, window)
    ensures !SearchTrips(sigs, window)
  {
    if sigs != [] { NothingTrips(sigs[1..], window); }
  }

  /** Searching only the bucket of the window's first byte finds the same signature. */
  lemma {:induction false} BucketSuffices(sigs: seq<Signature>, window: seq<byte>)
    requires Usable(sigs) && window != []
    ensures FirstMatch(Bucket(sigs, window[0]), window) == FirstMatch(sigs, window)
  {
    hide Matches;
    if sigs != [] {
      var front, last := sigs[..|sigs| - 1], sigs[|sigs| - 1];
      BucketSuffices(front, window);
      assert sigs == front + [last];
      FirstMatchSnoc(front, last, window);
      if last.magic[0] == window[0] {
        FirstMatchSnoc(Bucket(front, window[0]), last, window);
      } else {
        MatchHead(last, window, 0);
        assert Bucket(sigs, window[0]) == Bucket(front, window[0]);
      }
    }
  }

  /** A window whose two-byte prefix no magic has matches nothing. */
  lemma UnmarkedNeverMatches(sigs: seq<Signature>, window: seq<byte>)
    requires Usable(sigs) && |window| >= 2 && !PrefixMarked(sigs, window[0], window[1])
    ensures FirstMatch(sigs, window) == None && !SearchTrips(sigs, window)
  {
    forall sig | sig in sigs ensures !Matches(sig, window) {
      MatchHead(sig, window, 0);
      MatchHead(sig, window, 1);
    }
    forall sig | sig in sigs ensures !Trips(sig, window) {
      TripsHead(sig, window, 0);
      TripsHead(sig, window, 1);
    }
    NothingTrips(sigs, window);
  }

  lemma SnocMarked(sigs: seq<Signature>, sig: Signature)
    requires Usable(sigs) && sig.magic != []
    ensures forall b0: byte, b1: byte ::
              PrefixMarked(sigs + [sig], b0, b1) <==> PrefixMarked(sigs, b0, b1) || PrefixMarked([sig], b0, b1)
  {
    forall s | s in sigs + [sig] ensures s in sigs || s in [sig] { }
    assert forall s :: s in sigs || s in [sig] ==> s in sigs + [sig];
  }

  /** Mark the two-byte prefix of a magic, or all 256 of a one-byte magic. */
  method MarkPrefixes(marked: array2<bool>, sig: Signature)
    requires marked.Length0 == marked.Length1 == 256 && sig.magic != []
    modifies marked
    ensures forall b0: byte, b1: byte :: marked[b0, b1] <==> old(marked[b0, b1]) || PrefixMarked([sig], b0, b1)
  {
    var first := sig.magic[0];
    if |sig.magic| >= 2 {
      marked[first, sig.magic[1]] := true;
    } else {
      for b1 := 0 to 256
        invariant forall k0: byte, k1: byte :: marked[k0, k1] <==> old(marked[k0, k1]) || (k0 == first && k1 < b1)
      {
        marked[first, b1] := true;
      }
    }
  }

  /** File one more signature under its first byte and mark its prefix. */
  method FileSignature(buckets: array<seq<Signature>>, marked: array2<bool>, sigs: seq<Signature>, i: nat)
    requires Usable(sigs) && i < |sigs| && buckets.Length == marked.Length0 == marked.Length1 == 256
    requires forall b: byte :: buckets[b] == Bucket(sigs[..i], b)
    requires forall b0: byte, b1: byte :: marked[b0, b1] <==> PrefixMarked(sigs[..i], b0, b1)
    modifies buckets, marked
    ensures forall b: byte :: buckets[b] == Bucket(sigs[..i + 1], b)
    ensures forall b0: byte, b1: byte :: marked[b0, b1] <==> PrefixMarked(sigs[..i + 1], b0, b1)
  {
    hide PrefixMarked;
    var sig := sigs[i];
    assert sigs[..i + 1] == sigs[..i] + [sig] && sigs[..i + 1][..i] == sigs[..i];
    buckets[sig.magic[0]] := buckets[sig.magic[0]] + [sig];
    MarkPrefixes(marked, sig);
    SnocMarked(sigs[..i], sig);
  }

  class SignatureIndex {
    const byFirstByte: array<seq<Signature>>
    /** One flag for each two-byte prefix. */
    const prefixMarked: array2<bool>
    var maxLeadingZeros: Option<nat>
    var maxLookahead: nat
    ghost const active: seq<Signature>

    ghost predicate Valid()
      reads this, byFirstByte, prefixMarked
    {
      && Usable(active)
      && byFirstByte.Length == prefixMarked.Length0 == prefixMarked.Length1 == 256
      && (forall b: byte :: byFirstByte[b] == Bucket(active, b))
      && (forall b0: byte, b1: byte :: prefixMarked[b0, b1] <==> PrefixMarked(active, b0, b1))
      && maxLeadingZeros == MaxLeadingZeros(active)
      && maxLookahead == MaxReach(active)
    }

    /** `SignatureIndex::build`. An empty magic has no first byte to file it under. */
    constructor (sigs: seq<Signature>)
      requires Usable(sigs)
      ensures Valid() && active == sigs && fresh(byFirstByte) && fresh(prefixMarked)
    {
      var buckets := new seq<Signature>[256](_ => []);
      var marked := new bool[256, 256]((_, _) => false);
      var zeros: Option<nat> := Some(0);
      var look := 0;
      for i := 0 to |sigs|
        invariant forall b: byte :: buckets[b] == Bucket(sigs[..i], b)
        invariant forall b0: byte, b1: byte :: marked[b0, b1] <==> PrefixMarked(sigs[..i], b0, b1)
        invariant zeros == MaxLeadingZeros(sigs[..i]) && look == MaxReach(sigs[..i])
      {
        FileSignature(buckets, marked, sigs, i);
        var sig := sigs[i];
        assert sigs[..i + 1][..i] == sigs[..i];
        var lz := LeadingZeros(sig.magic);
        zeros := if zeros.Some? && lz < |sig.magic| then Some(Max(zeros.value, lz)) else None;
        look := Max(look, Reach(sig));
      }
      assert sigs[..|sigs|] == sigs;
      byFirstByte := buckets;
      prefixMarked := marked;
      maxLeadingZeros := zeros;
      maxLookahead := look;
      active := sigs;
    }

    /** How far the scan may jump when `block` zero bytes stand at the current position. */
    function ZeroSkip(block: nat): (r: Option<nat>)
      reads this
      ensures r.Some? ==> 0 < r.value <= block && maxLeadingZeros.Some? && r.value == block - maxLeadingZeros.value
    {
      if maxLeadingZeros.Some? && maxLeadingZeros.value < block then Some(block - maxLeadingZeros.value) else None
    }

    /**
     * The indexed search finds the first signature of the whole table that matches, or stops with a range error exactly
     * when a search of the whole table does.
     */
    method MatchAt(window: seq<byte>) returns (r: Option<Signature>, tripped: bool)
      requires Valid() && |window| < U64_LIMIT
      ensures tripped <==> SearchTrips(active, window)
      ensures !tripped ==> r == FirstMatch(active, window)
    {
      if window == [] {
        EmptyWindow(active);
        return None, false;
      }
      var first := window[0];
      if |window| >= 2 && !prefixMarked[first, window[1]] {
        UnmarkedNeverMatches(active, window);
        return None, false;
      }
      BucketSuffices(active, window);
      BucketTrips(active, window);
      var bucket := byFirstByte[first];
      for i := 0 to |bucket|
        invariant FirstMatch(bucket[i..], window) == FirstMatch(active, window)
        invariant SearchTrips(bucket[i..], window) <==> SearchTrips(active, window)
      {
        assert bucket[i..][1..] == bucket[i + 1..];
        var matches, trips := Compare(bucket[i], window);
        if trips {
          return None, true;
        }
        if matches {
          return Some(bucket[i]), false;
        }
      }
      return None, false;
    }
  }

  /** One signature against the window, as the program compares it. */
  method Compare(sig: Signature, window: seq<byte>) returns (matches: bool, tripped: bool)
    requires |window| < U64_LIMIT
    ensures tripped <==> Trips(sig, window)
    ensures !tripped ==> matches == Matches(sig, window)
  {
    if |window| < |sig.magic| || window[..|sig.magic|] != sig.magic {
      return false, false;
    }
    if sig.secondary.Some? {
      var (off, tag) := sig.secondary.value;
      var end := TagEnd(off, tag);
      if |window| < end {
        return false, false;
      }
      if end < off {
        return false, true;
      }
      if window[off..end] != tag {
        return false, false;
      }
    }
    return true, false;
  }

  lemma EmptyWindow(sigs: seq<Signature>)
    requires Usable(sigs)
    ensures FirstMatch(sigs, []) == None && !SearchTrips(sigs, [])
  {
    NothingTrips(sigs, []);
  }

  /** None of the skipped positions of an all-zero block can start a match. */
  lemma ZeroSkipIsSafe(sigs: seq<Signature>, window: seq<byte>, block: nat, j: nat)
    requires Usable(sigs) && MaxLeadingZeros(sigs).Some? && j + MaxLeadingZeros(sigs).value < block <= |window|
    requires forall k :: 0 <= k < block ==> window[k] == 0
    ensures FirstMatch(sigs, window[j..]) == None && !SearchTrips(sigs, window[j..])
  {
    forall sig | sig in sigs ensures !Matches(sig, window[j..]) {
      var z := LeadingZeros(sig.magic);
      MatchHead(sig, window[j..], z);
      assert window[j..][z] == window[j + z] == 0;
    }
    forall sig | sig in sigs ensures !Trips(sig, window[j..]) {
      var z := LeadingZeros(sig.magic);
      TripsHead(sig, window[j..], z);
      assert window[j..][z] == window[j + z] == 0;
    }
    NothingTrips(sigs, window[j..]);
  }
}
