/** Forward search for a terminator through a sliding window (`find_footer`, `find_subsequence`). */
module Footer {
  import opened Bytes

  /** The needle lies at `i`, wholly inside s[..end]. */
  predicate OccursAt(s: seq<byte>, end: nat, needle: seq<byte>, i: int)
    requires end <= |s|
  {
    0 <= i <= i + |needle| <= end && s[i..i + |needle|] == needle
  }

  /**
   * The first occurrence inside s[..end] of a needle that starts at or after `from`. An empty needle is never found.
   */
  function FindFrom(s: seq<byte>, end: nat, needle: seq<byte>, from: nat): (r: Option<nat>)
    requires end <= |s|
    ensures r.Some? ==> needle != [] && from <= r.value && OccursAt(s, end, needle, r.value)
    ensures needle != [] ==> forall j :: from <= j < (if r.Some? then r.value else end) ==> !OccursAt(s, end, needle, j)
    decreases Max(0, end - from)
  {
    if needle == [] || end < from + |needle| then None
    else if s[from..from + |needle|] == needle then Some(from)
    else FindFrom(s, end, needle, from + 1)
  }

  /** `find_subsequence`: where the needle first lies in the haystack; nowhere if it is empty or does not fit. */
  function FindSubsequence(haystack: seq<byte>, needle: seq<byte>): (r: Option<nat>)
    ensures r.Some? ==>
              && needle != [] && OccursAt(haystack, |haystack|, needle, r.value)
              && forall j :: 0 <= j < r.value ==> !OccursAt(haystack, |haystack|, needle, j)
    ensures r.None? <==> needle == [] || forall j :: 0 <= j <= |haystack| ==> !OccursAt(haystack, |haystack|, needle, j)
  {
    FindFrom(haystack, |haystack|, needle, 0)
  }

  predicate IsEol(b: byte) { b == 0x0D || b == 0x0A }

  /** `n` is the length of the longest run of CR/LF bytes at `at`, of at most `trailing` bytes and not past `end`. */
  predicate IsEolRun(src: seq<byte>, at: nat, trailing: nat, end: nat, n: nat)
    requires end <= |src|
  {
    && n <= trailing
    && (n > 0 ==> at + n <= end)
    && (forall k :: at <= k < at + n ==> k < |src| && IsEol(src[k]))
    && (n == trailing || at + n >= end || !IsEol(src[at + n]))
  }

  /** The longest such run, as a function. */
  function EolRun(src: seq<byte>, at: nat, trailing: nat, end: nat): (n: nat)
    requires end <= |src|
    ensures IsEolRun(src, at, trailing, end, n)
    decreases trailing
  {
    if trailing == 0 || at >= end || !IsEol(src[at]) then 0 else 1 + EolRun(src, at + 1, trailing - 1, end)
  }

  lemma EolRunUnique(src: seq<byte>, at: nat, trailing: nat, end: nat, n: nat)
    requires end <= |src| && IsEolRun(src, at, trailing, end, n)
    ensures n == EolRun(src, at, trailing, end)
    decreases trailing
  {
    if n > 0 {
      assert IsEol(src[at]);
      EolRunUnique(src, at + 1, trailing - 1, end, n - 1);
    }
  }

  /** The answer of a one-pass search over src[start..limit): first marker, then the CR/LF run behind it. */
  function FooterLength(src: seq<byte>, start: nat, marker: seq<byte>, trailing: nat, limit: nat): (r: Option<nat>)
    ensures r.Some? ==> 0 < r.value && start + r.value <= Min(limit, |src|)
  {
    var end := Min(limit, |src|);
    match FindFrom(src, end, marker, start)
    case None => None
    case Some(i) => Some(i + |marker| + EolRun(src, i + |marker|, trailing, end) - start)
  }

  /** How many bytes `marker_end + trailing` leaves room for when the sum wraps. */
  function Allowance(markerEnd: nat, trailing: nat): nat { Max(0, Wrap(markerEnd + trailing) - markerEnd) }

  /** What the search computes: as `FooterLength`, but for the wrapped sum behind the marker. */
  function FooterFound(src: seq<byte>, start: nat, marker: seq<byte>, trailing: nat, limit: nat): (r: Option<nat>)
    ensures r.Some? ==> 0 < r.value && start + r.value <= Min(limit, |src|)
  {
    var end := Min(limit, |src|);
    match FindFrom(src, end, marker, start)
    case None => None
    case Some(i) => Some(i + |marker| + EolRun(src, i + |marker|, Allowance(i + |marker|, trailing), end) - start)
  }

  /**
   * The search keeps its promise exactly when it finds nothing, when `marker_end + trailing` stays below 2^64, or when
   * there is no line end behind the marker to miss.
   */
  lemma FooterFoundIff(src: seq<byte>, start: nat, marker: seq<byte>, trailing: u64, limit: nat)
    requires |src| < U64_LIMIT
    ensures var end := Min(limit, |src|);
            var found := FindFrom(src, end, marker, start);
            FooterFound(src, start, marker, trailing, limit) == FooterLength(src, start, marker, trailing, limit) <==>
            (found.Some? ==>
               var at := found.value + |marker|;
               at + trailing < U64_LIMIT || trailing == 0 || at == end || !IsEol(src[at]))
  {
    var end := Min(limit, |src|);
    var found := FindFrom(src, end, marker, start);
    if found.Some? {
      var at := found.value + |marker|;
      if at + trailing >= U64_LIMIT {
        assert Allowance(at, trailing) == 0;
        assert EolRun(src, at, 0, end) == 0;
      } else {
        assert Allowance(at, trailing) == trailing;
      }
    }
  }

  /** A limit that leaves room for the allowance is enough, whatever the bytes. */
  lemma RoomForTrailing(src: seq<byte>, start: nat, marker: seq<byte>, trailing: u64, limit: nat)
    requires |src| < U64_LIMIT && limit + trailing < U64_LIMIT
    ensures FooterFound(src, start, marker, trailing, limit) == FooterLength(src, start, marker, trailing, limit)
  {
    FooterFoundIff(src, start, marker, trailing, limit);
  }

  lemma FirstIsFound(s: seq<byte>, end: nat, needle: seq<byte>, from: nat, i: nat)
    requires end <= |s| && needle != [] && from <= i && OccursAt(s, end, needle, i)
    requires forall j :: from <= j < i ==> !OccursAt(s, end, needle, j)
    ensures FindFrom(s, end, needle, from) == Some(i)
  {
  }

  lemma NothingFound(s: seq<byte>, end: nat, needle: seq<byte>, from: nat)
    requires end <= |s|
    requires needle != [] ==> forall j :: from <= j < end ==> !OccursAt(s, end, needle, j)
    ensures FindFrom(s, end, needle, from) == None
  {
  }

  /** A windowed search finds what the whole source holds: an occurrence, or none that ends inside the window. */
  lemma WindowSearch(src: seq<byte>, end: nat, needle: seq<byte>, pos: nat, buf: seq<byte>)
    requires pos + |buf| <= end <= |src| && buf == src[pos..pos + |buf|] && needle != []
    ensures match FindSubsequence(buf, needle)
            case Some(k) =>
              && OccursAt(src, end, needle, pos + k)
              && (forall j :: pos <= j < pos + k ==> !OccursAt(src, end, needle, j))
            case None =>
              forall j :: pos <= j && j + |needle| <= pos + |buf| ==> !OccursAt(src, end, needle, j)
  {
    forall j | 0 <= j && j + |needle| <= |buf|
      ensures OccursAt(buf, |buf|, needle, j) <==> OccursAt(src, end, needle, pos + j)
    {
      SliceOfSlice(src, pos, pos + |buf|, j, j + |needle|);
    }
    var found := FindSubsequence(buf, needle);
    forall j | pos <= j && j + |needle| <= pos + |buf| && (found.Some? ==> j < pos + found.value)
      ensures !OccursAt(src, end, needle, j)
    {
      assert !OccursAt(buf, |buf|, needle, j - pos);
    }
  }

  /** The same for a search that starts `from` bytes into the window. */
  lemma WindowSearchFrom(src: seq<byte>, end: nat, needle: seq<byte>, pos: nat, buf: seq<byte>, from: nat)
    requires pos + |buf| <= end <= |src| && buf == src[pos..pos + |buf|] && needle != [] && from <= |buf|
    ensures match FindSubsequence(buf[from..], needle)
            case Some(k) =>
              && from + k + |needle| <= |buf|
              && OccursAt(src, end, needle, pos + from + k)
              && (forall j :: pos + from <= j < pos + from + k ==> !OccursAt(src, end, needle, j))
            case None =>
              forall j :: pos + from <= j && j + |needle| <= pos + |buf| ==> !OccursAt(src, end, needle, j)
  {
    SliceOfSlice(src, pos, pos + |buf|, from, |buf|);
    WindowSearch(src, end, needle, pos + from, buf[from..]);
  }

  /** Absorb CR/LF bytes after the marker, from the window while it lasts and from the source behind it. */
  method TrailingEol(src: seq<byte>, buf: seq<byte>, pos: nat, markerEnd: nat, trailing: nat, limit: nat)
    returns (n: nat)
    requires pos + |buf| <= Min(limit, |src|) && buf == src[pos..pos + |buf|]
    requires pos <= markerEnd <= pos + |buf|
    ensures n == EolRun(src, markerEnd, Allowance(markerEnd, trailing), Min(limit, |src|))
  {
    n := 0;
    while markerEnd + n < Wrap(markerEnd + trailing) && markerEnd + n < limit
      invariant n <= Allowance(markerEnd, trailing)
      invariant n > 0 ==> markerEnd + n <= Min(limit, |src|)
      invariant forall k :: markerEnd <= k < markerEnd + n ==> k < |src| && IsEol(src[k])
    {
      var rel := markerEnd + n - pos;
      var got := if rel < |buf| then [buf[rel]] else ReadAt(src, markerEnd + n, 1);
      if got == [] || !IsEol(got[0]) {
        break;
      }
      n := n + 1;
    }
    EolRunUnique(src, markerEnd, Allowance(markerEnd, trailing), Min(limit, |src|), n);
  }

  /** No occurrence starts in s[from..to). */
  ghost predicate Quiet(s: seq<byte>, end: nat, needle: seq<byte>, from: nat, to: int)
    requires end <= |s|
  {
    forall j :: from <= j < to ==> !OccursAt(s, end, needle, j)
  }

  /** Search one window of a search that found nothing before `pos`. */
  method SearchWindow(src: seq<byte>, fileStart: nat, marker: seq<byte>, trailing: nat, limit: nat, pos: nat,
                      buf: seq<byte>)
    returns (r: Option<nat>)
    requires fileStart <= pos && pos + |buf| <= Min(limit, |src|) && buf == src[pos..pos + |buf|]
    requires marker != [] && Quiet(src, Min(limit, |src|), marker, fileStart, pos)
    ensures r.Some? ==> r == FooterFound(src, fileStart, marker, trailing, limit)
    ensures r.None? ==> Quiet(src, Min(limit, |src|), marker, fileStart, pos + |buf| - |marker| + 1)
  {
    WindowSearch(src, Min(limit, |src|), marker, pos, buf);
    var found := FindSubsequence(buf, marker);
    if found.None? {
      return None;
    }
    var i := pos + found.value;
    FirstIsFound(src, Min(limit, |src|), marker, fileStart, i);
    var eol := TrailingEol(src, buf, pos, i + |marker|, trailing, limit);
    return Some(i + |marker| + eol - fileStart);
  }

  /**
   * `find_footer` with its 1 MiB window made a parameter: every window of at least one byte gives the one-pass answer.
   */
  method FindFooter(src: seq<byte>, fileStart: nat, marker: seq<byte>, trailing: nat, limit: nat, window: nat)
    returns (r: Option<nat>)
    requires window >= 1 && fileStart <= limit
    ensures r == FooterFound(src, fileStart, marker, trailing, limit)
  {
    var overlap := Max(|marker| - 1, 0);
    ghost var end := Min(limit, |src|);
    var pos := fileStart;
    while pos < limit
      invariant fileStart <= pos && (pos == fileStart || pos <= end)
      invariant marker != [] ==> Quiet(src, end, marker, fileStart, pos)
    {
      var want := Min(limit - pos, window + overlap);
      var buf := ReadAt(src, pos, want);
      var n := |buf|;
      if n == 0 {
        break;
      }
      if marker != [] { // an empty marker is never found
        var found := SearchWindow(src, fileStart, marker, trailing, limit, pos, buf);
        if found.Some? {
          return found;
        }
      }
      if n < want || pos + n >= limit {
        break;
      }
      pos := pos + n - overlap;
    }
    NothingFound(src, end, marker, fileStart);
    return None;
  }

  /** FooterLength is exactly: the first marker in src[start..limit), then the longest allowed CR/LF run behind it. */
  lemma FooterLengthMeaning(src: seq<byte>, start: nat, marker: seq<byte>, trailing: nat, limit: nat, len: nat)
    ensures FooterLength(src, start, marker, trailing, limit) == Some(len) <==>
            marker != [] && exists i: nat {:trigger OccursAt(src, Min(limit, |src|), marker, i)} ::
              && start <= i && OccursAt(src, Min(limit, |src|), marker, i)
              && Quiet(src, Min(limit, |src|), marker, start, i)
              && start + len >= i + |marker|
              && IsEolRun(src, i + |marker|, trailing, Min(limit, |src|), start + len - i - |marker|)
  {
    var end := Min(limit, |src|);
    forall i: nat | marker != [] && start <= i && OccursAt(src, end, marker, i) && Quiet(src, end, marker, start, i)
      ensures FindFrom(src, end, marker, start) == Some(i)
    {
      FirstIsFound(src, end, marker, start, i);
    }
    forall i: nat, n: nat | IsEolRun(src, i, trailing, end, n) ensures n == EolRun(src, i, trailing, end) {
      EolRunUnique(src, i, trailing, end, n);
    }
  }

  // --- where the search starts ---

  /**
   * A marker at the file's own start ends the file there: a file whose magic is its marker is carved to the magic
   * alone.
   */
  lemma MarkerAtStart(src: seq<byte>, start: nat, marker: seq<byte>, trailing: nat, limit: nat)
    requires marker != [] && OccursAt(src, Min(limit, |src|), marker, start)
    ensures FooterFound(src, start, marker, trailing, limit)
         == Some(|marker| + EolRun(src, start + |marker|, Allowance(start + |marker|, trailing), Min(limit, |src|)))
  {
    FirstIsFound(src, Min(limit, |src|), marker, start, start);
  }

  /** What a search that starts past a header of this length gives, as a length from the file's start. */
  function PastHeader(src: seq<byte>, start: nat, header: nat, marker: seq<byte>, trailing: nat,
                      limit: nat): Option<nat> {
    match FooterFound(src, start + header, marker, trailing, limit)
    case None => None
    case Some(len) => Some(header + len)
  }

  lemma MarkersOrder(src: seq<byte>, end: nat, marker: seq<byte>, from: nat, later: nat)
    requires end <= |src| && from <= later && marker != []
    ensures FindFrom(src, end, marker, from) == FindFrom(src, end, marker, later)
        <==> Quiet(src, end, marker, from, Min(later, end))
  {
    var found, next := FindFrom(src, end, marker, from), FindFrom(src, end, marker, later);
    if Quiet(src, end, marker, from, Min(later, end)) {
      if next.Some? { FirstIsFound(src, end, marker, from, next.value); } else { NothingFound(src, end, marker, from); }
    }
  }

  /**
   * Starting at the file's first byte finds the same marker as starting past its header exactly when no marker starts
   * inside the header.
   */
  lemma SameAsPastHeaderIff(src: seq<byte>, start: nat, header: nat, marker: seq<byte>, trailing: nat, limit: nat)
    requires marker != []
    ensures var end := Min(limit, |src|);
            FindFrom(src, end, marker, start) == FindFrom(src, end, marker, start + header)
            <==> forall j :: start <= j < start + header ==> !OccursAt(src, end, marker, j)
    ensures (forall j :: start <= j < start + header ==> !OccursAt(src, Min(limit, |src|), marker, j)) ==>
              FooterFound(src, start, marker, trailing, limit)
                == PastHeader(src, start, header, marker, trailing, limit)
  {
    hide FindFrom, EolRun, Allowance;
    MarkersOrder(src, Min(limit, |src|), marker, start, start + header);
  }
}
