/** End of a JPEG by matching start- and end-of-image markers through a sliding window (`jpeg_length`). */
module Jpeg {
  import opened Bytes

  /** A whole FF D8 (start of image) or FF D9 (end of image) marker at `p`, inside src[..end]. */
  predicate Soi(src: seq<byte>, end: nat, p: nat)
    requires end <= |src|
  {
    p + 1 < end && src[p] == 0xFF && src[p + 1] == 0xD8
  }

  predicate Eoi(src: seq<byte>, end: nat, p: nat)
    requires end <= |src|
  {
    p + 1 < end && src[p] == 0xFF && src[p + 1] == 0xD9
  }

  /** How many more start markers than end markers begin in src[lo..hi). */
  function Balance(src: seq<byte>, end: nat, lo: nat, hi: nat): int
    requires end <= |src|
    decreases hi
  {
    if hi <= lo then 0
    else Balance(src, end, lo, hi - 1) + (if Soi(src, end, hi - 1) then 1 else if Eoi(src, end, hi - 1) then -1 else 0)
  }

  /** `q` is the first point after `lo` by which the end markers outnumber the start markers. */
  ghost predicate ClosesAt(src: seq<byte>, end: nat, lo: nat, q: nat)
    requires end <= |src|
  {
    && lo <= q && Balance(src, end, lo, q + 1) < 0
    && forall p :: lo <= p <= q ==> Balance(src, end, lo, p) >= 0
  }

  /** One pass over the source: the first closing point at or after `p`. */
  function FirstClose(src: seq<byte>, end: nat, lo: nat, p: nat): (r: Option<nat>)
    requires lo <= p && end <= |src|
    ensures r.Some? ==> p <= r.value && r.value + 2 <= end
    decreases Max(0, end - p)
  {
    if p + 1 >= end then None
    else if Balance(src, end, lo, p + 1) < 0 then Some(p)
    else FirstClose(src, end, lo, p + 1)
  }

  lemma {:induction false} FirstCloseFinds(src: seq<byte>, end: nat, lo: nat, p: nat, q: nat)
    requires lo <= p <= q && end <= |src| && ClosesAt(src, end, lo, q)
    ensures FirstClose(src, end, lo, p) == Some(q)
    decreases q - p
  {
    assert Balance(src, end, lo, q) >= 0;
    if p < q { FirstCloseFinds(src, end, lo, p + 1, q); }
  }

  lemma {:induction false} FirstCloseNone(src: seq<byte>, end: nat, lo: nat, p: nat, to: nat)
    requires lo <= p && end <= |src| && end <= to + 1 && forall q :: lo <= q <= to ==> Balance(src, end, lo, q) >= 0
    ensures FirstClose(src, end, lo, p) == None
    decreases Max(0, end - p)
  {
    if p + 1 < end { FirstCloseNone(src, end, lo, p + 1, to); }
  }

  lemma {:induction false} FirstCloseSound(src: seq<byte>, end: nat, lo: nat, p: nat)
    requires lo <= p && end <= |src| && forall q :: lo <= q <= p ==> Balance(src, end, lo, q) >= 0
    ensures match FirstClose(src, end, lo, p)
            case Some(q) => ClosesAt(src, end, lo, q) && Eoi(src, end, q)
            case None => forall q :: lo <= q ==> !ClosesAt(src, end, lo, q)
    decreases Max(0, end - p)
  {
    if p + 1 >= end {
      forall q | lo <= q ensures !ClosesAt(src, end, lo, q) {
        assert q < p || Balance(src, end, lo, q + 1) == Balance(src, end, lo, q);
      }
    } else if Balance(src, end, lo, p + 1) < 0 {
      assert Balance(src, end, lo, p) >= 0;
    } else {
      FirstCloseSound(src, end, lo, p + 1);
    }
  }

  /** The length a carve gets: none without the outer FF D8, else up to and with the marker that closes it. */
  function JpegLength(src: seq<byte>, fileStart: nat, limit: nat): (r: Option<nat>)
    requires limit <= |src|
    ensures r.Some? ==> 4 <= r.value && fileStart + r.value <= limit
  {
    var soi := ReadAt(src, fileStart, 3);
    if |soi| < 3 || soi[0] != 0xFF || soi[1] != 0xD8 then None
    else
      match FirstClose(src, limit, fileStart + 2, fileStart + 2)
      case None => None
      case Some(q) => Some(q + 2 - fileStart)
  }

  /**
   * JpegLength is exactly: an outer start marker, and the first later point where end markers outnumber start markers.
   */
  lemma JpegLengthMeaning(src: seq<byte>, fileStart: nat, limit: nat, len: nat)
    requires limit <= |src|
    ensures JpegLength(src, fileStart, limit) == Some(len) <==>
            && fileStart + 3 <= |src| && src[fileStart] == 0xFF && src[fileStart + 1] == 0xD8
            && len >= 4 && ClosesAt(src, limit, fileStart + 2, fileStart + len - 2)
  {
    var lo := fileStart + 2;
    FirstCloseSound(src, limit, lo, lo);
    if len >= 4 && ClosesAt(src, limit, lo, fileStart + len - 2) {
      FirstCloseFinds(src, limit, lo, lo, fileStart + len - 2);
    }
  }

  /**
   * Walk the markers of one window. Either the closing marker is in it, or the walk stops at the window's last byte, or
   * just behind a pair that ends there.
   */
  method WalkWindow(src: seq<byte>, limit: nat, ghost lo: nat, pos: nat, buf: seq<byte>, depth0: nat)
    returns (close: Option<nat>, depth: nat)
    requires lo <= pos && pos + |buf| <= limit <= |src| && buf == src[pos..pos + |buf|] && |buf| >= 1
    requires depth0 == Balance(src, limit, lo, pos) && NeverNegative(src, limit, lo, pos)
    ensures close.Some? ==> ClosesAt(src, limit, lo, close.value)
    ensures close.None? ==>
              depth == Balance(src, limit, lo, pos + |buf| - 1) && NeverNegative(src, limit, lo, pos + |buf| - 1)
  {
    var n := |buf|;
    var i := 0;
    depth := depth0;
    while i + 1 < n
      invariant 0 <= i <= n
      invariant depth == Balance(src, limit, lo, pos + i) && NeverNegative(src, limit, lo, pos + i)
      invariant i == n ==> n >= 2 && src[pos + n - 1] != 0xFF
    {
      assert buf[i] == src[pos + i] && buf[i + 1] == src[pos + i + 1];
      if buf[i] != 0xFF {
        i := i + 1;
      } else if buf[i + 1] == 0xD8 {
        assert Balance(src, limit, lo, pos + i + 2) == Balance(src, limit, lo, pos + i + 1);
        depth := depth + 1;
        i := i + 2;
      } else if buf[i + 1] == 0xD9 {
        assert Balance(src, limit, lo, pos + i + 2) == Balance(src, limit, lo, pos + i + 1);
        if depth == 0 {
          return Some(pos + i), 0;
        }
        depth := depth - 1;
        i := i + 2;
      } else {
        i := i + 1;
      }
    }
    RereadLastByte(src, limit, lo, pos + n);
    return None, depth;
  }

  /** Re-reading the second byte of a consumed pair changes nothing: it is not FF, so no marker begins at it. */
  lemma RereadLastByte(src: seq<byte>, end: nat, lo: nat, p: nat)
    requires lo < p <= end <= |src|
    ensures src[p - 1] != 0xFF ==> Balance(src, end, lo, p - 1) == Balance(src, end, lo, p)
  {
  }

  ghost predicate NeverNegative(src: seq<byte>, end: nat, lo: nat, to: nat)
    requires end <= |src|
  {
    forall q :: lo <= q <= to ==> Balance(src, end, lo, q) >= 0
  }

  /** `jpeg_length` with its 1 MiB window made a parameter. Each window re-reads the last byte of the one before. */
  method ComputeJpegLength(src: seq<byte>, fileStart: nat, limit: nat, window: nat) returns (r: Option<nat>)
    requires window >= 1 && limit <= |src|
    ensures r == JpegLength(src, fileStart, limit)
  {
    var soi := ReadAt(src, fileStart, 3);
    if |soi| < 3 || soi[0] != 0xFF || soi[1] != 0xD8 {
      return None;
    }
    var overlap := 1;
    ghost var lo := fileStart + 2;
    var pos := fileStart + 2;
    var depth: nat := 0;
    while pos < limit
      invariant lo <= pos
      invariant depth == Balance(src, limit, lo, pos) && NeverNegative(src, limit, lo, pos)
    {
      var want := Min(limit - pos, window + overlap);
      var buf := ReadAt(src, pos, want);
      var n := |buf|;
      var close;
      close, depth := WalkWindow(src, limit, lo, pos, buf, depth);
      if close.Some? {
        FirstCloseFinds(src, limit, lo, lo, close.value);
        return Some(close.value + 2 - fileStart);
      }
      if pos + n >= limit {
        break;
      }
      pos := pos + n - overlap;
    }
    FirstCloseNone(src, limit, lo, lo, Max(lo, limit - 1));
    return None;
  }
}
