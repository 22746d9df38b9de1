/** Bytes, positioned reads of a source, and the fixed-width integers read from it. */
module Bytes {
  type byte = x: int | 0 <= x < 256

  const U64_LIMIT: nat := 0x1_0000_0000_0000_0000

  datatype Option<+T> = None | Some(value: T)

  function Min(a: int, b: int): int { if a <= b then a else b }

  function Max(a: int, b: int): int { if a <= b then b else a }

  /** `Source::read_at`: the bytes of [off, off + n) that exist; short only at the source's end. */
  function ReadAt(src: seq<byte>, off: nat, n: nat): (r: seq<byte>)
    ensures |r| <= n
    ensures off + n <= |src| ==> r == src[off..off + n]
    ensures off >= |src| ==> r == []
    ensures forall i :: 0 <= i < |r| ==> off + i < |src| && r[i] == src[off + i]
    ensures |r| < n ==> |r| == Max(0, |src| - off)
  {
    src[Min(off, |src|)..Min(off + n, |src|)]
  }

  lemma SliceOfSlice<T>(s: seq<T>, lo: nat, hi: nat, a: nat, b: nat)
    requires lo <= hi <= |s| && a <= b <= hi - lo
    ensures s[lo..hi][a..b] == s[lo + a..lo + b]
  {
    forall k | 0 <= k < b - a ensures s[lo..hi][a..b][k] == s[lo + a..lo + b][k] {
      assert s[lo..hi][a + k] == s[lo + a + k];
    }
  }

  /** An unsigned 64-bit number, and the sum of two as a release build computes it. */
  type u64 = x: nat | x < U64_LIMIT

  function Wrap(n: nat): (r: nat)
    ensures r < U64_LIMIT && (n < U64_LIMIT ==> r == n) && r <= n
    ensures U64_LIMIT <= n < 2 * U64_LIMIT ==> r == n - U64_LIMIT
  {
    n % U64_LIMIT
  }

  /** Saturating `u64` arithmetic, used for every byte offset derived from on-disk fields. */
  function SatAdd(a: nat, b: nat): nat { Min(a + b, U64_LIMIT - 1) }

  function SatMul(a: nat, b: nat): nat { Min(a * b, U64_LIMIT - 1) }

  function U16Le(s: seq<byte>, i: nat): (r: nat)
    requires i + 2 <= |s|
    ensures r < 0x1_0000
  {
    (s[i] as int) + 0x100 * (s[i + 1] as int)
  }

  function U32Le(s: seq<byte>, i: nat): (r: nat)
    requires i + 4 <= |s|
    ensures r < 0x1_0000_0000
  {
    (s[i] as int) + 0x100 * (s[i + 1] as int) + 0x1_0000 * (s[i + 2] as int) + 0x100_0000 * (s[i + 3] as int)
  }

  function U64Le(s: seq<byte>, i: nat): (r: nat)
    requires i + 8 <= |s|
    ensures r < U64_LIMIT
  {
    U32Le(s, i) + 0x1_0000_0000 * U32Le(s, i + 4)
  }

  function U16Be(s: seq<byte>, i: nat): (r: nat)
    requires i + 2 <= |s|
    ensures r < 0x1_0000
  {
    0x100 * (s[i] as int) + (s[i + 1] as int)
  }

  function U32Be(s: seq<byte>, i: nat): (r: nat)
    requires i + 4 <= |s|
    ensures r < 0x1_0000_0000
  {
    0x100_0000 * (s[i] as int) + 0x1_0000 * (s[i + 1] as int) + 0x100 * (s[i + 2] as int) + (s[i + 3] as int)
  }

  /** Little-endian and big-endian encodings of a value below 2^16, 2^32 and 2^64. */
  function Le16(v: nat): (s: seq<byte>)
    requires v < 0x1_0000
    ensures |s| == 2 && U16Le(s, 0) == v
  {
    [v % 0x100, v / 0x100]
  }

  function Le32(v: nat): (s: seq<byte>)
    requires v < 0x1_0000_0000
    ensures |s| == 4 && U32Le(s, 0) == v
  {
    Le16(v % 0x1_0000) + Le16(v / 0x1_0000)
  }

  function Le64(v: nat): (s: seq<byte>)
    requires v < U64_LIMIT
    ensures |s| == 8 && U64Le(s, 0) == v
  {
    var lo, hi := Le32(v % 0x1_0000_0000), Le32(v / 0x1_0000_0000);
    assert U32Le(lo + hi, 0) == U32Le(lo, 0) && U32Le(lo + hi, 4) == U32Le(hi, 0);
    lo + hi
  }

  function Be16(v: nat): (s: seq<byte>)
    requires v < 0x1_0000
    ensures |s| == 2 && U16Be(s, 0) == v
  {
    [v / 0x100, v % 0x100]
  }

  function Be32(v: nat): (s: seq<byte>)
    requires v < 0x1_0000_0000
    ensures |s| == 4 && U32Be(s, 0) == v
  {
    Be16(v / 0x1_0000) + Be16(v % 0x1_0000)
  }
}
