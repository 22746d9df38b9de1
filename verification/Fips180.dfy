/** SHA-256 as the standard states it: FIPS 180-4 sections 4.1.2, 4.2.2, 5.1.1, 5.3.3 and 6.2.2. */
module Fips180 {
  import opened Bytes
  import opened Words

  const H0: seq<word> := [
    0x6a09e667, 0xbb67ae85, 0x3c6ef372, 0xa54ff53a, 0x510e527f, 0x9b05688c, 0x1f83d9ab, 0x5be0cd19
  ]

  const K: seq<word> :=
    [0x428a2f98, 0x71374491, 0xb5c0fbcf, 0xe9b5dba5, 0x3956c25b, 0x59f111f1, 0x923f82a4, 0xab1c5ed5]
    + [0xd807aa98, 0x12835b01, 0x243185be, 0x550c7dc3, 0x72be5d74, 0x80deb1fe, 0x9bdc06a7, 0xc19bf174]
    + [0xe49b69c1, 0xefbe4786, 0x0fc19dc6, 0x240ca1cc, 0x2de92c6f, 0x4a7484aa, 0x5cb0a9dc, 0x76f988da]
    + [0x983e5152, 0xa831c66d, 0xb00327c8, 0xbf597fc7, 0xc6e00bf3, 0xd5a79147, 0x06ca6351, 0x14292967]
    + [0x27b70a85, 0x2e1b2138, 0x4d2c6dfc, 0x53380d13, 0x650a7354, 0x766a0abb, 0x81c2c92e, 0x92722c85]
    + [0xa2bfe8a1, 0xa81a664b, 0xc24b8b70, 0xc76c51a3, 0xd192e819, 0xd6990624, 0xf40e3585, 0x106aa070]
    + [0x19a4c116, 0x1e376c08, 0x2748774c, 0x34b0bcb5, 0x391c0cb3, 0x4ed8aa4a, 0x5b9cca4f, 0x682e6ff3]
    + [0x748f82ee, 0x78a5636f, 0x84c87814, 0x8cc70208, 0x90befffa, 0xa4506ceb, 0xbef9a3f7, 0xc67178f2]

  function RoundConstant(t: nat): word
    requires t < 64
  {
    K[t]
  }

  /** The eight working variables of section 6.2.2. */
  datatype Vars = Vars(a: word, b: word, c: word, d: word, e: word, f: word, g: word, h: word)

  /** One iteration of step 3 of section 6.2.2: the variables are shuffled down by one place. */
  function Round(v: Vars, k: word, w: word): Vars {
    var t1 := Add(Add(Add(Add(v.h, BigSigma1(v.e)), Ch(v.e, v.f, v.g)), k), w);
    var t2 := Add(BigSigma0(v.a), Maj(v.a, v.b, v.c));
    Vars(Add(t1, t2), v.a, v.b, v.c, Add(v.d, t1), v.e, v.f, v.g)
  }

  /** The variables after `t` iterations. */
  function Rounds(v: Vars, w: seq<word>, t: nat): Vars
    requires t <= 64 <= |w|
  {
    if t == 0 then v else Round(Rounds(v, w, t - 1), RoundConstant(t - 1), w[t - 1])
  }

  /** Four bytes as a word, most significant byte first. */
  function BeWord(b: seq<byte>, i: nat): word
    requires i + 4 <= |b|
  {
    (b[i] as bv32 << 24) | (b[i + 1] as bv32 << 16) | (b[i + 2] as bv32 << 8) | b[i + 3] as bv32
  }

  /** Word `t` of the message schedule, from the ones before it. */
  function ScheduleWord(block: seq<byte>, w: seq<word>, t: nat): word
    requires |block| == 64 && t < 64 && t <= |w|
  {
    if t < 16 then BeWord(block, 4 * t)
    else Add(Add(Add(SmallSigma1(w[t - 2]), w[t - 7]), SmallSigma0(w[t - 15])), w[t - 16])
  }

  function Schedule(block: seq<byte>, t: nat): (w: seq<word>)
    requires |block| == 64 && t <= 64
    ensures |w| == t
  {
    if t == 0 then [] else var w := Schedule(block, t - 1); w + [ScheduleWord(block, w, t - 1)]
  }

  /** Step 4 of section 6.2.2. */
  function AddVars(hash: seq<word>, v: Vars): (r: seq<word>)
    requires |hash| == 8
    ensures |r| == 8
  {
    [Add(hash[0], v.a), Add(hash[1], v.b), Add(hash[2], v.c), Add(hash[3], v.d),
     Add(hash[4], v.e), Add(hash[5], v.f), Add(hash[6], v.g), Add(hash[7], v.h)]
  }

  /** Step 2 of section 6.2.2. */
  function VarsOf(hash: seq<word>): Vars
    requires |hash| == 8
  {
    Vars(hash[0], hash[1], hash[2], hash[3], hash[4], hash[5], hash[6], hash[7])
  }

  /** One message block: steps 1 to 4 of section 6.2.2. */
  function Compress(hash: seq<word>, block: seq<byte>): (r: seq<word>)
    requires |hash| == 8 && |block| == 64
    ensures |r| == 8
  {
    AddVars(hash, Rounds(VarsOf(hash), Schedule(block, 64), 64))
  }

  /** All blocks of a padded message in order. */
  function Blocks(hash: seq<word>, m: seq<byte>): (r: seq<word>)
    requires |hash| == 8 && |m| % 64 == 0
    ensures |r| == 8
  {
    if m == [] then hash else Compress(Blocks(hash, m[..|m| - 64]), m[|m| - 64..])
  }

  function Zeros(n: nat): (s: seq<byte>)
    ensures |s| == n
  {
    seq(n, _ => 0)
  }

  /** The number of zero bytes of section 5.1.1: the least that puts the length field at 56 modulo 64. */
  function ZeroCount(len: nat): (k: nat)
    ensures k < 64 && (len + 1 + k) % 64 == 56
  {
    (119 - len % 64) % 64
  }

  function Be64(v: nat): (s: seq<byte>)
    requires v < U64_LIMIT
    ensures |s| == 8
  {
    Be32(v / 0x1_0000_0000) + Be32(v % 0x1_0000_0000)
  }

  /**
   * The padded message of section 5.1.1. The standard defines it for messages under 2^64 bits, whose length field holds
   * the length itself; the field of a longer one wraps around.
   */
  function Pad(m: seq<byte>): (p: seq<byte>)
    ensures |p| % 64 == 0
  {
    PadIsWhole(|m|, ZeroCount(|m|));
    m + [0x80] + Zeros(ZeroCount(|m|)) + LengthField(m)
  }

  function LengthField(m: seq<byte>): (s: seq<byte>)
    ensures |s| == 8
  {
    Be64((8 * |m|) % U64_LIMIT)
  }

  /** Under 2^64 bits the padding is the standard's own. */
  lemma StandardPadding(m: seq<byte>)
    requires 8 * |m| < U64_LIMIT
    ensures Pad(m) == m + [0x80] + Zeros(ZeroCount(|m|)) + Be64(8 * |m|)
  {
    hide Be64, ZeroCount, Zeros;
    var bits := 8 * |m|;
    assert bits % U64_LIMIT == bits;
  }

  lemma PadIsWhole(len: nat, k: nat)
    requires (len + 1 + k) % 64 == 56
    ensures (len + 1 + k + 8) % 64 == 0
  {
  }

  function WordBytes(w: word): (s: seq<byte>)
    ensures |s| == 4
  {
    [((w >> 24) & 0xFF) as int, ((w >> 16) & 0xFF) as int, ((w >> 8) & 0xFF) as int, (w & 0xFF) as int]
  }

  /** A word is read back from its bytes. */
  lemma WordRoundTrip(w: word)
    ensures BeWord(WordBytes(w), 0) == w
  {
    ByteRoundTrip((w >> 24) & 0xFF);
    ByteRoundTrip((w >> 16) & 0xFF);
    ByteRoundTrip((w >> 8) & 0xFF);
    ByteRoundTrip(w & 0xFF);
  }

  lemma ByteRoundTrip(b: word)
    ensures b as int as bv32 == b
  {
  }

  function Concat(hash: seq<word>): (s: seq<byte>)
    ensures |s| == 4 * |hash|
  {
    if hash == [] then [] else Concat(hash[..|hash| - 1]) + WordBytes(hash[|hash| - 1])
  }

  function Digest(m: seq<byte>): (d: seq<byte>)
    ensures |d| == 32
  {
    Concat(Blocks(H0, Pad(m)))
  }
}
