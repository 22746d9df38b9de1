/**
 * The deterministic JPEG generator of the test corpus (`Rng`, `payload`, `make_file`) and what the carver makes of its
 * files.
 */
module Corpus {
  import opened Bytes
  import opened Text
  import J = Jpeg

  function Left13(s: bv64): bv64 { s ^ (s << 13) }

  function Right7(s: bv64): bv64 { s ^ (s >> 7) }

  function Left17(s: bv64): bv64 { s ^ (s << 17) }

  /** The generator's states: the first, and the one after each. */
  function Seeded(seed: bv64): bv64 { (if seed == 0 then 1 else seed) ^ 0x9E37_79B9_7F4A_7C15 }

  function Draw(s: bv64): bv64 { Left17(Right7(Left13(s))) }

  function Drawn(s: bv64, n: nat): bv64 { if n == 0 then s else Draw(Drawn(s, n - 1)) }

  function ByteOf(s: bv64): byte { ((s >> 24) & 0xFF) as int }

  /** xorshift64. */
  class Rng {
    var state: bv64

    constructor (seed: bv64)
      ensures state == Seeded(seed)
    {
      state := (if seed == 0 then 1 else seed) ^ 0x9E37_79B9_7F4A_7C15;
    }

    method Next() returns (r: bv64)
      modifies this
      ensures r == state == Draw(old(state))
    {
      hide Left13, Right7, Left17;
      state := Left13(state);
      state := Right7(state);
      state := Left17(state);
      r := state;
    }

    method Byte() returns (b: byte)
      modifies this
      ensures state == Draw(old(state)) && b == ByteOf(state)
    {
      hide Draw;
      var r := Next();
      b := ((r >> 24) & 0xFF) as int;
    }
  }

  /** `{:08x}`, as bytes. */
  function Hex8(n: nat): (s: seq<byte>)
    requires n < 0x1_0000_0000
    ensures |s| == 8 && forall i :: 0 <= i < 8 ==> s[i] < 0x80
  {
    HexByte(n / 0x100_0000) + HexByte(n / 0x1_0000 % 0x100) + HexByte(n / 0x100 % 0x100) + HexByte(n % 0x100)
  }

  function HexByte(b: byte): (s: seq<byte>)
    ensures |s| == 2 && s[0] < 0x80 && s[1] < 0x80
  {
    [HexDigit(b / 16) as int, HexDigit(b % 16) as int]
  }

  /** The 512 bytes of one sector: a stamp of file and sector number, then the file's block. */
  function Sector(seed: nat, sector: nat, block: seq<byte>): (s: seq<byte>)
    requires seed < 0x1_0000_0000 && |block| == 496
    ensures |s| == 512
  {
    Hex8(seed) + Hex8(sector % 0x1_0000_0000) + block
  }

  function Sectors(seed: nat, count: nat, block: seq<byte>): (s: seq<byte>)
    requires seed < 0x1_0000_0000 && |block| == 496
    ensures |s| == 512 * count
  {
    if count == 0 then [] else Sectors(seed, count - 1, block) + Sector(seed, count - 1, block)
  }

  /** The first byte from `b` on, in wrapping order, that is allowed; `b` itself if none of the next `tries` is. */
  function FirstAllowed(b: byte, forbid: seq<byte>, tries: nat): byte
    decreases tries
  {
    if tries == 0 || b !in forbid then b else FirstAllowed((b + 1) % 256, forbid, tries - 1)
  }

  /** How far `to` lies behind `b`, in wrapping order. */
  function StepsTo(b: byte, to: byte): nat { if b <= to then to - b else to - b + 256 }

  lemma NextByte(b: byte)
    ensures (b + 1) % 256 == if b == 255 then 0 else b + 1
  {
  }

  method SkipForbidden(b0: byte, forbid: seq<byte>, ghost allowed: byte) returns (b: byte)
    requires allowed !in forbid
    ensures b !in forbid && b == FirstAllowed(b0, forbid, 256)
  {
    b := b0;
    ghost var left := 256;
    while b in forbid
      invariant StepsTo(b, allowed) < left
      invariant FirstAllowed(b0, forbid, 256) == FirstAllowed(b, forbid, left)
      decreases left
    {
      NextByte(b);
      b := (b + 1) % 256;
      left := left - 1;
    }
  }

  /** The filler bytes of a file: drawn one after the other, each moved on to the next allowed one. */
  function Filler(fileSeed: bv64, n: nat, forbid: seq<byte>): (r: seq<byte>)
    ensures |r| == n
  {
    if n == 0 then []
    else Filler(fileSeed, n - 1, forbid) + [FirstAllowed(ByteOf(Drawn(Seeded(fileSeed), n)), forbid, 256)]
  }

  function Low32(seed: bv64): (n: nat)
    ensures n < 0x1_0000_0000
  {
    (seed & 0xFFFF_FFFF) as bv32 as int
  }

  /** The 496 filler bytes every sector of a file shares. */
  method MakeBlock(fileSeed: bv64, forbid: seq<byte>, ghost allowed: byte) returns (block: seq<byte>)
    requires allowed !in forbid
    ensures block == Filler(fileSeed, 496, forbid) && forall i :: 0 <= i < 496 ==> block[i] !in forbid
  {
    hide Draw, Seeded, ByteOf, FirstAllowed;
    var rng := new Rng(fileSeed);
    block := [];
    for i := 0 to 496
      invariant block == Filler(fileSeed, i, forbid) && rng.state == Drawn(Seeded(fileSeed), i)
      invariant forall k :: 0 <= k < i ==> block[k] !in forbid
    {
      var b := rng.Byte();
      b := SkipForbidden(b, forbid, allowed);
      block := block + [b];
    }
  }

  /** Whole sectors of a file's stamps and filler, cut to `len`. */
  ghost predicate IsPayload(out: seq<byte>, fileSeed: bv64, len: nat, forbid: seq<byte>) {
    exists count: nat ::
      len <= 512 * count && out == Sectors(Low32(fileSeed), count, Filler(fileSeed, 496, forbid))[..len]
  }

  lemma {:induction false} MoreSectors(seed: nat, a: nat, b: nat, block: seq<byte>)
    requires seed < 0x1_0000_0000 && |block| == 496 && a <= b
    ensures Sectors(seed, a, block) <= Sectors(seed, b, block)
    decreases b
  {
    hide Sector;
    if a < b { MoreSectors(seed, a, b - 1, block); }
  }

  /** Seed, length and forbidden bytes decide the payload. */
  lemma PayloadIsDetermined(a: seq<byte>, b: seq<byte>, fileSeed: bv64, len: nat, forbid: seq<byte>)
    requires IsPayload(a, fileSeed, len, forbid) && IsPayload(b, fileSeed, len, forbid)
    ensures a == b
  {
    hide Filler, Sectors, Low32;
    var block := Filler(fileSeed, 496, forbid);
    var m: nat :| len <= 512 * m && a == Sectors(Low32(fileSeed), m, block)[..len];
    var n: nat :| len <= 512 * n && b == Sectors(Low32(fileSeed), n, block)[..len];
    if m <= n { MoreSectors(Low32(fileSeed), m, n, block); } else { MoreSectors(Low32(fileSeed), n, m, block); }
  }

  /** `payload`: stamped sectors cut to length. The filler keeps clear of the forbidden bytes. */
  method Payload(fileSeed: bv64, len: nat, forbid: seq<byte>, ghost allowed: byte) returns (out: seq<byte>)
    requires allowed !in forbid
    ensures |out| == len && IsPayload(out, fileSeed, len, forbid)
    ensures forall i :: 0 <= i < 496 ==> Filler(fileSeed, 496, forbid)[i] !in forbid
  {
    hide Low32, Sector, Filler;
    var filler := MakeBlock(fileSeed, forbid, allowed);
    out := [];
    var sector := 0;
    while |out| < len
      invariant out == Sectors(Low32(fileSeed), sector, filler)
      decreases len - |out|
    {
      out := out + Sector(Low32(fileSeed), sector, filler);
      sector := sector + 1;
    }
    out := out[..len];
  }

  lemma HexByteDecides(a: byte, b: byte)
    requires HexByte(a) == HexByte(b)
    ensures a == b
  {
    assert DigitValue(HexByte(a)[0] as char) == Some(a / 16) && DigitValue(HexByte(a)[1] as char) == Some(a % 16);
    assert DigitValue(HexByte(b)[0] as char) == Some(b / 16) && DigitValue(HexByte(b)[1] as char) == Some(b % 16);
  }

  lemma FourBytes(n: nat)
    ensures n == 0x100 * (0x100 * (0x100 * (n / 0x100_0000) + n / 0x1_0000 % 0x100) + n / 0x100 % 0x100) + n % 0x100
  {
    var a, b := n / 0x100, n / 0x1_0000;
    assert n == 0x100 * a + n % 0x100 && a == 0x100 * b + a % 0x100 && b == 0x100 * (n / 0x100_0000) + b % 0x100;
  }

  lemma Hex8Bytes(n: nat, m: nat)
    requires n < 0x1_0000_0000 && m < 0x1_0000_0000 && Hex8(n) == Hex8(m)
    ensures n / 0x100_0000 == m / 0x100_0000 && n / 0x1_0000 % 0x100 == m / 0x1_0000 % 0x100
    ensures n / 0x100 % 0x100 == m / 0x100 % 0x100 && n % 0x100 == m % 0x100
  {
    Pieces(n / 0x100_0000, n / 0x1_0000 % 0x100, n / 0x100 % 0x100, n % 0x100,
           m / 0x100_0000, m / 0x1_0000 % 0x100, m / 0x100 % 0x100, m % 0x100);
  }

  lemma Pieces(a: byte, b: byte, c: byte, d: byte, a': byte, b': byte, c': byte, d': byte)
    requires HexByte(a) + HexByte(b) + HexByte(c) + HexByte(d) == HexByte(a') + HexByte(b') + HexByte(c') + HexByte(d')
    ensures a == a' && b == b' && c == c' && d == d'
  {
    hide HexByte;
    var x := HexByte(a) + HexByte(b) + HexByte(c) + HexByte(d);
    assert x[0..2] == HexByte(a) == HexByte(a') && x[2..4] == HexByte(b) == HexByte(b');
    assert x[4..6] == HexByte(c) == HexByte(c') && x[6..8] == HexByte(d) == HexByte(d');
    HexByteDecides(a, a');
    HexByteDecides(b, b');
    HexByteDecides(c, c');
    HexByteDecides(d, d');
  }

  lemma Hex8Decides(m: nat, n: nat)
    requires m < 0x1_0000_0000 && n < 0x1_0000_0000 && Hex8(m) == Hex8(n)
    ensures m == n
  {
    hide Hex8;
    Hex8Bytes(m, n);
    FourBytes(m);
    FourBytes(n);
  }

  /** The stamps tell the sectors of a file apart, so a sector out of order changes the file. */
  lemma SectorsDiffer(seed: nat, i: nat, j: nat, block: seq<byte>)
    requires seed < 0x1_0000_0000 && |block| == 496 && i < j < 0x1_0000_0000
    ensures Sector(seed, i, block) != Sector(seed, j, block)
  {
    hide Hex8;
    var a, b := Sector(seed, i, block), Sector(seed, j, block);
    assert a[8..16] == Hex8(i) && b[8..16] == Hex8(j);
    if a == b { Hex8Decides(i, j); }
  }

  lemma SectorHoldsNoFF(seed: nat, sector: nat, block: seq<byte>)
    requires seed < 0x1_0000_0000 && |block| == 496 && 0xFF !in block
    ensures 0xFF !in Sector(seed, sector, block)
  {
    hide Hex8;
    var s := Sector(seed, sector, block);
    forall i | 0 <= i < 512 ensures s[i] != 0xFF {
      if i >= 16 { assert s[i] == block[i - 16]; }
    }
  }

  /** No sector of a file holds the byte FF when the filler does not: the stamps are ASCII. */
  lemma {:induction false} SectorsHoldNoFF(seed: nat, count: nat, block: seq<byte>)
    requires seed < 0x1_0000_0000 && |block| == 496 && 0xFF !in block
    ensures 0xFF !in Sectors(seed, count, block)
  {
    hide Sector;
    if count > 0 {
      SectorsHoldNoFF(seed, count - 1, block);
      SectorHoldsNoFF(seed, count - 1, block);
    }
  }

  /** SOI, an APP0/JFIF segment: no end marker, and no FF at its end. */
  const JPEG_HEAD: seq<byte> :=
    [0xFF, 0xD8, 0xFF, 0xE0, 0x00, 0x10, 0x4A, 0x46, 0x49, 0x46,
     0x00, 0x01, 0x01, 0x00, 0x00, 0x01, 0x00, 0x01, 0x00, 0x00]

  predicate IsGeneratedJpeg(v: seq<byte>) {
    |v| >= 22 && v[..20] == JPEG_HEAD && 0xFF !in v[20..|v| - 2] && v[|v| - 2..] == [0xFF, 0xD9]
  }

  /** The JPEG arm of `make_file`: exactly `size` bytes, or the 22 of the frame when `size` is less. */
  method MakeJpeg(size: nat, seed: bv64) returns (v: seq<byte>)
    ensures IsGeneratedJpeg(v) && |v| == Max(size, 22)
  {
    hide Sectors;
    var whole := Max(size, |JPEG_HEAD| + 2);
    var body := Payload(seed, whole - |JPEG_HEAD| - 2, [0xFF], 0);
    hide Filler;
    ghost var block := Filler(seed, 496, [0xFF]);
    ghost var count: nat :| |body| <= 512 * count && body == Sectors(Low32(seed), count, block)[..|body|];
    assert 0xFF !in block;
    SectorsHoldNoFF(Low32(seed), count, block);
    v := JPEG_HEAD + body + [0xFF, 0xD9];
    assert v[20..|v| - 2] == body;
  }

  // --- carving it back ---

  lemma {:induction false} NoMarkersBalance(src: seq<byte>, end: nat, lo: nat, q: nat)
    requires end <= |src| && forall p :: lo <= p < q ==> !J.Soi(src, end, p) && !J.Eoi(src, end, p)
    ensures J.Balance(src, end, lo, q) == 0
    decreases q
  {
    if lo < q { NoMarkersBalance(src, end, lo, q - 1); }
  }

  /** Between the outer start marker and the final end marker of a generated file there is no marker at all. */
  lemma OnlyTheLastMarker(src: seq<byte>, at: nat, v: seq<byte>, end: nat, p: nat)
    requires IsGeneratedJpeg(v) && at + |v| <= end <= |src| && src[at..at + |v|] == v
    requires at + 2 <= p < at + |v| - 2
    ensures !J.Soi(src, end, p) && !J.Eoi(src, end, p)
  {
    assert src[p] == v[p - at] && src[p + 1] == v[p + 1 - at];
    if p - at < 20 {
      assert v[p - at] == JPEG_HEAD[p - at];
      if p - at < 19 { assert v[p + 1 - at] == JPEG_HEAD[p + 1 - at]; }
    } else {
      assert v[p - at] == v[20..|v| - 2][p - at - 20];
    }
  }

  /** A generated JPEG anywhere in a source is carved to exactly its own length, whatever follows it. */
  lemma GeneratedJpegCarvesExactly(src: seq<byte>, at: nat, v: seq<byte>, limit: nat)
    requires IsGeneratedJpeg(v) && at + |v| <= limit <= |src| && src[at..at + |v|] == v
    ensures J.JpegLength(src, at, limit) == Some(|v|)
  {
    var lo, q := at + 2, at + |v| - 2;
    forall p | lo <= p < q ensures !J.Soi(src, limit, p) && !J.Eoi(src, limit, p) {
      OnlyTheLastMarker(src, at, v, limit, p);
    }
    forall p | lo <= p <= q ensures J.Balance(src, limit, lo, p) == 0 { NoMarkersBalance(src, limit, lo, p); }
    assert src[at] == v[0] == JPEG_HEAD[0] && src[at + 1] == v[1] == JPEG_HEAD[1];
    assert src[q] == v[|v| - 2..][0] && src[q + 1] == v[|v| - 2..][1];
    assert J.Eoi(src, limit, q);
    assert J.ClosesAt(src, limit, lo, q);
    J.JpegLengthMeaning(src, at, limit, |v|);
  }
}
