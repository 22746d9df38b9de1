/** The length of a candidate file: the dispatch of `file_length` and its declarative arms. */
module Lengths {
  import opened Bytes
  import opened Signatures
  import Footer
  import Jpeg
  import Zip

  /** The value of a big-endian and of a little-endian byte string of any length. */
  function BeValue(b: seq<byte>): nat {
    if b == [] then 0 else 0x100 * BeValue(b[..|b| - 1]) + b[|b| - 1] as int
  }

  function LeValue(b: seq<byte>): nat {
    if b == [] then 0 else b[0] as int + 0x100 * LeValue(b[1..])
  }

  lemma ShiftIn(v: nat, b: byte)
    ensures (0x100 * (v % U64_LIMIT) + b as int) % U64_LIMIT == (0x100 * v + b as int) % U64_LIMIT
  {
    var kept, lost := v % U64_LIMIT, v / U64_LIMIT;
    assert v == kept + lost * U64_LIMIT;
    ShiftedOut(0x100 * kept + b as int, 0x100 * lost);
  }

  lemma ShiftedOut(n: nat, lost: nat)
    ensures (n + lost * U64_LIMIT) % U64_LIMIT == n % U64_LIMIT
  {
  }

  /** `read_uint`: shift in byte after byte, in a 64-bit register. */
  method ReadUint(bytes: seq<byte>, bigEndian: bool) returns (v: nat)
    ensures v == (if bigEndian then BeValue(bytes) else LeValue(bytes)) % U64_LIMIT
  {
    v := 0;
    if bigEndian {
      for i := 0 to |bytes|
        invariant v == BeValue(bytes[..i]) % U64_LIMIT
      {
        assert bytes[..i + 1][..i] == bytes[..i];
        ShiftIn(BeValue(bytes[..i]), bytes[i]);
        v := (0x100 * v + bytes[i] as int) % U64_LIMIT;
      }
      assert bytes[..|bytes|] == bytes;
    } else {
      for i := |bytes| downto 0
        invariant v == LeValue(bytes[i..]) % U64_LIMIT
      {
        assert bytes[i..][1..] == bytes[i + 1..];
        ShiftIn(LeValue(bytes[i + 1..]), bytes[i]);
        v := (0x100 * v + bytes[i] as int) % U64_LIMIT;
      }
    }
  }

  /** The raw field of a size-field carver, when the source reaches that far. */
  function RawField(src: seq<byte>, at: nat, nbytes: nat, bigEndian: bool): nat
    requires at + nbytes <= |src|
  {
    (if bigEndian then BeValue(src[at..at + nbytes]) else LeValue(src[at..at + nbytes])) % U64_LIMIT
  }

  /** Value times `mul` plus `add`, in checked 64-bit arithmetic, accepted if it is positive and ends by `limit`. */
  function SizeFieldLength(src: seq<byte>, fileStart: nat, limit: nat, offset: nat, width: nat, bigEndian: bool,
                           mul: nat, add: nat)
    : (r: Option<nat>)
    ensures r.Some? ==> 0 < r.value && fileStart + r.value <= limit
  {
    var need := offset + width / 8;
    if need >= U64_LIMIT || fileStart + need > |src| then None
    else
      var size := RawField(src, fileStart + offset, width / 8, bigEndian) * mul + add;
      if size >= U64_LIMIT || size == 0 || fileStart + size > limit then None else Some(size)
  }

  /** Read the field, or nothing when the header is cut short. */
  method ReadField(src: seq<byte>, fileStart: nat, offset: nat, nbytes: nat, bigEndian: bool) returns (r: Option<nat>)
    requires fileStart <= |src|
    ensures r.None? <==> fileStart + offset + nbytes > |src|
    ensures r.Some? ==> r.value == RawField(src, fileStart + offset, nbytes, bigEndian)
  {
    var need := offset + nbytes;
    var tmp := ReadAt(src, fileStart, need);
    if |tmp| < need {
      return None;
    }
    SliceOfSlice(src, fileStart, fileStart + need, offset, need);
    var raw := ReadUint(tmp[offset..need], bigEndian);
    return Some(raw);
  }

  /**
   * A field so far behind the header that the bytes up to it fill a buffer of `buffer` bytes or more, which the program
   * does not get and stops, though the field's end is still a 64-bit number.
   */
  predicate NoBuffer(offset: nat, width: nat, buffer: nat) { buffer <= offset + width / 8 < U64_LIMIT }

  method ComputeSizeFieldLength(src: seq<byte>, fileStart: nat, limit: nat, offset: nat, width: nat, bigEndian: bool,
                                mul: nat, add: nat, buffer: nat)
    returns (r: Option<nat>, tripped: bool)
    requires fileStart <= |src|
    ensures tripped <==> NoBuffer(offset, width, buffer)
    ensures !tripped ==> r == SizeFieldLength(src, fileStart, limit, offset, width, bigEndian, mul, add)
  {
    hide RawField;
    if offset + width / 8 >= U64_LIMIT {
      return None, false;
    }
    if offset + width / 8 >= buffer {
      return None, true;
    }
    var raw := ReadField(src, fileStart, offset, width / 8, bigEndian);
    if raw.None? {
      return None, false;
    }
    var product := raw.value * mul;
    if product >= U64_LIMIT {
      return None, false;
    }
    var size := product + add;
    if size >= U64_LIMIT || size == 0 || fileStart + size > limit {
      return None, false;
    }
    return Some(size), false;
  }

  /** The size that a 7-Zip header declares: itself, what lies before the next header, and that header. */
  function DeclaredSize(src: seq<byte>, fileStart: nat): nat
    requires fileStart + 32 <= |src|
  {
    32 + U64Le(src, fileStart + 12) + U64Le(src, fileStart + 20)
  }

  /** The declared size is a checked 64-bit sum; its end, which is compared with the limit, is a wrapping one. */
  function SevenZipLength(src: seq<byte>, fileStart: nat, limit: nat): Option<nat> {
    if fileStart + 32 > |src| then None
    else
      var size := DeclaredSize(src, fileStart);
      if size >= U64_LIMIT || size <= 32 || Wrap(fileStart + size) > limit then None else Some(size)
  }

  method ComputeSevenZipLength(src: seq<byte>, fileStart: nat, limit: nat) returns (r: Option<nat>)
    requires fileStart <= |src|
    ensures r == SevenZipLength(src, fileStart, limit)
  {
    var header := ReadAt(src, fileStart, 32);
    if |header| < 32 {
      return None;
    }
    var size := 32 + U64Le(header, 12);
    size := if size < U64_LIMIT && size + U64Le(header, 20) < U64_LIMIT then size + U64Le(header, 20) else 0;
    if size <= 32 || Wrap(fileStart + size) > limit {
      return None;
    }
    return Some(size);
  }

  /**
   * An archive is taken to reach past its limit exactly when the end that its header declares wraps to one within it.
   */
  lemma PastLimitIff(src: seq<byte>, fileStart: nat, limit: nat)
    requires fileStart <= |src| < U64_LIMIT && limit < U64_LIMIT
    ensures (SevenZipLength(src, fileStart, limit).Some?
             && fileStart + SevenZipLength(src, fileStart, limit).value > limit)
        <==> fileStart + 32 <= |src| && DeclaredSize(src, fileStart) < U64_LIMIT
             && U64_LIMIT <= fileStart + DeclaredSize(src, fileStart) <= U64_LIMIT + limit
  {
  }

  /**
   * What the engine takes as given: the other length strategies, the header validators and the content-based
   * extensions.
   */
  datatype Validity = Valid | Invalid | Unknown

  datatype Oracle = Oracle(
    otherLength: (nat, nat, nat) -> Option<u64>,
    verdict: (Signature, seq<byte>) -> Validity,
    refine: (Signature, seq<byte>) -> string)

  function Limit(sig: Signature, fileStart: nat, scanEnd: nat): nat { Min(fileStart + sig.maxSize, scanEnd) }

  /** `file_length`: the length of the candidate at `fileStart`, if it can be told. */
  function Length(oracle: Oracle, src: seq<byte>, sig: Signature, fileStart: nat, scanEnd: nat): (r: Option<nat>)
    requires scanEnd <= |src|
  {
    var limit := Limit(sig, fileStart, scanEnd);
    match sig.extent
    case Fixed(size) => if size == 0 || fileStart + size > limit then None else Some(size)
    case SizeField(offset, width, bigEndian, mul, add) =>
      SizeFieldLength(src, fileStart, limit, offset, width, bigEndian, mul, add)
    case Footer(marker, trailing) => Footer.FooterFound(src, fileStart, marker, trailing, limit)
    case Jpeg => Jpeg.JpegLength(src, fileStart, limit)
    case Zip => Zip.ZipLength(src, fileStart, limit)
    case SevenZip => SevenZipLength(src, fileStart, limit)
    case Other(kind, _) => oracle.otherLength(kind, fileStart, limit)
  }

  predicate FieldTooFar(sig: Signature, buffer: nat) {
    sig.extent.SizeField? && NoBuffer(sig.extent.offset, sig.extent.width, buffer)
  }

  method FileLength(oracle: Oracle, src: seq<byte>, sig: Signature, fileStart: nat, scanEnd: nat, window: nat,
                    buffer: nat)
    returns (r: Option<nat>, tripped: bool)
    requires fileStart <= scanEnd <= |src| && window >= 1
    ensures tripped <==> FieldTooFar(sig, buffer)
    ensures !tripped ==> r == Length(oracle, src, sig, fileStart, scanEnd)
  {
    var limit := Limit(sig, fileStart, scanEnd);
    tripped := false;
    match sig.extent {
      case Fixed(size) =>
        r := if size == 0 || fileStart + size > limit then None else Some(size);
      case SizeField(offset, width, bigEndian, mul, add) =>
        r, tripped := ComputeSizeFieldLength(src, fileStart, limit, offset, width, bigEndian, mul, add, buffer);
      case Footer(marker, trailing) =>
        r := Footer.FindFooter(src, fileStart, marker, trailing, limit, window);
      case Jpeg =>
        r := Jpeg.ComputeJpegLength(src, fileStart, limit, window);
      case Zip =>
        r := Zip.ComputeZipLength(src, fileStart, limit, window);
      case SevenZip =>
        r := ComputeSevenZipLength(src, fileStart, limit);
      case Other(kind, _) =>
        r := oracle.otherLength(kind, fileStart, limit);
    }
  }

  /**
   * Every modelled strategy gives a positive length that keeps to the type's cap and to the scan, an archive's exactly
   * when its end is a 64-bit number.
   */
  lemma LengthInBounds(oracle: Oracle, src: seq<byte>, sig: Signature, fileStart: nat, scanEnd: nat)
    requires scanEnd <= |src| && !sig.extent.Other?
    ensures match Length(oracle, src, sig, fileStart, scanEnd)
            case None => true
            case Some(len) =>
              && 0 < len
              && (sig.extent.SevenZip? && scanEnd < U64_LIMIT ==>
                    (len <= sig.maxSize && fileStart + len <= scanEnd <==> fileStart + len < U64_LIMIT))
              && (!sig.extent.SevenZip? ==> len <= sig.maxSize && fileStart + len <= scanEnd)
  {
  }
}
