/** Numbers and digests as text: hex (`to_hex`, `parse_hex`, `parse_hex32`) and decimal (`format!`, `str::parse`). */
module Text {
  import opened Bytes

  datatype HexError = OddLength | BadDigit(c: char)
  datatype HexResult = Ok(bytes: seq<byte>) | Err(error: HexError)

  predicate IsHexDigit(c: char) { '0' <= c <= '9' || 'a' <= c <= 'f' }

  /** `hex_digit`. */
  function DigitValue(c: char): (r: Option<nat>)
    ensures r.Some? ==> r.value < 16
    ensures IsHexDigit(c) ==> r.Some?
  {
    if '0' <= c <= '9' then Some((c - '0') as int)
    else if 'a' <= c <= 'f' then Some((c - 'a') as int + 10)
    else if 'A' <= c <= 'F' then Some((c - 'A') as int + 10)
    else None
  }

  function HexDigit(n: nat): (c: char)
    requires n < 16
    ensures IsHexDigit(c) && DigitValue(c) == Some(n)
  {
    if n < 10 then '0' + n as char else 'a' + (n - 10) as char
  }

  function HexPair(b: byte): (s: string)
    ensures |s| == 2 && IsHexDigit(s[0]) && IsHexDigit(s[1])
  {
    [HexDigit(b / 16), HexDigit(b % 16)]
  }

  /** `to_hex`: two lower-case digits a byte. */
  function ToHex(bytes: seq<byte>): (s: string)
    ensures |s| == 2 * |bytes| && forall i :: 0 <= i < |s| ==> IsHexDigit(s[i])
  {
    if bytes == [] then [] else ToHex(bytes[..|bytes| - 1]) + HexPair(bytes[|bytes| - 1])
  }

  method ComputeToHex(bytes: seq<byte>) returns (s: string)
    ensures s == ToHex(bytes)
  {
    s := [];
    for i := 0 to |bytes|
      invariant s == ToHex(bytes[..i])
    {
      assert bytes[..i + 1][..i] == bytes[..i];
      s := s + HexPair(bytes[i]);
    }
    assert bytes[..|bytes|] == bytes;
  }

  /** `u8::from_str_radix(_, 16)` on two characters, which lets a plus sign stand in front. */
  function RadixPair(a: char, b: char): (r: Option<byte>) {
    if a == '+' then DigitValue(b)
    else match (DigitValue(a), DigitValue(b))
      case (Some(h), Some(l)) => Some(16 * h + l)
      case _ => None
  }

  function RadixPairs(s: string): (r: Option<seq<byte>>)
    requires |s| % 2 == 0
    ensures r.Some? ==> 2 * |r.value| == |s|
  {
    if s == [] then Some([])
    else match (RadixPairs(s[..|s| - 2]), RadixPair(s[|s| - 2], s[|s| - 1]))
      case (Some(front), Some(b)) => Some(front + [b])
      case _ => None
  }

  /** `parse_hex32`: a digest of exactly 64 characters. */
  function ParseHex32(s: string): (r: Option<seq<byte>>)
    ensures r.Some? ==> |r.value| == 32
  {
    if |s| != 64 then None else RadixPairs(s)
  }

  lemma {:induction false} BadPrefix32(s: string, k: nat)
    requires |s| % 2 == 0 && k % 2 == 0 && k <= |s| && RadixPairs(s[..k]).None?
    ensures RadixPairs(s).None?
    decreases |s|
  {
    if k == |s| {
      assert s[..k] == s;
    } else {
      assert s[..|s| - 2][..k] == s[..k];
      BadPrefix32(s[..|s| - 2], k);
    }
  }

  method ComputeParseHex32(s: string) returns (r: Option<seq<byte>>)
    ensures r == ParseHex32(s)
  {
    if |s| != 64 {
      return None;
    }
    var out: seq<byte> := [];
    for i := 0 to 32
      invariant RadixPairs(s[..2 * i]) == Some(out)
    {
      var k := 2 * (i + 1);
      assert s[..k][..k - 2] == s[..2 * i];
      var b := RadixPair(s[2 * i], s[2 * i + 1]);
      if b.None? {
        BadPrefix32(s, k);
        return None;
      }
      out := out + [b.value];
    }
    assert s[..64] == s;
    return Some(out);
  }

  lemma {:induction false} PairsOfHex(bytes: seq<byte>)
    ensures RadixPairs(ToHex(bytes)) == Some(bytes)
  {
    if bytes != [] {
      var front := bytes[..|bytes| - 1];
      hide RadixPair, HexPair;
      PairsOfHex(front);
      PairValue(bytes[|bytes| - 1]);
      assert front + [bytes[|bytes| - 1]] == bytes;
      assert ToHex(bytes)[..|ToHex(bytes)| - 2] == ToHex(front);
    }
  }

  /** A digest written to the checkpoint is read back. */
  lemma DigestRoundTrip(digest: seq<byte>)
    requires |digest| == 32
    ensures ParseHex32(ToHex(digest)) == Some(digest)
  {
    hide RadixPairs, ToHex;
    PairsOfHex(digest);
  }

  /**
   * A pair of characters reads as a byte: a digit of either case in the second place, and a digit or a plus sign in the
   * first.
   */
  predicate IsRadixPair(a: char, b: char) { (a == '+' || DigitValue(a).Some?) && DigitValue(b).Some? }

  /** A text that stays as it is when what it says is written again. */
  predicate IsCanonical(s: string) { forall i :: 0 <= i < |s| ==> s[i] != '+' && !('A' <= s[i] <= 'F') }

  lemma PairReads(a: char, b: char)
    ensures RadixPair(a, b).Some? <==> IsRadixPair(a, b)
    ensures RadixPair(a, b).Some? ==> (HexPair(RadixPair(a, b).value) == [a, b] <==> IsCanonical([a, b]))
  {
    if RadixPair(a, b).Some? && a != '+' {
      var h, l := DigitValue(a).value, DigitValue(b).value;
      assert RadixPair(a, b).value == 16 * h + l && (16 * h + l) / 16 == h && (16 * h + l) % 16 == l;
      DigitWritten(a);
      DigitWritten(b);
      assert HexPair(16 * h + l) == [HexDigit(h), HexDigit(l)];
      assert [a, b][0] == a && [a, b][1] == b;
    }
    if a == '+' { assert [a, b][0] == '+'; }
  }

  lemma DigitWritten(c: char)
    requires DigitValue(c).Some?
    ensures HexDigit(DigitValue(c).value) == c <==> !('A' <= c <= 'F')
    ensures c != '+'
  {
  }

  lemma {:induction false} PairsRead(s: string)
    requires |s| % 2 == 0
    ensures RadixPairs(s).Some? <==> forall i :: 0 <= i < |s| / 2 ==> IsRadixPair(s[2 * i], s[2 * i + 1])
  {
    if s != [] {
      hide RadixPair, IsRadixPair;
      var n := |s| - 2;
      PairsRead(s[..n]);
      PairReads(s[n], s[n + 1]);
      assert n == 2 * (n / 2) && |s| / 2 == n / 2 + 1;
    }
  }

  lemma HexSnoc(bytes: seq<byte>, b: byte)
    ensures ToHex(bytes + [b]) == ToHex(bytes) + HexPair(b)
  {
    assert (bytes + [b])[..|bytes|] == bytes;
  }

  lemma {:induction false} WrittenAsRead(s: string)
    requires |s| % 2 == 0 && RadixPairs(s).Some?
    ensures ToHex(RadixPairs(s).value) == s <==> IsCanonical(s)
  {
    hide RadixPair, HexPair, IsRadixPair, ToHex, IsCanonical;
    if s != [] {
      var n := |s| - 2;
      var front, pair := s[..n], [s[n], s[n + 1]];
      WrittenAsRead(front);
      PairReads(s[n], s[n + 1]);
      var bytes, b := RadixPairs(front).value, RadixPair(s[n], s[n + 1]).value;
      HexSnoc(bytes, b);
      assert s == front + pair;
      CanonicalParts(front, pair);
      SameHalves(ToHex(bytes), HexPair(b), front, pair);
    } else {
      NothingCanonical();
    }
  }

  lemma NothingCanonical()
    ensures ToHex([]) == [] && IsCanonical([])
  {
  }

  lemma CanonicalParts(a: string, b: string)
    ensures IsCanonical(a + b) <==> IsCanonical(a) && IsCanonical(b)
  {
    assert forall i :: 0 <= i < |a| ==> (a + b)[i] == a[i];
    assert forall i :: 0 <= i < |b| ==> (a + b)[|a| + i] == b[i];
  }

  lemma SameHalves(a: string, b: string, c: string, d: string)
    requires |a| == |c|
    ensures a + b == c + d <==> a == c && b == d
  {
    if a + b == c + d {
      assert a == (a + b)[..|a|] && b == (a + b)[|a|..];
    }
  }

  /**
   * Which texts read as a digest, and which of them are the digest's own text: those without a plus sign or an
   * upper-case digit.
   */
  lemma DigestTexts(s: string)
    ensures ParseHex32(s).Some? <==> |s| == 64 && forall i :: 0 <= i < 32 ==> IsRadixPair(s[2 * i], s[2 * i + 1])
    ensures ParseHex32(s).Some? ==> (ToHex(ParseHex32(s).value) == s <==> IsCanonical(s))
  {
    hide RadixPairs, ToHex, IsRadixPair, IsCanonical;
    if |s| == 64 {
      PairsRead(s);
      if RadixPairs(s).Some? { WrittenAsRead(s); }
    }
  }

  /** The same two characters `n` times. */
  function Pairs(a: char, b: char, n: nat): (s: string)
    ensures |s| == 2 * n && forall i :: 0 <= i < n ==> s[2 * i] == a && s[2 * i + 1] == b
  {
    if n == 0 then [] else Pairs(a, b, n - 1) + [a, b]
  }

  lemma {:induction false} PairsRepeat(a: char, b: char, n: nat, v: byte)
    requires RadixPair(a, b) == Some(v)
    ensures RadixPairs(Pairs(a, b, n)).Some? && forall i :: 0 <= i < n ==> RadixPairs(Pairs(a, b, n)).value[i] == v
  {
    hide RadixPair, RadixPairs;
    if n == 0 {
      NothingRead();
    } else {
      PairsRepeat(a, b, n - 1, v);
      PairAppended(Pairs(a, b, n - 1), a, b);
    }
  }

  lemma NothingRead()
    ensures RadixPairs([]) == Some([])
  {
  }

  lemma PairAppended(s: string, a: char, b: char)
    requires |s| % 2 == 0 && RadixPairs(s).Some? && RadixPair(a, b).Some?
    ensures RadixPairs(s + [a, b]) == Some(RadixPairs(s).value + [RadixPair(a, b).value])
  {
    hide RadixPair;
    var t := s + [a, b];
    assert t[..|t| - 2] == s && t[|t| - 2] == a && t[|t| - 1] == b;
  }

  /** Texts that read as one digest: with either case, and with a plus sign for a zero. */
  lemma OneDigestManyTexts()
    ensures Pairs('A', 'B', 32) != Pairs('a', 'b', 32) && Pairs('+', '5', 32) != Pairs('0', '5', 32)
    ensures ParseHex32(Pairs('A', 'B', 32)).Some? && ParseHex32(Pairs('A', 'B', 32)) == ParseHex32(Pairs('a', 'b', 32))
    ensures ParseHex32(Pairs('+', '5', 32)).Some? && ParseHex32(Pairs('+', '5', 32)) == ParseHex32(Pairs('0', '5', 32))
  {
    hide Pairs, RadixPairs;
    PairsRepeat('A', 'B', 32, 0xAB);
    PairsRepeat('a', 'b', 32, 0xAB);
    PairsRepeat('+', '5', 32, 5);
    PairsRepeat('0', '5', 32, 5);
    assert RadixPairs(Pairs('A', 'B', 32)).value == RadixPairs(Pairs('a', 'b', 32)).value;
    assert RadixPairs(Pairs('+', '5', 32)).value == RadixPairs(Pairs('0', '5', 32)).value;
    assert Pairs('A', 'B', 32)[2 * 0] == 'A' && Pairs('a', 'b', 32)[2 * 0] == 'a';
    assert Pairs('+', '5', 32)[2 * 0] == '+' && Pairs('0', '5', 32)[2 * 0] == '0';
  }

  // --- the custom carvers' hex notation ---

  predicate IsSeparator(c: char) { c == ' ' || c == '\t' || c == '\n' || c as int == 0x0C || c == '\r' || c == ':' }

  function Clean(s: string): string {
    if s == [] then [] else Clean(s[..|s| - 1]) + (if IsSeparator(s[|s| - 1]) then [] else [s[|s| - 1]])
  }

  function StripPrefix(s: string): string {
    if |s| >= 2 && s[0] == '0' && (s[1] == 'x' || s[1] == 'X') then s[2..] else s
  }

  function DigitPair(a: char, b: char): HexResult {
    match (DigitValue(a), DigitValue(b))
    case (None, _) => Err(BadDigit(a))
    case (_, None) => Err(BadDigit(b))
    case (Some(h), Some(l)) => Ok([16 * h + l])
  }

  /** Two digits a byte, or the first bad digit. */
  function DigitPairs(s: string): HexResult
    requires |s| % 2 == 0
  {
    if s == [] then Ok([])
    else match DigitPairs(s[..|s| - 2])
      case Err(e) => Err(e)
      case Ok(front) =>
        match DigitPair(s[|s| - 2], s[|s| - 1])
        case Err(e) => Err(e)
        case Ok(b) => Ok(front + b)
  }

  /** `parse_hex`: separators and one `0x` prefix are ignored. */
  function ParseHex(s: string): HexResult {
    var digits := StripPrefix(Clean(s));
    if |digits| % 2 != 0 then Err(OddLength) else DigitPairs(digits)
  }

  lemma {:induction false} BadPrefix(s: string, k: nat)
    requires |s| % 2 == 0 && k % 2 == 0 && k <= |s| && DigitPairs(s[..k]).Err?
    ensures DigitPairs(s) == DigitPairs(s[..k])
    decreases |s|
  {
    if k == |s| {
      assert s[..k] == s;
    } else {
      assert s[..|s| - 2][..k] == s[..k];
      BadPrefix(s[..|s| - 2], k);
    }
  }

  method ComputeDigitPairs(digits: string) returns (r: HexResult)
    requires |digits| % 2 == 0
    ensures r == DigitPairs(digits)
  {
    var out: seq<byte> := [];
    for i := 0 to |digits| / 2
      invariant DigitPairs(digits[..2 * i]) == Ok(out)
    {
      var k := 2 * (i + 1);
      assert digits[..k][..k - 2] == digits[..2 * i];
      var b := DigitPair(digits[2 * i], digits[2 * i + 1]);
      if b.Err? {
        BadPrefix(digits, k);
        return b;
      }
      out := out + b.bytes;
    }
    assert digits[..|digits|] == digits;
    return Ok(out);
  }

  method ComputeParseHex(s: string) returns (r: HexResult)
    ensures r == ParseHex(s)
  {
    var cleaned: string := [];
    for i := 0 to |s|
      invariant cleaned == Clean(s[..i])
    {
      assert s[..i + 1][..i] == s[..i];
      if !IsSeparator(s[i]) {
        cleaned := cleaned + [s[i]];
      }
    }
    assert s[..|s|] == s;
    cleaned := StripPrefix(cleaned);
    if cleaned == [] {
      return Ok([]);
    }
    if |cleaned| % 2 != 0 {
      return Err(OddLength);
    }
    r := ComputeDigitPairs(cleaned);
  }

  lemma {:induction false} CleanHex(s: string)
    requires forall i :: 0 <= i < |s| ==> IsHexDigit(s[i])
    ensures Clean(s) == s
  {
    if s != [] {
      var before, c := s[..|s| - 1], s[|s| - 1];
      CleanHex(before);
      DigitNoSeparator(c);
      hide IsHexDigit, IsSeparator;
      assert s == before + [c];
    }
  }

  lemma DigitNoSeparator(c: char)
    requires IsHexDigit(c)
    ensures !IsSeparator(c)
  {
  }

  lemma PairValue(b: byte)
    ensures RadixPair(HexPair(b)[0], HexPair(b)[1]) == Some(b)
    ensures DigitPair(HexPair(b)[0], HexPair(b)[1]) == Ok([b])
  {
  }

  lemma {:induction false} DigitPairsOfHex(bytes: seq<byte>)
    ensures DigitPairs(ToHex(bytes)) == Ok(bytes)
  {
    if bytes != [] {
      var front := bytes[..|bytes| - 1];
      hide DigitPair, HexPair;
      DigitPairsOfHex(front);
      PairValue(bytes[|bytes| - 1]);
      assert front + [bytes[|bytes| - 1]] == bytes;
      assert ToHex(bytes)[..|ToHex(bytes)| - 2] == ToHex(front);
    }
  }

  /** `parse_hex` inverts `to_hex` on every byte string; in particular no encoded byte looks like the `0x` prefix. */
  lemma ParseInvertsToHex(bytes: seq<byte>)
    ensures ParseHex(ToHex(bytes)) == Ok(bytes)
  {
    hide DigitPairs, Clean, ToHex, DigitValue;
    var s := ToHex(bytes);
    CleanHex(s);
    DigitPairsOfHex(bytes);
    assert |s| >= 2 ==> IsHexDigit(s[1]) && !IsHexDigit('x') && !IsHexDigit('X');
  }

  lemma {:induction false} CleanConcat(a: string, b: string)
    ensures Clean(a + b) == Clean(a) + Clean(b)
  {
    if b == [] {
      assert a + b == a;
    } else {
      assert (a + b)[..|a + b| - 1] == a + b[..|b| - 1];
      CleanConcat(a, b[..|b| - 1]);
    }
  }

  /** A separator anywhere makes no difference. */
  lemma SeparatorsIgnored(a: string, c: char, b: string)
    requires IsSeparator(c)
    ensures ParseHex(a + [c] + b) == ParseHex(a + b)
  {
    CleanConcat(a + [c], b);
    CleanConcat(a, [c]);
    CleanConcat(a, b);
    assert [c][..0] == [] && Clean([c]) == [];
    assert Clean(a + [c] + b) == Clean(a + b);
  }

  // --- decimal numbers ---

  predicate IsDigit(c: char) { '0' <= c <= '9' }

  /** `format!("{n}")`. */
  function Decimal(n: nat): (s: string)
    ensures s != [] && forall i :: 0 <= i < |s| ==> IsDigit(s[i])
  {
    if n < 10 then [HexDigit(n)] else Decimal(n / 10) + [HexDigit(n % 10)]
  }

  /** The value of a digit string, or nothing if a character is no digit or the value leaves 64 bits. */
  function DigitsValue(s: string): (r: Option<nat>)
    ensures r.Some? ==> r.value < U64_LIMIT
  {
    if s == [] then Some(0)
    else
      var last := s[|s| - 1];
      match DigitsValue(s[..|s| - 1])
      case None => None
      case Some(v) =>
        if !IsDigit(last) || 10 * v + (last - '0') as int >= U64_LIMIT then None else Some(10 * v + (last - '0') as int)
  }

  /** `str::parse::<u64>`: an optional plus sign and at least one digit. */
  function ParseU64(s: string): (r: Option<nat>)
    ensures r.Some? ==> r.value < U64_LIMIT
  {
    var digits := if s != [] && s[0] == '+' then s[1..] else s;
    if digits == [] then None else DigitsValue(digits)
  }

  lemma {:induction false} DigitsOfDecimal(n: nat)
    requires n < U64_LIMIT
    ensures DigitsValue(Decimal(n)) == Some(n)
  {
    var s := Decimal(n);
    if n < 10 {
      assert s[..0] == [];
    } else {
      DigitsOfDecimal(n / 10);
      assert s[..|s| - 1] == Decimal(n / 10);
      assert 10 * (n / 10) + n % 10 == n;
    }
  }

  /** A 64-bit number written in decimal is read back. */
  lemma DecimalRoundTrip(n: nat)
    requires n < U64_LIMIT
    ensures ParseU64(Decimal(n)) == Some(n)
  {
    DigitsOfDecimal(n);
    assert IsDigit(Decimal(n)[0]);
  }
}
