/** One literal example of each format: bytes and texts beside what is read from them or written for them. */
module FormatExamples {
  import opened Bytes
  import opened Signatures
  import opened Text
  import Carving
  import Corpus
  import Footer
  import Jpeg
  import L = Lengths
  import opened Checkpoint
  import opened CheckpointRoundTrip

  // --- numbers ---

  lemma ByteOrder()
    ensures U16Le([1, 2, 3, 4, 5, 6, 7, 8], 0) == 0x0201 && U32Le([1, 2, 3, 4, 5, 6, 7, 8], 0) == 0x0403_0201
    ensures U64Le([1, 2, 3, 4, 5, 6, 7, 8], 0) == 0x0807_0605_0403_0201
    ensures U16Be([1, 2, 3, 4, 5, 6, 7, 8], 0) == 0x0102 && U32Be([1, 2, 3, 4, 5, 6, 7, 8], 0) == 0x0102_0304
  {
  }

  /** The generator's first state of seed 0, and the draw from state 1. */
  lemma FirstDraws()
    ensures Corpus.Seeded(0) == 0x9E37_79B9_7F4A_7C14 && Corpus.Draw(1) == 0x4082_2041
    ensures Corpus.ByteOf(0x1234_5678_9ABC_DEF0) == 0x9A
  {
  }

  /** A stamp of the generator's sectors. */
  lemma StampExample()
    ensures Corpus.Hex8(0x01AB_CDEF) == [0x30, 0x31, 0x61, 0x62, 0x63, 0x64, 0x65, 0x66]
  {
    HexBytes();
    hide Corpus.HexByte;
    assert 0x01AB_CDEF / 0x100_0000 == 0x01 && 0x01AB_CDEF / 0x1_0000 % 0x100 == 0xAB;
    assert 0x01AB_CDEF / 0x100 % 0x100 == 0xCD && 0x01AB_CDEF % 0x100 == 0xEF;
  }

  /** A sector starts with the stamps of its file and of itself. */
  lemma SectorExample(block: seq<byte>)
    requires |block| == 496
    ensures Corpus.Sector(0x01AB_CDEF, 0x1_01AB_0000, block)
         == [0x30, 0x31, 0x61, 0x62, 0x63, 0x64, 0x65, 0x66] + [0x30, 0x31, 0x61, 0x62, 0x30, 0x30, 0x30, 0x30] + block
  {
    StampExample();
    SecondStamp();
    hide Corpus.Hex8;
    assert 0x1_01AB_0000 % 0x1_0000_0000 == 0x01AB_0000;
  }

  lemma SecondStamp()
    ensures Corpus.Hex8(0x01AB_0000) == [0x30, 0x31, 0x61, 0x62, 0x30, 0x30, 0x30, 0x30]
  {
    HexBytes();
    assert Corpus.HexByte(0) == [0x30, 0x30];
    hide Corpus.HexByte;
    assert 0x01AB_0000 / 0x100_0000 == 0x01 && 0x01AB_0000 / 0x1_0000 % 0x100 == 0xAB;
    assert 0x01AB_0000 / 0x100 % 0x100 == 0 && 0x01AB_0000 % 0x100 == 0;
  }

  lemma HexBytes()
    ensures Corpus.HexByte(0x01) == [0x30, 0x31] && Corpus.HexByte(0xAB) == [0x61, 0x62]
    ensures Corpus.HexByte(0xCD) == [0x63, 0x64] && Corpus.HexByte(0xEF) == [0x65, 0x66]
  {
  }

  // --- signatures ---

  const TAGGED: Signature := Signature("tagged", "tag", [1, 2], 0, Some((3, [9])), Fixed(512), 1024)

  const PLAIN: Signature := Signature("plain", "pln", [1, 2], 0, None, Fixed(512), 1024)

  /** The magic at the head, the tag at its offset, and the first of the table where both match. */
  lemma MatchExample()
    ensures Matches(TAGGED, [1, 2, 0, 9]) && !Matches(TAGGED, [1, 2, 0, 8]) && !Matches(TAGGED, [1, 2, 9])
    ensures !Matches(PLAIN, [1, 3]) && !Matches(PLAIN, [0, 1, 2])
    ensures FirstMatch([TAGGED, PLAIN], [1, 2, 0, 9]) == Some(TAGGED)
    ensures FirstMatch([TAGGED, PLAIN], [1, 2, 0, 8]) == Some(PLAIN)
  {
    assert [1, 2, 0, 9][3..4] == [9] && [1, 2, 0, 9][0..2] == [1, 2];
    assert [1, 2, 0, 8][3..4][0] == 8 && [1, 2, 0, 8][0..2] == [1, 2];
    assert [1, 3][0..2][1] == 3 && [0, 1, 2][0..2][0] == 0;
    assert [TAGGED, PLAIN][1..] == [PLAIN];
  }

  // --- texts ---

  lemma HexTexts()
    ensures ToHex([0xAB, 0x01]) == "ab01" && ParseHex("0x4f") == Ok([0x4F])
  {
    WrittenExample();
    CleanExample();
    PairExample();
    hide ToHex, Clean, DigitPairs;
    assert "0x4f"[2..] == "4f";
  }

  lemma WrittenExample()
    ensures ToHex([0xAB, 0x01]) == "ab01"
  {
    assert HexPair(0xAB) == "ab" && HexPair(1) == "01";
    hide HexPair;
    assert [0xAB, 0x01][..1] == [0xAB] && [0xAB][..0] == [];
    assert ToHex([0xAB]) == "ab";
  }

  lemma PairExample()
    ensures DigitPairs("4f") == Ok([0x4F])
  {
    assert DigitPair('4', 'f') == Ok([0x4F]);
    hide DigitPair;
    assert "4f"[..0] == "";
  }

  lemma CleanExample()
    ensures Clean("0x4f") == "0x4f"
  {
    NothingToClean("0x4f");
  }

  lemma {:induction false} NothingToClean(s: string)
    requires forall i :: 0 <= i < |s| ==> !IsSeparator(s[i])
    ensures Clean(s) == s
  {
    hide IsSeparator;
    if s != [] {
      NothingToClean(s[..|s| - 1]);
      assert s == s[..|s| - 1] + [s[|s| - 1]];
    }
  }

  lemma DecimalTexts()
    ensures Decimal(0) == "0" && Decimal(1205) == "1205" && ParseU64("1205") == Some(1205)
  {
    assert Decimal(1) == "1" && Decimal(12) == "12" && Decimal(120) == "120";
    DecimalRoundTrip(1205);
  }

  lemma PlusSigns()
    ensures ParseU64("+7") == Some(7) && ParseU64("+") == None && ParseU64("x") == None
  {
    assert "+7"[1..] == "7" && "7"[..0] == "" && "x"[..0] == "" && "+"[1..] == "";
  }

  lemma Padded()
    ensures Carving.PadLeft("7", 8) == "00000007" && Carving.PadLeft("200", 14) == "00000000000200"
  {
    assert Carving.PadLeft("7", 8) == seq(7, _ => '0') + "7" && seq(7, _ => '0') == "0000000";
    assert Carving.PadLeft("200", 14) == seq(11, _ => '0') + "200" && seq(11, _ => '0') == "00000000000";
  }

  lemma RowNames()
    ensures Carving.RowName(false, 7, 0x200, "jpg") == "00000007" + "_0x" + "00000000000200" + "." + "jpg"
    ensures Carving.RowName(true, 7, 0x200, "jpg") == "jpg/" + "00000007" + "_0x" + "00000000000200" + "." + "jpg"
  {
    hide Carving.PadLeft;
    Padded();
    assert Decimal(7) == "7";
    assert Carving.HexNumber(2) == "2" && Carving.HexNumber(0x20) == "20";
    assert Carving.HexNumber(0x200) == "200";
    assert "jpg" + "/" == "jpg/";
    assert "jpg/" + "00000007" + "_0x" == "jpg/" + ("00000007" + "_0x");
  }

  // --- a checkpoint ---

  const DIGEST: seq<byte> := seq(32, _ => 0xAB)

  const ROW: Carving.Row := Carving.Row("a.jpg", "jpg", 5, 4, DIGEST, Carving.Verified)

  const TALLY: Carving.Tally := Carving.Tally([ROW], 1, 4, 3, 2, 0, 7, 8, 9, map["jpg" := 1])

  /** The digest in hex: "ab" 32 times. */
  function DigestText(): string { Pairs('a', 'b', 32) }

  /** The text, line by line. */
  function CheckpointText(): string {
    Join(["# unearth scan checkpoint v1", "pos 6", "end 9", "skip_until 8", "files 1", "bytes 4", "rejected 3",
          "duplicates 2", "verified 7", "plausible 8", "truncated 9"]
         + ["seen " + DigestText()] + ["file jpg 5 4 " + (DigestText() + " a.jpg verified")])
  }

  lemma {:induction false} RepeatedHex(n: nat)
    ensures ToHex(seq(n, _ => 0xAB)) == Pairs('a', 'b', n)
  {
    if n > 0 {
      RepeatedHex(n - 1);
      assert seq(n, _ => 0xAB)[..n - 1] == seq(n - 1, _ => 0xAB);
      assert HexPair(0xAB) == ['a', 'b'];
    }
  }

  lemma HeaderExample()
    ensures HeaderLines(6, 9, 8, TALLY)
         == ["# unearth scan checkpoint v1", "pos 6", "end 9", "skip_until 8", "files 1", "bytes 4", "rejected 3",
             "duplicates 2", "verified 7", "plausible 8", "truncated 9"]
  {
    OneDigit();
    hide Decimal, ROW;
    assert "pos" + " " + "6" == "pos 6" && "end" + " " + "9" == "end 9" && "skip_until" + " " + "8" == "skip_until 8";
    assert "files" + " " + "1" == "files 1" && "bytes" + " " + "4" == "bytes 4";
    assert "rejected" + " " + "3" == "rejected 3" && "duplicates" + " " + "2" == "duplicates 2";
    assert "verified" + " " + "7" == "verified 7" && "plausible" + " " + "8" == "plausible 8";
    assert "truncated" + " " + "9" == "truncated 9";
  }

  lemma OneDigit()
    ensures Decimal(1) == "1" && Decimal(2) == "2" && Decimal(3) == "3" && Decimal(4) == "4" && Decimal(5) == "5"
    ensures Decimal(6) == "6" && Decimal(7) == "7" && Decimal(8) == "8" && Decimal(9) == "9"
  {
  }

  lemma RowLineExample()
    ensures SeenLine(DIGEST) == "seen " + DigestText()
    ensures FileLine(ROW) == "file jpg 5 4 " + (DigestText() + " a.jpg verified")
  {
    hide ToHex, Pairs;
    RepeatedHex(32);
    assert Decimal(5) == "5" && Decimal(4) == "4";
    var tail := DigestText() + (" " + ("a.jpg" + " " + "verified"));
    assert tail == DigestText() + " a.jpg verified";
    assert "file" + " " + ("jpg" + " " + ("5" + " " + ("4" + " " + tail))) == "file jpg 5 4 " + tail;
  }

  /** What is written for a state, and what is read from that text. */
  lemma CheckpointExample()
    ensures Join(CheckpointLines(6, 9, 8, TALLY, [DIGEST])) == CheckpointText()
    ensures ReadText({"jpg"}, CheckpointText()) == Loaded(6, 8, {DIGEST}, TALLY)
  {
    HeaderExample();
    RowLineExample();
    LinesExample();
    RestoredExample();
    assert |DIGEST| == 32 && SetOf([DIGEST]) == {DIGEST};
    hide *;
    RoundTrip({"jpg"}, 6, 9, 8, TALLY, [DIGEST]);
  }

  lemma LinesExample()
    ensures CheckpointLines(6, 9, 8, TALLY, [DIGEST])
         == HeaderLines(6, 9, 8, TALLY) + [SeenLine(DIGEST)] + [FileLine(ROW)]
  {
    hide HeaderLines, SeenLine, FileLine, DIGEST;
    assert [DIGEST][..0] == [] && [ROW][..0] == [];
    assert SeenLines([]) == [] && FileLines([]) == [];
  }

  lemma RestoredExample()
    ensures Fits(TALLY) && Restored({"jpg"}, TALLY) == TALLY
  {
    RowExample();
    TypesExample();
    hide ROW, RowFits, Carving.TypesOf, Restored;
    ManifestSurvivesIff({"jpg"}, TALLY);
  }

  lemma RowExample()
    ensures RowFits(ROW) && ROW.ext == "jpg"
  {
    assert |DIGEST| == 32;
    hide DIGEST;
  }

  lemma TypesExample()
    ensures Carving.TypesOf(map[], [ROW]) == map["jpg" := 1]
  {
    RowExample();
    hide ROW, RowFits;
    assert [ROW][..0] == [];
    assert Carving.TypesOf(map[], []) == map[];
  }

  lemma TwoWordLine(known: set<string>, ld: Loaded, a: string, b: string)
    requires a != [] && ' ' !in a && !IsWhitespace(a[0]) && a[0] != '#'
    requires b != [] && ' ' !in b && !IsWhitespace(b[|b| - 1])
    ensures ReadLine(known, ld, a + " " + b) == ReadFields(known, ld, [a, b])
  {
    hide SplitN, IsWhitespace, ReadFields, ReadLine;
    TwoWords(a, b);
    PlainLine(known, ld, a + " " + b);
  }

  /** Lines that a checkpoint may hold and no run writes: numbers that are none, blanks around a line, comments. */
  lemma LenientNumbers(known: set<string>, ld: Loaded)
    ensures ReadLine(known, ld, "pos" + " " + "x") == ReadLine(known, ld, "skip_until" + " " + "x") == ld
    ensures ReadLine(known, ld, "files" + " " + "x") == ld.(tally := ld.tally.(filesRecovered := 0))
    ensures ParseGrade("doubtful") == Carving.Plausible
  {
    PlusSigns();
    hide ParseU64, SplitN, Words;
    TwoWordLine(known, ld, "pos", "x");
    TwoWordLine(known, ld, "skip_until", "x");
    TwoWordLine(known, ld, "files", "x");
    hide ReadLine;
  }

  lemma LenientLines(known: set<string>, ld: Loaded)
    ensures ReadLine(known, ld, " pos 7\t") == ReadLine(known, ld, "pos 7") && ReadLine(known, ld, "#pos 7") == ld
  {
    BlanksTrimmed();
    hide Trim, ReadFields, SplitN;
  }

  lemma BlanksTrimmed()
    ensures Trim(" pos 7\t") == "pos 7" == Trim("pos 7") && Trim("#pos 7") == "#pos 7"
  {
    assert " pos 7\t"[1..] == "pos 7\t" && "pos 7\t"[..5] == "pos 7";
    assert TrimStart("pos 7\t") == "pos 7\t";
    assert TrimEnd("pos 7") == "pos 7";
  }

  lemma TwoWords(a: string, b: string)
    requires ' ' !in a && ' ' !in b
    ensures SplitN(a + " " + b, 6) == [a, b]
  {
    SplitFirst(a, b, 6);
    SplitLast(b, 5);
  }

  // --- lengths ---

  /** A picture with a thumbnail: the first end marker is the thumbnail's. */
  lemma JpegExample()
    ensures Jpeg.JpegLength([0xFF, 0xD8, 0xFF, 0xE1, 0xFF, 0xD8, 0xFF, 0xD9, 0, 0xFF, 0xD9, 0xFF, 0xD9], 0, 13)
         == Some(11)
  {
    var src := [0xFF, 0xD8, 0xFF, 0xE1, 0xFF, 0xD8, 0xFF, 0xD9, 0, 0xFF, 0xD9, 0xFF, 0xD9];
    assert Jpeg.Balance(src, 13, 2, 2) == Jpeg.Balance(src, 13, 2, 3) == Jpeg.Balance(src, 13, 2, 4) == 0;
    assert Jpeg.Balance(src, 13, 2, 5) == Jpeg.Balance(src, 13, 2, 6) == 1;
    assert Jpeg.Balance(src, 13, 2, 7) == Jpeg.Balance(src, 13, 2, 8) == Jpeg.Balance(src, 13, 2, 9) == 0;
    assert Jpeg.Balance(src, 13, 2, 10) == -1;
    hide Jpeg.Balance;
    assert Jpeg.ClosesAt(src, 13, 2, 9);
    Jpeg.JpegLengthMeaning(src, 0, 13, 11);
  }

  /** `%%EOF` and up to two of the line ends behind it. */
  lemma FooterExample()
    ensures Footer.FooterFound([0x78, 0x25, 0x45, 0x4F, 0x46, 0x0D, 0x0A, 0x0A], 0, [0x25, 0x45, 0x4F, 0x46], 2, 8)
         == Some(7)
  {
    var src: seq<byte> := [0x78, 0x25, 0x45, 0x4F, 0x46, 0x0D, 0x0A, 0x0A];
    assert src[0..4][0] != 0x25;
    assert src[1..5] == [0x25, 0x45, 0x4F, 0x46];
    assert Footer.FindFrom(src, 8, [0x25, 0x45, 0x4F, 0x46], 1) == Some(1);
    assert Footer.Allowance(5, 2) == 2;
    assert Footer.EolRun(src, 7, 0, 8) == 0;
    assert Footer.EolRun(src, 6, 1, 8) == 1;
  }

  /** A 16-bit field behind one byte, doubled and increased by three, in either byte order. */
  lemma SizeFieldExample(rest: seq<byte>)
    requires |rest| >= 1100
    ensures L.SizeFieldLength([0xEE, 0, 1, 2] + rest, 1, 1100, 1, 16, true, 2, 3) == Some(519)
    ensures L.SizeFieldLength([0xEE, 0, 1, 2] + rest, 1, 1100, 1, 16, false, 2, 3) == Some(1029)
  {
    var src := [0xEE, 0, 1, 2] + rest;
    assert src[2..4] == [1, 2];
    assert [1, 2][..1] == [1] && [1][..0] == [] && [1, 2][1..] == [2] && [2][1..] == [];
    assert L.BeValue([1]) == 1 && L.BeValue([1, 2]) == 0x102;
    assert L.LeValue([2]) == 2 && L.LeValue([1, 2]) == 0x201;
  }

  /** A file of a fixed size, where the scan leaves room for it and where it does not. */
  lemma FixedExample(oracle: L.Oracle, src: seq<byte>)
    requires |src| >= 600
    ensures L.Length(oracle, src, PLAIN, 3, 515) == Some(512) && L.Length(oracle, src, PLAIN, 3, 514) == None
  {
  }

  /** A header of 32 bytes, 5 bytes of packed streams and a next header of 7. */
  lemma SevenZipExample(rest: seq<byte>)
    requires |rest| >= 100
    ensures L.SevenZipLength([0x37, 0x7A, 0xBC, 0xAF, 0x27, 0x1C, 0, 4, 1, 1, 1, 1] + [5, 0, 0, 0, 0, 0, 0, 0]
                             + [7, 0, 0, 0, 0, 0, 0, 0] + [2, 2, 2, 2] + rest, 0, 100) == Some(44)
    ensures L.SevenZipLength([0x37, 0x7A, 0xBC, 0xAF, 0x27, 0x1C, 0, 4, 1, 1, 1, 1] + [0, 0, 0, 0, 0, 0, 0, 0]
                             + [0, 0, 0, 0, 0, 0, 0, 0] + [2, 2, 2, 2] + rest, 0, 100) == None
  {
  }
}
