/**
 * A checkpoint that is written and read back restores the scan, except for the rows whose extension is not in the
 * table.
 */
module CheckpointRoundTrip {
  import opened Bytes
  import opened Text
  import opened Carving
  import opened Checkpoint
  import F = Fips180

  // --- strings ---

  lemma {:induction false} IndexOfFirst(w: string, c: char, rest: string)
    requires c !in w
    ensures IndexOf(w + [c] + rest, c) == Some(|w|)
  {
    var s := w + [c] + rest;
    if w != [] {
      assert w[0] in w && s[0] == w[0];
      assert s[1..] == w[1..] + [c] + rest;
      IndexOfFirst(w[1..], c, rest);
    }
  }

  lemma SplitFirst(w: string, rest: string, n: nat)
    requires n >= 2 && ' ' !in w
    ensures SplitN(w + " " + rest, n) == [w] + SplitN(rest, n - 1)
  {
    var s := w + " " + rest;
    IndexOfFirst(w, ' ', rest);
    assert s[..|w|] == w && s[|w| + 1..] == rest;
  }

  lemma SplitLast(w: string, n: nat)
    requires n >= 1 && ' ' !in w
    ensures SplitN(w, n) == [w]
  {
  }

  lemma FirstLine(line: string, rest: string)
    requires '\n' !in line
    ensures Lines(line + "\n" + rest) == [line] + Lines(rest)
  {
    var s := line + "\n" + rest;
    IndexOfFirst(line, '\n', rest);
    assert s[..|line|] == line && s[|line| + 1..] == rest;
  }

  lemma {:induction false} LinesOfJoin(lines: seq<string>, rest: string)
    requires forall i :: 0 <= i < |lines| ==> '\n' !in lines[i]
    ensures Lines(Join(lines) + rest) == lines + Lines(rest)
  {
    hide Lines;
    if lines == [] {
      assert Join(lines) + rest == rest;
    } else {
      var front, last := lines[..|lines| - 1], lines[|lines| - 1];
      var tail := last + "\n" + rest;
      assert Join(lines) + rest == Join(front) + tail;
      LinesOfJoin(front, tail);
      FirstLine(last, rest);
      assert lines + Lines(rest) == front + ([last] + Lines(rest));
    }
  }

  lemma {:induction false} ReadConcat(known: set<string>, ld: Loaded, a: seq<string>, b: seq<string>)
    ensures ReadLines(known, ld, a + b) == ReadLines(known, ReadLines(known, ld, a), b)
  {
    hide ReadLine;
    if b == [] {
      assert a + b == a;
    } else {
      assert (a + b)[..|a + b| - 1] == a + b[..|b| - 1];
      ReadConcat(known, ld, a, b[..|b| - 1]);
    }
  }

  // --- single lines ---

  /** A line that starts with a plain word and ends in a visible character is taken as it stands. */
  lemma PlainLine(known: set<string>, ld: Loaded, line: string)
    requires line != [] && !IsWhitespace(line[0]) && !IsWhitespace(line[|line| - 1]) && line[0] != '#'
    ensures ReadLine(known, ld, line) == ReadFields(known, ld, SplitN(line, 6))
  {
    hide ReadFields, SplitN;
    assert TrimStart(line) == line && TrimEnd(line) == line;
  }

  /** Every keyword is read back as itself; none holds a blank, and none could be taken for a comment. */
  lemma KeywordRoundTrip(k: Key)
    ensures KeyOf(KeyText(k)) == k
    ensures k != NoKey ==>
              KeyText(k) != [] && KeyText(k)[0] != '#' && !IsWhitespace(KeyText(k)[0]) && ' ' !in KeyText(k)
  {
  }

  /** A number line read back sets its counter to the number. */
  lemma ReadNumberLine(known: set<string>, ld: Loaded, k: Key, n: nat)
    requires k !in {Seen, File, NoKey} && n < U64_LIMIT
    ensures ReadLine(known, ld, NumberLine(k, n)) == WithNumber(ld, k, n)
  {
    hide KeyOf, KeyText, SplitN, WithNumber;
    KeywordRoundTrip(k);
    var word, digits, line := KeyText(k), Decimal(n), NumberLine(k, n);
    assert IsDigit(digits[|digits| - 1]) && line[|line| - 1] == digits[|digits| - 1] && line[0] == word[0];
    assert line == word + " " + digits;
    PlainLine(known, ld, line);
    SplitFirst(word, digits, 6);
    SplitLast(digits, 5);
    assert SplitN(line, 6) == [word, digits];
    DecimalRoundTrip(n);
  }

  predicate Fits(t: Tally) {
    && t.filesRecovered < U64_LIMIT && t.bytesRecovered < U64_LIMIT && t.rejected < U64_LIMIT
      && t.duplicates < U64_LIMIT
    && t.verified < U64_LIMIT && t.plausible < U64_LIMIT && t.truncated < U64_LIMIT
    && forall row :: row in t.files ==> RowFits(row)
  }

  predicate IsToken(s: string) { ' ' !in s && '\n' !in s }

  /** What a row needs to survive as one line: 64-bit numbers, a whole digest, no line break in the name. */
  predicate RowFits(row: Row) {
    row.offset < U64_LIMIT && row.size < U64_LIMIT && |row.sha256| == 32 && IsToken(row.ext) && '\n' !in row.name
  }

  lemma ReadTitle(known: set<string>, ld: Loaded)
    ensures ReadLine(known, ld, TITLE) == ld
  {
    var line := TITLE;
    assert line[0] == '#' && line[|line| - 1] == '1';
    assert TrimStart(line) == line && TrimEnd(line) == line;
  }

  lemma ReadSeenLine(known: set<string>, ld: Loaded, digest: seq<byte>)
    requires |digest| == 32
    ensures ReadLine(known, ld, SeenLine(digest)) == ld.(seen := ld.seen + {digest})
  {
    hide ToHex, ParseHex32, KeyOf, KeyText, SplitN;
    KeywordRoundTrip(Seen);
    var word, hex, line := KeyText(Seen), ToHex(digest), SeenLine(digest);
    assert IsHexDigit(hex[63]) && line[|line| - 1] == hex[63] && line[0] == word[0];
    assert line == word + " " + hex;
    PlainLine(known, ld, line);
    SplitFirst(word, hex, 6);
    SplitLast(hex, 5);
    assert SplitN(line, 6) == [word, hex];
    DigestRoundTrip(digest);
  }

  lemma {:induction false} GradeFound(name: string, grade: string, k: nat)
    requires ' ' !in grade && |name| < k <= |name| + 1 + |grade|
    ensures SplitGradeFrom(name + " " + grade, k) == (name, grade)
    decreases k
  {
    var s := name + " " + grade;
    if k == |name| + 1 {
      assert s[..k - 1] == name && s[k..] == grade;
    } else {
      assert s[k - 1] == grade[k - 1 - |name| - 1];
      GradeFound(name, grade, k - 1);
    }
  }

  /** The seven fields of a row's line, the last two read as one piece. */
  lemma FileLineFields(row: Row)
    requires RowFits(row)
    ensures SplitN(FileLine(row), 6)
         == [KeyText(File), row.ext, Decimal(row.offset), Decimal(row.size), ToHex(row.sha256),
             row.name + " " + AsStr(row.confidence)]
  {
    hide Decimal, ToHex, SplitN, AsStr, KeyText;
    KeywordRoundTrip(File);
    var f5 := row.name + " " + AsStr(row.confidence);
    var hex, size, off := ToHex(row.sha256), Decimal(row.size), Decimal(row.offset);
    var f4 := hex + " " + f5;
    var f3 := size + " " + f4;
    var f2 := off + " " + f3;
    var f1 := row.ext + " " + f2;
    assert FileLine(row) == KeyText(File) + " " + f1;
    SplitFirst(KeyText(File), f1, 6);
    SplitFirst(row.ext, f2, 5);
    SplitFirst(off, f3, 4);
    SplitFirst(size, f4, 3);
    SplitFirst(hex, f5, 2);
    assert SplitN(f5, 1) == [f5] by { SplitOne(f5); }
  }

  lemma SplitOne(s: string)
    ensures SplitN(s, 1) == [s]
  {
  }

  /** A row's line gives the row back exactly if its extension is in the table, and nothing otherwise. */
  lemma ReadFileLine(known: set<string>, ld: Loaded, row: Row)
    requires RowFits(row)
    ensures ReadLine(known, ld, FileLine(row))
         == if row.ext in known then
              ld.(tally := ld.tally.(files := ld.tally.files + [row], perType := Bump(ld.tally.perType, row.ext)))
            else ld
  {
    hide ToHex, ParseHex32, Decimal, ParseU64, SplitN, SplitGradeFrom, Bump, KeyOf, KeyText;
    KeywordRoundTrip(File);
    var grade := AsStr(row.confidence);
    var line := FileLine(row);
    assert line[|line| - 1] == grade[|grade| - 1] && line[0] == KeyText(File)[0];
    PlainLine(known, ld, line);
    FileLineFields(row);
    DecimalRoundTrip(row.offset);
    DecimalRoundTrip(row.size);
    DigestRoundTrip(row.sha256);
    GradeFound(row.name, grade, |row.name| + 1 + |grade|);
  }

  // --- whole checkpoints ---

  /** The rows whose extension the table resolves. */
  function Kept(known: set<string>, files: seq<Row>): seq<Row> {
    if files == [] then []
    else Kept(known, files[..|files| - 1]) + (if files[|files| - 1].ext in known then [files[|files| - 1]] else [])
  }

  lemma EmptyOrder()
    ensures SetOf([]) == {}
  {
  }

  lemma SetOfSnoc(front: seq<seq<byte>>, last: seq<byte>)
    ensures SetOf(front + [last]) == SetOf(front) + {last}
  {
  }

  lemma {:induction false} ReadSeenLines(known: set<string>, ld: Loaded, order: seq<seq<byte>>)
    requires forall d :: d in order ==> |d| == 32
    ensures ReadLines(known, ld, SeenLines(order)) == ld.(seen := ld.seen + SetOf(order))
  {
    hide ReadLine, SeenLine, SetOf;
    if order == [] {
      assert SetOf(order) == {} by { EmptyOrder(); }
      assert ld.seen + {} == ld.seen;
    } else {
      var front, last := order[..|order| - 1], order[|order| - 1];
      ReadSeenLines(known, ld, front);
      ReadSeenLine(known, ld.(seen := ld.seen + SetOf(front)), last);
      assert SeenLines(order)[..|SeenLines(order)| - 1] == SeenLines(front);
      SetOfSnoc(front, last);
      assert order == front + [last];
      assert ld.seen + (SetOf(front) + {last}) == ld.seen + SetOf(front) + {last};
    }
  }

  lemma {:induction false} ReadFileLines(known: set<string>, ld: Loaded, files: seq<Row>)
    requires forall row :: row in files ==> RowFits(row)
    requires ld.tally.files == [] && ld.tally.perType == map[]
    ensures ReadLines(known, ld, FileLines(files))
         == ld.(tally := ld.tally.(files := Kept(known, files), perType := TypesOf(map[], Kept(known, files))))
  {
    hide ReadLine, Bump, RowFits;
    if files != [] {
      var front, last := files[..|files| - 1], files[|files| - 1];
      ReadFileLines(known, ld, front);
      var kept := Kept(known, front);
      ReadFileLine(known, ld.(tally := ld.tally.(files := kept, perType := TypesOf(map[], kept))), last);
      assert FileLines(files)[..|FileLines(files)| - 1] == FileLines(front);
      assert (kept + [last])[..|kept|] == kept;
    }
  }

  /** What a reader of the checkpoint gets: everything but the unknown rows and the counter that is not written. */
  function Restored(known: set<string>, t: Tally): Tally {
    t.(files := Kept(known, t.files), perType := TypesOf(map[], Kept(known, t.files)), skippedLarge := 0)
  }

  lemma ReadHeader(known: set<string>, pos: nat, end: nat, skipUntil: nat, t: Tally)
    requires pos < U64_LIMIT && end < U64_LIMIT && skipUntil < U64_LIMIT && Fits(t)
    ensures ReadLines(known, FRESH, HeaderLines(pos, end, skipUntil, t))
         == Loaded(pos, skipUntil, {}, t.(files := [], perType := map[], skippedLarge := 0))
  {
    hide ReadLine, NumberLine;
    var h := HeaderLines(pos, end, skipUntil, t);
    ReadTitle(known, FRESH);
    var l1 := FRESH.(pos := pos);
    ReadNumberLine(known, FRESH, Pos, pos);
    ReadNumberLine(known, l1, End, end);
    var l3 := l1.(skipUntil := skipUntil);
    ReadNumberLine(known, l1, SkipUntil, skipUntil);
    ReadOne(known, FRESH, h, 0, FRESH);
    ReadOne(known, FRESH, h, 1, l1);
    ReadOne(known, FRESH, h, 2, l1);
    ReadOne(known, FRESH, h, 3, l3);
    ReadCounts(known, h, l3, t);
  }

  /** One more line of a prefix. */
  lemma ReadOne(known: set<string>, ld: Loaded, lines: seq<string>, i: nat, next: Loaded)
    requires i < |lines| && ReadLine(known, ReadLines(known, ld, lines[..i]), lines[i]) == next
    ensures ReadLines(known, ld, lines[..i + 1]) == next
  {
    assert lines[..i + 1][..i] == lines[..i];
  }

  lemma ReadCounts(known: set<string>, h: seq<string>, l3: Loaded, t: Tally)
    requires Fits(t) && |h| == 11 && ReadLines(known, FRESH, h[..4]) == l3 && l3.tally == EMPTY_TALLY
    requires h[4] == NumberLine(Files, t.filesRecovered) && h[5] == NumberLine(Bytes, t.bytesRecovered)
    requires h[6] == NumberLine(Rejected, t.rejected) && h[7] == NumberLine(Duplicates, t.duplicates)
    requires h[8] == NumberLine(VerifiedCount, t.verified) && h[9] == NumberLine(PlausibleCount, t.plausible)
    requires h[10] == NumberLine(TruncatedCount, t.truncated)
    ensures ReadLines(known, FRESH, h) == l3.(tally := t.(files := [], perType := map[], skippedLarge := 0))
  {
    hide ReadLine, NumberLine, Fits;
    assert t.filesRecovered < U64_LIMIT && t.bytesRecovered < U64_LIMIT && t.rejected < U64_LIMIT
      && t.duplicates < U64_LIMIT
           && t.verified < U64_LIMIT && t.plausible < U64_LIMIT && t.truncated < U64_LIMIT by { FitsBounds(t); }
    var l4 := WithNumber(l3, Files, t.filesRecovered);
    var l5 := WithNumber(l4, Bytes, t.bytesRecovered);
    var l6 := WithNumber(l5, Rejected, t.rejected);
    var l7 := WithNumber(l6, Duplicates, t.duplicates);
    var l8 := WithNumber(l7, VerifiedCount, t.verified);
    var l9 := WithNumber(l8, PlausibleCount, t.plausible);
    var l10 := WithNumber(l9, TruncatedCount, t.truncated);
    ReadNumberLine(known, l3, Files, t.filesRecovered);
    ReadOne(known, FRESH, h, 4, l4);
    ReadNumberLine(known, l4, Bytes, t.bytesRecovered);
    ReadOne(known, FRESH, h, 5, l5);
    ReadNumberLine(known, l5, Rejected, t.rejected);
    ReadOne(known, FRESH, h, 6, l6);
    ReadNumberLine(known, l6, Duplicates, t.duplicates);
    ReadOne(known, FRESH, h, 7, l7);
    ReadNumberLine(known, l7, VerifiedCount, t.verified);
    ReadOne(known, FRESH, h, 8, l8);
    ReadNumberLine(known, l8, PlausibleCount, t.plausible);
    ReadOne(known, FRESH, h, 9, l9);
    ReadNumberLine(known, l9, TruncatedCount, t.truncated);
    ReadOne(known, FRESH, h, 10, l10);
    assert h[..11] == h;
  }

  lemma FitsBounds(t: Tally)
    requires Fits(t)
    ensures t.filesRecovered < U64_LIMIT && t.bytesRecovered < U64_LIMIT && t.rejected < U64_LIMIT
            && t.duplicates < U64_LIMIT
            && t.verified < U64_LIMIT && t.plausible < U64_LIMIT && t.truncated < U64_LIMIT
  {
  }

  predicate NoBreak(lines: seq<string>) { forall i :: 0 <= i < |lines| ==> '\n' !in lines[i] }

  lemma DigitsHaveNoBreak(n: nat, bytes: seq<byte>)
    ensures '\n' !in Decimal(n) && '\n' !in ToHex(bytes)
  {
    assert !IsDigit('\n') && !IsHexDigit('\n');
  }

  lemma KeywordHasNoBreak(k: Key)
    ensures '\n' !in KeyText(k)
  {
  }

  lemma NumberLineNoBreak(k: Key, n: nat)
    ensures '\n' !in NumberLine(k, n)
  {
    hide Decimal, KeyText;
    KeywordHasNoBreak(k);
    DigitsHaveNoBreak(n, []);
  }

  lemma SeenLineNoBreak(digest: seq<byte>)
    ensures '\n' !in SeenLine(digest)
  {
    hide ToHex, KeyText;
    KeywordHasNoBreak(Seen);
    DigitsHaveNoBreak(0, digest);
  }

  lemma FileLineNoBreak(row: Row)
    requires RowFits(row)
    ensures '\n' !in FileLine(row)
  {
    hide Decimal, ToHex, KeyText, AsStr;
    KeywordHasNoBreak(File);
    DigitsHaveNoBreak(row.offset, row.sha256);
    DigitsHaveNoBreak(row.size, row.sha256);
    assert '\n' !in AsStr(row.confidence) by { GradeHasNoBreak(row.confidence); }
  }

  lemma GradeHasNoBreak(c: Confidence)
    ensures '\n' !in AsStr(c)
  {
  }

  lemma {:induction false} SeenLinesNoBreak(order: seq<seq<byte>>)
    ensures NoBreak(SeenLines(order))
  {
    if order != [] {
      SeenLinesNoBreak(order[..|order| - 1]);
      SeenLineNoBreak(order[|order| - 1]);
    }
  }

  lemma {:induction false} FileLinesNoBreak(files: seq<Row>)
    requires forall row :: row in files ==> RowFits(row)
    ensures NoBreak(FileLines(files))
  {
    hide FileLine;
    if files != [] {
      FileLinesNoBreak(files[..|files| - 1]);
      FileLineNoBreak(files[|files| - 1]);
    }
  }

  lemma HeaderNoBreak(pos: nat, end: nat, skipUntil: nat, t: Tally)
    ensures NoBreak(HeaderLines(pos, end, skipUntil, t))
  {
    hide NumberLine;
    forall k: Key, n: nat ensures '\n' !in NumberLine(k, n) { NumberLineNoBreak(k, n); }
  }

  /** Reading back a written checkpoint. */
  lemma RoundTrip(known: set<string>, pos: nat, end: nat, skipUntil: nat, t: Tally, order: seq<seq<byte>>)
    requires pos < U64_LIMIT && end < U64_LIMIT && skipUntil < U64_LIMIT && Fits(t)
    requires forall d :: d in order ==> |d| == 32
    ensures ReadText(known, Join(CheckpointLines(pos, end, skipUntil, t, order)))
         == Loaded(pos, skipUntil, SetOf(order), Restored(known, t))
  {
    hide ReadLine, HeaderLines, SeenLines, FileLines, SetOf, RowFits, Kept;
    var header, seen, files := HeaderLines(pos, end, skipUntil, t), SeenLines(order), FileLines(t.files);
    var lines := CheckpointLines(pos, end, skipUntil, t, order);
    HeaderNoBreak(pos, end, skipUntil, t);
    SeenLinesNoBreak(order);
    FileLinesNoBreak(t.files);
    LinesOfJoin(lines, []);
    assert Join(lines) + [] == Join(lines) && Lines([]) == [] && lines + [] == lines;
    ReadConcat(known, FRESH, header + seen, files);
    ReadConcat(known, FRESH, header, seen);
    ReadHeader(known, pos, end, skipUntil, t);
    var l1 := Loaded(pos, skipUntil, {}, t.(files := [], perType := map[], skippedLarge := 0));
    ReadSeenLines(known, l1, order);
    assert {} + SetOf(order) == SetOf(order);
    ReadFileLines(known, l1.(seen := SetOf(order)), t.files);
  }

  lemma {:induction false} KeptIsAll(known: set<string>, files: seq<Row>)
    ensures |Kept(known, files)| <= |files|
    ensures Kept(known, files) == files <==> forall row :: row in files ==> row.ext in known
  {
    if files != [] {
      var front, last := files[..|files| - 1], files[|files| - 1];
      KeptIsAll(known, front);
      assert files == front + [last];
      if last.ext in known && Kept(known, files) == files {
        assert Kept(known, files)[..|files| - 1] == Kept(known, front);
      }
    }
  }

  /**
   * The manifest survives a checkpoint exactly when the signature table resolves every row's extension. It does not for
   * a ZIP refined from its content (docx, xlsx, ...) unless the table lists that extension by itself.
   */
  lemma ManifestSurvivesIff(known: set<string>, t: Tally)
    requires t.perType == TypesOf(map[], t.files)
    ensures Restored(known, t) == t.(skippedLarge := 0) <==> forall row :: row in t.files ==> row.ext in known
  {
    KeptIsAll(known, t.files);
  }

  const DOCX_ROW: Row := Row("00000000_0x00000000000000.docx", "docx", 0, 4096, F.Zeros(32), Verified)

  /** A run interrupted after its only file, a ZIP written as docx, resumes with that file counted but not listed. */
  lemma RefinedRowIsLost(known: set<string>)
    requires "docx" !in known
    ensures var t := Record(EMPTY_TALLY, DOCX_ROW);
            var read := ReadText(known, Join(CheckpointLines(4096, 8192, 4096, t, [DOCX_ROW.sha256]))).tally;
            t.files == [DOCX_ROW] && read.files == [] && read.filesRecovered == 1
  {
    hide Join, CheckpointLines, ReadText, Kept, Fits, SetOf, Restored, Record;
    var t := Record(EMPTY_TALLY, DOCX_ROW);
    RefinedRow(known);
    RoundTrip(known, 4096, 8192, 4096, t, [DOCX_ROW.sha256]);
  }

  lemma RefinedRow(known: set<string>)
    requires "docx" !in known
    ensures var t := Record(EMPTY_TALLY, DOCX_ROW);
            Fits(t) && t.files == [DOCX_ROW] && Restored(known, t).files == [] && Restored(known, t).filesRecovered == 1
  {
    hide Bump, TypesOf;
    var t := Record(EMPTY_TALLY, DOCX_ROW);
    assert t.files == [DOCX_ROW] && t.files[..0] == [];
    assert '\n' !in DOCX_ROW.name && IsToken(DOCX_ROW.ext);
    assert Kept(known, []) == [];
  }
}
