/** The scan checkpoint as text: written by `write_checkpoint`, read leniently by `read_checkpoint`. */
module Checkpoint {
  import opened Bytes
  import opened Text
  import opened Carving

  datatype Loaded = Loaded(pos: u64, skipUntil: u64, seen: set<seq<byte>>, tally: Tally)

  const FRESH: Loaded := Loaded(0, 0, {}, EMPTY_TALLY)

  // --- string primitives ---

  function IndexOf(s: string, c: char): (r: Option<nat>)
    ensures r.Some? ==> r.value < |s| && s[r.value] == c && c !in s[..r.value]
    ensures r.None? ==> c !in s
  {
    if s == [] then None
    else if s[0] == c then Some(0)
    else match IndexOf(s[1..], c)
      case None => None
      case Some(k) => Some(k + 1)
  }

  /** `str::lines`. */
  function Lines(s: string): seq<string>
    decreases |s|
  {
    match IndexOf(s, '\n')
    case None => if s == [] then [] else [s]
    case Some(k) => [s[..k]] + Lines(s[k + 1..])
  }

  predicate IsWhitespace(c: char) {
    var n := c as int;
    0x09 <= n <= 0x0D || n == 0x20 || n == 0x85 || n == 0xA0 || n == 0x1680 || 0x2000 <= n <= 0x200A
    || n == 0x2028 || n == 0x2029 || n == 0x202F || n == 0x205F || n == 0x3000
  }

  function TrimStart(s: string): string {
    if s != [] && IsWhitespace(s[0]) then TrimStart(s[1..]) else s
  }

  function TrimEnd(s: string): string {
    if s != [] && IsWhitespace(s[|s| - 1]) then TrimEnd(s[..|s| - 1]) else s
  }

  function Trim(s: string): string { TrimEnd(TrimStart(s)) }

  /** `splitn(n, ' ')`: at most `n` pieces, the last one unsplit. */
  function SplitN(s: string, n: nat): (r: seq<string>)
    requires n >= 1
    ensures 1 <= |r| <= n
    decreases n
  {
    if n == 1 then [s]
    else match IndexOf(s, ' ')
      case None => [s]
      case Some(k) => [s[..k]] + SplitN(s[k + 1..], n - 1)
  }

  /** `rsplit_once(' ')`, or the whole with an empty grade. */
  function SplitGrade(s: string): (string, string) { SplitGradeFrom(s, |s|) }

  function SplitGradeFrom(s: string, k: nat): (string, string)
    requires k <= |s|
  {
    if k == 0 then (s, [])
    else if s[k - 1] == ' ' then (s[..k - 1], s[k..])
    else SplitGradeFrom(s, k - 1)
  }

  // --- reading ---

  function AsStr(c: Confidence): string {
    match c
    case Verified => "verified"
    case Plausible => "plausible"
    case Truncated => "truncated"
  }

  function ParseGrade(s: string): Confidence {
    if s == "verified" then Verified else if s == "truncated" then Truncated else Plausible
  }

  function NumberAt(f: seq<string>, i: nat, default: u64): u64 {
    if i < |f| && ParseU64(f[i]).Some? then ParseU64(f[i]).value else default
  }

  /** `file ext offset size sha name confidence`; the last piece holds the name and the grade together. */
  function ParseRow(known: set<string>, f: seq<string>): Option<Row> {
    if |f| < 6 || f[1] !in known then None
    else match (ParseU64(f[2]), ParseU64(f[3]), ParseHex32(f[4]))
      case (Some(offset), Some(size), Some(sha)) =>
        var (name, grade) := SplitGrade(f[5]);
        Some(Row(name, f[1], offset, size, sha, ParseGrade(grade)))
      case _ => None
  }

  /** The first word of a line. */
  datatype Key =
    | Pos | End | SkipUntil | Files | Bytes | Rejected | Duplicates | VerifiedCount | PlausibleCount | TruncatedCount
    | Seen | File | NoKey

  function KeyText(k: Key): string {
    match k
    case Pos => "pos"
    case End => "end"
    case SkipUntil => "skip_until"
    case Files => "files"
    case Bytes => "bytes"
    case Rejected => "rejected"
    case Duplicates => "duplicates"
    case VerifiedCount => "verified"
    case PlausibleCount => "plausible"
    case TruncatedCount => "truncated"
    case Seen => "seen"
    case File => "file"
    case NoKey => ""
  }

  function KeyOf(s: string): Key {
    if s == "pos" then Pos
    else if s == "end" then End
    else if s == "skip_until" then SkipUntil
    else if s == "files" then Files
    else if s == "bytes" then Bytes
    else if s == "rejected" then Rejected
    else if s == "duplicates" then Duplicates
    else if s == "verified" then VerifiedCount
    else if s == "plausible" then PlausibleCount
    else if s == "truncated" then TruncatedCount
    else if s == "seen" then Seen
    else if s == "file" then File
    else NoKey
  }

  /** A number line replaces its counter. The scan's end is written but not read back. */
  function WithNumber(ld: Loaded, k: Key, n: u64): Loaded {
    match k
    case Pos => ld.(pos := n)
    case SkipUntil => ld.(skipUntil := n)
    case Files => ld.(tally := ld.tally.(filesRecovered := n))
    case Bytes => ld.(tally := ld.tally.(bytesRecovered := n))
    case Rejected => ld.(tally := ld.tally.(rejected := n))
    case Duplicates => ld.(tally := ld.tally.(duplicates := n))
    case VerifiedCount => ld.(tally := ld.tally.(verified := n))
    case PlausibleCount => ld.(tally := ld.tally.(plausible := n))
    case TruncatedCount => ld.(tally := ld.tally.(truncated := n))
    case _ => ld
  }

  /** What a counter is set to when its number cannot be read: positions keep their value, tallies drop to zero. */
  function Fallback(ld: Loaded, k: Key): u64 {
    if k == Pos then ld.pos else if k == SkipUntil then ld.skipUntil else 0
  }

  /** One line updates what was loaded so far; a line that cannot be read adds nothing. */
  function ReadFields(known: set<string>, ld: Loaded, f: seq<string>): Loaded
    requires |f| >= 1
  {
    match KeyOf(f[0])
    case Seen =>
      if |f| >= 2 && ParseHex32(f[1]).Some? then ld.(seen := ld.seen + {ParseHex32(f[1]).value}) else ld
    case File =>
      (match ParseRow(known, f)
       case None => ld
       case Some(row) =>
         ld.(tally := ld.tally.(files := ld.tally.files + [row], perType := Bump(ld.tally.perType, row.ext))))
    case k => WithNumber(ld, k, NumberAt(f, 1, Fallback(ld, k)))
  }

  /** The words of a line that is neither blank nor a comment. */
  function Words(raw: string): Option<seq<string>> {
    var line := Trim(raw);
    if line == [] || line[0] == '#' then None else Some(SplitN(line, 6))
  }

  function ReadLine(known: set<string>, ld: Loaded, raw: string): Loaded {
    match Words(raw)
    case None => ld
    case Some(f) => ReadFields(known, ld, f)
  }

  function ReadLines(known: set<string>, ld: Loaded, lines: seq<string>): Loaded {
    if lines == [] then ld else ReadLine(known, ReadLines(known, ld, lines[..|lines| - 1]), lines[|lines| - 1])
  }

  /** `read_checkpoint` on the text of the file. `known` are the extensions `intern_ext` resolves. */
  function ReadText(known: set<string>, text: string): Loaded { ReadLines(known, FRESH, Lines(text)) }

  method ReadCheckpoint(known: set<string>, text: string) returns (ld: Loaded)
    ensures ld == ReadText(known, text)
  {
    hide ReadLine;
    ld := FRESH;
    var lines := Lines(text);
    for i := 0 to |lines|
      invariant ld == ReadLines(known, FRESH, lines[..i])
    {
      assert lines[..i + 1][..i] == lines[..i];
      ld := ReadLine(known, ld, lines[i]);
    }
    assert lines[..|lines|] == lines;
  }

  // --- writing ---

  function Join(lines: seq<string>): string {
    if lines == [] then [] else Join(lines[..|lines| - 1]) + lines[|lines| - 1] + "\n"
  }

  function NumberLine(k: Key, n: nat): string { KeyText(k) + " " + Decimal(n) }

  const TITLE: string := "# unearth scan checkpoint v1"

  function HeaderLines(pos: nat, end: nat, skipUntil: nat, t: Tally): seq<string> {
    [TITLE, NumberLine(Pos, pos), NumberLine(End, end), NumberLine(SkipUntil, skipUntil),
     NumberLine(Files, t.filesRecovered), NumberLine(Bytes, t.bytesRecovered), NumberLine(Rejected, t.rejected),
     NumberLine(Duplicates, t.duplicates), NumberLine(VerifiedCount, t.verified),
     NumberLine(PlausibleCount, t.plausible),
     NumberLine(TruncatedCount, t.truncated)]
  }

  function SeenLine(digest: seq<byte>): string { KeyText(Seen) + " " + ToHex(digest) }

  function FileLine(row: Row): string {
    KeyText(File) + " " + (row.ext + " " + (Decimal(row.offset) + " " + (Decimal(row.size) + " " +
      (ToHex(row.sha256) + " " + (row.name + " " + AsStr(row.confidence))))))
  }

  function SeenLines(order: seq<seq<byte>>): seq<string> {
    if order == [] then [] else SeenLines(order[..|order| - 1]) + [SeenLine(order[|order| - 1])]
  }

  function FileLines(files: seq<Row>): seq<string> {
    if files == [] then [] else FileLines(files[..|files| - 1]) + [FileLine(files[|files| - 1])]
  }

  /** The checkpoint's lines, with the digests in the order the set was walked in. */
  function CheckpointLines(pos: nat, end: nat, skipUntil: nat, t: Tally, order: seq<seq<byte>>): seq<string> {
    HeaderLines(pos, end, skipUntil, t) + SeenLines(order) + FileLines(t.files)
  }

  function SetOf(order: seq<seq<byte>>): set<seq<byte>> { set d | d in order }

  /** The text holds this position, boundary, tally and set of digests, whatever order the digests were walked in. */
  ghost predicate IsCheckpoint(text: string, pos: nat, end: nat, skipUntil: nat, t: Tally, digests: set<seq<byte>>) {
    exists order :: SetOf(order) == digests && text == Join(CheckpointLines(pos, end, skipUntil, t, order))
  }

  /** The text is a checkpoint of this state at `pos`. */
  ghost predicate CheckpointOf(text: string, pos: nat, end: nat, st: State, dedup: bool) {
    IsCheckpoint(text, pos, end, st.skipUntil, st.tally, if dedup then st.seen else {})
  }

  /** `write_checkpoint`: the set of digests is walked in an arbitrary order. */
  method WriteCheckpoint(pos: nat, end: nat, skipUntil: nat, t: Tally, seen: set<seq<byte>>, dedup: bool)
    returns (text: string)
    ensures IsCheckpoint(text, pos, end, skipUntil, t, if dedup then seen else {})
  {
    hide HeaderLines, SeenLine, FileLine;
    var lines := HeaderLines(pos, end, skipUntil, t);
    ghost var order := [];
    var rest := if dedup then seen else {};
    while rest != {}
      invariant lines == HeaderLines(pos, end, skipUntil, t) + SeenLines(order)
      invariant SetOf(order) + rest == if dedup then seen else {}
    {
      var d :| d in rest;
      lines := lines + [SeenLine(d)];
      assert (order + [d])[..|order|] == order;
      assert SetOf(order + [d]) == SetOf(order) + {d};
      order := order + [d];
      rest := rest - {d};
    }
    for i := 0 to |t.files|
      invariant lines == HeaderLines(pos, end, skipUntil, t) + SeenLines(order) + FileLines(t.files[..i])
    {
      assert t.files[..i + 1][..i] == t.files[..i];
      lines := lines + [FileLine(t.files[i])];
    }
    assert t.files[..|t.files|] == t.files;
    text := "";
    for i := 0 to |lines|
      invariant text == Join(lines[..i])
    {
      assert lines[..i + 1][..i] == lines[..i];
      text := text + lines[i] + "\n";
    }
    assert lines[..|lines|] == lines;
  }
}
