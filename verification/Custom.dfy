/** Custom carvers declared at run time: parsing, validation and what an accepted one can carve (src/custom.rs). */
module Custom {
  import opened Bytes
  import opened Signatures
  import opened Lengths
  import opened Text

  /** A JSON value; `whole` is what a number converts to as an unsigned 64-bit integer, if it does. */
  datatype Json =
    | Null
    | Bool(b: bool)
    | Num(whole: Option<u64>)
    | Str(s: string)
    | Arr(items: seq<Json>)
    | Obj(fields: map<string, Json>)

  datatype SpecError =
    | NotAnArray
    | Missing(key: string)
    | BadExt
    | BadHex(key: string, error: HexError)
    | Empty(key: string)
    | BadMaxSize
    | ZeroSize
    | BadWidth
    | BadEndian
    | ZeroMul
    | UnknownStrategy
    | Entry(index: nat, cause: SpecError)

  datatype Parsed<+T> = Accepted(value: T) | Rejected(error: SpecError) {
    predicate IsFailure() { Rejected? }

    function PropagateFailure<U>(): Parsed<U>
      requires Rejected?
    {
      Rejected(error)
    }

    function Extract(): T
      requires Accepted?
    {
      value
    }
  }

  const MAX_SIZE_CAP: nat := 0x100_0000_0000

  datatype Spec = Spec(
    name: string, ext: string, magic: seq<byte>, magicOffset: nat, secondary: Option<(nat, seq<byte>)>, maxSize: nat,
    length: Extent)

  function Get(item: Json, key: string): Option<Json> {
    if item.Obj? && key in item.fields then Some(item.fields[key]) else None
  }

  function ReqStr(item: Json, key: string): Parsed<string> {
    match Get(item, key)
    case Some(Str(s)) => Accepted(s)
    case _ => Rejected(Missing(key))
  }

  function OptStr(item: Json, key: string): Option<string> {
    match Get(item, key)
    case Some(Str(s)) => Some(s)
    case _ => None
  }

  function OptU64(item: Json, key: string): Option<u64> {
    match Get(item, key)
    case Some(Num(whole)) => whole
    case _ => None
  }

  function ReqU64(item: Json, key: string): Parsed<u64> {
    match OptU64(item, key)
    case Some(n) => Accepted(n)
    case None => Rejected(Missing(key))
  }

  function OrElse(o: Option<u64>, d: u64): u64 { if o.Some? then o.value else d }

  function Hex(key: string, s: string): Parsed<seq<byte>> {
    match ParseHex(s)
    case Ok(bytes) => Accepted(bytes)
    case Err(e) => Rejected(BadHex(key, e))
  }

  function NonEmptyHex(key: string, s: string): Parsed<seq<byte>> {
    var bytes :- Hex(key, s);
    if bytes == [] then Rejected(Empty(key)) else Accepted(bytes)
  }

  predicate IsExtChar(c: char) { '0' <= c <= '9' || 'a' <= c <= 'z' || 'A' <= c <= 'Z' || c == '_' || c == '-' }

  /** `validate_ext`: 1 to 16 letters, digits, underscores or hyphens. */
  function ValidateExt(ext: string): Parsed<string> {
    if ext == [] || |ext| > 16 || exists i :: 0 <= i < |ext| && !IsExtChar(ext[i]) then Rejected(BadExt)
    else Accepted(ext)
  }

  /** `parse_length`: one of the three declarative strategies. */
  function ParseLength(l: Json): Parsed<Extent> {
    var strategy :- ReqStr(l, "strategy");
    if strategy == "fixed" then
      var size :- ReqU64(l, "size");
      if size == 0 then Rejected(ZeroSize) else Accepted(Fixed(size))
    else if strategy == "size_field" then
      var offset :- ReqU64(l, "offset");
      var width :- ReqU64(l, "width");
      if width !in {8, 16, 32, 64} then Rejected(BadWidth)
      else
        var endian := match OptStr(l, "endian") case Some(s) => s case None => "le";
        if endian !in {"le", "little", "be", "big"} then Rejected(BadEndian)
        else
          var mul := OrElse(OptU64(l, "mul"), 1);
          if mul == 0 then Rejected(ZeroMul)
          else Accepted(SizeField(offset, width, endian in {"be", "big"}, mul, OrElse(OptU64(l, "add"), 0)))
    else if strategy == "footer" then
      var text :- ReqStr(l, "marker");
      var marker :- NonEmptyHex("marker", text);
      Accepted(Footer(marker, OrElse(OptU64(l, "trailing"), 0)))
    else Rejected(UnknownStrategy)
  }

  function ParseSecondary(item: Json): Parsed<Option<(nat, seq<byte>)>> {
    match Get(item, "secondary")
    case None => Accepted(None)
    case Some(sec) =>
      var offset :- ReqU64(sec, "offset");
      var text :- ReqStr(sec, "bytes");
      var bytes :- NonEmptyHex("secondary.bytes", text);
      Accepted(Some((offset, bytes)))
  }

  /** `Spec::parse`: the checks in the order the program makes them. */
  function Parse(item: Json): Parsed<Spec> {
    var name :- ReqStr(item, "name");
    var rawExt :- ReqStr(item, "ext");
    var ext :- ValidateExt(rawExt);
    var magicText :- ReqStr(item, "magic");
    var magic :- NonEmptyHex("magic", magicText);
    var magicOffset := OrElse(OptU64(item, "magic_offset"), 0);
    var maxSize :- ReqU64(item, "max_size");
    if maxSize == 0 || maxSize > MAX_SIZE_CAP then Rejected(BadMaxSize)
    else
      var secondary :- ParseSecondary(item);
      match Get(item, "length")
      case None => Rejected(Missing("length"))
      case Some(l) =>
        var length :- ParseLength(l);
        Accepted(Spec(name, ext, magic, magicOffset, secondary, maxSize, length))
  }

  /** `Spec::to_signature`. */
  function ToSignature(spec: Spec): Signature {
    Signature(spec.name, spec.ext, spec.magic, spec.magicOffset, spec.secondary, spec.length, spec.maxSize)
  }

  /** `from_json`: all entries, or the first error with the index of its entry. */
  method FromJson(value: Json) returns (r: Parsed<seq<Spec>>)
    ensures !value.Arr? <==> r == Rejected(NotAnArray)
    ensures r.Accepted? ==> value.Arr? && |r.value| == |value.items|
                            && forall i :: 0 <= i < |r.value| ==> Parse(value.items[i]) == Accepted(r.value[i])
    ensures r.Rejected? && value.Arr? ==>
              && r.error.Entry? && r.error.index < |value.items|
              && Parse(value.items[r.error.index]) == Rejected(r.error.cause)
              && forall i :: 0 <= i < r.error.index ==> Parse(value.items[i]).Accepted?
  {
    hide Parse;
    if !value.Arr? {
      return Rejected(NotAnArray);
    }
    var out := [];
    for i := 0 to |value.items|
      invariant |out| == i && forall k :: 0 <= k < i ==> Parse(value.items[k]) == Accepted(out[k])
    {
      var spec := Parse(value.items[i]);
      if spec.Rejected? {
        return Rejected(Entry(i, spec.error));
      }
      out := out + [spec.value];
    }
    return Accepted(out);
  }

  /** What acceptance guarantees about the spec itself. */
  lemma AcceptedIsWellFormed(item: Json)
    requires Parse(item).Accepted?
    ensures var spec := Parse(item).value;
            && spec.magic != [] && 0 < spec.maxSize <= MAX_SIZE_CAP
            && 0 < |spec.ext| <= 16 && (forall i :: 0 <= i < |spec.ext| ==> IsExtChar(spec.ext[i]))
            && (spec.secondary.Some? ==> spec.secondary.value.1 != [])
            && match spec.length
               case Fixed(size) => size > 0
               case SizeField(_, width, _, mul, _) => width in {8, 16, 32, 64} && mul > 0
               case Footer(marker, _) => marker != []
               case _ => false
  {
    hide ParseHex;
  }

  /**
   * Any accepted spec carves in bounds on any source: a returned length is positive, at most `max_size`, and ends at or
   * before the end of the scan, whatever the bytes there are.
   */
  lemma AcceptedCarvesInBounds(item: Json, oracle: Oracle, src: seq<byte>, fileStart: nat, scanEnd: nat)
    requires Parse(item).Accepted? && scanEnd <= |src|
    ensures match Length(oracle, src, ToSignature(Parse(item).value), fileStart, scanEnd)
            case None => true
            case Some(len) => 0 < len <= Parse(item).value.maxSize && fileStart + len <= scanEnd
  {
    hide Parse;
    AcceptedIsWellFormed(item);
    LengthInBounds(oracle, src, ToSignature(Parse(item).value), fileStart, scanEnd);
  }

  // --- which key gives which field ---

  predicate HasText(j: Json, key: string, text: string) { j.Obj? && key in j.fields && j.fields[key] == Str(text) }

  predicate HasNumber(j: Json, key: string, n: nat) {
    j.Obj? && key in j.fields && j.fields[key].Num? && j.fields[key].whole.Some? && j.fields[key].whole.value == n
  }

  /** The value under the key is the hex text of these bytes. */
  ghost predicate HasBytes(j: Json, key: string, bytes: seq<byte>) {
    exists text :: HasText(j, key, text) && ParseHex(text) == Ok(bytes)
  }

  /** The number under the key, or the default when there is none. */
  ghost predicate HasNumberOr(j: Json, key: string, default: nat, n: nat) {
    HasNumber(j, key, n) || (n == default && forall m: nat :: !HasNumber(j, key, m))
  }

  ghost predicate SecondaryFrom(item: Json, secondary: Option<(nat, seq<byte>)>)
    requires item.Obj?
  {
    match secondary
    case None => "secondary" !in item.fields
    case Some((offset, bytes)) =>
      "secondary" in item.fields && HasNumber(item.fields["secondary"], "offset", offset)
      && HasBytes(item.fields["secondary"], "bytes", bytes)
  }

  ghost predicate LengthFrom(l: Json, length: Extent) {
    match length
    case Fixed(size) => HasText(l, "strategy", "fixed") && HasNumber(l, "size", size)
    case SizeField(offset, width, bigEndian, mul, add) =>
      && HasText(l, "strategy", "size_field") && HasNumber(l, "offset", offset) && HasNumber(l, "width", width)
      && (bigEndian <==> HasText(l, "endian", "be") || HasText(l, "endian", "big"))
      && HasNumberOr(l, "mul", 1, mul) && HasNumberOr(l, "add", 0, add)
    case Footer(marker, trailing) =>
      HasText(l, "strategy", "footer") && HasBytes(l, "marker", marker) && HasNumberOr(l, "trailing", 0, trailing)
    case _ => false
  }

  lemma TextUnder(j: Json, key: string)
    requires ReqStr(j, key).Accepted?
    ensures HasText(j, key, ReqStr(j, key).value)
  {
  }

  lemma NumberUnder(j: Json, key: string)
    ensures ReqU64(j, key).Accepted? ==> HasNumber(j, key, ReqU64(j, key).value)
    ensures forall d: u64 :: HasNumberOr(j, key, d, OrElse(OptU64(j, key), d))
  {
  }

  lemma BytesUnder(j: Json, key: string, error: string)
    requires ReqStr(j, key).Accepted? && NonEmptyHex(error, ReqStr(j, key).value).Accepted?
    ensures HasBytes(j, key, NonEmptyHex(error, ReqStr(j, key).value).value)
  {
    hide ParseHex;
    assert HasText(j, key, ReqStr(j, key).value);
  }

  lemma EndianUnder(l: Json)
    ensures var endian := match OptStr(l, "endian") case Some(s) => s case None => "le";
            endian in {"be", "big"} <==> HasText(l, "endian", "be") || HasText(l, "endian", "big")
  {
  }

  lemma LengthKeys(l: Json)
    requires ParseLength(l).Accepted?
    ensures LengthFrom(l, ParseLength(l).value)
  {
    TextUnder(l, "strategy");
    NumberUnder(l, "size");
    NumberUnder(l, "offset");
    NumberUnder(l, "width");
    NumberUnder(l, "mul");
    NumberUnder(l, "add");
    NumberUnder(l, "trailing");
    EndianUnder(l);
    hide HasText, HasNumber, HasNumberOr, HasBytes, ReqU64, OptU64, OptStr, ReqStr, NonEmptyHex;
    if ParseLength(l).value.Footer? { BytesUnder(l, "marker", "marker"); }
  }

  lemma SecondaryKeys(item: Json)
    requires item.Obj? && ParseSecondary(item).Accepted?
    ensures SecondaryFrom(item, ParseSecondary(item).value)
  {
    hide HasText, HasNumber, HasNumberOr, HasBytes, ReqU64, ReqStr, NonEmptyHex;
    if "secondary" in item.fields {
      var sec := item.fields["secondary"];
      NumberUnder(sec, "offset");
      BytesUnder(sec, "bytes", "secondary.bytes");
    }
  }

  /** Every field of the signature that an accepted spec becomes is what stands under its own key. */
  lemma AcceptedFields(item: Json)
    requires Parse(item).Accepted?
    ensures item.Obj? && "length" in item.fields
    ensures var sig := ToSignature(Parse(item).value);
            && HasText(item, "name", sig.name) && HasText(item, "ext", sig.ext) && HasBytes(item, "magic", sig.magic)
            && HasNumberOr(item, "magic_offset", 0, sig.magicOffset) && HasNumber(item, "max_size", sig.maxSize)
            && SecondaryFrom(item, sig.secondary) && LengthFrom(item.fields["length"], sig.extent)
  {
    TextUnder(item, "name");
    TextUnder(item, "ext");
    NumberUnder(item, "magic_offset");
    NumberUnder(item, "max_size");
    BytesUnder(item, "magic", "magic");
    SecondaryKeys(item);
    LengthKeys(item.fields["length"]);
    hide HasText, HasNumber, HasNumberOr, HasBytes, LengthFrom, SecondaryFrom, NonEmptyHex, ParseLength, ParseSecondary;
  }

  // --- what is accepted ---

  ghost predicate HasSomeBytes(j: Json, key: string) { exists bytes :: bytes != [] && HasBytes(j, key, bytes) }

  ghost predicate LengthStated(l: Json) {
    || (HasText(l, "strategy", "fixed") && exists n: nat :: n > 0 && HasNumber(l, "size", n))
    || (HasText(l, "strategy", "size_field")
        && (exists n: nat :: HasNumber(l, "offset", n))
        && (exists n: nat :: n in {8, 16, 32, 64} && HasNumber(l, "width", n))
        && (forall t :: HasText(l, "endian", t) ==> t in ["le", "little", "be", "big"])
        && !HasNumber(l, "mul", 0))
    || (HasText(l, "strategy", "footer") && HasSomeBytes(l, "marker"))
  }

  ghost predicate SecondaryStated(item: Json) {
    item.Obj?
    && ("secondary" in item.fields ==>
          && (exists n: nat :: HasNumber(item.fields["secondary"], "offset", n))
          && HasSomeBytes(item.fields["secondary"], "bytes"))
  }

  ghost predicate NameStated(item: Json) { exists t :: HasText(item, "name", t) }

  ghost predicate ExtStated(item: Json) {
    exists t :: HasText(item, "ext", t) && 1 <= |t| <= 16 && forall i :: 0 <= i < |t| ==> IsExtChar(t[i])
  }

  ghost predicate SizeStated(item: Json) {
    exists n: nat :: 0 < n <= 0x100_0000_0000 && HasNumber(item, "max_size", n)
  }

  ghost predicate Stated(item: Json) {
    && NameStated(item) && ExtStated(item) && HasSomeBytes(item, "magic") && SizeStated(item)
    && SecondaryStated(item) && "length" in item.fields && LengthStated(item.fields["length"])
  }

  lemma TextIff(j: Json, key: string)
    ensures ReqStr(j, key).Accepted? <==> exists t :: HasText(j, key, t)
    ensures forall t :: HasText(j, key, t) ==> ReqStr(j, key) == Accepted(t) && OptStr(j, key) == Some(t)
    ensures OptStr(j, key).Some? ==> HasText(j, key, OptStr(j, key).value)
  {
    if ReqStr(j, key).Accepted? { TextUnder(j, key); }
  }

  lemma NumberIff(j: Json, key: string)
    ensures ReqU64(j, key).Accepted? <==> exists n: nat :: HasNumber(j, key, n)
    ensures forall n: nat :: HasNumber(j, key, n) ==> ReqU64(j, key) == Accepted(n) && OptU64(j, key) == Some(n)
    ensures OptU64(j, key).Some? ==> HasNumber(j, key, OptU64(j, key).value)
  {
    NumberUnder(j, key);
  }

  lemma BytesIff(j: Json, key: string, error: string)
    ensures (ReqStr(j, key).Accepted? && NonEmptyHex(error, ReqStr(j, key).value).Accepted?)
        <==> HasSomeBytes(j, key)
  {
    hide ParseHex, HasText;
    TextIff(j, key);
    if ReqStr(j, key).Accepted? {
      var text := ReqStr(j, key).value;
      TextUnder(j, key);
      if NonEmptyHex(error, text).Accepted? { BytesUnder(j, key, error); }
    }
  }

  lemma FixedAcceptedIff(l: Json)
    requires HasText(l, "strategy", "fixed")
    ensures ParseLength(l).Accepted? <==> LengthStated(l)
  {
    TextIff(l, "strategy");
    NumberIff(l, "size");
    hide HasNumber, HasSomeBytes, HasText, ReqStr, ReqU64, OptU64, OptStr;
    OneText(l, "strategy", "fixed");
  }

  lemma OneText(j: Json, key: string, t: string)
    requires HasText(j, key, t)
    ensures forall u :: HasText(j, key, u) ==> u == t
  {
  }

  lemma SizeFieldAcceptedIff(l: Json)
    requires HasText(l, "strategy", "size_field")
    ensures ParseLength(l).Accepted? <==> LengthStated(l)
  {
    TextIff(l, "strategy");
    NumberIff(l, "offset");
    NumberIff(l, "width");
    NumberIff(l, "mul");
    TextIff(l, "endian");
    hide HasNumber, HasSomeBytes, HasText, ReqStr, ReqU64, OptU64, OptStr;
    OneText(l, "strategy", "size_field");
  }

  lemma FooterAcceptedIff(l: Json)
    requires HasText(l, "strategy", "footer")
    ensures ParseLength(l).Accepted? <==> LengthStated(l)
  {
    TextIff(l, "strategy");
    BytesIff(l, "marker", "marker");
    hide HasNumber, HasSomeBytes, HasText, ReqStr, ReqU64, OptU64, OptStr, NonEmptyHex;
    OneText(l, "strategy", "footer");
  }

  lemma LengthAcceptedIff(l: Json)
    ensures ParseLength(l).Accepted? <==> LengthStated(l)
  {
    TextIff(l, "strategy");
    hide HasText;
    if HasText(l, "strategy", "fixed") {
      FixedAcceptedIff(l);
    } else if HasText(l, "strategy", "size_field") {
      SizeFieldAcceptedIff(l);
    } else if HasText(l, "strategy", "footer") {
      FooterAcceptedIff(l);
    }
  }

  lemma SecondaryAcceptedIff(item: Json)
    requires item.Obj?
    ensures ParseSecondary(item).Accepted? <==> SecondaryStated(item)
  {
    if "secondary" in item.fields {
      var sec := item.fields["secondary"];
      NumberIff(sec, "offset");
      BytesIff(sec, "bytes", "secondary.bytes");
    }
    hide HasNumber, HasSomeBytes, ReqStr, ReqU64, NonEmptyHex;
  }

  /** All the steps of the parser succeed. */
  lemma ParseSteps(item: Json)
    ensures Parse(item).Accepted? <==>
            && ReqStr(item, "name").Accepted?
            && ReqStr(item, "ext").Accepted? && ValidateExt(ReqStr(item, "ext").value).Accepted?
            && ReqStr(item, "magic").Accepted? && NonEmptyHex("magic", ReqStr(item, "magic").value).Accepted?
            && ReqU64(item, "max_size").Accepted? && 0 < ReqU64(item, "max_size").value <= 0x100_0000_0000
            && ParseSecondary(item).Accepted?
            && Get(item, "length").Some? && ParseLength(Get(item, "length").value).Accepted?
  {
    hide ReqStr, ReqU64, ValidateExt, NonEmptyHex, ParseSecondary, ParseLength, Get, OptU64;
  }

  lemma ExtIff(item: Json)
    ensures (ReqStr(item, "ext").Accepted? && ValidateExt(ReqStr(item, "ext").value).Accepted?) <==> ExtStated(item)
  {
    TextIff(item, "ext");
    hide ReqStr, HasText, IsExtChar;
  }

  lemma SizeIff(item: Json)
    ensures (ReqU64(item, "max_size").Accepted? && 0 < ReqU64(item, "max_size").value <= 0x100_0000_0000)
        <==> SizeStated(item)
  {
    NumberIff(item, "max_size");
    NumberUnder(item, "max_size");
    hide ReqU64, OptU64, HasNumber;
  }

  /** Exactly the entries that state what they have to are accepted. */
  lemma AcceptedIff(item: Json)
    ensures Parse(item).Accepted? <==> Stated(item)
  {
    ParseSteps(item);
    NameIff(item);
    ExtIff(item);
    SizeIff(item);
    BytesIff(item, "magic", "magic");
    if item.Obj? {
      SecondaryAcceptedIff(item);
      if "length" in item.fields { LengthAcceptedIff(item.fields["length"]); }
    } else {
      NothingStated(item);
    }
    hide Parse, HasSomeBytes, ReqStr, ReqU64, NonEmptyHex, ValidateExt, ParseSecondary, ParseLength;
    hide NameStated, ExtStated, SizeStated, SecondaryStated, LengthStated;
  }

  lemma NameIff(item: Json)
    ensures ReqStr(item, "name").Accepted? <==> NameStated(item)
  {
    TextIff(item, "name");
  }

  lemma NothingStated(item: Json)
    requires !item.Obj?
    ensures ReqStr(item, "name").Rejected? && !Stated(item)
  {
    hide HasSomeBytes;
  }
}
