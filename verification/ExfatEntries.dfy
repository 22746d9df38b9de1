/** Directory entry sets of exFAT: the parser and its encoder (src/exfat.rs). */
module ExfatEntries {
  import opened Bytes

  const ENTRY_SIZE: nat := 32
  const TYPE_FILE: nat := 0x05
  const TYPE_STREAM: nat := 0x40
  const TYPE_NAME: nat := 0x41
  const IN_USE: nat := 0x80

  /** One directory entry of 32 bytes. */
  type Slot = s: seq<byte> | |s| == 32 witness Zeros(32)

  /** A file or directory; the name in UTF-16 code units, the times as packed on disk. */
  datatype Item = Item(
    name: seq<nat>, deleted: bool, isDir: bool, firstCluster: nat, dataLength: nat, noFatChain: bool, mtime: nat,
    atime: nat)

  function Zeros(n: nat): (r: seq<byte>)
    ensures |r| == n && forall i :: 0 <= i < n ==> r[i] == 0
  {
    seq(n, _ => 0)
  }

  // --- parsing ---

  /** The entries of a directory; an incomplete one at its end is ignored. */
  function Slots(bytes: seq<byte>): (r: seq<Slot>)
    ensures |r| == |bytes| / ENTRY_SIZE
    decreases |bytes|
  {
    if |bytes| < ENTRY_SIZE then [] else [bytes[..ENTRY_SIZE]] + Slots(bytes[ENTRY_SIZE..])
  }

  function TypeOf(e: Slot): nat { e[0] % IN_USE }

  /** A set starts with a file entry that counts at least one further entry, all there, the first a stream entry. */
  predicate StartsSet(es: seq<Slot>) {
    && es != [] && TypeOf(es[0]) == TYPE_FILE
    && 0 < es[0][1] < |es| && TypeOf(es[1]) == TYPE_STREAM
  }

  function Units(e: Slot): (r: seq<nat>)
    ensures |r| == 15
  {
    seq(15, k requires 0 <= k < 15 => U16Le(e, 2 + 2 * k))
  }

  /** The code units of the name entries at the front. */
  function NameUnits(es: seq<Slot>): seq<nat> {
    if es == [] || TypeOf(es[0]) != TYPE_NAME then [] else Units(es[0]) + NameUnits(es[1..])
  }

  function Truncated(units: seq<nat>, n: nat): seq<nat> { units[..Min(n, |units|)] }

  /** The fields of an item, given the units of its name entries. */
  function ItemOf(file: Slot, stream: Slot, units: seq<nat>): Item {
    Item(Truncated(units, stream[3]),
         file[0] < IN_USE,
         U16Le(file, 4) / 0x10 % 2 == 1,
         U32Le(stream, 20),
         U64Le(stream, 24),
         stream[1] / 2 % 2 == 1,
         U32Le(file, 12),
         U32Le(file, 16))
  }

  /** The items of a directory, those without a name left out. */
  function Items(es: seq<Slot>): seq<Item>
    decreases |es|
  {
    if es == [] then []
    else if !StartsSet(es) then Items(es[1..])
    else
      var count: nat := es[0][1];
      var item := ItemOf(es[0], es[1], NameUnits(es[2..1 + count]));
      (if item.name == [] then [] else [item]) + Items(es[1 + count..])
  }

  lemma {:induction false} SlotsAt(bytes: seq<byte>, i: nat)
    requires i < |bytes| / ENTRY_SIZE
    ensures i * ENTRY_SIZE + ENTRY_SIZE <= |bytes|
    ensures Slots(bytes)[i] == bytes[i * ENTRY_SIZE..i * ENTRY_SIZE + ENTRY_SIZE]
    decreases i
  {
    if i > 0 {
      SlotsAt(bytes[ENTRY_SIZE..], i - 1);
      SliceOfSlice(bytes, ENTRY_SIZE, |bytes|, (i - 1) * ENTRY_SIZE, i * ENTRY_SIZE);
    }
  }

  /** The units of the name entries of one set. */
  method ReadName(bytes: seq<byte>, i: nat, secondaryCount: nat) returns (units: seq<nat>)
    requires 0 < secondaryCount && i + secondaryCount < |bytes| / ENTRY_SIZE
    ensures units == NameUnits(Slots(bytes)[i + 2..i + 1 + secondaryCount])
  {
    hide Slots, Units, TypeOf, U16Le;
    ghost var es := Slots(bytes)[i + 2..i + 1 + secondaryCount];
    units := [];
    var j := 2;
    while j <= secondaryCount
      invariant 2 <= j <= secondaryCount + 1
      invariant units + NameUnits(es[j - 2..]) == NameUnits(es)
      decreases secondaryCount - j
    {
      SlotsAt(bytes, i + j);
      var ne := bytes[(i + j) * ENTRY_SIZE..(i + j) * ENTRY_SIZE + ENTRY_SIZE];
      assert ne == es[j - 2];
      assert es[j - 2..][1..] == es[j - 1..];
      if TypeOf(ne) != TYPE_NAME {
        return;
      }
      units := units + Units(ne);
      j := j + 1;
    }
  }

  /** What the parser takes at entry `i`, and where it goes on. */
  lemma StepAt(es: seq<Slot>, i: nat)
    requires i < |es|
    ensures var count: nat := es[i][1];
            if StartsSetAt(es, i) then
              var item := ItemOf(es[i], es[i + 1], NameUnits(es[i + 2..i + 1 + count]));
              Items(es[i..]) == (if item.name == [] then [] else [item]) + Items(es[i + 1 + count..])
            else Items(es[i..]) == Items(es[i + 1..])
  {
    hide TypeOf, ItemOf, NameUnits, Items;
    var rest, count: nat := es[i..], es[i][1];
    ItemsStep(rest);
    assert rest[1..] == es[i + 1..];
    if StartsSetAt(es, i) {
      assert rest[0] == es[i] && rest[1] == es[i + 1];
      SliceOfSlice(es, i, |es|, 2, 1 + count);
      assert rest[2..1 + count] == es[i + 2..i + 1 + count];
      assert rest[1 + count..] == es[i + 1 + count..];
      assert StartsSet(rest);
      var item := ItemOf(es[i], es[i + 1], NameUnits(es[i + 2..i + 1 + count]));
      assert Items(rest) == (if item.name == [] then [] else [item]) + Items(rest[1 + count..]);
    }
  }

  lemma ItemsStep(es: seq<Slot>)
    requires es != []
    ensures if StartsSet(es) then
              var count: nat := es[0][1];
              var item := ItemOf(es[0], es[1], NameUnits(es[2..1 + count]));
              Items(es) == (if item.name == [] then [] else [item]) + Items(es[1 + count..])
            else Items(es) == Items(es[1..])
  {
    hide TypeOf, ItemOf, NameUnits;
  }

  predicate StartsSetAt(es: seq<Slot>, i: nat)
    requires i < |es|
  {
    TypeOf(es[i]) == TYPE_FILE && 0 < es[i][1] && i + es[i][1] < |es| && TypeOf(es[i + 1]) == TYPE_STREAM
  }

  /** `parse_entry_sets`. */
  method ParseEntrySets(bytes: seq<byte>) returns (items: seq<Item>)
    ensures items == Items(Slots(bytes))
  {
    hide Slots, Units, TypeOf, NameUnits, ItemOf, Items;
    ghost var es := Slots(bytes);
    items := [];
    var total := |bytes| / ENTRY_SIZE;
    var i := 0;
    while i < total
      invariant 0 <= i <= total && items + Items(es[i..]) == Items(es)
    {
      SlotsAt(bytes, i);
      StepAt(es, i);
      var e := bytes[i * ENTRY_SIZE..i * ENTRY_SIZE + ENTRY_SIZE];
      if TypeOf(e) != TYPE_FILE {
        i := i + 1;
        continue;
      }
      var secondaryCount := e[1];
      if secondaryCount == 0 || i + secondaryCount >= total {
        i := i + 1;
        continue;
      }
      SlotsAt(bytes, i + 1);
      var stream := bytes[(i + 1) * ENTRY_SIZE..(i + 1) * ENTRY_SIZE + ENTRY_SIZE];
      if TypeOf(stream) != TYPE_STREAM {
        i := i + 1;
        continue;
      }
      var units := ReadName(bytes, i, secondaryCount);
      var item := ItemOf(e, stream, units);
      if item.name != [] {
        items := items + [item];
      }
      i := i + 1 + secondaryCount;
    }
    NoItems(es);
  }

  lemma NoItems(es: seq<Slot>)
    ensures Items(es[|es|..]) == []
  {
  }

  // --- encoding ---

  predicate Valid(x: Item) {
    && 1 <= |x.name| <= 255 && (forall k :: 0 <= k < |x.name| ==> x.name[k] < 0x1_0000)
    && x.firstCluster < 0x1_0000_0000 && x.dataLength < U64_LIMIT && x.mtime < 0x1_0000_0000 && x.atime < 0x1_0000_0000
  }

  function Flag(x: Item): (r: nat)
    ensures r == 0 || r == IN_USE
  {
    if x.deleted then 0 else IN_USE
  }

  function FileSlot(x: Item, nameSlots: nat): Slot
    requires Valid(x) && nameSlots < 255
  {
    [TYPE_FILE + Flag(x), 1 + nameSlots, 0, 0] + Le16(if x.isDir then 0x10 else 0x20) + Zeros(6)
    + Le32(x.mtime) + Le32(x.atime) + Zeros(12)
  }

  function StreamSlot(x: Item): Slot
    requires Valid(x)
  {
    [TYPE_STREAM + Flag(x), if x.noFatChain then 3 else 1, 0, |x.name|] + Zeros(4)
    + Le64(x.dataLength) + Zeros(4) + Le32(x.firstCluster) + Le64(x.dataLength)
  }

  /** The units in little-endian order, filled up with zeros. */
  function Packed(units: seq<nat>, n: nat): (r: seq<byte>)
    requires |units| <= n && forall k :: 0 <= k < |units| ==> units[k] < 0x1_0000
    ensures |r| == 2 * n
    decreases n
  {
    if n == 0 then []
    else if units == [] then Zeros(2 * n)
    else Le16(units[0]) + Packed(units[1..], n - 1)
  }

  function NameSlot(units: seq<nat>, flag: nat): Slot
    requires |units| <= 15 && (flag == 0 || flag == IN_USE) && forall k :: 0 <= k < |units| ==> units[k] < 0x1_0000
  {
    [TYPE_NAME + flag, 0] + Packed(units, 15)
  }

  function NameSlots(units: seq<nat>, flag: nat): (r: seq<Slot>)
    requires (flag == 0 || flag == IN_USE) && forall k :: 0 <= k < |units| ==> units[k] < 0x1_0000
    ensures |r| == (|units| + 14) / 15
  {
    if units == [] then []
    else [NameSlot(units[..Min(15, |units|)], flag)] + NameSlots(units[Min(15, |units|)..], flag)
  }

  /** The entry set of an item, as the encoder of the parser's tests builds it; that one leaves both times zero. */
  function EntrySet(x: Item): seq<Slot>
    requires Valid(x)
  {
    var names := NameSlots(x.name, Flag(x));
    [FileSlot(x, |names|), StreamSlot(x)] + names
  }

  function EntrySets(xs: seq<Item>): seq<Slot>
    requires forall i :: 0 <= i < |xs| ==> Valid(xs[i])
  {
    if xs == [] then [] else EntrySet(xs[0]) + EntrySets(xs[1..])
  }

  function Flat(es: seq<Slot>): (r: seq<byte>)
    ensures |r| == ENTRY_SIZE * |es|
  {
    if es == [] then [] else es[0] + Flat(es[1..])
  }

  // --- bytes and entries ---

  lemma {:induction false} SlotsOfFlat(es: seq<Slot>, extra: seq<byte>)
    requires |extra| < ENTRY_SIZE
    ensures Slots(Flat(es) + extra) == es
  {
    if es != [] {
      var bytes := Flat(es) + extra;
      assert bytes[..ENTRY_SIZE] == es[0];
      assert bytes[ENTRY_SIZE..] == Flat(es[1..]) + extra;
      SlotsOfFlat(es[1..], extra);
    } else {
      assert Flat(es) + extra == extra;
    }
  }

  /** A cut anywhere keeps the entries before it. */
  lemma {:induction false} SlotsOfCut(es: seq<Slot>, n: nat)
    requires n <= |Flat(es)|
    ensures Slots(Flat(es)[..n]) == es[..n / ENTRY_SIZE]
  {
    if n >= ENTRY_SIZE {
      var bytes := Flat(es)[..n];
      assert bytes[..ENTRY_SIZE] == es[0];
      assert bytes[ENTRY_SIZE..] == Flat(es[1..])[..n - ENTRY_SIZE];
      SlotsOfCut(es[1..], n - ENTRY_SIZE);
      assert es[..n / ENTRY_SIZE] == [es[0]] + es[1..][..n / ENTRY_SIZE - 1];
    }
  }

  // --- one set ---

  lemma U16LeAt(s: seq<byte>, i: nat, v: nat)
    requires v < 0x1_0000 && i + 2 <= |s| && s[i..i + 2] == Le16(v)
    ensures U16Le(s, i) == v
  {
    var w := Le16(v);
    assert s[i] == w[0] && s[i + 1] == w[1];
  }

  lemma U32LeAt(s: seq<byte>, i: nat, v: nat)
    requires v < 0x1_0000_0000 && i + 4 <= |s| && s[i..i + 4] == Le32(v)
    ensures U32Le(s, i) == v
  {
    hide Le32;
    var w := Le32(v);
    assert s[i] == w[0] && s[i + 1] == w[1] && s[i + 2] == w[2] && s[i + 3] == w[3];
    assert U32Le(w, 0) == v;
  }

  lemma U64LeAt(s: seq<byte>, i: nat, v: nat)
    requires v < U64_LIMIT && i + 8 <= |s| && s[i..i + 8] == Le64(v)
    ensures U64Le(s, i) == v
  {
    hide Le64;
    var w := Le64(v);
    assert forall k :: 0 <= k < 8 ==> s[i + k] == s[i..i + 8][k] == w[k];
    assert U32Le(s, i) == U32Le(w, 0) && U32Le(s, i + 4) == U32Le(w, 4);
  }

  lemma {:induction false} PackedAt(units: seq<nat>, n: nat, k: nat)
    requires |units| <= n && k < |units| && forall i :: 0 <= i < |units| ==> units[i] < 0x1_0000
    ensures U16Le(Packed(units, n), 2 * k) == units[k]
    decreases n
  {
    hide Le16;
    var rest := Packed(units[1..], n - 1);
    var all := Le16(units[0]) + rest;
    if k == 0 {
      assert all[0] == Le16(units[0])[0] && all[1] == Le16(units[0])[1];
    } else {
      PackedAt(units[1..], n - 1, k - 1);
      assert all[2 * k] == rest[2 * (k - 1)] && all[2 * k + 1] == rest[2 * (k - 1) + 1];
    }
  }

  lemma NameSlotUnits(units: seq<nat>, flag: nat)
    requires |units| <= 15 && (flag == 0 || flag == IN_USE) && forall k :: 0 <= k < |units| ==> units[k] < 0x1_0000
    ensures TypeOf(NameSlot(units, flag)) == TYPE_NAME
    ensures Units(NameSlot(units, flag))[..|units|] == units
  {
    hide Packed, U16Le;
    var e, packed := NameSlot(units, flag), Packed(units, 15);
    forall k | 0 <= k < |units| ensures Units(e)[k] == units[k] {
      PackedAt(units, 15, k);
      assert e[2 + 2 * k] == packed[2 * k] && e[2 + 2 * k + 1] == packed[2 * k + 1];
      SameU16(e, 2 + 2 * k, packed, 2 * k);
    }
  }

  lemma SameU16(a: seq<byte>, i: nat, b: seq<byte>, k: nat)
    requires i + 2 <= |a| && k + 2 <= |b| && a[i] == b[k] && a[i + 1] == b[k + 1]
    ensures U16Le(a, i) == U16Le(b, k)
  {
  }

  /** A name of any length is read back, once the fill is cut off. */
  lemma {:induction false} NameIsRead(units: seq<nat>, flag: nat)
    requires (flag == 0 || flag == IN_USE) && forall k :: 0 <= k < |units| ==> units[k] < 0x1_0000
    ensures |units| <= |NameUnits(NameSlots(units, flag))| && NameUnits(NameSlots(units, flag))[..|units|] == units
  {
    hide NameSlot, Units, TypeOf;
    if units != [] {
      var n := Min(15, |units|);
      var slots := NameSlots(units, flag);
      NameSlotUnits(units[..n], flag);
      NameIsRead(units[n..], flag);
      assert slots[1..] == NameSlots(units[n..], flag);
      var first, rest := Units(slots[0]), NameUnits(slots[1..]);
      assert first[..n] == units[..n];
      if n < 15 {
        assert units[n..] == [];
        assert (first + rest)[..|units|] == first[..n];
      } else {
        assert first[..n] == first;
        assert (first + rest)[..|units|] == first + rest[..|units| - 15];
        assert units == units[..n] + units[n..];
      }
    }
  }

  lemma FileFields(x: Item, nameSlots: nat)
    requires Valid(x) && nameSlots < 255
    ensures var e := FileSlot(x, nameSlots);
            && TypeOf(e) == TYPE_FILE && e[1] == 1 + nameSlots && (e[0] < IN_USE <==> x.deleted)
            && (U16Le(e, 4) / 0x10 % 2 == 1 <==> x.isDir) && U32Le(e, 12) == x.mtime && U32Le(e, 16) == x.atime
  {
    hide Le16, Le32, U16Le, U32Le;
    var e := FileSlot(x, nameSlots);
    var attrs := if x.isDir then 0x10 else 0x20;
    assert e[4..6] == Le16(attrs);
    U16LeAt(e, 4, attrs);
    assert e[12..16] == Le32(x.mtime);
    U32LeAt(e, 12, x.mtime);
    assert e[16..20] == Le32(x.atime);
    U32LeAt(e, 16, x.atime);
  }

  lemma StreamFields(x: Item)
    requires Valid(x)
    ensures var e := StreamSlot(x);
            && TypeOf(e) == TYPE_STREAM && e[3] == |x.name| && (e[1] / 2 % 2 == 1 <==> x.noFatChain)
            && U32Le(e, 20) == x.firstCluster && U64Le(e, 24) == x.dataLength
  {
    hide Le32, Le64, U32Le, U64Le;
    var e := StreamSlot(x);
    assert e[20..24] == Le32(x.firstCluster);
    U32LeAt(e, 20, x.firstCluster);
    assert e[24..32] == Le64(x.dataLength);
    U64LeAt(e, 24, x.dataLength);
  }

  /** A set is parsed to its item, whatever follows it. */
  lemma SetIsRead(x: Item, rest: seq<Slot>)
    requires Valid(x)
    ensures Items(EntrySet(x) + rest) == [x] + Items(rest)
  {
    hide FileSlot, StreamSlot, NameSlots, NameUnits, TypeOf, Items, U16Le, U32Le, U64Le;
    var names := NameSlots(x.name, Flag(x));
    var es := EntrySet(x) + rest;
    FileFields(x, |names|);
    StreamFields(x);
    NameIsRead(x.name, Flag(x));
    assert es[0] == FileSlot(x, |names|) && es[1] == StreamSlot(x);
    assert es[2..2 + |names|] == names && es[2 + |names|..] == rest;
    assert ItemOf(es[0], es[1], NameUnits(names)) == x;
    ItemsStep(es);
  }

  // --- lists of sets ---

  /** Any list of items comes back from its entry sets, in order, and what follows is parsed as if it stood alone. */
  lemma {:induction false} SetsAreRead(xs: seq<Item>, rest: seq<Slot>)
    requires forall i :: 0 <= i < |xs| ==> Valid(xs[i])
    ensures Items(EntrySets(xs) + rest) == xs + Items(rest)
  {
    hide EntrySet, Items;
    if xs == [] {
      assert EntrySets(xs) + rest == rest;
    } else {
      SetsAreRead(xs[1..], rest);
      SetIsRead(xs[0], EntrySets(xs[1..]) + rest);
      assert EntrySets(xs) + rest == EntrySet(xs[0]) + (EntrySets(xs[1..]) + rest);
    }
  }

  /** The round trip on the bytes of a directory, with less than one more entry behind them. */
  lemma EntrySetsRoundTrip(xs: seq<Item>, extra: seq<byte>)
    requires (forall i :: 0 <= i < |xs| ==> Valid(xs[i])) && |extra| < ENTRY_SIZE
    ensures Items(Slots(Flat(EntrySets(xs)) + extra)) == xs
  {
    hide EntrySets;
    SlotsOfFlat(EntrySets(xs), extra);
    SetsAreRead(xs, []);
    assert EntrySets(xs) + [] == EntrySets(xs);
  }

  lemma {:induction false} NoFileNoItems(es: seq<Slot>)
    requires forall i :: 0 <= i < |es| ==> TypeOf(es[i]) != TYPE_FILE
    ensures Items(es) == []
  {
    if es != [] {
      ItemsStep(es);
      NoFileNoItems(es[1..]);
    }
  }

  lemma {:induction false} NameSlotTypes(units: seq<nat>, flag: nat)
    requires (flag == 0 || flag == IN_USE) && forall k :: 0 <= k < |units| ==> units[k] < 0x1_0000
    ensures forall i :: 0 <= i < |NameSlots(units, flag)| ==> TypeOf(NameSlots(units, flag)[i]) == TYPE_NAME
  {
    hide TypeOf, NameSlot;
    if units != [] {
      NameSlotUnits(units[..Min(15, |units|)], flag);
      NameSlotTypes(units[Min(15, |units|)..], flag);
    }
  }

  /** An incomplete set yields nothing. */
  lemma PartOfSetIsDropped(x: Item, k: nat)
    requires Valid(x) && k < |EntrySet(x)|
    ensures Items(EntrySet(x)[..k]) == []
  {
    hide FileSlot, StreamSlot, NameSlots, TypeOf, Items;
    if k > 0 {
      var names := NameSlots(x.name, Flag(x));
      var es := EntrySet(x)[..k];
      FileFields(x, |names|);
      StreamFields(x);
      NameSlotTypes(x.name, Flag(x));
      ItemsStep(es);
      forall i | 0 <= i < |es[1..]| ensures TypeOf(es[1..][i]) != TYPE_FILE {
        assert es[1..][i] == if i == 0 then StreamSlot(x) else names[i - 1];
      }
      NoFileNoItems(es[1..]);
    } else {
      NoFileNoItems(EntrySet(x)[..k]);
    }
  }

  /** A directory cut anywhere inside its last set loses that item alone. */
  lemma CutDropsTheLast(xs: seq<Item>, x: Item, n: nat)
    requires (forall i :: 0 <= i < |xs| ==> Valid(xs[i])) && Valid(x)
    requires |Flat(EntrySets(xs))| <= n < |Flat(EntrySets(xs) + EntrySet(x))|
    ensures Items(Slots(Flat(EntrySets(xs) + EntrySet(x))[..n])) == xs
  {
    hide EntrySets, EntrySet, Items, Slots;
    var before, last := EntrySets(xs), EntrySet(x);
    var k := n / ENTRY_SIZE - |before|;
    SlotsOfCut(before + last, n);
    assert (before + last)[..n / ENTRY_SIZE] == before + last[..k];
    SetsAreRead(xs, last[..k]);
    PartOfSetIsDropped(x, k);
  }
}
