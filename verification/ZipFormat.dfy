/** An archive as section 4.3 of PKWARE APPNOTE lays it out, and what `zip_length` makes of it. */
module ZipFormat {
  import opened Bytes
  import opened Footer
  import opened Zip

  /**
   * The end-of-central-directory record of section 4.3.16: signature, disk and entry counts, size and offset of the
   * central directory, and a comment with its length in front.
   */
  function EndRecord(counts: seq<byte>, cdSize: nat, cdOff: nat, comment: seq<byte>): (s: seq<byte>)
    requires |counts| == 8 && cdSize < 0x1_0000_0000 && cdOff < 0x1_0000_0000 && |comment| < 0x1_0000
    ensures |s| == 22 + |comment|
  {
    [0x50, 0x4B, 0x05, 0x06] + counts + Le32(cdSize) + Le32(cdOff) + Le16(|comment|) + comment
  }

  /** The record stands at `m`. */
  predicate RecordAt(src: seq<byte>, m: nat, record: seq<byte>) {
    m + |record| <= |src| && src[m..m + |record|] == record
  }

  lemma U16At(src: seq<byte>, i: nat, v: nat)
    requires v < 0x1_0000 && i + 2 <= |src| && src[i..i + 2] == Le16(v)
    ensures U16Le(src, i) == v
  {
    var w := Le16(v);
    assert src[i] == w[0] && src[i + 1] == w[1];
  }

  lemma U32At(src: seq<byte>, i: nat, v: nat)
    requires v < 0x1_0000_0000 && i + 4 <= |src| && src[i..i + 4] == Le32(v)
    ensures U32Le(src, i) == v
  {
    hide Le32;
    var w := Le32(v);
    assert src[i] == w[0] && src[i + 1] == w[1] && src[i + 2] == w[2] && src[i + 3] == w[3];
    assert U32Le(w, 0) == v;
  }

  lemma FieldsOfRecord(src: seq<byte>, m: nat, counts: seq<byte>, cdSize: nat, cdOff: nat, comment: seq<byte>)
    requires |counts| == 8 && cdSize < 0x1_0000_0000 && cdOff < 0x1_0000_0000 && |comment| < 0x1_0000
    requires RecordAt(src, m, EndRecord(counts, cdSize, cdOff, comment))
    ensures src[m..m + 4] == EOCD && U32Le(src, m + 12) == cdSize && U32Le(src, m + 16) == cdOff
    ensures U16Le(src, m + 20) == |comment|
  {
    hide Le16, Le32, U16Le, U32Le;
    var e := EndRecord(counts, cdSize, cdOff, comment);
    assert e[0..4] == EOCD && e[12..16] == Le32(cdSize) && e[16..20] == Le32(cdOff) && e[20..22] == Le16(|comment|);
    SliceOfSlice(src, m, m + |e|, 0, 4);
    SliceOfSlice(src, m, m + |e|, 12, 16);
    SliceOfSlice(src, m, m + |e|, 16, 20);
    SliceOfSlice(src, m, m + |e|, 20, 22);
    U32At(src, m + 12, cdSize);
    U32At(src, m + 16, cdOff);
    U16At(src, m + 20, |comment|);
  }

  /** A record at `k` that fits and whose directory ends right before it, when the archive starts at `fileStart`. */
  predicate Describes(src: seq<byte>, fileStart: nat, limit: nat, k: nat) {
    && k + 22 <= |src| && src[k..k + 4] == [0x50, 0x4B, 0x05, 0x06]
    && k + 22 + U16Le(src, k + 20) <= limit
    && U32Le(src, k + 12) != 0xFFFF_FFFF && U32Le(src, k + 16) != 0xFFFF_FFFF
    && fileStart + U32Le(src, k + 16) + U32Le(src, k + 12) == k
  }

  lemma OwnsIffDescribes(src: seq<byte>, fileStart: nat, limit: nat, k: nat)
    requires limit <= |src|
    ensures Owns(src, fileStart, limit, k) <==> Describes(src, fileStart, limit, k)
  {
    hide U16Le, U32Le;
  }

  lemma OwnerIsCarved(src: seq<byte>, fileStart: nat, limit: nat, m: nat, counts: seq<byte>, cdSize: nat, cdOff: nat,
                      comment: seq<byte>)
    requires |counts| == 8 && cdSize < 0xFFFF_FFFF && cdOff < 0xFFFF_FFFF && |comment| < 0x1_0000
    requires RecordAt(src, m, EndRecord(counts, cdSize, cdOff, comment))
    requires fileStart + cdOff + cdSize == m && m + 22 + |comment| <= limit <= |src|
    requires forall k :: fileStart <= k < m ==> !Describes(src, fileStart, limit, k)
    ensures ZipLength(src, fileStart, limit) == Some(m + 22 + |comment| - fileStart)
  {
    hide EndRecord, RecordAt, U16Le, U32Le;
    FieldsOfRecord(src, m, counts, cdSize, cdOff, comment);
    assert Describes(src, fileStart, limit, m);
    hide Describes, Owns, ZipLength, ZipEnd;
    forall k | fileStart <= k <= m ensures Owns(src, fileStart, limit, k) <==> Describes(src, fileStart, limit, k) {
      OwnsIffDescribes(src, fileStart, limit, k);
    }
    ZipLengthMeaning(src, fileStart, limit, m);
  }

  /**
   * An archive anywhere in a source, with any members, any central directory, any comment and anything behind it, is
   * carved to its own length, when no record inside it describes an archive that starts there.
   */
  lemma ArchiveIsCarved(before: seq<byte>, members: seq<byte>, directory: seq<byte>, counts: seq<byte>,
                        comment: seq<byte>, behind: seq<byte>, limit: nat)
    requires |members| < 0xFFFF_FFFF && |directory| < 0xFFFF_FFFF && |counts| == 8 && |comment| < 0x1_0000
    requires var archive := members + directory + EndRecord(counts, |directory|, |members|, comment);
             var src := before + archive + behind;
             && |before + archive| <= limit <= |src|
             && forall k :: |before| <= k < |before + members + directory| ==> !Describes(src, |before|, limit, k)
    ensures var archive := members + directory + EndRecord(counts, |directory|, |members|, comment);
            ZipLength(before + archive + behind, |before|, limit) == Some(|archive|)
  {
    hide EndRecord, Describes, ZipLength;
    var record := EndRecord(counts, |directory|, |members|, comment);
    var src := before + (members + directory + record) + behind;
    var m := |before + members + directory|;
    Placed(before + members + directory, record, behind);
    assert src == (before + members + directory) + record + behind;
    OwnerIsCarved(src, |before|, limit, m, counts, |directory|, |members|, comment);
  }

  lemma Placed(before: seq<byte>, record: seq<byte>, behind: seq<byte>)
    ensures RecordAt(before + record + behind, |before|, record)
  {
  }

  predicate MarkerAt(src: seq<byte>, k: nat) { k + 4 <= |src| && src[k..k + 4] == [0x50, 0x4B, 0x05, 0x06] }

  /**
   * An archive whose directory is described by a ZIP64 record, so that a 32-bit field holds the sentinel, is carved to
   * the end of its record's comment, when no record describes a plain archive there and no further one follows.
   */
  lemma Zip64ArchiveIsCarved(before: seq<byte>, body: seq<byte>, counts: seq<byte>, cdSize: nat, cdOff: nat,
                             comment: seq<byte>, behind: seq<byte>, limit: nat)
    requires |counts| == 8 && |comment| < 0x1_0000 && cdSize <= 0xFFFF_FFFF && cdOff <= 0xFFFF_FFFF
    requires cdSize == 0xFFFF_FFFF || cdOff == 0xFFFF_FFFF
    requires var archive := body + EndRecord(counts, cdSize, cdOff, comment);
             var src := before + archive + behind;
             && |before + archive| <= limit <= |src|
             && (forall k :: |before| <= k < limit ==> !Describes(src, |before|, limit, k))
             && (forall k: nat :: |before + body| < k <= limit - 4 ==> !MarkerAt(src, k))
    ensures var archive := body + EndRecord(counts, cdSize, cdOff, comment);
            ZipLength(before + archive + behind, |before|, limit) == Some(|archive|)
  {
    hide EndRecord, Describes, U16Le, U32Le, ZipLength, ZipEnd;
    var record := EndRecord(counts, cdSize, cdOff, comment);
    var src := before + (body + record) + behind;
    var fileStart, m := |before|, |before + body|;
    Placed(before + body, record, behind);
    assert src == (before + body) + record + behind;
    FieldsOfRecord(src, m, counts, cdSize, cdOff, comment);
    assert Zip64Candidate(src, limit, m);
    forall k | m < k < limit ensures !Zip64Candidate(src, limit, k) {
      assert OccursAt(src, limit, EOCD, k) ==> k <= limit - 4 && MarkerAt(src, k);
    }
    hide Owns, Zip64Candidate;
    forall k | fileStart <= k < limit ensures !Owns(src, fileStart, limit, k) {
      OwnsIffDescribes(src, fileStart, limit, k);
    }
    ZipLengthMeaning(src, fileStart, limit, m);
  }
}
