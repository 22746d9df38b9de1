/** The streaming hasher and its unrolled block function (`Sha256`, `compress`), proved against FIPS 180-4. */
module Hash {
  import opened Bytes
  import F = Fips180
  import opened Words

  /** The `round!` macro: only the `d` and `h` slots are written, and the caller renames instead of shuffling. */
  method RoundInto(a: word, b: word, c: word, d: word, e: word, f: word, g: word, h: word, k: word, w: word)
    returns (d': word, h': word)
    ensures F.Vars(h', a, b, c, d', e, f, g) == F.Round(F.Vars(a, b, c, d, e, f, g, h), k, w)
  {
    hide Add, Ch, Maj, BigSigma0, BigSigma1;
    var s1 := BigSigma1(e);
    var ch := Ch(e, f, g);
    var t1 := Add(Add(Add(Add(h, s1), ch), k), w);
    var s0 := BigSigma0(a);
    var maj := Maj(a, b, c);
    d' := Add(d, t1);
    h' := Add(t1, Add(s0, maj));
  }

  /** The schedule's sum in the order the code adds it up. */
  lemma ScheduleOrder(w16: word, s0: word, w7: word, s1: word)
    ensures Add(Add(Add(w16, s0), w7), s1) == Add(Add(Add(s1, w7), s0), w16)
  {
    hide Add;
    AddCommutes(Add(Add(w16, s0), w7), s1);
    AddCommutes(Add(w16, s0), w7);
    AddCommutes(w16, s0);
    AddAssociates(s1, w7, Add(s0, w16));
    AddAssociates(Add(s1, w7), s0, w16);
  }

  method ExpandSchedule(block: seq<byte>) returns (w: array<word>)
    requires |block| == 64
    ensures fresh(w) && w[..] == F.Schedule(block, 64)
  {
    hide Add, SmallSigma0, SmallSigma1, F.BeWord;
    w := new word[64](_ => 0);
    for i := 0 to 16
      invariant w[..i] == F.Schedule(block, i)
    {
      w[i] := F.BeWord(block, 4 * i);
      assert w[..i + 1] == w[..i] + [w[i]];
    }
    for i := 16 to 64
      invariant w[..i] == F.Schedule(block, i)
    {
      ghost var before := w[..i];
      var s0 := SmallSigma0(w[i - 15]);
      var s1 := SmallSigma1(w[i - 2]);
      ScheduleOrder(w[i - 16], s0, w[i - 7], s1);
      w[i] := Add(Add(Add(w[i - 16], s0), w[i - 7]), s1);
      assert w[..i] == before && w[..i + 1] == before + [w[i]];
      assert before[i - 2] == w[i - 2] && before[i - 7] == w[i - 7] && before[i - 15] == w[i - 15]
        && before[i - 16] == w[i - 16];
    }
    assert w[..64] == w[..];
  }

  lemma NextRound(v: F.Vars, w: seq<word>, t: nat)
    requires t < 64 <= |w|
    ensures F.Rounds(v, w, t + 1) == F.Round(F.Rounds(v, w, t), F.RoundConstant(t), w[t])
  {
    hide F.Round, F.RoundConstant;
  }

  /** One group: eight rounds with the roles rotated by one place from each to the next. */
  method EightRounds(a0: word, b0: word, c0: word, d0: word, e0: word, f0: word, g0: word, h0: word, w: array<word>,
                     i: nat, ghost v: F.Vars)
    returns (a: word, b: word, c: word, d: word, e: word, f: word, g: word, h: word)
    requires w.Length == 64 && i + 8 <= 64 && F.Vars(a0, b0, c0, d0, e0, f0, g0, h0) == F.Rounds(v, w[..], i)
    ensures F.Vars(a, b, c, d, e, f, g, h) == F.Rounds(v, w[..], i + 8)
  {
    hide F.Round, F.Rounds, F.RoundConstant;
    ghost var s := w[..];
    a, b, c, d, e, f, g, h := a0, b0, c0, d0, e0, f0, g0, h0;
    forall k | i <= k < i + 8
      ensures F.Rounds(v, s, k + 1) == F.Round(F.Rounds(v, s, k), F.RoundConstant(k), s[k])
    {
      NextRound(v, s, k);
    }
    d, h := RoundInto(a, b, c, d, e, f, g, h, F.RoundConstant(i), w[i]);
    assert F.Vars(h, a, b, c, d, e, f, g) == F.Rounds(v, s, i + 1);
    c, g := RoundInto(h, a, b, c, d, e, f, g, F.RoundConstant(i + 1), w[i + 1]);
    assert F.Vars(g, h, a, b, c, d, e, f) == F.Rounds(v, s, i + 2);
    b, f := RoundInto(g, h, a, b, c, d, e, f, F.RoundConstant(i + 2), w[i + 2]);
    assert F.Vars(f, g, h, a, b, c, d, e) == F.Rounds(v, s, i + 3);
    a, e := RoundInto(f, g, h, a, b, c, d, e, F.RoundConstant(i + 3), w[i + 3]);
    assert F.Vars(e, f, g, h, a, b, c, d) == F.Rounds(v, s, i + 4);
    h, d := RoundInto(e, f, g, h, a, b, c, d, F.RoundConstant(i + 4), w[i + 4]);
    assert F.Vars(d, e, f, g, h, a, b, c) == F.Rounds(v, s, i + 5);
    g, c := RoundInto(d, e, f, g, h, a, b, c, F.RoundConstant(i + 5), w[i + 5]);
    assert F.Vars(c, d, e, f, g, h, a, b) == F.Rounds(v, s, i + 6);
    f, b := RoundInto(c, d, e, f, g, h, a, b, F.RoundConstant(i + 6), w[i + 6]);
    assert F.Vars(b, c, d, e, f, g, h, a) == F.Rounds(v, s, i + 7);
    e, a := RoundInto(b, c, d, e, f, g, h, a, F.RoundConstant(i + 7), w[i + 7]);
  }

  /** Eight groups of eight unrolled rounds, after each of which the roles are back at (a..h). */
  method UnrolledRounds(v: F.Vars, w: array<word>) returns (r: F.Vars)
    requires w.Length == 64
    ensures r == F.Rounds(v, w[..], 64)
  {
    hide F.Round, F.Rounds, F.RoundConstant;
    var a, b, c, d, e, f, g, h := v.a, v.b, v.c, v.d, v.e, v.f, v.g, v.h;
    ghost var s := w[..];
    var i := 0;
    assert F.Rounds(v, s, 0) == v by { NoRound(v, s); }
    while i < 64
      invariant 0 <= i <= 64 && i % 8 == 0
      invariant F.Vars(a, b, c, d, e, f, g, h) == F.Rounds(v, s, i)
    {
      a, b, c, d, e, f, g, h := EightRounds(a, b, c, d, e, f, g, h, w, i, v);
      i := i + 8;
    }
    r := F.Vars(a, b, c, d, e, f, g, h);
  }

  lemma NoRound(v: F.Vars, w: seq<word>)
    requires 64 <= |w|
    ensures F.Rounds(v, w, 0) == v
  {
  }

  /** The block function equals the standard's 64 shuffling iterations. */
  method Compress(state: array<word>, block: seq<byte>)
    requires state.Length == 8 && |block| == 64
    modifies state
    ensures state[..] == F.Compress(old(state[..]), block)
  {
    hide Add, F.Rounds, F.Schedule;
    var w := ExpandSchedule(block);
    var v := UnrolledRounds(F.Vars(state[0], state[1], state[2], state[3], state[4], state[5], state[6], state[7]), w);
    state[0], state[1], state[2], state[3] :=
      Add(state[0], v.a), Add(state[1], v.b), Add(state[2], v.c), Add(state[3], v.d);
    state[4], state[5], state[6], state[7] :=
      Add(state[4], v.e), Add(state[5], v.f), Add(state[6], v.g), Add(state[7], v.h);
    assert state[..] == F.AddVars(old(state[..]), v);
  }

  /** One more block goes through the chain of blocks. */
  lemma AppendBlock(hash: seq<word>, m: seq<byte>, block: seq<byte>)
    requires |hash| == 8 && |m| % 64 == 0 && |block| == 64
    ensures |m + block| % 64 == 0 && F.Blocks(hash, m + block) == F.Compress(F.Blocks(hash, m), block)
  {
    assert (m + block)[..|m + block| - 64] == m && (m + block)[|m + block| - 64..] == block;
  }

  /** `copy_from_slice` into the buffer, behind the bytes it already holds. */
  method CopyInto(buf: array<byte>, at: nat, data: seq<byte>)
    requires at + |data| <= buf.Length
    modifies buf
    ensures buf[..at + |data|] == old(buf[..at]) + data
  {
    for k := 0 to |data|
      invariant buf[..at + k] == old(buf[..at]) + data[..k]
    {
      buf[at + k] := data[k];
      assert data[..k + 1] == data[..k] + [data[k]];
      assert buf[..at + k + 1] == buf[..at + k] + [buf[at + k]];
    }
    assert data[..|data|] == data;
  }

  /** A streaming hasher: whole blocks go through the block function at once, the rest waits in the buffer. */
  class Sha256 {
    const state: array<word>
    const buf: array<byte>
    var bufLen: nat
    var totalLen: nat
    /** The bytes that went through the block function. */
    ghost var done: seq<byte>

    ghost predicate Valid()
      reads this, state, buf
    {
      && state.Length == 8 && buf.Length == 64 && bufLen < 64
      && |done| % 64 == 0 && state[..] == F.Blocks(F.H0, done)
    }

    /** Every byte fed so far: the compressed blocks, then the buffered rest, which is shorter than a block. */
    ghost function Fed(): seq<byte>
      requires Valid()
      reads this, state, buf
    {
      done + buf[..bufLen]
    }

    /** The running length is that of the bytes fed, in wrapping 64-bit arithmetic. */
    ghost predicate Counted()
      requires Valid()
      reads this, state, buf
    {
      totalLen == |Fed()| % U64_LIMIT
    }

    constructor ()
      ensures Valid() && Counted() && Fed() == [] && fresh(state) && fresh(buf)
    {
      state := new word[8](i requires 0 <= i < 8 => F.H0[i]);
      buf := new byte[64](_ => 0);
      bufLen := 0;
      totalLen := 0;
      done := [];
      new;
      assert state[..] == F.H0;
    }

    method Update(data: seq<byte>)
      requires Valid() && Counted()
      modifies this, state, buf
      ensures Valid() && Counted() && Fed() == old(Fed()) + data
    {
      hide F.Blocks;
      ghost var before := Fed();
      totalLen := WrappingAdd(totalLen, |before|, |data|);
      assert Fed() == before;
      Process(data);
      assert |Fed()| == |before| + |data|;
    }

    /** Consume the hasher: the padding brings the buffer to a block boundary, and the digest is the standard's. */
    method Finalize() returns (out: seq<byte>)
      requires Valid() && Counted()
      modifies this, state, buf
      ensures out == F.Digest(old(Fed()))
      ensures Valid() && bufLen == 0
    {
      hide F.Blocks, F.Concat, F.Pad, F.Be64, F.ZeroCount;
      ghost var m := Fed();
      var bitLen := BitLength(|m|, totalLen);
      var pad := [0x80] + F.Zeros(63);
      var padLen := if bufLen < 56 then 56 - bufLen else 120 - bufLen;
      PadLength(|done|, bufLen, padLen);
      assert pad[..padLen] == [0x80] + F.Zeros(F.ZeroCount(|m|));
      Process(pad[..padLen]);
      Process(F.Be64(bitLen));
      PadParts(m);
      assert Fed() == F.Pad(m);
      WholeBlocks(|done|, bufLen);
      assert done == Fed();
      out := Output();
    }

    /** The state words, most significant byte first. */
    method Output() returns (out: seq<byte>)
      requires Valid()
      ensures out == F.Concat(state[..])
    {
      out := [];
      for i := 0 to 8
        invariant out == F.Concat(state[..i])
      {
        assert state[..i + 1][..i] == state[..i];
        out := out + F.WordBytes(state[i]);
      }
      assert state[..8] == state[..];
    }

    /** Run one whole block through the block function. */
    method Absorb(block: seq<byte>)
      requires Valid() && |block| == 64
      modifies this`done, state
      ensures Valid() && done == old(done) + block
    {
      hide F.Compress, F.Blocks;
      AppendBlock(F.H0, done, block);
      Compress(state, block);
      done := done + block;
    }

    /** Fill the buffer up; compress it when it is a whole block. */
    method FillBuffer(data: seq<byte>) returns (rest: seq<byte>)
      requires Valid() && bufLen > 0
      modifies this, state, buf
      ensures Valid() && totalLen == old(totalLen)
      ensures Fed() + rest == old(Fed()) + data
      ensures rest != [] ==> bufLen == 0
    {
      hide F.Blocks;
      var need := 64 - bufLen;
      var take := Min(need, |data|);
      CopyInto(buf, bufLen, data[..take]);
      assert data == data[..take] + data[take..];
      if bufLen + take == 64 {
        bufLen := 0;
        assert buf[..] == buf[..64];
        Absorb(buf[..]);
      } else {
        bufLen := bufLen + take;
      }
      rest := data[take..];
    }

    /** Buffer and compress without touching the length, so that finalising can feed the padding through it. */
    method Process(data0: seq<byte>)
      requires Valid()
      modifies this, state, buf
      ensures Valid() && totalLen == old(totalLen) && Fed() == old(Fed()) + data0
    {
      hide F.Blocks;
      var data := data0;
      if bufLen > 0 {
        data := FillBuffer(data);
      }
      while |data| >= 64
        invariant Valid() && totalLen == old(totalLen)
        invariant Fed() + data == old(Fed()) + data0
        invariant data != [] ==> bufLen == 0
      {
        Absorb(data[..64]); // straight from the input
        assert data == data[..64] + data[64..];
        data := data[64..];
      }
      if data != [] {
        CopyInto(buf, 0, data);
        bufLen := |data|;
      }
    }
  }

  /** The length field: eight times the wrapped byte count, wrapped again. */
  function BitLength(ghost length: nat, total: nat): (r: nat)
    requires total == length % U64_LIMIT
    ensures r == (8 * length) % U64_LIMIT
  {
    assert 8 * length == 8 * total + (8 * (length / U64_LIMIT)) * U64_LIMIT;
    (8 * total) % U64_LIMIT
  }

  lemma PadLength(done: nat, bufLen: nat, padLen: nat)
    requires done % 64 == 0 && bufLen < 64 && padLen == if bufLen < 56 then 56 - bufLen else 120 - bufLen
    ensures padLen == F.ZeroCount(done + bufLen) + 1
  {
  }

  lemma PadParts(m: seq<byte>)
    ensures F.Pad(m) == m + ([0x80] + F.Zeros(F.ZeroCount(|m|))) + F.LengthField(m)
  {
    hide F.LengthField, F.ZeroCount, F.Zeros;
  }

  /** A whole number of blocks leaves nothing in the buffer. */
  lemma WholeBlocks(done: nat, bufLen: nat)
    requires done % 64 == 0 && bufLen < 64 && (done + bufLen) % 64 == 0
    ensures bufLen == 0
  {
  }

  /** `digest`: one call over the whole message. */
  method Digest(data: seq<byte>) returns (out: seq<byte>)
    ensures out == F.Digest(data)
  {
    hide F.Blocks, F.Digest;
    var h := new Sha256();
    h.Update(data);
    assert [] + data == data;
    out := h.Finalize();
  }

  /** Feeding a message in any pieces gives the digest of the whole. */
  method DigestInPieces(pieces: seq<seq<byte>>) returns (out: seq<byte>)
    ensures out == F.Digest(Flatten(pieces))
  {
    hide F.Blocks, F.Digest;
    var h := new Sha256();
    for i := 0 to |pieces|
      invariant h.Valid() && h.Counted() && h.Fed() == Flatten(pieces[..i])
      invariant fresh(h) && fresh(h.state) && fresh(h.buf)
    {
      h.Update(pieces[i]);
      assert pieces[..i + 1][..i] == pieces[..i];
    }
    assert pieces[..|pieces|] == pieces;
    out := h.Finalize();
  }

  function Flatten(pieces: seq<seq<byte>>): seq<byte> {
    if pieces == [] then [] else Flatten(pieces[..|pieces| - 1]) + pieces[|pieces| - 1]
  }

  /** A writer that hashes what its inner writer accepted, which may be less than what it was offered. */
  class HashingWriter {
    var inner: seq<byte>
    const hasher: Sha256

    ghost predicate Valid()
      reads this, hasher, hasher.state, hasher.buf
    {
      hasher.Valid() && hasher.Counted() && hasher.Fed() == inner
    }

    constructor ()
      ensures Valid() && inner == [] && fresh(hasher) && fresh(hasher.state) && fresh(hasher.buf)
    {
      inner := [];
      hasher := new Sha256();
    }

    /** `accepted` is how many bytes the inner writer takes of what it is offered. */
    method Write(data: seq<byte>, accepted: nat) returns (n: nat)
      requires Valid() && accepted <= |data|
      modifies this, hasher, hasher.state, hasher.buf
      ensures Valid() && n == accepted && inner == old(inner) + data[..n]
    {
      hide F.Blocks;
      n := accepted;
      inner := inner + data[..n];
      hasher.Update(data[..n]);
    }

    method IntoParts() returns (written: seq<byte>, digest: seq<byte>)
      requires Valid()
      modifies hasher, hasher.state, hasher.buf
      ensures written == inner && digest == F.Digest(written)
    {
      hide F.Blocks, F.Digest;
      digest := hasher.Finalize();
      written := inner;
    }
  }

  /** `wrapping_add` on the running length, which stands for `length` modulo 2^64. */
  function WrappingAdd(total: nat, ghost length: nat, n: nat): (r: nat)
    requires total == length % U64_LIMIT
    ensures r == (length + n) % U64_LIMIT
  {
    (total + n) % U64_LIMIT
  }
}
