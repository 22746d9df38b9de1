/** The 32-bit words of SHA-256 and the functions on them: FIPS 180-4 section 4.1.2. */
module Words {
  type word = bv32

  /** Addition modulo 2^32, the `wrapping_add` of the code. */
  function Add(x: word, y: word): word { x + y }

  function Ch(x: word, y: word, z: word): word { (x & y) ^ (!x & z) }

  function Maj(x: word, y: word, z: word): word { (x & y) ^ (x & z) ^ (y & z) }

  function BigSigma0(x: word): word { x.RotateRight(2) ^ x.RotateRight(13) ^ x.RotateRight(22) }

  function BigSigma1(x: word): word { x.RotateRight(6) ^ x.RotateRight(11) ^ x.RotateRight(25) }

  function SmallSigma0(x: word): word { x.RotateRight(7) ^ x.RotateRight(18) ^ (x >> 3) }

  function SmallSigma1(x: word): word { x.RotateRight(17) ^ x.RotateRight(19) ^ (x >> 10) }

  // --- sums ---

  lemma AddIsSum(x: word, y: word)
    ensures Add(x, y) == x + y
  {
  }

  lemma SumsAssociate(x: word, y: word, z: word)
    ensures x + y + z == x + (y + z)
  {
  }

  lemma SumOfThree(x: word, y: word, z: word)
    ensures Add(x + y, z) == Add(x, y + z)
  {
    SumsAssociate(x, y, z);
  }

  lemma AddAssociates(x: word, y: word, z: word)
    ensures Add(Add(x, y), z) == Add(x, Add(y, z))
  {
    hide Add;
    AddIsSum(x, y);
    AddIsSum(y, z);
    SumOfThree(x, y, z);
  }

  lemma AddCommutes(x: word, y: word)
    ensures Add(x, y) == Add(y, x)
  {
  }

  // --- what the functions compute, bit by bit ---

  /** Bit `i` of a word, 0 being the lowest. */
  predicate Bit(x: word, i: nat) { if i == 0 then x & 1 == 1 else Bit(x >> 1, i - 1) }

  lemma ChLowest(x: word, y: word, z: word)
    ensures Ch(x, y, z) & 1 == if x & 1 == 1 then y & 1 else z & 1
  {
  }

  lemma ChShifted(x: word, y: word, z: word)
    ensures Ch(x, y, z) >> 1 == Ch(x >> 1, y >> 1, z >> 1)
  {
  }

  /** Ch chooses between its last two arguments. */
  lemma {:induction false} ChBits(x: word, y: word, z: word, i: nat)
    ensures Bit(Ch(x, y, z), i) == if Bit(x, i) then Bit(y, i) else Bit(z, i)
  {
    hide Ch;
    ChLowest(x, y, z);
    ChShifted(x, y, z);
    if i > 0 { ChBits(x >> 1, y >> 1, z >> 1, i - 1); }
  }

  lemma MajLowest(x: word, y: word, z: word)
    ensures Maj(x, y, z) & 1 == if x & 1 == y & 1 then x & 1 else z & 1
  {
  }

  lemma MajShifted(x: word, y: word, z: word)
    ensures Maj(x, y, z) >> 1 == Maj(x >> 1, y >> 1, z >> 1)
  {
  }

  /** Maj is what at least two of its arguments are. */
  lemma {:induction false} MajBits(x: word, y: word, z: word, i: nat)
    ensures Bit(Maj(x, y, z), i) == if Bit(x, i) == Bit(y, i) then Bit(x, i) else Bit(z, i)
  {
    hide Maj;
    MajLowest(x, y, z);
    MajShifted(x, y, z);
    if i > 0 { MajBits(x >> 1, y >> 1, z >> 1, i - 1); }
  }

  /** The rotations of the sigmas as pairs of shifts. */
  lemma SigmasByShifts(x: word)
    ensures BigSigma0(x) == ((x >> 2) | (x << 30)) ^ ((x >> 13) | (x << 19)) ^ ((x >> 22) | (x << 10))
    ensures BigSigma1(x) == ((x >> 6) | (x << 26)) ^ ((x >> 11) | (x << 21)) ^ ((x >> 25) | (x << 7))
    ensures SmallSigma0(x) == ((x >> 7) | (x << 25)) ^ ((x >> 18) | (x << 14)) ^ (x >> 3)
    ensures SmallSigma1(x) == ((x >> 17) | (x << 15)) ^ ((x >> 19) | (x << 13)) ^ (x >> 10)
  {
  }
}
