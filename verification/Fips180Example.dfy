/** The one-block example of the standard, the message "abc": its schedule, its 64 rounds and its digest. */
module Fips180Example {
  import opened Bytes
  import opened Words
  import opened Fips180

  const ABC: seq<byte> := [0x61, 0x62, 0x63]

  /** The message schedule of the padded message. */
  const W: seq<word> :=
    [0x61626380, 0x00000000, 0x00000000, 0x00000000, 0x00000000, 0x00000000, 0x00000000, 0x00000000]
    + [0x00000000, 0x00000000, 0x00000000, 0x00000000, 0x00000000, 0x00000000, 0x00000000, 0x00000018]
    + [0x61626380, 0x000f0000, 0x7da86405, 0x600003c6, 0x3e9d7b78, 0x0183fc00, 0x12dcbfdb, 0xe2e2c38e]
    + [0xc8215c1a, 0xb73679a2, 0xe5bc3909, 0x32663c5b, 0x9d209d67, 0xec8726cb, 0x702138a4, 0xd3b7973b]
    + [0x93f5997f, 0x3b68ba73, 0xaff4ffc1, 0xf10a5c62, 0x0a8b3996, 0x72af830a, 0x9409e33e, 0x24641522]
    + [0x9f47bf94, 0xf0a64f5a, 0x3e246a79, 0x27333ba3, 0x0c4763f2, 0x840abf27, 0x7a290d5d, 0x065c43da]
    + [0xfb3e89cb, 0xcc7617db, 0xb9e66c34, 0xa9993667, 0x84badedd, 0xc21462bc, 0x1487472c, 0xb20f7a99]
    + [0xef57b9cd, 0xebe6b238, 0x9fe3095e, 0x78bc8d4b, 0xa43fcf15, 0x668b2ff8, 0xeeaba2cc, 0x12b1edeb]

  /** The variables before the first round and after each. */
  const V0 := Vars(0x6a09e667, 0xbb67ae85, 0x3c6ef372, 0xa54ff53a, 0x510e527f, 0x9b05688c, 0x1f83d9ab, 0x5be0cd19)
  const V1 := Vars(0x5d6aebcd, 0x6a09e667, 0xbb67ae85, 0x3c6ef372, 0xfa2a4622, 0x510e527f, 0x9b05688c, 0x1f83d9ab)
  const V2 := Vars(0x5a6ad9ad, 0x5d6aebcd, 0x6a09e667, 0xbb67ae85, 0x78ce7989, 0xfa2a4622, 0x510e527f, 0x9b05688c)
  const V3 := Vars(0xc8c347a7, 0x5a6ad9ad, 0x5d6aebcd, 0x6a09e667, 0xf92939eb, 0x78ce7989, 0xfa2a4622, 0x510e527f)
  const V4 := Vars(0xd550f666, 0xc8c347a7, 0x5a6ad9ad, 0x5d6aebcd, 0x24e00850, 0xf92939eb, 0x78ce7989, 0xfa2a4622)
  const V5 := Vars(0x04409a6a, 0xd550f666, 0xc8c347a7, 0x5a6ad9ad, 0x43ada245, 0x24e00850, 0xf92939eb, 0x78ce7989)
  const V6 := Vars(0x2b4209f5, 0x04409a6a, 0xd550f666, 0xc8c347a7, 0x714260ad, 0x43ada245, 0x24e00850, 0xf92939eb)
  const V7 := Vars(0xe5030380, 0x2b4209f5, 0x04409a6a, 0xd550f666, 0x9b27a401, 0x714260ad, 0x43ada245, 0x24e00850)
  const V8 := Vars(0x85a07b5f, 0xe5030380, 0x2b4209f5, 0x04409a6a, 0x0c657a79, 0x9b27a401, 0x714260ad, 0x43ada245)
  const V9 := Vars(0x8e04ecb9, 0x85a07b5f, 0xe5030380, 0x2b4209f5, 0x32ca2d8c, 0x0c657a79, 0x9b27a401, 0x714260ad)
  const V10 := Vars(0x8c87346b, 0x8e04ecb9, 0x85a07b5f, 0xe5030380, 0x1cc92596, 0x32ca2d8c, 0x0c657a79, 0x9b27a401)
  const V11 := Vars(0x4798a3f4, 0x8c87346b, 0x8e04ecb9, 0x85a07b5f, 0x436b23e8, 0x1cc92596, 0x32ca2d8c, 0x0c657a79)
  const V12 := Vars(0xf71fc5a9, 0x4798a3f4, 0x8c87346b, 0x8e04ecb9, 0x816fd6e9, 0x436b23e8, 0x1cc92596, 0x32ca2d8c)
  const V13 := Vars(0x87912990, 0xf71fc5a9, 0x4798a3f4, 0x8c87346b, 0x1e578218, 0x816fd6e9, 0x436b23e8, 0x1cc92596)
  const V14 := Vars(0xd932eb16, 0x87912990, 0xf71fc5a9, 0x4798a3f4, 0x745a48de, 0x1e578218, 0x816fd6e9, 0x436b23e8)
  const V15 := Vars(0xc0645fde, 0xd932eb16, 0x87912990, 0xf71fc5a9, 0x0b92f20c, 0x745a48de, 0x1e578218, 0x816fd6e9)
  const V16 := Vars(0xb0fa238e, 0xc0645fde, 0xd932eb16, 0x87912990, 0x07590dcd, 0x0b92f20c, 0x745a48de, 0x1e578218)
  const V17 := Vars(0x21da9a9b, 0xb0fa238e, 0xc0645fde, 0xd932eb16, 0x8034229c, 0x07590dcd, 0x0b92f20c, 0x745a48de)
  const V18 := Vars(0xc2fbd9d1, 0x21da9a9b, 0xb0fa238e, 0xc0645fde, 0x846ee454, 0x8034229c, 0x07590dcd, 0x0b92f20c)
  const V19 := Vars(0xfe777bbf, 0xc2fbd9d1, 0x21da9a9b, 0xb0fa238e, 0xcc899961, 0x846ee454, 0x8034229c, 0x07590dcd)
  const V20 := Vars(0xe1f20c33, 0xfe777bbf, 0xc2fbd9d1, 0x21da9a9b, 0xb0638179, 0xcc899961, 0x846ee454, 0x8034229c)
  const V21 := Vars(0x9dc68b63, 0xe1f20c33, 0xfe777bbf, 0xc2fbd9d1, 0x8ada8930, 0xb0638179, 0xcc899961, 0x846ee454)
  const V22 := Vars(0xc2606d6d, 0x9dc68b63, 0xe1f20c33, 0xfe777bbf, 0xe1257970, 0x8ada8930, 0xb0638179, 0xcc899961)
  const V23 := Vars(0xa7a3623f, 0xc2606d6d, 0x9dc68b63, 0xe1f20c33, 0x49f5114a, 0xe1257970, 0x8ada8930, 0xb0638179)
  const V24 := Vars(0xc5d53d8d, 0xa7a3623f, 0xc2606d6d, 0x9dc68b63, 0xaa47c347, 0x49f5114a, 0xe1257970, 0x8ada8930)
  const V25 := Vars(0x1c2c2838, 0xc5d53d8d, 0xa7a3623f, 0xc2606d6d, 0x2823ef91, 0xaa47c347, 0x49f5114a, 0xe1257970)
  const V26 := Vars(0xcde8037d, 0x1c2c2838, 0xc5d53d8d, 0xa7a3623f, 0x14383d8e, 0x2823ef91, 0xaa47c347, 0x49f5114a)
  const V27 := Vars(0xb62ec4bc, 0xcde8037d, 0x1c2c2838, 0xc5d53d8d, 0xc74c6516, 0x14383d8e, 0x2823ef91, 0xaa47c347)
  const V28 := Vars(0x77d37528, 0xb62ec4bc, 0xcde8037d, 0x1c2c2838, 0xedffbff8, 0xc74c6516, 0x14383d8e, 0x2823ef91)
  const V29 := Vars(0x363482c9, 0x77d37528, 0xb62ec4bc, 0xcde8037d, 0x6112a3b7, 0xedffbff8, 0xc74c6516, 0x14383d8e)
  const V30 := Vars(0xa0060b30, 0x363482c9, 0x77d37528, 0xb62ec4bc, 0xade79437, 0x6112a3b7, 0xedffbff8, 0xc74c6516)
  const V31 := Vars(0xea992a22, 0xa0060b30, 0x363482c9, 0x77d37528, 0x0109ab3a, 0xade79437, 0x6112a3b7, 0xedffbff8)
  const V32 := Vars(0x73b33bf5, 0xea992a22, 0xa0060b30, 0x363482c9, 0xba591112, 0x0109ab3a, 0xade79437, 0x6112a3b7)
  const V33 := Vars(0x98e12507, 0x73b33bf5, 0xea992a22, 0xa0060b30, 0x9cd9f5f6, 0xba591112, 0x0109ab3a, 0xade79437)
  const V34 := Vars(0xfe604df5, 0x98e12507, 0x73b33bf5, 0xea992a22, 0x59249dd3, 0x9cd9f5f6, 0xba591112, 0x0109ab3a)
  const V35 := Vars(0xa9a7738c, 0xfe604df5, 0x98e12507, 0x73b33bf5, 0x085f3833, 0x59249dd3, 0x9cd9f5f6, 0xba591112)
  const V36 := Vars(0x65a0cfe4, 0xa9a7738c, 0xfe604df5, 0x98e12507, 0xf4b002d6, 0x085f3833, 0x59249dd3, 0x9cd9f5f6)
  const V37 := Vars(0x41a65cb1, 0x65a0cfe4, 0xa9a7738c, 0xfe604df5, 0x0772a26b, 0xf4b002d6, 0x085f3833, 0x59249dd3)
  const V38 := Vars(0x34df1604, 0x41a65cb1, 0x65a0cfe4, 0xa9a7738c, 0xa507a53d, 0x0772a26b, 0xf4b002d6, 0x085f3833)
  const V39 := Vars(0x6dc57a8a, 0x34df1604, 0x41a65cb1, 0x65a0cfe4, 0xf0781bc8, 0xa507a53d, 0x0772a26b, 0xf4b002d6)
  const V40 := Vars(0x79ea687a, 0x6dc57a8a, 0x34df1604, 0x41a65cb1, 0x1efbc0a0, 0xf0781bc8, 0xa507a53d, 0x0772a26b)
  const V41 := Vars(0xd6670766, 0x79ea687a, 0x6dc57a8a, 0x34df1604, 0x26352d63, 0x1efbc0a0, 0xf0781bc8, 0xa507a53d)
  const V42 := Vars(0xdf46652f, 0xd6670766, 0x79ea687a, 0x6dc57a8a, 0x838b2711, 0x26352d63, 0x1efbc0a0, 0xf0781bc8)
  const V43 := Vars(0x17aa0dfe, 0xdf46652f, 0xd6670766, 0x79ea687a, 0xdecd4715, 0x838b2711, 0x26352d63, 0x1efbc0a0)
  const V44 := Vars(0x9d4baf93, 0x17aa0dfe, 0xdf46652f, 0xd6670766, 0xfda24c2e, 0xdecd4715, 0x838b2711, 0x26352d63)
  const V45 := Vars(0x26628815, 0x9d4baf93, 0x17aa0dfe, 0xdf46652f, 0xa80f11f0, 0xfda24c2e, 0xdecd4715, 0x838b2711)
  const V46 := Vars(0x72ab4b91, 0x26628815, 0x9d4baf93, 0x17aa0dfe, 0xb7755da1, 0xa80f11f0, 0xfda24c2e, 0xdecd4715)
  const V47 := Vars(0xa14c14b0, 0x72ab4b91, 0x26628815, 0x9d4baf93, 0xd57b94a9, 0xb7755da1, 0xa80f11f0, 0xfda24c2e)
  const V48 := Vars(0x4172328d, 0xa14c14b0, 0x72ab4b91, 0x26628815, 0xfecf0bc6, 0xd57b94a9, 0xb7755da1, 0xa80f11f0)
  const V49 := Vars(0x05757ceb, 0x4172328d, 0xa14c14b0, 0x72ab4b91, 0xbd714038, 0xfecf0bc6, 0xd57b94a9, 0xb7755da1)
  const V50 := Vars(0xf11bfaa8, 0x05757ceb, 0x4172328d, 0xa14c14b0, 0x6e5c390c, 0xbd714038, 0xfecf0bc6, 0xd57b94a9)
  const V51 := Vars(0x7a0508a1, 0xf11bfaa8, 0x05757ceb, 0x4172328d, 0x52f1ccf7, 0x6e5c390c, 0xbd714038, 0xfecf0bc6)
  const V52 := Vars(0x886e7a22, 0x7a0508a1, 0xf11bfaa8, 0x05757ceb, 0x49231c1e, 0x52f1ccf7, 0x6e5c390c, 0xbd714038)
  const V53 := Vars(0x101fd28f, 0x886e7a22, 0x7a0508a1, 0xf11bfaa8, 0x529e7d00, 0x49231c1e, 0x52f1ccf7, 0x6e5c390c)
  const V54 := Vars(0xf5702fdb, 0x101fd28f, 0x886e7a22, 0x7a0508a1, 0x9f4787c3, 0x529e7d00, 0x49231c1e, 0x52f1ccf7)
  const V55 := Vars(0x3ec45cdb, 0xf5702fdb, 0x101fd28f, 0x886e7a22, 0xe50e1b4f, 0x9f4787c3, 0x529e7d00, 0x49231c1e)
  const V56 := Vars(0x38cc9913, 0x3ec45cdb, 0xf5702fdb, 0x101fd28f, 0x54cb266b, 0xe50e1b4f, 0x9f4787c3, 0x529e7d00)
  const V57 := Vars(0xfcd1887b, 0x38cc9913, 0x3ec45cdb, 0xf5702fdb, 0x9b5e906c, 0x54cb266b, 0xe50e1b4f, 0x9f4787c3)
  const V58 := Vars(0xc062d46f, 0xfcd1887b, 0x38cc9913, 0x3ec45cdb, 0x7e44008e, 0x9b5e906c, 0x54cb266b, 0xe50e1b4f)
  const V59 := Vars(0xffb70472, 0xc062d46f, 0xfcd1887b, 0x38cc9913, 0x6d83bfc6, 0x7e44008e, 0x9b5e906c, 0x54cb266b)
  const V60 := Vars(0xb6ae8fff, 0xffb70472, 0xc062d46f, 0xfcd1887b, 0xb21bad3d, 0x6d83bfc6, 0x7e44008e, 0x9b5e906c)
  const V61 := Vars(0xb85e2ce9, 0xb6ae8fff, 0xffb70472, 0xc062d46f, 0x961f4894, 0xb21bad3d, 0x6d83bfc6, 0x7e44008e)
  const V62 := Vars(0x04d24d6c, 0xb85e2ce9, 0xb6ae8fff, 0xffb70472, 0x948d25b6, 0x961f4894, 0xb21bad3d, 0x6d83bfc6)
  const V63 := Vars(0xd39a2165, 0x04d24d6c, 0xb85e2ce9, 0xb6ae8fff, 0xfb121210, 0x948d25b6, 0x961f4894, 0xb21bad3d)
  const V64 := Vars(0x506e3058, 0xd39a2165, 0x04d24d6c, 0xb85e2ce9, 0x5ef50f24, 0xfb121210, 0x948d25b6, 0x961f4894)

  /** The digest, as words. */
  const HASH: seq<word> := [
    0xba7816bf, 0x8f01cfea, 0x414140de, 0x5dae2223,
    0xb00361a3, 0x96177a9c, 0xb410ff61, 0xf20015ad
  ]

  // --- the entries of the tables ---

  lemma ConstantsFrom0()
    ensures K[0] == 0x428a2f98 && K[1] == 0x71374491 && K[2] == 0xb5c0fbcf && K[3] == 0xe9b5dba5
    ensures K[4] == 0x3956c25b && K[5] == 0x59f111f1 && K[6] == 0x923f82a4 && K[7] == 0xab1c5ed5
    ensures K[8] == 0xd807aa98 && K[9] == 0x12835b01 && K[10] == 0x243185be && K[11] == 0x550c7dc3
    ensures K[12] == 0x72be5d74 && K[13] == 0x80deb1fe && K[14] == 0x9bdc06a7 && K[15] == 0xc19bf174
    ensures |K| == 64
  {
  }

  lemma WordsFrom0()
    ensures W[0] == 0x61626380 && W[1] == 0x00000000 && W[2] == 0x00000000 && W[3] == 0x00000000
    ensures W[4] == 0x00000000 && W[5] == 0x00000000 && W[6] == 0x00000000 && W[7] == 0x00000000
    ensures W[8] == 0x00000000 && W[9] == 0x00000000 && W[10] == 0x00000000 && W[11] == 0x00000000
    ensures W[12] == 0x00000000 && W[13] == 0x00000000 && W[14] == 0x00000000 && W[15] == 0x00000018
    ensures |W| == 64
  {
  }

  lemma ConstantsFrom16()
    ensures K[16] == 0xe49b69c1 && K[17] == 0xefbe4786 && K[18] == 0x0fc19dc6 && K[19] == 0x240ca1cc
    ensures K[20] == 0x2de92c6f && K[21] == 0x4a7484aa && K[22] == 0x5cb0a9dc && K[23] == 0x76f988da
    ensures K[24] == 0x983e5152 && K[25] == 0xa831c66d && K[26] == 0xb00327c8 && K[27] == 0xbf597fc7
    ensures K[28] == 0xc6e00bf3 && K[29] == 0xd5a79147 && K[30] == 0x06ca6351 && K[31] == 0x14292967
  {
  }

  lemma WordsFrom16()
    ensures W[16] == 0x61626380 && W[17] == 0x000f0000 && W[18] == 0x7da86405 && W[19] == 0x600003c6
    ensures W[20] == 0x3e9d7b78 && W[21] == 0x0183fc00 && W[22] == 0x12dcbfdb && W[23] == 0xe2e2c38e
    ensures W[24] == 0xc8215c1a && W[25] == 0xb73679a2 && W[26] == 0xe5bc3909 && W[27] == 0x32663c5b
    ensures W[28] == 0x9d209d67 && W[29] == 0xec8726cb && W[30] == 0x702138a4 && W[31] == 0xd3b7973b
  {
  }

  lemma ConstantsFrom32()
    ensures K[32] == 0x27b70a85 && K[33] == 0x2e1b2138 && K[34] == 0x4d2c6dfc && K[35] == 0x53380d13
    ensures K[36] == 0x650a7354 && K[37] == 0x766a0abb && K[38] == 0x81c2c92e && K[39] == 0x92722c85
    ensures K[40] == 0xa2bfe8a1 && K[41] == 0xa81a664b && K[42] == 0xc24b8b70 && K[43] == 0xc76c51a3
    ensures K[44] == 0xd192e819 && K[45] == 0xd6990624 && K[46] == 0xf40e3585 && K[47] == 0x106aa070
  {
  }

  lemma WordsFrom32()
    ensures W[32] == 0x93f5997f && W[33] == 0x3b68ba73 && W[34] == 0xaff4ffc1 && W[35] == 0xf10a5c62
    ensures W[36] == 0x0a8b3996 && W[37] == 0x72af830a && W[38] == 0x9409e33e && W[39] == 0x24641522
    ensures W[40] == 0x9f47bf94 && W[41] == 0xf0a64f5a && W[42] == 0x3e246a79 && W[43] == 0x27333ba3
    ensures W[44] == 0x0c4763f2 && W[45] == 0x840abf27 && W[46] == 0x7a290d5d && W[47] == 0x065c43da
  {
  }

  lemma ConstantsFrom48()
    ensures K[48] == 0x19a4c116 && K[49] == 0x1e376c08 && K[50] == 0x2748774c && K[51] == 0x34b0bcb5
    ensures K[52] == 0x391c0cb3 && K[53] == 0x4ed8aa4a && K[54] == 0x5b9cca4f && K[55] == 0x682e6ff3
    ensures K[56] == 0x748f82ee && K[57] == 0x78a5636f && K[58] == 0x84c87814 && K[59] == 0x8cc70208
    ensures K[60] == 0x90befffa && K[61] == 0xa4506ceb && K[62] == 0xbef9a3f7 && K[63] == 0xc67178f2
  {
  }

  lemma WordsFrom48()
    ensures W[48] == 0xfb3e89cb && W[49] == 0xcc7617db && W[50] == 0xb9e66c34 && W[51] == 0xa9993667
    ensures W[52] == 0x84badedd && W[53] == 0xc21462bc && W[54] == 0x1487472c && W[55] == 0xb20f7a99
    ensures W[56] == 0xef57b9cd && W[57] == 0xebe6b238 && W[58] == 0x9fe3095e && W[59] == 0x78bc8d4b
    ensures W[60] == 0xa43fcf15 && W[61] == 0x668b2ff8 && W[62] == 0xeeaba2cc && W[63] == 0x12b1edeb
  {
  }

  // --- the schedule ---

  predicate Scheduled(t: nat)
    requires 16 <= t < 64
  {
    W[t] == Add(Add(Add(SmallSigma1(W[t - 2]), W[t - 7]), SmallSigma0(W[t - 15])), W[t - 16])
  }

  lemma SumsFrom16()
    ensures Add(Add(Add(SmallSigma1(0x00000000), 0x00000000), SmallSigma0(0x00000000)), 0x61626380) == 0x61626380
    ensures Add(Add(Add(SmallSigma1(0x00000018), 0x00000000), SmallSigma0(0x00000000)), 0x00000000) == 0x000f0000
    ensures Add(Add(Add(SmallSigma1(0x61626380), 0x00000000), SmallSigma0(0x00000000)), 0x00000000) == 0x7da86405
    ensures Add(Add(Add(SmallSigma1(0x000f0000), 0x00000000), SmallSigma0(0x00000000)), 0x00000000) == 0x600003c6
    ensures Add(Add(Add(SmallSigma1(0x7da86405), 0x00000000), SmallSigma0(0x00000000)), 0x00000000) == 0x3e9d7b78
    ensures Add(Add(Add(SmallSigma1(0x600003c6), 0x00000000), SmallSigma0(0x00000000)), 0x00000000) == 0x0183fc00
    ensures Add(Add(Add(SmallSigma1(0x3e9d7b78), 0x00000018), SmallSigma0(0x00000000)), 0x00000000) == 0x12dcbfdb
    ensures Add(Add(Add(SmallSigma1(0x0183fc00), 0x61626380), SmallSigma0(0x00000000)), 0x00000000) == 0xe2e2c38e
    ensures Add(Add(Add(SmallSigma1(0x12dcbfdb), 0x000f0000), SmallSigma0(0x00000000)), 0x00000000) == 0xc8215c1a
    ensures Add(Add(Add(SmallSigma1(0xe2e2c38e), 0x7da86405), SmallSigma0(0x00000000)), 0x00000000) == 0xb73679a2
    ensures Add(Add(Add(SmallSigma1(0xc8215c1a), 0x600003c6), SmallSigma0(0x00000000)), 0x00000000) == 0xe5bc3909
    ensures Add(Add(Add(SmallSigma1(0xb73679a2), 0x3e9d7b78), SmallSigma0(0x00000000)), 0x00000000) == 0x32663c5b
    ensures Add(Add(Add(SmallSigma1(0xe5bc3909), 0x0183fc00), SmallSigma0(0x00000000)), 0x00000000) == 0x9d209d67
    ensures Add(Add(Add(SmallSigma1(0x32663c5b), 0x12dcbfdb), SmallSigma0(0x00000000)), 0x00000000) == 0xec8726cb
    ensures Add(Add(Add(SmallSigma1(0x9d209d67), 0xe2e2c38e), SmallSigma0(0x00000018)), 0x00000000) == 0x702138a4
    ensures Add(Add(Add(SmallSigma1(0xec8726cb), 0xc8215c1a), SmallSigma0(0x61626380)), 0x00000018) == 0xd3b7973b
  {
  }

  lemma SumsFrom32()
    ensures Add(Add(Add(SmallSigma1(0x702138a4), 0xb73679a2), SmallSigma0(0x000f0000)), 0x61626380) == 0x93f5997f
    ensures Add(Add(Add(SmallSigma1(0xd3b7973b), 0xe5bc3909), SmallSigma0(0x7da86405)), 0x000f0000) == 0x3b68ba73
    ensures Add(Add(Add(SmallSigma1(0x93f5997f), 0x32663c5b), SmallSigma0(0x600003c6)), 0x7da86405) == 0xaff4ffc1
    ensures Add(Add(Add(SmallSigma1(0x3b68ba73), 0x9d209d67), SmallSigma0(0x3e9d7b78)), 0x600003c6) == 0xf10a5c62
    ensures Add(Add(Add(SmallSigma1(0xaff4ffc1), 0xec8726cb), SmallSigma0(0x0183fc00)), 0x3e9d7b78) == 0x0a8b3996
    ensures Add(Add(Add(SmallSigma1(0xf10a5c62), 0x702138a4), SmallSigma0(0x12dcbfdb)), 0x0183fc00) == 0x72af830a
    ensures Add(Add(Add(SmallSigma1(0x0a8b3996), 0xd3b7973b), SmallSigma0(0xe2e2c38e)), 0x12dcbfdb) == 0x9409e33e
    ensures Add(Add(Add(SmallSigma1(0x72af830a), 0x93f5997f), SmallSigma0(0xc8215c1a)), 0xe2e2c38e) == 0x24641522
    ensures Add(Add(Add(SmallSigma1(0x9409e33e), 0x3b68ba73), SmallSigma0(0xb73679a2)), 0xc8215c1a) == 0x9f47bf94
    ensures Add(Add(Add(SmallSigma1(0x24641522), 0xaff4ffc1), SmallSigma0(0xe5bc3909)), 0xb73679a2) == 0xf0a64f5a
    ensures Add(Add(Add(SmallSigma1(0x9f47bf94), 0xf10a5c62), SmallSigma0(0x32663c5b)), 0xe5bc3909) == 0x3e246a79
    ensures Add(Add(Add(SmallSigma1(0xf0a64f5a), 0x0a8b3996), SmallSigma0(0x9d209d67)), 0x32663c5b) == 0x27333ba3
    ensures Add(Add(Add(SmallSigma1(0x3e246a79), 0x72af830a), SmallSigma0(0xec8726cb)), 0x9d209d67) == 0x0c4763f2
    ensures Add(Add(Add(SmallSigma1(0x27333ba3), 0x9409e33e), SmallSigma0(0x702138a4)), 0xec8726cb) == 0x840abf27
    ensures Add(Add(Add(SmallSigma1(0x0c4763f2), 0x24641522), SmallSigma0(0xd3b7973b)), 0x702138a4) == 0x7a290d5d
    ensures Add(Add(Add(SmallSigma1(0x840abf27), 0x9f47bf94), SmallSigma0(0x93f5997f)), 0xd3b7973b) == 0x065c43da
  {
  }

  lemma SumsFrom48()
    ensures Add(Add(Add(SmallSigma1(0x7a290d5d), 0xf0a64f5a), SmallSigma0(0x3b68ba73)), 0x93f5997f) == 0xfb3e89cb
    ensures Add(Add(Add(SmallSigma1(0x065c43da), 0x3e246a79), SmallSigma0(0xaff4ffc1)), 0x3b68ba73) == 0xcc7617db
    ensures Add(Add(Add(SmallSigma1(0xfb3e89cb), 0x27333ba3), SmallSigma0(0xf10a5c62)), 0xaff4ffc1) == 0xb9e66c34
    ensures Add(Add(Add(SmallSigma1(0xcc7617db), 0x0c4763f2), SmallSigma0(0x0a8b3996)), 0xf10a5c62) == 0xa9993667
    ensures Add(Add(Add(SmallSigma1(0xb9e66c34), 0x840abf27), SmallSigma0(0x72af830a)), 0x0a8b3996) == 0x84badedd
    ensures Add(Add(Add(SmallSigma1(0xa9993667), 0x7a290d5d), SmallSigma0(0x9409e33e)), 0x72af830a) == 0xc21462bc
    ensures Add(Add(Add(SmallSigma1(0x84badedd), 0x065c43da), SmallSigma0(0x24641522)), 0x9409e33e) == 0x1487472c
    ensures Add(Add(Add(SmallSigma1(0xc21462bc), 0xfb3e89cb), SmallSigma0(0x9f47bf94)), 0x24641522) == 0xb20f7a99
    ensures Add(Add(Add(SmallSigma1(0x1487472c), 0xcc7617db), SmallSigma0(0xf0a64f5a)), 0x9f47bf94) == 0xef57b9cd
    ensures Add(Add(Add(SmallSigma1(0xb20f7a99), 0xb9e66c34), SmallSigma0(0x3e246a79)), 0xf0a64f5a) == 0xebe6b238
    ensures Add(Add(Add(SmallSigma1(0xef57b9cd), 0xa9993667), SmallSigma0(0x27333ba3)), 0x3e246a79) == 0x9fe3095e
    ensures Add(Add(Add(SmallSigma1(0xebe6b238), 0x84badedd), SmallSigma0(0x0c4763f2)), 0x27333ba3) == 0x78bc8d4b
    ensures Add(Add(Add(SmallSigma1(0x9fe3095e), 0xc21462bc), SmallSigma0(0x840abf27)), 0x0c4763f2) == 0xa43fcf15
    ensures Add(Add(Add(SmallSigma1(0x78bc8d4b), 0x1487472c), SmallSigma0(0x7a290d5d)), 0x840abf27) == 0x668b2ff8
    ensures Add(Add(Add(SmallSigma1(0xa43fcf15), 0xb20f7a99), SmallSigma0(0x065c43da)), 0x7a290d5d) == 0xeeaba2cc
    ensures Add(Add(Add(SmallSigma1(0x668b2ff8), 0xef57b9cd), SmallSigma0(0xfb3e89cb)), 0x065c43da) == 0x12b1edeb
  {
  }

  lemma ScheduledFrom16()
    ensures forall t :: 16 <= t < 32 ==> Scheduled(t)
  {
    hide W, Add, SmallSigma0, SmallSigma1;
    SumsFrom16();
    WordsFrom0();
    WordsFrom16();
    assert Scheduled(16) && Scheduled(17) && Scheduled(18) && Scheduled(19)
      && Scheduled(20) && Scheduled(21) && Scheduled(22) && Scheduled(23);
    assert Scheduled(24) && Scheduled(25) && Scheduled(26) && Scheduled(27)
      && Scheduled(28) && Scheduled(29) && Scheduled(30) && Scheduled(31);
  }

  lemma ScheduledFrom32()
    ensures forall t :: 32 <= t < 48 ==> Scheduled(t)
  {
    hide W, Add, SmallSigma0, SmallSigma1;
    SumsFrom32();
    WordsFrom16();
    WordsFrom32();
    assert Scheduled(32) && Scheduled(33) && Scheduled(34) && Scheduled(35)
      && Scheduled(36) && Scheduled(37) && Scheduled(38) && Scheduled(39);
    assert Scheduled(40) && Scheduled(41) && Scheduled(42) && Scheduled(43)
      && Scheduled(44) && Scheduled(45) && Scheduled(46) && Scheduled(47);
  }

  lemma ScheduledFrom48()
    ensures forall t :: 48 <= t < 64 ==> Scheduled(t)
  {
    hide W, Add, SmallSigma0, SmallSigma1;
    SumsFrom48();
    WordsFrom32();
    WordsFrom48();
    assert Scheduled(48) && Scheduled(49) && Scheduled(50) && Scheduled(51)
      && Scheduled(52) && Scheduled(53) && Scheduled(54) && Scheduled(55);
    assert Scheduled(56) && Scheduled(57) && Scheduled(58) && Scheduled(59)
      && Scheduled(60) && Scheduled(61) && Scheduled(62) && Scheduled(63);
  }

  /** The padded message: the three bytes, a one bit, zeros, and the length in bits. */
  const BLOCK: seq<byte> := [0x61, 0x62, 0x63, 0x80] + Zeros(56) + [0, 0, 0, 0x18]

  lemma PaddedAbc()
    ensures Pad(ABC) == BLOCK
  {
    StandardPadding(ABC);
    LengthOfAbc();
    assert ZeroCount(3) == 52;
    hide Pad, Be64, ZeroCount, BLOCK;
    assert Zeros(52) + Zeros(4) == Zeros(56);
    assert ABC + [0x80] == [0x61, 0x62, 0x63, 0x80];
    assert BLOCK == [0x61, 0x62, 0x63, 0x80] + (Zeros(52) + Zeros(4)) + [0, 0, 0, 0x18] by { BlockParts(); }
  }

  lemma BlockParts()
    ensures BLOCK == [0x61, 0x62, 0x63, 0x80] + Zeros(56) + [0, 0, 0, 0x18]
  {
    hide Zeros;
  }

  lemma LengthOfAbc()
    ensures Be64(24) == Zeros(4) + [0, 0, 0, 0x18]
  {
  }

  lemma WordOfSlice(s: seq<byte>, i: nat)
    requires i + 4 <= |s|
    ensures BeWord(s, i) == BeWord(s[i..i + 4], 0)
  {
    assert s[i..i + 4][0] == s[i] && s[i..i + 4][1] == s[i + 1] && s[i..i + 4][2] == s[i + 2]
      && s[i..i + 4][3] == s[i + 3];
  }

  lemma WordsOfBlock()
    ensures WordBytes(0x61626380) == [0x61, 0x62, 0x63, 0x80] && WordBytes(0x18) == [0, 0, 0, 0x18]
    ensures WordBytes(0) == [0, 0, 0, 0]
  {
  }

  lemma BlockWords(t: nat)
    requires t < 16
    ensures BeWord(BLOCK, 4 * t) == W[t]
  {
    hide W, Zeros, BeWord, WordBytes;
    WordsFrom0();
    WordsOfBlock();
    WordRoundTrip(W[t]);
    SliceOfBlock(t);
    WordOfSlice(BLOCK, 4 * t);
  }

  lemma SliceOfBlock(t: nat)
    requires t < 16
    ensures BLOCK[4 * t..4 * t + 4] == if t == 0 then [0x61, 0x62, 0x63, 0x80]
                                       else if t == 15 then [0, 0, 0, 0x18] else [0, 0, 0, 0]
  {
  }

  lemma AllScheduled(t: nat)
    requires 16 <= t < 64
    ensures W[t] == ScheduleWord(BLOCK, W[..t], t)
  {
    hide Add, SmallSigma0, SmallSigma1;
    ScheduledFrom16();
    ScheduledFrom32();
    ScheduledFrom48();
    assert Scheduled(t);
  }

  lemma SixtyFour()
    ensures |W| == |BLOCK| == 64
  {
    hide Zeros;
  }

  lemma ScheduleNext(t: nat)
    requires t < 64
    ensures ScheduleWord(BLOCK, W[..t], t) == W[t]
  {
    SixtyFour();
    hide W, BLOCK, Add, SmallSigma0, SmallSigma1, BeWord;
    if t < 16 { BlockWords(t); } else { AllScheduled(t); }
  }

  /** The literal schedule is the schedule of the padded message. */
  lemma {:induction false} ScheduleOfAbc(t: nat)
    requires t <= 64
    ensures Schedule(BLOCK, t) == W[..t]
  {
    SixtyFour();
    hide W, BLOCK, ScheduleWord;
    if t > 0 {
      ScheduleOfAbc(t - 1);
      ScheduleNext(t - 1);
      assert W[..t] == W[..t - 1] + [W[t - 1]];
    }
  }

  // --- the rounds ---

  lemma StepsFrom0()
    ensures Round(V0, 0x428a2f98, 0x61626380) == V1
    ensures Round(V1, 0x71374491, 0x00000000) == V2
    ensures Round(V2, 0xb5c0fbcf, 0x00000000) == V3
    ensures Round(V3, 0xe9b5dba5, 0x00000000) == V4
    ensures Round(V4, 0x3956c25b, 0x00000000) == V5
    ensures Round(V5, 0x59f111f1, 0x00000000) == V6
    ensures Round(V6, 0x923f82a4, 0x00000000) == V7
    ensures Round(V7, 0xab1c5ed5, 0x00000000) == V8
    ensures Round(V8, 0xd807aa98, 0x00000000) == V9
    ensures Round(V9, 0x12835b01, 0x00000000) == V10
    ensures Round(V10, 0x243185be, 0x00000000) == V11
    ensures Round(V11, 0x550c7dc3, 0x00000000) == V12
    ensures Round(V12, 0x72be5d74, 0x00000000) == V13
    ensures Round(V13, 0x80deb1fe, 0x00000000) == V14
    ensures Round(V14, 0x9bdc06a7, 0x00000000) == V15
    ensures Round(V15, 0xc19bf174, 0x00000018) == V16
  {
  }

  lemma StepsFrom16()
    ensures Round(V16, 0xe49b69c1, 0x61626380) == V17
    ensures Round(V17, 0xefbe4786, 0x000f0000) == V18
    ensures Round(V18, 0x0fc19dc6, 0x7da86405) == V19
    ensures Round(V19, 0x240ca1cc, 0x600003c6) == V20
    ensures Round(V20, 0x2de92c6f, 0x3e9d7b78) == V21
    ensures Round(V21, 0x4a7484aa, 0x0183fc00) == V22
    ensures Round(V22, 0x5cb0a9dc, 0x12dcbfdb) == V23
    ensures Round(V23, 0x76f988da, 0xe2e2c38e) == V24
    ensures Round(V24, 0x983e5152, 0xc8215c1a) == V25
    ensures Round(V25, 0xa831c66d, 0xb73679a2) == V26
    ensures Round(V26, 0xb00327c8, 0xe5bc3909) == V27
    ensures Round(V27, 0xbf597fc7, 0x32663c5b) == V28
    ensures Round(V28, 0xc6e00bf3, 0x9d209d67) == V29
    ensures Round(V29, 0xd5a79147, 0xec8726cb) == V30
    ensures Round(V30, 0x06ca6351, 0x702138a4) == V31
    ensures Round(V31, 0x14292967, 0xd3b7973b) == V32
  {
  }

  lemma StepsFrom32()
    ensures Round(V32, 0x27b70a85, 0x93f5997f) == V33
    ensures Round(V33, 0x2e1b2138, 0x3b68ba73) == V34
    ensures Round(V34, 0x4d2c6dfc, 0xaff4ffc1) == V35
    ensures Round(V35, 0x53380d13, 0xf10a5c62) == V36
    ensures Round(V36, 0x650a7354, 0x0a8b3996) == V37
    ensures Round(V37, 0x766a0abb, 0x72af830a) == V38
    ensures Round(V38, 0x81c2c92e, 0x9409e33e) == V39
    ensures Round(V39, 0x92722c85, 0x24641522) == V40
    ensures Round(V40, 0xa2bfe8a1, 0x9f47bf94) == V41
    ensures Round(V41, 0xa81a664b, 0xf0a64f5a) == V42
    ensures Round(V42, 0xc24b8b70, 0x3e246a79) == V43
    ensures Round(V43, 0xc76c51a3, 0x27333ba3) == V44
    ensures Round(V44, 0xd192e819, 0x0c4763f2) == V45
    ensures Round(V45, 0xd6990624, 0x840abf27) == V46
    ensures Round(V46, 0xf40e3585, 0x7a290d5d) == V47
    ensures Round(V47, 0x106aa070, 0x065c43da) == V48
  {
  }

  lemma StepsFrom48()
    ensures Round(V48, 0x19a4c116, 0xfb3e89cb) == V49
    ensures Round(V49, 0x1e376c08, 0xcc7617db) == V50
    ensures Round(V50, 0x2748774c, 0xb9e66c34) == V51
    ensures Round(V51, 0x34b0bcb5, 0xa9993667) == V52
    ensures Round(V52, 0x391c0cb3, 0x84badedd) == V53
    ensures Round(V53, 0x4ed8aa4a, 0xc21462bc) == V54
    ensures Round(V54, 0x5b9cca4f, 0x1487472c) == V55
    ensures Round(V55, 0x682e6ff3, 0xb20f7a99) == V56
    ensures Round(V56, 0x748f82ee, 0xef57b9cd) == V57
    ensures Round(V57, 0x78a5636f, 0xebe6b238) == V58
    ensures Round(V58, 0x84c87814, 0x9fe3095e) == V59
    ensures Round(V59, 0x8cc70208, 0x78bc8d4b) == V60
    ensures Round(V60, 0x90befffa, 0xa43fcf15) == V61
    ensures Round(V61, 0xa4506ceb, 0x668b2ff8) == V62
    ensures Round(V62, 0xbef9a3f7, 0xeeaba2cc) == V63
    ensures Round(V63, 0xc67178f2, 0x12b1edeb) == V64
  {
  }

  /** A round of the message. */
  lemma NextRound(t: nat)
    requires t < 64
    ensures Rounds(V0, W, t + 1) == Round(Rounds(V0, W, t), K[t], W[t])
  {
    hide Round;
  }

  lemma RoundsTo16()
    ensures Rounds(V0, W, 16) == V16
  {
    hide Round;
    StepsFrom0();
    ConstantsFrom0();
    WordsFrom0();
    NextRound(0); NextRound(1); NextRound(2); NextRound(3);
    NextRound(4); NextRound(5); NextRound(6); NextRound(7);
    NextRound(8); NextRound(9); NextRound(10); NextRound(11);
    NextRound(12); NextRound(13); NextRound(14); NextRound(15);
  }

  lemma RoundsTo32()
    ensures Rounds(V0, W, 32) == V32
  {
    hide Round, Rounds;
    RoundsTo16();
    StepsFrom16();
    ConstantsFrom16();
    WordsFrom16();
    NextRound(16); NextRound(17); NextRound(18); NextRound(19);
    NextRound(20); NextRound(21); NextRound(22); NextRound(23);
    NextRound(24); NextRound(25); NextRound(26); NextRound(27);
    NextRound(28); NextRound(29); NextRound(30); NextRound(31);
  }

  lemma RoundsTo48()
    ensures Rounds(V0, W, 48) == V48
  {
    hide Round, Rounds;
    RoundsTo32();
    StepsFrom32();
    ConstantsFrom32();
    WordsFrom32();
    NextRound(32); NextRound(33); NextRound(34); NextRound(35);
    NextRound(36); NextRound(37); NextRound(38); NextRound(39);
    NextRound(40); NextRound(41); NextRound(42); NextRound(43);
    NextRound(44); NextRound(45); NextRound(46); NextRound(47);
  }

  lemma RoundsTo64()
    ensures Rounds(V0, W, 64) == V64
  {
    hide Round, Rounds;
    RoundsTo48();
    StepsFrom48();
    ConstantsFrom48();
    WordsFrom48();
    NextRound(48); NextRound(49); NextRound(50); NextRound(51);
    NextRound(52); NextRound(53); NextRound(54); NextRound(55);
    NextRound(56); NextRound(57); NextRound(58); NextRound(59);
    NextRound(60); NextRound(61); NextRound(62); NextRound(63);
  }

  // --- the digest ---

  lemma SumsWithStart()
    ensures Add(0x6a09e667, 0x506e3058) == 0xba7816bf
    ensures Add(0xbb67ae85, 0xd39a2165) == 0x8f01cfea
    ensures Add(0x3c6ef372, 0x04d24d6c) == 0x414140de
    ensures Add(0xa54ff53a, 0xb85e2ce9) == 0x5dae2223
    ensures Add(0x510e527f, 0x5ef50f24) == 0xb00361a3
    ensures Add(0x9b05688c, 0xfb121210) == 0x96177a9c
    ensures Add(0x1f83d9ab, 0x948d25b6) == 0xb410ff61
    ensures Add(0x5be0cd19, 0x961f4894) == 0xf20015ad
  {
  }

  lemma HashOfAbc()
    ensures Blocks(H0, Pad(ABC)) == HASH
  {
    hide Add, Rounds, Schedule, Pad;
    PaddedAbc();
    ScheduleOfAbc(64);
    RoundsTo64();
    SumsWithStart();
    assert W[..64] == W;
    assert BLOCK[..0] == [] && BLOCK[0..] == BLOCK;
    assert Blocks(H0, BLOCK[..0]) == H0;
  }

  /** The digest that the standard gives for "abc". */
  lemma DigestOfAbc()
    ensures Digest(ABC) ==
              [0xba, 0x78, 0x16, 0xbf] + [0x8f, 0x01, 0xcf, 0xea]
              + [0x41, 0x41, 0x40, 0xde] + [0x5d, 0xae, 0x22, 0x23]
              + [0xb0, 0x03, 0x61, 0xa3] + [0x96, 0x17, 0x7a, 0x9c]
              + [0xb4, 0x10, 0xff, 0x61] + [0xf2, 0x00, 0x15, 0xad]
  {
    hide Blocks, Pad;
    HashOfAbc();
    BytesOfHash();
  }

  lemma BytesOfHash()
    ensures Concat(HASH) ==
              [0xba, 0x78, 0x16, 0xbf] + [0x8f, 0x01, 0xcf, 0xea]
              + [0x41, 0x41, 0x40, 0xde] + [0x5d, 0xae, 0x22, 0x23]
              + [0xb0, 0x03, 0x61, 0xa3] + [0x96, 0x17, 0x7a, 0x9c]
              + [0xb4, 0x10, 0xff, 0x61] + [0xf2, 0x00, 0x15, 0xad]
  {
    hide WordBytes, Concat;
    BytesOfWords();
    assert HASH[..0] == [] && HASH[..8] == HASH;
    NextWord(HASH, 0); NextWord(HASH, 1); NextWord(HASH, 2); NextWord(HASH, 3);
    NextWord(HASH, 4); NextWord(HASH, 5); NextWord(HASH, 6); NextWord(HASH, 7);
    NoWords();
  }

  lemma NoWords()
    ensures Concat([]) == []
  {
  }

  lemma NextWord(h: seq<word>, n: nat)
    requires n < |h|
    ensures Concat(h[..n + 1]) == Concat(h[..n]) + WordBytes(h[n])
  {
    hide WordBytes;
    assert h[..n + 1][..n] == h[..n];
  }

  lemma BytesOfWords()
    ensures WordBytes(0xba7816bf) == [0xba, 0x78, 0x16, 0xbf]
    ensures WordBytes(0x8f01cfea) == [0x8f, 0x01, 0xcf, 0xea]
    ensures WordBytes(0x414140de) == [0x41, 0x41, 0x40, 0xde]
    ensures WordBytes(0x5dae2223) == [0x5d, 0xae, 0x22, 0x23]
    ensures WordBytes(0xb00361a3) == [0xb0, 0x03, 0x61, 0xa3]
    ensures WordBytes(0x96177a9c) == [0x96, 0x17, 0x7a, 0x9c]
    ensures WordBytes(0xb410ff61) == [0xb4, 0x10, 0xff, 0x61]
    ensures WordBytes(0xf20015ad) == [0xf2, 0x00, 0x15, 0xad]
  {
  }
}
