/** SHA-256 as the standard states it (FIPS 180-4), independent of how the bootloader computes it. */
module Fips180 {
  import opened Words

  // -------------------------------------------------------------------------
  // Word functions (sections 3.2 and 4.1.2)
  // -------------------------------------------------------------------------

  function Add(x: bv32, y: bv32): bv32 { x + y }

  function Xor3(x: bv32, y: bv32, z: bv32): bv32 { x ^ y ^ z }

  function Rotr2(x: bv32): bv32 { (x >> 2) | (x << 30) }
  function Rotr6(x: bv32): bv32 { (x >> 6) | (x << 26) }
  function Rotr7(x: bv32): bv32 { (x >> 7) | (x << 25) }
  function Rotr11(x: bv32): bv32 { (x >> 11) | (x << 21) }
  function Rotr13(x: bv32): bv32 { (x >> 13) | (x << 19) }
  function Rotr17(x: bv32): bv32 { (x >> 17) | (x << 15) }
  function Rotr18(x: bv32): bv32 { (x >> 18) | (x << 14) }
  function Rotr19(x: bv32): bv32 { (x >> 19) | (x << 13) }
  function Rotr22(x: bv32): bv32 { (x >> 22) | (x << 10) }
  function Rotr25(x: bv32): bv32 { (x >> 25) | (x << 7) }

  /** Bitwise choice: where `x` has a one take `y`, elsewhere take `z`. */
  function Ch(x: bv32, y: bv32, z: bv32): bv32 { (x & y) ^ (!x & z) }

  /** Bitwise majority. */
  function Maj(x: bv32, y: bv32, z: bv32): bv32 { (x & y) ^ (x & z) ^ (y & z) }

  function BigSigma0(x: bv32): bv32 { Xor3(Rotr2(x), Rotr13(x), Rotr22(x)) }
  function BigSigma1(x: bv32): bv32 { Xor3(Rotr6(x), Rotr11(x), Rotr25(x)) }
  function SmallSigma0(x: bv32): bv32 { Xor3(Rotr7(x), Rotr18(x), (x >> 3)) }
  function SmallSigma1(x: bv32): bv32 { Xor3(Rotr17(x), Rotr19(x), (x >> 10)) }

  // -------------------------------------------------------------------------
  // Constants (sections 4.2.2 and 5.3.3): fractions of roots of the first primes
  // -------------------------------------------------------------------------

  const PRIMES_0: seq<nat> := [2, 3, 5, 7, 11, 13, 17, 19]
  const PRIMES_1: seq<nat> := [23, 29, 31, 37, 41, 43, 47, 53]
  const PRIMES_2: seq<nat> := [59, 61, 67, 71, 73, 79, 83, 89]
  const PRIMES_3: seq<nat> := [97, 101, 103, 107, 109, 113, 127, 131]
  const PRIMES_4: seq<nat> := [137, 139, 149, 151, 157, 163, 167, 173]
  const PRIMES_5: seq<nat> := [179, 181, 191, 193, 197, 199, 211, 223]
  const PRIMES_6: seq<nat> := [227, 229, 233, 239, 241, 251, 257, 263]
  const PRIMES_7: seq<nat> := [269, 271, 277, 281, 283, 293, 307, 311]
  const PRIMES: seq<nat> :=
    ((PRIMES_0 + PRIMES_1) + (PRIMES_2 + PRIMES_3)) + ((PRIMES_4 + PRIMES_5) + (PRIMES_6 + PRIMES_7))

  const H: seq<bv32> := [
    0x6A09_E667, 0xBB67_AE85, 0x3C6E_F372, 0xA54F_F53A,
    0x510E_527F, 0x9B05_688C, 0x1F83_D9AB, 0x5BE0_CD19]

  const K_0: seq<bv32> := [
    0x428A_2F98, 0x7137_4491, 0xB5C0_FBCF, 0xE9B5_DBA5,
    0x3956_C25B, 0x59F1_11F1, 0x923F_82A4, 0xAB1C_5ED5]
  const K_1: seq<bv32> := [
    0xD807_AA98, 0x1283_5B01, 0x2431_85BE, 0x550C_7DC3,
    0x72BE_5D74, 0x80DE_B1FE, 0x9BDC_06A7, 0xC19B_F174]
  const K_2: seq<bv32> := [
    0xE49B_69C1, 0xEFBE_4786, 0x0FC1_9DC6, 0x240C_A1CC,
    0x2DE9_2C6F, 0x4A74_84AA, 0x5CB0_A9DC, 0x76F9_88DA]
  const K_3: seq<bv32> := [
    0x983E_5152, 0xA831_C66D, 0xB003_27C8, 0xBF59_7FC7,
    0xC6E0_0BF3, 0xD5A7_9147, 0x06CA_6351, 0x1429_2967]
  const K_4: seq<bv32> := [
    0x27B7_0A85, 0x2E1B_2138, 0x4D2C_6DFC, 0x5338_0D13,
    0x650A_7354, 0x766A_0ABB, 0x81C2_C92E, 0x9272_2C85]
  const K_5: seq<bv32> := [
    0xA2BF_E8A1, 0xA81A_664B, 0xC24B_8B70, 0xC76C_51A3,
    0xD192_E819, 0xD699_0624, 0xF40E_3585, 0x106A_A070]
  const K_6: seq<bv32> := [
    0x19A4_C116, 0x1E37_6C08, 0x2748_774C, 0x34B0_BCB5,
    0x391C_0CB3, 0x4ED8_AA4A, 0x5B9C_CA4F, 0x682E_6FF3]
  const K_7: seq<bv32> := [
    0x748F_82EE, 0x78A5_636F, 0x84C8_7814, 0x8CC7_0208,
    0x90BE_FFFA, 0xA450_6CEB, 0xBEF9_A3F7, 0xC671_78F2]
  const K: seq<bv32> := ((K_0 + K_1) + (K_2 + K_3)) + ((K_4 + K_5) + (K_6 + K_7))

  /** `k` holds the first 32 bits of the fractional part of the square root of `p`. */
  predicate IsSquareRootFraction(p: nat, k: u32) {
    var whole := if p < 4 then 1 else if p < 9 then 2 else if p < 16 then 3 else 4;
    var c := whole * TWO_TO_THE_32 + k;
    c * c <= p * 0x1_0000_0000_0000_0000 < (c + 1) * (c + 1)
  }

  /** `k` holds the first 32 bits of the fractional part of the cube root of `p`. */
  predicate IsCubeRootFraction(p: nat, k: u32) {
    var whole := if p < 8 then 1 else if p < 27 then 2 else if p < 64 then 3 else if p < 125 then 4 else if p < 216 then 5 else 6;
    var c := whole * TWO_TO_THE_32 + k;
    c * c * c <= p * 0x1_0000_0000_0000_0000_0000_0000 < (c + 1) * (c + 1) * (c + 1)
  }

  function NatOfWord(w: bv32): u32 { w as nat }

  predicate AreCubeRootFractions(ps: seq<nat>, ks: seq<bv32>) {
    && |ps| == |ks|
    && forall i | 0 <= i < |ps| :: IsCubeRootFraction(ps[i], NatOfWord(ks[i]))
  }

  lemma CubeRootsConcat(ps: seq<nat>, ks: seq<bv32>, qs: seq<nat>, ls: seq<bv32>)
    requires AreCubeRootFractions(ps, ks) && AreCubeRootFractions(qs, ls)
    ensures AreCubeRootFractions(ps + qs, ks + ls)
  {}

  lemma InitialHashIsSquareRoots()
    ensures |H| == 8
    ensures forall i | 0 <= i < 8 :: IsSquareRootFraction(PRIMES_0[i], NatOfWord(H[i]))
  {
    assert IsSquareRootFraction(2, NatOfWord(0x6A09_E667));
    assert IsSquareRootFraction(3, NatOfWord(0xBB67_AE85));
    assert IsSquareRootFraction(5, NatOfWord(0x3C6E_F372));
    assert IsSquareRootFraction(7, NatOfWord(0xA54F_F53A));
    assert IsSquareRootFraction(11, NatOfWord(0x510E_527F));
    assert IsSquareRootFraction(13, NatOfWord(0x9B05_688C));
    assert IsSquareRootFraction(17, NatOfWord(0x1F83_D9AB));
    assert IsSquareRootFraction(19, NatOfWord(0x5BE0_CD19));
  }

  lemma CubeRoots_0()
    ensures AreCubeRootFractions(PRIMES_0, K_0)
  {
    assert IsCubeRootFraction(2, NatOfWord(0x428A_2F98));
    assert IsCubeRootFraction(3, NatOfWord(0x7137_4491));
    assert IsCubeRootFraction(5, NatOfWord(0xB5C0_FBCF));
    assert IsCubeRootFraction(7, NatOfWord(0xE9B5_DBA5));
    assert IsCubeRootFraction(11, NatOfWord(0x3956_C25B));
    assert IsCubeRootFraction(13, NatOfWord(0x59F1_11F1));
    assert IsCubeRootFraction(17, NatOfWord(0x923F_82A4));
    assert IsCubeRootFraction(19, NatOfWord(0xAB1C_5ED5));
  }

  lemma CubeRoots_1()
    ensures AreCubeRootFractions(PRIMES_1, K_1)
  {
    assert IsCubeRootFraction(23, NatOfWord(0xD807_AA98));
    assert IsCubeRootFraction(29, NatOfWord(0x1283_5B01));
    assert IsCubeRootFraction(31, NatOfWord(0x2431_85BE));
    assert IsCubeRootFraction(37, NatOfWord(0x550C_7DC3));
    assert IsCubeRootFraction(41, NatOfWord(0x72BE_5D74));
    assert IsCubeRootFraction(43, NatOfWord(0x80DE_B1FE));
    assert IsCubeRootFraction(47, NatOfWord(0x9BDC_06A7));
    assert IsCubeRootFraction(53, NatOfWord(0xC19B_F174));
  }

  lemma CubeRoots_2()
    ensures AreCubeRootFractions(PRIMES_2, K_2)
  {
    assert IsCubeRootFraction(59, NatOfWord(0xE49B_69C1));
    assert IsCubeRootFraction(61, NatOfWord(0xEFBE_4786));
    assert IsCubeRootFraction(67, NatOfWord(0x0FC1_9DC6));
    assert IsCubeRootFraction(71, NatOfWord(0x240C_A1CC));
    assert IsCubeRootFraction(73, NatOfWord(0x2DE9_2C6F));
    assert IsCubeRootFraction(79, NatOfWord(0x4A74_84AA));
    assert IsCubeRootFraction(83, NatOfWord(0x5CB0_A9DC));
    assert IsCubeRootFraction(89, NatOfWord(0x76F9_88DA));
  }

  lemma CubeRoots_3()
    ensures AreCubeRootFractions(PRIMES_3, K_3)
  {
    assert IsCubeRootFraction(97, NatOfWord(0x983E_5152));
    assert IsCubeRootFraction(101, NatOfWord(0xA831_C66D));
    assert IsCubeRootFraction(103, NatOfWord(0xB003_27C8));
    assert IsCubeRootFraction(107, NatOfWord(0xBF59_7FC7));
    assert IsCubeRootFraction(109, NatOfWord(0xC6E0_0BF3));
    assert IsCubeRootFraction(113, NatOfWord(0xD5A7_9147));
    assert IsCubeRootFraction(127, NatOfWord(0x06CA_6351));
    assert IsCubeRootFraction(131, NatOfWord(0x1429_2967));
  }

  lemma CubeRoots_4()
    ensures AreCubeRootFractions(PRIMES_4, K_4)
  {
    assert IsCubeRootFraction(137, NatOfWord(0x27B7_0A85));
    assert IsCubeRootFraction(139, NatOfWord(0x2E1B_2138));
    assert IsCubeRootFraction(149, NatOfWord(0x4D2C_6DFC));
    assert IsCubeRootFraction(151, NatOfWord(0x5338_0D13));
    assert IsCubeRootFraction(157, NatOfWord(0x650A_7354));
    assert IsCubeRootFraction(163, NatOfWord(0x766A_0ABB));
    assert IsCubeRootFraction(167, NatOfWord(0x81C2_C92E));
    assert IsCubeRootFraction(173, NatOfWord(0x9272_2C85));
  }

  lemma CubeRoots_5()
    ensures AreCubeRootFractions(PRIMES_5, K_5)
  {
    assert IsCubeRootFraction(179, NatOfWord(0xA2BF_E8A1));
    assert IsCubeRootFraction(181, NatOfWord(0xA81A_664B));
    assert IsCubeRootFraction(191, NatOfWord(0xC24B_8B70));
    assert IsCubeRootFraction(193, NatOfWord(0xC76C_51A3));
    assert IsCubeRootFraction(197, NatOfWord(0xD192_E819));
    assert IsCubeRootFraction(199, NatOfWord(0xD699_0624));
    assert IsCubeRootFraction(211, NatOfWord(0xF40E_3585));
    assert IsCubeRootFraction(223, NatOfWord(0x106A_A070));
  }

  lemma CubeRoots_6()
    ensures AreCubeRootFractions(PRIMES_6, K_6)
  {
    assert IsCubeRootFraction(227, NatOfWord(0x19A4_C116));
    assert IsCubeRootFraction(229, NatOfWord(0x1E37_6C08));
    assert IsCubeRootFraction(233, NatOfWord(0x2748_774C));
    assert IsCubeRootFraction(239, NatOfWord(0x34B0_BCB5));
    assert IsCubeRootFraction(241, NatOfWord(0x391C_0CB3));
    assert IsCubeRootFraction(251, NatOfWord(0x4ED8_AA4A));
    assert IsCubeRootFraction(257, NatOfWord(0x5B9C_CA4F));
    assert IsCubeRootFraction(263, NatOfWord(0x682E_6FF3));
  }

  lemma CubeRoots_7()
    ensures AreCubeRootFractions(PRIMES_7, K_7)
  {
    assert IsCubeRootFraction(269, NatOfWord(0x748F_82EE));
    assert IsCubeRootFraction(271, NatOfWord(0x78A5_636F));
    assert IsCubeRootFraction(277, NatOfWord(0x84C8_7814));
    assert IsCubeRootFraction(281, NatOfWord(0x8CC7_0208));
    assert IsCubeRootFraction(283, NatOfWord(0x90BE_FFFA));
    assert IsCubeRootFraction(293, NatOfWord(0xA450_6CEB));
    assert IsCubeRootFraction(307, NatOfWord(0xBEF9_A3F7));
    assert IsCubeRootFraction(311, NatOfWord(0xC671_78F2));
  }

  /** Every entry of the round table is the fraction the standard defines it to be. */
  lemma RoundConstantsAreCubeRoots()
    ensures |K| == 64
    ensures AreCubeRootFractions(PRIMES, K)
  {
    hide IsCubeRootFraction;
    CubeRoots_0();
    CubeRoots_1();
    CubeRoots_2();
    CubeRoots_3();
    CubeRoots_4();
    CubeRoots_5();
    CubeRoots_6();
    CubeRoots_7();
    CubeRootsConcat(PRIMES_0, K_0, PRIMES_1, K_1);
    CubeRootsConcat(PRIMES_2, K_2, PRIMES_3, K_3);
    CubeRootsConcat(PRIMES_4, K_4, PRIMES_5, K_5);
    CubeRootsConcat(PRIMES_6, K_6, PRIMES_7, K_7);
    CubeRootsConcat(PRIMES_0 + PRIMES_1, K_0 + K_1, PRIMES_2 + PRIMES_3, K_2 + K_3);
    CubeRootsConcat(PRIMES_4 + PRIMES_5, K_4 + K_5, PRIMES_6 + PRIMES_7, K_6 + K_7);
    CubeRootsConcat((PRIMES_0 + PRIMES_1) + (PRIMES_2 + PRIMES_3), (K_0 + K_1) + (K_2 + K_3),
                    (PRIMES_4 + PRIMES_5) + (PRIMES_6 + PRIMES_7), (K_4 + K_5) + (K_6 + K_7));
  }

  function InitialHash(): (h: seq<bv32>)
    ensures |h| == 8
  {
    H
  }

  function RoundConstant(t: nat): bv32
    requires t < 64
  {
    K[t]
  }

  // -------------------------------------------------------------------------
  // One block (section 6.2.2)
  // -------------------------------------------------------------------------

  function BeWord(b: seq<byte>): bv32
    requires |b| == 4
  {
    (b[0] as bv32 << 24) | (b[1] as bv32 << 16) | (b[2] as bv32 << 8) | b[3] as bv32
  }

  function WordBe(w: bv32): (b: seq<byte>)
    ensures |b| == 4
  {
    [(w >> 24) as bv8, ((w >> 16) & 0xFF) as bv8, ((w >> 8) & 0xFF) as bv8, (w & 0xFF) as bv8]
  }

  /** A word of the message is its bytes as a number, big end first. */
  lemma BeWordIsNumber(b: seq<byte>)
    requires |b| == 4
    ensures BeWord(b) as nat == 0x100_0000 * (b[0] as nat) + 0x1_0000 * (b[1] as nat) + 0x100 * (b[2] as nat) + (b[3] as nat)
  {
    JoinedWord(b[3], b[2], b[1], b[0]);
  }

  lemma BeWordOfWordBe(w: bv32)
    ensures BeWord(WordBe(w)) == w
  {}

  /** A digest word is written as its number, big end first. */
  lemma WordBeIsNumber(w: bv32)
    ensures var b := WordBe(w);
            w as nat == 0x100_0000 * (b[0] as nat) + 0x1_0000 * (b[1] as nat) + 0x100 * (b[2] as nat) + (b[3] as nat)
  {
    hide BeWord, WordBe;
    BeWordOfWordBe(w);
    BeWordIsNumber(WordBe(w));
  }

  /** Step 1: the message schedule. */
  function Schedule(block: seq<byte>, t: nat): bv32
    requires |block| == 64 && t < 64
  {
    if t < 16 then BeWord(block[4 * t..4 * t + 4])
    else Add(Add(Add(SmallSigma1(Schedule(block, t - 2)), Schedule(block, t - 7)),
                 SmallSigma0(Schedule(block, t - 15))),
             Schedule(block, t - 16))
  }

  datatype Vars = Vars(a: bv32, b: bv32, c: bv32, d: bv32, e: bv32, f: bv32, g: bv32, h: bv32)

  /** Step 3, for one `t`. */
  function Round(v: Vars, k: bv32, w: bv32): Vars {
    var t1 := Add(Add(Add(Add(v.h, BigSigma1(v.e)), Ch(v.e, v.f, v.g)), k), w);
    var t2 := Add(BigSigma0(v.a), Maj(v.a, v.b, v.c));
    Vars(Add(t1, t2), v.a, v.b, v.c, Add(v.d, t1), v.e, v.f, v.g)
  }

  function Rounds(v: Vars, block: seq<byte>, n: nat): Vars
    requires |block| == 64 && n <= 64
  {
    if n == 0 then v
    else Round(Rounds(v, block, n - 1), RoundConstant(n - 1), Schedule(block, n - 1))
  }

  function Load(h: seq<bv32>): Vars
    requires |h| == 8
  {
    Vars(h[0], h[1], h[2], h[3], h[4], h[5], h[6], h[7])
  }

  /** Steps 2 to 4: the next intermediate hash value. */
  function Compress(h: seq<bv32>, block: seq<byte>): (r: seq<bv32>)
    requires |h| == 8 && |block| == 64
    ensures |r| == 8
  {
    var v := Rounds(Load(h), block, 64);
    [Add(h[0], v.a), Add(h[1], v.b), Add(h[2], v.c), Add(h[3], v.d),
     Add(h[4], v.e), Add(h[5], v.f), Add(h[6], v.g), Add(h[7], v.h)]
  }

  /** All blocks of a message whose length is a whole number of blocks. */
  function HashBlocks(h: seq<bv32>, msg: seq<byte>): (r: seq<bv32>)
    requires |h| == 8 && |msg| % 64 == 0
    ensures |r| == 8
    decreases |msg|
  {
    if msg == [] then h
    else Compress(HashBlocks(h, msg[..|msg| - 64]), msg[|msg| - 64..])
  }

  // -------------------------------------------------------------------------
  // Padding (section 5.1.1)
  // -------------------------------------------------------------------------

  function Zeros(n: nat): (z: seq<byte>)
    ensures |z| == n
    ensures forall i | 0 <= i < n :: z[i] == 0
  {
    seq(n, i => 0)
  }

  /** Zero bytes between the 0x80 marker and the length field of a message of `len` bytes. */
  function PadZeros(len: nat): nat {
    (55 - len) % 64
  }

  /** In bits: the zero run is the least `k` with `l + 1 + k = 448 (mod 512)`, the low seven zero
      bits of the 0x80 marker included. */
  lemma PadZerosIsLeast(len: nat, k: nat)
    ensures (8 * len + 1 + (8 * PadZeros(len) + 7)) % 512 == 448
    ensures (8 * len + 1 + k) % 512 == 448 ==> 8 * PadZeros(len) + 7 <= k
  {
    var q, z := (55 - len) / 64, PadZeros(len);
    assert 55 - len == 64 * q + z;
    BitsOfLine(8 * len + 1 + (8 * z + 7), -q);
    if (8 * len + 1 + k) % 512 == 448 {
      LeastOfResidue(8 * z + 7, k, -q - (8 * len + 1 + k) / 512);
    }
  }

  lemma BitsOfLine(n: int, turns: int)
    requires n == 512 * turns + 448
    ensures n % 512 == 448
  {}

  lemma LeastOfResidue(least: nat, k: nat, turns: int)
    requires least < 512 && least - k == 512 * turns
    ensures least <= k
  {}

  lemma PaddedLength(len: nat)
    ensures (len + 1 + PadZeros(len) + 8) % 64 == 0
  {
    var q := (55 - len) / 64;
    assert 55 - len == 64 * q + PadZeros(len);
    assert len + 1 + PadZeros(len) + 8 == 64 * (1 - q);
  }

  /** A 64-bit count, big end first. */
  function U64Be(n: nat): (b: seq<byte>)
    requires n < 0x1_0000_0000_0000_0000
    ensures |b| == 8
  {
    [ByteOf(n / 0x100_0000_0000_0000), ByteOf(n / 0x1_0000_0000_0000 % 0x100),
     ByteOf(n / 0x100_0000_0000 % 0x100), ByteOf(n / 0x1_0000_0000 % 0x100),
     ByteOf(n / 0x100_0000 % 0x100), ByteOf(n / 0x1_0000 % 0x100),
     ByteOf(n / 0x100 % 0x100), ByteOf(n % 0x100)]
  }

  /** The eight bytes are the count as a number, big end first. */
  lemma U64BeIsNumber(n: nat)
    requires n < 0x1_0000_0000_0000_0000
    ensures var b := U64Be(n);
            n == NatOfByte(b[7]) + 0x100 * (NatOfByte(b[6]) + 0x100 * (NatOfByte(b[5]) + 0x100 * (NatOfByte(b[4])
                 + 0x100 * (NatOfByte(b[3]) + 0x100 * (NatOfByte(b[2]) + 0x100 * (NatOfByte(b[1]) + 0x100 * NatOfByte(b[0])))))))
  {
    hide NatOfByte, JoinNibbles;
    DigitsOf64(n);
  }

  lemma DigitsOf64(n: nat)
    ensures n == n % 0x100 + 0x100 * (n / 0x100)
    ensures n / 0x100 == n / 0x100 % 0x100 + 0x100 * (n / 0x1_0000)
    ensures n / 0x1_0000 == n / 0x1_0000 % 0x100 + 0x100 * (n / 0x100_0000)
    ensures n / 0x100_0000 == n / 0x100_0000 % 0x100 + 0x100 * (n / 0x1_0000_0000)
    ensures n / 0x1_0000_0000 == n / 0x1_0000_0000 % 0x100 + 0x100 * (n / 0x100_0000_0000)
    ensures n / 0x100_0000_0000 == n / 0x100_0000_0000 % 0x100 + 0x100 * (n / 0x1_0000_0000_0000)
    ensures n / 0x1_0000_0000_0000 == n / 0x1_0000_0000_0000 % 0x100 + 0x100 * (n / 0x100_0000_0000_0000)
  {
    LowDigits(n);
    MiddleDigits(n);
    HighDigits(n);
  }

  lemma LowDigits(n: nat)
    ensures n / 0x100 / 0x100 == n / 0x1_0000
    ensures n / 0x1_0000 / 0x100 == n / 0x100_0000
  {}

  lemma MiddleDigits(n: nat)
    ensures n / 0x100_0000 / 0x100 == n / 0x1_0000_0000
    ensures n / 0x1_0000_0000 / 0x100 == n / 0x100_0000_0000
  {}

  lemma HighDigits(n: nat)
    ensures n / 0x100_0000_0000 / 0x100 == n / 0x1_0000_0000_0000
    ensures n / 0x1_0000_0000_0000 / 0x100 == n / 0x100_0000_0000_0000
  {}

  /** The standard allows messages below 2^64 bits. */
  const MAX_MESSAGE: nat := 0x2000_0000_0000_0000

  /** Everything the padding adds to a message of `len` bytes. */
  function Trailer(len: nat): (t: seq<byte>)
    requires len < MAX_MESSAGE
    ensures |t| == 1 + PadZeros(len) + 8
  {
    [0x80] + Zeros(PadZeros(len)) + U64Be(8 * len)
  }

  function Pad(msg: seq<byte>): (p: seq<byte>)
    requires |msg| < MAX_MESSAGE
    ensures |p| % 64 == 0
  {
    PaddedLength(|msg|);
    msg + Trailer(|msg|)
  }

  // -------------------------------------------------------------------------
  // The hash
  // -------------------------------------------------------------------------

  function DigestBytes(h: seq<bv32>): (d: seq<byte>)
    requires |h| == 8
    ensures |d| == 32
  {
    WordBe(h[0]) + WordBe(h[1]) + WordBe(h[2]) + WordBe(h[3])
    + WordBe(h[4]) + WordBe(h[5]) + WordBe(h[6]) + WordBe(h[7])
  }

  function Sha256(msg: seq<byte>): (d: seq<byte>)
    requires |msg| < MAX_MESSAGE
    ensures |d| == 32
  {
    DigestBytes(HashBlocks(InitialHash(), Pad(msg)))
  }

  lemma {:induction false} HashBlocksConcat(h: seq<bv32>, a: seq<byte>, b: seq<byte>)
    requires |h| == 8 && |a| % 64 == 0 && |b| % 64 == 0
    ensures HashBlocks(h, a + b) == HashBlocks(HashBlocks(h, a), b)
    decreases |b|
  {
    hide Compress;
    if b == [] {
      assert a + b == a;
    } else {
      var b' := b[..|b| - 64];
      assert (a + b)[..|a + b| - 64] == a + b';
      assert (a + b)[|a + b| - 64..] == b[|b| - 64..];
      HashBlocksConcat(h, a, b');
    }
  }

  lemma OneBlock(h: seq<bv32>, block: seq<byte>)
    requires |h| == 8 && |block| == 64
    ensures HashBlocks(h, block) == Compress(h, block)
  {
    hide Compress;
    assert block[..0] == [] && block[0..] == block;
  }
}
