/** The reflected CRC-32 register (polynomial 0xEDB88320) that guards OTA entries and
    signature blocks.  One bit step is linear and invertible; the error detection the
    boot flow relies on follows from those two facts. */
module Crc {
  import opened Words

  const POLYNOMIAL: bv32 := 0xEDB88320
  const ALL_ONES: bv32 := 0xFFFF_FFFF

  /** What the register holds after an accepted block and its own stored CRC. */
  const RESIDUE: bv32 := 0xDEBB20E3

  // -------------------------------------------------------------------------
  // Word operations.  They are named so that proofs can hide their bit-level
  // meaning and reason with one law at a time.
  // -------------------------------------------------------------------------

  predicate Odd(r: bv32) { r & 1 != 0 }

  predicate High(r: bv32) { r & 0x8000_0000 != 0 }

  function Half(r: bv32): bv32 { r >> 1 }

  function Twice(r: bv32): bv32 { r << 1 }

  function Xor(r: bv32, s: bv32): bv32 { r ^ s }

  function Widen(b: byte): bv32 { b as bv32 }

  // -------------------------------------------------------------------------
  // The register
  // -------------------------------------------------------------------------

  function Bit(r: bv32): bv32 {
    if Odd(r) then Xor(Half(r), POLYNOMIAL) else Half(r)
  }

  function Bits(r: bv32, n: nat): bv32
    decreases n
  {
    if n == 0 then r else Bit(Bits(r, n - 1))
  }

  function Absorb(r: bv32, b: byte): bv32 {
    Bits(Xor(r, Widen(b)), 8)
  }

  /** The register after the bytes of `data`, starting from `r`. */
  function Register(r: bv32, data: seq<byte>): bv32
    decreases |data|
  {
    if data == [] then r else Absorb(Register(r, data[..|data| - 1]), data[|data| - 1])
  }

  method Crc32Le(seed: bv32, data: seq<byte>) returns (crc: bv32)
    ensures crc == Register(seed, data)
  {
    hide Odd, Half, Xor, Bit, Widen;
    crc := seed;
    for i := 0 to |data|
      invariant crc == Register(seed, data[..i])
    {
      assert data[..i + 1][..i] == data[..i];
      ghost var fed := Xor(crc, Widen(data[i]));
      crc := StepByte(crc, data[i]);
    }
    assert data[..|data|] == data;
  }

  lemma BitMeaning(r: bv32)
    ensures Bit(r) == if r & 1 != 0 then (r >> 1) ^ 0xEDB88320 else r >> 1
  {}

  lemma AbsorbMeaning(r: bv32, b: byte)
    ensures Absorb(r, b) == Bits(r ^ (b as bv32), 8)
  {
    hide Bits;
  }

  /** The inner loop of `Crc32Le`: one byte, eight shifts. */
  method StepByte(seed: bv32, b: byte) returns (crc: bv32)
    ensures crc == Absorb(seed, b)
  {
    hide Bit, Absorb;
    crc := seed ^ (b as bv32);
    ghost var fed := crc;
    for k := 0 to 8
      invariant crc == Bits(fed, k)
    {
      BitMeaning(crc);
      if crc & 1 != 0 {
        crc := (crc >> 1) ^ 0xEDB88320;
      } else {
        crc := crc >> 1;
      }
    }
    AbsorbMeaning(seed, b);
  }

  /** `crc32_bytes` (and `crc32fast::hash`): all-ones seed, final complement. */
  function Crc32(data: seq<byte>): bv32 {
    Xor(Register(ALL_ONES, data), ALL_ONES)
  }

  method Crc32Bytes(data: seq<byte>) returns (crc: bv32)
    ensures crc == Crc32(data)
  {
    crc := Crc32Le(0xFFFF_FFFF, data);
    crc := crc ^ 0xFFFF_FFFF;
  }

  // -------------------------------------------------------------------------
  // Bit-level laws
  // -------------------------------------------------------------------------

  lemma XorComm(r: bv32, s: bv32)
    ensures Xor(r, s) == Xor(s, r)
  {}

  lemma XorAssoc(r: bv32, s: bv32, t: bv32)
    ensures Xor(Xor(r, s), t) == Xor(r, Xor(s, t))
  {}

  lemma XorCancel(r: bv32, s: bv32)
    ensures Xor(Xor(r, s), s) == r
  {}

  lemma XorBits(r: bv32, s: bv32)
    ensures Odd(Xor(r, s)) <==> Odd(r) != Odd(s)
    ensures Half(Xor(r, s)) == Xor(Half(r), Half(s))
  {}

  /** Shifting right clears the top bit, and the set top bit of the polynomial replaces it. */
  lemma HalfBits(r: bv32)
    ensures !High(Half(r))
    ensures High(Xor(Half(r), POLYNOMIAL))
    ensures !Odd(r) ==> Twice(Half(r)) == r
    ensures Odd(r) ==> Xor(Twice(Half(r)), 1) == r
  {}

  lemma TwiceBits(r: bv32)
    ensures !Odd(Twice(r))
    ensures Odd(Xor(Twice(r), 1))
  {}

  lemma HalfTwice(r: bv32)
    requires !High(r)
    ensures Half(Twice(r)) == r
    ensures Half(Xor(Twice(r), 1)) == r
  {}

  lemma PolynomialClearsHigh(r: bv32)
    requires High(r)
    ensures !High(Xor(r, POLYNOMIAL))
  {}

  // -------------------------------------------------------------------------
  // Undoing steps
  // -------------------------------------------------------------------------

  function Unbit(s: bv32): bv32 {
    if High(s) then Xor(Twice(Xor(s, POLYNOMIAL)), 1) else Twice(s)
  }

  lemma BitUndone(r: bv32)
    ensures Unbit(Bit(r)) == r
  {
    hide Odd, High, Half, Twice, Xor;
    HalfBits(r);
    XorCancel(Half(r), POLYNOMIAL);
  }

  lemma UnbitRedone(s: bv32)
    ensures Bit(Unbit(s)) == s
  {
    hide Odd, High, Half, Twice, Xor;
    if High(s) {
      var t := Xor(s, POLYNOMIAL);
      PolynomialClearsHigh(s);
      TwiceBits(t);
      HalfTwice(t);
      XorCancel(s, POLYNOMIAL);
    } else {
      TwiceBits(s);
      HalfTwice(s);
    }
  }

  function Unbits(r: bv32, n: nat): bv32
    decreases n
  {
    if n == 0 then r else Unbits(Unbit(r), n - 1)
  }

  lemma {:induction false} BitsUndone(r: bv32, n: nat)
    ensures Unbits(Bits(r, n), n) == r
    decreases n
  {
    hide Bit, Unbit;
    if n > 0 {
      BitUndone(Bits(r, n - 1));
      BitsUndone(r, n - 1);
    }
  }

  lemma {:induction false} UnbitsRedone(r: bv32, n: nat)
    ensures Bits(Unbits(r, n), n) == r
    decreases n
  {
    hide Bit, Unbit;
    if n > 0 {
      UnbitsRedone(Unbit(r), n - 1);
      UnbitRedone(r);
    }
  }

  // -------------------------------------------------------------------------
  // Linearity
  // -------------------------------------------------------------------------

  lemma BitLinear(r: bv32, s: bv32)
    ensures Bit(Xor(r, s)) == Xor(Bit(r), Bit(s))
  {
    hide Odd, High, Half, Twice, Xor;
    XorBits(r, s);
    var a, b, p := Half(r), Half(s), POLYNOMIAL;
    XorAssoc(a, b, p);
    XorAssoc(a, p, b);
    XorComm(b, p);
    XorAssoc(Xor(a, p), b, p);
    XorCancel(a, p);
    XorAssoc(a, p, Xor(b, p));
    XorComm(p, Xor(b, p));
    XorCancel(b, p);
  }

  lemma {:induction false} BitsLinear(r: bv32, s: bv32, n: nat)
    ensures Bits(Xor(r, s), n) == Xor(Bits(r, n), Bits(s, n))
    decreases n
  {
    hide Bit, Xor;
    if n > 0 {
      BitsLinear(r, s, n - 1);
      BitLinear(Bits(r, n - 1), Bits(s, n - 1));
    }
  }

  lemma {:induction false} BitsCompose(r: bv32, m: nat, n: nat)
    ensures Bits(Bits(r, m), n) == Bits(r, m + n)
    decreases n
  {
    hide Bit;
    if n > 0 {
      BitsCompose(r, m, n - 1);
    }
  }

  // -------------------------------------------------------------------------
  // Four bytes at a time
  // -------------------------------------------------------------------------

  predicate TopByteClear(w: bv32) { w & 0xFF00_0000 == 0 }

  /** `w` moved up by `n` bits. */
  function Park(w: bv32, n: bv6): bv32
    requires n <= 8
  {
    w << n
  }

  lemma ParkStep(w: bv32, n: bv6)
    requires TopByteClear(w)
    requires 0 < n <= 8
    ensures !Odd(Park(w, n))
    ensures Half(Park(w, n)) == Park(w, n - 1)
  {}

  lemma ParkNothing(w: bv32)
    ensures Park(w, 0) == w
  {}

  /** Eight steps move a word down by one byte when nothing falls off the end. */
  lemma Unpark(w: bv32)
    requires TopByteClear(w)
    ensures Bits(Park(w, 8), 8) == w
  {
    hide Odd, Half, Park, TopByteClear, Xor;
    ParkStep(w, 8);
    assert Bits(Park(w, 8), 1) == Park(w, 7);
    ParkStep(w, 7);
    assert Bits(Park(w, 8), 2) == Park(w, 6);
    ParkStep(w, 6);
    assert Bits(Park(w, 8), 3) == Park(w, 5);
    ParkStep(w, 5);
    assert Bits(Park(w, 8), 4) == Park(w, 4);
    ParkStep(w, 4);
    assert Bits(Park(w, 8), 5) == Park(w, 3);
    ParkStep(w, 3);
    assert Bits(Park(w, 8), 6) == Park(w, 2);
    ParkStep(w, 2);
    assert Bits(Park(w, 8), 7) == Park(w, 1);
    ParkStep(w, 1);
    ParkNothing(w);
  }

  lemma TopBytes(b: byte)
    ensures TopByteClear(Widen(b))
    ensures TopByteClear(Park(Widen(b), 8))
    ensures TopByteClear(Park(Park(Widen(b), 8), 8))
  {}

  /** Absorbing after `n` steps is the same as adding a suitably parked byte beforehand. */
  lemma AbsorbLate(x: bv32, p: bv32, n: nat, b: byte)
    requires Bits(p, n) == Widen(b)
    ensures Absorb(Bits(x, n), b) == Bits(Xor(x, p), n + 8)
  {
    hide Bits, Xor, Widen;
    BitsLinear(x, p, n);
    BitsCompose(Xor(x, p), n, 8);
  }

  lemma WordIsParkedSum(b: seq<byte>)
    requires |b| == 4
    ensures Xor(Xor(Xor(Widen(b[0]), Park(Widen(b[1]), 8)), Park(Park(Widen(b[2]), 8), 8)),
                Park(Park(Park(Widen(b[3]), 8), 8), 8))
            == LeWord(b)
  {}

  lemma ParkedSum(r: bv32, w0: bv32, p1: bv32, p2: bv32, p3: bv32)
    ensures Xor(Xor(Xor(Xor(r, w0), p1), p2), p3) == Xor(r, Xor(Xor(Xor(w0, p1), p2), p3))
  {
    hide *;
    XorAssoc(r, w0, p1);
    XorAssoc(r, Xor(w0, p1), p2);
    XorAssoc(r, Xor(Xor(w0, p1), p2), p3);
  }

  /** Absorbing four bytes is adding the little-endian word they spell and stepping 32 times. */
  lemma RegisterOfWord(r: bv32, b: seq<byte>)
    requires |b| == 4
    ensures Register(r, b) == Bits(Xor(r, LeWord(b)), 32)
  {
    hide *;
    var p1 := Park(Widen(b[1]), 8);
    var p2 := Park(Park(Widen(b[2]), 8), 8);
    var p3 := Park(Park(Park(Widen(b[3]), 8), 8), 8);
    FourAbsorbs(r, b);
    WordIsParkedSum(b);
    ParkedSum(r, Widen(b[0]), p1, p2, p3);
    AbsorbFirst(r, b[0]);
    UnparkOne(b[1]);
    AbsorbLate(Xor(r, Widen(b[0])), p1, 8, b[1]);
    UnparkTwo(b[2]);
    AbsorbLate(Xor(Xor(r, Widen(b[0])), p1), p2, 16, b[2]);
    UnparkThree(b[3]);
    AbsorbLate(Xor(Xor(Xor(r, Widen(b[0])), p1), p2), p3, 24, b[3]);
  }

  lemma AbsorbFirst(r: bv32, b: byte)
    ensures Absorb(r, b) == Bits(Xor(r, Widen(b)), 8)
  {}

  lemma FourAbsorbs(r: bv32, b: seq<byte>)
    requires |b| == 4
    ensures Register(r, b) == Absorb(Absorb(Absorb(Absorb(r, b[0]), b[1]), b[2]), b[3])
  {
    hide Absorb;
    assert b[..3][..2] == b[..2] && b[..2][..1] == b[..1] && b[..1][..0] == [];
    assert Register(r, b[..1]) == Absorb(r, b[0]);
    assert Register(r, b[..2]) == Absorb(Absorb(r, b[0]), b[1]);
    assert Register(r, b[..3]) == Absorb(Absorb(Absorb(r, b[0]), b[1]), b[2]);
  }

  lemma UnparkOne(b: byte)
    ensures Bits(Park(Widen(b), 8), 8) == Widen(b)
  {
    hide *;
    TopBytes(b);
    Unpark(Widen(b));
  }

  lemma UnparkTwo(b: byte)
    ensures Bits(Park(Park(Widen(b), 8), 8), 16) == Widen(b)
  {
    hide *;
    TopBytes(b);
    Unpark(Park(Widen(b), 8));
    UnparkOne(b);
    BitsCompose(Park(Park(Widen(b), 8), 8), 8, 8);
  }

  lemma UnparkThree(b: byte)
    ensures Bits(Park(Park(Park(Widen(b), 8), 8), 8), 24) == Widen(b)
  {
    hide *;
    TopBytes(b);
    Unpark(Park(Park(Widen(b), 8), 8));
    UnparkTwo(b);
    BitsCompose(Park(Park(Park(Widen(b), 8), 8), 8), 8, 16);
  }

  // -------------------------------------------------------------------------
  // Error detection
  // -------------------------------------------------------------------------

  lemma {:induction false} RegisterConcat(r: bv32, a: seq<byte>, b: seq<byte>)
    ensures Register(r, a + b) == Register(Register(r, a), b)
    decreases |b|
  {
    hide Absorb;
    if b == [] {
      assert a + b == a;
    } else {
      var b' := b[..|b| - 1];
      assert (a + b)[..|a + b| - 1] == a + b';
      RegisterConcat(r, a, b');
    }
  }

  /** A register value fixes the value before any common bytes: nothing is forgotten. */
  lemma {:induction false} RegisterInjective(r: bv32, s: bv32, data: seq<byte>)
    requires Register(r, data) == Register(s, data)
    ensures r == s
    decreases |data|
  {
    hide Absorb;
    if data != [] {
      var d, b := data[..|data| - 1], data[|data| - 1];
      AbsorbInjective(Register(r, d), Register(s, d), b);
      RegisterInjective(r, s, d);
    }
  }

  lemma AbsorbInjective(r: bv32, s: bv32, b: byte)
    requires Absorb(r, b) == Absorb(s, b)
    ensures r == s
  {
    hide Bits, Xor, Widen;
    BitsUndone(Xor(r, Widen(b)), 8);
    BitsUndone(Xor(s, Widen(b)), 8);
    XorCancel(r, Widen(b));
    XorCancel(s, Widen(b));
  }

  /** Different four-byte words lead any one register value to different values. */
  lemma WordInjective(r: bv32, a: seq<byte>, b: seq<byte>)
    requires |a| == |b| == 4
    requires Register(r, a) == Register(r, b)
    ensures a == b
  {
    hide *;
    RegisterOfWord(r, a);
    RegisterOfWord(r, b);
    BitsUndone(Xor(r, LeWord(a)), 32);
    BitsUndone(Xor(r, LeWord(b)), 32);
    XorComm(r, LeWord(a));
    XorComm(r, LeWord(b));
    XorCancel(LeWord(a), r);
    XorCancel(LeWord(b), r);
    WordLeOfLeWord(a);
    WordLeOfLeWord(b);
  }

  lemma ShortInjective(r: bv32, a: seq<byte>, b: seq<byte>)
    requires |a| == |b| <= 4
    requires Register(r, a) == Register(r, b)
    ensures a == b
  {
    hide *;
    var fill := seq(4 - |a|, i => 0 as byte);
    RegisterConcat(r, a, fill);
    RegisterConcat(r, b, fill);
    WordInjective(r, a + fill, b + fill);
    assert a == (a + fill)[..|a|] && b == (b + fill)[..|b|];
  }

  /** `a` and `b` agree outside the window of at most four bytes at `p`. */
  predicate DifferWithinBurst(a: seq<byte>, b: seq<byte>, p: nat) {
    && |a| == |b|
    && p <= |a|
    && forall i | 0 <= i < |a| :: a[i] == b[i] || p <= i < p + 4
  }

  /** Every change confined to four consecutive bytes changes the register, whatever the
      length of the message, the seed and the place of the change. */
  lemma BurstDetected(seed: bv32, a: seq<byte>, b: seq<byte>, p: nat)
    requires DifferWithinBurst(a, b, p)
    ensures Register(seed, a) == Register(seed, b) <==> a == b
  {
    hide Register;
    var q := if p + 4 <= |a| then p + 4 else |a|;
    assert a[..p] == b[..p] && a[q..] == b[q..];
    assert a == a[..p] + a[p..q] + a[q..] && b == b[..p] + b[p..q] + b[q..];
    RegisterConcat(seed, a[..p] + a[p..q], a[q..]);
    RegisterConcat(seed, b[..p] + b[p..q], b[q..]);
    RegisterConcat(seed, a[..p], a[p..q]);
    RegisterConcat(seed, b[..p], b[p..q]);
    if Register(seed, a) == Register(seed, b) {
      RegisterInjective(Register(seed, a[..q]), Register(seed, b[..q]), a[q..]) by {
        assert a[..q] == a[..p] + a[p..q] && b[..q] == b[..p] + b[p..q];
      }
      assert a[..q] == a[..p] + a[p..q] && b[..q] == b[..p] + b[p..q];
      ShortInjective(Register(seed, a[..p]), a[p..q], b[p..q]);
    }
  }

  lemma ResidueValue()
    ensures Bits(ALL_ONES, 32) == RESIDUE
  {
    assert Bits(0xFFFF_FFFF, 8) == 0x2DFD_1072;
    assert Bits(0x2DFD_1072, 8) == 0xBE26_ED00;
    assert Bits(0xBE26_ED00, 8) == 0x00BE_26ED;
    assert Bits(0x00BE_26ED, 8) == 0xDEBB_20E3;
    BitsCompose(ALL_ONES, 8, 8);
    BitsCompose(ALL_ONES, 16, 8);
    BitsCompose(ALL_ONES, 24, 8);
  }

  /** A message followed by a stored CRC passes the check exactly when the register run over
      both ends in `RESIDUE`. */
  lemma ResidueCharacterisesCheck(data: seq<byte>, stored: seq<byte>)
    requires |stored| == 4
    ensures LeWord(stored) == Crc32(data) <==> Register(ALL_ONES, data + stored) == RESIDUE
  {
    hide *;
    var r, w := Register(ALL_ONES, data), LeWord(stored);
    CrcMeaning(data);
    RegisterConcat(ALL_ONES, data, stored);
    RegisterOfWord(r, stored);
    ResidueValue();
    XorComm(r, ALL_ONES);
    XorCancel(ALL_ONES, r);
    XorComm(r, w);
    XorCancel(w, r);
    if Register(ALL_ONES, data + stored) == RESIDUE {
      BitsUndone(Xor(r, w), 32);
      BitsUndone(ALL_ONES, 32);
    }
  }

  lemma CrcMeaning(data: seq<byte>)
    ensures Crc32(data) == Xor(Register(ALL_ONES, data), ALL_ONES)
  {}

  // -------------------------------------------------------------------------
  // The published check value
  // -------------------------------------------------------------------------

  /** The digits "123456789". */
  const DIGITS: seq<byte> := [0x31, 0x32, 0x33, 0x34, 0x35, 0x36, 0x37, 0x38, 0x39]

  lemma CheckStep(data: seq<byte>, n: nat, r: bv32)
    requires n < |data| && Register(ALL_ONES, data[..n]) == r
    ensures Register(ALL_ONES, data[..n + 1]) == Absorb(r, data[n])
  {
    hide Absorb;
    assert data[..n + 1][..n] == data[..n];
  }

  lemma CheckValues_0()
    ensures Absorb(0xFFFF_FFFF, 0x31) == 0x7C23_1048
    ensures Absorb(0x7C23_1048, 0x32) == 0xB0AC_BB32
    ensures Absorb(0xB0AC_BB32, 0x33) == 0x77B7_9C2D
  {}

  lemma CheckValues_1()
    ensures Absorb(0x77B7_9C2D, 0x34) == 0x641C_1F5C
    ensures Absorb(0x641C_1F5C, 0x35) == 0x340A_C5E3
    ensures Absorb(0x340A_C5E3, 0x36) == 0xF68D_2C9E
  {}

  lemma CheckValues_2()
    ensures Absorb(0xF68D_2C9E, 0x37) == 0xAFFC_9660
    ensures Absorb(0xAFFC_9660, 0x38) == 0x651F_2550
    ensures Absorb(0x651F_2550, 0x39) == 0x340B_C6D9
  {}

  /** The CRC-32 of the nine digits is the value by which implementations are told apart. */
  lemma CheckValue(data: seq<byte>)
    requires data == DIGITS
    ensures Crc32(data) == 0xCBF4_3926
  {
    hide Register, Absorb;
    CheckValues_0();
    CheckValues_1();
    CheckValues_2();
    assert data[..0] == [] && data[..9] == data;
    NoData();
    CheckStep(data, 0, 0xFFFF_FFFF);
    CheckStep(data, 1, 0x7C23_1048);
    CheckStep(data, 2, 0xB0AC_BB32);
    CheckStep(data, 3, 0x77B7_9C2D);
    CheckStep(data, 4, 0x641C_1F5C);
    CheckStep(data, 5, 0x340A_C5E3);
    CheckStep(data, 6, 0xF68D_2C9E);
    CheckStep(data, 7, 0xAFFC_9660);
    CheckStep(data, 8, 0x651F_2550);
    Complement();
  }

  lemma NoData()
    ensures Register(0xFFFF_FFFF, []) == 0xFFFF_FFFF
  {}

  lemma Complement()
    ensures (0x340B_C6D9 as bv32) ^ 0xFFFF_FFFF == 0xCBF4_3926
  {}

  lemma OneValues()
    ensures Absorb(0xFFFF_FFFF, 0x01) == 0x5AFA_20E4
    ensures Absorb(0x5AFA_20E4, 0x00) == 0xA73D_DC41
    ensures Absorb(0xA73D_DC41, 0x00) == 0x017C_4CDA
    ensures Absorb(0x017C_4CDA, 0x00) == 0x6607_4786
  {}

  /** The register over the bytes of the sequence number 1. */
  lemma OneValue(data: seq<byte>)
    requires data == [1, 0, 0, 0]
    ensures Register(0xFFFF_FFFF, data) == 0x6607_4786
  {
    hide Register, Absorb;
    OneValues();
    assert data[..0] == [] && data[..4] == data;
    NoData();
    CheckStep(data, 0, 0xFFFF_FFFF);
    CheckStep(data, 1, 0x5AFA_20E4);
    CheckStep(data, 2, 0xA73D_DC41);
    CheckStep(data, 3, 0x017C_4CDA);
  }
}
