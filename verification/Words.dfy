/** Bytes, 32-bit words and the little-endian layouts shared by every other module. */
module Words {

  type byte = bv8

  const TWO_TO_THE_32: int := 0x1_0000_0000

  type u32 = x: int | 0 <= x < 0x1_0000_0000

  /** `u32::wrapping_add`, which is also plain `+` in the release build. */
  function Add32(a: u32, b: u32): (r: u32)
    ensures r == if a + b < 0x1_0000_0000 then a + b else a + b - 0x1_0000_0000
  {
    (a + b) % TWO_TO_THE_32
  }

  /** `u32::wrapping_sub`. */
  function Sub32(a: u32, b: u32): (r: u32)
    ensures r == if b <= a then a - b else a - b + 0x1_0000_0000
  {
    (a - b) % TWO_TO_THE_32
  }

  lemma SliceOfSlice<T>(s: seq<T>, a: nat, b: nat, i: nat, j: nat)
    requires a <= b <= |s| && i <= j <= b - a
    ensures s[a..b][i..j] == s[a + i..a + j]
  {
    var x, y := s[a..b][i..j], s[a + i..a + j];
    assert |x| == |y|;
    forall k | 0 <= k < |x|
      ensures x[k] == y[k]
    {
      assert x[k] == s[a..b][i + k] == s[a + (i + k)];
    }
  }

  // -------------------------------------------------------------------------
  // Bytes as numbers
  // -------------------------------------------------------------------------

  function NatOfByte(b: byte): (n: nat)
    ensures n < 256
  {
    b as nat
  }

  lemma NibbleOfNat(n: nat)
    requires n < 16
    ensures (n as bv4) as nat == n
  {}

  function JoinNibbles(hi: bv4, lo: bv4): byte {
    ((hi as bv8) << 4) | (lo as bv8)
  }

  lemma JoinedNibbles(hi: bv4, lo: bv4)
    ensures NatOfByte(JoinNibbles(hi, lo)) == 16 * (hi as nat) + (lo as nat)
  {}

  function ByteOf(n: nat): (b: byte)
    requires n < 256
    ensures NatOfByte(b) == n
  {
    NibbleOfNat(n / 16);
    NibbleOfNat(n % 16);
    JoinedNibbles((n / 16) as bv4, (n % 16) as bv4);
    JoinNibbles((n / 16) as bv4, (n % 16) as bv4)
  }

  // -------------------------------------------------------------------------
  // Little-endian numbers (addresses and sizes)
  // -------------------------------------------------------------------------

  function LeU16(b: seq<byte>): (n: nat)
    requires |b| == 2
    ensures n < 0x1_0000
  {
    NatOfByte(b[0]) + 0x100 * NatOfByte(b[1])
  }

  function LeU32(b: seq<byte>): u32
    requires |b| == 4
  {
    NatOfByte(b[0]) + 0x100 * NatOfByte(b[1]) + 0x1_0000 * NatOfByte(b[2]) + 0x100_0000 * NatOfByte(b[3])
  }

  function U32Le(n: u32): (b: seq<byte>)
    ensures |b| == 4
  {
    [ByteOf(n % 0x100), ByteOf(n / 0x100 % 0x100), ByteOf(n / 0x1_0000 % 0x100), ByteOf(n / 0x100_0000)]
  }

  lemma DigitsOf(n: u32, d0: nat, d1: nat, d2: nat, d3: nat)
    requires d0 == n % 0x100
    requires d1 == n / 0x100 % 0x100
    requires d2 == n / 0x1_0000 % 0x100
    requires d3 == n / 0x100_0000
    ensures d0 + 0x100 * d1 + 0x1_0000 * d2 + 0x100_0000 * d3 == n
  {
    assert n == 0x100 * (n / 0x100) + d0;
    assert n / 0x100 == 0x100 * (n / 0x1_0000) + d1;
    assert n / 0x1_0000 == 0x100 * d3 + d2;
  }

  lemma LeU32OfU32Le(n: u32)
    ensures LeU32(U32Le(n)) == n
  {
    hide NatOfByte, JoinNibbles;
    var b := U32Le(n);
    DigitsOf(n, NatOfByte(b[0]), NatOfByte(b[1]), NatOfByte(b[2]), NatOfByte(b[3]));
  }

  lemma NatOfByteInjective(a: byte, b: byte)
    requires NatOfByte(a) == NatOfByte(b)
    ensures a == b
  {
    assert (a as nat) as bv8 == a && (b as nat) as bv8 == b;
  }

  lemma DigitsAreUnique(n: u32, d0: nat, d1: nat, d2: nat, d3: nat)
    requires d0 < 256 && d1 < 256 && d2 < 256 && d3 < 256
    requires d0 + 0x100 * d1 + 0x1_0000 * d2 + 0x100_0000 * d3 == n
    ensures d0 == n % 0x100 && d1 == n / 0x100 % 0x100 && d2 == n / 0x1_0000 % 0x100 && d3 == n / 0x100_0000
  {
    assert n / 0x100 == d1 + 0x100 * d2 + 0x1_0000 * d3;
    assert n / 0x1_0000 == d2 + 0x100 * d3;
  }

  lemma U32LeOfLeU32(b: seq<byte>)
    requires |b| == 4
    ensures U32Le(LeU32(b)) == b
  {
    hide NatOfByte, JoinNibbles;
    var r := U32Le(LeU32(b));
    DigitsAreUnique(LeU32(b), NatOfByte(b[0]), NatOfByte(b[1]), NatOfByte(b[2]), NatOfByte(b[3]));
    NatOfByteInjective(r[0], b[0]);
    NatOfByteInjective(r[1], b[1]);
    NatOfByteInjective(r[2], b[2]);
    NatOfByteInjective(r[3], b[3]);
  }

  // -------------------------------------------------------------------------
  // Little-endian words (flash words, CRC fields)
  // -------------------------------------------------------------------------

  function LeWord(b: seq<byte>): bv32
    requires |b| == 4
  {
    b[0] as bv32 | (b[1] as bv32 << 8) | (b[2] as bv32 << 16) | (b[3] as bv32 << 24)
  }

  function WordLe(w: bv32): (b: seq<byte>)
    ensures |b| == 4
  {
    [(w & 0xFF) as bv8, ((w >> 8) & 0xFF) as bv8, ((w >> 16) & 0xFF) as bv8, (w >> 24) as bv8]
  }

  lemma LeWordOfWordLe(w: bv32)
    ensures LeWord(WordLe(w)) == w
  {}

  lemma WordLeOfLeWord(b: seq<byte>)
    requires |b| == 4
    ensures WordLe(LeWord(b)) == b
  {}

  // -------------------------------------------------------------------------
  // The two views agree
  // -------------------------------------------------------------------------

  lemma JoinedBytes(hi: bv8, lo: bv8)
    ensures ((hi as bv16 << 8) | lo as bv16) as nat == 0x100 * (hi as nat) + (lo as nat)
  {}

  lemma JoinedHalves(hi: bv16, lo: bv16)
    ensures ((hi as bv32 << 16) | lo as bv32) as nat == 0x1_0000 * (hi as nat) + (lo as nat)
  {}

  /** Shifting bytes into place is base-256 arithmetic. */
  lemma JoinedWord(b0: bv8, b1: bv8, b2: bv8, b3: bv8)
    ensures ((b3 as bv32 << 24) | (b2 as bv32 << 16) | (b1 as bv32 << 8) | b0 as bv32) as nat
            == 0x100_0000 * (b3 as nat) + 0x1_0000 * (b2 as nat) + 0x100 * (b1 as nat) + (b0 as nat)
  {
    JoinedBytes(b3, b2);
    JoinedBytes(b1, b0);
    JoinedHalves((b3 as bv16 << 8) | b2 as bv16, (b1 as bv16 << 8) | b0 as bv16);
    HalvesOfWord(b0, b1, b2, b3);
  }

  lemma HalvesOfWord(b0: bv8, b1: bv8, b2: bv8, b3: bv8)
    ensures (b3 as bv32 << 24) | (b2 as bv32 << 16) | (b1 as bv32 << 8) | b0 as bv32
            == (((b3 as bv16 << 8) | b2 as bv16) as bv32 << 16) | ((b1 as bv16 << 8) | b0 as bv16) as bv32
  {}

  /** A little-endian word is the little-endian number. */
  lemma LeWordIsLeU32(b: seq<byte>)
    requires |b| == 4
    ensures LeWord(b) as nat == LeU32(b)
  {
    JoinedWord(b[0], b[1], b[2], b[3]);
    OrReversed(b[0] as bv32, b[1] as bv32 << 8, b[2] as bv32 << 16, b[3] as bv32 << 24);
  }

  lemma OrReversed(w0: bv32, w1: bv32, w2: bv32, w3: bv32)
    ensures w0 | w1 | w2 | w3 == w3 | w2 | w1 | w0
  {}
}
