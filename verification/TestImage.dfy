/** The image builder of the demo, and the round trip through the loader. */
module TestImage {
  import opened Words
  import opened Wrappers
  import opened FlashDriver
  import opened ImageFormat
  import opened ImageLoad

  const LOAD_ADDR: u32 := 0x4038_0000

  /** Magic, one segment, DOUT, 4 MB at 20 MHz, entry, no pin assignments, chip 5, any revision up to
      0xFFFF, no appended hash. */
  const HEADER: seq<byte> := [
    0xE9, 0x01, 0x03, 0x22,
    0x00, 0x00, 0x38, 0x40,
    0xEE, 0x00, 0x00, 0x00,
    0x05, 0x00, 0x00, 0x00,
    0x00, 0xFF, 0xFF, 0x00,
    0x00, 0x00, 0x00, 0x00]

  function Zeros(n: nat): (z: seq<byte>)
    ensures |z| == n
  {
    seq(n, _ => 0)
  }

  /** Header and segment, before padding. */
  function Unpadded(payload: seq<byte>): (b: seq<byte>)
    requires |payload| < TWO_TO_THE_32
    ensures |b| == HEADER_SIZE + SEGMENT_HEADER_SIZE + |payload|
  {
    HEADER + (U32Le(LOAD_ADDR) + U32Le(|payload|)) + payload
  }

  function Built(payload: seq<byte>): seq<byte>
    requires |payload| < TWO_TO_THE_32
  {
    var b := Unpadded(payload);
    b + Zeros(PadLen(|b|)) + [XorAll(CHECKSUM_SEED, payload)]
  }

  /** `build_esp_image` */
  method BuildEspImage(payload: seq<byte>) returns (image: seq<byte>)
    requires |payload| < TWO_TO_THE_32
    ensures image == Built(payload)
    ensures |image| % 16 == 0
  {
    hide U32Le, XorByte;
    var header := HEADER;
    var segHeader := U32Le(LOAD_ADDR) + U32Le(|payload|);
    var checksum: byte := CHECKSUM_SEED;
    for i := 0 to |payload|
      invariant checksum == XorAll(CHECKSUM_SEED, payload[..i])
    {
      assert payload[..i + 1][..i] == payload[..i];
      checksum := XorByte(checksum, payload[i]);
    }
    assert payload[..|payload|] == payload;
    image := header + segHeader + payload;
    ghost var pad := 0;
    while |image| % 16 != 15
      invariant pad <= PadLen(|Unpadded(payload)|)
      invariant image == Unpadded(payload) + Zeros(pad)
      decreases PadLen(|Unpadded(payload)|) - pad
    {
      PaddingGoesOn(|Unpadded(payload)|, pad);
      image := image + [0];
      pad := pad + 1;
      assert Zeros(pad) == Zeros(pad - 1) + [0];
    }
    PaddingEnds(|Unpadded(payload)|, pad);
    image := image + [checksum];
  }

  lemma PaddingGoesOn(n: nat, pad: nat)
    requires pad <= PadLen(n) && (n + pad) % 16 != 15
    ensures pad < PadLen(n)
  {}

  /** The builder's loop stops where the loader looks for the checksum. */
  lemma PaddingEnds(n: nat, pad: nat)
    requires pad <= PadLen(n) && (n + pad) % 16 == 15
    ensures pad == PadLen(n)
  {
    assert n % 16 + pad <= 15;
    assert (n + pad) % 16 == n % 16 + pad;
  }

  // -------------------------------------------------------------------------
  // The round trip
  // -------------------------------------------------------------------------

  function BuiltSegment(payload: seq<byte>): Segment {
    Segment(LOAD_ADDR, payload)
  }

  function BuiltImage(payload: seq<byte>): Image
    requires |payload| < TWO_TO_THE_32
  {
    Image(HEADER, [BuiltSegment(payload)], Zeros(PadLen(|Unpadded(payload)|)), XorAll(CHECKSUM_SEED, payload), [])
  }

  lemma HeaderReads()
    ensures |HEADER| == HEADER_SIZE
    ensures Magic(HEADER) == HEADER_MAGIC && SegmentCount(HEADER) == 1 && !HashAppended(HEADER)
    ensures ChipId(HEADER) == CHIP_ID && MinChipRevFull(HEADER) == 0 && MaxChipRevFull(HEADER) == 65535
  {
    hide NatOfByte;
    SmallBytes();
    assert HEADER[12..14] == [0x05, 0x00] && HEADER[15..17] == [0x00, 0x00] && HEADER[17..19] == [0xFF, 0xFF];
  }

  lemma SmallBytes()
    ensures NatOfByte(0x00) == 0 && NatOfByte(0x01) == 1 && NatOfByte(0x05) == 5 && NatOfByte(0xFF) == 255
  {}

  lemma HeaderIsFine(env: Env)
    ensures |HEADER| == HEADER_SIZE && HeaderOk(HEADER, env)
  {
    hide HashAppended, SegmentCount, ChipId, MinChipRevFull, MaxChipRevFull, Magic;
    HeaderReads();
  }

  lemma OneSegment(s: Segment)
    requires |s.data| <= MAX_SEGMENT_DATA
    ensures SmallSegments([s]) && PrintSegments([s]) == PrintSegment(s) && Payload([s]) == s.data
    ensures |PrintSegments([s])| == SEGMENT_HEADER_SIZE + |s.data|
  {
    assert [s][..0] == [];
    assert PrintSegments([]) + PrintSegment(s) == PrintSegment(s);
    assert Payload([]) + s.data == s.data;
  }

  lemma BuiltIsPrinted(payload: seq<byte>)
    requires |payload| <= MAX_SEGMENT_DATA
    ensures SmallSegments(BuiltImage(payload).segments) && Built(payload) == Print(BuiltImage(payload))
  {
    hide U32Le, XorAll;
    OneSegment(BuiltSegment(payload));
    var s := PrintSegment(BuiltSegment(payload));
    assert s == U32Le(LOAD_ADDR) + U32Le(|payload|) + payload;
    assert Unpadded(payload) == HEADER + s;
    var tail := [XorAll(CHECKSUM_SEED, payload)];
    assert tail + [] == tail;
  }

  /** The bootloader's memory as `linker.ld` places it. */
  predicate LinkerLayout(env: Env) {
    && 0x403C_E000 <= env.stext <= env.etext <= 0x403D_6000
    && 0x3FC8_0000 <= env.dataStart <= env.bssEnd <= 0x3FC8_8000
  }

  lemma BuiltIsShaped(payload: seq<byte>, at: nat, env: Env)
    requires |payload| <= MAX_SEGMENT_DATA && 0 < at && at % 16 == 0
    ensures Shaped(BuiltImage(payload), at, env, true)
  {
    hide XorAll, Unpadded, PrintSegments, HeaderOk, HashAppended, SegmentCount;
    HeaderReads();
    HeaderIsFine(env);
    OneSegment(BuiltSegment(payload));
    SamePad(at, HEADER_SIZE + SEGMENT_HEADER_SIZE + |payload|);
  }

  lemma SamePad(at: nat, n: nat)
    requires at % 16 == 0
    ensures PadLen(at + n) == PadLen(n)
  {
    assert at == 16 * (at / 16);
  }

  lemma BuiltIsAcceptable(payload: seq<byte>, env: Env, load: bool, avail: bool)
    requires |payload| <= MAX_SEGMENT_DATA && LinkerLayout(env)
    ensures Acceptable(BuiltImage(payload), env, true, load, avail)
  {
    hide XorAll, PrintSegments, Payload, HashAppended, Unpadded, Admissible;
    HeaderReads();
    OneSegment(BuiltSegment(payload));
    LoadsBelowBootloader(payload, env);
  }

  lemma LoadsBelowBootloader(payload: seq<byte>, env: Env)
    requires |payload| <= MAX_SEGMENT_DATA && LinkerLayout(env)
    ensures Admissible(BuiltSegment(payload), env)
  {}

  lemma TooLongIsRefused(mem: seq<byte>, at: nat, payload: seq<byte>, env: Env)
    requires MAX_SEGMENT_DATA < |payload| < TWO_TO_THE_32 && LiesAt(mem, at, Built(payload))
    ensures Decode(mem, at, env, true) == None
  {
    hide LeU32, U32Le, XorAll, HeaderOk, HashAppended;
    var lengths := U32Le(LOAD_ADDR) + U32Le(|payload|);
    LiesAtConcat(mem, at, Unpadded(payload) + Zeros(PadLen(|Unpadded(payload)|)), [XorAll(CHECKSUM_SEED, payload)]);
    LiesAtConcat(mem, at, Unpadded(payload), Zeros(PadLen(|Unpadded(payload)|)));
    LiesAtConcat(mem, at, HEADER + lengths, payload);
    LiesAtConcat(mem, at, HEADER, lengths);
    LiesAtConcat(mem, at + HEADER_SIZE, U32Le(LOAD_ADDR), U32Le(|payload|));
    LeU32OfU32Le(|payload|);
    HeaderReads();
    NoneParsed(mem, at + HEADER_SIZE);
  }

  lemma NoneParsed(mem: seq<byte>, a: nat)
    requires ParseSegment(mem, a) == None
    ensures ParseSegments(mem, a, 1) == None
  {
    hide ParseSegment;
    NoSegments(mem, a);
  }

  /** What the builder prints, the loader accepts, exactly when one segment may hold the payload; it
      then decodes to the very image that was built. */
  lemma BuildThenLoad(mem: seq<byte>, at: nat, payload: seq<byte>, env: Env, load: bool, avail: bool)
    requires |payload| < TWO_TO_THE_32 && 0 < at && at % 16 == 0 && LinkerLayout(env)
    requires LiesAt(mem, at, Built(payload))
    ensures AcceptedImage(mem, at, env, true, load, avail)
            == if |payload| <= MAX_SEGMENT_DATA then Some(BuiltImage(payload)) else None
  {
    hide Built, BuiltImage, Decode, Print, Shaped, Acceptable;
    if |payload| <= MAX_SEGMENT_DATA {
      BuiltIsPrinted(payload);
      BuiltIsShaped(payload, at, env);
      BuiltIsAcceptable(payload, env, load, avail);
      AcceptedIffPrinted(mem, at, env, true, load, avail, BuiltImage(payload));
    } else {
      TooLongIsRefused(mem, at, payload, env);
    }
  }

  /** After the load, RAM from the load address on is the payload. */
  lemma LoadedPayload(payload: seq<byte>, cells: map<nat, byte>, i: nat)
    requires |payload| <= MAX_SEGMENT_DATA && i < |payload|
    ensures var after := AfterSegments(cells, BuiltImage(payload).segments);
            LOAD_ADDR + i in after && after[LOAD_ADDR + i] == payload[i]
  {
    hide XorAll, Unpadded;
    var s := BuiltSegment(payload);
    assert [s][..0] == [];
    assert AfterSegments(cells, []) == cells;
    assert ShouldLoad(LOAD_ADDR);
  }

  // -------------------------------------------------------------------------
  // The built image by its numbers
  // -------------------------------------------------------------------------

  /** The header is the packed fields of the build script. */
  lemma HeaderIsPacked()
    ensures HEADER == PackedHeader(0xE9, 1, 3, 0x22, 0x4038_0000, 0xEE, [0, 0, 0], [5, 0], 0, [0, 0], [0xFF, 0xFF], 0, [0, 0, 0, 0])
  {
    hide U32Le;
    LoadAddrBytes();
  }

  lemma LoadAddrBytes()
    ensures U32Le(0x4038_0000) == [0x00, 0x00, 0x38, 0x40]
  {
    hide ByteOf;
    AddrNumbers();
    var b := U32Le(0x4038_0000);
    NatOfByteInjective(b[0], 0x00);
    NatOfByteInjective(b[1], 0x00);
    NatOfByteInjective(b[2], 0x38);
    NatOfByteInjective(b[3], 0x40);
  }

  lemma AddrNumbers()
    ensures NatOfByte(0x00) == 0 && NatOfByte(0x38) == 0x38 && NatOfByte(0x40) == 0x40
    ensures NatOfByte(ByteOf(0)) == 0 && NatOfByte(ByteOf(0x38)) == 0x38 && NatOfByte(ByteOf(0x40)) == 0x40
  {}

  /** A built image is entered at its load address. */
  lemma BuiltEntry()
    ensures |HEADER| == 24 && EntryAddr(HEADER) == 0x4038_0000
  {
    HeaderIsPacked();
    FieldsOfPacked(0xE9, 1, 3, 0x22, 0x4038_0000, 0xEE, [0, 0, 0], [5, 0], 0, [0, 0], [0xFF, 0xFF], 0, [0, 0, 0, 0]);
  }

  /** Without payload the checksum byte, the last of 48, is 0xEF. */
  lemma EmptyChecksum()
    ensures |Built([])| == 48 && Built([])[47] == 0xEF
  {
    hide U32Le;
    NoBytesXor(CHECKSUM_SEED);
  }

  /** In general the last byte of a built image is the running exclusive or from 0xEF: one more payload
      byte `b` makes it what it was, with the bits of `b` flipped. */
  lemma LastByte(payload: seq<byte>, b: byte)
    requires |payload| + 1 < TWO_TO_THE_32
    ensures var x, y := Built(payload), Built(payload + [b]);
            x != [] && y != [] && y[|y| - 1] == x[|x| - 1] ^ b
  {
    hide Unpadded, PadLen;
    assert (payload + [b])[..|payload|] == payload;
  }

  /** Where, under the linker's layout, a segment that is copied to RAM may go: clear of the running
      code and data, and at least 32 KB away from the ROM's stack start at 0x3FCE2000. */
  lemma AdmissibleIff(s: Segment, env: Env)
    requires LinkerLayout(env) && |s.data| <= MAX_SEGMENT_DATA && ShouldLoad(s.loadAddr)
    ensures Admissible(s, env)
            <==> && (s.loadAddr >= env.etext || s.loadAddr + |s.data| <= env.stext)
                 && (s.loadAddr >= env.bssEnd || s.loadAddr + |s.data| <= env.dataStart)
                 && (s.loadAddr <= 0x3FCD_A000 || s.loadAddr >= 0x3FCE_A000)
  {}
}
