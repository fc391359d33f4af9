/** The application image: its printed form, its decoder, and when a decoded image is acceptable.
    `ImageLoad` proves the loader against these definitions. */
module ImageFormat {
  import opened Words
  import opened Wrappers
  import F = Fips180

  const HEADER_SIZE: nat := 24
  const SEGMENT_HEADER_SIZE: nat := 8
  const HASH_LEN: nat := 32
  const MAX_SEGMENTS: nat := 16
  const MAX_SEGMENT_DATA: nat := 4093
  const HEADER_MAGIC: byte := 0xE9
  const CHIP_ID: nat := 5
  const CHECKSUM_SEED: byte := 0xEF

  // -------------------------------------------------------------------------
  // Fixed facts of a run: fuses and the bootloader's own memory
  // -------------------------------------------------------------------------

  datatype Env = Env(
    chipRevision: nat,
    wafMajorDisabled: bool,
    secureVersion: nat,
    stext: u32, etext: u32,
    dataStart: u32, bssEnd: u32)

  // -------------------------------------------------------------------------
  // The header: a packed view of its 24 bytes
  // -------------------------------------------------------------------------

  type HeaderBytes = b: seq<byte> | |b| == 24 witness seq(24, i => 0)

  function Magic(h: HeaderBytes): byte { h[0] }
  function SegmentCount(h: HeaderBytes): nat { NatOfByte(h[1]) }
  function EntryAddr(h: HeaderBytes): u32 { LeU32(h[4..8]) }
  function ChipId(h: HeaderBytes): nat { LeU16(h[12..14]) }
  function MinChipRevFull(h: HeaderBytes): nat { LeU16(h[15..17]) }
  function MaxChipRevFull(h: HeaderBytes): nat { LeU16(h[17..19]) }
  function HashAppended(h: HeaderBytes): bool { h[19] != 0 }

  /** The header as its fields stand in flash: magic, segment count, SPI mode, SPI speed and size,
      entry address, write-protect pin, pin drive, chip id, legacy revision, least and greatest chip
      revision, hash flag, reserved. */
  function PackedHeader(magic: byte, count: byte, mode: byte, speedSize: byte, entry: u32, wpPin: byte, drive: seq<byte>,
                        chip: seq<byte>, legacy: byte, minRev: seq<byte>, maxRev: seq<byte>, hash: byte, reserved: seq<byte>): (h: HeaderBytes)
    requires |drive| == 3 && |chip| == 2 && |minRev| == 2 && |maxRev| == 2 && |reserved| == 4
  {
    [magic, count, mode, speedSize] + U32Le(entry) + [wpPin] + drive + chip + [legacy] + minRev + maxRev + [hash] + reserved
  }

  /** Every accessor reads its own field; two-byte fields are little-endian. */
  lemma FieldsOfPacked(magic: byte, count: byte, mode: byte, speedSize: byte, entry: u32, wpPin: byte, drive: seq<byte>,
                       chip: seq<byte>, legacy: byte, minRev: seq<byte>, maxRev: seq<byte>, hash: byte, reserved: seq<byte>)
    requires |drive| == 3 && |chip| == 2 && |minRev| == 2 && |maxRev| == 2 && |reserved| == 4
    ensures var h := PackedHeader(magic, count, mode, speedSize, entry, wpPin, drive, chip, legacy, minRev, maxRev, hash, reserved);
            && Magic(h) == magic && SegmentCount(h) == count as nat && EntryAddr(h) == entry
            && ChipId(h) == chip[0] as nat + 0x100 * (chip[1] as nat)
            && MinChipRevFull(h) == minRev[0] as nat + 0x100 * (minRev[1] as nat)
            && MaxChipRevFull(h) == maxRev[0] as nat + 0x100 * (maxRev[1] as nat)
            && (HashAppended(h) <==> hash != 0)
  {
    hide LeU32, U32Le;
    var h := PackedHeader(magic, count, mode, speedSize, entry, wpPin, drive, chip, legacy, minRev, maxRev, hash, reserved);
    LeU32OfU32Le(entry);
    assert h[4..8] == U32Le(entry);
    assert h[12..14] == chip && h[15..17] == minRev && h[17..19] == maxRev;
  }

  /** The chip gate by its numbers: chip 5, a revision in range, where no upper bound is 0 or 65535 and
      the fuse may disable it. */
  lemma ChipGate(h: HeaderBytes, env: Env, least: nat, greatest: nat)
    requires h[12] == 5 && h[13] == 0
    requires least == h[15] as nat + 0x100 * (h[16] as nat) && greatest == h[17] as nat + 0x100 * (h[18] as nat)
    ensures ChipValid(h, env)
            <==> least <= env.chipRevision
                 && (greatest == 0 || greatest == 65535 || env.chipRevision <= greatest || env.wafMajorDisabled)
  {
    hide NatOfByte;
    FiveIsFive();
    BytesAsNumbers(h);
    assert h[12..14] == [5, 0] && h[15..17] == [h[15], h[16]] && h[17..19] == [h[17], h[18]];
  }

  lemma FiveIsFive()
    ensures NatOfByte(5) == 5 && NatOfByte(0) == 0
  {}

  lemma BytesAsNumbers(h: HeaderBytes)
    ensures NatOfByte(h[15]) == h[15] as nat && NatOfByte(h[16]) == h[16] as nat
    ensures NatOfByte(h[17]) == h[17] as nat && NatOfByte(h[18]) == h[18] as nat
  {}

  lemma OtherChipIsRefused(h: HeaderBytes, env: Env)
    requires h[12] != 5 || h[13] != 0
    ensures !ChipValid(h, env)
  {
    hide NatOfByte;
    FiveIsFive();
    assert h[12..14] == [h[12], h[13]];
    if ChipId(h) == 5 {
      SmallChip(h[12], h[13]);
    }
  }

  lemma SmallChip(lo: byte, hi: byte)
    requires NatOfByte(lo) + 0x100 * NatOfByte(hi) == 5
    ensures lo == 5 && hi == 0
  {
    FiveIsFive();
    NatOfByteInjective(lo, 5);
    NatOfByteInjective(hi, 0);
  }

  predicate ChipValid(h: HeaderBytes, env: Env) {
    && ChipId(h) == CHIP_ID
    && env.chipRevision >= MinChipRevFull(h)
    && !(MaxChipRevFull(h) != 65535 && MaxChipRevFull(h) != 0
         && env.chipRevision > MaxChipRevFull(h) && !env.wafMajorDisabled)
  }

  predicate HeaderOk(h: HeaderBytes, env: Env) {
    Magic(h) == HEADER_MAGIC && 1 <= SegmentCount(h) <= MAX_SEGMENTS && ChipValid(h, env)
  }

  /** The header gate by its numbers. */
  lemma HeaderGate(h: HeaderBytes, env: Env)
    ensures HeaderOk(h, env) <==> h[0] == 0xE9 && 1 <= h[1] as nat <= 16 && ChipValid(h, env)
  {
    hide ChipValid;
  }

  // -------------------------------------------------------------------------
  // Segments and where they may go
  // -------------------------------------------------------------------------

  datatype Segment = Segment(loadAddr: u32, data: seq<byte>)

  predicate ShouldLoad(a: u32) {
    || 0x3FC8_0000 <= a < 0x3FCE_0000
    || 0x4037_C000 <= a < 0x403E_0000
    || 0x5000_0000 <= a < 0x5000_2000
    || 0x5000_2000 <= a < 0x5000_4000
  }

  const DROM_LOW: u32 := 0x3C00_0000
  const DROM_HIGH: u32 := 0x3E00_0000
  const IROM_LOW: u32 := 0x4200_0000
  const IROM_HIGH: u32 := 0x4400_0000
  const ROM_STACK_START: u32 := 0x3FCE_2000
  const STACK_HEADROOM: u32 := 0x8000

  /** `verify_load_addresses`, with the end as the loader computes it. */
  predicate LoadAddressesOk(loadAddr: u32, loadEnd: u32, env: Env) {
    && !(loadAddr < env.etext && loadEnd > env.stext)
    && !(loadAddr < env.bssEnd && loadEnd > env.dataStart)
    && !(Add32(loadAddr, STACK_HEADROOM) > ROM_STACK_START && loadAddr < ROM_STACK_START + STACK_HEADROOM)
  }

  predicate Admissible(s: Segment, env: Env) {
    ShouldLoad(s.loadAddr) ==> LoadAddressesOk(s.loadAddr, Add32(s.loadAddr, |s.data| % TWO_TO_THE_32), env)
  }

  // -------------------------------------------------------------------------
  // Printed form
  // -------------------------------------------------------------------------

  datatype Image = Image(header: seq<byte>, segments: seq<Segment>, padding: seq<byte>, checksum: byte, digest: seq<byte>)

  predicate SmallSegments(ss: seq<Segment>) {
    forall i | 0 <= i < |ss| :: |ss[i].data| <= MAX_SEGMENT_DATA
  }

  function PrintSegment(s: Segment): (b: seq<byte>)
    requires |s.data| <= MAX_SEGMENT_DATA
    ensures |b| == SEGMENT_HEADER_SIZE + |s.data|
  {
    U32Le(s.loadAddr) + U32Le(|s.data|) + s.data
  }

  function PrintSegments(ss: seq<Segment>): seq<byte>
    requires SmallSegments(ss)
    decreases |ss|
  {
    if ss == [] then [] else PrintSegments(ss[..|ss| - 1]) + PrintSegment(ss[|ss| - 1])
  }

  /** All payload bytes, in order. */
  function Payload(ss: seq<Segment>): seq<byte>
    decreases |ss|
  {
    if ss == [] then [] else Payload(ss[..|ss| - 1]) + ss[|ss| - 1].data
  }

  /** Bytes skipped so that the checksum is the last byte of a 16-byte line. */
  function PadLen(next: nat): nat {
    15 - next % 16
  }

  function Print(im: Image): seq<byte>
    requires SmallSegments(im.segments)
  {
    im.header + PrintSegments(im.segments) + im.padding + [im.checksum] + im.digest
  }

  // -------------------------------------------------------------------------
  // Checksum and hash
  // -------------------------------------------------------------------------

  function XorByte(x: byte, y: byte): byte { x ^ y }

  function XorAll(seed: byte, data: seq<byte>): byte
    decreases |data|
  {
    if data == [] then seed else XorByte(XorAll(seed, data[..|data| - 1]), data[|data| - 1])
  }

  lemma {:induction false} XorAllConcat(seed: byte, a: seq<byte>, b: seq<byte>)
    ensures XorAll(seed, a + b) == XorAll(XorAll(seed, a), b)
    decreases |b|
  {
    hide XorByte;
    if b == [] {
      assert a + b == a;
    } else {
      assert (a + b)[..|a + b| - 1] == a + b[..|b| - 1];
      XorAllConcat(seed, a, b[..|b| - 1]);
    }
  }

  lemma NoBytesXor(seed: byte)
    ensures XorAll(seed, []) == seed
  {}

  /** `y` is `x` with the bits of `m` flipped. */
  predicate Flipped(x: byte, y: byte, m: byte) { y == x ^ m }

  lemma FlipLeft(x: byte, x': byte, y: byte, m: byte)
    requires Flipped(x, x', m)
    ensures Flipped(XorByte(x, y), XorByte(x', y), m)
  {}

  lemma FlipRight(x: byte, y: byte, y': byte, m: byte)
    requires Flipped(y, y', m)
    ensures Flipped(XorByte(x, y), XorByte(x, y'), m)
  {}

  lemma {:induction false} FlipPasses(seed: byte, data: seq<byte>, i: nat, v: byte, m: byte)
    requires i < |data| && Flipped(data[i], v, m)
    ensures Flipped(XorAll(seed, data), XorAll(seed, data[i := v]), m)
    decreases |data|
  {
    hide XorByte, Flipped;
    var n := |data| - 1;
    var changed := data[i := v];
    if i == n {
      assert changed[..n] == data[..n];
      FlipRight(XorAll(seed, data[..n]), data[n], v, m);
    } else {
      FlipPasses(seed, data[..n], i, v, m);
      assert changed[..n] == data[..n][i := v];
      FlipLeft(XorAll(seed, data[..n]), XorAll(seed, changed[..n]), data[n], m);
    }
  }

  /** The checksum is an exclusive or: flipping bits of any one byte flips the same bits of it. */
  lemma FlipShows(seed: byte, data: seq<byte>, i: nat, m: byte)
    requires i < |data|
    ensures XorAll(seed, data[i := data[i] ^ m]) == XorAll(seed, data) ^ m
  {
    hide XorAll;
    FlipPasses(seed, data, i, data[i] ^ m, m);
  }

  lemma ByteDifference(x: byte, y: byte)
    ensures x ^ (x ^ y) == y
    ensures x ^ y == 0 <==> x == y
  {}

  lemma XorIsStrict(x: byte, m: byte)
    ensures x ^ m == x <==> m == 0
  {}

  /** Any change of a single byte changes the checksum. */
  lemma OneByteShows(seed: byte, data: seq<byte>, i: nat, v: byte)
    requires i < |data|
    ensures XorAll(seed, data[i := v]) == XorAll(seed, data) <==> v == data[i]
  {
    hide XorAll;
    var m := data[i] ^ v;
    ByteDifference(data[i], v);
    FlipShows(seed, data, i, m);
    XorIsStrict(XorAll(seed, data), m);
  }

  /** What the appended digest covers; padding is skipped. */
  function HashedBytes(im: Image): seq<byte>
    requires SmallSegments(im.segments)
  {
    im.header + PrintSegments(im.segments) + [im.checksum]
  }

  // -------------------------------------------------------------------------
  // Decoding
  // -------------------------------------------------------------------------

  function ParseSegment(mem: seq<byte>, a: nat): (r: Option<Segment>)
    ensures r.Some? ==> |r.value.data| <= MAX_SEGMENT_DATA && a + SEGMENT_HEADER_SIZE + |r.value.data| <= |mem|
  {
    if a + SEGMENT_HEADER_SIZE > |mem| then None
    else
      var len := LeU32(mem[a + 4..a + 8]);
      if len > MAX_SEGMENT_DATA || a + SEGMENT_HEADER_SIZE + len > |mem| then None
      else Some(Segment(LeU32(mem[a..a + 4]), mem[a + 8..a + 8 + len]))
  }

  function ParseSegments(mem: seq<byte>, a: nat, n: nat): (r: Option<seq<Segment>>)
    ensures r.Some? ==> |r.value| == n && SmallSegments(r.value)
    ensures r.Some? && a <= |mem| ==> a + |PrintSegments(r.value)| <= |mem|
    decreases n
  {
    if n == 0 then Some([])
    else
      match ParseSegments(mem, a, n - 1)
      case None => None
      case Some(ss) =>
        match ParseSegment(mem, a + |PrintSegments(ss)|)
        case None => None
        case Some(s) =>
          assert (ss + [s])[..|ss|] == ss;
          Some(ss + [s])
  }

  /** The image at `at`, with its digest when one is to be checked.  Address 0 cannot be read. */
  function Decode(mem: seq<byte>, at: nat, env: Env, verify: bool): (r: Option<Image>)
    ensures r.Some? ==> SmallSegments(r.value.segments)
  {
    if at == 0 || at + HEADER_SIZE > |mem| then None
    else
      var header := mem[at..at + HEADER_SIZE];
      if !HeaderOk(header, env) then None
      else
        match ParseSegments(mem, at + HEADER_SIZE, SegmentCount(header))
        case None => None
        case Some(ss) =>
          var next := at + HEADER_SIZE + |PrintSegments(ss)|;
          var ck := next + PadLen(next);
          if ck + 1 > |mem| then None
          else if verify && HashAppended(header) then
            if ck + 1 + HASH_LEN > |mem| then None
            else Some(Image(header, ss, mem[next..ck], mem[ck], mem[ck + 1..ck + 1 + HASH_LEN]))
          else Some(Image(header, ss, mem[next..ck], mem[ck], []))
  }

  /** The sizes a printed image has at `at`; nothing can be read at address 0. */
  predicate Shaped(im: Image, at: nat, env: Env, verify: bool) {
    && 0 < at && |im.header| == HEADER_SIZE && HeaderOk(im.header, env)
    && |im.segments| == SegmentCount(im.header)
    && SmallSegments(im.segments)
    && |im.padding| == PadLen(at + HEADER_SIZE + |PrintSegments(im.segments)|)
    && |im.digest| == if verify && HashAppended(im.header) then HASH_LEN else 0
  }

  /** `bytes` lie in flash at `at`. */
  predicate LiesAt(mem: seq<byte>, at: nat, bytes: seq<byte>) {
    at + |bytes| <= |mem| && mem[at..at + |bytes|] == bytes
  }

  // -------------------------------------------------------------------------
  // The decoder is the inverse of the printer
  // -------------------------------------------------------------------------

  lemma LiesAtConcat(mem: seq<byte>, at: nat, x: seq<byte>, y: seq<byte>)
    ensures LiesAt(mem, at, x + y) <==> LiesAt(mem, at, x) && LiesAt(mem, at + |x|, y)
  {
    if at + |x + y| <= |mem| {
      var w := mem[at..at + |x + y|];
      SliceOfSlice(mem, at, at + |x + y|, 0, |x|);
      SliceOfSlice(mem, at, at + |x + y|, |x|, |x + y|);
      assert w == w[..|x|] + w[|x|..];
      assert w[|x|..] == w[|x|..|x + y|];
      assert (x + y)[..|x|] == x && (x + y)[|x|..] == y;
    }
  }

  lemma ParseSegmentIff(mem: seq<byte>, a: nat, s: Segment)
    ensures ParseSegment(mem, a) == Some(s)
            <==> |s.data| <= MAX_SEGMENT_DATA && LiesAt(mem, a, PrintSegment(s))
  {
    hide LeU32, U32Le;
    if |s.data| <= MAX_SEGMENT_DATA {
      LiesAtConcat(mem, a, U32Le(s.loadAddr) + U32Le(|s.data|), s.data);
      LiesAtConcat(mem, a, U32Le(s.loadAddr), U32Le(|s.data|));
      LeU32OfU32Le(s.loadAddr);
      LeU32OfU32Le(|s.data|);
    }
    if a + SEGMENT_HEADER_SIZE <= |mem| {
      U32LeOfLeU32(mem[a..a + 4]);
      U32LeOfLeU32(mem[a + 4..a + 8]);
    }
  }

  lemma PrintSegmentsLast(rest: seq<Segment>, last: Segment)
    ensures SmallSegments(rest + [last]) <==> SmallSegments(rest) && |last.data| <= MAX_SEGMENT_DATA
    ensures SmallSegments(rest + [last]) ==> PrintSegments(rest + [last]) == PrintSegments(rest) + PrintSegment(last)
    ensures Payload(rest + [last]) == Payload(rest) + last.data
  {
    hide PrintSegment;
    var ss := rest + [last];
    assert ss[..|rest|] == rest && ss[|rest|] == last;
    assert forall i | 0 <= i < |rest| :: ss[i] == rest[i];
  }

  lemma NoSegments(mem: seq<byte>, a: nat)
    ensures ParseSegments(mem, a, 0) == Some([])
    ensures PrintSegments([]) == []
  {}

  lemma {:induction false} ParseSegmentsIff(mem: seq<byte>, a: nat, n: nat, ss: seq<Segment>)
    requires a <= |mem|
    ensures ParseSegments(mem, a, n) == Some(ss)
            <==> |ss| == n && SmallSegments(ss) && LiesAt(mem, a, PrintSegments(ss))
    decreases n
  {
    hide ParseSegment, ParseSegments, PrintSegment, PrintSegments;
    if n == 0 {
      NoSegments(mem, a);
      assert |ss| == 0 ==> ss == [];
    } else if |ss| == n {
      var rest, last := ss[..n - 1], ss[n - 1];
      assert ss == rest + [last];
      ParseSegmentsIff(mem, a, n - 1, rest);
      PrintSegmentsLast(rest, last);
      SegmentsSplit(mem, a, n, rest, last);
      if SmallSegments(rest) {
        ParseSegmentIff(mem, a + |PrintSegments(rest)|, last);
        if |last.data| <= MAX_SEGMENT_DATA {
          LiesAtConcat(mem, a, PrintSegments(rest), PrintSegment(last));
        }
      }
    }
  }

  /** Unfolding of the decoder on a list with a last element. */
  lemma SegmentsSplit(mem: seq<byte>, a: nat, n: nat, rest: seq<Segment>, last: Segment)
    requires n > 0 && |rest| == n - 1
    ensures ParseSegments(mem, a, n) == Some(rest + [last])
            <==> ParseSegments(mem, a, n - 1) == Some(rest) && SmallSegments(rest)
                 && ParseSegment(mem, a + |PrintSegments(rest)|) == Some(last)
  {
    hide ParseSegment, PrintSegments;
    if ParseSegments(mem, a, n) == Some(rest + [last]) {
      var ss := ParseSegments(mem, a, n - 1).value;
      var s := ParseSegment(mem, a + |PrintSegments(ss)|).value;
      assert (ss + [s])[..n - 1] == ss && (rest + [last])[..n - 1] == rest;
      assert (ss + [s])[n - 1] == s && (rest + [last])[n - 1] == last;
    }
  }

  /** The printed form lies in flash exactly when its parts lie there one behind the other. */
  lemma PrintedParts(mem: seq<byte>, at: nat, im: Image)
    requires SmallSegments(im.segments)
    ensures var next := at + |im.header| + |PrintSegments(im.segments)|;
            var ck := next + |im.padding|;
            LiesAt(mem, at, Print(im))
            <==> && LiesAt(mem, at, im.header)
                 && LiesAt(mem, at + |im.header|, PrintSegments(im.segments))
                 && LiesAt(mem, next, im.padding)
                 && LiesAt(mem, ck, [im.checksum])
                 && LiesAt(mem, ck + 1, im.digest)
  {
    hide LiesAt, PrintSegments;
    var body := PrintSegments(im.segments);
    LiesAtConcat(mem, at, im.header + body + im.padding + [im.checksum], im.digest);
    LiesAtConcat(mem, at, im.header + body + im.padding, [im.checksum]);
    LiesAtConcat(mem, at, im.header + body, im.padding);
    LiesAtConcat(mem, at, im.header, body);
  }

  lemma DecodedIsPrinted(mem: seq<byte>, at: nat, env: Env, verify: bool, im: Image)
    requires Decode(mem, at, env, verify) == Some(im)
    ensures Shaped(im, at, env, verify) && LiesAt(mem, at, Print(im))
  {
    hide HeaderOk, ParseSegments, PrintSegments, HashAppended, SegmentCount, Print;
    var header := mem[at..at + HEADER_SIZE];
    ParseSegmentsIff(mem, at + HEADER_SIZE, SegmentCount(header), im.segments);
    PrintedParts(mem, at, im);
  }

  lemma PrintedIsDecoded(mem: seq<byte>, at: nat, env: Env, verify: bool, im: Image)
    requires Shaped(im, at, env, verify) && LiesAt(mem, at, Print(im))
    ensures Decode(mem, at, env, verify) == Some(im)
  {
    hide HeaderOk, ParseSegments, PrintSegments, HashAppended, SegmentCount, Print;
    PrintedParts(mem, at, im);
    assert im.header == mem[at..at + HEADER_SIZE];
    ParseSegmentsIff(mem, at + HEADER_SIZE, SegmentCount(im.header), im.segments);
    var next := at + HEADER_SIZE + |PrintSegments(im.segments)|;
    var ck := next + PadLen(next);
    assert mem[next..ck] == im.padding && mem[ck..ck + 1] == [im.checksum] && mem[ck] == mem[ck..ck + 1][0];
    assert mem[ck + 1..ck + 1 + |im.digest|] == im.digest;
  }

  /** An image is decoded from a chip exactly when its printed form lies there and has the sizes the
      format demands: the decoder accepts nothing else and loses nothing. */
  lemma DecodeIffPrinted(mem: seq<byte>, at: nat, env: Env, verify: bool, im: Image)
    ensures Decode(mem, at, env, verify) == Some(im)
            <==> Shaped(im, at, env, verify) && LiesAt(mem, at, Print(im))
  {
    hide Decode, Shaped, LiesAt, Print;
    assert Shaped(im, at, env, verify) ==> SmallSegments(im.segments) by { ShapedIsSmall(im, at, env, verify); }
    if Decode(mem, at, env, verify) == Some(im) {
      DecodedIsPrinted(mem, at, env, verify, im);
    }
    if Shaped(im, at, env, verify) && LiesAt(mem, at, Print(im)) {
      PrintedIsDecoded(mem, at, env, verify, im);
    }
  }

  // -------------------------------------------------------------------------
  // Acceptance
  // -------------------------------------------------------------------------

  /** What the loader checks of a decoded image.  Without a free SHA-256 context the "computed"
      digest stays zero; see `ImageLoad`. */
  predicate Acceptable(im: Image, env: Env, verify: bool, load: bool, shaAvailable: bool) {
    && SmallSegments(im.segments)
    && (verify ==> im.checksum == XorAll(CHECKSUM_SEED, Payload(im.segments)))
    && (verify && |im.header| == HEADER_SIZE && HashAppended(im.header) ==>
          |HashedBytes(im)| < F.MAX_MESSAGE
          && im.digest == if shaAvailable then F.Sha256(HashedBytes(im)) else F.Zeros(HASH_LEN))
    && (load ==> forall i | 0 <= i < |im.segments| :: Admissible(im.segments[i], env))
  }

  function AcceptedImage(mem: seq<byte>, at: nat, env: Env, verify: bool, load: bool, shaAvailable: bool): (r: Option<Image>)
    ensures r.Some? ==> SmallSegments(r.value.segments)
  {
    match Decode(mem, at, env, verify)
    case None => None
    case Some(im) => if Acceptable(im, env, verify, load, shaAvailable) then Some(im) else None
  }

  /** The accepted image, if any, is the one whose printed form lies at the address. */
  lemma AcceptedIffPrinted(mem: seq<byte>, at: nat, env: Env, verify: bool, load: bool, shaAvailable: bool, im: Image)
    ensures AcceptedImage(mem, at, env, verify, load, shaAvailable) == Some(im)
            <==> Shaped(im, at, env, verify) && LiesAt(mem, at, Print(im))
                 && Acceptable(im, env, verify, load, shaAvailable)
  {
    hide Decode, Shaped, Print, Acceptable;
    DecodeIffPrinted(mem, at, env, verify, im);
    assert Shaped(im, at, env, verify) ==> SmallSegments(im.segments) by { ShapedIsSmall(im, at, env, verify); }
  }

  lemma ShapedIsSmall(im: Image, at: nat, env: Env, verify: bool)
    ensures Shaped(im, at, env, verify) ==> SmallSegments(im.segments)
  {}

  lemma {:induction false} PrintSegmentsLength(ss: seq<Segment>)
    requires SmallSegments(ss)
    ensures |PrintSegments(ss)| <= |ss| * (SEGMENT_HEADER_SIZE + MAX_SEGMENT_DATA)
    ensures |PrintSegments(ss)| == SEGMENT_HEADER_SIZE * |ss| + |Payload(ss)|
    decreases |ss|
  {
    hide PrintSegment;
    if ss != [] {
      PrintSegmentsLength(ss[..|ss| - 1]);
    }
  }

  /** Segment `k`, header and payload, ends inside the printed list. */
  lemma {:induction false} PrintedSegmentFits(ss: seq<Segment>, k: nat)
    requires SmallSegments(ss) && k < |ss|
    ensures SmallSegments(ss[..k])
    ensures |PrintSegments(ss[..k])| + SEGMENT_HEADER_SIZE + |ss[k].data| <= |PrintSegments(ss)|
    decreases |ss|
  {
    hide PrintSegment;
    var n := |ss| - 1;
    if k < n {
      PrintedSegmentFits(ss[..n], k);
      assert ss[..n][..k] == ss[..k];
    }
  }

  const MAX_IMAGE_LEN: nat := 24 + 16 * 4101 + 16 + 32

  /** Images are short, so for any start below 16 MB no 32-bit address in the loader wraps. */
  lemma ImageLengthBound(im: Image, at: nat, env: Env, verify: bool)
    requires Shaped(im, at, env, verify)
    ensures |Print(im)| <= MAX_IMAGE_LEN
    ensures at < 0x100_0000 ==> at + |Print(im)| < TWO_TO_THE_32
    ensures |Print(im)| > HEADER_SIZE + SEGMENT_HEADER_SIZE
    ensures (at + |Print(im)| - |im.digest|) % 16 == 0
  {
    hide PrintSegments, ChipValid, HashAppended;
    PrintSegmentsLength(im.segments);
  }

  /** Acceptance looks at the image's own bytes only: any other chip with the same bytes there
      accepts the same image. */
  lemma AcceptedDependsOnImageBytes(mem: seq<byte>, other: seq<byte>, at: nat, env: Env,
                                    verify: bool, load: bool, shaAvailable: bool, im: Image)
    requires AcceptedImage(mem, at, env, verify, load, shaAvailable) == Some(im)
    requires at + |Print(im)| <= |other|
    requires forall i | at <= i < at + |Print(im)| && i < |mem| :: other[i] == mem[i]
    ensures AcceptedImage(other, at, env, verify, load, shaAvailable) == Some(im)
  {
    hide AcceptedImage, Shaped, Acceptable, Print;
    AcceptedIffPrinted(mem, at, env, verify, load, shaAvailable, im);
    AcceptedIffPrinted(other, at, env, verify, load, shaAvailable, im);
  }

  // -------------------------------------------------------------------------
  // A changed payload byte
  // -------------------------------------------------------------------------

  /** The segments with byte `j` of segment `k` replaced. */
  function Patched(ss: seq<Segment>, k: nat, j: nat, v: byte): (r: seq<Segment>)
    requires k < |ss| && j < |ss[k].data|
    ensures |r| == |ss|
  {
    ss[k := Segment(ss[k].loadAddr, ss[k].data[j := v])]
  }

  /** Payload bytes in front of segment `k`. */
  function PayloadBefore(ss: seq<Segment>, k: nat): nat
    requires k <= |ss|
  {
    |Payload(ss[..k])|
  }

  lemma {:induction false} PatchedPayload(ss: seq<Segment>, k: nat, j: nat, v: byte)
    requires k < |ss| && j < |ss[k].data|
    ensures PayloadBefore(ss, k) + j < |Payload(ss)|
    ensures Payload(ss)[PayloadBefore(ss, k) + j] == ss[k].data[j]
    ensures Payload(Patched(ss, k, j, v)) == Payload(ss)[PayloadBefore(ss, k) + j := v]
    decreases |ss|
  {
    hide Payload, PrintSegments;
    var n := |ss| - 1;
    var rest, last, p := ss[..n], ss[n], Patched(ss, k, j, v);
    assert ss == rest + [last];
    PrintSegmentsLast(rest, last);
    PrintSegmentsLast(p[..n], p[n]);
    assert p == p[..n] + [p[n]];
    if k == n {
      assert p[..n] == rest;
    } else {
      PatchedPayload(rest, k, j, v);
      assert rest[..k] == ss[..k] && p[..n] == Patched(rest, k, j, v);
    }
  }

  lemma PatchedOne(s: Segment, j: nat, v: byte)
    requires |s.data| <= MAX_SEGMENT_DATA && j < |s.data|
    ensures PrintSegment(s)[SEGMENT_HEADER_SIZE + j] == s.data[j]
    ensures PrintSegment(Segment(s.loadAddr, s.data[j := v])) == PrintSegment(s)[SEGMENT_HEADER_SIZE + j := v]
  {
    hide U32Le;
  }

  lemma {:induction false} PatchedPrint(ss: seq<Segment>, k: nat, j: nat, v: byte)
    requires SmallSegments(ss) && k < |ss| && j < |ss[k].data|
    ensures SmallSegments(Patched(ss, k, j, v)) && SmallSegments(ss[..k])
    ensures var o := |PrintSegments(ss[..k])| + SEGMENT_HEADER_SIZE + j;
            && o < |PrintSegments(ss)| && PrintSegments(ss)[o] == ss[k].data[j]
            && PrintSegments(Patched(ss, k, j, v)) == PrintSegments(ss)[o := v]
    decreases |ss|
  {
    hide PrintSegment, PrintSegments;
    var n := |ss| - 1;
    var rest, last, p := ss[..n], ss[n], Patched(ss, k, j, v);
    assert ss == rest + [last];
    PrintSegmentsLast(rest, last);
    PrintSegmentsLast(p[..n], p[n]);
    assert p == p[..n] + [p[n]];
    if k == n {
      assert p[..n] == rest;
      PatchedOne(last, j, v);
    } else {
      PatchedPrint(rest, k, j, v);
      assert rest[..k] == ss[..k] && p[..n] == Patched(rest, k, j, v);
    }
  }

  /** Where byte `j` of segment `k` of an image at `at` lies. */
  function PayloadAddr(im: Image, at: nat, k: nat, j: nat): nat
    requires SmallSegments(im.segments) && k < |im.segments|
  {
    at + |im.header| + |PrintSegments(im.segments[..k])| + SEGMENT_HEADER_SIZE + j
  }

  lemma PatchedLies(mem: seq<byte>, other: seq<byte>, at: nat, im: Image, k: nat, j: nat)
    requires SmallSegments(im.segments) && k < |im.segments| && j < |im.segments[k].data|
    requires LiesAt(mem, at, Print(im)) && |other| == |mem|
    requires PayloadAddr(im, at, k, j) < |mem|
    requires forall i | 0 <= i < |mem| && i != PayloadAddr(im, at, k, j) :: other[i] == mem[i]
    ensures SmallSegments(Patched(im.segments, k, j, other[PayloadAddr(im, at, k, j)]))
    ensures LiesAt(other, at, Print(im.(segments := Patched(im.segments, k, j, other[PayloadAddr(im, at, k, j)]))))
  {
    hide PrintSegments, SmallSegments;
    var a := PayloadAddr(im, at, k, j);
    PatchedPrint(im.segments, k, j, other[a]);
    var whole, patched := Print(im), Print(im.(segments := Patched(im.segments, k, j, other[a])));
    assert patched == whole[a - at := other[a]];
    forall i | 0 <= i < |whole|
      ensures other[at + i] == patched[i]
    {
      assert mem[at..at + |whole|][i] == mem[at + i];
    }
  }

  lemma PatchedShape(im: Image, at: nat, env: Env, verify: bool, k: nat, j: nat, v: byte)
    requires Shaped(im, at, env, verify) && k < |im.segments| && j < |im.segments[k].data|
    ensures Shaped(im.(segments := Patched(im.segments, k, j, v)), at, env, verify)
  {
    hide HeaderOk, HashAppended, SegmentCount, PrintSegments;
    PatchedPrint(im.segments, k, j, v);
  }

  /** The checksum at work: once an image is accepted with verification, a flash that differs from it
      in exactly one payload byte holds no acceptable image at that address. */
  lemma ChangedByteIsRefused(mem: seq<byte>, other: seq<byte>, at: nat, env: Env, load: bool, avail: bool, load': bool, avail': bool,
                             im: Image, k: nat, j: nat)
    requires AcceptedImage(mem, at, env, true, load, avail) == Some(im) && |other| == |mem|
    requires k < |im.segments| && j < |im.segments[k].data| && PayloadAddr(im, at, k, j) < |mem|
    requires forall i | 0 <= i < |mem| :: other[i] == mem[i] <==> i != PayloadAddr(im, at, k, j)
    ensures AcceptedImage(other, at, env, true, load', avail') == None
  {
    hide Shaped, Print, Decode, Payload, XorAll, PrintSegments, LiesAt;
    var a := PayloadAddr(im, at, k, j);
    var im2 := im.(segments := Patched(im.segments, k, j, other[a]));
    AcceptedIffPrinted(mem, at, env, true, load, avail, im);
    ByteInFlash(mem, at, im, k, j);
    PatchedLies(mem, other, at, im, k, j);
    PatchedShape(im, at, env, true, k, j, other[a]);
    DecodeIffPrinted(other, at, env, true, im2);
    PatchedPayload(im.segments, k, j, other[a]);
    OneByteShows(CHECKSUM_SEED, Payload(im.segments), PayloadBefore(im.segments, k) + j, other[a]);
  }

  lemma ByteInFlash(mem: seq<byte>, at: nat, im: Image, k: nat, j: nat)
    requires SmallSegments(im.segments) && k < |im.segments| && j < |im.segments[k].data|
    requires LiesAt(mem, at, Print(im)) && PayloadAddr(im, at, k, j) < |mem|
    ensures mem[PayloadAddr(im, at, k, j)] == im.segments[k].data[j]
  {
    hide PrintSegments;
    var ss, whole := im.segments, Print(im);
    var a, v := PayloadAddr(im, at, k, j), im.segments[k].data[j];
    PatchedPrint(ss, k, j, v);
    assert whole[a - at] == PrintSegments(ss)[a - at - |im.header|];
    assert mem[at..at + |whole|][a - at] == mem[a];
  }
}
