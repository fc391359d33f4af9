/** Why a view of verified bytes needs more than congruent addresses: the loader does not compare an
    image with its partition, so an accepted image may reach into the OTA-info partition behind it,
    and noting the attempt then erases bytes that were verified. */
module OverlongImage {
  import opened Words
  import opened Wrappers
  import opened FlashOps
  import opened FlashDriver
  import opened BootTypes
  import opened OtaData
  import opened BootRecords
  import opened PartitionTable
  import opened ImageFormat
  import opened ImageLoad
  import opened BootSweep
  import FactoryReset
  import MemoryMap

  const SLOT: PartitionPos := PartitionPos(0x2_0000, 0x1000)
  const INFO: PartitionPos := PartitionPos(0x2_1000, 0x2000)

  const SEEN: nat := 0x2_202A
  const SEEN_AT: u32 := 0x3C00_202A

  /** Three segments, otherwise the header of the demo images. */
  const HEADER: seq<byte> := [
    0xE9, 0x03, 0x03, 0x22,
    0x00, 0x00, 0x38, 0x40,
    0xEE, 0x00, 0x00, 0x00,
    0x05, 0x00, 0x00, 0x00,
    0x00, 0xFF, 0xFF, 0x00,
    0x00, 0x00, 0x00, 0x00]

  /** A segment that is neither loaded nor mapped. */
  function Filler(): (s: Segment)
    ensures |s.data| == MAX_SEGMENT_DATA && s.loadAddr == 0
    ensures forall i | 0 <= i < |s.data| :: s.data[i] == 0xFF
  {
    Segment(0, seq(MAX_SEGMENT_DATA, _ => 0xFF))
  }

  /** One byte of read-only data. */
  const MAPPED: Segment := Segment(SEEN_AT, [0x55])

  function Overlong(): (im: Image)
    ensures SmallSegments(im.segments)
  {
    var ss := [Filler(), Filler(), MAPPED];
    Image(HEADER, ss, [0, 0, 0, 0], XorAll(CHECKSUM_SEED, Payload(ss)), [])
  }

  lemma HeaderReads(env: Env)
    ensures |HEADER| == HEADER_SIZE && HeaderOk(HEADER, env) && SegmentCount(HEADER) == 3 && !HashAppended(HEADER)
  {
    hide NatOfByte;
    SmallBytes();
    assert HEADER[12..14] == [0x05, 0x00] && HEADER[15..17] == [0x00, 0x00] && HEADER[17..19] == [0xFF, 0xFF];
  }

  lemma SmallBytes()
    ensures NatOfByte(0x00) == 0 && NatOfByte(0x03) == 3 && NatOfByte(0x05) == 5 && NatOfByte(0xFF) == 255
  {}

  /** Where the three segments end. */
  lemma Lengths()
    ensures var ss := Overlong().segments;
            && SmallSegments(ss) && SmallSegments(ss[..1]) && SmallSegments(ss[..2])
            && |PrintSegments(ss[..0])| == 0
            && |PrintSegments(ss[..1])| == 4101
            && |PrintSegments(ss[..2])| == 8202
            && |PrintSegments(ss)| == 8211
  {
    hide XorAll, Payload, PrintSegments, PrintSegment, Filler;
    var s := Filler();
    OneLength(s);
    TwoLength(s);
    ThreeLength(s);
    var ss := Overlong().segments;
    assert ss == [s, s, MAPPED] && ss[..0] == [] && ss[..1] == [s] && ss[..2] == [s, s];
  }

  lemma OneLength(s: Segment)
    requires |s.data| <= MAX_SEGMENT_DATA
    ensures |PrintSegments([])| == 0 && SmallSegments([s]) && |PrintSegments([s])| == SEGMENT_HEADER_SIZE + |s.data|
  {
    hide PrintSegments, PrintSegment, Payload;
    NoSegments([], 0);
    PrintSegmentsLast([], s);
    SegmentLength(s);
    assert [] + [s] == [s];
  }

  lemma TwoLength(s: Segment)
    requires |s.data| <= MAX_SEGMENT_DATA
    ensures SmallSegments([s, s]) && |PrintSegments([s, s])| == 2 * (SEGMENT_HEADER_SIZE + |s.data|)
  {
    hide PrintSegments, PrintSegment, Payload;
    OneLength(s);
    PrintSegmentsLast([s], s);
    SegmentLength(s);
    assert [s] + [s] == [s, s];
  }

  lemma ThreeLength(s: Segment)
    requires |s.data| <= MAX_SEGMENT_DATA
    ensures SmallSegments([s, s, MAPPED]) && |PrintSegments([s, s, MAPPED])| == 2 * (SEGMENT_HEADER_SIZE + |s.data|) + 9
  {
    hide PrintSegments, PrintSegment, Payload;
    TwoLength(s);
    PrintSegmentsLast([s, s], MAPPED);
    SegmentLength(MAPPED);
    assert [s, s] + [MAPPED] == [s, s, MAPPED];
  }

  lemma SegmentLength(s: Segment)
    requires |s.data| <= MAX_SEGMENT_DATA
    ensures |PrintSegment(s)| == SEGMENT_HEADER_SIZE + |s.data|
  {}

  lemma OverlongIsAccepted(mem: seq<byte>, env: Env, avail: bool)
    requires LiesAt(mem, SLOT.offset, Print(Overlong()))
    ensures AcceptedImage(mem, SLOT.offset, env, true, true, avail) == Some(Overlong())
  {
    hide XorAll, Payload, PrintSegments, HeaderOk, SegmentCount, HashAppended, AcceptedImage, LiesAt, Print, Filler;
    HeaderReads(env);
    Lengths();
    AcceptedIffPrinted(mem, SLOT.offset, env, true, true, avail, Overlong());
    assert !ShouldLoad(0) && !ShouldLoad(SEEN_AT);
  }

  /** The flash under the filler and under the mapped byte. */
  lemma OverlongCells(mem: seq<byte>, env: Env, avail: bool)
    requires AcceptedImage(mem, SLOT.offset, env, true, true, avail) == Some(Overlong())
    ensures |mem| > SEEN && mem[SEEN] == 0x55
    ensures forall i | SLOT.offset + 32 <= i < SLOT.offset + 4125 :: mem[i] == 0xFF
    ensures forall i | SLOT.offset + 4133 <= i < SLOT.offset + 8226 :: mem[i] == 0xFF
  {
    hide XorAll, Payload, PrintSegments, AcceptedImage, Filler;
    Lengths();
    MemoryMap.SegmentInFlash(mem, SLOT.offset, env, true, true, avail, Overlong(), 0);
    MemoryMap.SegmentInFlash(mem, SLOT.offset, env, true, true, avail, Overlong(), 1);
    MemoryMap.SegmentInFlash(mem, SLOT.offset, env, true, true, avail, Overlong(), 2);
    FillerCells(mem, SLOT.offset + 32);
    FillerCells(mem, SLOT.offset + 4133);
    assert mem[SEEN..SEEN + 1][0] == 0x55;
  }

  lemma FillerCells(mem: seq<byte>, a: nat)
    requires LiesAt(mem, a, Filler().data)
    ensures forall i | a <= i < a + MAX_SEGMENT_DATA :: mem[i] == 0xFF
  {
    forall i | a <= i < a + MAX_SEGMENT_DATA
      ensures mem[i] == 0xFF
    {
      assert mem[a..a + MAX_SEGMENT_DATA][i - a] == mem[i];
    }
  }

  lemma BlankIsNoDescriptor(mem: seq<byte>, part: PartitionPos, env: Env)
    requires part.offset + 40 <= |mem| && part.offset + 40 < TWO_TO_THE_32
    requires forall i | part.offset + 32 <= i < part.offset + 36 :: mem[i] == 0xFF
    ensures AntiRollbackOk(mem, part, env)
  {
    hide NatOfByte;
    SmallBytes();
    var a := part.offset + 32;
    assert mem[a..a + 4] == [0xFF, 0xFF, 0xFF, 0xFF];
  }

  /** The attempt goes to the second sector and blanks the cell. */
  lemma AttemptErasesCell(mem: seq<byte>, bs: BootTable, entry: u32)
    requires bs.Valid() && bs.otaInfo == INFO && |mem| > SEEN && mem[SEEN] == 0x55
    requires Record(mem, INFO, 0) == BLANK && Record(mem, INFO, 1) == BLANK
    ensures AtJump(mem, bs, Jump(0, entry), true)[SEEN] == 0xFF
    ensures !KeptAtJump(mem, bs, Jump(0, entry), true, SEEN)
  {
    hide EntryAt, SeqCrc, WriteEntry, ApplyAll, And, EntryBytes, PendingEntry;
    var w := RecordWrite(1, PendingEntry(0));
    assert LaunchWrites(mem, bs, Jump(0, entry)) == [w];
    AllOpsOfOne(INFO, w);
    WriteEntryCell(mem, INFO.offset + SECTOR_SIZE, PendingEntry(0), SEEN);
    JumpCellIff(mem, bs, Jump(0, entry), true, SEEN);
  }

  /** On every flash where the image lies at its slot: both partitions are in range and disjoint, the
      slot loads, load and flash address of the mapped byte are congruent, the byte was verified, and
      the application finds an erased cell there. */
  lemma CongruenceIsNotEnough(mem: seq<byte>, bs: BootTable, env: Env, avail: bool, entry: u32)
    requires bs.Valid() && bs.ota[0] == SLOT && bs.otaInfo == INFO
    requires LiesAt(mem, SLOT.offset, Print(Overlong()))
    ensures InRange(SLOT) && InRange(INFO) && Disjoint(SLOT, INFO)
    ensures Loadable(mem, PartitionAt(bs, 0), env, avail) && LoadedImage(mem, PartitionAt(bs, 0), env, avail) == Some(Overlong())
    ensures DataAddr(SLOT.offset, Overlong().segments, 2) == SEEN && SEEN_AT % PAGE_SIZE == SEEN % PAGE_SIZE
    ensures |mem| > SEEN && mem[SEEN] == 0x55
    ensures AtJump(mem, bs, Jump(0, entry), true)[SEEN] == 0xFF
    ensures !KeptAtJump(mem, bs, Jump(0, entry), true, SEEN)
  {
    hide XorAll, Payload, PrintSegments, AcceptedImage, Filler, LiesAt, Print, AntiRollbackOk, AtJump, KeptAtJump;
    Lengths();
    OverlongIsAccepted(mem, env, avail);
    OverlongCells(mem, env, avail);
    BlankIsNoDescriptor(mem, SLOT, env);
    FactoryReset.BlankRecord(mem, INFO.offset);
    FactoryReset.BlankRecord(mem, INFO.offset + SECTOR_SIZE);
    AttemptErasesCell(mem, bs, entry);
  }
}
