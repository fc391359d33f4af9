/** The shared definitions by their numbers: regions, sizes, magic values and texts that both the
    specification and the methods refer to by name, stated here in digits and operators. */
module Numbers {
  import opened Words
  import opened Wrappers
  import opened FlashOps
  import opened FlashDriver
  import opened BootTypes
  import opened PartitionTable
  import opened ImageFormat
  import MemoryMap
  import BootSweep
  import OtaData
  import OtaLink
  import OtaSystem
  import OtaTransfer
  import FactoryReset
  import SigBlocks
  import Crc

  // -------------------------------------------------------------------------
  // Flash
  // -------------------------------------------------------------------------

  /** Erasing sector `s` sets 4096 cells to 0xFF and no other. */
  lemma EraseByNumbers(mem: seq<byte>, s: nat, i: nat)
    requires i < |mem|
    ensures Apply(mem, Erase(s))[i] == if 4096 * s <= i < 4096 * s + 4096 then 0xFF else mem[i]
  {}

  /** Programming a word clears the bits its bytes have clear, lowest byte first, in four cells. */
  lemma ProgramByNumbers(mem: seq<byte>, a: nat, w: bv32, i: nat)
    requires i < |mem|
    ensures Apply(mem, Program(a, w))[i]
            == if i == a then mem[i] & ((w & 0xFF) as bv8)
               else if i == a + 1 then mem[i] & (((w >> 8) & 0xFF) as bv8)
               else if i == a + 2 then mem[i] & (((w >> 16) & 0xFF) as bv8)
               else if i == a + 3 then mem[i] & ((w >> 24) as bv8)
               else mem[i]
  {
    hide WordLe, And;
    WordByNumbers(w);
    if a <= i < a + 4 {
      AndIsBitwise(mem[i], WordLe(w)[i - a]);
    }
  }

  lemma WordByNumbers(w: bv32)
    ensures WordLe(w)[0] == (w & 0xFF) as bv8 && WordLe(w)[1] == ((w >> 8) & 0xFF) as bv8
    ensures WordLe(w)[2] == ((w >> 16) & 0xFF) as bv8 && WordLe(w)[3] == (w >> 24) as bv8
  {}

  lemma AndIsBitwise(x: byte, y: byte)
    ensures And(x, y) == x & y
  {}

  /** A range needs the least number of 4096-byte sectors that hold its size. */
  lemma SectorsByNumbers(size: u32)
    requires 0 < size <= 0x100_0000
    ensures 4096 * (SectorsFor(size) - 1) < size <= 4096 * SectorsFor(size)
  {
    assert Add32(size, SECTOR_SIZE - 1) == size + 4095;
  }

  /** The window shows 64 KB: an unaligned word on its last bytes is not delivered whole. */
  lemma WindowByNumbers(size: nat)
    requires size <= 4096
    ensures StaysInWindow(0xFFFE, size) <==> size <= 2
    ensures StaysInWindow(0x1_FFFC, size)
  {
    StaysInWindowIff(0xFFFE, size);
    StaysInWindowIff(0x1_FFFC, size);
  }

  /** The chip is whole sectors of at most 16 MB, and the bounce buffer holds any accepted size rounded
      up to words. */
  lemma ChipByNumbers(flash: Flash, size: nat)
    requires flash.Valid() && size <= 4093
    ensures |flash.mem| <= 0x100_0000 && |flash.mem| % 4096 == 0
    ensures flash.buf.Length == 4096 && (size + 3) / 4 * 4 <= flash.buf.Length
  {}

  /** An absent partition is all zero. */
  lemma AbsentByNumbers()
    ensures NO_PARTITION.offset == 0 && NO_PARTITION.size == 0
  {}

  // -------------------------------------------------------------------------
  // Images
  // -------------------------------------------------------------------------

  /** Segments are copied to DRAM, IRAM and the two RTC memories, and to nothing else. */
  lemma LoadedRegions(a: u32)
    ensures ShouldLoad(a)
            <==> || (0x3FC8_0000 <= a <= 0x3FCD_FFFF)
                 || (0x4037_C000 <= a <= 0x403D_FFFF)
                 || (0x5000_0000 <= a <= 0x5000_3FFF)
  {}

  /** Segments are mapped as read-only data or code, and none of them is copied. */
  lemma MappedRegions(s: Segment)
    ensures MemoryMap.SegmentIn(s, DROM_LOW, DROM_HIGH) <==> s.data != [] && 0x3C00_0000 <= s.loadAddr <= 0x3DFF_FFFF
    ensures MemoryMap.SegmentIn(s, IROM_LOW, IROM_HIGH) <==> s.data != [] && 0x4200_0000 <= s.loadAddr <= 0x43FF_FFFF
    ensures 0x3C00_0000 <= s.loadAddr <= 0x3DFF_FFFF || 0x4200_0000 <= s.loadAddr <= 0x43FF_FFFF ==> !ShouldLoad(s.loadAddr)
  {}

  /** The address rule, for any placement of the bootloader: clear of its code and data by the wrapped
      end, and of the 64 KB around 0x3FCE2000. */
  lemma AddressRule(a: u32, end: u32, env: Env)
    requires a < 0xFFFF_0000
    ensures LoadAddressesOk(a, end, env)
            <==> && (a >= env.etext || end <= env.stext)
                 && (a >= env.bssEnd || end <= env.dataStart)
                 && (a <= 0x3FCD_A000 || a >= 0x3FCE_A000)
  {}

  /** One page of an MMU table is 64 KB. */
  lemma PagesByNumbers(c: MemoryMap.Chosen, j: nat)
    requires c == MemoryMap.Chosen(0x2_1230, 0x3C00_1230, 4093) && j < 4093
    ensures MemoryMap.Translate(MemoryMap.BusMap(c), 0x3C00_1230 + j) == Some(0x2_1230 + j)
    ensures MemoryMap.PageCount(c) == 1
    ensures MemoryMap.PageCount(c.(load := 0x3C00_F800)) == 2
  {
    hide MemoryMap.Translate, MemoryMap.BusMap;
    MemoryMap.TranslateByte(c, j);
  }

  lemma MagicNumbers()
    ensures NatOfByte(0x32) == 0x32 && NatOfByte(0x54) == 0x54 && NatOfByte(0xCD) == 0xCD && NatOfByte(0xAB) == 0xAB
  {}

  /** The descriptor starts 32 bytes into the image with 32 54 CD AB; its version follows. */
  lemma DescriptorByNumbers(mem: seq<byte>, part: PartitionPos, env: Env)
    requires part.offset + 40 <= |mem| && part.offset + 40 < 0x1_0000_0000
    ensures BootSweep.AntiRollbackOk(mem, part, env)
            <==> (mem[part.offset + 32..part.offset + 36] == [0x32, 0x54, 0xCD, 0xAB]
                  ==> LeU32(mem[part.offset + 36..part.offset + 40]) >= env.secureVersion)
  {
    hide U32Le;
    var b := mem[part.offset + 32..part.offset + 36];
    MagicValue();
    U32LeOfLeU32(b);
    U32LeOfLeU32([0x32, 0x54, 0xCD, 0xAB]);
  }

  lemma MagicValue()
    ensures LeU32([0x32, 0x54, 0xCD, 0xAB]) == 0xABCD_5432
  {
    hide NatOfByte;
    MagicNumbers();
  }

  // -------------------------------------------------------------------------
  // Slots
  // -------------------------------------------------------------------------

  /** Sequence numbers 1 to 16 name slots 0 to 15, no other number names one. */
  lemma SlotsByNumbers(s: bv32)
    ensures OtaData.SlotOf(s) == if 1 <= s as nat <= 16 then Some(s as nat - 1) else None
  {}

  // -------------------------------------------------------------------------
  // Signature blocks
  // -------------------------------------------------------------------------

  /** The block byte by byte: E7 02 00 00, digest at 4, signature at 36, key at 100, CRC at 164, lowest
      byte first, and 0xFF up to 4096. */
  lemma BlockByNumbers(sig: SigBlocks.SigBlock)
    requires sig.Valid()
    ensures var b, crc := SigBlocks.Layout(sig), Crc.Crc32(SigBlocks.Layout(sig)[..164]);
            && |b| == 4096
            && b[0] == 0xE7 && b[1] == 0x02 && b[2] == 0 && b[3] == 0
            && b[4..36] == sig.imageDigest && b[36..100] == sig.signature && b[100..164] == sig.pubKey
            && b[164] == (crc & 0xFF) as bv8 && b[165] == ((crc >> 8) & 0xFF) as bv8
            && b[166] == ((crc >> 16) & 0xFF) as bv8 && b[167] == (crc >> 24) as bv8
            && forall i | 168 <= i < 4096 :: b[i] == 0xFF
  {
    hide Crc.Crc32;
    assert SigBlocks.Layout(sig)[..164] == SigBlocks.Covered(sig);
  }

  /** A content ends where such a block would start. */
  lemma ContentByNumbers(image: seq<byte>)
    ensures SigBlocks.ImageContentLen(image)
            == if |image| >= 4096 && image[|image| - 4096] == 0xE7 && image[|image| - 4095] == 0x02 then |image| - 4096 else |image|
  {}

  // -------------------------------------------------------------------------
  // Texts
  // -------------------------------------------------------------------------

  const RESET_TEXT: string := "nvs, phy, otadata"

  lemma TextCodes()
    ensures ' ' as int == 0x20 && ',' as int == 0x2C && '_' as int == 0x5F && '0' as int == 0x30 && '.' as int == 0x2E
    ensures 'a' as int == 0x61 && 'd' as int == 0x64 && 'h' as int == 0x68 && 'n' as int == 0x6E && 'o' as int == 0x6F
    ensures 'p' as int == 0x70 && 's' as int == 0x73 && 't' as int == 0x74 && 'v' as int == 0x76 && 'y' as int == 0x79
    ensures 'O' as int == 0x4F && 'K' as int == 0x4B
  {}

  lemma ByteCodes()
    ensures NatOfByte(0x20) == 0x20 && NatOfByte(0x2C) == 0x2C && NatOfByte(0x2E) == 0x2E
    ensures NatOfByte(0x61) == 0x61 && NatOfByte(0x64) == 0x64 && NatOfByte(0x68) == 0x68 && NatOfByte(0x6E) == 0x6E && NatOfByte(0x6F) == 0x6F
    ensures NatOfByte(0x70) == 0x70 && NatOfByte(0x73) == 0x73 && NatOfByte(0x74) == 0x74 && NatOfByte(0x76) == 0x76 && NatOfByte(0x79) == 0x79
    ensures NatOfByte(0x4F) == 0x4F && NatOfByte(0x4B) == 0x4B
  {}

  /** The list a factory reset passes is that text. */
  lemma ResetText()
    ensures |FactoryReset.RESET_LABELS| == |RESET_TEXT|
    ensures forall i | 0 <= i < |RESET_TEXT| :: NatOfByte(FactoryReset.RESET_LABELS[i]) == RESET_TEXT[i] as int
  {
    hide NatOfByte;
    TextCodes();
    ByteCodes();
    assert FactoryReset.RESET_LABELS == [
      0x6E, 0x76, 0x73, 0x2C, 0x20, 0x70, 0x68, 0x79, 0x2C, 0x20, 0x6F, 0x74, 0x61, 0x64, 0x61, 0x74, 0x61];
  }

  /** Labels are trimmed of space, tab, line feed, vertical tab, form feed and carriage return. */
  lemma BlankCodes(b: byte)
    ensures FactoryReset.Blank(b) <==> b as nat == 32 || 9 <= b as nat <= 13
  {}

  /** The acknowledgement is '.', and success is announced by "OK". */
  lemma LinkCodes()
    ensures NatOfByte(OtaLink.DOT) == '.' as int
    ensures NatOfByte(OtaLink.LETTER_O) == 'O' as int && NatOfByte(OtaLink.LETTER_K) == 'K' as int
  {
    TextCodes();
  }

  // -------------------------------------------------------------------------
  // The demo table
  // -------------------------------------------------------------------------

  /** The three entries in bytes: magic, type, subtype; offset; size; label; flags. */
  const ENTRY_0: seq<byte> :=
    [0xAA, 0x50, 0x00, 0x00]
    + [0x00, 0x00, 0x01, 0x00]
    + [0x00, 0x00, 0x01, 0x00]
    + [0x66, 0x61, 0x63, 0x74, 0x6F, 0x72, 0x79, 0x00, 0x00, 0x00, 0x00, 0x00, 0x00, 0x00, 0x00, 0x00]
    + [0x00, 0x00, 0x00, 0x00]

  const ENTRY_1: seq<byte> :=
    [0xAA, 0x50, 0x00, 0x10]
    + [0x00, 0x00, 0x02, 0x00]
    + [0x00, 0xE0, 0x01, 0x00]
    + [0x6F, 0x74, 0x61, 0x5F, 0x30, 0x00, 0x00, 0x00, 0x00, 0x00, 0x00, 0x00, 0x00, 0x00, 0x00, 0x00]
    + [0x00, 0x00, 0x00, 0x00]

  const ENTRY_2: seq<byte> :=
    [0xAA, 0x50, 0x01, 0x00]
    + [0x00, 0xE0, 0x03, 0x00]
    + [0x00, 0x20, 0x00, 0x00]
    + [0x6F, 0x74, 0x61, 0x64, 0x61, 0x74, 0x61, 0x00, 0x00, 0x00, 0x00, 0x00, 0x00, 0x00, 0x00, 0x00]
    + [0x00, 0x00, 0x00, 0x00]

  lemma LabelNumbers()
    ensures OtaSystem.LabelBytes(OtaSystem.FACTORY_NAME)
            == [0x66, 0x61, 0x63, 0x74, 0x6F, 0x72, 0x79, 0x00, 0x00, 0x00, 0x00, 0x00, 0x00, 0x00, 0x00, 0x00]
    ensures OtaSystem.LabelBytes(OtaSystem.OTA_0_NAME)
            == [0x6F, 0x74, 0x61, 0x5F, 0x30, 0x00, 0x00, 0x00, 0x00, 0x00, 0x00, 0x00, 0x00, 0x00, 0x00, 0x00]
    ensures OtaSystem.LabelBytes(OtaSystem.OTADATA_NAME)
            == [0x6F, 0x74, 0x61, 0x64, 0x61, 0x74, 0x61, 0x00, 0x00, 0x00, 0x00, 0x00, 0x00, 0x00, 0x00, 0x00]
  {}

  lemma TableNumbers()
    ensures U32Le(0x1_0000) == [0x00, 0x00, 0x01, 0x00]
    ensures U32Le(0x2_0000) == [0x00, 0x00, 0x02, 0x00]
    ensures U32Le(0x1_E000) == [0x00, 0xE0, 0x01, 0x00]
    ensures U32Le(0x3_E000) == [0x00, 0xE0, 0x03, 0x00]
    ensures U32Le(0x2000) == [0x00, 0x20, 0x00, 0x00]
  {
    hide NatOfByte, LeU32, ByteOf;
    NumberOf([0x00, 0x00, 0x01, 0x00], 0x1_0000);
    NumberOf([0x00, 0x00, 0x02, 0x00], 0x2_0000);
    NumberOf([0x00, 0xE0, 0x01, 0x00], 0x1_E000);
    NumberOf([0x00, 0xE0, 0x03, 0x00], 0x3_E000);
    NumberOf([0x00, 0x20, 0x00, 0x00], 0x2000);
  }

  lemma NumberOf(b: seq<byte>, n: u32)
    requires |b| == 4 && n == b[0] as nat + 0x100 * (b[1] as nat) + 0x1_0000 * (b[2] as nat) + 0x100_0000 * (b[3] as nat)
    ensures U32Le(n) == b
  {
    hide U32Le;
    U32LeOfLeU32(b);
  }

  /** The demo table's file, in bytes. */
  lemma DemoTableBytes()
    ensures OtaSystem.DemoTable()[..32] == ENTRY_0
    ensures OtaSystem.DemoTable()[32..64] == ENTRY_1
    ensures OtaSystem.DemoTable()[64..96] == ENTRY_2
    ensures forall i | 96 <= i < 0xC00 :: OtaSystem.DemoTable()[i] == 0xFF
  {
    hide U32Le, OtaSystem.LabelBytes;
    TableNumbers();
    LabelNumbers();
    var t := OtaSystem.DemoTable();
    assert t[..32] == OtaSystem.PartBytes(0x00, 0x00, OtaSystem.FACTORY, OtaSystem.FACTORY_NAME);
    assert t[32..64] == OtaSystem.PartBytes(0x00, 0x10, OtaSystem.OTA_0, OtaSystem.OTA_0_NAME);
    assert t[64..96] == OtaSystem.PartBytes(0x01, 0x00, OtaTransfer.OTA_INFO, OtaSystem.OTADATA_NAME);
  }
}
