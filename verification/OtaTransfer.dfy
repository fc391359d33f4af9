/** The demo application's side of an update: receiving firmware into ota_0 and writing the OTA
    record. */
module OtaTransfer {
  import opened Words
  import opened Crc
  import opened FlashOps
  import opened FlashDriver
  import opened BootTypes
  import opened OtaData
  import opened BootRecords

  const OTA0_OFFSET: u32 := 0x2_0000
  const OTA0_SIZE: u32 := 0x1_E000
  const OTA_DATA_OFFSET: u32 := 0x3_E000
  const LAYOUT_END: u32 := 0x4_0000
  const CHUNK: nat := 256

  const OTA_INFO: PartitionPos := PartitionPos(0x3_E000, 0x2000)

  // -------------------------------------------------------------------------
  // What a transfer does to the flash
  // -------------------------------------------------------------------------

  /** The ROM writes whole words; the tail is filled with zeros. */
  function Padded(b: seq<byte>): (r: seq<byte>)
    ensures |r| == (|b| + 3) / 4 * 4 && b <= r
  {
    b + seq((|b| + 3) / 4 * 4 - |b|, _ => 0)
  }

  function WordsOf(b: seq<byte>): (ws: seq<bv32>)
    requires |b| % 4 == 0
    ensures |ws| == |b| / 4
    ensures forall k | 0 <= k < |ws| :: ws[k] == WordAt(b, 4 * k)
  {
    seq(|b| / 4, k requires 0 <= k < |b| / 4 => WordAt(b, 4 * k))
  }

  function ImageOps(fw: seq<byte>): (ops: seq<FlashOp>)
    ensures |ops| == (|fw| + 3) / 4
  {
    ProgramWords(OTA0_OFFSET, WordsOf(Padded(fw)))
  }

  /** The record the application writes: slot 0, with a CRC. */
  function OwnEntry(state: bv32): OtaEntry {
    OtaEntry(1, state, SeqCrc(1))
  }

  /** `write_ota_data_entry`: the record and one zero word behind it. */
  function RecordOps(state: bv32): (ops: seq<FlashOp>)
    ensures |ops| == 5
  {
    WriteEntry(OTA_DATA_OFFSET, OwnEntry(state), [0])
  }

  /** Everything before the record. */
  function StoreOps(fw: seq<byte>): (ops: seq<FlashOp>)
    requires |fw| <= OTA0_SIZE
  {
    EraseOps(OTA0_OFFSET, |fw|) + ImageOps(fw)
  }

  function OtaOps(fw: seq<byte>): seq<FlashOp>
    requires |fw| <= OTA0_SIZE
  {
    StoreOps(fw) + RecordOps(IMG_NEW)
  }

  // -------------------------------------------------------------------------
  // Bytes stored
  // -------------------------------------------------------------------------

  lemma {:induction false} ProgrammedPrefix(mem: seq<byte>, a: nat, ws: seq<bv32>, n: nat, i: nat)
    requires n <= |ws| && a + 4 * |ws| <= |mem| && i < |mem|
    requires forall j | a <= j < a + 4 * |ws| :: mem[j] == 0xFF
    ensures ApplyAll(mem, ProgramWords(a, ws)[..n])[i]
            == if a <= i < a + 4 * n then WordLe(ws[(i - a) / 4])[(i - a) % 4] else mem[i]
  {
    hide WordLe, And, ProgramWords;
    var ops := ProgramWords(a, ws);
    if n > 0 {
      ProgrammedPrefix(mem, a, ws, n - 1, i);
      assert ops[..n] == ops[..n - 1] + [ops[n - 1]];
      ApplyAllLast(mem, ops[..n - 1], ops[n - 1]);
      if a + 4 * (n - 1) <= i < a + 4 * n {
        AndErased(WordLe(ws[n - 1])[i - a - 4 * (n - 1)]);
        assert (i - a) / 4 == n - 1;
      }
    }
  }

  lemma WordBytes(b: seq<byte>, k: nat, r: nat)
    requires 4 * k + 4 <= |b| && r < 4
    ensures WordLe(WordAt(b, 4 * k))[r] == b[4 * k + r]
  {
    hide WordLe, LeWord;
    WordLeOfLeWord(b[4 * k..4 * k + 4]);
    assert b[4 * k..4 * k + 4][r] == b[4 * k + r];
  }

  /** The chip is large enough for the layout. */
  predicate LayoutFits(mem: seq<byte>) {
    LAYOUT_END <= |mem| <= MAX_CHIP && |mem| % SECTOR_SIZE == 0
  }

  lemma StoreWithin(fw: seq<byte>)
    requires |fw| <= OTA0_SIZE
    ensures Within(StoreOps(fw), OTA0_OFFSET, OTA0_OFFSET + SectorsFor(|fw|) * SECTOR_SIZE)
    ensures SectorsFor(|fw|) * SECTOR_SIZE <= OTA0_SIZE
  {
    hide WordsOf;
    assert Add32(|fw|, SECTOR_SIZE - 1) == |fw| + (SECTOR_SIZE - 1);
    var n := SectorsFor(|fw|);
    var lo, hi := OTA0_OFFSET, OTA0_OFFSET + n * SECTOR_SIZE;
    assert OTA0_OFFSET / SECTOR_SIZE * SECTOR_SIZE == OTA0_OFFSET;
    EraseWithin(n, lo, hi, |fw|);
    assert (|fw| + 3) / 4 * 4 <= n * SECTOR_SIZE by { RoundedUp(|fw|); }
    assert Within(ImageOps(fw), lo, hi);
    WithinConcat(EraseOps(OTA0_OFFSET, |fw|), ImageOps(fw), lo, hi);
  }

  lemma RoundedUp(size: nat)
    ensures size <= (size + 3) / 4 * 4 <= (size + (SECTOR_SIZE - 1)) / SECTOR_SIZE * SECTOR_SIZE
  {
    var s := (size + (SECTOR_SIZE - 1)) / SECTOR_SIZE;
    assert s * SECTOR_SIZE == 4 * (1024 * s);
  }

  lemma EraseWithin(n: nat, lo: nat, hi: nat, size: u32)
    requires n == SectorsFor(size) && lo == OTA0_OFFSET && hi == lo + n * SECTOR_SIZE
    ensures Within(EraseOps(OTA0_OFFSET, size), lo, hi)
  {
    var ops := EraseOps(OTA0_OFFSET, size);
    forall k | 0 <= k < |ops|
      ensures lo <= ops[k].sector * SECTOR_SIZE && (ops[k].sector + 1) * SECTOR_SIZE <= hi
    {
      assert (k + 1) * SECTOR_SIZE <= n * SECTOR_SIZE;
    }
  }

  /** Erasing and programming puts exactly the firmware into ota_0. */
  lemma FirmwareStored(mem: seq<byte>, fw: seq<byte>)
    requires LayoutFits(mem) && |fw| <= OTA0_SIZE
    ensures LiesIn(ApplyAll(mem, StoreOps(fw)), fw)
  {
    hide WordLe, LeWord, WordAt, EraseOps;
    ApplyAllConcat(mem, EraseOps(OTA0_OFFSET, |fw|), ImageOps(fw));
    StoreBounds(|fw|);
    ErasedForImage(mem, fw);
    PaddedStored(ApplyAll(mem, EraseOps(OTA0_OFFSET, |fw|)), fw);
  }

  lemma ErasedForImage(mem: seq<byte>, fw: seq<byte>)
    requires LayoutFits(mem) && |fw| <= OTA0_SIZE
    ensures forall j | OTA0_OFFSET <= j < OTA0_OFFSET + |Padded(fw)| && j < |mem| ::
              ApplyAll(mem, EraseOps(OTA0_OFFSET, |fw|))[j] == 0xFF
  {
    hide EraseOps;
    var n := SectorsFor(|fw|);
    assert Add32(|fw|, SECTOR_SIZE - 1) == |fw| + (SECTOR_SIZE - 1);
    RoundedUp(|fw|);
    assert EraseOps(OTA0_OFFSET, |fw|)[..n] == EraseOps(OTA0_OFFSET, |fw|);
    forall j | OTA0_OFFSET <= j < OTA0_OFFSET + |Padded(fw)| && j < |mem|
      ensures ApplyAll(mem, EraseOps(OTA0_OFFSET, |fw|))[j] == 0xFF
    {
      ErasePrefix(mem, OTA0_OFFSET, |fw|, n, j);
    }
  }

  lemma StoreBounds(size: nat)
    requires size <= OTA0_SIZE
    ensures OTA0_OFFSET + (size + 3) / 4 * 4 <= OTA_DATA_OFFSET
  {}

  predicate LiesIn(mem: seq<byte>, fw: seq<byte>) {
    OTA0_OFFSET + |fw| <= |mem| && mem[OTA0_OFFSET..OTA0_OFFSET + |fw|] == fw
  }

  lemma PaddedStored(mid: seq<byte>, fw: seq<byte>)
    requires OTA0_OFFSET + |Padded(fw)| <= |mid|
    requires forall j | OTA0_OFFSET <= j < OTA0_OFFSET + |Padded(fw)| :: mid[j] == 0xFF
    ensures LiesIn(ApplyAll(mid, ImageOps(fw)), fw)
  {
    hide WordLe, LeWord, WordAt, Padded, WordsOf, ApplyAll;
    var p, ws := Padded(fw), WordsOf(Padded(fw));
    var after := ApplyAll(mid, ImageOps(fw));
    assert ImageOps(fw)[..|ws|] == ImageOps(fw);
    forall i | 0 <= i < |fw|
      ensures after[OTA0_OFFSET + i] == fw[i]
    {
      ProgrammedPrefix(mid, OTA0_OFFSET, ws, |ws|, OTA0_OFFSET + i);
      WordBytes(p, i / 4, i % 4);
    }
  }

  // -------------------------------------------------------------------------
  // A transfer cut anywhere
  // -------------------------------------------------------------------------

  /** The record comes last: until the whole image is stored both OTA sectors are untouched, and from
      then on the image stays and the record is the torn one. */
  lemma CutTransfer(mem: seq<byte>, fw: seq<byte>, k: nat)
    requires LayoutFits(mem) && 0 < |fw| <= OTA0_SIZE && k <= |OtaOps(fw)|
    ensures var after, n := ApplyAll(mem, OtaOps(fw)[..k]), |StoreOps(fw)|;
            && Placed(mem, OTA_INFO)
            && SectorBytes(after, OTA_INFO, 1) == SectorBytes(mem, OTA_INFO, 1)
            && (k <= n ==> SectorBytes(after, OTA_INFO, 0) == SectorBytes(mem, OTA_INFO, 0))
            && (k >= n ==> LiesIn(after, fw)
                           && Record(after, OTA_INFO, 0) == Torn(Record(mem, OTA_INFO, 0), OwnEntry(IMG_NEW), k - n))
  {
    hide EntryAt, Torn, StoreOps, RecordOps, SeqCrc;
    var store, record := StoreOps(fw), RecordOps(IMG_NEW);
    var n := |store|;
    var stored := ApplyAll(mem, store);
    StoreWithin(fw);
    if k <= n {
      assert OtaOps(fw)[..k] == store[..k];
      assert Within(store[..k], OTA0_OFFSET, OTA_DATA_OFFSET);
      WithinLeavesRest(mem, store[..k], OTA0_OFFSET, OTA_DATA_OFFSET);
    }
    if k >= n {
      assert OtaOps(fw)[..k] == store + record[..k - n];
      ApplyAllConcat(mem, store, record[..k - n]);
      assert Within(store, OTA0_OFFSET, OTA_DATA_OFFSET);
      WithinLeavesRest(mem, store, OTA0_OFFSET, OTA_DATA_OFFSET);
      FirmwareStored(mem, fw);
      RecordOfSector(mem, stored, OTA_INFO, 0);
      CutRecord(stored, IMG_NEW, k - n);
      FirmwareKept(stored, ApplyAll(stored, record[..k - n]), fw);
    }
  }

  /** A transfer cut while it programs already holds the whole firmware exactly when every byte still
      to come is the erased value. */
  lemma PartlyStoredIff(mem: seq<byte>, fw: seq<byte>, n: nat)
    requires LayoutFits(mem) && |fw| <= OTA0_SIZE && n <= |ImageOps(fw)|
    ensures LiesIn(ApplyAll(mem, (EraseOps(OTA0_OFFSET, |fw|) + ImageOps(fw))[..|EraseOps(OTA0_OFFSET, |fw|)| + n]), fw)
            <==> forall i | 4 * n <= i < |fw| :: fw[i] == 0xFF
  {
    hide WordLe, LeWord, WordAt, EraseOps, Padded, WordsOf, ApplyAll, LiesIn;
    var erases, p, ws := EraseOps(OTA0_OFFSET, |fw|), Padded(fw), WordsOf(Padded(fw));
    var mid := ApplyAll(mem, erases);
    var after := ApplyAll(mid, ImageOps(fw)[..n]);
    assert (erases + ImageOps(fw))[..|erases| + n] == erases + ImageOps(fw)[..n];
    ApplyAllConcat(mem, erases, ImageOps(fw)[..n]);
    StoreBounds(|fw|);
    ErasedForImage(mem, fw);
    forall i | 0 <= i < |fw|
      ensures after[OTA0_OFFSET + i] == if i < 4 * n then fw[i] else 0xFF
    {
      ProgrammedPrefix(mid, OTA0_OFFSET, ws, n, OTA0_OFFSET + i);
      WordBytes(p, i / 4, i % 4);
    }
    LiesInIff(after, fw);
  }

  lemma LiesInIff(mem: seq<byte>, fw: seq<byte>)
    requires OTA0_OFFSET + |fw| <= |mem|
    ensures LiesIn(mem, fw) <==> forall i | 0 <= i < |fw| :: mem[OTA0_OFFSET + i] == fw[i]
  {
    if LiesIn(mem, fw) {
      var stored := mem[OTA0_OFFSET..OTA0_OFFSET + |fw|];
      assert forall i | 0 <= i < |fw| :: stored[i] == mem[OTA0_OFFSET + i];
    }
  }

  lemma FirmwareKept(mem: seq<byte>, after: seq<byte>, fw: seq<byte>)
    requires LiesIn(mem, fw) && |fw| <= OTA0_SIZE && |after| == |mem|
    requires forall i | OTA0_OFFSET <= i < OTA_DATA_OFFSET && i < |mem| :: after[i] == mem[i]
    ensures LiesIn(after, fw)
  {}

  /** Writing the record, cut anywhere, tears record 0 and touches nothing outside its sector. */
  lemma CutRecord(mem: seq<byte>, state: bv32, k: nat)
    requires LayoutFits(mem) && k <= 5
    ensures var after := ApplyAll(mem, RecordOps(state)[..k]);
            && |after| == |mem|
            && Record(after, OTA_INFO, 0) == Torn(Record(mem, OTA_INFO, 0), OwnEntry(state), k)
            && forall i | 0 <= i < |mem| && !(OTA_DATA_OFFSET <= i < OTA_DATA_OFFSET + SECTOR_SIZE) :: after[i] == mem[i]
  {
    hide EntryAt, Torn, WriteEntry, SeqCrc;
    var e := OwnEntry(state);
    WriteEntryWithin(OTA_DATA_OFFSET, e, [0]);
    EntryAfterCut(mem, OTA_DATA_OFFSET, e, [0], k);
    assert Within(RecordOps(state)[..k], OTA_DATA_OFFSET, OTA_DATA_OFFSET + SECTOR_SIZE);
    WithinLeavesRest(mem, RecordOps(state)[..k], OTA_DATA_OFFSET, OTA_DATA_OFFSET + SECTOR_SIZE);
  }

  // -------------------------------------------------------------------------
  // The bytes left in flash
  // -------------------------------------------------------------------------

  lemma OwnBytes(state: bv32)
    requires state == 0 || state == 2
    ensures EntryBytes(OwnEntry(state)) == [1, 0, 0, 0] + (if state == 2 then [2, 0, 0, 0] else [0, 0, 0, 0]) + [0x86, 0x47, 0x07, 0x66]
  {
    hide WordLe, SeqCrc;
    SmallWords();
    CrcOfOne();
  }

  /** The record lands at 0x3E000: number 1, the state word, and the CRC of the number. */
  lemma RecordLands(mem: seq<byte>, state: bv32)
    requires LayoutFits(mem) && (state == 0 || state == 2)
    ensures var after := ApplyAll(mem, RecordOps(state));
            && |after| == |mem|
            && after[0x3_E000..0x3_E00C] == [1, 0, 0, 0] + (if state == 2 then [2, 0, 0, 0] else [0, 0, 0, 0]) + [0x86, 0x47, 0x07, 0x66]
  {
    hide EntryAt, RecordOps, EntryBytes, ApplyAll, SeqCrc;
    assert RecordOps(state)[..5] == RecordOps(state);
    CutRecord(mem, state, 5);
    OwnBytes(state);
    EntryIffBytes(ApplyAll(mem, RecordOps(state)), 0x3_E000, OwnEntry(state));
  }

  /** A completed transfer: the firmware from 0x20000 on, the record at 0x3E000. */
  lemma TransferLands(mem: seq<byte>, fw: seq<byte>)
    requires LayoutFits(mem) && 0 < |fw| <= OTA0_SIZE
    ensures var after := ApplyAll(mem, OtaOps(fw));
            && |after| == |mem|
            && after[0x2_0000..0x2_0000 + |fw|] == fw
            && after[0x3_E000..0x3_E00C] == [1, 0, 0, 0, 0, 0, 0, 0, 0x86, 0x47, 0x07, 0x66]
  {
    hide EntryAt, RecordOps, StoreOps, ApplyAll, SeqCrc;
    var stored := ApplyAll(mem, StoreOps(fw));
    ApplyAllConcat(mem, StoreOps(fw), RecordOps(IMG_NEW));
    AppliedLength(mem, StoreOps(fw));
    RecordLands(stored, IMG_NEW);
    assert OtaOps(fw)[..|OtaOps(fw)|] == OtaOps(fw);
    CutTransfer(mem, fw, |OtaOps(fw)|);
  }

  lemma AppliedLength(mem: seq<byte>, ops: seq<FlashOp>)
    ensures |ApplyAll(mem, ops)| == |mem|
  {}

  // -------------------------------------------------------------------------
  // The application's code
  // -------------------------------------------------------------------------

  datatype Signal = BadSize | Ready | Dot | Finished

  /** The serial line: what the host has sent, how much of it was read, and what was answered. */
  class Uart {
    const input: seq<byte>
    var pos: nat
    var sent: seq<Signal>

    method Getc() returns (b: byte)
      requires pos < |input|
      modifies this`pos
      ensures b == input[old(pos)] && pos == old(pos) + 1
    {
      b := input[pos];
      pos := pos + 1;
    }

    method Put(s: Signal)
      modifies this`sent
      ensures sent == old(sent) + [s]
    {
      sent := sent + [s];
    }
  }

  function Dots(n: nat): seq<Signal> {
    seq(n, _ => Dot)
  }

  method WriteOtaDataEntry(flash: Flash, state: bv32)
    requires LayoutFits(flash.mem)
    modifies flash`mem, flash`log
    ensures Performed(old(flash.mem), old(flash.log), flash.mem, flash.log, RecordOps(state))
  {
    hide Performed, Register, ProgramWords, WordLe;
    var crc := Crc32Le(0xFFFF_FFFF, WordLe(1));
    var words := [1, state, crc, 0];
    ghost var start, startLog := flash.mem, flash.log;
    var _ := flash.EraseSector(OTA_DATA_OFFSET / SECTOR_SIZE);
    ghost var first := [Erase(OTA_DATA_OFFSET / SECTOR_SIZE)];
    PerformedLength(start, startLog, flash.mem, flash.log, first);
    ghost var mid, midLog := flash.mem, flash.log;
    var _ := flash.Write(OTA_DATA_OFFSET, words);
    PerformedThen(start, startLog, mid, midLog, first, flash.mem, flash.log, ProgramWords(OTA_DATA_OFFSET, words));
    var e := OwnEntry(state);
    assert [e.otaSeq, e.otaState, e.crc] + [0] == words;
  }

  /** `mark_ota_valid` */
  method MarkOtaValid(flash: Flash)
    requires LayoutFits(flash.mem)
    modifies flash`mem, flash`log
    ensures Performed(old(flash.mem), old(flash.log), flash.mem, flash.log, RecordOps(IMG_VALID))
    ensures |flash.mem| == |old(flash.mem)|
    ensures flash.mem[0x3_E000..0x3_E00C] == [1, 0, 0, 0, 2, 0, 0, 0, 0x86, 0x47, 0x07, 0x66]
  {
    hide RecordOps, ApplyAll;
    ghost var mem := flash.mem;
    WriteOtaDataEntry(flash, IMG_VALID);
    AppliedLength(mem, RecordOps(IMG_VALID));
    RecordLands(mem, IMG_VALID);
  }

  method EraseForImage(flash: Flash, size: u32)
    requires LayoutFits(flash.mem) && 0 < size <= OTA0_SIZE
    modifies flash`mem, flash`log
    ensures Performed(old(flash.mem), old(flash.log), flash.mem, flash.log, EraseOps(OTA0_OFFSET, size))
  {
    hide Performed;
    ghost var start, startLog, ops := flash.mem, flash.log, EraseOps(OTA0_OFFSET, size);
    var sectors := Add32(size, SECTOR_SIZE - 1) / SECTOR_SIZE;
    PerformedNothing(start, startLog);
    for i := 0 to sectors
      invariant |flash.mem| == |start|
      invariant Performed(start, startLog, flash.mem, flash.log, ops[..i])
    {
      ghost var mid, midLog := flash.mem, flash.log;
      var _ := flash.EraseSector(OTA0_OFFSET / SECTOR_SIZE + i);
      PerformedLength(mid, midLog, flash.mem, flash.log, [ops[i]]);
      PerformedThen(start, startLog, mid, midLog, ops[..i], flash.mem, flash.log, [ops[i]]);
      assert ops[..i + 1] == ops[..i] + [ops[i]];
    }
    assert ops[..sectors] == ops;
  }

  /** Read one chunk and pad it to whole words. */
  method ReceiveChunk(uart: Uart, chunk: nat) returns (buf: array<byte>)
    requires chunk <= CHUNK && uart.pos + chunk <= |uart.input|
    modifies uart`pos
    ensures fresh(buf) && buf.Length == CHUNK && uart.pos == old(uart.pos) + chunk
    ensures buf[..|Padded(uart.input[old(uart.pos)..uart.pos])|] == Padded(uart.input[old(uart.pos)..uart.pos])
  {
    buf := new byte[CHUNK];
    for i := 0 to chunk
      invariant uart.pos == old(uart.pos) + i
      invariant buf[..i] == uart.input[old(uart.pos)..uart.pos]
    {
      buf[i] := uart.Getc();
    }
    var aligned := (chunk + 3) / 4 * 4;
    for i := chunk to aligned
      invariant uart.pos == old(uart.pos) + chunk
      invariant buf[..chunk] == uart.input[old(uart.pos)..uart.pos]
      invariant forall k | chunk <= k < i :: buf[k] == 0
    {
      buf[i] := 0;
    }
    assert buf[..aligned] == buf[..chunk] + buf[chunk..aligned];
  }

  /** Writing chunk after chunk programs the same words as writing the padded image at once. */
  lemma OneMoreChunk(fw: seq<byte>, w: nat, n: nat)
    requires w % 4 == 0 && w + n <= |fw|
    ensures ImageOps(fw[..w + n]) == ImageOps(fw[..w]) + ProgramWords(OTA0_OFFSET + w, WordsOf(Padded(fw[w..w + n])))
  {
    hide WordsOf, Padded;
    var a, b, c := Padded(fw[..w]), Padded(fw[w..w + n]), Padded(fw[..w + n]);
    PaddedMore(fw, w, n);
    WordsOfMore(a, b);
    var wa, wb := WordsOf(a), WordsOf(b);
    var ops := ProgramWords(OTA0_OFFSET, wa + wb);
    assert ops == ProgramWords(OTA0_OFFSET, wa) + ProgramWords(OTA0_OFFSET + w, wb);
  }

  lemma PaddedMore(fw: seq<byte>, w: nat, n: nat)
    requires w % 4 == 0 && w + n <= |fw|
    ensures |Padded(fw[..w])| == w
    ensures Padded(fw[..w + n]) == Padded(fw[..w]) + Padded(fw[w..w + n])
  {
    var m := w / 4;
    assert w == 4 * m && (4 * m + n + 3) / 4 == m + (n + 3) / 4 && (4 * m + 3) / 4 == m;
    assert fw[..w + n] == fw[..w] + fw[w..w + n];
  }

  lemma WordsOfMore(a: seq<byte>, b: seq<byte>)
    requires |a| % 4 == 0 && |b| % 4 == 0
    ensures WordsOf(a + b) == WordsOf(a) + WordsOf(b)
  {
    hide LeWord;
    var ws := WordsOf(a + b);
    forall k | 0 <= k < |ws|
      ensures ws[k] == (WordsOf(a) + WordsOf(b))[k]
    {
      if k < |a| / 4 {
        assert 4 * k + 4 <= |a|;
        assert (a + b)[4 * k..4 * k + 4] == a[4 * k..4 * k + 4];
      } else {
        var m := k - |a| / 4;
        assert 4 * k == |a| + 4 * m && 4 * m + 4 <= |b|;
        SliceOfSlice(a + b, |a|, |a + b|, 4 * m, 4 * m + 4);
        assert (a + b)[|a|..|a + b|] == b;
      }
    }
  }

  /** One turn of the receive loop: read a chunk, program it, acknowledge it. */
  method StoreChunk(flash: Flash, uart: Uart, ghost fw: seq<byte>, written: nat, chunk: nat)
    requires LayoutFits(flash.mem) && 0 < chunk <= CHUNK
    requires written % CHUNK == 0 && written + chunk <= |fw| <= OTA0_SIZE
    requires uart.pos + chunk <= |uart.input| && uart.input[uart.pos..uart.pos + chunk] == fw[written..written + chunk]
    modifies flash`mem, flash`log, uart`pos, uart`sent
    ensures uart.pos == old(uart.pos) + chunk && uart.sent == old(uart.sent) + [Dot]
    ensures Performed(old(flash.mem), old(flash.log), flash.mem, flash.log,
                      ProgramWords(OTA0_OFFSET + written, WordsOf(Padded(fw[written..written + chunk]))))
  {
    hide Performed, ProgramWords, WordsOf, Padded;
    StoreBounds(|fw|);
    ghost var data := fw[written..written + chunk];
    var buf := ReceiveChunk(uart, chunk);
    var aligned := (chunk + 3) / 4 * 4;
    var _ := flash.Write(OTA0_OFFSET + written, WordsOf(buf[..aligned]));
    uart.Put(Dot);
  }

  /** The receive loop. */
  method StoreImage(flash: Flash, uart: Uart, size: u32)
    requires LayoutFits(flash.mem) && 0 < size <= OTA0_SIZE && uart.pos + size <= |uart.input|
    modifies flash`mem, flash`log, uart`pos, uart`sent
    ensures uart.pos == old(uart.pos) + size
    ensures Performed(old(flash.mem), old(flash.log), flash.mem, flash.log, ImageOps(uart.input[old(uart.pos)..uart.pos]))
    ensures uart.sent == old(uart.sent) + Dots((size + 255) / CHUNK)
  {
    hide Performed, ImageOps, WordsOf, Padded, ApplyAll, Dots, ProgramWords, AtChunk;
    ghost var start, startLog := flash.mem, flash.log;
    ghost var fw := uart.input[uart.pos..uart.pos + size];
    PerformedNothing(start, startLog);
    NothingStored();
    NoDots();
    assert fw[..0] == [];
    var written := 0;
    FirstChunk(size);
    while written < size
      invariant written <= size
      invariant AtChunk(written, size)
      invariant |flash.mem| == |start| && uart.pos == old(uart.pos) + written
      invariant Performed(start, startLog, flash.mem, flash.log, ImageOps(fw[..written]))
      invariant uart.sent == old(uart.sent) + Dots((written + 255) / CHUNK)
    {
      var chunk := size - written;
      if chunk > 256 {
        chunk := 256;
      }
      NextChunk(written, size);
      ghost var mid, midLog := flash.mem, flash.log;
      SliceOfSlice(uart.input, old(uart.pos), old(uart.pos) + size, written, written + chunk);
      StoreChunk(flash, uart, fw, written, chunk);
      ghost var more := ProgramWords(OTA0_OFFSET + written, WordsOf(Padded(fw[written..written + chunk])));
      PerformedLength(mid, midLog, flash.mem, flash.log, more);
      PerformedThen(start, startLog, mid, midLog, ImageOps(fw[..written]), flash.mem, flash.log, more);
      OneMoreChunk(fw, written, chunk);
      assert uart.sent == old(uart.sent) + (Dots((written + 255) / CHUNK) + [Dot]);
      written := written + chunk;
    }
    assert fw[..size] == fw;
  }

  /** `cmd_ota`, from the size check to the reset; the host is taken to deliver all bytes of an accepted
      size. */
  method CmdOta(flash: Flash, uart: Uart, size: u32) returns (ok: bool)
    requires LayoutFits(flash.mem) && (0 < size <= OTA0_SIZE ==> uart.pos + size <= |uart.input|)
    modifies flash`mem, flash`log, uart`pos, uart`sent
    ensures ok <==> 0 < size <= 0x1_E000
    ensures ok ==> |flash.mem| == |old(flash.mem)|
    ensures ok ==>
              && flash.mem[0x2_0000..0x2_0000 + size] == uart.input[old(uart.pos)..old(uart.pos) + size]
              && flash.mem[0x3_E000..0x3_E00C] == [1, 0, 0, 0, 0, 0, 0, 0, 0x86, 0x47, 0x07, 0x66]
    ensures ok ==>
              && uart.pos == old(uart.pos) + size
              && Performed(old(flash.mem), old(flash.log), flash.mem, flash.log, OtaOps(uart.input[old(uart.pos)..uart.pos]))
              && uart.sent == old(uart.sent) + [Ready] + Dots((size + 255) / CHUNK) + [Finished]
    ensures !ok ==>
              && uart.pos == old(uart.pos) && uart.sent == old(uart.sent) + [BadSize]
              && Performed(old(flash.mem), old(flash.log), flash.mem, flash.log, [])
  {
    hide Performed, ImageOps, RecordOps, EraseOps, Dots;
    ghost var start, startLog := flash.mem, flash.log;
    PerformedNothing(start, startLog);
    if size == 0 || size > OTA0_SIZE {
      uart.Put(BadSize);
      return false;
    }
    ghost var fw := uart.input[uart.pos..uart.pos + size];
    uart.Put(Ready);
    EraseForImage(flash, size);
    ghost var erased, erasedLog := flash.mem, flash.log;
    PerformedLength(start, startLog, erased, erasedLog, EraseOps(OTA0_OFFSET, size));
    StoreImage(flash, uart, size);
    ghost var stored, storedLog := flash.mem, flash.log;
    PerformedLength(erased, erasedLog, stored, storedLog, ImageOps(fw));
    PerformedThen(start, startLog, erased, erasedLog, EraseOps(OTA0_OFFSET, size), stored, storedLog, ImageOps(fw));
    WriteOtaDataEntry(flash, IMG_NEW);
    PerformedThen(start, startLog, stored, storedLog, StoreOps(fw), flash.mem, flash.log, RecordOps(IMG_NEW));
    TransferPerformed(start, startLog, flash.mem, flash.log, fw);
    uart.Put(Finished);
    ok := true;
  }

  lemma TransferPerformed(mem: seq<byte>, log: seq<FlashOp>, after: seq<byte>, afterLog: seq<FlashOp>, fw: seq<byte>)
    requires LayoutFits(mem) && 0 < |fw| <= OTA0_SIZE && Performed(mem, log, after, afterLog, OtaOps(fw))
    ensures |after| == |mem| && after[0x2_0000..0x2_0000 + |fw|] == fw
    ensures after[0x3_E000..0x3_E00C] == [1, 0, 0, 0, 0, 0, 0, 0, 0x86, 0x47, 0x07, 0x66]
  {
    hide OtaOps, ApplyAll;
    TransferLands(mem, fw);
  }

  lemma NoDots()
    ensures Dots((0 + 255) / CHUNK) == []
  {}

  predicate AtChunk(written: nat, size: nat) {
    written < size ==> written % CHUNK == 0
  }

  lemma FirstChunk(size: nat)
    ensures AtChunk(0, size)
  {}

  lemma NextChunk(written: nat, size: nat)
    requires AtChunk(written, size) && written < size
    ensures var chunk := if size - written > 256 then 256 else size - written;
            && chunk > 0 && written % CHUNK == 0 && written % 4 == 0 && AtChunk(written + chunk, size)
            && Dots((written + chunk + 255) / CHUNK) == Dots((written + 255) / CHUNK) + [Dot]
  {
    hide Dots;
    var n := written / CHUNK;
    assert written == CHUNK * n;
    Chunks(n, if size - written > 256 then 256 else size - written);
    DotsMore(n);
  }

  lemma Chunks(n: nat, chunk: nat)
    requires 0 < chunk <= CHUNK
    ensures (CHUNK * n + 255) / CHUNK == n && (CHUNK * n + chunk + 255) / CHUNK == n + 1
    ensures (CHUNK * n) % 4 == 0 && (CHUNK * n + CHUNK) % CHUNK == 0
  {
    assert CHUNK * n == 4 * (64 * n);
  }

  lemma DotsMore(n: nat)
    ensures Dots(n + 1) == Dots(n) + [Dot]
  {}

  lemma NothingStored()
    ensures ImageOps([]) == []
  {}
}
