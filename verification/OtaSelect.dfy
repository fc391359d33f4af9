/** The boot-time methods that read and update the OTA records, proved to perform exactly the
    operations of `BootRecords`. */
module OtaSelect {
  import opened Words
  import opened FlashOps
  import opened FlashDriver
  import opened BootTypes
  import opened OtaData
  import opened BootRecords

  lemma EntryInBuffer(buf: seq<byte>, mem: seq<byte>, a: nat)
    requires |buf| >= ENTRY_SIZE && a + ENTRY_SIZE <= |mem|
    requires buf[..ENTRY_SIZE] == mem[a..a + ENTRY_SIZE]
    ensures EntryAt(buf, 0) == EntryAt(mem, a)
  {
    hide LeWord;
    SliceOfSlice(buf, 0, ENTRY_SIZE, 0, 4);
    SliceOfSlice(buf, 0, ENTRY_SIZE, 4, 8);
    SliceOfSlice(buf, 0, ENTRY_SIZE, 8, 12);
    SliceOfSlice(mem, a, a + ENTRY_SIZE, 0, 4);
    SliceOfSlice(mem, a, a + ENTRY_SIZE, 4, 8);
    SliceOfSlice(mem, a, a + ENTRY_SIZE, 8, 12);
  }

  /** Map one record and copy it out. */
  method ReadEntry(flash: Flash, a: u32) returns (ok: bool, e: OtaEntry)
    requires flash.Valid() && !flash.encrypted && !flash.mapped
    modifies flash`readCount, flash`mapped, flash`mappedSize, flash`readMapping, flash`window, flash.buf
    ensures flash.Valid() && !flash.mapped
    ensures ok ==> a + ENTRY_SIZE <= |flash.mem| && e == EntryAt(flash.mem, a)
    ensures flash.Reliable() && 0 < a && a + ENTRY_SIZE <= |flash.mem| ==> ok
  {
    hide EntryAt;
    var ptr := flash.Mmap(a, ENTRY_SIZE);
    if ptr == null {
      return false, BLANK;
    }
    EntryInBuffer(flash.buf[..], flash.mem, a);
    e := EntryAt(ptr[..], 0);
    flash.Munmap();
    ok := true;
  }

  method ReadOtadata(flash: Flash, info: PartitionPos, otadata: array<OtaEntry>) returns (ok: bool)
    requires flash.Valid() && !flash.encrypted && !flash.mapped
    requires otadata.Length == 2 && otadata as object != flash.buf
    modifies flash`readCount, flash`mapped, flash`mappedSize, flash`readMapping, flash`window, flash.buf, otadata
    ensures flash.Valid() && !flash.mapped
    ensures ok ==> Readable(flash.mem, info)
    ensures ok ==> otadata[0] == Record(flash.mem, info, 0) && otadata[1] == Record(flash.mem, info, 1)
    ensures flash.Reliable() && Readable(flash.mem, info) ==> ok
  {
    hide EntryAt;
    if info.offset == 0 {
      return false;
    }
    if info.size < 2 * SECTOR_SIZE {
      return false;
    }
    var e;
    ok, e := ReadEntry(flash, info.offset);
    if !ok {
      return;
    }
    otadata[0] := e;
    ok, e := ReadEntry(flash, Add32(info.offset, SECTOR_SIZE));
    if !ok {
      return;
    }
    otadata[1] := e;
  }

  /** A sector number computed from an address inside the chip is inside the chip. */
  lemma SectorInChip(a: nat, chip: nat)
    requires a < chip && chip % SECTOR_SIZE == 0
    ensures (a / SECTOR_SIZE + 1) * SECTOR_SIZE <= chip
  {
    assert chip == SECTOR_SIZE * (chip / SECTOR_SIZE);
    assert a / SECTOR_SIZE < chip / SECTOR_SIZE;
  }

  /** Erase the sector of record `s` and program the record, word by word. */
  method ReplaceEntry(flash: Flash, info: PartitionPos, s: nat, e: OtaEntry)
    requires flash.Valid() && s < 2 && Readable(flash.mem, info)
    modifies flash`mem, flash`log
    ensures flash.Valid()
    ensures Performed(old(flash.mem), old(flash.log), flash.mem, flash.log, WriteOps(info, RecordWrite(s, e)))
  {
    hide Performed;
    var addr := info.offset + s * SECTOR_SIZE;
    var words := [e.otaSeq, e.otaState, e.crc];
    SectorInChip(addr, |flash.mem|);
    ghost var start, startLog := flash.mem, flash.log;
    var erased := flash.EraseSector(addr / SECTOR_SIZE);
    PerformedLength(start, startLog, flash.mem, flash.log, [Erase(addr / SECTOR_SIZE)]);
    if erased {
      ghost var mid, midLog := flash.mem, flash.log;
      var _ := flash.Write(addr, words);
      PerformedThen(start, startLog, mid, midLog, [Erase(addr / SECTOR_SIZE)], flash.mem, flash.log, ProgramWords(addr, words));
      PerformedLength(mid, midLog, flash.mem, flash.log, ProgramWords(addr, words));
      assert words + [] == words;
    }
  }

  /** The partition index two records (after rollback) lead to. */
  method PickIndex(e0: OtaEntry, e1: OtaEntry, bs: BootTable) returns (index: int)
    requires bs.Valid()
    ensures var c := ActiveOtadata(e0, e1);
            index == if c < 0 then FACTORY_INDEX else IndexOfSeq(bs, if c == 0 then e0.otaSeq else e1.otaSeq)
  {
    hide SeqCrc, SlotOf;
    var active := ActiveOtadata(e0, e1);
    if active < 0 {
      return FACTORY_INDEX;
    }
    var entry := if active == 0 then e0 else e1;
    // An aborted entry forces factory boot; the selection above never returns one.
    if entry.otaState == IMG_ABORTED {
      return FACTORY_INDEX;
    }
    var slot := SlotOf(entry.otaSeq);
    if slot.None? {
      return FACTORY_INDEX;
    }
    if bs.ota[slot.value].size == 0 {
      return FACTORY_INDEX;
    }
    index := slot.value;
  }

  /** One turn of the rollback loop. */
  method RollbackOne(flash: Flash, info: PartitionPos, otadata: array<OtaEntry>, i: nat)
    requires flash.Valid() && i < 2 && Readable(flash.mem, info)
    requires otadata.Length == 2
    modifies flash`mem, flash`log, otadata
    ensures flash.Valid() && |flash.mem| == |old(flash.mem)|
    ensures otadata[i] == Rollback(old(otadata[i])) && otadata[1 - i] == old(otadata[1 - i])
    ensures Performed(old(flash.mem), old(flash.log), flash.mem, flash.log,
                      AllOps(info, RollbackWrite(i, old(otadata[i]))))
  {
    hide SeqCrc, WriteOps, Performed;
    if otadata[i].otaState == IMG_PENDING_VERIFY {
      var e := otadata[i].(otaState := IMG_ABORTED);
      e := e.(crc := SeqCrc(e.otaSeq));
      otadata[i] := e;
      AllOpsOfOne(info, RecordWrite(i, e));
      ReplaceEntry(flash, info, i, e);
      PerformedLength(old(flash.mem), old(flash.log), flash.mem, flash.log, WriteOps(info, RecordWrite(i, e)));
    } else {
      PerformedNothing(flash.mem, flash.log);
    }
  }

  /** Read both records, turn pending ones into aborted ones, and pick the partition to boot.  If a
      read fails the factory partition is picked and the flash is left alone. */
  method GetSelectedBootPartition(flash: Flash, bs: BootTable) returns (index: int, ghost readOk: bool)
    requires flash.Valid() && bs.Valid() && !flash.encrypted && !flash.mapped
    modifies flash, flash.buf
    ensures flash.Valid() && !flash.mapped
    ensures flash.Reliable() ==> readOk
    ensures index == if readOk then SelectedIndex(old(flash.mem), bs) else FACTORY_INDEX
    ensures Performed(old(flash.mem), old(flash.log), flash.mem, flash.log,
                      if readOk then AllOps(bs.otaInfo, SelectWrites(old(flash.mem), bs)) else [])
  {
    hide EntryAt, SeqCrc, WriteOps, ActiveOtadata, SlotOf, Performed, IndexOfSeq;
    var info := bs.otaInfo;
    PerformedNothing(flash.mem, flash.log);
    if info.size == 0 {
      return FACTORY_INDEX, true;
    }
    var otadata := new OtaEntry[2](_ => OtaEntry(Crc.ALL_ONES, IMG_NEW, 0));
    var ok := ReadOtadata(flash, info, otadata);
    if !ok {
      return FACTORY_INDEX, !Readable(flash.mem, info);
    }
    readOk := true;

    ghost var start, startLog, e0, e1 := flash.mem, flash.log, otadata[0], otadata[1];
    RollbackOne(flash, info, otadata, 0);
    ghost var mid, midLog := flash.mem, flash.log;
    RollbackOne(flash, info, otadata, 1);
    ghost var w0, w1 := RollbackWrite(0, e0), RollbackWrite(1, e1);
    PerformedThen(start, startLog, mid, midLog, AllOps(info, w0), flash.mem, flash.log, AllOps(info, w1));
    AllOpsConcat(info, w0, w1);

    index := PickIndex(otadata[0], otadata[1], bs);
    RollbackKeepsSeq(e0);
    RollbackKeepsSeq(e1);
  }

  lemma RollbackKeepsSeq(e: OtaEntry)
    ensures Rollback(e).otaSeq == e.otaSeq
  {}

  /** `set_actual_ota_seq` */
  method SetActualOtaSeq(flash: Flash, bs: BootTable, startIndex: int) returns (ghost readOk: bool)
    requires flash.Valid() && bs.Valid() && !flash.encrypted && !flash.mapped
    requires startIndex < MAX_OTA_SLOTS
    modifies flash, flash.buf
    ensures flash.Valid() && !flash.mapped
    ensures flash.Reliable() ==> readOk
    ensures Performed(old(flash.mem), old(flash.log), flash.mem, flash.log,
                      if readOk then AllOps(bs.otaInfo, MarkWrites(old(flash.mem), bs, startIndex)) else [])
  {
    hide EntryAt, SeqCrc, WriteOps, ActiveOtadata, SeqOf, Performed;
    var info := bs.otaInfo;
    PerformedNothing(flash.mem, flash.log);
    if info.size < 2 * SECTOR_SIZE || startIndex < 0 {
      return true;
    }
    var otadata := new OtaEntry[2](_ => OtaEntry(Crc.ALL_ONES, IMG_NEW, 0));
    var ok := ReadOtadata(flash, info, otadata);
    if !ok {
      return !Readable(flash.mem, info);
    }
    readOk := true;
    var active := ActiveOtadata(otadata[0], otadata[1]);
    var writeSlot := if active != 1 then 1 else 0;
    var entry := OtaEntry(SeqOf(startIndex), IMG_PENDING_VERIFY, 0);
    entry := entry.(crc := SeqCrc(entry.otaSeq));
    AllOpsOfOne(info, RecordWrite(writeSlot, entry));
    ReplaceEntry(flash, info, writeSlot, entry);
  }
}
