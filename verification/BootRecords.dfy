/** What one boot does to the OTA records, as a list of flash operations, and what survives when
    that list is cut anywhere, any number of times. */
module BootRecords {
  import opened Words
  import opened Wrappers
  import opened FlashOps
  import opened BootTypes
  import opened OtaData

  // -------------------------------------------------------------------------
  // Selection as a function of the flash contents
  // -------------------------------------------------------------------------

  /** Both records can be read from the OTA-info partition. */
  predicate Readable(mem: seq<byte>, info: PartitionPos) {
    && info.offset != 0
    && info.size >= 2 * SECTOR_SIZE
    && info.offset + SECTOR_SIZE + ENTRY_SIZE <= |mem|
  }

  function Record(mem: seq<byte>, info: PartitionPos, s: nat): OtaEntry
    requires Readable(mem, info) && s < 2
  {
    EntryAt(mem, info.offset + s * SECTOR_SIZE)
  }

  function ChosenIn(mem: seq<byte>, info: PartitionPos): (c: int)
    requires Readable(mem, info)
    ensures -1 <= c <= 1
  {
    Chosen(Record(mem, info, 0), Record(mem, info, 1))
  }

  /** The partition index a sequence number leads to. */
  function IndexOfSeq(bs: BootTable, s: bv32): int
    requires bs.Valid()
  {
    match SlotOf(s)
    case None => FACTORY_INDEX
    case Some(slot) => if bs.ota[slot].size == 0 then FACTORY_INDEX else slot
  }

  function SelectedIndex(mem: seq<byte>, bs: BootTable): (i: int)
    requires bs.Valid()
    ensures FACTORY_INDEX <= i < MAX_OTA_SLOTS
  {
    if bs.otaInfo.size == 0 || !Readable(mem, bs.otaInfo) then FACTORY_INDEX
    else
      var c := ChosenIn(mem, bs.otaInfo);
      if c < 0 then FACTORY_INDEX else IndexOfSeq(bs, Record(mem, bs.otaInfo, c).otaSeq)
  }

  // -------------------------------------------------------------------------
  // The writes of one boot
  // -------------------------------------------------------------------------

  /** One record written to sector 0 or 1 of the OTA-info partition. */
  datatype RecordWrite = RecordWrite(sector: nat, entry: OtaEntry)

  function WriteOps(info: PartitionPos, w: RecordWrite): seq<FlashOp> {
    WriteEntry(info.offset + w.sector * SECTOR_SIZE, w.entry, [])
  }

  function AllOps(info: PartitionPos, ws: seq<RecordWrite>): seq<FlashOp>
    decreases |ws|
  {
    if ws == [] then [] else AllOps(info, ws[..|ws| - 1]) + WriteOps(info, ws[|ws| - 1])
  }

  function RollbackWrite(s: nat, e: OtaEntry): (ws: seq<RecordWrite>)
    ensures |ws| <= 1
  {
    if e.otaState == IMG_PENDING_VERIFY then [RecordWrite(s, Rollback(e))] else []
  }

  /** The rollback pass of selection. */
  function SelectWrites(mem: seq<byte>, bs: BootTable): seq<RecordWrite> {
    if bs.otaInfo.size == 0 || !Readable(mem, bs.otaInfo) then []
    else RollbackWrite(0, Record(mem, bs.otaInfo, 0)) + RollbackWrite(1, Record(mem, bs.otaInfo, 1))
  }

  function PendingEntry(slot: nat): OtaEntry
    requires slot < MAX_OTA_SLOTS
  {
    OtaEntry(SeqOf(slot), IMG_PENDING_VERIFY, SeqCrc(SeqOf(slot)))
  }

  /** `set_actual_ota_seq`: before jumping to slot `i`, note the attempt in the inactive sector. */
  function MarkWrites(mem: seq<byte>, bs: BootTable, i: int): seq<RecordWrite>
    requires i < MAX_OTA_SLOTS
  {
    if bs.otaInfo.size < 2 * SECTOR_SIZE || i < 0 || !Readable(mem, bs.otaInfo) then []
    else
      var active := ActiveOtadata(Record(mem, bs.otaInfo, 0), Record(mem, bs.otaInfo, 1));
      [RecordWrite(if active != 1 then 1 else 0, PendingEntry(i))]
  }

  /** A boot that ends by jumping to slot `booted`; -1 stands for the factory image, the test image
      or a reset, which write no record. */
  function BootWrites(mem: seq<byte>, bs: BootTable, booted: int): seq<RecordWrite>
    requires booted < MAX_OTA_SLOTS
  {
    var ws := SelectWrites(mem, bs);
    ws + MarkWrites(ApplyAll(mem, AllOps(bs.otaInfo, ws)), bs, booted)
  }

  function BootOps(mem: seq<byte>, bs: BootTable, booted: int): seq<FlashOp>
    requires booted < MAX_OTA_SLOTS
  {
    AllOps(bs.otaInfo, BootWrites(mem, bs, booted))
  }

  // -------------------------------------------------------------------------
  // One write
  // -------------------------------------------------------------------------

  /** The OTA-info partition lies on sector boundaries inside the chip. */
  predicate Placed(mem: seq<byte>, info: PartitionPos) {
    && info.offset != 0
    && info.offset % SECTOR_SIZE == 0
    && info.size >= 2 * SECTOR_SIZE
    && info.offset + 2 * SECTOR_SIZE <= |mem|
  }

  /** The record in sector `c` keeps winning when the other sector comes to hold a valid record with
      sequence number `t`. */
  predicate Beats(c: nat, mine: bv32, t: bv32) {
    if c == 0 then !Less(mine, t) else Less(t, mine)
  }

  /** There is a choice, and it beats the one sequence number an erased CRC word vouches for. */
  predicate TornOutranked(e0: OtaEntry, e1: OtaEntry) {
    var c := Chosen(e0, e1);
    c >= 0 && Beats(c, (if c == 0 then e0 else e1).otaSeq, TORN_SEQ)
  }

  predicate PendingTorn(e: OtaEntry) {
    e.otaState == IMG_PENDING_VERIFY && e.otaSeq == TORN_SEQ
  }

  /** A record still waiting for confirmation may carry the torn sequence number only when the chosen
      record outranks it.  Slot numbers 1 to 16 never do. */
  predicate SafeRecords(e0: OtaEntry, e1: OtaEntry) {
    PendingTorn(e0) || PendingTorn(e1) ==> TornOutranked(e0, e1)
  }

  predicate PendingSafe(mem: seq<byte>, info: PartitionPos)
    requires Readable(mem, info)
  {
    SafeRecords(Record(mem, info, 0), Record(mem, info, 1))
  }

  predicate Outranked(mem: seq<byte>, info: PartitionPos)
    requires Readable(mem, info)
  {
    TornOutranked(Record(mem, info, 0), Record(mem, info, 1))
  }

  /** A record waiting for confirmation or aborted. */
  predicate Waiting(e: OtaEntry) {
    e.otaState == IMG_PENDING_VERIFY || e.otaState == IMG_ABORTED
  }

  /** A record no cut of whose write can take the choice from one that beats the torn number, if it
      needs to. */
  predicate Harmless(e: OtaEntry, outranked: bool) {
    Waiting(e) && (e.otaSeq == TORN_SEQ ==> outranked)
  }

  /** A cut write of such a record settles only for the torn sequence number. */
  lemma TornWaiting(prior: OtaEntry, e: OtaEntry, k: nat)
    requires Waiting(e) && 1 <= k
    ensures Settled(Torn(prior, e, k)) ==> e.otaSeq == TORN_SEQ && Torn(prior, e, k).otaSeq == TORN_SEQ
    ensures PendingTorn(Torn(prior, e, k)) ==> e.otaSeq == TORN_SEQ
  {
    hide SeqCrc;
    TornSeqIsUnique(e.otaSeq);
  }

  function SectorBytes(mem: seq<byte>, info: PartitionPos, s: nat): seq<byte>
    requires Placed(mem, info) && s < 2
  {
    mem[info.offset + s * SECTOR_SIZE..info.offset + (s + 1) * SECTOR_SIZE]
  }

  /** The choice, and every byte of the sector it rests on, are the same in `after`. */
  predicate KeepsChoice(mem: seq<byte>, after: seq<byte>, info: PartitionPos)
    requires Placed(mem, info)
  {
    && |after| == |mem|
    && ChosenIn(after, info) == ChosenIn(mem, info)
    && (ChosenIn(mem, info) >= 0 ==>
          SectorBytes(after, info, ChosenIn(mem, info)) == SectorBytes(mem, info, ChosenIn(mem, info)))
    && PendingSafe(after, info)
    && Outranked(after, info) == Outranked(mem, info)
  }

  lemma RecordOfSector(mem: seq<byte>, after: seq<byte>, info: PartitionPos, s: nat)
    requires Placed(mem, info) && |after| == |mem| && s < 2
    requires SectorBytes(after, info, s) == SectorBytes(mem, info, s)
    ensures Record(after, info, s) == Record(mem, info, s)
  {
    hide LeWord;
    var a := info.offset + s * SECTOR_SIZE;
    var b := a + SECTOR_SIZE;
    SliceOfSlice(mem, a, b, 0, 4);
    SliceOfSlice(mem, a, b, 4, 8);
    SliceOfSlice(mem, a, b, 8, 12);
    SliceOfSlice(after, a, b, 0, 4);
    SliceOfSlice(after, a, b, 4, 8);
    SliceOfSlice(after, a, b, 8, 12);
  }

  lemma OtherSectorUnchanged(mem: seq<byte>, after: seq<byte>, info: PartitionPos, s: nat)
    requires Placed(mem, info) && |after| == |mem| && s < 2
    requires forall i | 0 <= i < |mem| && !(info.offset + s * SECTOR_SIZE <= i < info.offset + (s + 1) * SECTOR_SIZE) ::
               after[i] == mem[i]
    ensures SectorBytes(after, info, 1 - s) == SectorBytes(mem, info, 1 - s)
    ensures Record(after, info, 1 - s) == Record(mem, info, 1 - s)
  {
    hide EntryAt;
    RecordOfSector(mem, after, info, 1 - s);
  }

  /** A cut write changes one record as `Torn` says and no byte of the other sector. */
  lemma CutWriteEffect(mem: seq<byte>, info: PartitionPos, w: RecordWrite, k: nat)
    requires Placed(mem, info) && w.sector < 2 && k <= 4
    ensures var after := ApplyAll(mem, WriteOps(info, w)[..k]);
            && Record(after, info, w.sector) == Torn(Record(mem, info, w.sector), w.entry, k)
            && SectorBytes(after, info, 1 - w.sector) == SectorBytes(mem, info, 1 - w.sector)
            && Record(after, info, 1 - w.sector) == Record(mem, info, 1 - w.sector)
  {
    hide EntryAt, Torn, WriteEntry, ApplyAll, SectorBytes;
    var a := info.offset + w.sector * SECTOR_SIZE;
    var ops := WriteEntry(a, w.entry, []);
    EntryAfterCut(mem, a, w.entry, [], k);
    WriteEntryWithin(a, w.entry, []);
    assert Within(ops[..k], a, a + SECTOR_SIZE);
    WithinLeavesRest(mem, ops[..k], a, a + SECTOR_SIZE);
    OtherSectorUnchanged(mem, ApplyAll(mem, ops[..k]), info, w.sector);
  }

  /** Whatever happens to the losing record, the winner stands as long as the loser does not settle or
      settles with the torn number and is outranked. */
  lemma LoserReplaced(e0: OtaEntry, e1: OtaEntry, s: nat, t: OtaEntry)
    requires s < 2 && s != Chosen(e0, e1)
    requires Settled(t) ==> t.otaSeq == TORN_SEQ && TornOutranked(e0, e1)
    ensures var r0, r1 := if s == 0 then t else e0, if s == 1 then t else e1;
            Chosen(r0, r1) == Chosen(e0, e1) && TornOutranked(r0, r1) == TornOutranked(e0, e1)
  {
    hide Chosen, Settled, Less;
    ChosenIsGreatestSettled(e0, e1);
    ChosenIsGreatestSettled(if s == 0 then t else e0, if s == 1 then t else e1);
  }

  lemma SafeReplaced(e0: OtaEntry, e1: OtaEntry, s: nat, t: OtaEntry)
    requires s < 2 && SafeRecords(e0, e1)
    requires PendingTorn(t) ==> TornOutranked(e0, e1)
    requires var r0, r1 := if s == 0 then t else e0, if s == 1 then t else e1; TornOutranked(r0, r1) == TornOutranked(e0, e1)
    ensures SafeRecords(if s == 0 then t else e0, if s == 1 then t else e1)
  {
    hide TornOutranked, PendingTorn;
  }

  /** One harmless write to a sector the choice does not rest on, cut anywhere. */
  lemma CutWriteKeepsChoice(mem: seq<byte>, info: PartitionPos, w: RecordWrite, k: nat)
    requires Placed(mem, info) && PendingSafe(mem, info)
    requires w.sector < 2 && w.sector != ChosenIn(mem, info) && Harmless(w.entry, Outranked(mem, info)) && k <= 4
    ensures KeepsChoice(mem, ApplyAll(mem, WriteOps(info, w)[..k]), info)
  {
    hide EntryAt, Settled, Chosen, WriteEntry, SectorBytes, Torn, TornOutranked, PendingTorn, SafeRecords, Waiting;
    var after := ApplyAll(mem, WriteOps(info, w)[..k]);
    CutWriteEffect(mem, info, w, k);
    if k == 0 {
      assert WriteOps(info, w)[..0] == [] && after == mem;
    } else {
      var e0, e1, t := Record(mem, info, 0), Record(mem, info, 1), Record(after, info, w.sector);
      TornWaiting(Record(mem, info, w.sector), w.entry, k);
      LoserReplaced(e0, e1, w.sector, t);
      SafeReplaced(e0, e1, w.sector, t);
    }
  }

  predicate HarmlessWrites(ws: seq<RecordWrite>, chosen: int, outranked: bool) {
    forall i | 0 <= i < |ws| :: ws[i].sector < 2 && ws[i].sector != chosen && Harmless(ws[i].entry, outranked)
  }

  /** A cut through a list of writes falls before the last one or inside it. */
  lemma CutOfAllOps(info: PartitionPos, ws: seq<RecordWrite>, k: nat)
    requires ws != [] && k <= |AllOps(info, ws)|
    ensures var done, last := AllOps(info, ws[..|ws| - 1]), WriteOps(info, ws[|ws| - 1]);
            && done[..|done|] == done && |last| == 4
            && if k <= |done| then AllOps(info, ws)[..k] == done[..k]
               else k - |done| <= 4 && AllOps(info, ws)[..k] == done + last[..k - |done|]
  {
    hide WriteEntry;
  }

  lemma KeepsTwice(mem: seq<byte>, mid: seq<byte>, after: seq<byte>, info: PartitionPos)
    requires Placed(mem, info) && KeepsChoice(mem, mid, info) && KeepsChoice(mid, after, info)
    ensures KeepsChoice(mem, after, info)
  {
    hide ChosenIn, PendingSafe, Outranked, SectorBytes;
  }

  lemma KeepsItself(mem: seq<byte>, info: PartitionPos)
    requires Placed(mem, info) && PendingSafe(mem, info)
    ensures KeepsChoice(mem, ApplyAll(mem, []), info)
  {
    hide ChosenIn, PendingSafe, Outranked, SectorBytes;
  }

  /** Any cut through any list of harmless writes. */
  lemma {:induction false} CutWritesKeepChoice(mem: seq<byte>, info: PartitionPos, ws: seq<RecordWrite>, k: nat)
    requires Placed(mem, info) && PendingSafe(mem, info)
    requires HarmlessWrites(ws, ChosenIn(mem, info), Outranked(mem, info))
    requires k <= |AllOps(info, ws)|
    ensures KeepsChoice(mem, ApplyAll(mem, AllOps(info, ws)[..k]), info)
    decreases |ws|
  {
    hide ChosenIn, PendingSafe, Outranked, SectorBytes, AllOps, WriteOps, ApplyAll, Harmless;
    if ws == [] {
      NoOps(info);
      KeepsItself(mem, info);
    } else {
      var rest, w := ws[..|ws| - 1], ws[|ws| - 1];
      var done := AllOps(info, rest);
      CutOfAllOps(info, ws, k);
      if k <= |done| {
        CutWritesKeepChoice(mem, info, rest, k);
      } else {
        CutWritesKeepChoice(mem, info, rest, |done|);
        var mid := ApplyAll(mem, done);
        ApplyAllConcat(mem, done, WriteOps(info, w)[..k - |done|]);
        CutWriteKeepsChoice(mid, info, w, k - |done|);
        KeepsTwice(mem, mid, ApplyAll(mem, AllOps(info, ws)[..k]), info);
      }
    }
  }

  lemma NoOps(info: PartitionPos)
    ensures AllOps(info, []) == []
  {}

  // -------------------------------------------------------------------------
  // One boot
  // -------------------------------------------------------------------------

  lemma AllOpsOfOne(info: PartitionPos, w: RecordWrite)
    ensures AllOps(info, [w]) == WriteOps(info, w)
  {
    assert [w][..0] == [];
    assert AllOps(info, []) + WriteOps(info, w) == WriteOps(info, w);
  }

  lemma AllOpsConcat(info: PartitionPos, vs: seq<RecordWrite>, ws: seq<RecordWrite>)
    requires |ws| <= 1
    ensures AllOps(info, vs + ws) == AllOps(info, vs) + AllOps(info, ws)
  {
    if ws == [] {
      assert vs + ws == vs;
    } else {
      AllOpsOfOne(info, ws[0]);
      assert ws == [ws[0]];
      assert (vs + ws)[..|vs|] == vs;
    }
  }

  /** After the rollback pass each record is what `Rollback` makes of it. */
  lemma RecordsAfterSelect(mem: seq<byte>, bs: BootTable)
    requires Placed(mem, bs.otaInfo)
    ensures var after := ApplyAll(mem, AllOps(bs.otaInfo, SelectWrites(mem, bs)));
            && Record(after, bs.otaInfo, 0) == Rollback(Record(mem, bs.otaInfo, 0))
            && Record(after, bs.otaInfo, 1) == Rollback(Record(mem, bs.otaInfo, 1))
  {
    hide EntryAt, RollbackWrite, Rollback, AllOps, ApplyAll;
    var info := bs.otaInfo;
    var e0, e1 := Record(mem, info, 0), Record(mem, info, 1);
    var w0, w1 := RollbackWrite(0, e0), RollbackWrite(1, e1);
    AllOpsConcat(info, w0, w1);
    ApplyAllConcat(mem, AllOps(info, w0), AllOps(info, w1));
    RollbackWriteEffect(mem, info, 0);
    RollbackWriteEffect(ApplyAll(mem, AllOps(info, w0)), info, 1);
  }

  lemma RollbackWriteEffect(mem: seq<byte>, info: PartitionPos, s: nat)
    requires Placed(mem, info) && s < 2
    ensures var after := ApplyAll(mem, AllOps(info, RollbackWrite(s, Record(mem, info, s))));
            && Record(after, info, s) == Rollback(Record(mem, info, s))
            && Record(after, info, 1 - s) == Record(mem, info, 1 - s)
  {
    hide EntryAt, SeqCrc, SectorBytes, WriteEntry;
    var e := Record(mem, info, s);
    if e.otaState == IMG_PENDING_VERIFY {
      var w := RecordWrite(s, Rollback(e));
      AllOpsOfOne(info, w);
      WholeWriteEffect(mem, info, w);
    } else {
      assert AllOps(info, []) == [];
    }
  }

  /** What a completed boot of a slot leaves: the attempt, pending, in the sector the choice does not
      rest on, and the other record as the rollback pass made it. */
  lemma RecordsAfterBoot(mem: seq<byte>, bs: BootTable, slot: nat)
    requires Placed(mem, bs.otaInfo) && slot < MAX_OTA_SLOTS
    ensures var after := ApplyAll(mem, BootOps(mem, bs, slot));
            var w := if ChosenIn(mem, bs.otaInfo) == 1 then 0 else 1;
            && Record(after, bs.otaInfo, w) == PendingEntry(slot)
            && Record(after, bs.otaInfo, 1 - w) == Rollback(Record(mem, bs.otaInfo, 1 - w))
  {
    hide EntryAt, SectorBytes, WriteOps, PendingEntry, SelectWrites, MarkWrites, Rollback, ApplyAll, ChosenIn;
    var info, ws := bs.otaInfo, SelectWrites(mem, bs);
    var mid := ApplyAll(mem, AllOps(info, ws));
    var w := if ChosenIn(mem, info) == 1 then 0 else 1;
    var attempt := RecordWrite(w, PendingEntry(slot));
    RecordsAfterSelect(mem, bs);
    AttemptRecord(mem, mid, bs, slot);
    AllOpsConcat(info, ws, [attempt]);
    AllOpsOfOne(info, attempt);
    ApplyAllConcat(mem, AllOps(info, ws), WriteOps(info, attempt));
    WholeWriteEffect(mid, info, attempt);
  }

  lemma AttemptRecord(mem: seq<byte>, mid: seq<byte>, bs: BootTable, slot: nat)
    requires Readable(mem, bs.otaInfo) && |mid| == |mem| && slot < MAX_OTA_SLOTS
    requires Record(mid, bs.otaInfo, 0) == Rollback(Record(mem, bs.otaInfo, 0))
    requires Record(mid, bs.otaInfo, 1) == Rollback(Record(mem, bs.otaInfo, 1))
    ensures MarkWrites(mid, bs, slot) == [RecordWrite(if ChosenIn(mem, bs.otaInfo) == 1 then 0 else 1, PendingEntry(slot))]
  {
    hide EntryAt, ActiveOtadata, PendingEntry, Rollback;
  }

  lemma WholeWriteEffect(mem: seq<byte>, info: PartitionPos, w: RecordWrite)
    requires Placed(mem, info) && w.sector < 2
    ensures var after := ApplyAll(mem, WriteOps(info, w));
            Record(after, info, w.sector) == w.entry && Record(after, info, 1 - w.sector) == Record(mem, info, 1 - w.sector)
  {
    hide EntryAt, Torn, WriteEntry, SectorBytes;
    CutWriteEffect(mem, info, w, 4);
    assert WriteOps(info, w)[..4] == WriteOps(info, w);
    TornEnd(Record(mem, info, w.sector), w.entry);
  }

  lemma TornEnd(prior: OtaEntry, e: OtaEntry)
    ensures Torn(prior, e, 4) == e
  {}

  lemma RollbackIdempotent(e: OtaEntry)
    ensures Rollback(Rollback(e)) == Rollback(e)
  {
    hide SeqCrc;
  }

  /** Every record a boot writes is harmless and goes to a sector the choice does not rest on. */
  lemma BootWritesAreHarmless(mem: seq<byte>, bs: BootTable, booted: int)
    requires Placed(mem, bs.otaInfo) && PendingSafe(mem, bs.otaInfo)
    requires booted < MAX_OTA_SLOTS
    ensures HarmlessWrites(BootWrites(mem, bs, booted), ChosenIn(mem, bs.otaInfo), Outranked(mem, bs.otaInfo))
  {
    hide EntryAt, Chosen, TornOutranked, RollbackWrite, MarkWrites, Harmless, AllOps, ApplyAll, PendingEntry;
    var info := bs.otaInfo;
    var e0, e1, c := Record(mem, info, 0), Record(mem, info, 1), ChosenIn(mem, info);
    PendingIsNotChosen(e0, e1);
    RollbackIsHarmless(0, e0, c, Outranked(mem, info));
    RollbackIsHarmless(1, e1, c, Outranked(mem, info));
    RecordsAfterSelect(mem, bs);
    var mid := ApplyAll(mem, AllOps(info, SelectWrites(mem, bs)));
    if booted >= 0 {
      AttemptRecord(mem, mid, bs, booted);
      AttemptIsHarmless(booted, Outranked(mem, info));
    } else {
      NoAttemptRecord(mid, bs, booted);
    }
  }

  lemma PendingIsNotChosen(e0: OtaEntry, e1: OtaEntry)
    ensures e0.otaState == IMG_PENDING_VERIFY ==> Chosen(e0, e1) != 0
    ensures e1.otaState == IMG_PENDING_VERIFY ==> Chosen(e0, e1) != 1
  {
    hide Chosen, Settled;
    ChosenIsGreatestSettled(e0, e1);
    SettledIsNotPending(e0);
    SettledIsNotPending(e1);
  }

  lemma RollbackIsHarmless(s: nat, e: OtaEntry, chosen: int, outranked: bool)
    requires s < 2 && (PendingTorn(e) ==> outranked) && (e.otaState == IMG_PENDING_VERIFY ==> chosen != s)
    ensures HarmlessWrites(RollbackWrite(s, e), chosen, outranked)
  {
    hide SeqCrc;
  }

  lemma AttemptIsHarmless(slot: nat, outranked: bool)
    requires slot < MAX_OTA_SLOTS
    ensures Harmless(PendingEntry(slot), outranked)
  {
    hide SeqCrc;
    WrittenSeqsAreNotTorn(slot);
  }

  lemma NoAttemptRecord(mem: seq<byte>, bs: BootTable, booted: int)
    requires booted < 0
    ensures MarkWrites(mem, bs, booted) == []
  {}

  lemma SettledIsNotPending(e: OtaEntry)
    ensures Settled(e) ==> e.otaState != IMG_PENDING_VERIFY
  {
    hide SeqCrc;
  }

  // -------------------------------------------------------------------------
  // Crash-stable selection
  // -------------------------------------------------------------------------

  /** What the theorems ask of the flash: whole sectors, a sector-aligned OTA-info partition. */
  predicate Sound(mem: seq<byte>, bs: BootTable) {
    && bs.Valid()
    && |mem| % SECTOR_SIZE == 0
    && bs.otaInfo.offset % SECTOR_SIZE == 0
    && (Readable(mem, bs.otaInfo) ==> PendingSafe(mem, bs.otaInfo))
  }

  lemma PlacedWhenAligned(mem: seq<byte>, bs: BootTable)
    requires |mem| % SECTOR_SIZE == 0 && bs.otaInfo.offset % SECTOR_SIZE == 0 && Readable(mem, bs.otaInfo)
    ensures Placed(mem, bs.otaInfo)
  {
    var o, n := bs.otaInfo.offset / SECTOR_SIZE, |mem| / SECTOR_SIZE;
    assert bs.otaInfo.offset == o * SECTOR_SIZE && |mem| == n * SECTOR_SIZE;
    assert o + 2 <= n;
  }

  lemma ReadableIsPlaced(mem: seq<byte>, bs: BootTable)
    requires Sound(mem, bs) && Readable(mem, bs.otaInfo)
    ensures Placed(mem, bs.otaInfo)
  {
    PlacedWhenAligned(mem, bs);
  }

  /** The selected index and, when it rests on a record, that record's sector. */
  predicate SameSelection(mem: seq<byte>, after: seq<byte>, bs: BootTable)
    requires Sound(mem, bs)
  {
    && |after| == |mem|
    && SelectedIndex(after, bs) == SelectedIndex(mem, bs)
    && (Readable(mem, bs.otaInfo) ==>
          && Placed(mem, bs.otaInfo)
          && (var c := ChosenIn(mem, bs.otaInfo);
              && ChosenIn(after, bs.otaInfo) == c
              && (c >= 0 ==> SectorBytes(after, bs.otaInfo, c) == SectorBytes(mem, bs.otaInfo, c))))
    && Sound(after, bs)
  }

  /** Cutting a boot after any number of flash operations, whichever slot it was going to start,
      leaves the selection alone. */
  lemma CutBootKeepsSelection(mem: seq<byte>, bs: BootTable, booted: int, k: nat)
    requires Sound(mem, bs) && booted < MAX_OTA_SLOTS
    requires k <= |BootOps(mem, bs, booted)|
    ensures SameSelection(mem, ApplyAll(mem, BootOps(mem, bs, booted)[..k]), bs)
  {
    hide EntryAt, SectorBytes, Chosen, IndexOfSeq, PendingSafe, Outranked, BootWrites;
    var info := bs.otaInfo;
    var after := ApplyAll(mem, BootOps(mem, bs, booted)[..k]);
    if Readable(mem, info) {
      ReadableIsPlaced(mem, bs);
      BootWritesAreHarmless(mem, bs, booted);
      CutWritesKeepChoice(mem, info, BootWrites(mem, bs, booted), k);
      var c := ChosenIn(mem, info);
      if c >= 0 {
        RecordOfSector(mem, after, info, c);
      }
    } else {
      assert BootWrites(mem, bs, booted) == [] by { NoWritesWhenUnreadable(mem, bs, booted); }
      assert BootOps(mem, bs, booted)[..k] == [];
    }
  }

  lemma NoWritesWhenUnreadable(mem: seq<byte>, bs: BootTable, booted: int)
    requires !Readable(mem, bs.otaInfo) && booted < MAX_OTA_SLOTS
    ensures BootWrites(mem, bs, booted) == []
  {
    assert ApplyAll(mem, AllOps(bs.otaInfo, [])) == mem;
  }

  /** One attempt to boot: the slot it would have started and where power was lost. */
  datatype Attempt = Attempt(booted: int, cut: nat)

  function Cut(ops: seq<FlashOp>, k: nat): seq<FlashOp> {
    if k <= |ops| then ops[..k] else ops
  }

  function AfterAttempts(mem: seq<byte>, bs: BootTable, attempts: seq<Attempt>): (r: seq<byte>)
    requires forall a | a in attempts :: a.booted < MAX_OTA_SLOTS
    ensures |r| == |mem|
    decreases |attempts|
  {
    if attempts == [] then mem
    else
      var last := attempts[|attempts| - 1];
      var before := AfterAttempts(mem, bs, attempts[..|attempts| - 1]);
      ApplyAll(before, Cut(BootOps(before, bs, last.booted), last.cut))
  }

  /** Any number of boots, each cut anywhere or completed, all select the same partition, and none
      touches the sector the selection rests on. */
  lemma {:induction false} SelectionIsCrashStable(mem: seq<byte>, bs: BootTable, attempts: seq<Attempt>)
    requires Sound(mem, bs)
    requires forall a | a in attempts :: a.booted < MAX_OTA_SLOTS
    ensures SameSelection(mem, AfterAttempts(mem, bs, attempts), bs)
    decreases |attempts|
  {
    hide ChosenIn, SectorBytes, SelectedIndex, PendingSafe, BootOps;
    if attempts == [] {
      if Readable(mem, bs.otaInfo) {
        ReadableIsPlaced(mem, bs);
      }
    } else {
      var last, rest := attempts[|attempts| - 1], attempts[..|attempts| - 1];
      SelectionIsCrashStable(mem, bs, rest);
      var before := AfterAttempts(mem, bs, rest);
      var ops := BootOps(before, bs, last.booted);
      assert ops == ops[..|ops|];
      CutBootKeepsSelection(before, bs, last.booted, if last.cut <= |ops| then last.cut else |ops|);
    }
  }

  /** A new update is never taken back: however often the device boots without the application
      confirming it, the record stays new, stays chosen, and leads to the same slot. */
  lemma NewRecordIsNeverRolledBack(mem: seq<byte>, bs: BootTable, attempts: seq<Attempt>)
    requires Sound(mem, bs) && Readable(mem, bs.otaInfo)
    requires ChosenIn(mem, bs.otaInfo) >= 0
    requires Record(mem, bs.otaInfo, ChosenIn(mem, bs.otaInfo)).otaState == IMG_NEW
    requires forall a | a in attempts :: a.booted < MAX_OTA_SLOTS
    ensures var after, c := AfterAttempts(mem, bs, attempts), ChosenIn(mem, bs.otaInfo);
            && Readable(after, bs.otaInfo) && ChosenIn(after, bs.otaInfo) == c
            && Record(after, bs.otaInfo, c).otaState == IMG_NEW
            && SelectedIndex(after, bs) == SelectedIndex(mem, bs)
  {
    hide EntryAt, SectorBytes, Chosen, IndexOfSeq, PendingSafe, AfterAttempts;
    var c := ChosenIn(mem, bs.otaInfo);
    ReadableIsPlaced(mem, bs);
    SelectionIsCrashStable(mem, bs, attempts);
    RecordOfSector(mem, AfterAttempts(mem, bs, attempts), bs.otaInfo, c);
  }

  // -------------------------------------------------------------------------
  // Exactly when selection is stable
  // -------------------------------------------------------------------------

  /** What two operations of a write of the torn sequence number leave. */
  const TORN_RECORD: OtaEntry := OtaEntry(TORN_SEQ, Crc.ALL_ONES, Crc.ALL_ONES)

  lemma TornRecordSettles()
    ensures Settled(TORN_RECORD)
  {
    hide SeqCrc;
    TornSeqIsUnique(TORN_SEQ);
  }

  /** Unless outranked, it takes the choice. */
  lemma TornTakesOver(e0: OtaEntry, e1: OtaEntry, s: nat)
    requires s < 2 && !TornOutranked(e0, e1) && PendingTorn(if s == 0 then e0 else e1)
    ensures Chosen(if s == 0 then TORN_RECORD else e0, if s == 1 then TORN_RECORD else e1) == s
    ensures Chosen(e0, e1) != s
  {
    hide Chosen, Settled, Less;
    SettledIsNotPending(e0);
    SettledIsNotPending(e1);
    TornRecordSettles();
    ChosenIsGreatestSettled(e0, e1);
    ChosenIsGreatestSettled(if s == 0 then TORN_RECORD else e0, if s == 1 then TORN_RECORD else e1);
  }

  /** The rollback writes of a boot that starts no slot, sector by sector. */
  lemma FactoryBootOps(mem: seq<byte>, bs: BootTable)
    requires Readable(mem, bs.otaInfo)
    ensures BootOps(mem, bs, FACTORY_INDEX)
            == AllOps(bs.otaInfo, RollbackWrite(0, Record(mem, bs.otaInfo, 0)))
               + AllOps(bs.otaInfo, RollbackWrite(1, Record(mem, bs.otaInfo, 1)))
  {
    hide EntryAt, Rollback, AllOps, ApplyAll;
    var ws := SelectWrites(mem, bs);
    assert ws + [] == ws;
    AllOpsConcat(bs.otaInfo, RollbackWrite(0, Record(mem, bs.otaInfo, 0)), RollbackWrite(1, Record(mem, bs.otaInfo, 1)));
  }

  /** Two operations into the rollback of a pending record with the torn number. */
  lemma TornRollback(mem: seq<byte>, info: PartitionPos, s: nat)
    requires Placed(mem, info) && s < 2 && PendingTorn(Record(mem, info, s)) && !Outranked(mem, info)
    ensures var ops := AllOps(info, RollbackWrite(s, Record(mem, info, s)));
            |ops| == 4 && ChosenIn(ApplyAll(mem, ops[..2]), info) == s && Record(ApplyAll(mem, ops[..2]), info, s) == TORN_RECORD
  {
    hide EntryAt, SeqCrc, SectorBytes, WriteEntry, Chosen, TornOutranked;
    var w := RecordWrite(s, Rollback(Record(mem, info, s)));
    AllOpsOfOne(info, w);
    CutWriteEffect(mem, info, w, 2);
    TornTakesOver(Record(mem, info, 0), Record(mem, info, 1), s);
  }

  /** When a pending record with the torn number is not outranked, some cut of the next boot hands it
      the choice. */
  lemma UnsafeCut(mem: seq<byte>, bs: BootTable) returns (k: nat)
    requires Placed(mem, bs.otaInfo) && !PendingSafe(mem, bs.otaInfo)
    ensures k <= |BootOps(mem, bs, FACTORY_INDEX)|
    ensures var after, info := ApplyAll(mem, BootOps(mem, bs, FACTORY_INDEX)[..k]), bs.otaInfo;
            && ChosenIn(after, info) >= 0 && ChosenIn(after, info) != ChosenIn(mem, info)
            && Record(after, info, ChosenIn(after, info)) == TORN_RECORD
  {
    hide EntryAt, SeqCrc, SectorBytes, Chosen, ApplyAll, AllOps, TornOutranked, BootOps, RollbackWrite;
    var info := bs.otaInfo;
    var e0, e1 := Record(mem, info, 0), Record(mem, info, 1);
    var ops0, ops1 := AllOps(info, RollbackWrite(0, e0)), AllOps(info, RollbackWrite(1, e1));
    FactoryBootOps(mem, bs);
    if PendingTorn(e0) {
      k := 2;
      TornRollback(mem, info, 0);
      TornTakesOver(e0, e1, 0);
      assert (ops0 + ops1)[..2] == ops0[..2];
    } else {
      k := |ops0| + 2;
      var mid := ApplyAll(mem, ops0);
      RollbackWriteEffect(mem, info, 0);
      RollbackKeepsChoice(e0, e1);
      TornRollback(mid, info, 1);
      TornTakesOver(e0, e1, 1);
      assert (ops0 + ops1)[..k] == ops0 + ops1[..2];
      ApplyAllConcat(mem, ops0, ops1[..2]);
    }
  }

  lemma RollbackKeepsChoice(e0: OtaEntry, e1: OtaEntry)
    ensures Chosen(Rollback(e0), e1) == Chosen(e0, e1)
    ensures TornOutranked(Rollback(e0), e1) == TornOutranked(e0, e1)
  {
    hide SeqCrc, ActiveOtadata;
    RollbackIdempotent(e0);
  }

  ghost predicate Bootable(attempts: seq<Attempt>) {
    forall a | a in attempts :: a.booted < MAX_OTA_SLOTS
  }

  /** Every run of boots, each cut anywhere, acts on the same record. */
  ghost predicate ChoiceIsStable(mem: seq<byte>, bs: BootTable)
    requires Readable(mem, bs.otaInfo)
  {
    forall attempts: seq<Attempt> | Bootable(attempts) ::
      ChosenIn(AfterAttempts(mem, bs, attempts), bs.otaInfo) == ChosenIn(mem, bs.otaInfo)
  }

  /** Every run of boots, each cut anywhere, selects the same index. */
  ghost predicate IndexIsStable(mem: seq<byte>, bs: BootTable)
    requires bs.Valid()
  {
    forall attempts: seq<Attempt> | Bootable(attempts) :: SelectedIndex(AfterAttempts(mem, bs, attempts), bs) == SelectedIndex(mem, bs)
  }

  lemma OneAttempt(mem: seq<byte>, bs: BootTable, booted: int, k: nat)
    requires booted < MAX_OTA_SLOTS && k <= |BootOps(mem, bs, booted)|
    ensures AfterAttempts(mem, bs, [Attempt(booted, k)]) == ApplyAll(mem, BootOps(mem, bs, booted)[..k])
  {
    hide BootOps, ApplyAll;
    assert [Attempt(booted, k)][..0] == [];
    assert AfterAttempts(mem, bs, []) == mem;
  }

  /** The choice survives every run of interrupted boots if and only if every pending record with the
      torn number is outranked by a chosen one. */
  lemma ChoiceIsStableIff(mem: seq<byte>, bs: BootTable)
    requires bs.Valid() && |mem| % SECTOR_SIZE == 0 && bs.otaInfo.offset % SECTOR_SIZE == 0
    requires Readable(mem, bs.otaInfo)
    ensures ChoiceIsStable(mem, bs) <==> PendingSafe(mem, bs.otaInfo)
  {
    hide EntryAt, AfterAttempts, BootOps, Chosen, SectorBytes, SafeRecords, IndexOfSeq;
    PlacedWhenAligned(mem, bs);
    if PendingSafe(mem, bs.otaInfo) {
      forall attempts: seq<Attempt> | Bootable(attempts)
        ensures ChosenIn(AfterAttempts(mem, bs, attempts), bs.otaInfo) == ChosenIn(mem, bs.otaInfo)
      {
        SelectionIsCrashStable(mem, bs, attempts);
      }
    } else {
      var k := UnsafeCut(mem, bs);
      OneAttempt(mem, bs, FACTORY_INDEX, k);
      assert Bootable([Attempt(FACTORY_INDEX, k)]);
    }
  }

  /** No settled record leads to a slot. */
  predicate OnlyFactory(mem: seq<byte>, bs: BootTable)
    requires bs.Valid() && Readable(mem, bs.otaInfo)
  {
    && (Settled(Record(mem, bs.otaInfo, 0)) ==> IndexOfSeq(bs, Record(mem, bs.otaInfo, 0).otaSeq) == FACTORY_INDEX)
    && (Settled(Record(mem, bs.otaInfo, 1)) ==> IndexOfSeq(bs, Record(mem, bs.otaInfo, 1).otaSeq) == FACTORY_INDEX)
  }

  lemma OnlyFactorySelectsFactory(mem: seq<byte>, bs: BootTable)
    requires bs.Valid() && Readable(mem, bs.otaInfo) && OnlyFactory(mem, bs)
    ensures SelectedIndex(mem, bs) == FACTORY_INDEX
  {
    hide EntryAt, Settled, Chosen, IndexOfSeq;
    ChosenIsGreatestSettled(Record(mem, bs.otaInfo, 0), Record(mem, bs.otaInfo, 1));
  }

  lemma TornSeqLeadsToFactory(bs: BootTable)
    requires bs.Valid()
    ensures IndexOfSeq(bs, TORN_SEQ) == FACTORY_INDEX
  {
    SlotSeqsAreSmall(0);
  }

  predicate WaitingWrites(ws: seq<RecordWrite>) {
    forall i | 0 <= i < |ws| :: ws[i].sector < 2 && Waiting(ws[i].entry)
  }

  lemma {:induction false} CutWritesStayFactory(mem: seq<byte>, bs: BootTable, ws: seq<RecordWrite>, k: nat)
    requires bs.Valid() && Placed(mem, bs.otaInfo) && OnlyFactory(mem, bs)
    requires WaitingWrites(ws) && k <= |AllOps(bs.otaInfo, ws)|
    ensures OnlyFactory(ApplyAll(mem, AllOps(bs.otaInfo, ws)[..k]), bs)
    decreases |ws|
  {
    hide OnlyFactory, Waiting, AllOps, WriteOps, ApplyAll;
    var info := bs.otaInfo;
    if ws == [] {
      NoOps(info);
      ApplyNothing(mem);
    } else {
      var rest, w := ws[..|ws| - 1], ws[|ws| - 1];
      var done := AllOps(info, rest);
      CutOfAllOps(info, ws, k);
      if k <= |done| {
        CutWritesStayFactory(mem, bs, rest, k);
      } else {
        CutWritesStayFactory(mem, bs, rest, |done|);
        ApplyAllConcat(mem, done, WriteOps(info, w)[..k - |done|]);
        CutWriteStaysFactory(ApplyAll(mem, done), bs, w, k - |done|);
      }
    }
  }

  lemma ApplyNothing(mem: seq<byte>)
    ensures ApplyAll(mem, []) == mem
  {}

  lemma CutWriteStaysFactory(mem: seq<byte>, bs: BootTable, w: RecordWrite, k: nat)
    requires bs.Valid() && Placed(mem, bs.otaInfo) && OnlyFactory(mem, bs)
    requires w.sector < 2 && Waiting(w.entry) && 1 <= k <= 4
    ensures OnlyFactory(ApplyAll(mem, WriteOps(bs.otaInfo, w)[..k]), bs)
  {
    hide EntryAt, Settled, IndexOfSeq, WriteEntry, SectorBytes, Torn, Waiting;
    CutWriteEffect(mem, bs.otaInfo, w, k);
    TornWaiting(Record(mem, bs.otaInfo, w.sector), w.entry, k);
    TornSeqLeadsToFactory(bs);
  }

  lemma BootWritesWait(mem: seq<byte>, bs: BootTable, booted: int)
    requires booted < MAX_OTA_SLOTS
    ensures WaitingWrites(BootWrites(mem, bs, booted))
  {
    hide ActiveOtadata, EntryAt, SeqCrc;
  }

  lemma {:induction false} BootsStayFactory(mem: seq<byte>, bs: BootTable, attempts: seq<Attempt>)
    requires bs.Valid() && Placed(mem, bs.otaInfo) && OnlyFactory(mem, bs) && Bootable(attempts)
    ensures OnlyFactory(AfterAttempts(mem, bs, attempts), bs)
    decreases |attempts|
  {
    hide OnlyFactory, BootWrites;
    if attempts != [] {
      var last, rest := attempts[|attempts| - 1], attempts[..|attempts| - 1];
      BootsStayFactory(mem, bs, rest);
      var before := AfterAttempts(mem, bs, rest);
      var ops := BootOps(before, bs, last.booted);
      assert ops == ops[..|ops|];
      BootWritesWait(before, bs, last.booted);
      CutWritesStayFactory(before, bs, BootWrites(before, bs, last.booted), if last.cut <= |ops| then last.cut else |ops|);
    }
  }

  /** The index survives every run of interrupted boots if and only if the choice does or no slot was
      selected to begin with. */
  lemma IndexIsStableIff(mem: seq<byte>, bs: BootTable)
    requires bs.Valid() && |mem| % SECTOR_SIZE == 0 && bs.otaInfo.offset % SECTOR_SIZE == 0
    requires Readable(mem, bs.otaInfo)
    ensures IndexIsStable(mem, bs) <==> PendingSafe(mem, bs.otaInfo) || SelectedIndex(mem, bs) == FACTORY_INDEX
  {
    hide EntryAt, AfterAttempts, BootOps, SectorBytes, IndexOfSeq, ApplyAll, Chosen, SafeRecords, OnlyFactory;
    PlacedWhenAligned(mem, bs);
    forall attempts: seq<Attempt> | Bootable(attempts) && (PendingSafe(mem, bs.otaInfo) || SelectedIndex(mem, bs) == FACTORY_INDEX)
      ensures SelectedIndex(AfterAttempts(mem, bs, attempts), bs) == SelectedIndex(mem, bs)
    {
      if PendingSafe(mem, bs.otaInfo) {
        SelectionIsCrashStable(mem, bs, attempts);
      } else {
        UnsafeFactoryIsOnlyFactory(mem, bs);
        BootsStayFactory(mem, bs, attempts);
        OnlyFactorySelectsFactory(AfterAttempts(mem, bs, attempts), bs);
      }
    }
    if !PendingSafe(mem, bs.otaInfo) && SelectedIndex(mem, bs) != FACTORY_INDEX {
      var k := UnsafeCut(mem, bs);
      OneAttempt(mem, bs, FACTORY_INDEX, k);
      TornSeqLeadsToFactory(bs);
      assert Bootable([Attempt(FACTORY_INDEX, k)]);
    }
  }

  lemma UnsafeFactoryIsOnlyFactory(mem: seq<byte>, bs: BootTable)
    requires bs.Valid() && Readable(mem, bs.otaInfo)
    requires !PendingSafe(mem, bs.otaInfo) && SelectedIndex(mem, bs) == FACTORY_INDEX
    ensures OnlyFactory(mem, bs)
  {
    hide EntryAt, Settled, Chosen, IndexOfSeq, TornOutranked;
    var e0, e1 := Record(mem, bs.otaInfo, 0), Record(mem, bs.otaInfo, 1);
    ChosenIsGreatestSettled(e0, e1);
    SettledIsNotPending(e0);
    SettledIsNotPending(e1);
  }

  /** The failure on a flash: with a pending torn-number record in sector 0 and a confirmed slot in
      sector 1, the slot is selected, and power lost two operations into the next boot hands the
      device to the factory image. */
  lemma PendingTornSeqMovesSelection(blank: seq<byte>, bs: BootTable, slot: nat)
    requires bs.Valid() && Placed(blank, bs.otaInfo) && slot < MAX_OTA_SLOTS && bs.ota[slot].size > 0
    ensures var e0, e1 := OtaEntry(TORN_SEQ, IMG_PENDING_VERIFY, 0), OtaEntry(SeqOf(slot), IMG_VALID, SeqCrc(SeqOf(slot)));
            var mem := ApplyAll(ApplyAll(blank, WriteOps(bs.otaInfo, RecordWrite(0, e0))), WriteOps(bs.otaInfo, RecordWrite(1, e1)));
            && SelectedIndex(mem, bs) == slot
            && |BootOps(mem, bs, FACTORY_INDEX)| >= 2
            && SelectedIndex(ApplyAll(mem, BootOps(mem, bs, FACTORY_INDEX)[..2]), bs) == FACTORY_INDEX
  {
    hide EntryAt, SeqCrc, Less, SeqOf, SlotOf, WriteOps, ApplyAll, AllOps, BootOps, Chosen, SectorBytes;
    var info := bs.otaInfo;
    var e0, e1 := OtaEntry(TORN_SEQ, IMG_PENDING_VERIFY, 0), OtaEntry(SeqOf(slot), IMG_VALID, SeqCrc(SeqOf(slot)));
    var first := ApplyAll(blank, WriteOps(info, RecordWrite(0, e0)));
    var mem := ApplyAll(first, WriteOps(info, RecordWrite(1, e1)));
    WholeWriteEffect(blank, info, RecordWrite(0, e0));
    WholeWriteEffect(first, info, RecordWrite(1, e1));
    WrittenSeqsAreNotTorn(slot);
    SlotSeqsAreSmall(slot);
    ConfirmedBeatsPending(e0, e1);
    TornRollback(mem, info, 0);
    FactoryBootOps(mem, bs);
    var ops0, ops1 := AllOps(info, RollbackWrite(0, e0)), AllOps(info, RollbackWrite(1, e1));
    assert (ops0 + ops1)[..2] == ops0[..2];
    TornSeqLeadsToFactory(bs);
  }

  lemma ConfirmedBeatsPending(e0: OtaEntry, e1: OtaEntry)
    requires e0.otaState == IMG_PENDING_VERIFY && Settled(e1) && !Less(TORN_SEQ, e1.otaSeq)
    ensures Chosen(e0, e1) == 1 && !TornOutranked(e0, e1)
  {
    hide Settled, Chosen, Less;
    SettledIsNotPending(e0);
    ChosenIsGreatestSettled(e0, e1);
  }

  /** The record waiting for confirmation would win if waiting records counted. */
  predicate PendingOutranks(mem: seq<byte>, info: PartitionPos, c: nat)
    requires Readable(mem, info) && c < 2
  {
    var mine, other := Record(mem, info, c), Record(mem, info, 1 - c);
    && other.otaState == IMG_PENDING_VERIFY && SelectValid(other)
    && if c == 0 then Less(mine.otaSeq, other.otaSeq) else !Less(other.otaSeq, mine.otaSeq)
  }

  /** Noting an attempt without the rollback pass before it (selection could not read the records,
      the later read succeeded) overwrites the record the choice rests on exactly when the other one
      is waiting for confirmation and outranks it. */
  lemma SkippedRollbackHitsChoiceIff(mem: seq<byte>, bs: BootTable, slot: nat)
    requires Readable(mem, bs.otaInfo) && slot < MAX_OTA_SLOTS
    requires ChosenIn(mem, bs.otaInfo) >= 0
    ensures var ws := MarkWrites(mem, bs, slot);
            |ws| == 1 && (ws[0].sector == ChosenIn(mem, bs.otaInfo) <==> PendingOutranks(mem, bs.otaInfo, ChosenIn(mem, bs.otaInfo)))
  {
    hide EntryAt, SeqCrc, SeqOf, Less, Chosen;
    var e0, e1 := Record(mem, bs.otaInfo, 0), Record(mem, bs.otaInfo, 1);
    ChosenIsGreatestSettled(e0, e1);
    LessIsStrict(e0.otaSeq);
  }

  lemma SlotSeqsAreSmall(slot: nat)
    requires slot < MAX_OTA_SLOTS
    ensures !Less(TORN_SEQ, SeqOf(slot))
    ensures SlotOf(TORN_SEQ) == None
  {
    if slot < 8 {
      if slot < 4 {
        if slot == 0 {} else if slot == 1 {} else if slot == 2 {} else {}
      } else {
        if slot == 4 {} else if slot == 5 {} else if slot == 6 {} else {}
      }
    } else {
      if slot < 12 {
        if slot == 8 {} else if slot == 9 {} else if slot == 10 {} else {}
      } else {
        if slot == 12 {} else if slot == 13 {} else if slot == 14 {} else {}
      }
    }
  }

  // -------------------------------------------------------------------------
  // The flash a boot can reach
  // -------------------------------------------------------------------------

  lemma FrameOfWrite(info: PartitionPos, w: RecordWrite)
    requires w.sector < 2
    ensures Within(WriteOps(info, w), info.offset, info.offset + 2 * SECTOR_SIZE)
            <==> info.offset % SECTOR_SIZE == 0 || w.sector == 1
  {
    var a := info.offset + w.sector * SECTOR_SIZE;
    var ops := WriteOps(info, w);
    var r := info.offset % SECTOR_SIZE;
    assert (a / SECTOR_SIZE) * SECTOR_SIZE == a - r;
    assert ops[0] == Erase(a / SECTOR_SIZE);
    assert forall k | 1 <= k < |ops| :: ops[k].Program? && ops[k].addr == a + 4 * (k - 1);
  }

  /** The erase takes the sector containing the address, so a boot stays inside the OTA-info
      partition exactly when that partition is sector-aligned or only its second sector is
      written. */
  lemma {:induction false} FrameOfWrites(info: PartitionPos, ws: seq<RecordWrite>)
    requires forall i | 0 <= i < |ws| :: ws[i].sector < 2
    ensures Within(AllOps(info, ws), info.offset, info.offset + 2 * SECTOR_SIZE)
            <==> info.offset % SECTOR_SIZE == 0 || forall i | 0 <= i < |ws| :: ws[i].sector == 1
    decreases |ws|
  {
    hide WriteOps;
    if ws != [] {
      var rest, w := ws[..|ws| - 1], ws[|ws| - 1];
      var lo, hi := info.offset, info.offset + 2 * SECTOR_SIZE;
      FrameOfWrites(info, rest);
      FrameOfWrite(info, w);
      WithinConcat(AllOps(info, rest), WriteOps(info, w), lo, hi);
      assert (forall i | 0 <= i < |ws| :: ws[i].sector == 1)
             <==> (forall i | 0 <= i < |rest| :: rest[i].sector == 1) && w.sector == 1;
    }
  }

  /** Boots never change a byte outside a sector-aligned OTA-info partition's first two sectors. */
  lemma {:induction false} BootsLeaveOtherFlash(mem: seq<byte>, bs: BootTable, attempts: seq<Attempt>)
    requires bs.otaInfo.offset % SECTOR_SIZE == 0
    requires forall a | a in attempts :: a.booted < MAX_OTA_SLOTS
    ensures var after := AfterAttempts(mem, bs, attempts);
            |after| == |mem| &&
            forall i | 0 <= i < |mem| && !(bs.otaInfo.offset <= i < bs.otaInfo.offset + 2 * SECTOR_SIZE) ::
              after[i] == mem[i]
    decreases |attempts|
  {
    hide BootWrites;
    if attempts != [] {
      var last, rest := attempts[|attempts| - 1], attempts[..|attempts| - 1];
      BootsLeaveOtherFlash(mem, bs, rest);
      var before := AfterAttempts(mem, bs, rest);
      var ws := BootWrites(before, bs, last.booted);
      BootWritesHitTwoSectors(before, bs, last.booted);
      FrameOfWrites(bs.otaInfo, ws);
      var ops := Cut(AllOps(bs.otaInfo, ws), last.cut);
      assert Within(ops, bs.otaInfo.offset, bs.otaInfo.offset + 2 * SECTOR_SIZE);
      WithinLeavesRest(before, ops, bs.otaInfo.offset, bs.otaInfo.offset + 2 * SECTOR_SIZE);
    }
  }

  lemma BootWritesHitTwoSectors(mem: seq<byte>, bs: BootTable, booted: int)
    requires booted < MAX_OTA_SLOTS
    ensures forall i | 0 <= i < |BootWrites(mem, bs, booted)| :: BootWrites(mem, bs, booted)[i].sector < 2
  {
    hide ActiveOtadata, Rollback, EntryAt;
  }

  // -------------------------------------------------------------------------
  // Selection and records by the bytes in flash
  // -------------------------------------------------------------------------

  /** The twelve bytes of a record for slot 0 with state byte `x` and its CRC. */
  function SlotZeroBytes(x: byte): seq<byte> {
    [1, 0, 0, 0, x, 0, 0, 0, 0x86, 0x47, 0x07, 0x66]
  }

  lemma StateWord(x: byte)
    requires x == 0 || x == 1 || x == 2 || x == 3 || x == 4
    ensures WordLe(x as bv32) == [x, 0, 0, 0]
    ensures x as bv32 == 0 <==> x == 0
    ensures x as bv32 == 1 <==> x == 1
    ensures x as bv32 == 2 <==> x == 2
  {}

  lemma SlotZeroRecord(mem: seq<byte>, a: nat, x: byte)
    requires a + 12 <= |mem| && mem[a..a + 12] == SlotZeroBytes(x)
    requires x == 0 || x == 1 || x == 2 || x == 3 || x == 4
    ensures EntryAt(mem, a) == OtaEntry(1, x as bv32, 0x6607_4786)
  {
    hide WordLe, EntryAt;
    SmallWords();
    StateWord(x);
    EntryIffBytes(mem, a, OtaEntry(1, x as bv32, 0x6607_4786));
    assert EntryBytes(OtaEntry(1, x as bv32, 0x6607_4786)) == SlotZeroBytes(x);
  }

  lemma BlankBytes(mem: seq<byte>, a: nat)
    requires a + 12 <= |mem| && forall i | a <= i < a + 12 :: mem[i] == 0xFF
    ensures EntryAt(mem, a) == BLANK
  {
    hide WordLe, EntryAt;
    SmallWords();
    EntryIffBytes(mem, a, BLANK);
    assert mem[a..a + 12] == EntryBytes(BLANK);
  }

  /** What a chip selects whose first OTA sector starts with such a record and whose second, 4096 bytes
      on, starts blank: slot 0 for state byte 0 or 2, factory for 1, 3 or 4. */
  lemma StateByteSelects(mem: seq<byte>, bs: BootTable, x: byte)
    requires bs.Valid() && Readable(mem, bs.otaInfo) && bs.ota[0].size > 0
    requires x == 0 || x == 1 || x == 2 || x == 3 || x == 4
    requires mem[bs.otaInfo.offset..bs.otaInfo.offset + 12] == SlotZeroBytes(x)
    requires forall i | bs.otaInfo.offset + 4096 <= i < bs.otaInfo.offset + 4108 :: mem[i] == 0xFF
    ensures SelectedIndex(mem, bs) == if x == 0 || x == 2 then 0 else -1
  {
    hide EntryAt, SeqCrc, Chosen, SlotZeroBytes, Settled;
    SlotZeroRecord(mem, bs.otaInfo.offset, x);
    BlankBytes(mem, bs.otaInfo.offset + 4096);
    CrcOfOne();
    StateWord(x);
    StateWordsDecide(OtaEntry(1, x as bv32, 0x6607_4786));
    BlankNeverSettles();
    StatesApart(x);
    ChosenIsGreatestSettled(OtaEntry(1, x as bv32, 0x6607_4786), BLANK);
    FirstSlot();
  }

  lemma StatesApart(x: byte)
    requires x == 0 || x == 1 || x == 2 || x == 3 || x == 4
    ensures (x as bv32 != 1 && x as bv32 != 3 && x as bv32 != 4) <==> x == 0 || x == 2
  {}

  lemma BlankNeverSettles()
    ensures !Settled(BLANK)
  {
    hide SeqCrc;
  }

  lemma FirstSlot()
    ensures SlotOf(1) == Some(0)
  {}

  /** A slot's sequence number, by its bytes. */
  lemma SeqBytes(slot: nat)
    requires slot < MAX_OTA_SLOTS
    ensures WordLe(SeqOf(slot))[0] as nat == slot + 1 && WordLe(SeqOf(slot))[1..] == [0, 0, 0]
  {
    hide WordLe, SeqOf;
    if slot < 8 {
      LowSeqBytes(slot);
    } else {
      HighSeqBytes(slot);
    }
  }

  lemma LowSeqBytes(slot: nat)
    requires slot < 8
    ensures WordLe(SeqOf(slot))[0] as nat == slot + 1 && WordLe(SeqOf(slot))[1..] == [0, 0, 0]
  {
    if slot < 4 {
      if slot == 0 {} else if slot == 1 {} else if slot == 2 {} else {}
    } else {
      if slot == 4 {} else if slot == 5 {} else if slot == 6 {} else {}
    }
  }

  lemma HighSeqBytes(slot: nat)
    requires 8 <= slot < 16
    ensures WordLe(SeqOf(slot))[0] as nat == slot + 1 && WordLe(SeqOf(slot))[1..] == [0, 0, 0]
  {
    if slot < 12 {
      if slot == 8 {} else if slot == 9 {} else if slot == 10 {} else {}
    } else {
      if slot == 12 {} else if slot == 13 {} else if slot == 14 {} else {}
    }
  }

  /** What a completed boot of a slot leaves in flash: the number of the slot plus one and state 1 in
      the sector the choice does not rest on; and where the other record was in state 1, state 4. */
  lemma BytesAfterBoot(mem: seq<byte>, bs: BootTable, slot: nat)
    requires Placed(mem, bs.otaInfo) && slot < MAX_OTA_SLOTS
    ensures var after := ApplyAll(mem, BootOps(mem, bs, slot));
            var w := if ChosenIn(mem, bs.otaInfo) == 1 then 0 else 1;
            var a, o := bs.otaInfo.offset + 4096 * w, bs.otaInfo.offset + 4096 * (1 - w);
            && |after| == |mem|
            && after[a] as nat == slot + 1 && after[a + 1..a + 8] == [0, 0, 0, 1, 0, 0, 0]
            && (mem[o + 4..o + 8] == [1, 0, 0, 0] ==> after[o + 4..o + 8] == [4, 0, 0, 0])
  {
    hide EntryAt, SectorBytes, BootOps, ApplyAll, Chosen, SeqCrc, WordLe, SeqOf;
    var info := bs.otaInfo;
    var after := ApplyAll(mem, BootOps(mem, bs, slot));
    var w := if ChosenIn(mem, info) == 1 then 0 else 1;
    var a, o := info.offset + 4096 * w, info.offset + 4096 * (1 - w);
    RecordsAfterBoot(mem, bs, slot);
    ApplyLength(mem, BootOps(mem, bs, slot));
    PendingBytes(after, a, slot);
    if mem[o + 4..o + 8] == [1, 0, 0, 0] {
      RolledBackBytes(mem, after, o);
    }
  }

  lemma ApplyLength(mem: seq<byte>, ops: seq<FlashOp>)
    ensures |ApplyAll(mem, ops)| == |mem|
  {}

  lemma PendingBytes(mem: seq<byte>, a: nat, slot: nat)
    requires a + 12 <= |mem| && slot < MAX_OTA_SLOTS && EntryAt(mem, a) == PendingEntry(slot)
    ensures mem[a] as nat == slot + 1 && mem[a + 1..a + 8] == [0, 0, 0, 1, 0, 0, 0]
  {
    hide EntryAt, SeqCrc, WordLe, SeqOf;
    SmallWords();
    SeqBytes(slot);
    EntryIffBytes(mem, a, PendingEntry(slot));
    var b := mem[a..a + 12];
    SliceOfSlice(mem, a, a + 12, 1, 8);
    assert b[0] == mem[a];
    assert b[1..8] == WordLe(SeqOf(slot))[1..] + WordLe(1);
  }

  lemma StateBytes(mem: seq<byte>, a: nat)
    requires a + 12 <= |mem|
    ensures mem[a + 4..a + 8] == WordLe(EntryAt(mem, a).otaState)
  {
    hide WordLe, LeWord;
    WordLeOfLeWord(mem[a + 4..a + 8]);
  }

  lemma RolledBackBytes(mem: seq<byte>, after: seq<byte>, a: nat)
    requires a + 12 <= |mem| == |after| && mem[a + 4..a + 8] == [1, 0, 0, 0]
    requires EntryAt(after, a) == Rollback(EntryAt(mem, a))
    ensures after[a + 4..a + 8] == [4, 0, 0, 0]
  {
    hide EntryAt, SeqCrc, WordLe, LeWord;
    SmallWords();
    StateBytes(mem, a);
    StateBytes(after, a);
    LeWordOfWordLe(EntryAt(mem, a).otaState);
    LeWordOfWordLe(1);
  }
}
