/** The demo system as one transition system over the flash: boots, firmware transfers and
    confirmations, each cut short anywhere, in any order.  Its runs refine a two-field abstract
    machine. */
module OtaSystem {
  import opened Words
  import opened Wrappers
  import opened Crc
  import opened FlashOps
  import opened FlashDriver
  import opened BootTypes
  import opened OtaData
  import opened BootRecords
  import opened PartitionTable
  import opened ImageFormat
  import opened BootSweep
  import opened Boot
  import opened OtaTransfer
  import ImageLoad
  import MemoryMap
  import TestImage

  // -------------------------------------------------------------------------
  // The layout
  // -------------------------------------------------------------------------

  const FACTORY: PartitionPos := PartitionPos(0x1_0000, 0x1_0000)
  const OTA_0: PartitionPos := PartitionPos(OTA0_OFFSET, OTA0_SIZE)

  const FIVE_EMPTY: seq<PartitionPos> := [NO_PARTITION, NO_PARTITION, NO_PARTITION, NO_PARTITION, NO_PARTITION]

  const DEMO: BootTable :=
    BootTable(FACTORY, NO_PARTITION, [OTA_0] + FIVE_EMPTY + FIVE_EMPTY + FIVE_EMPTY, OTA_INFO, 1)

  function LabelBytes(text: seq<byte>): (r: seq<byte>)
    requires |text| <= 15
    ensures |r| == 16
  {
    text + seq(16 - |text|, _ => 0)
  }

  function Part(kind: byte, subtype: byte, pos: PartitionPos, text: seq<byte>): PartitionInfo
    requires |text| <= 15
  {
    PartitionInfo(PARTITION_MAGIC, kind, subtype, pos, LabelBytes(text))
  }

  const FACTORY_NAME: seq<byte> := [0x66, 0x61, 0x63, 0x74, 0x6F, 0x72, 0x79]
  const OTA_0_NAME: seq<byte> := [0x6F, 0x74, 0x61, 0x5F, 0x30]
  const OTADATA_NAME: seq<byte> := [0x6F, 0x74, 0x61, 0x64, 0x61, 0x74, 0x61]

  /** The table `build_partition_table.py` writes. */
  const DEMO_ENTRIES: seq<PartitionInfo> := [
    Part(0x00, 0x00, FACTORY, FACTORY_NAME),
    Part(0x00, 0x10, OTA_0, OTA_0_NAME),
    Part(0x01, 0x00, OTA_INFO, OTADATA_NAME)]

  lemma TextLabelOk(text: seq<byte>)
    requires |text| <= 15 && forall i | 0 <= i < |text| :: Printable(text[i])
    ensures LabelOk(LabelBytes(text))
  {
    assert TextThenNuls(LabelBytes(text), |text|);
  }

  lemma DemoRoles()
    ensures RoleOf(DEMO_ENTRIES[0]) == Factory
    ensures RoleOf(DEMO_ENTRIES[1]) == Ota(0)
    ensures RoleOf(DEMO_ENTRIES[2]) == OtaInfo
  {}

  /** The demo table passes verification and stands for `DEMO`. */
  lemma DemoTableIsGood()
    ensures GoodTable(DEMO, DEMO_ENTRIES)
  {
    hide RoleOf, LabelOk;
    DemoRoles();
    TextLabelOk(FACTORY_NAME);
    TextLabelOk(OTA_0_NAME);
    TextLabelOk(OTADATA_NAME);
    var es := DEMO_ENTRIES;
    assert IsLastWithRole(es, Factory, 0) && IsLastWithRole(es, Ota(0), 1) && IsLastWithRole(es, OtaInfo, 2);
    assert LastWithRole(es, Factory, es[0].pos) && LastWithRole(es, Ota(0), es[1].pos) && LastWithRole(es, OtaInfo, es[2].pos);
    assert LastWithRole(es, Test, NO_PARTITION);
    forall s: nat | 0 < s < MAX_OTA_SLOTS
      ensures LastWithRole(es, Ota(s), NO_PARTITION)
    {}
  }

  /** `part(..)`: one entry as the script packs it. */
  function PartBytes(kind: byte, subtype: byte, pos: PartitionPos, text: seq<byte>): (b: seq<byte>)
    requires |text| <= 15
    ensures |b| == ENTRY_LEN
  {
    [0xAA, 0x50, kind, subtype] + U32Le(pos.offset) + U32Le(pos.size) + LabelBytes(text) + [0, 0, 0, 0]
  }

  function Fill(n: nat): (b: seq<byte>)
    ensures |b| == n
  {
    seq(n, _ => 0xFF)
  }

  /** The file `build_partition_table.py` writes. */
  function DemoTable(): (b: seq<byte>)
    ensures |b| == TABLE_MAX_LEN
  {
    PartBytes(0x00, 0x00, FACTORY, FACTORY_NAME)
    + (PartBytes(0x00, 0x10, OTA_0, OTA_0_NAME)
       + (PartBytes(0x01, 0x00, OTA_INFO, OTADATA_NAME)
          + Fill(TABLE_MAX_LEN - 3 * ENTRY_LEN)))
  }

  lemma PartDecodes(kind: byte, subtype: byte, pos: PartitionPos, text: seq<byte>)
    requires |text| <= 15
    ensures EntryOf(PartBytes(kind, subtype, pos, text)) == Part(kind, subtype, pos, text)
  {
    hide LeU32, U32Le, NatOfByte, LabelBytes;
    var b := PartBytes(kind, subtype, pos, text);
    MagicBytes();
    assert b[0..2] == [0xAA, 0x50] && b[4..8] == U32Le(pos.offset) && b[8..12] == U32Le(pos.size) && b[12..28] == LabelBytes(text);
    LeU32OfU32Le(pos.offset);
    LeU32OfU32Le(pos.size);
  }

  lemma MagicBytes()
    ensures NatOfByte(0xAA) == 0xAA && NatOfByte(0x50) == 0x50 && NatOfByte(0xFF) == 0xFF
  {}

  lemma FillIsNoEntry()
    ensures EntryOf(Fill(ENTRY_LEN)).magic != PARTITION_MAGIC
  {
    hide NatOfByte;
    MagicBytes();
    assert Fill(ENTRY_LEN)[0..2] == [0xFF, 0xFF];
  }

  /** On a chip holding that file at the table's place, the bootloader reads exactly the three entries,
      verifies them, and derives `DEMO`. */
  lemma DemoTableDecodes(mem: seq<byte>)
    requires LiesAt(mem, TABLE_OFFSET, DemoTable())
    ensures TABLE_OFFSET + TABLE_MAX_LEN <= |mem| && TableIn(mem) == DEMO_ENTRIES
    ensures GoodTable(DEMO, TableIn(mem))
  {
    hide EntryOf, GoodTable, PartBytes, Fill, LiesAt, UsedFrom, Part;
    var a, b, c := PartBytes(0x00, 0x00, FACTORY, FACTORY_NAME), PartBytes(0x00, 0x10, OTA_0, OTA_0_NAME), PartBytes(0x01, 0x00, OTA_INFO, OTADATA_NAME);
    var n := TABLE_MAX_LEN - 3 * ENTRY_LEN;
    LiesAtConcat(mem, TABLE_OFFSET, a, b + (c + Fill(n)));
    LiesAtConcat(mem, TABLE_OFFSET + ENTRY_LEN, b, c + Fill(n));
    LiesAtConcat(mem, TABLE_OFFSET + 2 * ENTRY_LEN, c, Fill(n));
    FillSplit(n);
    LiesAtConcat(mem, TABLE_OFFSET + 3 * ENTRY_LEN, Fill(ENTRY_LEN), Fill(n - ENTRY_LEN));
    TableFits(mem);
    var es := EntriesOf(mem[TABLE_OFFSET..TABLE_OFFSET + MAX_PARTITIONS * ENTRY_LEN]);
    EntryFromFlash(mem, 0, a);
    EntryFromFlash(mem, 1, b);
    EntryFromFlash(mem, 2, c);
    EntryFromFlash(mem, 3, Fill(ENTRY_LEN));
    PartDecodes(0x00, 0x00, FACTORY, FACTORY_NAME);
    PartDecodes(0x00, 0x10, OTA_0, OTA_0_NAME);
    PartDecodes(0x01, 0x00, OTA_INFO, OTADATA_NAME);
    FillIsNoEntry();
    assert es[0] == DEMO_ENTRIES[0] && es[1] == DEMO_ENTRIES[1] && es[2] == DEMO_ENTRIES[2];
    PartsHaveMagic();
    ThreeUsed(es);
    assert es[..3] == DEMO_ENTRIES;
    DemoTableIsGood();
  }

  lemma ThreeUsed(es: seq<PartitionInfo>)
    requires |es| > 3 && forall i | 0 <= i < 3 :: es[i].magic == PARTITION_MAGIC
    requires es[3].magic != PARTITION_MAGIC
    ensures UsedCount(es) == 3
  {
    hide UsedFrom;
  }

  lemma FillSplit(n: nat)
    requires n >= ENTRY_LEN
    ensures Fill(n) == Fill(ENTRY_LEN) + Fill(n - ENTRY_LEN)
  {}

  lemma PartsHaveMagic()
    ensures forall i | 0 <= i < 3 :: DEMO_ENTRIES[i].magic == PARTITION_MAGIC
  {}

  lemma TableFits(mem: seq<byte>)
    requires LiesAt(mem, TABLE_OFFSET, DemoTable())
    ensures TABLE_OFFSET + TABLE_MAX_LEN <= |mem|
  {}

  lemma EntryFromFlash(mem: seq<byte>, i: nat, b: seq<byte>)
    requires i < MAX_PARTITIONS && |b| == ENTRY_LEN && TABLE_OFFSET + TABLE_MAX_LEN <= |mem|
    requires LiesAt(mem, TABLE_OFFSET + i * ENTRY_LEN, b)
    ensures EntriesOf(mem[TABLE_OFFSET..TABLE_OFFSET + MAX_PARTITIONS * ENTRY_LEN])[i] == EntryOf(b)
  {
    hide EntryOf;
    SliceOfSlice(mem, TABLE_OFFSET, TABLE_OFFSET + MAX_PARTITIONS * ENTRY_LEN, i * ENTRY_LEN, (i + 1) * ENTRY_LEN);
  }

  // -------------------------------------------------------------------------
  // Events
  // -------------------------------------------------------------------------

  /** Something that changes the flash, stopped after `cut` operations: a boot that was going to start
      `slot`, `cmd_ota` receiving `fw`, or `mark_ota_valid`. */
  datatype Event =
    | Booting(slot: int, cut: nat)
    | Transfer(fw: seq<byte>, cut: nat)
    | Confirm(cut: nat)

  predicate Possible(e: Event) {
    match e
    case Booting(slot, _) => slot == FACTORY_INDEX || slot == 0
    case Transfer(fw, _) => 0 < |fw| <= OTA0_SIZE
    case Confirm(_) => true
  }

  function EventOps(mem: seq<byte>, e: Event): seq<FlashOp>
    requires Possible(e)
  {
    match e
    case Booting(slot, _) => BootOps(mem, DEMO, slot)
    case Transfer(fw, _) => OtaOps(fw)
    case Confirm(_) => RecordOps(IMG_VALID)
  }

  function Step(mem: seq<byte>, e: Event): seq<byte>
    requires Possible(e)
  {
    ApplyAll(mem, Cut(EventOps(mem, e), e.cut))
  }

  predicate AllPossible(events: seq<Event>) {
    forall i | 0 <= i < |events| :: Possible(events[i])
  }

  function Run(mem: seq<byte>, events: seq<Event>): seq<byte>
    requires AllPossible(events)
    decreases |events|
  {
    if events == [] then mem else Step(Run(mem, events[..|events| - 1]), events[|events| - 1])
  }

  /** A boot of the demo table starts the factory image or slot 0. */
  lemma BootsArePossible(mem: seq<byte>, env: Env, avail: bool, start: int)
    requires start == FACTORY_INDEX || start == 0
    ensures DEMO.Valid()
    ensures FirstLoadable(mem, DEMO, env, avail, SweepOrder(start, DEMO.appCount)) in {None, Some(FACTORY_INDEX), Some(0)}
  {
    hide Loadable, PartitionAt, SweepOrder, FirstLoadable;
    var order := SweepOrder(start, DEMO.appCount);
    FirstLoadableIsFirst(mem, DEMO, env, avail, order);
    if FirstLoadable(mem, DEMO, env, avail, order).Some? {
      var k: nat :| LoadsFirst(mem, DEMO, env, avail, order, k) && order[k] == FirstLoadable(mem, DEMO, env, avail, order).value;
      assert order[k] in order;
    }
    forall i | i in order
      ensures i == FACTORY_INDEX || i == 0
    {
      SweepIsExhaustive(start, DEMO.appCount, i);
    }
  }

  // -------------------------------------------------------------------------
  // The invariant
  // -------------------------------------------------------------------------

  /** A record of the system's own, or what some cut of its write leaves. */
  predicate TornOwn(e: OtaEntry, state: bv32) {
    || e == Torn(BLANK, OwnEntry(state), 1)
    || e == Torn(BLANK, OwnEntry(state), 2)
    || e == Torn(BLANK, OwnEntry(state), 3)
    || e == OwnEntry(state)
  }

  predicate FirstOk(e: OtaEntry) { TornOwn(e, IMG_NEW) || TornOwn(e, IMG_VALID) }
  predicate SecondOk(e: OtaEntry) { TornOwn(e, IMG_PENDING_VERIFY) || TornOwn(e, IMG_ABORTED) }

  /** Sector 0 holds a new or confirmed record or a torn one, sector 1 a pending or aborted one or a
      torn one, all for slot 0. */
  predicate Inv(mem: seq<byte>) {
    LayoutFits(mem) && FirstOk(Record(mem, OTA_INFO, 0)) && SecondOk(Record(mem, OTA_INFO, 1))
  }

  predicate Committed(e: OtaEntry) {
    e == OwnEntry(IMG_NEW) || e == OwnEntry(IMG_VALID)
  }

  lemma TornOwnAt(prior: OtaEntry, state: bv32, k: nat)
    requires k >= 1
    ensures TornOwn(Torn(prior, OwnEntry(state), k), state)
    ensures k >= 4 ==> Torn(prior, OwnEntry(state), k) == OwnEntry(state)
  {
    hide SeqCrc;
  }

  lemma OwnCrc()
    ensures SeqCrc(1) != ALL_ONES
  {
    hide SeqCrc;
    TornSeqIsUnique(1);
  }

  lemma FirstFacts(e: OtaEntry)
    requires FirstOk(e)
    ensures e.otaState != IMG_PENDING_VERIFY
    ensures Settled(e) <==> Committed(e)
    ensures Settled(e) ==> e.otaSeq == 1
  {
    hide SeqCrc;
    OwnCrc();
  }

  lemma SecondFacts(e: OtaEntry)
    requires SecondOk(e)
    ensures !Settled(e)
    ensures e.otaState == IMG_PENDING_VERIFY ==> e.otaSeq == 1 && Rollback(e) == OwnEntry(IMG_ABORTED)
  {
    hide SeqCrc;
    OwnCrc();
  }

  lemma TornMiddle(prior: OtaEntry, state: bv32, k: nat)
    requires 1 <= k <= 3
    ensures !Committed(Torn(prior, OwnEntry(state), k))
  {
    hide SeqCrc;
    OwnCrc();
  }

  lemma OwnSeq()
    ensures SeqOf(0) == 1 && SlotOf(1) == Some(0) && TORN_SEQ != 1
    ensures PendingEntry(0) == OwnEntry(IMG_PENDING_VERIFY)
  {
    hide SeqCrc;
  }

  /** A factory-new chip, with both OTA sectors erased, satisfies the invariant. */
  lemma BlankIsFine(mem: seq<byte>)
    requires LayoutFits(mem) && Record(mem, OTA_INFO, 0) == BLANK && Record(mem, OTA_INFO, 1) == BLANK
    ensures Inv(mem) && SelectedIndex(mem, DEMO) == FACTORY_INDEX
  {
    hide EntryAt, SeqCrc, Chosen, IndexOfSeq;
    SelectedIffCommitted(mem);
    OwnCrc();
  }

  /** Slot 0 is selected exactly when sector 0 holds a complete record; otherwise the factory image
      is. */
  lemma SelectedIffCommitted(mem: seq<byte>)
    requires Inv(mem)
    ensures SelectedIndex(mem, DEMO) == if Committed(Record(mem, OTA_INFO, 0)) then 0 else FACTORY_INDEX
  {
    hide EntryAt, SeqCrc, Chosen, Committed, Settled, FirstOk, SecondOk, SlotOf;
    var e0, e1 := Record(mem, OTA_INFO, 0), Record(mem, OTA_INFO, 1);
    FirstFacts(e0);
    SecondFacts(e1);
    ChosenIsGreatestSettled(e0, e1);
    OwnSeq();
  }

  lemma InvIsSound(mem: seq<byte>)
    requires Inv(mem)
    ensures Sound(mem, DEMO) && Placed(mem, OTA_INFO)
  {
    hide EntryAt, SeqCrc, FirstOk, SecondOk;
    FirstFacts(Record(mem, OTA_INFO, 0));
    SecondFacts(Record(mem, OTA_INFO, 1));
    OwnSeq();
  }

  // -------------------------------------------------------------------------
  // The abstract machine
  // -------------------------------------------------------------------------

  /** Whether slot 0 is selected, and the firmware ota_0 is known to hold. */
  datatype Abstract = Abstract(selected: bool, image: Option<seq<byte>>)

  /** Operations before the record of a transfer is touched. */
  function StoreLen(fw: seq<byte>): nat
    requires |fw| <= OTA0_SIZE
  {
    |StoreOps(fw)|
  }

  /** A boot changes nothing.  A transfer first spoils the image, then completes it, then drops the
      selection, then makes it.  A confirmation drops the selection before it makes it again. */
  function AbstractStep(a: Abstract, e: Event): Abstract
    requires Possible(e)
  {
    match e
    case Booting(_, _) => a
    case Transfer(fw, cut) =>
      if cut == 0 then a
      else if cut < StoreLen(fw) then a.(image := None)
      else Abstract(cut >= StoreLen(fw) + 4 || (cut == StoreLen(fw) && a.selected), Some(fw))
    case Confirm(cut) => a.(selected := cut >= 4 || (cut == 0 && a.selected))
  }

  function AbstractRun(a: Abstract, events: seq<Event>): Abstract
    requires AllPossible(events)
    decreases |events|
  {
    if events == [] then a else AbstractStep(AbstractRun(a, events[..|events| - 1]), events[|events| - 1])
  }

  predicate Represents(mem: seq<byte>, a: Abstract) {
    && Inv(mem)
    && (a.selected <==> Committed(Record(mem, OTA_INFO, 0)))
    && (a.image.Some? ==> LiesIn(mem, a.image.value) && |a.image.value| <= OTA0_SIZE)
  }

  // -------------------------------------------------------------------------
  // One step
  // -------------------------------------------------------------------------

  /** Every record a boot writes goes to sector 1 and is pending or aborted. */
  predicate BootRecord(w: RecordWrite) {
    w.sector == 1 && (w.entry == OwnEntry(IMG_PENDING_VERIFY) || w.entry == OwnEntry(IMG_ABORTED))
  }

  lemma BootRecordsOnly(mem: seq<byte>, slot: int)
    requires Inv(mem) && (slot == FACTORY_INDEX || slot == 0)
    ensures forall i | 0 <= i < |BootWrites(mem, DEMO, slot)| :: BootRecord(BootWrites(mem, DEMO, slot)[i])
  {
    hide EntryAt, SeqCrc, FirstOk, SecondOk, Settled, ActiveOtadata, PendingEntry, OwnEntry, ApplyAll, AllOps, Rollback;
    var e0, e1 := Record(mem, OTA_INFO, 0), Record(mem, OTA_INFO, 1);
    InvIsSound(mem);
    FirstFacts(e0);
    SecondFacts(e1);
    OwnSeq();
    RecordsAfterSelect(mem, DEMO);
    SecondNeverActive(e0, e1);
  }

  lemma SecondNeverActive(e0: OtaEntry, e1: OtaEntry)
    requires SecondOk(e1)
    ensures ActiveOtadata(Rollback(e0), Rollback(e1)) != 1
  {
    hide SeqCrc, SecondOk, Rollback, SelectValid, Settled;
    SecondFacts(e1);
    RollbackSettles(e1);
  }

  lemma {:induction false} CutBootRecords(mem: seq<byte>, ws: seq<RecordWrite>, k: nat)
    requires Inv(mem) && k <= |AllOps(OTA_INFO, ws)|
    requires forall i | 0 <= i < |ws| :: BootRecord(ws[i])
    ensures var after := ApplyAll(mem, AllOps(OTA_INFO, ws)[..k]);
            && Inv(after)
            && Record(after, OTA_INFO, 0) == Record(mem, OTA_INFO, 0)
    decreases |ws|
  {
    hide EntryAt, FirstOk, SecondOk, AllOps, WriteOps, OwnEntry, ApplyAll;
    if ws == [] {
      NoOps(OTA_INFO);
      ApplyNothing(mem);
    } else {
      var rest, w := ws[..|ws| - 1], ws[|ws| - 1];
      var done := AllOps(OTA_INFO, rest);
      CutOfAllOps(OTA_INFO, ws, k);
      if k <= |done| {
        CutBootRecords(mem, rest, k);
      } else {
        CutBootRecords(mem, rest, |done|);
        ApplyAllConcat(mem, done, WriteOps(OTA_INFO, w)[..k - |done|]);
        OneBootRecord(ApplyAll(mem, done), w, k - |done|);
      }
    }
  }

  lemma OneBootRecord(mem: seq<byte>, w: RecordWrite, k: nat)
    requires Inv(mem) && BootRecord(w) && 1 <= k <= |WriteOps(OTA_INFO, w)|
    ensures var after := ApplyAll(mem, WriteOps(OTA_INFO, w)[..k]);
            Inv(after) && Record(after, OTA_INFO, 0) == Record(mem, OTA_INFO, 0)
  {
    hide EntryAt, FirstOk, TornOwn, WriteEntry, OwnEntry, SectorBytes, Torn;
    InvIsSound(mem);
    CutWriteEffect(mem, OTA_INFO, w, k);
    TornOwnAt(Record(mem, OTA_INFO, 1), IMG_PENDING_VERIFY, k);
    TornOwnAt(Record(mem, OTA_INFO, 1), IMG_ABORTED, k);
  }

  /** One boot is a one-attempt run of boots. */
  lemma BootingIsAttempt(mem: seq<byte>, slot: int, cut: nat)
    requires slot == FACTORY_INDEX || slot == 0
    ensures AfterAttempts(mem, DEMO, [Attempt(slot, cut)]) == Step(mem, Booting(slot, cut))
  {
    hide BootOps, ApplyAll;
    NoAttempts(mem, DEMO);
    OneMoreAttempt(mem, DEMO, [], Attempt(slot, cut));
    assert [] + [Attempt(slot, cut)] == [Attempt(slot, cut)];
  }

  lemma BootingRefines(mem: seq<byte>, a: Abstract, slot: int, cut: nat)
    requires Represents(mem, a) && (slot == FACTORY_INDEX || slot == 0)
    ensures Represents(Step(mem, Booting(slot, cut)), a)
  {
    hide Inv, EntryAt, BootWrites, Committed, AfterAttempts, ApplyAll;
    var after := Step(mem, Booting(slot, cut));
    var ops := BootOps(mem, DEMO, slot);
    BootRecordsOnly(mem, slot);
    assert ops[..|ops|] == ops;
    CutBootRecords(mem, BootWrites(mem, DEMO, slot), if cut <= |ops| then cut else |ops|);
    BootingIsAttempt(mem, slot, cut);
    BootsLeaveOtherFlash(mem, DEMO, [Attempt(slot, cut)]);
    if a.image.Some? {
      FirmwareKept(mem, after, a.image.value);
    }
  }

  lemma TransferRefines(mem: seq<byte>, a: Abstract, fw: seq<byte>, cut: nat)
    requires Represents(mem, a) && 0 < |fw| <= OTA0_SIZE
    ensures Represents(Step(mem, Transfer(fw, cut)), AbstractStep(a, Transfer(fw, cut)))
  {
    hide FirstOk, SecondOk, EntryAt, Committed, OwnEntry, StoreOps, RecordOps, Torn, SectorBytes, ApplyAll;
    var ops, n := OtaOps(fw), StoreLen(fw);
    var k := if cut <= |ops| then cut else |ops|;
    assert ops[..|ops|] == ops;
    var after := ApplyAll(mem, ops[..k]);
    assert after == Step(mem, Transfer(fw, cut));
    CutTransfer(mem, fw, k);
    RecordOfSector(mem, after, OTA_INFO, 1);
    if k <= n {
      RecordOfSector(mem, after, OTA_INFO, 0);
      if k == 0 {
        assert ops[..0] == [];
        ApplyNothing(mem);
      }
    } else {
      TornRecord(mem, after, IMG_NEW, k - n);
    }
  }

  /** A torn or complete record in sector 0. */
  lemma TornRecord(mem: seq<byte>, after: seq<byte>, state: bv32, k: nat)
    requires LayoutFits(mem) && LayoutFits(after) && k >= 1 && (state == IMG_NEW || state == IMG_VALID)
    requires Record(after, OTA_INFO, 0) == Torn(Record(mem, OTA_INFO, 0), OwnEntry(state), k)
    ensures FirstOk(Record(after, OTA_INFO, 0))
    ensures Committed(Record(after, OTA_INFO, 0)) <==> k >= 4
  {
    hide EntryAt, SeqCrc, TornOwn, OwnEntry, Torn;
    TornOwnAt(Record(mem, OTA_INFO, 0), state, k);
    if k <= 3 {
      TornMiddle(Record(mem, OTA_INFO, 0), state, k);
    }
  }

  lemma ConfirmRefines(mem: seq<byte>, a: Abstract, cut: nat)
    requires Represents(mem, a)
    ensures Represents(Step(mem, Confirm(cut)), AbstractStep(a, Confirm(cut)))
  {
    hide FirstOk, SecondOk, EntryAt, Committed, OwnEntry, RecordOps, Torn, SectorBytes, ApplyAll;
    var ops := RecordOps(IMG_VALID);
    var k := if cut <= |ops| then cut else |ops|;
    assert ops[..|ops|] == ops;
    var after := ApplyAll(mem, ops[..k]);
    assert after == Step(mem, Confirm(cut));
    InvIsSound(mem);
    CutRecord(mem, IMG_VALID, k);
    OtherSectorUnchanged(mem, after, OTA_INFO, 0);
    if k == 0 {
      assert ops[..0] == [];
      ApplyNothing(mem);
    } else {
      TornRecord(mem, after, IMG_VALID, k);
    }
    if a.image.Some? {
      FirmwareKept(mem, after, a.image.value);
    }
  }

  // -------------------------------------------------------------------------
  // Whole runs
  // -------------------------------------------------------------------------

  /** Every run of the system refines the abstract machine, so the invariant holds throughout. */
  lemma {:induction false} RunRefines(mem: seq<byte>, a: Abstract, events: seq<Event>)
    requires Represents(mem, a) && AllPossible(events)
    ensures Represents(Run(mem, events), AbstractRun(a, events))
    decreases |events|
  {
    hide Represents, Step, AbstractStep;
    if events != [] {
      var rest, e := events[..|events| - 1], events[|events| - 1];
      RunRefines(mem, a, rest);
      var before, b := Run(mem, rest), AbstractRun(a, rest);
      match e {
        case Booting(slot, cut) =>
          BootingRefines(before, b, slot, cut);
          BootingKeeps(b, slot, cut);
        case Transfer(fw, cut) => TransferRefines(before, b, fw, cut);
        case Confirm(cut) => ConfirmRefines(before, b, cut);
      }
    }
  }

  lemma BootingKeeps(a: Abstract, slot: int, cut: nat)
    requires Possible(Booting(slot, cut))
    ensures AbstractStep(a, Booting(slot, cut)) == a
  {}

  /** From any state the system can be in, what the next boot selects and what ota_0 holds are
      decided by the events alone. */
  lemma SelectionOfRun(mem: seq<byte>, a: Abstract, events: seq<Event>)
    requires Represents(mem, a) && AllPossible(events)
    ensures var b := AbstractRun(a, events);
            && SelectedIndex(Run(mem, events), DEMO) == (if b.selected then 0 else FACTORY_INDEX)
            && (b.image.Some? ==> LiesIn(Run(mem, events), b.image.value))
            && Sound(Run(mem, events), DEMO)
  {
    hide Run, AbstractRun, Inv, EntryAt, Committed;
    RunRefines(mem, a, events);
    SelectedIffCommitted(Run(mem, events));
    InvIsSound(Run(mem, events));
  }

  /** No event touches anything below ota_0: bootloader, partition table and factory image. */
  lemma {:induction false} BelowOtaIsKept(mem: seq<byte>, a: Abstract, events: seq<Event>)
    requires Represents(mem, a) && AllPossible(events)
    ensures |Run(mem, events)| == |mem|
    ensures forall i | 0 <= i < OTA0_OFFSET && i < |mem| :: Run(mem, events)[i] == mem[i]
    decreases |events|
  {
    hide Represents, Step, AbstractRun;
    if events != [] {
      var rest, e := events[..|events| - 1], events[|events| - 1];
      BelowOtaIsKept(mem, a, rest);
      RunRefines(mem, a, rest);
      StepKeepsBelow(Run(mem, rest), AbstractRun(a, rest), e);
    }
  }

  lemma StepKeepsBelow(mem: seq<byte>, a: Abstract, e: Event)
    requires Represents(mem, a) && Possible(e)
    ensures |Step(mem, e)| == |mem|
    ensures forall i | 0 <= i < OTA0_OFFSET && i < |mem| :: Step(mem, e)[i] == mem[i]
  {
    hide Inv, EntryAt, StoreOps, BootOps, RecordOps, ApplyAll, AfterAttempts;
    match e {
      case Booting(slot, cut) =>
        BootingIsAttempt(mem, slot, cut);
        BootsLeaveOtherFlash(mem, DEMO, [Attempt(slot, cut)]);
      case Transfer(fw, cut) =>
        TransferWithin(fw);
        WithinLeavesRest(mem, Cut(OtaOps(fw), cut), OTA0_OFFSET, LAYOUT_END);
      case Confirm(cut) =>
        RecordWithin(IMG_VALID);
        WithinLeavesRest(mem, Cut(RecordOps(IMG_VALID), cut), OTA0_OFFSET, LAYOUT_END);
    }
  }

  lemma RecordWithin(state: bv32)
    ensures Within(RecordOps(state), OTA_DATA_OFFSET, LAYOUT_END)
  {
    hide WriteEntry, SeqCrc;
    WriteEntryWithin(OTA_DATA_OFFSET, OwnEntry(state), [0]);
  }

  lemma TransferWithin(fw: seq<byte>)
    requires |fw| <= OTA0_SIZE
    ensures Within(OtaOps(fw), OTA0_OFFSET, LAYOUT_END)
  {
    hide StoreOps, RecordOps;
    StoreWithin(fw);
    RecordWithin(IMG_NEW);
    assert Within(StoreOps(fw), OTA0_OFFSET, LAYOUT_END);
    assert Within(RecordOps(IMG_NEW), OTA0_OFFSET, LAYOUT_END);
    WithinConcat(StoreOps(fw), RecordOps(IMG_NEW), OTA0_OFFSET, LAYOUT_END);
  }

  // -------------------------------------------------------------------------
  // What the system guarantees
  // -------------------------------------------------------------------------

  /** Whatever boots, transfers and confirmations happen, and wherever power is lost, the next boot
      finds an image to start as long as the factory image was good to begin with. */
  lemma SystemNeverBricked(mem: seq<byte>, a: Abstract, events: seq<Event>, env: Env, avail: bool)
    requires Represents(mem, a) && AllPossible(events)
    requires SelfContained(mem, FACTORY, env, avail)
    ensures var after := Run(mem, events);
            FirstLoadable(AtSweep(after, DEMO), DEMO, env, avail, SweepOrder(SelectedIndex(after, DEMO), DEMO.appCount)).Some?
  {
    hide Represents, Run, AbstractRun, SelfContained, GoodTable, SelectedIndex, FirstLoadable, SweepOrder, AtSweep, AfterAttempts, Sound;
    var after := Run(mem, events);
    BelowOtaIsKept(mem, a, events);
    SelfContainedKept(mem, after, FACTORY, env, avail);
    SelectionOfRun(mem, a, events);
    DemoTableIsGood();
    NoAttempts(after, DEMO);
    NeverBricked(after, DEMO, DEMO_ENTRIES, env, avail, [], SelectedIndex(after, DEMO));
  }

  /** A transfer that gets as far as the record's last word, or all the way, sticks if its image is
      good: the firmware is in ota_0, and through any number of interrupted boots it stays the one
      every boot starts. */
  lemma UpdateSticks(mem: seq<byte>, a: Abstract, fw: seq<byte>, cut: nat, env: Env, avail: bool, attempts: seq<Attempt>)
    requires Represents(mem, a) && 0 < |fw| <= OTA0_SIZE && cut >= StoreLen(fw) + 4
    requires forall t | t in attempts :: t.booted < MAX_OTA_SLOTS
    requires SelfContained(Step(mem, Transfer(fw, cut)), OTA_0, env, avail)
    ensures var updated := Step(mem, Transfer(fw, cut));
            var after := AfterAttempts(updated, DEMO, attempts);
            && LiesIn(updated, fw)
            && SelectedIndex(after, DEMO) == 0
            && FirstLoadable(AtSweep(after, DEMO), DEMO, env, avail, SweepOrder(SelectedIndex(after, DEMO), DEMO.appCount)) == Some(0)
  {
    hide Inv, Step, SelfContained, GoodTable, SelectedIndex, FirstLoadable, SweepOrder, AtSweep, AfterAttempts, Sound, EntryAt, Committed;
    var updated := Step(mem, Transfer(fw, cut));
    TransferRefines(mem, a, fw, cut);
    SelectedIffCommitted(updated);
    InvIsSound(updated);
    DemoTableIsGood();
    SelectionIsCrashStable(updated, DEMO, attempts);
    NeverDiverted(updated, DEMO, DEMO_ENTRIES, env, avail, attempts);
    SameIndex(updated, AfterAttempts(updated, DEMO, attempts), DEMO);
  }

  /** The flash `CmdOta` leaves is that of a transfer with no cut. */
  lemma CompletedTransfer(mem: seq<byte>, log: seq<FlashOp>, after: seq<byte>, afterLog: seq<FlashOp>, fw: seq<byte>)
    requires 0 < |fw| <= OTA0_SIZE && Performed(mem, log, after, afterLog, OtaOps(fw))
    ensures after == Step(mem, Transfer(fw, StoreLen(fw) + 5))
  {
    hide StoreOps, RecordOps, ApplyAll;
    assert |OtaOps(fw)| == StoreLen(fw) + 5;
    assert OtaOps(fw)[..StoreLen(fw) + 5] == OtaOps(fw);
  }

  lemma SameIndex(mem: seq<byte>, after: seq<byte>, bs: BootTable)
    requires Sound(mem, bs) && SameSelection(mem, after, bs)
    ensures bs.Valid() && SelectedIndex(after, bs) == SelectedIndex(mem, bs)
  {}

  /** The eight bytes the anti-rollback gate reads of a built image: the payload's first, and padding
      behind a shorter payload. */
  function Descriptor(payload: seq<byte>): (d: seq<byte>)
    ensures |d| == 8
  {
    (payload + TestImage.Zeros(8))[..8]
  }

  /** The payload does not start with a descriptor, or with one at least as new as the fuse. */
  predicate VersionOk(payload: seq<byte>, env: Env) {
    LeU32(Descriptor(payload)[..4]) == APP_DESC_MAGIC ==> LeU32(Descriptor(payload)[4..]) >= env.secureVersion
  }

  lemma DescriptorInImage(payload: seq<byte>)
    requires |payload| < TWO_TO_THE_32
    ensures |TestImage.Built(payload)| >= 40 && TestImage.Built(payload)[32..40] == Descriptor(payload)
  {
    hide U32Le, XorAll;
    var b := TestImage.Unpadded(payload);
    var pad := TestImage.Zeros(PadLen(|b|));
    var built := TestImage.Built(payload);
    assert b[..32] + payload == b;
    assert |payload| < 8 ==> |pad| == 15 - |payload|;
    forall k | 0 <= k < 8
      ensures 32 + k < |built| && built[32 + k] == Descriptor(payload)[k]
    {
      if k < |payload| {
        assert built[32 + k] == b[32 + k] == payload[k];
      } else {
        assert built[32 + k] == pad[k - |payload|];
      }
    }
  }

  /** That condition on the payload is what the gate decides on the stored image. */
  lemma GateDecides(mem: seq<byte>, part: PartitionPos, payload: seq<byte>, env: Env)
    requires |payload| < TWO_TO_THE_32 && part.offset + 40 < TWO_TO_THE_32
    requires LiesAt(mem, part.offset, TestImage.Built(payload))
    ensures AntiRollbackOk(mem, part, env) <==> VersionOk(payload, env)
  {
    hide LeU32, TestImage.Built, Descriptor;
    DescriptorInImage(payload);
    var a, built := part.offset, TestImage.Built(payload);
    SliceOfSlice(mem, a, a + |built|, 32, 36);
    SliceOfSlice(mem, a, a + |built|, 36, 40);
    SliceOfSlice(built, 32, 40, 0, 4);
    SliceOfSlice(built, 32, 40, 4, 8);
  }

  /** A built image in a 16-aligned partition loads if and only if its payload fits one mapping and
      passes the gate. */
  lemma BuiltLoadsIff(mem: seq<byte>, part: PartitionPos, payload: seq<byte>, env: Env, avail: bool)
    requires |payload| < TWO_TO_THE_32 && TestImage.LinkerLayout(env)
    requires 0 < part.offset && part.offset + 40 < TWO_TO_THE_32 && part.offset % 16 == 0 && part.size > 0
    requires LiesAt(mem, part.offset, TestImage.Built(payload))
    ensures Loadable(mem, part, env, avail) <==> |payload| <= MAX_SEGMENT_DATA && VersionOk(payload, env)
    ensures Loadable(mem, part, env, avail) ==> LoadedImage(mem, part, env, avail) == Some(TestImage.BuiltImage(payload))
  {
    hide TestImage.Built, TestImage.BuiltImage, AcceptedImage, AntiRollbackOk, VersionOk;
    TestImage.BuildThenLoad(mem, part.offset, payload, env, true, avail);
    GateDecides(mem, part, payload, env);
  }

  /** An image printed by the builder, lying in a partition large enough for it, is a good one. */
  lemma BuiltIsSelfContained(mem: seq<byte>, part: PartitionPos, payload: seq<byte>, env: Env, avail: bool)
    requires |payload| <= MAX_SEGMENT_DATA && TestImage.LinkerLayout(env) && VersionOk(payload, env)
    requires 0 < part.offset && part.offset + 40 < TWO_TO_THE_32 && part.offset % 16 == 0
    requires LiesAt(mem, part.offset, TestImage.Built(payload)) && |TestImage.Built(payload)| <= part.size
    ensures SelfContained(mem, part, env, avail)
    ensures LoadedImage(mem, part, env, avail) == Some(TestImage.BuiltImage(payload))
  {
    hide TestImage.Built, TestImage.BuiltImage, LoadedImage, VersionOk, Loadable, Print;
    DescriptorInImage(payload);
    BuiltLoadsIff(mem, part, payload, env, avail);
    TestImage.BuiltIsPrinted(payload);
  }

  lemma BuiltLength(payload: seq<byte>)
    requires |payload| <= MAX_SEGMENT_DATA
    ensures 0 < |TestImage.Built(payload)| <= FACTORY.size && |TestImage.Built(payload)| <= OTA0_SIZE
  {
    hide TestImage.Unpadded, XorAll;
  }

  /** From the build script to the booted application: transferring a built image, whose payload passes
      the gate, to a system in any reachable state makes every later boot, through any number of
      interrupted ones, start slot 0 with exactly that image. */
  lemma BuiltUpdateSticks(mem: seq<byte>, a: Abstract, payload: seq<byte>, cut: nat, env: Env, avail: bool, attempts: seq<Attempt>)
    requires Represents(mem, a) && |payload| <= MAX_SEGMENT_DATA && TestImage.LinkerLayout(env) && VersionOk(payload, env)
    requires |TestImage.Built(payload)| <= OTA0_SIZE ==> cut >= StoreLen(TestImage.Built(payload)) + 4
    requires forall t | t in attempts :: t.booted < MAX_OTA_SLOTS
    ensures 0 < |TestImage.Built(payload)| <= OTA0_SIZE
    ensures var fw := TestImage.Built(payload);
            var after := AfterAttempts(Step(mem, Transfer(fw, cut)), DEMO, attempts);
            && SelectedIndex(after, DEMO) == 0
            && FirstLoadable(AtSweep(after, DEMO), DEMO, env, avail, SweepOrder(SelectedIndex(after, DEMO), DEMO.appCount)) == Some(0)
            && LoadedImage(after, OTA_0, env, avail) == Some(TestImage.BuiltImage(payload))
  {
    hide Represents, Step, SelfContained, AfterAttempts, AtSweep, FirstLoadable, SweepOrder, SelectedIndex, TestImage.Built,
         TestImage.BuiltImage, LoadedImage, StoreLen, VersionOk;
    BuiltLength(payload);
    var fw := TestImage.Built(payload);
    var updated := Step(mem, Transfer(fw, cut));
    StoredByTransfer(mem, a, fw, cut);
    BuiltIsSelfContained(updated, OTA_0, payload, env, avail);
    UpdateSticks(mem, a, fw, cut, env, avail, attempts);
    BootsLeavePartition(updated, DEMO, attempts, OTA_0);
    SelfContainedKept(updated, AfterAttempts(updated, DEMO, attempts), OTA_0, env, avail);
  }

  /** The same for the flash `CmdOta` leaves behind. */
  lemma CompletedUpdateSticks(mem: seq<byte>, log: seq<FlashOp>, updated: seq<byte>, updatedLog: seq<FlashOp>,
                              a: Abstract, payload: seq<byte>, env: Env, avail: bool, attempts: seq<Attempt>)
    requires Represents(mem, a) && |payload| <= MAX_SEGMENT_DATA && TestImage.LinkerLayout(env) && VersionOk(payload, env)
    requires |TestImage.Built(payload)| <= OTA0_SIZE ==> Performed(mem, log, updated, updatedLog, OtaOps(TestImage.Built(payload)))
    requires forall t | t in attempts :: t.booted < MAX_OTA_SLOTS
    ensures var after := AfterAttempts(updated, DEMO, attempts);
            && SelectedIndex(after, DEMO) == 0
            && FirstLoadable(AtSweep(after, DEMO), DEMO, env, avail, SweepOrder(SelectedIndex(after, DEMO), DEMO.appCount)) == Some(0)
            && LoadedImage(after, OTA_0, env, avail) == Some(TestImage.BuiltImage(payload))
  {
    hide Represents, Step, Performed, OtaOps, AfterAttempts, AtSweep, FirstLoadable, SweepOrder, SelectedIndex, TestImage.Built,
         TestImage.BuiltImage, LoadedImage, StoreLen, VersionOk;
    BuiltLength(payload);
    var fw := TestImage.Built(payload);
    CompletedTransfer(mem, log, updated, updatedLog, fw);
    BuiltUpdateSticks(mem, a, payload, StoreLen(fw) + 5, env, avail, attempts);
  }

  /** RAM from 0x40380000 on is the payload. */
  predicate RamShows(cells: map<nat, byte>, payload: seq<byte>) {
    forall at: nat | 0x4038_0000 <= at < 0x4038_0000 + |payload| :: at in cells && cells[at] == payload[at - 0x4038_0000]
  }

  /** What such a boot does: a boot with reliable reads and no hold, after any number of interrupted ones,
      jumps to 0x40380000 in slot 0, with the payload in RAM from there on. */
  lemma BuiltUpdateBoots(mem: seq<byte>, a: Abstract, payload: seq<byte>, cut: nat, env: Env, avail: bool, attempts: seq<Attempt>,
                         flash: Flash, log: seq<FlashOp>, o: Outcome, md: ImageLoad.EspImageMetadata, mmu: MemoryMap.Mmu, cells: map<nat, byte>,
                         r: Reads, noted: bool, tried: seq<int>)
    requires Represents(mem, a) && |payload| <= MAX_SEGMENT_DATA && TestImage.LinkerLayout(env) && VersionOk(payload, env)
    requires 0 < |TestImage.Built(payload)| <= OTA0_SIZE && cut >= StoreLen(TestImage.Built(payload)) + 4
    requires forall t | t in attempts :: t.booted < MAX_OTA_SLOTS
    requires flash.Reliable()
    requires Booted(flash, AfterAttempts(Step(mem, Transfer(TestImage.Built(payload), cut)), DEMO, attempts), log, DEMO, env, avail, NoHold,
                    o, md, mmu, cells, r, noted, tried)
    ensures o == Jump(0, 0x4038_0000)
    ensures RamShows(cells, payload)
  {
    hide Represents, Step, AfterAttempts, AtSweep, FirstLoadable, SweepOrder, SelectedIndex, TestImage.Built, TestImage.BuiltImage, LoadedImage,
         StoreLen, VersionOk, Performed, AppView, Launched, BootOps, LaunchOps, HoldOps, Swept, HoldIndex;
    var updated := Step(mem, Transfer(TestImage.Built(payload), cut));
    var after := AfterAttempts(updated, DEMO, attempts);
    var more := AndSelection(updated, DEMO, attempts);
    BuiltUpdateSticks(mem, a, payload, cut, env, avail, attempts);
    BuiltUpdateSticks(mem, a, payload, cut, env, avail, more);
    BootOpsSplit(after, DEMO, NoHold, o);
    NoHoldIndex(after);
    BuiltJump(AtSweep(after, DEMO), env, avail, o, md, mmu, cells, payload);
  }

  lemma NoHoldIndex(mem: seq<byte>)
    ensures HoldIndex(mem, DEMO, NoHold, ALL_READ) == SelectedIndex(mem, DEMO)
  {
    hide SelectedIndex;
  }

  /** A jump into a built image in slot 0. */
  lemma BuiltJump(mem: seq<byte>, env: Env, avail: bool, o: Outcome, md: ImageLoad.EspImageMetadata, mmu: MemoryMap.Mmu, cells: map<nat, byte>, payload: seq<byte>)
    requires |payload| <= MAX_SEGMENT_DATA && o.Jump? && o.index == 0 && Launched(mem, DEMO, env, avail, o, md, mmu, cells)
    requires LoadedImage(mem, OTA_0, env, avail) == Some(TestImage.BuiltImage(payload))
    ensures o.entry == 0x4038_0000
    ensures RamShows(cells, payload)
  {
    hide LoadedImage, ImageLoad.Describes, MemoryMap.BusMap, MemoryMap.FirstIn, MemoryMap.ChosenSegment, U32Le, LeU32, XorAll,
         ImageLoad.AfterSegments;
    EntryInFlash(mem, OTA_0, env, avail);
    TestImage.BuiltEntry();
    LeU32OfU32Le(o.entry);
    LeU32OfU32Le(0x4038_0000);
    var before :| cells == ImageLoad.AfterSegments(before, TestImage.BuiltImage(payload).segments);
    forall at: nat | 0x4038_0000 <= at < 0x4038_0000 + |payload|
      ensures at in cells && cells[at] == payload[at - 0x4038_0000]
    {
      TestImage.LoadedPayload(payload, before, at - 0x4038_0000);
    }
  }

  lemma StoredByTransfer(mem: seq<byte>, a: Abstract, fw: seq<byte>, cut: nat)
    requires Represents(mem, a) && 0 < |fw| <= OTA0_SIZE && cut >= StoreLen(fw)
    ensures LiesAt(Step(mem, Transfer(fw, cut)), OTA0_OFFSET, fw)
  {
    hide Inv, Step, EntryAt, Committed;
    TransferRefines(mem, a, fw, cut);
  }

  // -------------------------------------------------------------------------
  // A transfer over a selected image
  // -------------------------------------------------------------------------

  /** The old record is not withdrawn before the image under it is replaced: at every cut up to the
      record's own erase, slot 0 stays selected. */
  lemma TransferKeepsSelection(mem: seq<byte>, a: Abstract, fw: seq<byte>, cut: nat)
    requires Represents(mem, a) && a.selected && 0 < |fw| <= OTA0_SIZE && cut <= StoreLen(fw)
    ensures SelectedIndex(Step(mem, Transfer(fw, cut)), DEMO) == 0
  {
    hide Inv, EntryAt, Committed, Step;
    TransferRefines(mem, a, fw, cut);
    SelectedIffCommitted(Step(mem, Transfer(fw, cut)));
  }

  /** One operation into such a transfer, slot 0 is still selected over an erased first sector. */
  lemma ErasedImageStaysSelected(mem: seq<byte>, a: Abstract, fw: seq<byte>)
    requires Represents(mem, a) && a.selected && 0 < |fw| <= OTA0_SIZE
    ensures var after := Step(mem, Transfer(fw, 1));
            && SelectedIndex(after, DEMO) == 0
            && forall i | OTA0_OFFSET <= i < OTA0_OFFSET + SECTOR_SIZE :: after[i] == 0xFF
  {
    hide Inv, EntryAt, Committed, ApplyAll, EraseOps, RecordOps, ImageOps;
    var after, erases := Step(mem, Transfer(fw, 1)), EraseOps(OTA0_OFFSET, |fw|);
    assert Add32(|fw|, SECTOR_SIZE - 1) == |fw| + (SECTOR_SIZE - 1);
    TransferKeepsSelection(mem, a, fw, 1);
    FitsLayout(mem, a);
    assert OtaOps(fw)[..1] == erases[..1];
    forall i | OTA0_OFFSET <= i < OTA0_OFFSET + SECTOR_SIZE
      ensures after[i] == 0xFF
    {
      ErasePrefix(mem, OTA0_OFFSET, |fw|, 1, i);
    }
  }

  lemma BlankIsNotLoadable(mem: seq<byte>, part: PartitionPos, env: Env, avail: bool)
    requires part.offset < |mem| && mem[part.offset] == 0xFF
    ensures !Loadable(mem, part, env, avail)
  {
    hide AntiRollbackOk, ParseSegments, PrintSegments, Acceptable, ChipValid;
  }

  /** While it erases, the selected slot cannot load, and a good factory image is what the next boot
      starts. */
  lemma ErasePhaseFallsBack(mem: seq<byte>, a: Abstract, fw: seq<byte>, cut: nat, env: Env, avail: bool)
    requires Represents(mem, a) && a.selected && 0 < |fw| <= OTA0_SIZE
    requires 1 <= cut <= |EraseOps(OTA0_OFFSET, |fw|)|
    requires SelfContained(mem, FACTORY, env, avail)
    ensures var after := Step(mem, Transfer(fw, cut));
            && SelectedIndex(after, DEMO) == 0
            && !Loadable(after, OTA_0, env, avail)
            && FirstLoadable(AtSweep(after, DEMO), DEMO, env, avail, SweepOrder(SelectedIndex(after, DEMO), DEMO.appCount)) == Some(FACTORY_INDEX)
  {
    hide *;
    ErasesAreFirst(fw);
    var e := Transfer(fw, cut);
    assert Possible(e) by { TransferIsPossible(fw, cut); }
    var after := Step(mem, e);
    TransferKeepsSelection(mem, a, fw, cut);
    FitsLayout(mem, a);
    FirstCellErased(mem, fw, cut);
    StepKeepsBelow(mem, a, e);
    FactoryIsKept(mem, after, env, avail);
    SweepOverErased(after, env, avail);
  }

  lemma ErasesAreFirst(fw: seq<byte>)
    requires |fw| <= OTA0_SIZE
    ensures |EraseOps(OTA0_OFFSET, |fw|)| <= StoreLen(fw)
  {}

  lemma TransferIsPossible(fw: seq<byte>, cut: nat)
    requires 0 < |fw| <= OTA0_SIZE
    ensures Possible(Transfer(fw, cut))
  {}

  lemma FactoryIsKept(mem: seq<byte>, after: seq<byte>, env: Env, avail: bool)
    requires |after| == |mem| && SelfContained(mem, FACTORY, env, avail)
    requires forall i | 0 <= i < OTA0_OFFSET && i < |mem| :: after[i] == mem[i]
    ensures SelfContained(after, FACTORY, env, avail)
  {
    hide SelfContained;
    SelfContainedKept(mem, after, FACTORY, env, avail);
  }

  lemma DemoFactory()
    ensures LastWithRole(DEMO_ENTRIES, Factory, FACTORY)
  {
    hide LastWithRole, TableOk;
    DemoTableIsGood();
  }

  /** The next boot over a blank ota_0 whose record still stands. */
  lemma SweepOverErased(mem: seq<byte>, env: Env, avail: bool)
    requires |mem| > OTA0_OFFSET && mem[OTA0_OFFSET] == 0xFF
    requires SelfContained(mem, FACTORY, env, avail)
    ensures !Loadable(mem, OTA_0, env, avail)
    ensures FirstLoadable(AtSweep(mem, DEMO), DEMO, env, avail, SweepOrder(0, DEMO.appCount)) == Some(FACTORY_INDEX)
  {
    hide SelfContained, Loadable, AfterAttempts, AtSweep, FirstLoadable, SweepOrder, GoodTable;
    BlankIsNotLoadable(mem, OTA_0, env, avail);
    DemoTableIsGood();
    DemoFactory();
    NoAttempts(mem, DEMO);
    var more := AndSelection(mem, DEMO, []);
    BootsLeavePartition(mem, DEMO, more, OTA_0);
    BlankIsNotLoadable(AtSweep(mem, DEMO), OTA_0, env, avail);
    LoadableAtSweep(mem, DEMO, DEMO_ENTRIES, env, avail, [], FACTORY, Factory);
    SecondChoice(AtSweep(mem, DEMO), env, avail);
  }

  lemma FirstCellErased(mem: seq<byte>, fw: seq<byte>, cut: nat)
    requires LayoutFits(mem) && 0 < |fw| <= OTA0_SIZE && 1 <= cut <= |EraseOps(OTA0_OFFSET, |fw|)|
    ensures OTA0_OFFSET < |Step(mem, Transfer(fw, cut))| && Step(mem, Transfer(fw, cut))[OTA0_OFFSET] == 0xFF
  {
    hide ApplyAll, EraseOps, RecordOps, ImageOps;
    var erases := EraseOps(OTA0_OFFSET, |fw|);
    assert OtaOps(fw)[..cut] == erases[..cut];
    ErasePrefix(mem, OTA0_OFFSET, |fw|, cut, OTA0_OFFSET);
  }

  /** From slot 0 the sweep tries the slot, then factory. */
  lemma SecondChoice(mem: seq<byte>, env: Env, avail: bool)
    requires !Loadable(mem, OTA_0, env, avail) && Loadable(mem, FACTORY, env, avail)
    ensures FirstLoadable(mem, DEMO, env, avail, SweepOrder(0, DEMO.appCount)) == Some(FACTORY_INDEX)
  {
    hide Loadable, FirstLoadable;
    var order := SweepOrder(0, DEMO.appCount);
    assert order == [0, FACTORY_INDEX] && order[..2] == order && order[..0] == [];
    NothingTried(mem, DEMO, env, avail);
    FirstLoadableStep(mem, DEMO, env, avail, order, 0);
    FirstLoadableStep(mem, DEMO, env, avail, order, 1);
  }

  /** While it programs, ota_0 already holds the new firmware exactly when all bytes still to come are
      the erased value. */
  lemma ProgramPhaseIsWholeIff(mem: seq<byte>, a: Abstract, fw: seq<byte>, n: nat)
    requires Represents(mem, a) && 0 < |fw| <= OTA0_SIZE && n <= |ImageOps(fw)|
    ensures LiesIn(Step(mem, Transfer(fw, |EraseOps(OTA0_OFFSET, |fw|)| + n)), fw)
            <==> forall i | 4 * n <= i < |fw| :: fw[i] == 0xFF
  {
    hide Represents, EraseOps, ImageOps, RecordOps, ApplyAll, LiesIn;
    FitsLayout(mem, a);
    PartlyStoredIff(mem, fw, n);
    var k := |EraseOps(OTA0_OFFSET, |fw|)| + n;
    assert OtaOps(fw)[..k] == StoreOps(fw)[..k];
  }

  lemma FitsLayout(mem: seq<byte>, a: Abstract)
    requires Represents(mem, a)
    ensures LayoutFits(mem)
  {}
}
