/** The whole boot flow, and what it guarantees over any number of interrupted boots. */
module Boot {
  import opened Words
  import opened Wrappers
  import opened FlashOps
  import opened FlashDriver
  import opened BootTypes
  import opened OtaData
  import opened BootRecords
  import opened PartitionTable
  import opened ImageFormat
  import opened ImageLoad
  import opened MemoryMap
  import opened BootSweep
  import FactoryReset
  import OtaSelect
  import S = Sha256Streaming

  // -------------------------------------------------------------------------
  // The table and the state it stands for
  // -------------------------------------------------------------------------

  lemma LastIsUnique(es: seq<PartitionInfo>, role: Role, p: PartitionPos, q: PartitionPos)
    requires LastWithRole(es, role, p) && LastWithRole(es, role, q)
    ensures p == q
  {
    hide RoleOf;
    if exists i: nat :: IsLastWithRole(es, role, i) {
      var i: nat :| IsLastWithRole(es, role, i);
      assert RoleOf(es[i]) == role;
      var j :| 0 <= j < |es| && es[j].pos == p && IsLastWithRole(es, role, j);
      var k :| 0 <= k < |es| && es[k].pos == q && IsLastWithRole(es, role, k);
      assert j == k;
    }
  }

  lemma CountIsUnique(es: seq<PartitionInfo>, a: BootTable, b: BootTable)
    requires StateOfTable(a, es) && StateOfTable(b, es)
    ensures a.appCount <= b.appCount
  {
    hide RoleOf, LastWithRole;
    if a.appCount > 0 {
      var i :| 0 <= i < |es| && RoleOf(es[i]) == Ota(a.appCount - 1);
      assert RoleOf(es[i]).Ota?;
    }
  }

  /** A table stands for one boot state only. */
  lemma StateIsUnique(es: seq<PartitionInfo>, a: BootTable, b: BootTable)
    requires StateOfTable(a, es) && StateOfTable(b, es)
    ensures a == b
  {
    hide RoleOf, LastWithRole;
    CountIsUnique(es, a, b);
    CountIsUnique(es, b, a);
    LastIsUnique(es, Factory, a.factory, b.factory);
    LastIsUnique(es, Test, a.test, b.test);
    LastIsUnique(es, OtaInfo, a.otaInfo, b.otaInfo);
    forall s: nat | s < MAX_OTA_SLOTS
      ensures a.ota[s] == b.ota[s]
    {
      LastIsUnique(es, Ota(s), a.ota[s], b.ota[s]);
    }
    assert a.ota == b.ota;
  }

  /** Selection never returns a slot at or above the slot count, so the sweep from it is exhaustive. */
  lemma SelectedIsBelowCount(bs: BootTable, es: seq<PartitionInfo>, mem: seq<byte>)
    requires StateOfTable(bs, es) && TableOk(es)
    ensures SelectedIndex(mem, bs) < bs.appCount || SelectedIndex(mem, bs) == FACTORY_INDEX
  {
    hide StateOfTable, TableOk, ChosenIn, SlotOf;
    assert bs.Valid() by { StateIsValid(bs, es); }
    SlotsAboveCountAreEmpty(bs, es);
    assert SelectedIndex(mem, bs) >= 0 ==> bs.ota[SelectedIndex(mem, bs)].size > 0;
  }

  lemma StateIsValid(bs: BootTable, es: seq<PartitionInfo>)
    requires StateOfTable(bs, es)
    ensures bs.Valid()
  {}

  // -------------------------------------------------------------------------
  // What boots leave alone
  // -------------------------------------------------------------------------

  /** A state from a verified table, with the OTA-info partition (if any) on a sector boundary. */
  ghost predicate GoodTable(bs: BootTable, es: seq<PartitionInfo>) {
    StateOfTable(bs, es) && TableOk(es) && bs.otaInfo.offset % SECTOR_SIZE == 0
  }

  lemma {:induction false} NoInfoNoWrites(mem: seq<byte>, bs: BootTable, attempts: seq<Attempt>)
    requires bs.otaInfo.size < 2 * SECTOR_SIZE
    requires forall a | a in attempts :: a.booted < MAX_OTA_SLOTS
    ensures AfterAttempts(mem, bs, attempts) == mem
    decreases |attempts|
  {
    hide BootWrites;
    if attempts != [] {
      var last, rest := attempts[|attempts| - 1], attempts[..|attempts| - 1];
      NoInfoNoWrites(mem, bs, rest);
      NoWritesWhenUnreadable(mem, bs, last.booted);
      assert BootOps(mem, bs, last.booted) == [];
    }
  }

  /** Bytes outside the OTA-info partition survive any number of boots. */
  lemma BootsLeavePartition(mem: seq<byte>, bs: BootTable, attempts: seq<Attempt>, q: PartitionPos)
    requires bs.otaInfo.offset % SECTOR_SIZE == 0
    requires bs.otaInfo.size > 0 ==> Disjoint(q, bs.otaInfo)
    requires forall a | a in attempts :: a.booted < MAX_OTA_SLOTS
    ensures |AfterAttempts(mem, bs, attempts)| == |mem|
    ensures forall i | q.offset <= i < q.offset + q.size && i < |mem| :: AfterAttempts(mem, bs, attempts)[i] == mem[i]
  {
    hide AfterAttempts;
    if bs.otaInfo.size < 2 * SECTOR_SIZE {
      NoInfoNoWrites(mem, bs, attempts);
    } else {
      BootsLeaveOtherFlash(mem, bs, attempts);
    }
  }

  /** The table region lies below every partition, so later boots load the same table and derive the
      same state from it. */
  lemma TableSurvivesBoots(mem: seq<byte>, bs: BootTable, attempts: seq<Attempt>, later: BootTable)
    requires TABLE_OFFSET + TABLE_MAX_LEN <= |mem| && GoodTable(bs, TableIn(mem))
    requires forall a | a in attempts :: a.booted < MAX_OTA_SLOTS
    ensures |AfterAttempts(mem, bs, attempts)| == |mem|
    ensures TableIn(AfterAttempts(mem, bs, attempts)) == TableIn(mem)
    ensures StateOfTable(later, TableIn(AfterAttempts(mem, bs, attempts))) ==> later == bs
  {
    hide AfterAttempts, StateOfTable, TableOk, EntriesOf;
    var es, after := TableIn(mem), AfterAttempts(mem, bs, attempts);
    StatePartitionsInRange(bs, es);
    BootsLeavePartition(mem, bs, attempts, PartitionPos(TABLE_OFFSET, TABLE_MAX_LEN));
    var n := TABLE_OFFSET + MAX_PARTITIONS * ENTRY_LEN;
    assert after[TABLE_OFFSET..n] == mem[TABLE_OFFSET..n];
    if StateOfTable(later, es) {
      StateIsUnique(es, later, bs);
    }
  }

  // -------------------------------------------------------------------------
  // Images that stay bootable
  // -------------------------------------------------------------------------

  /** A loadable image that lies inside its own partition, together with the descriptor the
      anti-rollback gate looks for. */
  predicate SelfContained(mem: seq<byte>, part: PartitionPos, env: Env, avail: bool) {
    && Loadable(mem, part, env, avail)
    && |Print(LoadedImage(mem, part, env, avail).value)| <= part.size
    && APP_DESC_OFFSET + 8 <= part.size
  }

  lemma DescriptorKept(mem: seq<byte>, after: seq<byte>, part: PartitionPos, env: Env)
    requires |after| == |mem| && InRange(part) && APP_DESC_OFFSET + 8 <= part.size
    requires forall i | part.offset <= i < part.offset + part.size && i < |mem| :: after[i] == mem[i]
    ensures AntiRollbackOk(after, part, env) <==> AntiRollbackOk(mem, part, env)
  {
    hide LeU32;
    var a := Add32(part.offset, APP_DESC_OFFSET);
    assert a == part.offset + APP_DESC_OFFSET;
    if a + 8 <= |mem| {
      assert after[a..a + 4] == mem[a..a + 4];
      assert after[a + 4..a + 8] == mem[a + 4..a + 8];
    }
  }

  /** Loading looks at the partition's own bytes only. */
  lemma SelfContainedKept(mem: seq<byte>, after: seq<byte>, part: PartitionPos, env: Env, avail: bool)
    requires SelfContained(mem, part, env, avail) && InRange(part) && |after| == |mem|
    requires forall i | part.offset <= i < part.offset + part.size && i < |mem| :: after[i] == mem[i]
    ensures SelfContained(after, part, env, avail)
    ensures LoadedImage(after, part, env, avail) == LoadedImage(mem, part, env, avail)
  {
    hide AntiRollbackOk, Print, AcceptedImage;
    DescriptorKept(mem, after, part, env);
    var im := LoadedImage(mem, part, env, avail).value;
    AcceptedFits(mem, part.offset, env, avail, im);
    AcceptedDependsOnImageBytes(mem, after, part.offset, env, true, true, avail, im);
  }

  lemma AcceptedFits(mem: seq<byte>, at: nat, env: Env, avail: bool, im: Image)
    requires AcceptedImage(mem, at, env, true, true, avail) == Some(im)
    ensures at + |Print(im)| <= |mem|
  {
    hide AcceptedImage, Print, Shaped, Acceptable;
    AcceptedIffPrinted(mem, at, env, true, true, avail, im);
  }

  // -------------------------------------------------------------------------
  // Never bricked, never diverted
  // -------------------------------------------------------------------------

  /** The flash as the sweep of the next boot finds it. */
  function AtSweep(mem: seq<byte>, bs: BootTable): seq<byte> {
    ApplyAll(mem, AllOps(bs.otaInfo, SelectWrites(mem, bs)))
  }

  lemma SelectionOps(mem: seq<byte>, bs: BootTable)
    ensures BootOps(mem, bs, FACTORY_INDEX) == AllOps(bs.otaInfo, SelectWrites(mem, bs))
  {
    hide SelectWrites, AllOps;
    var ws := SelectWrites(mem, bs);
    assert ws + [] == ws;
  }

  lemma OneMoreAttempt(mem: seq<byte>, bs: BootTable, attempts: seq<Attempt>, last: Attempt)
    requires forall a | a in attempts :: a.booted < MAX_OTA_SLOTS
    requires last.booted < MAX_OTA_SLOTS
    ensures var before := AfterAttempts(mem, bs, attempts);
            AfterAttempts(mem, bs, attempts + [last]) == ApplyAll(before, Cut(BootOps(before, bs, last.booted), last.cut))
  {
    hide BootOps;
    assert (attempts + [last])[..|attempts|] == attempts;
  }

  /** The selection of the next boot, seen as one more attempt that is cut right after it. */
  function AndSelection(mem: seq<byte>, bs: BootTable, attempts: seq<Attempt>): (more: seq<Attempt>)
    requires forall a | a in attempts :: a.booted < MAX_OTA_SLOTS
    ensures forall a | a in more :: a.booted < MAX_OTA_SLOTS
    ensures AfterAttempts(mem, bs, more) == AtSweep(AfterAttempts(mem, bs, attempts), bs)
  {
    hide BootOps, SelectWrites, AfterAttempts, AllOps, ApplyAll;
    var after := AfterAttempts(mem, bs, attempts);
    var last := Attempt(FACTORY_INDEX, |BootOps(after, bs, FACTORY_INDEX)|);
    SelectionOps(after, bs);
    OneMoreAttempt(mem, bs, attempts, last);
    assert Cut(BootOps(after, bs, FACTORY_INDEX), last.cut) == BootOps(after, bs, FACTORY_INDEX);
    attempts + [last]
  }

  lemma LoadableAtSweep(mem: seq<byte>, bs: BootTable, es: seq<PartitionInfo>, env: Env, avail: bool,
                        attempts: seq<Attempt>, part: PartitionPos, role: Role)
    requires GoodTable(bs, es)
    requires forall a | a in attempts :: a.booted < MAX_OTA_SLOTS
    requires LastWithRole(es, role, part) && role != OtaInfo && SelfContained(mem, part, env, avail)
    ensures Loadable(AtSweep(AfterAttempts(mem, bs, attempts), bs), part, env, avail)
  {
    hide RoleOf, LabelOk, Loadable, AtSweep, AfterAttempts, Print;
    var more := AndSelection(mem, bs, attempts);
    assert InRange(part);
    if bs.otaInfo.size > 0 {
      RolesAreDisjoint(es, role, part, OtaInfo, bs.otaInfo);
    }
    BootsLeavePartition(mem, bs, more, part);
    SelfContainedKept(mem, AfterAttempts(mem, bs, more), part, env, avail);
  }

  /** A good factory image keeps the device bootable: after any number of boots, each cut short at
      any flash operation, every later boot finds an image to start, from any start index. */
  lemma NeverBricked(mem: seq<byte>, bs: BootTable, es: seq<PartitionInfo>, env: Env, avail: bool,
                     attempts: seq<Attempt>, start: int)
    requires GoodTable(bs, es) && SelfContained(mem, bs.factory, env, avail)
    requires forall a | a in attempts :: a.booted < MAX_OTA_SLOTS
    requires start >= TEST_APP_INDEX && (start < bs.appCount || start < 0)
    ensures bs.Valid()
    ensures FirstLoadable(AtSweep(AfterAttempts(mem, bs, attempts), bs), bs, env, avail, SweepOrder(start, bs.appCount)).Some?
  {
    hide TableOk, LastWithRole, SelfContained, AfterAttempts, AtSweep, SweepOrder, FirstLoadable, Loadable;
    var after, order := AtSweep(AfterAttempts(mem, bs, attempts), bs), SweepOrder(start, bs.appCount);
    LoadableAtSweep(mem, bs, es, env, avail, attempts, bs.factory, Factory);
    SweepIsExhaustive(start, bs.appCount, FACTORY_INDEX);
    FirstLoadableIsFirst(after, bs, env, avail, order);
    var k :| 0 <= k < |order| && order[k] == FACTORY_INDEX;
    assert Loadable(after, PartitionAt(bs, order[k]), env, avail);
  }

  lemma StartIsFirst(start: int, appCount: nat)
    requires start >= FACTORY_INDEX
    ensures |SweepOrder(start, appCount)| > 0 && SweepOrder(start, appCount)[0] == start
  {}

  lemma FirstIfLoadable(mem: seq<byte>, bs: BootTable, env: Env, avail: bool, order: seq<int>)
    requires bs.Valid() && |order| > 0 && Loadable(mem, PartitionAt(bs, order[0]), env, avail)
    ensures FirstLoadable(mem, bs, env, avail, order) == Some(order[0])
  {
    hide Loadable, PartitionAt;
    assert order[..1][..0] == [];
    assert FirstLoadable(mem, bs, env, avail, []) == None;
    FirstLoadableStep(mem, bs, env, avail, order, 0);
    FirstLoadablePrefix(mem, bs, env, avail, order, 1);
  }

  /** A good image in the selected partition is the one every boot starts, however many boots were
      cut short before: interruptions cannot divert the device to another image. */
  lemma NeverDiverted(mem: seq<byte>, bs: BootTable, es: seq<PartitionInfo>, env: Env, avail: bool, attempts: seq<Attempt>)
    requires GoodTable(bs, es) && Sound(mem, bs)
    requires forall a | a in attempts :: a.booted < MAX_OTA_SLOTS
    requires SelfContained(mem, PartitionAt(bs, SelectedIndex(mem, bs)), env, avail)
    ensures var after := AfterAttempts(mem, bs, attempts);
            FirstLoadable(AtSweep(after, bs), bs, env, avail, SweepOrder(SelectedIndex(after, bs), bs.appCount))
            == Some(SelectedIndex(mem, bs))
  {
    hide TableOk, LastWithRole, SelfContained, AfterAttempts, AtSweep, SweepOrder, FirstLoadable, Loadable, SelectedIndex, PendingSafe, ChosenIn, SectorBytes;
    var after, i := AfterAttempts(mem, bs, attempts), SelectedIndex(mem, bs);
    SelectionIsCrashStable(mem, bs, attempts);
    SelectedSlotIsPresent(mem, bs);
    LoadableAtSweep(mem, bs, es, env, avail, attempts, PartitionAt(bs, i), if i == FACTORY_INDEX then Factory else Ota(i));
    StartIsFirst(i, bs.appCount);
    FirstIfLoadable(AtSweep(after, bs), bs, env, avail, SweepOrder(i, bs.appCount));
  }

  lemma SelectedSlotIsPresent(mem: seq<byte>, bs: BootTable)
    requires bs.Valid()
    ensures var i := SelectedIndex(mem, bs);
            FACTORY_INDEX <= i < MAX_OTA_SLOTS && (i >= 0 ==> bs.ota[i].size > 0)
  {
    hide ChosenIn, SlotOf;
  }

  /** In a verified table, every partition except OTA-info comes through any number of boots
      byte for byte. */
  lemma BootsLeaveOtherPartitions(mem: seq<byte>, bs: BootTable, es: seq<PartitionInfo>, attempts: seq<Attempt>, k: nat)
    requires GoodTable(bs, es) && k < |es| && es[k].pos != bs.otaInfo
    requires forall a | a in attempts :: a.booted < MAX_OTA_SLOTS
    ensures |AfterAttempts(mem, bs, attempts)| == |mem|
    ensures forall i | es[k].pos.offset <= i < es[k].pos.offset + es[k].pos.size && i < |mem| ::
              AfterAttempts(mem, bs, attempts)[i] == mem[i]
  {
    hide RoleOf, LabelOk, AfterAttempts;
    assert LastWithRole(es, OtaInfo, bs.otaInfo);
    if bs.otaInfo.size > 0 {
      var j :| 0 <= j < |es| && es[j].pos == bs.otaInfo && IsLastWithRole(es, OtaInfo, j);
      assert j != k;
    }
    BootsLeavePartition(mem, bs, attempts, es[k].pos);
  }

  // -------------------------------------------------------------------------
  // What a good image sees
  // -------------------------------------------------------------------------

  /** The application reads every byte of `data` in its place. */
  predicate SeesAll(m: PageMap, flash: seq<byte>, va: nat, fa: nat, data: seq<byte>) {
    forall j | 0 <= j < |data| :: SeesByte(m, flash, va, fa, data, j)
  }

  /** The window shows the image's first segment for it, whole, exactly when load and flash address are
      congruent modulo the page size; without such a segment it shows nothing. */
  ghost predicate WindowIntact(m: PageMap, flash: seq<byte>, at: nat, im: Image, low: u32, high: u32)
    requires SmallSegments(im.segments)
  {
    || (m == map[] && forall k | 0 <= k < |im.segments| :: !SegmentIn(im.segments[k], low, high))
    || exists k: nat :: SegmentIntact(m, flash, at, im, low, high, k)
  }

  ghost predicate SegmentIntact(m: PageMap, flash: seq<byte>, at: nat, im: Image, low: u32, high: u32, k: nat)
    requires SmallSegments(im.segments)
  {
    && IsFirstIn(im.segments, k, low, high)
    && (SeesAll(m, flash, im.segments[k].loadAddr, DataAddr(at, im.segments, k), im.segments[k].data)
        <==> im.segments[k].loadAddr % PAGE_SIZE == DataAddr(at, im.segments, k) % PAGE_SIZE)
  }

  /** Noting an attempt leaves everything outside an aligned OTA-info partition alone. */
  lemma KeptOutsideInfo(mem: seq<byte>, bs: BootTable, o: Outcome, noted: bool, i: nat)
    requires i < |mem| && bs.otaInfo.offset % SECTOR_SIZE == 0
    requires bs.otaInfo.size > 0 ==> !(bs.otaInfo.offset <= i < bs.otaInfo.offset + bs.otaInfo.size)
    ensures KeptAtJump(mem, bs, o, noted, i)
  {
    hide ActiveOtadata, PendingEntry, EntryAt, EntryBytes, And;
    forall w | w in LaunchWrites(mem, bs, o)
      ensures CellAfterWrite(mem[i], bs.otaInfo.offset + w.sector * SECTOR_SIZE, w.entry, i) == mem[i]
    {
      var a := bs.otaInfo.offset + w.sector * SECTOR_SIZE;
      assert w.sector < 2 && bs.otaInfo.size >= 2 * SECTOR_SIZE;
      assert a / SECTOR_SIZE * SECTOR_SIZE == a;
    }
  }

  lemma IntactWhenKept(m: PageMap, mem: seq<byte>, bs: BootTable, o: Outcome, noted: bool, part: PartitionPos, im: Image,
                       low: u32, high: u32)
    requires SmallSegments(im.segments) && |im.header| == HEADER_SIZE && |Print(im)| <= part.size
    requires WindowShown(m, mem, bs, o, noted, part.offset, im, low, high)
    requires forall i | part.offset <= i < part.offset + part.size && i < |mem| :: KeptAtJump(mem, bs, o, noted, i)
    ensures WindowIntact(m, AtJump(mem, bs, o, noted), part.offset, im, low, high)
  {
    hide KeptAtJump, AtJump, SeesByte, PrintSegments, IsFirstIn, SegmentIn;
    if !(m == map[] && forall k | 0 <= k < |im.segments| :: !SegmentIn(im.segments[k], low, high)) {
      var k: nat :| SegmentShown(m, mem, bs, o, noted, part.offset, im, low, high, k);
      FirstIsNonEmpty(im.segments, k, low, high);
      PrintedSegmentFits(im.segments, k);
      var fa, va, data := DataAddr(part.offset, im.segments, k), im.segments[k].loadAddr, im.segments[k].data;
      assert fa + |data| <= part.offset + |Print(im)|;
      forall j | 0 <= j < |data|
        ensures SeesByte(m, AtJump(mem, bs, o, noted), va, fa, data, j) <==> va % PAGE_SIZE == fa % PAGE_SIZE
      {
        assert ByteShown(m, mem, bs, o, noted, fa, va, data, j);
      }
      assert SeesByte(m, AtJump(mem, bs, o, noted), va, fa, data, 0) <==> va % PAGE_SIZE == fa % PAGE_SIZE;
      assert SegmentIntact(m, AtJump(mem, bs, o, noted), part.offset, im, low, high, k);
    }
  }

  lemma FirstIsNonEmpty(ss: seq<Segment>, k: nat, low: u32, high: u32)
    requires IsFirstIn(ss, k, low, high)
    ensures k < |ss| && ss[k].data != []
  {}

  /** A good image of a verified table, whatever record its start writes, sees all its own verified
      bytes, exactly under congruence. */
  lemma GoodImageIsSeen(mem: seq<byte>, after: seq<byte>, bs: BootTable, es: seq<PartitionInfo>, env: Env, avail: bool,
                        o: Outcome, noted: bool, mmu: Mmu, role: Role)
    requires GoodTable(bs, es) && bs.Valid() && o.Jump? && AppView(mem, after, bs, env, avail, o, noted, mmu)
    requires LastWithRole(es, role, PartitionAt(bs, o.index)) && role != OtaInfo
    requires SelfContained(mem, PartitionAt(bs, o.index), env, avail)
    ensures var part := PartitionAt(bs, o.index);
            var im := LoadedImage(mem, part, env, avail).value;
            && WindowIntact(mmu.dbus, after, part.offset, im, DROM_LOW, DROM_HIGH)
            && WindowIntact(mmu.ibus, after, part.offset, im, IROM_LOW, IROM_HIGH)
  {
    hide RoleOf, LabelOk, AntiRollbackOk, LoadedImage, Print, KeptAtJump, AtJump, WindowShown, WindowIntact;
    var part := PartitionAt(bs, o.index);
    var im := LoadedImage(mem, part, env, avail).value;
    LoadedHeader(mem, part, env, avail);
    if bs.otaInfo.size > 0 {
      RolesAreDisjoint(es, role, part, OtaInfo, bs.otaInfo);
    }
    forall i | part.offset <= i < part.offset + part.size && i < |mem|
      ensures KeptAtJump(mem, bs, o, noted, i)
    {
      KeptOutsideInfo(mem, bs, o, noted, i);
    }
    IntactWhenKept(mmu.dbus, mem, bs, o, noted, part, im, DROM_LOW, DROM_HIGH);
    IntactWhenKept(mmu.ibus, mem, bs, o, noted, part, im, IROM_LOW, IROM_HIGH);
  }

  lemma LoadedHeader(mem: seq<byte>, part: PartitionPos, env: Env, avail: bool)
    requires LoadedImage(mem, part, env, avail).Some?
    ensures |LoadedImage(mem, part, env, avail).value.header| == HEADER_SIZE
  {
    AcceptedCount(mem, part, env, avail);
  }

  // -------------------------------------------------------------------------
  // The boot flow
  // -------------------------------------------------------------------------

  /** What the GPIO long-hold checks report; a deep-sleep wake reports nothing. */
  datatype Hold = NoHold | FactoryResetHold | TestAppHold

  /** Which of a selection's reads succeed: the records, the table for erasing, the records again. */
  datatype Reads = Reads(select: bool, wipe: bool, reselect: bool)

  const ALL_READ: Reads := Reads(true, true, true)

  function SelectOps(mem: seq<byte>, bs: BootTable, read: bool): seq<FlashOp> {
    if read then AllOps(bs.otaInfo, SelectWrites(mem, bs)) else []
  }

  function IndexRead(mem: seq<byte>, bs: BootTable, read: bool): (i: int)
    requires bs.Valid()
    ensures FACTORY_INDEX <= i < MAX_OTA_SLOTS
  {
    if read then SelectedIndex(mem, bs) else FACTORY_INDEX
  }

  /** What a factory-reset hold erases, from the flash selection left. */
  function ResetOps(mid: seq<byte>, r: Reads): seq<FlashOp> {
    if r.wipe then FactoryReset.WipeFor(mid, FactoryReset.RESET_LABELS) else []
  }

  /** The flash the second selection of a factory-reset hold starts from. */
  function AfterReset(mem: seq<byte>, bs: BootTable, r: Reads): seq<byte> {
    var mid := ApplyAll(mem, SelectOps(mem, bs, r.select));
    ApplyAll(mid, ResetOps(mid, r))
  }

  /** Every operation before the sweep. */
  function HoldOps(mem: seq<byte>, bs: BootTable, hold: Hold, r: Reads): seq<FlashOp> {
    var first := SelectOps(mem, bs, r.select);
    if hold == FactoryResetHold then first + (ResetOps(ApplyAll(mem, first), r) + SelectOps(AfterReset(mem, bs, r), bs, r.reselect))
    else first
  }

  /** The index the sweep starts from. */
  function HoldIndex(mem: seq<byte>, bs: BootTable, hold: Hold, r: Reads): (i: int)
    requires bs.Valid()
    ensures TEST_APP_INDEX <= i < MAX_OTA_SLOTS
  {
    if hold == FactoryResetHold then IndexRead(AfterReset(mem, bs, r), bs, r.reselect)
    else if hold == TestAppHold && bs.test.offset != 0 then TEST_APP_INDEX
    else IndexRead(mem, bs, r.select)
  }

  /** The flash the sweep works on. */
  function Swept(mem: seq<byte>, bs: BootTable, hold: Hold, r: Reads): seq<byte> {
    ApplyAll(mem, HoldOps(mem, bs, hold, r))
  }

  lemma PerformedMemory(mem: seq<byte>, log: seq<FlashOp>, after: seq<byte>, afterLog: seq<FlashOp>, ops: seq<FlashOp>)
    requires Performed(mem, log, after, afterLog, ops)
    ensures after == ApplyAll(mem, ops) && |after| == |mem|
  {}

  /** The factory-reset branch. */
  method ResetAndReselect(flash: Flash, bs: BootTable, ghost select: bool) returns (index: int, ghost r: Reads)
    requires flash.Valid() && bs.Valid() && !flash.encrypted && !flash.mapped
    modifies flash, flash.buf
    ensures flash.Valid() && !flash.mapped && |flash.mem| == |old(flash.mem)|
    ensures r.select == select && (flash.Reliable() ==> r.wipe && r.reselect)
    ensures var wiped := ApplyAll(old(flash.mem), ResetOps(old(flash.mem), r));
            && index == IndexRead(wiped, bs, r.reselect)
            && Performed(old(flash.mem), old(flash.log), flash.mem, flash.log,
                         ResetOps(old(flash.mem), r) + SelectOps(wiped, bs, r.reselect))
  {
    hide Flash.Valid, Performed, SelectedIndex, SelectWrites, FactoryReset.WipeFor, FactoryReset.AnyMatches;
    ghost var mid, midLog, again := flash.mem, flash.log, false;
    var _, wipe := FactoryReset.ErasePartTypeData(flash, FactoryReset.RESET_LABELS, true);
    r := Reads(select, wipe, true);
    ghost var wiped, wipedLog := flash.mem, flash.log;
    PerformedMemory(mid, midLog, wiped, wipedLog, ResetOps(mid, r));
    index, again := OtaSelect.GetSelectedBootPartition(flash, bs);
    r := r.(reselect := again);
    PerformedThen(mid, midLog, wiped, wipedLog, ResetOps(mid, r), flash.mem, flash.log, SelectOps(wiped, bs, again));
    PerformedMemory(wiped, wipedLog, flash.mem, flash.log, SelectOps(wiped, bs, again));
  }

  /** `selected_boot_partition`, for every hold and every read behaviour. */
  method SelectedBootPartition(flash: Flash, bs: BootTable, hold: Hold) returns (index: int, ghost r: Reads)
    requires flash.Valid() && bs.Valid() && !flash.encrypted && !flash.mapped
    modifies flash, flash.buf
    ensures flash.Valid() && !flash.mapped && |flash.mem| == |old(flash.mem)|
    ensures flash.Reliable() ==> r == ALL_READ
    ensures index == HoldIndex(old(flash.mem), bs, hold, r)
    ensures Performed(old(flash.mem), old(flash.log), flash.mem, flash.log, HoldOps(old(flash.mem), bs, hold, r))
  {
    hide Flash.Valid, Performed, SelectedIndex, SelectWrites, AllOps, FactoryReset.WipeFor;
    ghost var mem, log, select := flash.mem, flash.log, false;
    index, select := OtaSelect.GetSelectedBootPartition(flash, bs);
    r := Reads(select, true, true);
    ghost var mid, midLog, first := flash.mem, flash.log, SelectOps(mem, bs, select);
    PerformedMemory(mem, log, mid, midLog, first);
    if hold == FactoryResetHold {
      index, r := ResetAndReselect(flash, bs, select);
      PerformedThen(mem, log, mid, midLog, first, flash.mem, flash.log,
                    ResetOps(mid, r) + SelectOps(AfterReset(mem, bs, r), bs, r.reselect));
    } else if hold == TestAppHold {
      if bs.test.offset != 0 {
        index := TEST_APP_INDEX;
      }
    }
  }

  /** A factory reset reaches the OTA-info partition: it carries the label the list names, and all
      named partitions are whole sectors. */
  ghost predicate ResetReaches(mem: seq<byte>, bs: BootTable) {
    && TABLE_OFFSET + TABLE_MAX_LEN <= |mem|
    && GoodTable(bs, TableIn(mem))
    && FactoryReset.MatchesWhole(TableIn(mem), FactoryReset.RESET_LABELS, |mem|)
    && exists e | e in TableIn(mem) ::
         e.kind == TYPE_DATA && FactoryReset.LabelOf(e.name) == FactoryReset.OTADATA && e.pos == bs.otaInfo
  }

  lemma NoAttempts(mem: seq<byte>, bs: BootTable)
    ensures AfterAttempts(mem, bs, []) == mem
  {}

  lemma SelectionIsAtSweep(mem: seq<byte>, bs: BootTable)
    ensures ApplyAll(mem, SelectOps(mem, bs, true)) == AtSweep(mem, bs)
    ensures |AtSweep(mem, bs)| == |mem|
  {}

  /** A hold that reaches it starts the sweep at the factory partition, on a flash with nothing left to
      roll back. */
  lemma ResetHoldSelectsFactory(mem: seq<byte>, bs: BootTable)
    requires bs.Valid() && |mem| <= MAX_CHIP && ResetReaches(mem, bs)
    ensures HoldIndex(mem, bs, FactoryResetHold, ALL_READ) == FACTORY_INDEX
    ensures HoldOps(mem, bs, FactoryResetHold, ALL_READ)
            == SelectOps(mem, bs, true) + FactoryReset.WipeOps(TableIn(mem), FactoryReset.RESET_LABELS, |mem|)
  {
    hide StateOfTable, TableOk, FactoryReset.MatchesWhole, FactoryReset.LabelOf, FactoryReset.WipeOps, AtSweep, ApplyAll,
         SelectedIndex, SelectWrites, AfterAttempts, EntriesOf, GoodTable;
    var es := TableIn(mem);
    var e :| e in es && e.kind == TYPE_DATA && FactoryReset.LabelOf(e.name) == FactoryReset.OTADATA && e.pos == bs.otaInfo;
    NoAttempts(mem, bs);
    var more := AndSelection(mem, bs, []);
    TableSurvivesBoots(mem, bs, more, bs);
    SelectionIsAtSweep(mem, bs);
    FactoryReset.ResetSelectsFactory(AtSweep(mem, bs), bs, es, e);
    var wipe := FactoryReset.WipeOps(es, FactoryReset.RESET_LABELS, |mem|);
    assert ResetOps(AtSweep(mem, bs), ALL_READ) == wipe;
    assert AfterReset(mem, bs, ALL_READ) == ApplyAll(AtSweep(mem, bs), wipe);
    assert SelectOps(AfterReset(mem, bs, ALL_READ), bs, true) == [];
    assert wipe + [] == wipe;
  }

  /** The slot a boot's attempt record names; -1 when it writes none. */
  function BootedSlot(o: Outcome): (slot: int)
    requires o.Jump? ==> o.index < MAX_OTA_SLOTS
    ensures slot < MAX_OTA_SLOTS
  {
    if o.Jump? && o.index >= 0 then o.index else FACTORY_INDEX
  }

  /** Without a reset hold, a boot with all its reads performs exactly `BootOps`. */
  lemma BootOpsSplit(mem: seq<byte>, bs: BootTable, hold: Hold, o: Outcome)
    requires hold != FactoryResetHold && (o.Jump? ==> o.index < MAX_OTA_SLOTS)
    ensures Swept(mem, bs, hold, ALL_READ) == AtSweep(mem, bs)
    ensures HoldOps(mem, bs, hold, ALL_READ) + LaunchOps(AtSweep(mem, bs), bs, o) == BootOps(mem, bs, BootedSlot(o))
  {
    hide SelectWrites, ApplyAll;
    var mid, ws := AtSweep(mem, bs), SelectWrites(mem, bs);
    AllOpsConcat(bs.otaInfo, ws, MarkWrites(mid, bs, BootedSlot(o)));
  }

  /** Everything a boot promises from a populated state, in terms of the flash `mem` it found: the
      operations before the sweep and of the attempt record, the attempts in sweep order from the
      index the hold leads to, and what a jump rests on and sees.  All of it holds for every hold and
      every read behaviour; when the reads succeed, the outcome is the first loadable partition. */
  ghost predicate Booted(flash: Flash, mem: seq<byte>, log: seq<FlashOp>, bs: BootTable, env: Env, avail: bool, hold: Hold,
                         o: Outcome, md: EspImageMetadata, mmu: Mmu, cells: map<nat, byte>, r: Reads, noted: bool, tried: seq<int>)
    requires bs.Valid()
    reads flash, md, mmu
  {
    var swept, order := Swept(mem, bs, hold, r), SweepOrder(HoldIndex(mem, bs, hold, r), bs.appCount);
    && (o.Jump? ==> TEST_APP_INDEX <= o.index < MAX_OTA_SLOTS)
    && Performed(mem, log, flash.mem, flash.log, HoldOps(mem, bs, hold, r) + if noted then LaunchOps(swept, bs, o) else [])
    && Launched(swept, bs, env, avail, o, md, mmu, cells)
    && AppView(swept, flash.mem, bs, env, avail, o, noted, mmu)
    && tried <= order
    && (if o.Jump? then |tried| > 0 && tried[|tried| - 1] == o.index else tried == order)
    && (flash.Reliable() ==>
          && r == ALL_READ && noted
          && FirstLoadable(swept, bs, env, avail, order) == (if o.Jump? then Some(o.index) else None)
          && (hold != FactoryResetHold ==> Performed(mem, log, flash.mem, flash.log, BootOps(mem, bs, BootedSlot(o)))))
  }

  /** Selection and the sweep, from a populated state. */
  method BootFrom(flash: Flash, pool: S.Sha256Pool, ram: Ram, md: EspImageMetadata, mmu: Mmu, env: Env, bs: BootTable, hold: Hold)
    returns (outcome: Outcome, ghost r: Reads, ghost noted: bool, ghost tried: seq<int>)
    requires Idle(flash, pool, ram, md, env) && bs.Valid()
    modifies flash, flash.buf, pool.Repr(), ram, md, mmu
    ensures Idle(flash, pool, ram, md, env) && pool.FreeSlots() == old(pool.FreeSlots())
    ensures Booted(flash, old(flash.mem), old(flash.log), bs, env, old(pool.FreeSlots()) > 0, hold, outcome, md, mmu, ram.cells,
                   r, noted, tried)
  {
    hide Flash.Valid, S.Sha256Context.Valid, S.Sha256Pool.Valid, S.Sha256Pool.FreeSlots, Performed, Safe, Launched, AppView, FirstLoadable,
         SweepOrder, BootOps, LaunchOps, AtSweep, HoldOps, HoldIndex, ApplyAll;
    ghost var mem, log := flash.mem, flash.log;
    var index;
    index, r := SelectedBootPartition(flash, bs, hold);
    ghost var swept, sweptLog := flash.mem, flash.log;
    PerformedMemory(mem, log, swept, sweptLog, HoldOps(mem, bs, hold, r));
    outcome, noted, tried := LoadBootImage(flash, pool, ram, md, mmu, env, bs, index);
    ghost var last := if noted then LaunchOps(swept, bs, outcome) else [];
    PerformedThen(mem, log, swept, sweptLog, HoldOps(mem, bs, hold, r), flash.mem, flash.log, last);
    if hold != FactoryResetHold {
      BootOpsSplit(mem, bs, hold, outcome);
    }
  }

  /** The flow of `call_start_cpu0` after the shell: a table that cannot be read or does not verify
      ends in a reset with the flash untouched; otherwise the boot is the one `Booted` describes. */
  method CallStartCpu0(flash: Flash, pool: S.Sha256Pool, ram: Ram, mmu: Mmu, env: Env, bs: BootloaderState, hold: Hold)
    returns (outcome: Outcome, md: EspImageMetadata, ghost loaded: bool, ghost r: Reads, ghost noted: bool, ghost tried: seq<int>)
    requires Ready(flash, pool) && ram !in pool.Repr() && Safe(ram.cells, env)
    modifies flash, flash.buf, pool.Repr(), ram, mmu, bs
    ensures Idle(flash, pool, ram, md, env) && pool.FreeSlots() == old(pool.FreeSlots())
    ensures var mem := old(flash.mem);
            && (loaded ==> TABLE_OFFSET + TABLE_MAX_LEN <= |mem| && TableOk(TableIn(mem)) && StateOfTable(bs.View(), TableIn(mem)))
            && (flash.Reliable() && TABLE_OFFSET + TABLE_MAX_LEN <= |mem| && TableOk(TableIn(mem)) ==> loaded)
    ensures if loaded then
              && bs.View().Valid()
              && Booted(flash, old(flash.mem), old(flash.log), bs.View(), env, old(pool.FreeSlots()) > 0, hold, outcome, md, mmu,
                        ram.cells, r, noted, tried)
            else
              outcome == Reset && tried == [] && Performed(old(flash.mem), old(flash.log), flash.mem, flash.log, [])
  {
    hide Flash.Valid, S.Sha256Context.Valid, S.Sha256Pool.Valid, S.Sha256Pool.FreeSlots, Performed, Safe, Booted, TableOk, StateOfTable, TableIn;
    md := new EspImageMetadata();
    PerformedNothing(flash.mem, flash.log);
    var ok := LoadPartitionTable(flash, bs);
    loaded := ok;
    if !ok {
      return Reset, md, false, ALL_READ, false, [];
    }
    StateIsValid(bs.View(), TableIn(flash.mem));
    outcome, r, noted, tried := BootFrom(flash, pool, ram, md, mmu, env, bs.View(), hold);
  }

  // -------------------------------------------------------------------------
  // Consequences of one boot
  // -------------------------------------------------------------------------

  /** Index -2 is the test partition, -1 factory, 0 to 15 the slots. */
  lemma PartitionsByIndex(bs: BootTable, s: nat)
    requires bs.Valid() && s < 16
    ensures PartitionAt(bs, -2) == bs.test && PartitionAt(bs, -1) == bs.factory
    ensures bs.ota[s].size > 0 ==> PartitionAt(bs, s) == bs.ota[s]
  {}

  /** A test-app hold with a loadable test partition starts it, and nothing but the rollback pass is
      written; without one (offset 0) the hold changes nothing. */
  lemma TestHoldStartsTest(flash: Flash, mem: seq<byte>, log: seq<FlashOp>, bs: BootTable, env: Env, avail: bool,
                           o: Outcome, md: EspImageMetadata, mmu: Mmu, cells: map<nat, byte>, r: Reads, noted: bool, tried: seq<int>)
    requires bs.Valid() && flash.Reliable()
    requires Booted(flash, mem, log, bs, env, avail, TestAppHold, o, md, mmu, cells, r, noted, tried)
    ensures bs.test.offset != 0 && Loadable(AtSweep(mem, bs), bs.test, env, avail) ==>
              && o.Jump? && o.index == -2 && tried == [-2]
              && Performed(mem, log, flash.mem, flash.log, SelectOps(mem, bs, true))
    ensures bs.test.offset == 0 ==> HoldIndex(mem, bs, TestAppHold, r) == SelectedIndex(mem, bs)
  {
    hide Loadable, Launched, AppView, FirstLoadable, Performed, BootOps, SweepOrder, AtSweep, LaunchOps, SelectWrites, SelectedIndex, HoldOps;
    BootOpsSplit(mem, bs, TestAppHold, o);
    if bs.test.offset != 0 && Loadable(AtSweep(mem, bs), bs.test, env, avail) {
      var order := SweepOrder(TEST_APP_INDEX, bs.appCount);
      TestIsFirst(bs.appCount);
      PartitionsByIndex(bs, 0);
      FirstIfLoadable(AtSweep(mem, bs), bs, env, avail, order);
      FirstOnly(order, tried, bs.appCount);
      AttemptOps(Swept(mem, bs, TestAppHold, r), bs, TEST_APP_INDEX, o.entry);
      HoldIsSelection(mem, bs);
    }
  }

  lemma TestIsFirst(appCount: nat)
    ensures |SweepOrder(TEST_APP_INDEX, appCount)| > 0 && SweepOrder(TEST_APP_INDEX, appCount)[0] == TEST_APP_INDEX
  {}

  lemma FirstOnly(order: seq<int>, tried: seq<int>, appCount: nat)
    requires order == SweepOrder(TEST_APP_INDEX, appCount) && tried <= order
    requires |tried| > 0 && tried[|tried| - 1] == TEST_APP_INDEX
    ensures tried == [TEST_APP_INDEX]
  {
    hide SweepOrder;
    SweepIsExhaustive(TEST_APP_INDEX, appCount, TEST_APP_INDEX);
    TestIsFirst(appCount);
  }

  lemma HoldIsSelection(mem: seq<byte>, bs: BootTable)
    ensures HoldOps(mem, bs, TestAppHold, ALL_READ) + [] == SelectOps(mem, bs, true)
  {
    hide SelectWrites;
  }
}
