/** Trying partitions: the anti-rollback gate, one attempt, and the two sweeps. */
module BootSweep {
  import opened Words
  import opened Wrappers
  import opened FlashOps
  import opened FlashDriver
  import opened BootTypes
  import opened BootRecords
  import opened ImageFormat
  import opened ImageLoad
  import opened MemoryMap
  import OtaData
  import OtaSelect
  import S = Sha256Streaming

  const APP_DESC_MAGIC: nat := 0xABCD_5432
  const APP_DESC_OFFSET: u32 := 32

  // -------------------------------------------------------------------------
  // Anti-rollback
  // -------------------------------------------------------------------------

  /** An unreadable or unrecognised descriptor lets the image through; a recognised one must be at
      least as new as the fuse. */
  predicate AntiRollbackOk(mem: seq<byte>, part: PartitionPos, env: Env) {
    var a := Add32(part.offset, APP_DESC_OFFSET);
    0 < a && a + 8 <= |mem| && LeU32(mem[a..a + 4]) == APP_DESC_MAGIC ==> LeU32(mem[a + 4..a + 8]) >= env.secureVersion
  }

  method CheckAntiRollback(flash: Flash, env: Env, part: PartitionPos) returns (ok: bool)
    requires flash.Valid() && !flash.encrypted && !flash.mapped
    modifies flash`readCount, flash`mapped, flash`mappedSize, flash`readMapping, flash`window, flash.buf
    ensures flash.Valid() && !flash.mapped
    ensures AntiRollbackOk(flash.mem, part, env) ==> ok
    ensures flash.Reliable() ==> (ok <==> AntiRollbackOk(flash.mem, part, env))
  {
    hide LeU32;
    var descAddr := Add32(part.offset, APP_DESC_OFFSET);
    var ptr := flash.Mmap(descAddr, 8);
    if ptr == null {
      return true;
    }
    HeaderFields(ptr[..], flash.mem, descAddr);
    var magic := LeU32(ptr[..][0..4]);
    var appVer := LeU32(ptr[..][4..8]);
    flash.Munmap();
    if magic != APP_DESC_MAGIC {
      return true;
    }
    if appVer < env.secureVersion {
      return false;
    }
    ok := true;
  }

  // -------------------------------------------------------------------------
  // One attempt
  // -------------------------------------------------------------------------

  /** The image a full load of the partition accepts. */
  function LoadedImage(mem: seq<byte>, part: PartitionPos, env: Env, avail: bool): (r: Option<Image>)
    ensures r.Some? ==> SmallSegments(r.value.segments)
  {
    AcceptedImage(mem, part.offset, env, true, true, avail)
  }

  predicate Loadable(mem: seq<byte>, part: PartitionPos, env: Env, avail: bool) {
    part.size > 0 && AntiRollbackOk(mem, part, env) && LoadedImage(mem, part, env, avail).Some?
  }

  /** The loader's objects, idle, with the bootloader's own memory intact. */
  ghost predicate Idle(flash: Flash, pool: S.Sha256Pool, ram: Ram, md: EspImageMetadata, env: Env)
    reads flash, pool.Repr(), ram, md
  {
    && Ready(flash, pool) && ram !in pool.Repr() && md !in pool.Repr()
    && md.Valid() && Safe(ram.cells, env)
  }

  /** RAM as the segments leave it, stored in order over whatever earlier attempts left. */
  ghost predicate RamHolds(cells: map<nat, byte>, ss: seq<Segment>) {
    exists before :: cells == AfterSegments(before, ss)
  }

  method TryLoadPartition(flash: Flash, pool: S.Sha256Pool, ram: Ram, md: EspImageMetadata, env: Env, part: PartitionPos)
    returns (ok: bool)
    requires Idle(flash, pool, ram, md, env)
    modifies flash`readCount, flash`mapped, flash`mappedSize, flash`readMapping, flash`window, flash.buf, pool.Repr(), ram, md
    ensures Idle(flash, pool, ram, md, env) && pool.FreeSlots() == old(pool.FreeSlots())
    ensures ok ==> part.size > 0 && LoadedImage(flash.mem, part, env, old(pool.FreeSlots()) > 0).Some?
    ensures ok ==> Describes(md, part.offset, LoadedImage(flash.mem, part, env, old(pool.FreeSlots()) > 0).value)
    ensures ok ==> RamHolds(ram.cells, LoadedImage(flash.mem, part, env, old(pool.FreeSlots()) > 0).value.segments)
    ensures flash.Reliable() ==> (ok <==> Loadable(flash.mem, part, env, old(pool.FreeSlots()) > 0))
  {
    hide Flash.Valid, S.Sha256Context.Valid, S.Sha256Pool.Valid, S.Sha256Pool.FreeSlots, AntiRollbackOk, AcceptedImage, Describes, Safe, AfterSegments;
    if part.size == 0 {
      return false;
    }
    ok := CheckAntiRollback(flash, env, part);
    if !ok {
      return;
    }
    ok := ProcessImage(flash, pool, ram, md, env, part.offset, true, true);
  }

  // -------------------------------------------------------------------------
  // The order of attempts
  // -------------------------------------------------------------------------

  /** `get_partition`, with an absent partition as an empty one; every attempt on it fails. */
  function PartitionAt(bs: BootTable, index: int): PartitionPos
    requires bs.Valid()
  {
    if index == FACTORY_INDEX then bs.factory
    else if index == TEST_APP_INDEX then bs.test
    else if 0 <= index < MAX_OTA_SLOTS && bs.ota[index].size > 0 then bs.ota[index]
    else NO_PARTITION
  }

  function SweepStart(start: int): int {
    if start == TEST_APP_INDEX then FACTORY_INDEX else start
  }

  /** start, start - 1, .., -1 */
  function Backward(start: int): (r: seq<int>)
    requires start >= FACTORY_INDEX
  {
    seq(start + 2, k => start - k)
  }

  /** start + 1, .., appCount - 1 */
  function Forward(start: int, appCount: nat): (r: seq<int>)
    requires start >= FACTORY_INDEX
  {
    if start + 1 < appCount then seq(appCount - start - 1, k => start + 1 + k) else []
  }

  function SweepOrder(start: int, appCount: nat): seq<int>
    requires start >= TEST_APP_INDEX
  {
    (if start == TEST_APP_INDEX then [TEST_APP_INDEX] else [])
    + Backward(SweepStart(start)) + Forward(SweepStart(start), appCount)
  }

  /** Whatever start selection returns, the factory partition and every slot below the count are
      tried exactly once, the test partition exactly when asked for, and nothing else. */
  lemma SweepIsExhaustive(start: int, appCount: nat, index: int)
    requires TEST_APP_INDEX <= start && (start < appCount || start < 0)
    ensures index in SweepOrder(start, appCount)
            <==> FACTORY_INDEX <= index < appCount || (start == TEST_APP_INDEX && index == TEST_APP_INDEX)
    ensures forall i, j | 0 <= i < j < |SweepOrder(start, appCount)| ::
              SweepOrder(start, appCount)[i] != SweepOrder(start, appCount)[j]
  {
    var order, s := SweepOrder(start, appCount), SweepStart(start);
    var b, f := Backward(s), Forward(s, appCount);
    var h := if start == TEST_APP_INDEX then [TEST_APP_INDEX] else [];
    assert order == h + b + f;
    if FACTORY_INDEX <= index <= s {
      assert b[s - index] == index && order[|h| + (s - index)] == index;
    } else if s < index < appCount {
      assert f[index - s - 1] == index && order[|h| + |b| + (index - s - 1)] == index;
    } else if start == TEST_APP_INDEX && index == TEST_APP_INDEX {
      assert order[0] == index;
    }
  }

  /** The first index in the list whose partition loads. */
  function FirstLoadable(mem: seq<byte>, bs: BootTable, env: Env, avail: bool, order: seq<int>): (r: Option<int>)
    requires bs.Valid()
    decreases |order|
  {
    if order == [] then None
    else
      match FirstLoadable(mem, bs, env, avail, order[..|order| - 1])
      case Some(i) => Some(i)
      case None =>
        if Loadable(mem, PartitionAt(bs, order[|order| - 1]), env, avail) then Some(order[|order| - 1]) else None
  }

  /** Position `k` of the list loads and nothing before it does. */
  ghost predicate LoadsFirst(mem: seq<byte>, bs: BootTable, env: Env, avail: bool, order: seq<int>, k: nat)
    requires bs.Valid()
  {
    && k < |order| && Loadable(mem, PartitionAt(bs, order[k]), env, avail)
    && forall m | 0 <= m < k :: !Loadable(mem, PartitionAt(bs, order[m]), env, avail)
  }

  /** The result is in the list, loads, and nothing before it does; `None` means nothing loads. */
  lemma {:induction false} FirstLoadableIsFirst(mem: seq<byte>, bs: BootTable, env: Env, avail: bool, order: seq<int>)
    requires bs.Valid()
    ensures match FirstLoadable(mem, bs, env, avail, order)
            case Some(i) => exists k: nat :: LoadsFirst(mem, bs, env, avail, order, k) && order[k] == i
            case None => forall k | 0 <= k < |order| :: !Loadable(mem, PartitionAt(bs, order[k]), env, avail)
    decreases |order|
  {
    hide Loadable, PartitionAt;
    if order != [] {
      var n := |order| - 1;
      var rest := order[..n];
      FirstLoadableIsFirst(mem, bs, env, avail, rest);
      match FirstLoadable(mem, bs, env, avail, rest)
      case Some(i) =>
        var k: nat :| LoadsFirst(mem, bs, env, avail, rest, k) && rest[k] == i;
        assert forall m | 0 <= m <= k :: order[m] == rest[m];
        assert LoadsFirst(mem, bs, env, avail, order, k);
      case None =>
        assert forall m | 0 <= m < n :: order[m] == rest[m];
        if Loadable(mem, PartitionAt(bs, order[n]), env, avail) {
          assert LoadsFirst(mem, bs, env, avail, order, n);
        }
    }
  }

  lemma FirstLoadableStep(mem: seq<byte>, bs: BootTable, env: Env, avail: bool, order: seq<int>, k: nat)
    requires bs.Valid() && k < |order|
    requires FirstLoadable(mem, bs, env, avail, order[..k]) == None
    ensures FirstLoadable(mem, bs, env, avail, order[..k + 1])
            == if Loadable(mem, PartitionAt(bs, order[k]), env, avail) then Some(order[k]) else None
  {
    hide Loadable, PartitionAt;
    assert order[..k + 1][..k] == order[..k];
  }

  lemma {:induction false} FirstLoadablePrefix(mem: seq<byte>, bs: BootTable, env: Env, avail: bool, order: seq<int>, k: nat)
    requires bs.Valid() && k <= |order|
    requires FirstLoadable(mem, bs, env, avail, order[..k]).Some?
    ensures FirstLoadable(mem, bs, env, avail, order) == FirstLoadable(mem, bs, env, avail, order[..k])
    decreases |order|
  {
    hide Loadable, PartitionAt;
    if k == |order| {
      assert order[..k] == order;
    } else {
      var rest := order[..|order| - 1];
      assert rest[..k] == order[..k];
      FirstLoadablePrefix(mem, bs, env, avail, rest, k);
    }
  }

  // -------------------------------------------------------------------------
  // The sweeps
  // -------------------------------------------------------------------------

  /** How a boot ends: a jump to a partition's entry point, or a chip reset. */
  datatype Outcome = Jump(index: int, entry: u32) | Reset

  /** What a jump rests on: the image accepted from the partition, in RAM, the entry point its header
      holds, and the page maps of its own first DROM and IROM segments. */
  ghost predicate Launched(mem: seq<byte>, bs: BootTable, env: Env, avail: bool, o: Outcome, md: EspImageMetadata, mmu: Mmu,
                           cells: map<nat, byte>)
    requires bs.Valid()
    reads md, mmu
  {
    o.Jump? ==>
      var part := PartitionAt(bs, o.index);
      && part.size > 0 && LoadedImage(mem, part, env, avail).Some?
      && var im := LoadedImage(mem, part, env, avail).value;
         && Describes(md, part.offset, im) && md.Valid() && RamHolds(cells, im.segments)
         && SegmentCount(md.image) <= MAX_SEGMENTS
         && part.offset + 8 <= |mem| && U32Le(o.entry) == mem[part.offset + 4..part.offset + 8]
         && mmu.dbus == BusMap(ChosenSegment(md.segments, md.segmentData, FirstIn(md.segments, SegmentCount(md.image), DROM_LOW, DROM_HIGH)))
         && mmu.ibus == BusMap(ChosenSegment(md.segments, md.segmentData, FirstIn(md.segments, SegmentCount(md.image), IROM_LOW, IROM_HIGH)))
  }

  /** The records a completed attempt at `index` writes; the test image is started without one. */
  function LaunchWrites(mem: seq<byte>, bs: BootTable, o: Outcome): seq<RecordWrite> {
    if o.Jump? && 0 <= o.index < MAX_OTA_SLOTS then MarkWrites(mem, bs, o.index) else []
  }

  function LaunchOps(mem: seq<byte>, bs: BootTable, o: Outcome): seq<FlashOp> {
    AllOps(bs.otaInfo, LaunchWrites(mem, bs, o))
  }

  /** The flash at the jump, from the flash at verification; `noted` says whether the records could be
      read and the attempt noted. */
  function AtJump(mem: seq<byte>, bs: BootTable, o: Outcome, noted: bool): seq<byte> {
    ApplyAll(mem, if noted then LaunchOps(mem, bs, o) else [])
  }

  /** Cell `i` lies outside what the attempt record's write touches, or holds what that leaves there. */
  predicate KeptAtJump(mem: seq<byte>, bs: BootTable, o: Outcome, noted: bool, i: nat)
    requires i < |mem|
  {
    noted ==> forall w | w in LaunchWrites(mem, bs, o) ::
      OtaData.CellAfterWrite(mem[i], bs.otaInfo.offset + w.sector * SECTOR_SIZE, w.entry, i) == mem[i]
  }

  lemma LaunchWritesOnce(mem: seq<byte>, bs: BootTable, o: Outcome)
    ensures |LaunchWrites(mem, bs, o)| <= 1
  {}

  lemma JumpCellIff(mem: seq<byte>, bs: BootTable, o: Outcome, noted: bool, i: nat)
    requires i < |mem|
    ensures AtJump(mem, bs, o, noted)[i] == mem[i] <==> KeptAtJump(mem, bs, o, noted, i)
  {
    hide LaunchWrites, OtaData.CellAfterWrite, OtaData.WriteEntry;
    LaunchWritesOnce(mem, bs, o);
    var ws := LaunchWrites(mem, bs, o);
    if |ws| == 1 {
      assert ws == [ws[0]];
      AllOpsOfOne(bs.otaInfo, ws[0]);
      OtaData.WriteEntryCell(mem, bs.otaInfo.offset + ws[0].sector * SECTOR_SIZE, ws[0].entry, i);
    } else {
      assert ws == [];
    }
  }

  /** What the application sees, at the jump, of a window of the image at `at`: nothing when the image
      has no segment for it, else its first non-empty one. */
  ghost predicate WindowShown(m: PageMap, mem: seq<byte>, bs: BootTable, o: Outcome, noted: bool,
                              at: nat, im: Image, low: u32, high: u32)
    requires SmallSegments(im.segments)
  {
    || (m == map[] && forall k | 0 <= k < |im.segments| :: !SegmentIn(im.segments[k], low, high))
    || exists k: nat :: SegmentShown(m, mem, bs, o, noted, at, im, low, high, k)
  }

  /** Each byte of that segment is read in its own place if and only if load and flash address are
      congruent modulo the page size and noting the attempt left the cell alone. */
  ghost predicate SegmentShown(m: PageMap, mem: seq<byte>, bs: BootTable, o: Outcome, noted: bool,
                               at: nat, im: Image, low: u32, high: u32, k: nat)
    requires SmallSegments(im.segments)
  {
    && IsFirstIn(im.segments, k, low, high)
    && LiesAt(mem, DataAddr(at, im.segments, k), im.segments[k].data)
    && forall j | 0 <= j < |im.segments[k].data| ::
         ByteShown(m, mem, bs, o, noted, DataAddr(at, im.segments, k), im.segments[k].loadAddr, im.segments[k].data, j)
  }

  predicate ByteShown(m: PageMap, mem: seq<byte>, bs: BootTable, o: Outcome, noted: bool,
                      fa: nat, va: nat, data: seq<byte>, j: nat)
    requires j < |data| && fa + |data| <= |mem|
  {
    SeesByte(m, AtJump(mem, bs, o, noted), va, fa, data, j)
    <==> va % PAGE_SIZE == fa % PAGE_SIZE && KeptAtJump(mem, bs, o, noted, fa + j)
  }

  /** The application's view at the end of a boot: `after` is the flash it starts with, and both page
      maps show the accepted image's own first segments on that flash, whatever was tried before. */
  ghost predicate AppView(mem: seq<byte>, after: seq<byte>, bs: BootTable, env: Env, avail: bool, o: Outcome, noted: bool, mmu: Mmu)
    requires bs.Valid()
    reads mmu
  {
    o.Jump? ==>
      var part := PartitionAt(bs, o.index);
      && after == AtJump(mem, bs, o, noted)
      && LoadedImage(mem, part, env, avail).Some?
      && var im := LoadedImage(mem, part, env, avail).value;
         && WindowShown(mmu.dbus, mem, bs, o, noted, part.offset, im, DROM_LOW, DROM_HIGH)
         && WindowShown(mmu.ibus, mem, bs, o, noted, part.offset, im, IROM_LOW, IROM_HIGH)
  }

  lemma AppSeesVerifiedBytes(mem: seq<byte>, log: seq<FlashOp>, after: seq<byte>, afterLog: seq<FlashOp>,
                             bs: BootTable, env: Env, avail: bool, o: Outcome, noted: bool, md: EspImageMetadata, mmu: Mmu,
                             cells: map<nat, byte>)
    requires bs.Valid() && Launched(mem, bs, env, avail, o, md, mmu, cells)
    requires Performed(mem, log, after, afterLog, if noted then LaunchOps(mem, bs, o) else [])
    ensures AppView(mem, after, bs, env, avail, o, noted, mmu)
  {
    hide LoadedImage, Describes, BusMap, SegmentCount, PartitionAt, WindowShown, FirstIn, ChosenSegment, EntryAddr, LaunchOps, RamHolds;
    if o.Jump? {
      var part := PartitionAt(bs, o.index);
      WindowOfLoaded(mem, bs, o, noted, part, env, avail, md, DROM_LOW, DROM_HIGH);
      WindowOfLoaded(mem, bs, o, noted, part, env, avail, md, IROM_LOW, IROM_HIGH);
    }
  }

  lemma WindowOfLoaded(mem: seq<byte>, bs: BootTable, o: Outcome, noted: bool,
                       part: PartitionPos, env: Env, avail: bool, md: EspImageMetadata, low: u32, high: u32)
    requires LoadedImage(mem, part, env, avail).Some? && Describes(md, part.offset, LoadedImage(mem, part, env, avail).value)
    requires md.Valid() && Window(low, high) && SegmentCount(md.image) <= MAX_SEGMENTS
    ensures WindowShown(BusMap(ChosenSegment(md.segments, md.segmentData, FirstIn(md.segments, SegmentCount(md.image), low, high))),
                        mem, bs, o, noted, part.offset, LoadedImage(mem, part, env, avail).value, low, high)
  {
    hide LoadedImage, Describes, BusMap, PrintSegments, LiesAt, SegmentCount, FirstIn, ChosenSegment, DataAddr, SegmentShown;
    var im := LoadedImage(mem, part, env, avail).value;
    LoadedParts(mem, part, env, avail, md);
    ChosenFromImage(md, part.offset, im, low, high);
    var r := FirstIn(md.segments, SegmentCount(md.image), low, high);
    if r.None? {
      NothingChosen(md.segments, md.segmentData);
    } else {
      var c := ChosenSegment(md.segments, md.segmentData, r);
      ChosenIsShown(mem, bs, o, noted, part, env, avail, r.value, c, low, high);
      assert SegmentShown(BusMap(c), mem, bs, o, noted, part.offset, im, low, high, r.value);
    }
  }

  lemma ChosenIsShown(mem: seq<byte>, bs: BootTable, o: Outcome, noted: bool, part: PartitionPos, env: Env, avail: bool,
                      k: nat, c: Chosen, low: u32, high: u32)
    requires LoadedImage(mem, part, env, avail).Some? && Window(low, high)
    requires var im := LoadedImage(mem, part, env, avail).value;
             && IsFirstIn(im.segments, k, low, high)
             && c.addr == DataAddr(part.offset, im.segments, k) && c.load == im.segments[k].loadAddr
             && c.size == |im.segments[k].data|
    ensures SegmentShown(BusMap(c), mem, bs, o, noted, part.offset, LoadedImage(mem, part, env, avail).value, low, high, k)
  {
    hide AcceptedImage, BusMap, PrintSegments, SeesByte, DataAddr, KeptAtJump, AtJump;
    var im := LoadedImage(mem, part, env, avail).value;
    SegmentInFlash(mem, part.offset, env, true, true, avail, im, k);
    JumpLength(mem, bs, o, noted);
    forall j | 0 <= j < |im.segments[k].data|
      ensures ByteShown(BusMap(c), mem, bs, o, noted, c.addr, c.load, im.segments[k].data, j)
    {
      VerifiedByteIsSeenIff(mem, AtJump(mem, bs, o, noted), part.offset, env, true, true, avail, im, k, j, c, low, high);
      JumpCellIff(mem, bs, o, noted, c.addr + j);
    }
  }

  lemma JumpLength(mem: seq<byte>, bs: BootTable, o: Outcome, noted: bool)
    ensures |AtJump(mem, bs, o, noted)| == |mem|
  {}

  lemma NothingChosen(segments: seq<SegmentHeader>, segmentData: seq<u32>)
    ensures BusMap(ChosenSegment(segments, segmentData, None)) == map[]
  {}

  lemma LoadedParts(mem: seq<byte>, part: PartitionPos, env: Env, avail: bool, md: EspImageMetadata)
    requires LoadedImage(mem, part, env, avail).Some? && Describes(md, part.offset, LoadedImage(mem, part, env, avail).value)
    ensures var im := LoadedImage(mem, part, env, avail).value;
            |im.header| == HEADER_SIZE && md.image == im.header && |im.segments| == SegmentCount(im.header) <= MAX_SEGMENTS
  {
    hide ParseSegments, PrintSegments, Acceptable, ChipValid, Recorded, Print;
  }

  /** `load_image`: map the chosen segments and take the entry point. */
  method LoadImage(md: EspImageMetadata, mmu: Mmu) returns (entry: u32)
    requires md.Valid() && SegmentCount(md.image) <= MAX_SEGMENTS
    modifies mmu
    ensures entry == EntryAddr(md.image)
    ensures mmu.dbus == BusMap(ChosenSegment(md.segments, md.segmentData, FirstIn(md.segments, SegmentCount(md.image), DROM_LOW, DROM_HIGH)))
    ensures mmu.ibus == BusMap(ChosenSegment(md.segments, md.segmentData, FirstIn(md.segments, SegmentCount(md.image), IROM_LOW, IROM_HIGH)))
  {
    hide SegmentCount, EntryAddr, BusMap;
    entry := EntryAddr(md.image);
    var drom, irom := ExtractSegmentInfo(md);
    mmu.SetCache(drom, irom);
  }

  /** One step of a sweep: try the partition at `index`; if it loads, record the attempt and start
      it. */
  method TryIndex(flash: Flash, pool: S.Sha256Pool, ram: Ram, md: EspImageMetadata, mmu: Mmu, env: Env, bs: BootTable, index: int)
    returns (outcome: Outcome, ghost readOk: bool)
    requires Idle(flash, pool, ram, md, env) && bs.Valid() && index < MAX_OTA_SLOTS
    modifies flash, flash.buf, pool.Repr(), ram, md, mmu
    ensures Idle(flash, pool, ram, md, env) && pool.FreeSlots() == old(pool.FreeSlots())
    ensures outcome.Jump? ==> outcome.index == index
    ensures Launched(old(flash.mem), bs, env, old(pool.FreeSlots()) > 0, outcome, md, mmu, ram.cells)
    ensures flash.Reliable() ==> readOk
    ensures flash.Reliable() ==> (outcome.Jump? <==> Loadable(old(flash.mem), PartitionAt(bs, index), env, old(pool.FreeSlots()) > 0))
    ensures Performed(old(flash.mem), old(flash.log), flash.mem, flash.log,
                      if readOk then LaunchOps(old(flash.mem), bs, outcome) else [])
  {
    hide Flash.Valid, S.Sha256Context.Valid, S.Sha256Pool.Valid, S.Sha256Pool.FreeSlots, Loadable, LoadedImage, Describes, Safe, Performed,
         MarkWrites, AllOps, LaunchOps, Launched, RamHolds, BusMap, FirstIn, ChosenSegment, EntryAddr, SegmentCount, U32Le;
    readOk := true;
    ghost var mem, log := flash.mem, flash.log;
    PerformedNothing(mem, log);
    var part := PartitionAt(bs, index);
    var ok := TryLoadPartition(flash, pool, ram, md, env, part);
    if !ok {
      AttemptOps(mem, bs, index, 0);
      NothingLaunched(mem, bs, env, pool.FreeSlots() > 0, md, mmu, ram.cells);
      return Reset, true;
    }
    LoadedFacts(flash.mem, part, env, pool.FreeSlots() > 0, md);
    if index != TEST_APP_INDEX {
      readOk := OtaSelect.SetActualOtaSeq(flash, bs, index);
      PerformedLength(mem, log, flash.mem, flash.log,
                      if readOk then AllOps(bs.otaInfo, MarkWrites(mem, bs, index)) else []);
    }
    var entry := LoadImage(md, mmu);
    AttemptOps(mem, bs, index, entry);
    outcome := Jump(index, entry);
    StartedImage(mem, bs, env, pool.FreeSlots() > 0, index, entry, md, mmu, ram.cells);
  }

  /** Everything a jump rests on, put together. */
  lemma StartedImage(mem: seq<byte>, bs: BootTable, env: Env, avail: bool, index: int, entry: u32, md: EspImageMetadata, mmu: Mmu,
                     cells: map<nat, byte>)
    requires bs.Valid() && md.Valid() && entry == EntryAddr(md.image) && SegmentCount(md.image) <= MAX_SEGMENTS
    requires PartitionAt(bs, index).size > 0 && LoadedImage(mem, PartitionAt(bs, index), env, avail).Some?
    requires Describes(md, PartitionAt(bs, index).offset, LoadedImage(mem, PartitionAt(bs, index), env, avail).value)
    requires mmu.dbus == BusMap(ChosenSegment(md.segments, md.segmentData, FirstIn(md.segments, SegmentCount(md.image), DROM_LOW, DROM_HIGH)))
    requires mmu.ibus == BusMap(ChosenSegment(md.segments, md.segmentData, FirstIn(md.segments, SegmentCount(md.image), IROM_LOW, IROM_HIGH)))
    requires RamHolds(cells, LoadedImage(mem, PartitionAt(bs, index), env, avail).value.segments)
    ensures Launched(mem, bs, env, avail, Jump(index, entry), md, mmu, cells)
  {
    hide LoadedImage, Describes, BusMap, FirstIn, ChosenSegment, EntryAddr, SegmentCount, U32Le, RamHolds;
    LoadedFacts(mem, PartitionAt(bs, index), env, avail, md);
  }

  /** The records of an attempt: those of the slot, none for the factory and the test image. */
  lemma AttemptOps(mem: seq<byte>, bs: BootTable, index: int, entry: u32)
    requires index < MAX_OTA_SLOTS
    ensures LaunchOps(mem, bs, Reset) == []
    ensures LaunchOps(mem, bs, Jump(index, entry)) == AllOps(bs.otaInfo, MarkWrites(mem, bs, index))
    ensures index < 0 ==> AllOps(bs.otaInfo, MarkWrites(mem, bs, index)) == []
  {
    hide AllOps;
    NoOps(bs.otaInfo);
  }

  lemma LoadedFacts(mem: seq<byte>, part: PartitionPos, env: Env, avail: bool, md: EspImageMetadata)
    requires LoadedImage(mem, part, env, avail).Some? && Describes(md, part.offset, LoadedImage(mem, part, env, avail).value)
    ensures md.image == LoadedImage(mem, part, env, avail).value.header && SegmentCount(md.image) <= MAX_SEGMENTS
    ensures part.offset + 8 <= |mem| && U32Le(EntryAddr(md.image)) == mem[part.offset + 4..part.offset + 8]
  {
    hide LoadedImage, Recorded, Print, U32Le, LeU32;
    AcceptedCount(mem, part, env, avail);
    EntryInFlash(mem, part, env, avail);
  }

  /** The entry point is the word at offset 4 of the image. */
  lemma EntryInFlash(mem: seq<byte>, part: PartitionPos, env: Env, avail: bool)
    requires LoadedImage(mem, part, env, avail).Some?
    ensures var header := LoadedImage(mem, part, env, avail).value.header;
            |header| == HEADER_SIZE && part.offset + HEADER_SIZE <= |mem|
            && U32Le(EntryAddr(header)) == mem[part.offset + 4..part.offset + 8]
  {
    hide ParseSegments, PrintSegments, Acceptable, HeaderOk, U32Le, LeU32;
    var a := part.offset;
    SliceOfSlice(mem, a, a + HEADER_SIZE, 4, 8);
    U32LeOfLeU32(mem[a + 4..a + 8]);
  }

  lemma AcceptedCount(mem: seq<byte>, part: PartitionPos, env: Env, avail: bool)
    requires LoadedImage(mem, part, env, avail).Some?
    ensures |LoadedImage(mem, part, env, avail).value.header| == HEADER_SIZE
    ensures SegmentCount(LoadedImage(mem, part, env, avail).value.header) <= MAX_SEGMENTS
  {
    hide ParseSegments, PrintSegments, Acceptable, ChipValid;
  }

  lemma NothingPerformed(mem: seq<byte>, log: seq<FlashOp>, after: seq<byte>, afterLog: seq<FlashOp>)
    requires Performed(mem, log, after, afterLog, [])
    ensures after == mem && afterLog == log
  {}

  /** How many attempts come before index `i` of the backward or the forward sweep. */
  function Before(start: int, i: int): int {
    (if start == TEST_APP_INDEX then 1 else 0)
    + if i <= SweepStart(start) then SweepStart(start) - i else i + 1
  }

  lemma OrderAt(start: int, appCount: nat, i: int)
    requires start >= TEST_APP_INDEX && FACTORY_INDEX <= i && (i <= SweepStart(start) || i < appCount)
    ensures 0 <= Before(start, i) < |SweepOrder(start, appCount)|
    ensures SweepOrder(start, appCount)[Before(start, i)] == i
    ensures start == TEST_APP_INDEX ==> SweepOrder(start, appCount)[0] == start
  {
    var s := SweepStart(start);
    var h := if start == TEST_APP_INDEX then [TEST_APP_INDEX] else [];
    var b, f := Backward(s), Forward(s, appCount);
    assert SweepOrder(start, appCount) == h + b + f;
    if i <= s {
      assert b[s - i] == i;
    } else {
      assert f[i - s - 1] == i;
    }
  }

  lemma OrderLength(start: int, appCount: nat)
    requires start >= TEST_APP_INDEX
    ensures |SweepOrder(start, appCount)|
            == Before(start, if SweepStart(start) + 1 < appCount then appCount else SweepStart(start) + 1)
  {}

  /** The first `k` attempts left the flash alone and, with reliable reads, could not succeed. */
  ghost predicate Fruitless(flash: Flash, mem: seq<byte>, log: seq<FlashOp>, bs: BootTable, env: Env, avail: bool, tried: seq<int>)
    requires bs.Valid()
    reads flash
  {
    && flash.mem == mem && flash.log == log
    && (flash.Reliable() ==> FirstLoadable(mem, bs, env, avail, tried) == None)
  }

  /** One turn of a sweep, seen from the list of attempts. */
  method SweepTurn(flash: Flash, pool: S.Sha256Pool, ram: Ram, md: EspImageMetadata, mmu: Mmu, env: Env, bs: BootTable,
                   ghost order: seq<int>, ghost k: nat, index: int)
    returns (outcome: Outcome, ghost readOk: bool)
    requires Idle(flash, pool, ram, md, env) && bs.Valid() && index < MAX_OTA_SLOTS
    requires k < |order| && order[k] == index
    requires Fruitless(flash, flash.mem, flash.log, bs, env, pool.FreeSlots() > 0, order[..k])
    modifies flash, flash.buf, pool.Repr(), ram, md, mmu
    ensures Idle(flash, pool, ram, md, env) && pool.FreeSlots() == old(pool.FreeSlots())
    ensures outcome.Jump? ==> outcome.index == index
    ensures Launched(old(flash.mem), bs, env, old(pool.FreeSlots()) > 0, outcome, md, mmu, ram.cells)
    ensures flash.Reliable() ==> readOk
    ensures flash.Reliable() && outcome.Jump? ==> FirstLoadable(old(flash.mem), bs, env, old(pool.FreeSlots()) > 0, order) == Some(index)
    ensures AppView(old(flash.mem), flash.mem, bs, env, old(pool.FreeSlots()) > 0, outcome, readOk, mmu)
    ensures outcome == Reset ==> Fruitless(flash, old(flash.mem), old(flash.log), bs, env, old(pool.FreeSlots()) > 0, order[..k + 1])
    ensures Performed(old(flash.mem), old(flash.log), flash.mem, flash.log,
                      if readOk then LaunchOps(old(flash.mem), bs, outcome) else [])
  {
    hide Idle, S.Sha256Pool.FreeSlots, Flash.Valid, Loadable, Launched, AppView, Performed, PartitionAt, FirstLoadable, LaunchOps;
    ghost var mem, log, avail := flash.mem, flash.log, pool.FreeSlots() > 0;
    outcome, readOk := TryIndex(flash, pool, ram, md, mmu, env, bs, index);
    AttemptOps(mem, bs, index, 0);
    AppSeesVerifiedBytes(mem, log, flash.mem, flash.log, bs, env, avail, outcome, readOk, md, mmu, ram.cells);
    if flash.Reliable() {
      FirstLoadableStep(mem, bs, env, avail, order, k);
      if outcome.Jump? {
        FirstLoadablePrefix(mem, bs, env, avail, order, k + 1);
      }
    }
    if outcome == Reset {
      NothingPerformed(mem, log, flash.mem, flash.log);
    }
  }

  /** `bootloader_utility_load_boot_image`: the attempts follow the sweep order up to the first that
      loads, which with reliable reads is the first loadable partition; the chip is reset only after
      every attempt failed. */
  method LoadBootImage(flash: Flash, pool: S.Sha256Pool, ram: Ram, md: EspImageMetadata, mmu: Mmu, env: Env,
                       bs: BootTable, startIndex: int)
    returns (outcome: Outcome, ghost readOk: bool, ghost tried: seq<int>)
    requires Idle(flash, pool, ram, md, env) && bs.Valid() && TEST_APP_INDEX <= startIndex < MAX_OTA_SLOTS
    modifies flash, flash.buf, pool.Repr(), ram, md, mmu
    ensures Idle(flash, pool, ram, md, env) && pool.FreeSlots() == old(pool.FreeSlots())
    ensures tried <= SweepOrder(startIndex, bs.appCount)
    ensures outcome.Jump? ==> TEST_APP_INDEX <= outcome.index < MAX_OTA_SLOTS
    ensures match outcome
            case Jump(index, _) => |tried| > 0 && tried[|tried| - 1] == index
            case Reset => tried == SweepOrder(startIndex, bs.appCount)
    ensures Launched(old(flash.mem), bs, env, old(pool.FreeSlots()) > 0, outcome, md, mmu, ram.cells)
    ensures AppView(old(flash.mem), flash.mem, bs, env, old(pool.FreeSlots()) > 0, outcome, readOk, mmu)
    ensures flash.Reliable() ==> readOk
    ensures flash.Reliable() ==>
              FirstLoadable(old(flash.mem), bs, env, old(pool.FreeSlots()) > 0, SweepOrder(startIndex, bs.appCount))
              == if outcome.Jump? then Some(outcome.index) else None
    ensures Performed(old(flash.mem), old(flash.log), flash.mem, flash.log,
                      if readOk then LaunchOps(old(flash.mem), bs, outcome) else [])
  {
    hide Idle, S.Sha256Pool.FreeSlots, Flash.Valid, Launched, AppView, Performed, FirstLoadable, SweepOrder, Before, LaunchOps;
    ghost var order := SweepOrder(startIndex, bs.appCount);
    ghost var mem, log, avail := flash.mem, flash.log, pool.FreeSlots() > 0;
    ghost var k: nat := 0;
    NothingTried(mem, bs, env, avail);
    SweepBounds(startIndex);
    var actualStart := startIndex;
    if startIndex == TEST_APP_INDEX {
      OrderAt(startIndex, bs.appCount, FACTORY_INDEX);
      outcome, readOk := SweepTurn(flash, pool, ram, md, mmu, env, bs, order, k, startIndex);
      if outcome.Jump? {
        return outcome, readOk, order[..1];
      }
      k := 1;
      actualStart := FACTORY_INDEX;
    }
    var i := actualStart;
    while i >= FACTORY_INDEX
      invariant FACTORY_INDEX - 1 <= i <= actualStart
      invariant k == Before(startIndex, i) && (i < FACTORY_INDEX ==> k == Before(startIndex, actualStart + 1))
      invariant k <= |order|
      invariant Idle(flash, pool, ram, md, env) && pool.FreeSlots() == old(pool.FreeSlots())
      invariant Fruitless(flash, mem, log, bs, env, avail, order[..k])
    {
      OrderAt(startIndex, bs.appCount, i);
      outcome, readOk := SweepTurn(flash, pool, ram, md, mmu, env, bs, order, k, i);
      if outcome.Jump? {
        return outcome, readOk, order[..k + 1];
      }
      k := k + 1;
      SweepNext(startIndex, i);
      i := i - 1;
    }
    i := actualStart + 1;
    while i < bs.appCount
      invariant actualStart + 1 <= i && (i <= actualStart + 1 || i <= bs.appCount)
      invariant k == Before(startIndex, i) && k <= |order|
      invariant Idle(flash, pool, ram, md, env) && pool.FreeSlots() == old(pool.FreeSlots())
      invariant Fruitless(flash, mem, log, bs, env, avail, order[..k])
    {
      OrderAt(startIndex, bs.appCount, i);
      outcome, readOk := SweepTurn(flash, pool, ram, md, mmu, env, bs, order, k, i);
      if outcome.Jump? {
        return outcome, readOk, order[..k + 1];
      }
      k := k + 1;
      SweepNext(startIndex, i);
      i := i + 1;
    }
    OrderLength(startIndex, bs.appCount);
    assert order[..k] == order;
    PerformedNothing(mem, log);
    NothingLaunched(mem, bs, env, avail, md, mmu, ram.cells);
    return Reset, true, order;
  }

  lemma NothingLaunched(mem: seq<byte>, bs: BootTable, env: Env, avail: bool, md: EspImageMetadata, mmu: Mmu, cells: map<nat, byte>)
    requires bs.Valid()
    ensures Launched(mem, bs, env, avail, Reset, md, mmu, cells)
    ensures AppView(mem, mem, bs, env, avail, Reset, true, mmu)
    ensures LaunchOps(mem, bs, Reset) == []
  {}

  lemma NothingTried(mem: seq<byte>, bs: BootTable, env: Env, avail: bool)
    requires bs.Valid()
    ensures FirstLoadable(mem, bs, env, avail, []) == None
  {}

  lemma SweepBounds(start: int)
    requires start >= TEST_APP_INDEX
    ensures Before(start, SweepStart(start)) == if start == TEST_APP_INDEX then 1 else 0
  {}

  lemma SweepNext(start: int, i: int)
    requires start >= TEST_APP_INDEX && i >= FACTORY_INDEX
    ensures i <= SweepStart(start) ==> Before(start, i - 1) == Before(start, i) + 1
    ensures i > SweepStart(start) ==> Before(start, i + 1) == Before(start, i) + 1
    ensures Before(start, FACTORY_INDEX) + 1 == Before(start, SweepStart(start) + 1)
  {}
}
