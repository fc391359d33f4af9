/** Verifying the partition table and reducing it to the boot state. */
module PartitionTable {
  import opened Words
  import opened FlashOps
  import opened FlashDriver
  import opened BootTypes

  const TABLE_OFFSET: u32 := 0x8000
  const TABLE_MAX_LEN: u32 := 0xC00
  const MIN_PART_OFFSET: u32 := 0x8C00
  const MAX_FLASH_SIZE: u32 := 0x100_0000
  const MAX_PARTITIONS: nat := 95
  const ENTRY_LEN: nat := 32
  const PARTITION_MAGIC: nat := 0x50AA

  const TYPE_APP: byte := 0x00
  const TYPE_DATA: byte := 0x01
  const SUBTYPE_FACTORY: byte := 0x00
  const SUBTYPE_TEST: byte := 0x01
  const SUBTYPE_OTA_FLAG: byte := 0x10
  const SUBTYPE_OTA_MASK: byte := 0x0F
  const SUBTYPE_DATA_OTA: byte := 0x00

  datatype PartitionInfo = PartitionInfo(magic: nat, kind: byte, subtype: byte, pos: PartitionPos, name: seq<byte>)

  /** One 32-byte entry as it lies in flash. */
  function EntryOf(b: seq<byte>): (e: PartitionInfo)
    requires |b| == ENTRY_LEN
    ensures |e.name| == 16
  {
    PartitionInfo(LeU16(b[0..2]), b[2], b[3], PartitionPos(LeU32(b[4..8]), LeU32(b[8..12])), b[12..28])
  }

  function EntriesOf(b: seq<byte>): (es: seq<PartitionInfo>)
    requires |b| == MAX_PARTITIONS * ENTRY_LEN
    ensures |es| == MAX_PARTITIONS
    ensures forall i | 0 <= i < |es| :: |es[i].name| == 16
  {
    seq(MAX_PARTITIONS, i requires 0 <= i < MAX_PARTITIONS => EntryOf(b[i * ENTRY_LEN..(i + 1) * ENTRY_LEN]))
  }

  // -------------------------------------------------------------------------
  // Labels
  // -------------------------------------------------------------------------

  predicate Printable(b: byte) { 0x20 <= b <= 0x7E }

  predicate TextThenNuls(name: seq<byte>, n: nat) {
    && n <= |name|
    && (forall i | 0 <= i < n :: Printable(name[i]))
    && (forall i | n <= i < |name| :: name[i] == 0)
  }

  /** Printable characters up to some point, only NULs from there on. */
  ghost predicate LabelOk(name: seq<byte>) {
    exists n: nat :: TextThenNuls(name, n)
  }

  method LabelIsValid(name: seq<byte>) returns (ok: bool)
    ensures ok <==> LabelOk(name)
  {
    var seenNul := false;
    ghost var n := 0;
    for i := 0 to |name|
      invariant n <= i && (seenNul <==> n < i)
      invariant forall k | 0 <= k < n :: Printable(name[k])
      invariant forall k | n <= k < i :: name[k] == 0
    {
      if name[i] == 0 {
        seenNul := true;
      } else if seenNul {
        assert !LabelOk(name) by { NulThenText(name, n, i); }
        return false;
      } else if !Printable(name[i]) {
        assert !LabelOk(name) by { UnprintableText(name, i); }
        return false;
      } else {
        n := n + 1;
      }
    }
    assert TextThenNuls(name, n);
    ok := true;
  }

  lemma NulIsNotPrintable(b: byte)
    ensures Printable(b) ==> b != 0
  {}

  lemma NulThenText(name: seq<byte>, i: nat, j: nat)
    requires i < j < |name| && name[i] == 0 && name[j] != 0
    ensures !LabelOk(name)
  {
    hide Printable;
    NulIsNotPrintable(name[i]);
  }

  lemma UnprintableText(name: seq<byte>, i: nat)
    requires i < |name| && name[i] != 0 && !Printable(name[i])
    ensures !LabelOk(name)
  {
    hide Printable;
  }

  // -------------------------------------------------------------------------
  // Verification
  // -------------------------------------------------------------------------

  /** Non-empty, behind the table, inside 16 MB. */
  predicate InRange(pos: PartitionPos) {
    pos.size > 0 && MIN_PART_OFFSET <= pos.offset && pos.offset + pos.size <= MAX_FLASH_SIZE
  }

  predicate Disjoint(p: PartitionPos, q: PartitionPos) {
    p.offset + p.size <= q.offset || q.offset + q.size <= p.offset
  }

  ghost predicate TableOk(es: seq<PartitionInfo>) {
    && (forall i | 0 <= i < |es| :: InRange(es[i].pos) && LabelOk(es[i].name))
    && (forall i, j | 0 <= i < j < |es| :: Disjoint(es[i].pos, es[j].pos))
  }

  /** The entries in use: everything before the first wrong magic, at most 95. */
  function UsedCount(es: seq<PartitionInfo>): (n: nat)
    ensures n <= |es| && n <= MAX_PARTITIONS
    ensures forall i | 0 <= i < n :: es[i].magic == PARTITION_MAGIC
    ensures n < |es| && n < MAX_PARTITIONS ==> es[n].magic != PARTITION_MAGIC
  {
    UsedFrom(es, 0)
  }

  function UsedFrom(es: seq<PartitionInfo>, i: nat): (n: nat)
    requires i <= |es| && i <= MAX_PARTITIONS
    requires forall k | 0 <= k < i :: es[k].magic == PARTITION_MAGIC
    ensures i <= n <= |es| && n <= MAX_PARTITIONS
    ensures forall k | 0 <= k < n :: es[k].magic == PARTITION_MAGIC
    ensures n < |es| && n < MAX_PARTITIONS ==> es[n].magic != PARTITION_MAGIC
    decreases |es| - i
  {
    if i < |es| && i < MAX_PARTITIONS && es[i].magic == PARTITION_MAGIC then UsedFrom(es, i + 1) else i
  }

  /** The 32-bit range test rejects wrapped ends, so it says exactly `InRange`. */
  lemma RangeTestIsExact(pos: PartitionPos)
    ensures var end := Add32(pos.offset, pos.size);
            (pos.size == 0 || pos.offset < MIN_PART_OFFSET || end > MAX_FLASH_SIZE || end <= pos.offset)
            <==> !InRange(pos)
  {}

  method PartitionTableVerify(partitions: seq<PartitionInfo>) returns (valid: bool, outNum: nat)
    ensures outNum == UsedCount(partitions)
    ensures valid <==> TableOk(partitions[..outNum])
  {
    hide LabelOk;
    var count := 0;
    valid := true;
    var max := if |partitions| < MAX_PARTITIONS then |partitions| else MAX_PARTITIONS;
    var i := 0;
    while i < max
      invariant count == i <= max
      invariant forall k | 0 <= k < i :: partitions[k].magic == PARTITION_MAGIC
      invariant valid <==> TableOk(partitions[..i])
    {
      var part := partitions[i];
      if part.magic != PARTITION_MAGIC {
        break;
      }
      count := count + 1;
      ghost var before := valid;
      var rangeOk := InRange32(part.pos);
      if !rangeOk {
        valid := false;
      } else {
        var clash := Overlaps(partitions, i);
        if clash {
          valid := false;
        }
        var labelOk := LabelIsValid(part.name);
        if !labelOk {
          valid := false;
        }
      }
      OneMoreEntry(partitions[..i], part);
      assert partitions[..i + 1] == partitions[..i] + [part];
      i := i + 1;
    }
    outNum := count;
    assert i == UsedCount(partitions);
  }

  /** The basic range checks, in 32-bit arithmetic. */
  method InRange32(pos: PartitionPos) returns (ok: bool)
    ensures ok <==> InRange(pos)
  {
    var end := Add32(pos.offset, pos.size);
    RangeTestIsExact(pos);
    ok := !(pos.size == 0 || pos.offset < MIN_PART_OFFSET || end > MAX_FLASH_SIZE || end <= pos.offset);
  }

  /** The overlap check of entry `i` against all earlier ones. */
  method Overlaps(partitions: seq<PartitionInfo>, i: nat) returns (clash: bool)
    requires i < |partitions| && InRange(partitions[i].pos)
    ensures (forall j | 0 <= j < i :: InRange(partitions[j].pos)) ==>
              (clash <==> exists j | 0 <= j < i :: !Disjoint(partitions[j].pos, partitions[i].pos))
  {
    clash := false;
    var start, end := partitions[i].pos.offset, Add32(partitions[i].pos.offset, partitions[i].pos.size);
    for j := 0 to i
      invariant !clash
      invariant (forall k | 0 <= k < i :: InRange(partitions[k].pos)) ==>
                  forall k | 0 <= k < j :: Disjoint(partitions[k].pos, partitions[i].pos)
    {
      var prevStart := partitions[j].pos.offset;
      var prevEnd := Add32(partitions[j].pos.offset, partitions[j].pos.size);
      if start < prevEnd && end > prevStart {
        return true;
      }
    }
  }

  lemma OneMoreEntry(es: seq<PartitionInfo>, e: PartitionInfo)
    ensures TableOk(es + [e]) <==>
              && TableOk(es) && InRange(e.pos) && LabelOk(e.name)
              && (forall j | 0 <= j < |es| :: Disjoint(es[j].pos, e.pos))
  {
    hide LabelOk;
    var all := es + [e];
    if TableOk(all) {
      assert all[|es|] == e;
      assert forall i | 0 <= i < |es| :: all[i] == es[i];
    }
  }

  // -------------------------------------------------------------------------
  // The boot state
  // -------------------------------------------------------------------------

  /** What an entry is to the bootloader. */
  datatype Role = Factory | Test | Ota(slot: nat) | OtaInfo | Other

  function SlotBits(subtype: byte): (n: nat)
    ensures n < MAX_OTA_SLOTS
  {
    (subtype & SUBTYPE_OTA_MASK) as nat
  }

  function RoleOf(e: PartitionInfo): (r: Role)
    ensures r.Ota? ==> r.slot < MAX_OTA_SLOTS
  {
    if e.kind == TYPE_APP && e.subtype == SUBTYPE_FACTORY then Factory
    else if e.kind == TYPE_APP && e.subtype == SUBTYPE_TEST then Test
    else if e.kind == TYPE_APP && e.subtype & SUBTYPE_OTA_FLAG == SUBTYPE_OTA_FLAG then Ota(SlotBits(e.subtype))
    else if e.kind == TYPE_DATA && e.subtype == SUBTYPE_DATA_OTA then OtaInfo
    else Other
  }

  /** `pos` belongs to the last entry with the role, or is empty when there is none. */
  ghost predicate LastWithRole(es: seq<PartitionInfo>, role: Role, pos: PartitionPos) {
    || (pos == NO_PARTITION && forall i | 0 <= i < |es| :: RoleOf(es[i]) != role)
    || exists i | 0 <= i < |es| :: es[i].pos == pos && IsLastWithRole(es, role, i)
  }

  ghost predicate IsLastWithRole(es: seq<PartitionInfo>, role: Role, i: nat) {
    && i < |es| && RoleOf(es[i]) == role
    && forall k | i < k < |es| :: RoleOf(es[k]) != role
  }

  /** The boot state a table stands for: every role filled by its last entry, and the slot count
      one more than the highest slot present. */
  ghost predicate StateOfTable(bs: BootTable, es: seq<PartitionInfo>) {
    && bs.Valid()
    && LastWithRole(es, Factory, bs.factory)
    && LastWithRole(es, Test, bs.test)
    && LastWithRole(es, OtaInfo, bs.otaInfo)
    && (forall s | 0 <= s < MAX_OTA_SLOTS :: LastWithRole(es, Ota(s), bs.ota[s]))
    && (forall i | 0 <= i < |es| && RoleOf(es[i]).Ota? :: RoleOf(es[i]).slot < bs.appCount)
    && (bs.appCount > 0 ==> exists i | 0 <= i < |es| :: RoleOf(es[i]) == Ota(bs.appCount - 1))
  }

  lemma LastAfterOneMore(es: seq<PartitionInfo>, e: PartitionInfo, role: Role, pos: PartitionPos)
    requires LastWithRole(es, role, pos)
    ensures LastWithRole(es + [e], role, if RoleOf(e) == role then e.pos else pos)
  {
    hide RoleOf;
    var all := es + [e];
    if RoleOf(e) == role {
      assert all[|es|].pos == e.pos && IsLastWithRole(all, role, |es|);
    } else if !(pos == NO_PARTITION && forall i | 0 <= i < |es| :: RoleOf(es[i]) != role) {
      var i :| 0 <= i < |es| && es[i].pos == pos && IsLastWithRole(es, role, i);
      assert all[i] == es[i] && IsLastWithRole(all, role, i);
    }
  }

  /** The state after one more entry. */
  function WithEntry(bs: BootTable, e: PartitionInfo): (r: BootTable)
    requires bs.Valid()
    ensures r.Valid()
  {
    match RoleOf(e)
    case Factory => bs.(factory := e.pos)
    case Test => bs.(test := e.pos)
    case Ota(slot) =>
      bs.(ota := bs.ota[slot := e.pos], appCount := if slot >= bs.appCount then slot + 1 else bs.appCount)
    case OtaInfo => bs.(otaInfo := e.pos)
    case Other => bs
  }

  lemma StateAfterOneMore(bs: BootTable, es: seq<PartitionInfo>, e: PartitionInfo)
    requires StateOfTable(bs, es)
    ensures StateOfTable(WithEntry(bs, e), es + [e])
  {
    hide RoleOf, LastWithRole;
    var next, all := WithEntry(bs, e), es + [e];
    LastAfterOneMore(es, e, Factory, bs.factory);
    LastAfterOneMore(es, e, Test, bs.test);
    LastAfterOneMore(es, e, OtaInfo, bs.otaInfo);
    forall s | 0 <= s < MAX_OTA_SLOTS
      ensures LastWithRole(all, Ota(s), next.ota[s])
    {
      LastAfterOneMore(es, e, Ota(s), bs.ota[s]);
    }
    assert forall i | 0 <= i < |es| :: all[i] == es[i];
    assert all[|es|] == e;
    if bs.appCount > 0 && next.appCount == bs.appCount {
      var i :| 0 <= i < |es| && RoleOf(es[i]) == Ota(bs.appCount - 1);
      assert RoleOf(all[i]) == Ota(next.appCount - 1);
    }
  }

  const NO_TABLE: BootTable :=
    BootTable(NO_PARTITION, NO_PARTITION, seq(MAX_OTA_SLOTS, i => NO_PARTITION), NO_PARTITION, 0)

  class BootloaderState {
    var factory: PartitionPos
    var test: PartitionPos
    var ota: seq<PartitionPos>
    var otaInfo: PartitionPos
    var appCount: nat

    function View(): BootTable
      reads this
    {
      BootTable(factory, test, ota, otaInfo, appCount)
    }

    constructor ()
      ensures View() == NO_TABLE
    {
      factory, test, otaInfo, appCount := NO_PARTITION, NO_PARTITION, NO_PARTITION, 0;
      ota := seq(MAX_OTA_SLOTS, i => NO_PARTITION);
    }

    /** `*bs = BootloaderState::default()` */
    method Reset()
      modifies this
      ensures View() == NO_TABLE
    {
      factory, test, otaInfo, appCount := NO_PARTITION, NO_PARTITION, NO_PARTITION, 0;
      ota := seq(MAX_OTA_SLOTS, i => NO_PARTITION);
    }

    /** One arm of the population loop. */
    method Register(part: PartitionInfo)
      requires View().Valid()
      modifies this
      ensures View() == WithEntry(old(View()), part)
    {
      if part.kind == TYPE_APP && part.subtype == SUBTYPE_FACTORY {
        factory := part.pos;
      } else if part.kind == TYPE_APP && part.subtype == SUBTYPE_TEST {
        test := part.pos;
      } else if part.kind == TYPE_APP && part.subtype & SUBTYPE_OTA_FLAG == SUBTYPE_OTA_FLAG {
        var slot := SlotBits(part.subtype);
        ota := ota[slot := part.pos];
        if slot >= appCount {
          appCount := slot + 1;
        }
      } else if part.kind == TYPE_DATA && part.subtype == SUBTYPE_DATA_OTA {
        otaInfo := part.pos;
      }
    }
  }

  /** The entries in use, as the chip holds them. */
  function TableIn(mem: seq<byte>): (es: seq<PartitionInfo>)
    requires TABLE_OFFSET + TABLE_MAX_LEN <= |mem|
  {
    var es := EntriesOf(mem[TABLE_OFFSET..TABLE_OFFSET + MAX_PARTITIONS * ENTRY_LEN]);
    es[..UsedCount(es)]
  }

  /** Map the table, verify it, and populate the state from it.  On failure the state is kept. */
  method LoadPartitionTable(flash: Flash, bs: BootloaderState) returns (ok: bool)
    requires flash.Valid() && !flash.encrypted && !flash.mapped
    modifies flash`readCount, flash`mapped, flash`mappedSize, flash`readMapping, flash`window, flash.buf, bs
    ensures flash.Valid() && !flash.mapped
    ensures ok ==> TABLE_OFFSET + TABLE_MAX_LEN <= |flash.mem| && TableOk(TableIn(flash.mem))
    ensures ok ==> StateOfTable(bs.View(), TableIn(flash.mem))
    ensures !ok ==> bs.View() == old(bs.View())
    ensures flash.Reliable() && TABLE_OFFSET + TABLE_MAX_LEN <= |flash.mem| && TableOk(TableIn(flash.mem)) ==> ok
  {
    hide TableOk, StateOfTable, RoleOf, EntryOf;
    var addr := flash.Mmap(TABLE_OFFSET, TABLE_MAX_LEN);
    if addr == null {
      return false;
    }
    var partitions := EntriesOf(addr[..MAX_PARTITIONS * ENTRY_LEN]);
    TableInBuffer(addr[..], flash.mem);
    assert addr[..][..MAX_PARTITIONS * ENTRY_LEN] == addr[..MAX_PARTITIONS * ENTRY_LEN];
    var valid, numPartitions := PartitionTableVerify(partitions);
    if !valid {
      flash.Munmap();
      return false;
    }
    Populate(bs, partitions[..numPartitions]);
    flash.Munmap();
    ok := true;
  }

  /** Reset the state and enter every partition in table order. */
  method Populate(bs: BootloaderState, partitions: seq<PartitionInfo>)
    modifies bs
    ensures StateOfTable(bs.View(), partitions)
  {
    hide StateOfTable, RoleOf;
    bs.Reset();
    EmptyState();
    for i := 0 to |partitions|
      invariant bs.View().Valid()
      invariant StateOfTable(bs.View(), partitions[..i])
    {
      StateAfterOneMore(bs.View(), partitions[..i], partitions[i]);
      assert partitions[..i + 1] == partitions[..i] + [partitions[i]];
      bs.Register(partitions[i]);
    }
    assert partitions[..|partitions|] == partitions;
  }

  lemma TableInBuffer(buf: seq<byte>, mem: seq<byte>)
    requires |buf| >= TABLE_MAX_LEN && TABLE_OFFSET + TABLE_MAX_LEN <= |mem|
    requires buf[..TABLE_MAX_LEN] == mem[TABLE_OFFSET..TABLE_OFFSET + TABLE_MAX_LEN]
    ensures buf[..MAX_PARTITIONS * ENTRY_LEN] == mem[TABLE_OFFSET..TABLE_OFFSET + MAX_PARTITIONS * ENTRY_LEN]
  {
    SliceOfSlice(buf, 0, TABLE_MAX_LEN, 0, MAX_PARTITIONS * ENTRY_LEN);
    SliceOfSlice(mem, TABLE_OFFSET, TABLE_OFFSET + TABLE_MAX_LEN, 0, MAX_PARTITIONS * ENTRY_LEN);
  }

  lemma EmptyState()
    ensures NO_TABLE.Valid() && StateOfTable(NO_TABLE, [])
  {}

  // -------------------------------------------------------------------------
  // What a loaded state guarantees
  // -------------------------------------------------------------------------

  /** In a verified table every slot at or above the count is empty, and the highest one below it
      is not. */
  lemma SlotsAboveCountAreEmpty(bs: BootTable, es: seq<PartitionInfo>)
    requires StateOfTable(bs, es) && TableOk(es)
    ensures forall s | bs.appCount <= s < MAX_OTA_SLOTS :: bs.ota[s] == NO_PARTITION
    ensures bs.appCount > 0 ==> bs.ota[bs.appCount - 1].size > 0
  {
    hide RoleOf, LabelOk;
    forall s | bs.appCount <= s < MAX_OTA_SLOTS
      ensures bs.ota[s] == NO_PARTITION
    {
      assert LastWithRole(es, Ota(s), bs.ota[s]);
    }
    if bs.appCount > 0 {
      assert LastWithRole(es, Ota(bs.appCount - 1), bs.ota[bs.appCount - 1]);
    }
  }

  /** Every partition of the state comes from the table, so it is in range. */
  lemma StatePartitionsInRange(bs: BootTable, es: seq<PartitionInfo>)
    requires StateOfTable(bs, es) && TableOk(es)
    ensures bs.factory == NO_PARTITION || InRange(bs.factory)
    ensures bs.otaInfo == NO_PARTITION || InRange(bs.otaInfo)
    ensures forall s | 0 <= s < MAX_OTA_SLOTS :: bs.ota[s] == NO_PARTITION || InRange(bs.ota[s])
  {
    hide RoleOf, LabelOk;
  }

  /** Partitions with different roles do not share a byte. */
  lemma RolesAreDisjoint(es: seq<PartitionInfo>, r: Role, p: PartitionPos, s: Role, q: PartitionPos)
    requires TableOk(es) && r != s
    requires LastWithRole(es, r, p) && LastWithRole(es, s, q)
    requires p.size > 0 && q.size > 0
    ensures Disjoint(p, q)
  {
    hide RoleOf, LabelOk;
    var i :| 0 <= i < |es| && es[i].pos == p && IsLastWithRole(es, r, i);
    var j :| 0 <= j < |es| && es[j].pos == q && IsLastWithRole(es, s, j);
    assert i != j;
  }

  // -------------------------------------------------------------------------
  // Roles by the numbers in the table
  // -------------------------------------------------------------------------

  lemma LowNibble(b: byte)
    ensures SlotBits(b) == b as nat % 16
  {}

  lemma FlagBit(b: byte)
    ensures b & SUBTYPE_OTA_FLAG == SUBTYPE_OTA_FLAG <==> b as nat / 16 % 2 == 1
  {}

  lemma SmallBytes(b: byte)
    ensures b == 0 <==> b as nat == 0
    ensures b == 1 <==> b as nat == 1
  {}

  /** The role of an entry is decided by its type and subtype numbers: application 0 is factory, 1 the
      test image, 16 to 31 the slots 0 to 15 (and so with higher bits set); data 0 is OTA-info. */
  lemma RoleByNumbers(e: PartitionInfo)
    ensures var kind, sub := e.kind as nat, e.subtype as nat;
            RoleOf(e) == if kind == 0 && sub == 0 then Factory
                         else if kind == 0 && sub == 1 then Test
                         else if kind == 0 && sub / 16 % 2 == 1 then Ota(sub % 16)
                         else if kind == 1 && sub == 0 then OtaInfo
                         else Other
  {
    hide SlotBits;
    LowNibble(e.subtype);
    FlagBit(e.subtype);
    SmallBytes(e.subtype);
    SmallBytes(e.kind);
  }

  /** Slot `s` is subtype 0x10 + s. */
  lemma SlotSubtype(e: PartitionInfo, s: nat)
    requires s < 16 && e.kind as nat == 0 && e.subtype as nat == 0x10 + s
    ensures RoleOf(e) == Ota(s)
  {
    hide RoleOf;
    RoleByNumbers(e);
  }

  /** A table with one application entry for each subtype 0x10 to 0x1F, and no other with that bit,
      fills all sixteen slots, each from its own entry. */
  lemma SixteenSlots(bs: BootTable, es: seq<PartitionInfo>, at: seq<nat>)
    requires StateOfTable(bs, es) && |at| == 16
    requires forall s | 0 <= s < 16 :: at[s] < |es| && es[at[s]].kind as nat == 0 && es[at[s]].subtype as nat == 0x10 + s
    requires forall i | 0 <= i < |es| && es[i].kind as nat == 0 && es[i].subtype as nat / 16 % 2 == 1 :: i in at
    ensures bs.appCount == 16
    ensures forall s | 0 <= s < 16 :: bs.ota[s] == es[at[s]].pos
  {
    hide RoleOf, LastWithRole;
    forall s | 0 <= s < 16
      ensures bs.ota[s] == es[at[s]].pos && RoleOf(es[at[s]]) == Ota(s)
    {
      assert LastWithRole(es, Ota(s), bs.ota[s]);
      OnlySlot(es, at, s, bs.ota[s]);
    }
    assert RoleOf(es[at[15]]).Ota? && RoleOf(es[at[15]]).slot == 15;
  }

  lemma OnlySlot(es: seq<PartitionInfo>, at: seq<nat>, s: nat, pos: PartitionPos)
    requires |at| == 16 && s < 16 && LastWithRole(es, Ota(s), pos)
    requires forall s | 0 <= s < 16 :: at[s] < |es| && es[at[s]].kind as nat == 0 && es[at[s]].subtype as nat == 0x10 + s
    requires forall i | 0 <= i < |es| && es[i].kind as nat == 0 && es[i].subtype as nat / 16 % 2 == 1 :: i in at
    ensures RoleOf(es[at[s]]) == Ota(s) && pos == es[at[s]].pos
  {
    hide RoleOf;
    SlotSubtype(es[at[s]], s);
    var i :| 0 <= i < |es| && es[i].pos == pos && IsLastWithRole(es, Ota(s), i);
    RoleByNumbers(es[i]);
    var t :| 0 <= t < 16 && at[t] == i;
    SlotSubtype(es[at[t]], t);
  }

  /** Verification by numbers: partitions are not empty, start behind the table and end inside 16 MB,
      labels are valid, and no two partitions share a byte. */
  lemma VerifiedByNumbers(es: seq<PartitionInfo>)
    ensures TableOk(es)
            <==> && (forall i | 0 <= i < |es| :: es[i].pos.size > 0 && 0x8C00 <= es[i].pos.offset
                                                 && es[i].pos.offset + es[i].pos.size <= 0x100_0000 && LabelOk(es[i].name))
                 && (forall i, j | 0 <= i < j < |es| ::
                       es[i].pos.offset + es[i].pos.size <= es[j].pos.offset || es[j].pos.offset + es[j].pos.size <= es[i].pos.offset)
  {
    hide LabelOk;
  }

  /** Label characters are the printable ASCII codes. */
  lemma PrintableCodes(b: byte)
    ensures Printable(b) <==> 32 <= b as nat <= 126
  {}

  /** Where the table is read from and how it is cut into entries. */
  lemma TablePlace(mem: seq<byte>, i: nat)
    requires |mem| >= 0x8C00 && i < 95
    ensures EntriesOf(mem[TABLE_OFFSET..TABLE_OFFSET + MAX_PARTITIONS * ENTRY_LEN])[i]
            == EntryOf(mem[0x8000 + 32 * i..0x8000 + 32 * i + 32])
  {
    hide EntryOf;
    SliceOfSlice(mem, TABLE_OFFSET, TABLE_OFFSET + MAX_PARTITIONS * ENTRY_LEN, 32 * i, 32 * i + 32);
  }

  /** The table takes 0xC00 bytes from 0x8000, and partitions start right behind it. */
  lemma TableRegion()
    ensures TABLE_OFFSET == 0x8000 && TABLE_OFFSET + TABLE_MAX_LEN == 0x8C00 == MIN_PART_OFFSET
  {}

  /** At most 95 entries are read, all of them when every magic is right. */
  lemma TableSize(es: seq<PartitionInfo>)
    ensures UsedCount(es) <= 95
    ensures |es| >= 95 && (forall i | 0 <= i < 95 :: es[i].magic == PARTITION_MAGIC) ==> UsedCount(es) == 95
  {
    hide UsedFrom;
  }

  /** An entry is in use when it starts with the bytes AA 50. */
  lemma MagicBytes(b: seq<byte>)
    requires |b| == 32
    ensures EntryOf(b).magic == PARTITION_MAGIC <==> b[0] == 0xAA && b[1] == 0x50
  {
    hide NatOfByte, LeU32;
    MagicNumbers();
    assert b[0..2] == [b[0], b[1]];
    if EntryOf(b).magic == PARTITION_MAGIC {
      NatOfByteInjective(b[0], 0xAA);
      NatOfByteInjective(b[1], 0x50);
    }
  }

  lemma MagicNumbers()
    ensures NatOfByte(0xAA) == 0xAA && NatOfByte(0x50) == 0x50
  {}
}
