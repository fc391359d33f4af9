/** The two OTA-select records: when one counts, which one wins, and what a write that is cut
    short leaves behind. */
module OtaData {
  import opened Words
  import opened Wrappers
  import opened Crc
  import opened FlashOps
  import opened BootTypes

  const IMG_NEW: bv32 := 0
  const IMG_PENDING_VERIFY: bv32 := 1
  const IMG_VALID: bv32 := 2
  const IMG_INVALID: bv32 := 3
  const IMG_ABORTED: bv32 := 4

  datatype OtaEntry = OtaEntry(otaSeq: bv32, otaState: bv32, crc: bv32)

  const BLANK: OtaEntry := OtaEntry(ALL_ONES, ALL_ONES, ALL_ONES)
  const ENTRY_SIZE: nat := 12

  function EntryAt(mem: seq<byte>, a: nat): OtaEntry
    requires a + ENTRY_SIZE <= |mem|
  {
    OtaEntry(WordAt(mem, a), WordAt(mem, a + 4), WordAt(mem, a + 8))
  }

  // -------------------------------------------------------------------------
  // Validity and selection, as the bootloader computes them
  // -------------------------------------------------------------------------

  function SeqCrc(s: bv32): bv32 {
    Register(ALL_ONES, WordLe(s))
  }

  predicate SelectValid(e: OtaEntry) {
    && e.otaSeq != ALL_ONES
    && e.otaState != IMG_INVALID
    && e.otaState != IMG_ABORTED
    && e.crc == SeqCrc(e.otaSeq)
  }

  /** Unsigned order on sequence numbers. */
  predicate Less(s: bv32, t: bv32) { s < t }

  lemma LessIsStrict(s: bv32)
    ensures !Less(s, s)
  {}

  function SelectOtadata(e0: OtaEntry, e1: OtaEntry, valid0: bool, valid1: bool, max: bool): int {
    if valid0 && valid1 then
      var condition :=
        if max then (if Less(e0.otaSeq, e1.otaSeq) then e1.otaSeq else e0.otaSeq)
        else (if Less(e1.otaSeq, e0.otaSeq) then e1.otaSeq else e0.otaSeq);
      if condition == e0.otaSeq then 0 else 1
    else if valid0 then 0
    else if valid1 then 1
    else -1
  }

  function ActiveOtadata(e0: OtaEntry, e1: OtaEntry): int {
    SelectOtadata(e0, e1, SelectValid(e0), SelectValid(e1), true)
  }

  /** The rollback pass: a record still waiting for confirmation becomes ABORTED. */
  function Rollback(e: OtaEntry): OtaEntry {
    if e.otaState == IMG_PENDING_VERIFY then OtaEntry(e.otaSeq, IMG_ABORTED, SeqCrc(e.otaSeq)) else e
  }

  /** The record a boot acts on: 0, 1, or -1 for none. */
  function Chosen(e0: OtaEntry, e1: OtaEntry): int {
    ActiveOtadata(Rollback(e0), Rollback(e1))
  }

  /** `ota_seq - 1`, when it names one of the sixteen slots. */
  function SlotOf(s: bv32): (r: Option<nat>)
    ensures r.Some? ==> r.value < MAX_OTA_SLOTS
  {
    if s - 1 < 16 then Some((s - 1) as nat) else None
  }

  /** `start_index + 1` as written back to flash. */
  function SeqOf(slot: nat): bv32
    requires slot < MAX_OTA_SLOTS
  {
    (slot + 1) as bv32
  }

  // -------------------------------------------------------------------------
  // What selection means
  // -------------------------------------------------------------------------

  /** A record that can win: confirmed or new, with a matching CRC. */
  predicate Settled(e: OtaEntry) {
    && e.otaSeq != ALL_ONES
    && e.otaState != IMG_INVALID
    && e.otaState != IMG_ABORTED
    && e.otaState != IMG_PENDING_VERIFY
    && e.crc == SeqCrc(e.otaSeq)
  }

  /** A boot acts on the settled record with the greater sequence number, on record 0 in a tie,
      and on none exactly when neither is settled. */
  lemma ChosenIsGreatestSettled(e0: OtaEntry, e1: OtaEntry)
    ensures Chosen(e0, e1) == 0 <==> Settled(e0) && (Settled(e1) ==> !Less(e0.otaSeq, e1.otaSeq))
    ensures Chosen(e0, e1) == 1 <==> Settled(e1) && (Settled(e0) ==> Less(e0.otaSeq, e1.otaSeq))
    ensures Chosen(e0, e1) == -1 <==> !Settled(e0) && !Settled(e1)
  {
    hide SeqCrc, Less, Rollback, SelectValid, Settled;
    RollbackSettles(e0);
    RollbackSettles(e1);
    LessIsStrict(e0.otaSeq);
  }

  /** By the words in flash: a record with a matching CRC and a sequence number that is not blank can win
      unless its state word is 1, 3 or 4. */
  lemma StateWordsDecide(e: OtaEntry)
    requires e.otaSeq != 0xFFFF_FFFF && e.crc == SeqCrc(e.otaSeq)
    ensures Settled(e) <==> e.otaState != 1 && e.otaState != 3 && e.otaState != 4
    ensures SelectValid(e) <==> e.otaState != 3 && e.otaState != 4
    ensures e.otaState == 1 ==> Rollback(e).otaState == 4
  {
    hide SeqCrc;
  }

  /** Among two settled records the numerically greater sequence number wins, unsigned. */
  lemma GreaterNumberWins(e0: OtaEntry, e1: OtaEntry)
    requires Settled(e0) && Settled(e1)
    ensures Chosen(e0, e1) == if e0.otaSeq < e1.otaSeq then 1 else 0
  {
    hide Chosen, Settled, Less;
    ChosenIsGreatestSettled(e0, e1);
    LessIsUnsigned(e0.otaSeq, e1.otaSeq);
  }

  lemma LessIsUnsigned(s: bv32, t: bv32)
    ensures Less(s, t) <==> s < t
  {}

  lemma RollbackSettles(e: OtaEntry)
    ensures SelectValid(Rollback(e)) <==> Settled(e)
    ensures Rollback(e).otaSeq == e.otaSeq
  {
    hide SeqCrc;
  }

  // -------------------------------------------------------------------------
  // The CRC of a sequence number
  // -------------------------------------------------------------------------

  /** The sequence number a CRC belongs to. */
  function SeqOfCrc(c: bv32): bv32 {
    Xor(Unbits(c, 32), ALL_ONES)
  }

  lemma SeqCrcMeaning(s: bv32)
    ensures SeqCrc(s) == Bits(Xor(ALL_ONES, s), 32)
  {
    hide *;
    SeqCrcUnfolded(s);
    RegisterOfWord(ALL_ONES, WordLe(s));
    LeWordOfWordLe(s);
  }

  lemma SeqCrcUnfolded(s: bv32)
    ensures SeqCrc(s) == Register(ALL_ONES, WordLe(s))
  {}

  lemma SeqOfCrcUnfolded(c: bv32)
    ensures SeqOfCrc(c) == Xor(Unbits(c, 32), ALL_ONES)
  {}

  /** The CRC is a bijection on 32-bit sequence numbers. */
  lemma SeqCrcIsBijective(s: bv32, c: bv32)
    ensures SeqOfCrc(SeqCrc(s)) == s
    ensures SeqCrc(SeqOfCrc(c)) == c
  {
    hide *;
    SeqCrcMeaning(s);
    SeqOfCrcUnfolded(SeqCrc(s));
    BitsUndone(Xor(ALL_ONES, s), 32);
    XorComm(ALL_ONES, s);
    XorCancel(s, ALL_ONES);
    SeqCrcMeaning(SeqOfCrc(c));
    SeqOfCrcUnfolded(c);
    XorComm(ALL_ONES, Xor(Unbits(c, 32), ALL_ONES));
    XorCancel(Unbits(c, 32), ALL_ONES);
    UnbitsRedone(c, 32);
  }

  /** A change confined to the sequence number always breaks the record. */
  lemma SeqChangeDetected(e: OtaEntry, s: bv32)
    requires SelectValid(e) && s != e.otaSeq
    ensures !SelectValid(e.(otaSeq := s))
  {
    hide SeqCrc, SeqOfCrc;
    SeqCrcIsBijective(s, 0);
    SeqCrcIsBijective(e.otaSeq, 0);
  }

  // -------------------------------------------------------------------------
  // Writing a record, and losing power on the way
  // -------------------------------------------------------------------------

  /** The one sequence number whose CRC is all ones, the value of an erased CRC word. */
  const TORN_SEQ: bv32 := 0x6DD9_0A9D

  lemma TornSeqCrc()
    ensures SeqCrc(TORN_SEQ) == ALL_ONES
  {
    assert Bits(0x9226_F562, 8) == 0xA32E_2681;
    assert Bits(0xA32E_2681, 8) == 0x9A1C_9D90;
    assert Bits(0x9A1C_9D90, 8) == 0xF095_8FD9;
    assert Bits(0xF095_8FD9, 8) == 0xFFFF_FFFF;
    TornSeqCrcFromSteps();
  }

  lemma TornSeqCrcFromSteps()
    requires Bits(0x9226_F562, 8) == 0xA32E_2681
    requires Bits(0xA32E_2681, 8) == 0x9A1C_9D90
    requires Bits(0x9A1C_9D90, 8) == 0xF095_8FD9
    requires Bits(0xF095_8FD9, 8) == 0xFFFF_FFFF
    ensures SeqCrc(TORN_SEQ) == ALL_ONES
  {
    hide Bits, Xor, SeqCrc;
    var r := 0x9226_F562;
    BitsCompose(r, 8, 8);
    BitsCompose(r, 16, 8);
    BitsCompose(r, 24, 8);
    SeqCrcMeaning(TORN_SEQ);
    TornSeqComplement();
  }

  lemma TornSeqComplement()
    ensures Xor(ALL_ONES, TORN_SEQ) == 0x9226_F562
  {}

  lemma TornSeqIsUnique(s: bv32)
    ensures SeqCrc(s) == ALL_ONES <==> s == TORN_SEQ
  {
    hide *;
    TornSeqCrc();
    SeqCrcIsBijective(s, 0);
    SeqCrcIsBijective(TORN_SEQ, 0);
  }

  /** No sequence number the bootloader or the application writes is the torn one. */
  lemma WrittenSeqsAreNotTorn(slot: nat)
    requires slot < MAX_OTA_SLOTS
    ensures SeqOf(slot) != TORN_SEQ && SeqOf(slot) != ALL_ONES
    ensures SlotOf(SeqOf(slot)) == Some(slot)
  {
    if slot < 8 {
      if slot < 4 {
        if slot == 0 {} else if slot == 1 {} else if slot == 2 {} else {}
      } else {
        if slot == 4 {} else if slot == 5 {} else if slot == 6 {} else {}
      }
    } else {
      if slot < 12 {
        if slot == 8 {} else if slot == 9 {} else if slot == 10 {} else {}
      } else {
        if slot == 12 {} else if slot == 13 {} else if slot == 14 {} else {}
      }
    }
  }

  /** The record after `k` operations of a write of `e` over `prior`: nothing yet, erased, then one
      more word at a time. */
  function Torn(prior: OtaEntry, e: OtaEntry, k: nat): OtaEntry {
    if k == 0 then prior
    else if k == 1 then BLANK
    else if k == 2 then OtaEntry(e.otaSeq, ALL_ONES, ALL_ONES)
    else if k == 3 then OtaEntry(e.otaSeq, e.otaState, ALL_ONES)
    else e
  }

  /** A record that does not count stays that way at every cut of its write exactly when its
      sequence number is not the one an erased CRC word vouches for. */
  lemma TornWriteNeverSettles(prior: OtaEntry, e: OtaEntry)
    requires !Settled(e) && e.otaSeq != ALL_ONES
    ensures (forall k: nat | 1 <= k :: !Settled(Torn(prior, e, k))) <==> e.otaSeq != TORN_SEQ
  {
    hide SeqCrc;
    TornSeqIsUnique(e.otaSeq);
    if e.otaSeq == TORN_SEQ {
      assert Settled(Torn(prior, e, 2));
    }
  }

  /** Erase the sector, program the record, then whatever words the writer puts behind it. */
  function WriteEntry(a: nat, e: OtaEntry, extra: seq<bv32>): (ops: seq<FlashOp>)
    ensures |ops| == 4 + |extra|
  {
    [Erase(a / SECTOR_SIZE)] + ProgramWords(a, [e.otaSeq, e.otaState, e.crc] + extra)
  }

  lemma BlankAfterErase(mem: seq<byte>, a: nat)
    requires a % SECTOR_SIZE == 0 && a + SECTOR_SIZE <= |mem|
    ensures EntryAt(Apply(mem, Erase(a / SECTOR_SIZE)), a) == BLANK
  {
    hide WordAt;
    var s := a / SECTOR_SIZE;
    assert s * SECTOR_SIZE == a;
    ErasedWord(mem, s, a);
    ErasedWord(mem, s, a + 4);
    ErasedWord(mem, s, a + 8);
  }

  /** Programming word `j` of a record whose word `j` is still erased. */
  lemma EntryAfterProgram(mem: seq<byte>, a: nat, j: nat, w: bv32)
    requires a + SECTOR_SIZE <= |mem| && a + 4 * j + 4 <= a + SECTOR_SIZE
    ensures var e, r := EntryAt(mem, a), EntryAt(Apply(mem, Program(a + 4 * j, w)), a);
            && (j == 0 && e.otaSeq == ALL_ONES ==> r == e.(otaSeq := w))
            && (j == 1 && e.otaState == ALL_ONES ==> r == e.(otaState := w))
            && (j == 2 && e.crc == ALL_ONES ==> r == e.(crc := w))
            && (j >= 3 ==> r == e)
  {
    hide WordAt;
    var op := Program(a + 4 * j, w);
    if j == 0 && WordAt(mem, a) == ALL_ONES {
      ProgrammedWord(mem, a, w);
    }
    if j == 1 && WordAt(mem, a + 4) == ALL_ONES {
      ProgrammedWord(mem, a + 4, w);
    }
    if j == 2 && WordAt(mem, a + 8) == ALL_ONES {
      ProgrammedWord(mem, a + 8, w);
    }
    if j != 0 {
      UntouchedWord(mem, op, a);
    }
    if j != 1 {
      UntouchedWord(mem, op, a + 4);
    }
    if j != 2 {
      UntouchedWord(mem, op, a + 8);
    }
  }

  lemma WriteEntryAt(a: nat, e: OtaEntry, extra: seq<bv32>, k: nat)
    requires k < 4 + |extra|
    ensures WriteEntry(a, e, extra)[k]
            == if k == 0 then Erase(a / SECTOR_SIZE)
               else Program(a + 4 * (k - 1), if k == 1 then e.otaSeq else if k == 2 then e.otaState
                                             else if k == 3 then e.crc else extra[k - 4])
  {}

  /** What one more word makes of the torn record. */
  lemma TornNext(prior: OtaEntry, e: OtaEntry, k: nat)
    ensures var t, n := Torn(prior, e, k), Torn(prior, e, k + 1);
            && (k == 0 ==> n == BLANK)
            && (k == 1 ==> t.otaSeq == ALL_ONES && n == t.(otaSeq := e.otaSeq))
            && (k == 2 ==> t.otaState == ALL_ONES && n == t.(otaState := e.otaState))
            && (k == 3 ==> t.crc == ALL_ONES && n == t.(crc := e.crc))
            && (k >= 4 ==> n == t)
  {}

  /** One more operation of the write takes the torn record one step further. */
  lemma TornStep(mem: seq<byte>, prior: OtaEntry, a: nat, e: OtaEntry, extra: seq<bv32>, k: nat)
    requires a % SECTOR_SIZE == 0 && a + SECTOR_SIZE <= |mem|
    requires 4 * (3 + |extra|) <= SECTOR_SIZE
    requires k < 4 + |extra|
    requires EntryAt(mem, a) == Torn(prior, e, k)
    ensures EntryAt(Apply(mem, WriteEntry(a, e, extra)[k]), a) == Torn(prior, e, k + 1)
  {
    hide EntryAt, SeqCrc, WriteEntry, Apply, Torn;
    WriteEntryAt(a, e, extra, k);
    TornNext(prior, e, k);
    if k == 0 {
      BlankAfterErase(mem, a);
    } else {
      EntryAfterProgram(mem, a, k - 1, WriteEntry(a, e, extra)[k].word);
    }
  }

  /** A write cut after `k` operations leaves the torn record. */
  lemma {:induction false} EntryAfterCut(mem: seq<byte>, a: nat, e: OtaEntry, extra: seq<bv32>, k: nat)
    requires a % SECTOR_SIZE == 0 && a + SECTOR_SIZE <= |mem|
    requires 4 * (3 + |extra|) <= SECTOR_SIZE
    requires k <= 4 + |extra|
    ensures EntryAt(ApplyAll(mem, WriteEntry(a, e, extra)[..k]), a) == Torn(EntryAt(mem, a), e, k)
    decreases k
  {
    hide EntryAt, Torn, WriteEntry;
    var ops := WriteEntry(a, e, extra);
    if k == 0 {
      assert Torn(EntryAt(mem, a), e, 0) == EntryAt(mem, a) by { TornStart(EntryAt(mem, a), e); }
    } else {
      EntryAfterCut(mem, a, e, extra, k - 1);
      assert ops[..k] == ops[..k - 1] + [ops[k - 1]];
      ApplyAllLast(mem, ops[..k - 1], ops[k - 1]);
      TornStep(ApplyAll(mem, ops[..k - 1]), EntryAt(mem, a), a, e, extra, k - 1);
    }
  }

  lemma TornStart(prior: OtaEntry, e: OtaEntry)
    ensures Torn(prior, e, 0) == prior
  {}

  lemma WriteEntryWithin(a: nat, e: OtaEntry, extra: seq<bv32>)
    requires a % SECTOR_SIZE == 0 && 4 * (3 + |extra|) <= SECTOR_SIZE
    ensures Within(WriteEntry(a, e, extra), a, a + SECTOR_SIZE)
  {
    assert (a / SECTOR_SIZE) * SECTOR_SIZE == a;
  }

  // -------------------------------------------------------------------------
  // A whole write, cell by cell
  // -------------------------------------------------------------------------

  function EntryBytes(e: OtaEntry): (b: seq<byte>)
    ensures |b| == ENTRY_SIZE
  {
    WordLe(e.otaSeq) + WordLe(e.otaState) + WordLe(e.crc)
  }

  /** One cell after a write of `e` at `a`: the sector of `a` is blank but for the record; a record
      hanging over the sector's end only clears bits there. */
  function CellAfterWrite(cell: byte, a: nat, e: OtaEntry, i: nat): byte {
    var erased := if a / SECTOR_SIZE * SECTOR_SIZE <= i < (a / SECTOR_SIZE + 1) * SECTOR_SIZE then 0xFF else cell;
    if a <= i < a + ENTRY_SIZE then And(erased, EntryBytes(e)[i - a]) else erased
  }

  lemma FourOps(mem: seq<byte>, a: nat, e: OtaEntry)
    ensures ApplyAll(mem, WriteEntry(a, e, []))
            == Apply(Apply(Apply(Apply(mem, Erase(a / SECTOR_SIZE)), Program(a, e.otaSeq)), Program(a + 4, e.otaState)), Program(a + 8, e.crc))
  {
    hide Apply, ApplyAll, WriteEntry;
    WriteEntryList(a, e);
    ApplyFour(mem, Erase(a / SECTOR_SIZE), Program(a, e.otaSeq), Program(a + 4, e.otaState), Program(a + 8, e.crc));
  }

  lemma WriteEntryList(a: nat, e: OtaEntry)
    ensures WriteEntry(a, e, [])
            == [Erase(a / SECTOR_SIZE), Program(a, e.otaSeq), Program(a + 4, e.otaState), Program(a + 8, e.crc)]
  {
    hide ProgramWords;
    assert [e.otaSeq, e.otaState, e.crc] + [] == [e.otaSeq, e.otaState, e.crc];
    var ops := ProgramWords(a, [e.otaSeq, e.otaState, e.crc]);
    assert ops == [ops[0], ops[1], ops[2]];
  }

  lemma ApplyFour(mem: seq<byte>, o0: FlashOp, o1: FlashOp, o2: FlashOp, o3: FlashOp)
    ensures ApplyAll(mem, [o0, o1, o2, o3]) == Apply(Apply(Apply(Apply(mem, o0), o1), o2), o3)
  {
    hide Apply, ApplyAll;
    ApplyOne(mem, o0);
    assert [o0] + [o1] == [o0, o1] && [o0, o1] + [o2] == [o0, o1, o2] && [o0, o1, o2] + [o3] == [o0, o1, o2, o3];
    ApplyAllLast(mem, [o0], o1);
    ApplyAllLast(mem, [o0, o1], o2);
    ApplyAllLast(mem, [o0, o1, o2], o3);
  }

  lemma ApplyOne(mem: seq<byte>, op: FlashOp)
    ensures ApplyAll(mem, [op]) == Apply(mem, op)
  {
    hide Apply;
    assert [op][..0] == [];
  }

  lemma WriteEntryCell(mem: seq<byte>, a: nat, e: OtaEntry, i: nat)
    requires i < |mem|
    ensures ApplyAll(mem, WriteEntry(a, e, []))[i] == CellAfterWrite(mem[i], a, e, i)
  {
    hide WordLe, And, ApplyAll, WriteEntry, CellAfter, CellAfterWrite;
    FourOps(mem, a, e);
    FourCells(mem[i], a, e, i);
  }

  /** The four operations on one cell. */
  lemma FourCells(cell: byte, a: nat, e: OtaEntry, i: nat)
    ensures CellAfter(CellAfter(CellAfter(CellAfter(cell, Erase(a / SECTOR_SIZE), i), Program(a, e.otaSeq), i),
                                Program(a + 4, e.otaState), i), Program(a + 8, e.crc), i)
            == CellAfterWrite(cell, a, e, i)
  {
    hide WordLe, And;
    var erased := CellAfter(cell, Erase(a / SECTOR_SIZE), i);
    if a <= i < a + 12 {
      RecordByte(e, i - a);
    }
  }

  lemma RecordByte(e: OtaEntry, k: nat)
    requires k < 12
    ensures EntryBytes(e)[k] == if k < 4 then WordLe(e.otaSeq)[k] else if k < 8 then WordLe(e.otaState)[k - 4] else WordLe(e.crc)[k - 8]
  {
    hide WordLe;
  }

  // -------------------------------------------------------------------------
  // Records by their bytes
  // -------------------------------------------------------------------------

  /** The CRC of sequence number 1. */
  lemma CrcOfOne()
    ensures SeqCrc(1) == 0x6607_4786
  {
    hide Register, WordLe;
    SmallWords();
    OneValue(WordLe(1));
  }

  lemma SmallWords()
    ensures WordLe(0) == [0, 0, 0, 0] && WordLe(1) == [1, 0, 0, 0] && WordLe(2) == [2, 0, 0, 0]
    ensures WordLe(3) == [3, 0, 0, 0] && WordLe(4) == [4, 0, 0, 0]
    ensures WordLe(0x6607_4786) == [0x86, 0x47, 0x07, 0x66]
    ensures WordLe(0xFFFF_FFFF) == [0xFF, 0xFF, 0xFF, 0xFF]
  {}

  /** A record is its three words' bytes, one behind the other. */
  lemma EntryIffBytes(mem: seq<byte>, a: nat, e: OtaEntry)
    requires a + ENTRY_SIZE <= |mem|
    ensures EntryAt(mem, a) == e <==> mem[a..a + 12] == EntryBytes(e)
  {
    hide LeWord, WordLe;
    var b := mem[a..a + 12];
    SliceOfSlice(mem, a, a + 12, 0, 4);
    SliceOfSlice(mem, a, a + 12, 4, 8);
    SliceOfSlice(mem, a, a + 12, 8, 12);
    WordLeOfLeWord(mem[a..a + 4]);
    WordLeOfLeWord(mem[a + 4..a + 8]);
    WordLeOfLeWord(mem[a + 8..a + 12]);
    LeWordOfWordLe(e.otaSeq);
    LeWordOfWordLe(e.otaState);
    LeWordOfWordLe(e.crc);
    assert b == mem[a..a + 4] + mem[a + 4..a + 8] + mem[a + 8..a + 12];
    assert EntryBytes(e)[..4] == WordLe(e.otaSeq) && EntryBytes(e)[4..8] == WordLe(e.otaState) && EntryBytes(e)[8..] == WordLe(e.crc);
  }
}
