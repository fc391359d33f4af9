/** Factory reset: erasing the data partitions a comma-separated list names. */
module FactoryReset {
  import opened Words
  import opened FlashOps
  import opened FlashDriver
  import opened BootTypes
  import opened OtaData
  import opened BootRecords
  import opened PartitionTable

  type Text = seq<byte>

  const COMMA: byte := 0x2C

  // -------------------------------------------------------------------------
  // Splitting and trimming the list
  // -------------------------------------------------------------------------

  /** ASCII white space. */
  predicate Blank(b: byte) { b == 0x20 || 0x09 <= b <= 0x0D }

  predicate AllBlank(s: Text) {
    forall i | 0 <= i < |s| :: Blank(s[i])
  }

  function Split(s: Text): (ps: seq<Text>)
    ensures |ps| > 0
    decreases |s|
  {
    if s == [] then [[]]
    else
      var ps, c := Split(s[..|s| - 1]), s[|s| - 1];
      if c == COMMA then ps + [[]] else ps[..|ps| - 1] + [ps[|ps| - 1] + [c]]
  }

  function Join(ps: seq<Text>): Text
    requires |ps| > 0
    decreases |ps|
  {
    if |ps| == 1 then ps[0] else Join(ps[..|ps| - 1]) + [COMMA] + ps[|ps| - 1]
  }

  predicate NoCommas(ps: seq<Text>) {
    forall i | 0 <= i < |ps| :: COMMA !in ps[i]
  }

  lemma JoinUnfolded(ps: seq<Text>, p: Text)
    requires |ps| > 0
    ensures Join(ps + [p]) == Join(ps) + [COMMA] + p
  {
    assert (ps + [p])[..|ps|] == ps;
  }

  /** A character behind the last piece is a character behind the joined text. */
  lemma JoinExtended(rest: seq<Text>, p: Text, c: byte)
    ensures Join(rest + [p + [c]]) == Join(rest + [p]) + [c]
  {
    if rest != [] {
      JoinUnfolded(rest, p + [c]);
      JoinUnfolded(rest, p);
    }
  }

  lemma SplitUnfolded(s: Text, c: byte)
    ensures var ps := Split(s);
            Split(s + [c]) == if c == COMMA then ps + [[]] else ps[..|ps| - 1] + [ps[|ps| - 1] + [c]]
  {
    assert (s + [c])[..|s|] == s;
  }

  lemma {:induction false} JoinOfSplit(s: Text)
    ensures NoCommas(Split(s)) && Join(Split(s)) == s
    decreases |s|
  {
    hide Join, Split;
    if s == [] {
      NoText();
    } else {
      var rest, c := s[..|s| - 1], s[|s| - 1];
      var ps := Split(rest);
      JoinOfSplit(rest);
      SplitUnfolded(rest, c);
      JoinUnfolded(ps, []);
      JoinExtended(ps[..|ps| - 1], ps[|ps| - 1], c);
      assert ps[..|ps| - 1] + [ps[|ps| - 1]] == ps;
      assert s == rest + [c];
    }
  }

  lemma NoText()
    ensures Split([]) == [[]] && Join([[]]) == []
  {}

  lemma {:induction false} SplitOfJoin(rest: seq<Text>, last: Text)
    requires NoCommas(rest + [last])
    ensures Split(Join(rest + [last])) == rest + [last]
    decreases |rest|, |last|
  {
    hide Join, Split;
    assert (rest + [last])[|rest|] == last;
    assert forall i | 0 <= i < |rest| :: (rest + [last])[i] == rest[i];
    if last != [] {
      var init, c := last[..|last| - 1], last[|last| - 1];
      assert last == init + [c];
      SplitOfJoin(rest, init);
      JoinExtended(rest, init, c);
      SplitUnfolded(Join(rest + [init]), c);
      assert (rest + [init])[..|rest|] == rest;
    } else if rest != [] {
      var n := |rest| - 1;
      assert rest == rest[..n] + [rest[n]];
      SplitOfJoin(rest[..n], rest[n]);
      JoinUnfolded(rest, []);
      SplitUnfolded(Join(rest), COMMA);
      assert Join(rest) + [COMMA] + [] == Join(rest) + [COMMA];
    } else {
      NoText();
      assert rest + [last] == [[]];
    }
  }

  /** The pieces are exactly the comma-free texts that the commas join into the list. */
  lemma SplitIff(s: Text, ps: seq<Text>)
    requires |ps| > 0
    ensures Split(s) == ps <==> NoCommas(ps) && Join(ps) == s
  {
    hide Join, Split;
    JoinOfSplit(s);
    if NoCommas(ps) {
      assert ps == ps[..|ps| - 1] + [ps[|ps| - 1]];
      SplitOfJoin(ps[..|ps| - 1], ps[|ps| - 1]);
    }
  }

  function TrimStart(s: Text): Text {
    if s != [] && Blank(s[0]) then TrimStart(s[1..]) else s
  }

  function TrimEnd(s: Text): Text
    decreases |s|
  {
    if s != [] && Blank(s[|s| - 1]) then TrimEnd(s[..|s| - 1]) else s
  }

  function Trim(s: Text): Text { TrimEnd(TrimStart(s)) }

  lemma {:induction false} TrimStartOf(a: Text, t: Text)
    requires AllBlank(a) && (t != [] ==> !Blank(t[0]))
    ensures TrimStart(a + t) == t
  {
    if a == [] {
      assert a + t == t;
    } else {
      assert (a + t)[0] == a[0];
      assert (a + t)[1..] == a[1..] + t;
      TrimStartOf(a[1..], t);
    }
  }

  lemma {:induction false} TrimEndOf(t: Text, b: Text)
    requires AllBlank(b) && (t != [] ==> !Blank(t[|t| - 1]))
    ensures TrimEnd(t + b) == t
    decreases |b|
  {
    if b == [] {
      assert t + b == t;
    } else {
      assert (t + b)[|t + b| - 1] == b[|b| - 1];
      assert (t + b)[..|t + b| - 1] == t + b[..|b| - 1];
      TrimEndOf(t, b[..|b| - 1]);
    }
  }

  /** Trimming removes the surrounding white space and nothing else. */
  lemma TrimOf(a: Text, t: Text, b: Text)
    requires AllBlank(a) && AllBlank(b)
    requires t != [] && !Blank(t[0]) && !Blank(t[|t| - 1])
    ensures Trim(a + t + b) == t
  {
    assert a + t + b == a + (t + b);
    TrimStartOf(a, t + b);
    TrimEndOf(t, b);
  }

  /** Some piece of the list, trimmed, is the label; empty pieces name nothing. */
  predicate Listed(tag: Text, labels: Text) {
    tag != [] && exists k | 0 <= k < |Split(labels)| :: Trim(Split(labels)[k]) == tag
  }

  const NVS: Text := [0x6E, 0x76, 0x73]
  const PHY: Text := [0x70, 0x68, 0x79]
  const OTADATA: Text := [0x6F, 0x74, 0x61, 0x64, 0x61, 0x74, 0x61]

  /** `"nvs, phy, otadata"` */
  const RESET_LABELS: Text := NVS + [COMMA, 0x20] + PHY + [COMMA, 0x20] + OTADATA

  lemma JoinOfOne(p: Text)
    ensures Join([p]) == p
  {}

  lemma ResetPieces()
    ensures Split(RESET_LABELS) == [NVS, [0x20] + PHY, [0x20] + OTADATA]
  {
    hide Join, Split;
    var a, b, c := NVS, [0x20] + PHY, [0x20] + OTADATA;
    JoinUnfolded([a], b);
    JoinUnfolded([a, b], c);
    JoinOfOne(a);
    assert [a] + [b] == [a, b] && [a, b] + [c] == [a, b, c];
    assert a + [COMMA] + b + [COMMA] + c == RESET_LABELS;
    SplitIff(RESET_LABELS, [a, b, c]);
  }

  /** The list a factory reset passes names exactly three labels. */
  lemma ResetListNames(tag: Text)
    ensures Listed(tag, RESET_LABELS) <==> tag == NVS || tag == PHY || tag == OTADATA
  {
    hide Split, Trim;
    var ps := [NVS, [0x20] + PHY, [0x20] + OTADATA];
    ResetPieces();
    TrimOf([], NVS, []);
    TrimOf([0x20], PHY, []);
    TrimOf([0x20], OTADATA, []);
    assert [] + NVS + [] == NVS && [0x20] + PHY + [] == ps[1] && [0x20] + OTADATA + [] == ps[2];
    assert Trim(ps[0]) == NVS && Trim(ps[1]) == PHY && Trim(ps[2]) == OTADATA;
  }

  // -------------------------------------------------------------------------
  // Matching entries
  // -------------------------------------------------------------------------

  /** The label up to its first NUL. */
  function LabelOf(name: seq<byte>): (tag: Text)
    ensures 0 !in tag && tag <= name
    ensures |tag| < |name| ==> name[|tag|] == 0
    decreases |name|
  {
    if name == [] then []
    else
      var tag := LabelOf(name[..|name| - 1]);
      if |tag| == |name| - 1 && name[|name| - 1] != 0 then name else tag
  }

  predicate Matches(e: PartitionInfo, labels: Text) {
    e.kind == TYPE_DATA && Listed(LabelOf(e.name), labels)
  }

  predicate AnyMatches(es: seq<PartitionInfo>, labels: Text) {
    exists e | e in es :: Matches(e, labels)
  }

  method LabelListed(tag: Text, labels: Text) returns (found: bool)
    ensures found <==> Listed(tag, labels)
  {
    hide Split, Trim;
    var pieces := Split(labels);
    for k := 0 to |pieces|
      invariant tag != [] ==> forall j | 0 <= j < k :: Trim(pieces[j]) != tag
    {
      var piece := Trim(pieces[k]);
      if piece == [] {
        continue;
      }
      if |tag| != |piece| {
        continue;
      }
      if tag == piece {
        return true;
      }
    }
    found := false;
  }

  // -------------------------------------------------------------------------
  // Erasing them
  // -------------------------------------------------------------------------

  function WipeOne(e: PartitionInfo, labels: Text, chip: nat): seq<FlashOp> {
    if Matches(e, labels) then ErasesIn(e.pos.offset, e.pos.size, chip) else []
  }

  function WipeOps(es: seq<PartitionInfo>, labels: Text, chip: nat): seq<FlashOp>
    decreases |es|
  {
    if es == [] then [] else WipeOps(es[..|es| - 1], labels, chip) + WipeOne(es[|es| - 1], labels, chip)
  }

  /** What erasing by label performs on a chip; without a readable table, nothing. */
  function WipeFor(mem: seq<byte>, labels: Text): seq<FlashOp> {
    if TABLE_OFFSET + TABLE_MAX_LEN <= |mem| then WipeOps(TableIn(mem), labels, |mem|) else []
  }

  lemma OneMoreWiped(es: seq<PartitionInfo>, e: PartitionInfo, labels: Text, chip: nat)
    ensures AnyMatches(es + [e], labels) <==> AnyMatches(es, labels) || Matches(e, labels)
    ensures WipeOps(es + [e], labels, chip) == WipeOps(es, labels, chip) + WipeOne(e, labels, chip)
  {
    hide Matches, WipeOne;
    assert (es + [e])[..|es|] == es && (es + [e])[|es|] == e;
    assert forall x :: x in es + [e] <==> x in es || x == e;
  }

  lemma NothingWiped(labels: Text, chip: nat)
    ensures !AnyMatches([], labels) && WipeOps([], labels, chip) == []
  {}

  /** Reading entry `i` of the mapped table. */
  lemma MappedEntry(buf: seq<byte>, mem: seq<byte>, i: nat)
    requires i < MAX_PARTITIONS
    requires |buf| >= TABLE_MAX_LEN && TABLE_OFFSET + TABLE_MAX_LEN <= |mem|
    requires buf[..TABLE_MAX_LEN] == mem[TABLE_OFFSET..TABLE_OFFSET + TABLE_MAX_LEN]
    ensures EntryOf(buf[i * ENTRY_LEN..(i + 1) * ENTRY_LEN])
            == EntriesOf(mem[TABLE_OFFSET..TABLE_OFFSET + MAX_PARTITIONS * ENTRY_LEN])[i]
  {
    hide EntryOf;
    var lo, hi := i * ENTRY_LEN, (i + 1) * ENTRY_LEN;
    assert hi <= MAX_PARTITIONS * ENTRY_LEN;
    TableInBuffer(buf, mem);
    SliceOfSlice(buf, 0, MAX_PARTITIONS * ENTRY_LEN, lo, hi);
    assert buf[0..MAX_PARTITIONS * ENTRY_LEN] == buf[..MAX_PARTITIONS * ENTRY_LEN];
  }

  /** Entry `i`, through the pointer. */
  method ReadMapped(addr: array<byte>, ghost mem: seq<byte>, i: nat) returns (e: PartitionInfo)
    requires i < MAX_PARTITIONS
    requires addr.Length >= TABLE_MAX_LEN && TABLE_OFFSET + TABLE_MAX_LEN <= |mem|
    requires addr[..TABLE_MAX_LEN] == mem[TABLE_OFFSET..TABLE_OFFSET + TABLE_MAX_LEN]
    ensures e == EntriesOf(mem[TABLE_OFFSET..TABLE_OFFSET + MAX_PARTITIONS * ENTRY_LEN])[i]
  {
    hide EntryOf;
    MappedEntry(addr[..], mem, i);
    assert addr[i * ENTRY_LEN..(i + 1) * ENTRY_LEN] == addr[..][i * ENTRY_LEN..(i + 1) * ENTRY_LEN];
    e := EntryOf(addr[i * ENTRY_LEN..(i + 1) * ENTRY_LEN]);
  }

  /** One entry of the loop. */
  method WipeEntry(flash: Flash, e: PartitionInfo, labels: Text, doErase: bool) returns (matched: bool)
    requires flash.Valid()
    modifies flash`mem, flash`log
    ensures flash.Valid() && |flash.mem| == |old(flash.mem)|
    ensures matched <==> Matches(e, labels)
    ensures Performed(old(flash.mem), old(flash.log), flash.mem, flash.log,
                      if doErase then WipeOne(e, labels, |old(flash.mem)|) else [])
  {
    hide Performed, Listed, LabelOf, ErasesIn;
    PerformedNothing(flash.mem, flash.log);
    if e.kind != TYPE_DATA {
      return false;
    }
    matched := LabelListed(LabelOf(e.name), labels);
    if matched && doErase {
      var _ := flash.EraseRange(e.pos.offset, e.pos.size);
      PerformedLength(old(flash.mem), old(flash.log), flash.mem, flash.log, WipeOne(e, labels, |old(flash.mem)|));
    }
  }

  /** `bootloader_common_erase_part_type_data`.  The table is read through the mapping while the
      flash under it is being erased; when it cannot be read, nothing happens. */
  method ErasePartTypeData(flash: Flash, labels: Text, doErase: bool) returns (found: bool, ghost readOk: bool)
    requires flash.Valid() && !flash.encrypted && !flash.mapped
    modifies flash, flash.buf
    ensures flash.Valid() && !flash.mapped
    ensures flash.Reliable() ==> readOk
    ensures found <==> readOk && TABLE_OFFSET + TABLE_MAX_LEN <= |old(flash.mem)| && AnyMatches(TableIn(old(flash.mem)), labels)
    ensures Performed(old(flash.mem), old(flash.log), flash.mem, flash.log,
                      if readOk && doErase then WipeFor(old(flash.mem), labels) else [])
  {
    hide Flash.Valid, Performed, EntryOf, EntriesOf, UsedFrom, AnyMatches, Matches, WipeOps, WipeOne;
    NothingWiped(labels, |flash.mem|);
    PerformedNothing(flash.mem, flash.log);
    var addr := flash.Mmap(TABLE_OFFSET, TABLE_MAX_LEN);
    if addr == null {
      return false, TABLE_OFFSET + TABLE_MAX_LEN > |flash.mem|;
    }
    ghost var mem, log, table, ops := flash.mem, flash.log, TableIn(flash.mem), [];
    ghost var es := EntriesOf(mem[TABLE_OFFSET..TABLE_OFFSET + MAX_PARTITIONS * ENTRY_LEN]);
    found, readOk := false, true;
    var i := 0;
    while i < MAX_PARTITIONS
      invariant i <= |table| && |flash.mem| == |mem| && flash.Valid()
      invariant Performed(mem, log, flash.mem, flash.log, ops)
      invariant found <==> AnyMatches(table[..i], labels)
      invariant ops == if doErase then WipeOps(table[..i], labels, |mem|) else []
      modifies flash`mem, flash`log
    {
      var e := ReadMapped(addr, mem, i);
      if e.magic != PARTITION_MAGIC {
        break;
      }
      ghost var mid, midLog := flash.mem, flash.log;
      var matched := WipeEntry(flash, e, labels, doErase);
      ghost var more := if doErase then WipeOne(e, labels, |mem|) else [];
      PerformedThen(mem, log, mid, midLog, ops, flash.mem, flash.log, more);
      OneMoreWiped(table[..i], e, labels, |mem|);
      assert table[..i + 1] == table[..i] + [e];
      found := found || matched;
      ops := ops + more;
      i := i + 1;
    }
    assert table[..i] == table;
    flash.Munmap();
  }

  // -------------------------------------------------------------------------
  // What is erased, and what is left
  // -------------------------------------------------------------------------

  /** Whole sectors of the chip. */
  predicate WholeSectors(pos: PartitionPos, chip: nat) {
    pos.offset % SECTOR_SIZE == 0 && pos.size % SECTOR_SIZE == 0 && pos.offset + pos.size <= chip
  }

  predicate In(i: nat, pos: PartitionPos) { pos.offset <= i < pos.offset + pos.size }

  lemma RangeErased(mem: seq<byte>, pos: PartitionPos, i: nat)
    requires WholeSectors(pos, |mem|) && |mem| <= MAX_CHIP && i < |mem|
    ensures ApplyAll(mem, ErasesIn(pos.offset, pos.size, |mem|))[i] == if In(i, pos) then 0xFF else mem[i]
  {
    var n := SectorsFor(pos.size);
    assert Add32(pos.size, SECTOR_SIZE - 1) == pos.size + (SECTOR_SIZE - 1);
    assert n * SECTOR_SIZE == pos.size && pos.offset / SECTOR_SIZE * SECTOR_SIZE == pos.offset;
    assert (pos.offset / SECTOR_SIZE + n) * SECTOR_SIZE == pos.offset + pos.size;
    ErasePrefix(mem, pos.offset, pos.size, n, i);
    assert ErasesIn(pos.offset, pos.size, |mem|) == EraseOps(pos.offset, pos.size)[..n];
  }

  /** Cell `i` belongs to a data partition the list names. */
  predicate Named(es: seq<PartitionInfo>, labels: Text, i: nat) {
    exists e | e in es :: Matches(e, labels) && In(i, e.pos)
  }

  predicate MatchesWhole(es: seq<PartitionInfo>, labels: Text, chip: nat) {
    forall e | e in es && Matches(e, labels) :: WholeSectors(e.pos, chip)
  }

  /** The operations erase every cell of the named data partitions and leave every other cell. */
  lemma {:induction false} WipeIsExact(mem: seq<byte>, es: seq<PartitionInfo>, labels: Text, i: nat)
    requires MatchesWhole(es, labels, |mem|) && |mem| <= MAX_CHIP && i < |mem|
    ensures ApplyAll(mem, WipeOps(es, labels, |mem|))[i] == if Named(es, labels, i) then 0xFF else mem[i]
    decreases |es|
  {
    hide Matches, WholeSectors, In, ErasesIn;
    if es == [] {
      NothingWiped(labels, |mem|);
    } else {
      var rest, e := es[..|es| - 1], es[|es| - 1];
      assert es == rest + [e];
      WipeIsExact(mem, rest, labels, i);
      OneMoreWiped(rest, e, labels, |mem|);
      ApplyAllConcat(mem, WipeOps(rest, labels, |mem|), WipeOne(e, labels, |mem|));
      if Matches(e, labels) {
        assert e in es;
        RangeErased(ApplyAll(mem, WipeOps(rest, labels, |mem|)), e.pos, i);
      }
      assert Named(es, labels, i) <==> Named(rest, labels, i) || (Matches(e, labels) && In(i, e.pos)) by {
        assert forall x :: x in es <==> x in rest || x == e;
      }
    }
  }

  lemma BlankRecord(mem: seq<byte>, a: nat)
    requires a + ENTRY_SIZE <= |mem| && forall i | a <= i < a + ENTRY_SIZE :: mem[i] == 0xFF
    ensures EntryAt(mem, a) == BLANK
  {
    hide LeWord;
    assert mem[a..a + 4] == [0xFF, 0xFF, 0xFF, 0xFF];
    assert mem[a + 4..a + 8] == [0xFF, 0xFF, 0xFF, 0xFF];
    assert mem[a + 8..a + 12] == [0xFF, 0xFF, 0xFF, 0xFF];
    AllOnesWord();
  }

  lemma BlankNeverChosen()
    ensures Chosen(BLANK, BLANK) == -1 && BLANK.otaState != IMG_PENDING_VERIFY
  {
    hide Chosen, SeqCrc;
    ChosenIsGreatestSettled(BLANK, BLANK);
  }

  /** After a factory reset whose list names the OTA-info partition, selection returns the factory
      partition and has no record to roll back. */
  lemma ResetSelectsFactory(mem: seq<byte>, bs: BootTable, es: seq<PartitionInfo>, e: PartitionInfo)
    requires bs.Valid() && |mem| <= MAX_CHIP && MatchesWhole(es, RESET_LABELS, |mem|)
    requires e in es && e.kind == TYPE_DATA && LabelOf(e.name) == OTADATA && e.pos == bs.otaInfo
    ensures var after := ApplyAll(mem, WipeOps(es, RESET_LABELS, |mem|));
            SelectedIndex(after, bs) == FACTORY_INDEX && SelectWrites(after, bs) == []
  {
    hide MatchesWhole, WipeOps, LabelOf, EntryAt, Chosen, IndexOfSeq, Rollback, ApplyAll, Listed;
    var after := ApplyAll(mem, WipeOps(es, RESET_LABELS, |mem|));
    if Readable(after, bs.otaInfo) {
      ResetListNames(OTADATA);
      WipedRecords(mem, bs.otaInfo, es, e);
      BlankNeverChosen();
    }
  }

  lemma WipedRecords(mem: seq<byte>, info: PartitionPos, es: seq<PartitionInfo>, e: PartitionInfo)
    requires |mem| <= MAX_CHIP && MatchesWhole(es, RESET_LABELS, |mem|)
    requires e in es && Matches(e, RESET_LABELS) && e.pos == info
    requires Readable(mem, info)
    ensures var after := ApplyAll(mem, WipeOps(es, RESET_LABELS, |mem|));
            Record(after, info, 0) == BLANK && Record(after, info, 1) == BLANK
  {
    hide Matches, MatchesWhole, WipeOps, EntryAt, ApplyAll;
    var after := ApplyAll(mem, WipeOps(es, RESET_LABELS, |mem|));
    forall i | 0 <= i < |mem| && In(i, info)
      ensures after[i] == 0xFF
    {
      WipeIsExact(mem, es, RESET_LABELS, i);
    }
    BlankRecord(after, info.offset);
    BlankRecord(after, info.offset + SECTOR_SIZE);
  }
}
