/** `process_image`: one bounce buffer, a running checksum, a pooled SHA-256 context, RAM copies and
    many early exits, proved against `ImageFormat`. */
module ImageLoad {
  import opened Words
  import opened Wrappers
  import opened FlashOps
  import opened FlashDriver
  import opened ImageFormat
  import F = Fips180
  import S = Sha256Streaming

  // -------------------------------------------------------------------------
  // RAM as far as the loader has written it
  // -------------------------------------------------------------------------

  function ByteFor(data: seq<byte>, at: nat, a: nat): byte
    requires at <= a < at + |data|
  {
    data[a - at]
  }

  function Stored(cells: map<nat, byte>, at: nat, data: seq<byte>): map<nat, byte> {
    cells + map a: nat | at <= a < at + |data| :: ByteFor(data, at, a)
  }

  function AfterSegment(cells: map<nat, byte>, s: Segment): map<nat, byte> {
    if ShouldLoad(s.loadAddr) then Stored(cells, s.loadAddr, s.data) else cells
  }

  function AfterSegments(cells: map<nat, byte>, ss: seq<Segment>): map<nat, byte>
    decreases |ss|
  {
    if ss == [] then cells else AfterSegment(AfterSegments(cells, ss[..|ss| - 1]), ss[|ss| - 1])
  }

  /** The running bootloader's code and data. */
  predicate Protected(a: nat, env: Env) {
    env.stext <= a < env.etext || env.dataStart <= a < env.bssEnd
  }

  ghost predicate Safe(cells: map<nat, byte>, env: Env) {
    forall a | a in cells :: !Protected(a, env)
  }

  class Ram {
    var cells: map<nat, byte>

    method CopyFrom(src: array<byte>, at: nat, len: nat)
      requires len <= src.Length
      modifies this
      ensures cells == Stored(old(cells), at, src[..len])
    {
      cells := Stored(cells, at, src[..len]);
    }
  }

  /** The range test on the wrapped end, the size limit of the mapping and the load regions together
      keep every stored byte away from the bootloader. */
  lemma AdmissibleStoreIsSafe(cells: map<nat, byte>, s: Segment, env: Env)
    requires Safe(cells, env)
    requires Admissible(s, env) && |s.data| <= MAX_SEGMENT_DATA
    ensures Safe(AfterSegment(cells, s), env)
  {
    if ShouldLoad(s.loadAddr) {
      assert Add32(s.loadAddr, |s.data| % TWO_TO_THE_32) == s.loadAddr + |s.data|;
    }
  }

  // -------------------------------------------------------------------------
  // Metadata, reused from one attempt to the next
  // -------------------------------------------------------------------------

  datatype SegmentHeader = SegmentHeader(loadAddr: u32, dataLen: u32)

  class EspImageMetadata {
    var startAddr: u32
    var image: HeaderBytes
    var segments: seq<SegmentHeader>
    var segmentData: seq<u32>
    var imageLen: u32
    var imageDigest: seq<byte>

    predicate Valid()
      reads this
    {
      |segments| == MAX_SEGMENTS && |segmentData| == MAX_SEGMENTS
    }

    constructor ()
      ensures Valid()
    {
      startAddr, imageLen := 0, 0;
      image := seq(24, i => 0);
      segments := seq(MAX_SEGMENTS, i => SegmentHeader(0, 0));
      segmentData := seq(MAX_SEGMENTS, i => 0);
      imageDigest := seq(HASH_LEN, i => 0);
    }
  }

  // -------------------------------------------------------------------------
  // One segment's payload
  // -------------------------------------------------------------------------

  /** The loader's objects are separate, idle and consistent. */
  ghost predicate Ready(flash: Flash, pool: S.Sha256Pool)
    reads flash, pool.Repr()
  {
    && flash.Valid() && |flash.mem| <= MAX_CHIP && flash.buf.Length == MMAP_BUF_SIZE
    && !flash.encrypted && !flash.mapped
    && pool.Valid()
    && flash !in pool.Repr() && flash.buf !in pool.Repr()
  }

  /** The byte-wise checksum loop. */
  method XorBytes(seed: byte, data: array<byte>, len: nat) returns (sum: byte)
    requires len <= data.Length
    ensures sum == XorAll(seed, data[..len])
  {
    hide XorByte;
    sum := seed;
    for k := 0 to len
      invariant sum == XorAll(seed, data[..k])
    {
      assert data[..k + 1][..k] == data[..k];
      sum := XorByte(sum, data[k]);
    }
  }

  lemma EmptyPayload(cells: map<nat, byte>, at: nat, seed: byte)
    ensures XorAll(seed, []) == seed
    ensures Stored(cells, at, []) == cells
  {}

  /** Map the payload, fold it into the checksum, feed it to the hash, copy it to RAM. */
  method ProcessSegmentData(flash: Flash, pool: S.Sha256Pool, ram: Ram, loadAddr: u32, dataAddr: u32, dataLen: u32,
                            doLoad: bool, h: S.Sha256Context?, checksum: byte)
    returns (ok: bool, sum: byte)
    requires Ready(flash, pool) && ram !in pool.Repr()
    requires h != null ==> pool.Live(h)
    requires 0 < dataAddr <= |flash.mem|
    modifies flash`readCount, flash`mapped, flash`mappedSize, flash`readMapping, flash`window, flash.buf, pool.Repr(), ram
    ensures Ready(flash, pool) && pool.FreeSlots() == old(pool.FreeSlots()) && (h != null ==> pool.Live(h))
    ensures ok ==> dataLen <= MAX_SEGMENT_DATA && dataAddr + dataLen <= |flash.mem|
    ensures ok ==> var data := flash.mem[dataAddr..dataAddr + dataLen];
                   && sum == XorAll(checksum, data)
                   && (h != null ==> h.Absorbed() == old(h.Absorbed()) + data)
                   && ram.cells == if doLoad then Stored(old(ram.cells), loadAddr, data) else old(ram.cells)
    ensures !ok ==> ram.cells == old(ram.cells) && (h != null ==> h.Absorbed() == old(h.Absorbed()))
    ensures flash.Reliable() && dataLen <= MAX_SEGMENT_DATA && dataAddr + dataLen <= |flash.mem| ==> ok
  {
    hide Flash.Valid, S.Sha256Context.Valid, S.Sha256Pool.Valid, S.Sha256Pool.Live, S.Sha256Pool.FreeSlots, Stored, XorAll, StaysInWindow;
    sum := checksum;
    if dataLen == 0 {
      EmptyPayload(ram.cells, loadAddr, checksum);
      assert flash.mem[dataAddr..dataAddr + dataLen] == [];
      return true, sum;
    }
    var data := flash.Mmap(dataAddr, dataLen);
    if data == null {
      return false, sum;
    }
    sum := XorBytes(checksum, data, dataLen);
    if h != null {
      pool.Data(h, data, dataLen);
    }
    if doLoad {
      ram.CopyFrom(data, loadAddr, dataLen);
    }
    flash.Munmap();
    ok := true;
  }

  const MAX_SEGMENT_LEN: nat := SEGMENT_HEADER_SIZE + MAX_SEGMENT_DATA

  // -------------------------------------------------------------------------
  // One segment
  // -------------------------------------------------------------------------

  /** Map a segment header, take its fields, release the mapping, and only then hash the header
      through the pointer. */
  method ReadSegmentHeader(flash: Flash, pool: S.Sha256Pool, h: S.Sha256Context?, nextAddr: u32)
    returns (ok: bool, header: SegmentHeader)
    requires Ready(flash, pool) && (h != null ==> pool.Live(h)) && 0 < nextAddr
    modifies flash`readCount, flash`mapped, flash`mappedSize, flash`readMapping, flash`window, flash.buf, pool.Repr()
    ensures Ready(flash, pool) && pool.FreeSlots() == old(pool.FreeSlots()) && (h != null ==> pool.Live(h))
    ensures ok ==> nextAddr + SEGMENT_HEADER_SIZE <= |flash.mem|
    ensures ok ==> header == SegmentHeader(LeU32(flash.mem[nextAddr..nextAddr + 4]), LeU32(flash.mem[nextAddr + 4..nextAddr + 8]))
    ensures ok && h != null ==> h.Absorbed() == old(h.Absorbed()) + flash.mem[nextAddr..nextAddr + SEGMENT_HEADER_SIZE]
    ensures !ok && h != null ==> h.Absorbed() == old(h.Absorbed())
    ensures flash.Reliable() && nextAddr + SEGMENT_HEADER_SIZE <= |flash.mem| ==> ok
  {
    hide Flash.Valid, S.Sha256Context.Valid, S.Sha256Pool.Valid, S.Sha256Pool.Live, S.Sha256Pool.FreeSlots, LeU32;
    var shPtr := flash.Mmap(nextAddr, SEGMENT_HEADER_SIZE);
    if shPtr == null {
      return false, SegmentHeader(0, 0);
    }
    HeaderFields(shPtr[..], flash.mem, nextAddr);
    header := SegmentHeader(LeU32(shPtr[..][0..4]), LeU32(shPtr[..][4..8]));
    flash.Munmap();
    if h != null {
      pool.Data(h, shPtr, SEGMENT_HEADER_SIZE);
    }
    ok := true;
  }

  /** The fields read from the buffer are those of the segment header in flash. */
  lemma HeaderFields(buf: seq<byte>, mem: seq<byte>, a: nat)
    requires |buf| >= 8 && a + 8 <= |mem| && buf[..8] == mem[a..a + 8]
    ensures LeU32(buf[0..4]) == LeU32(mem[a..a + 4])
    ensures LeU32(buf[4..8]) == LeU32(mem[a + 4..a + 8])
  {
    hide LeU32;
    SliceOfSlice(buf, 0, 8, 0, 4);
    SliceOfSlice(buf, 0, 8, 4, 8);
    SliceOfSlice(mem, a, a + 8, 0, 4);
    SliceOfSlice(mem, a, a + 8, 4, 8);
  }

  /** The segment a header in flash announces: it parses exactly when the mapping limit and the chip
      allow its payload, and then prints back to the bytes it came from. */
  lemma AnnouncedSegment(mem: seq<byte>, a: nat, header: SegmentHeader)
    requires a + SEGMENT_HEADER_SIZE <= |mem|
    requires header == SegmentHeader(LeU32(mem[a..a + 4]), LeU32(mem[a + 4..a + 8]))
    ensures ParseSegment(mem, a).Some?
            <==> header.dataLen <= MAX_SEGMENT_DATA && a + SEGMENT_HEADER_SIZE + header.dataLen <= |mem|
    ensures ParseSegment(mem, a).Some? ==>
              var s := ParseSegment(mem, a).value;
              && s == Segment(header.loadAddr, mem[a + 8..a + 8 + header.dataLen])
              && |PrintSegment(s)| == SEGMENT_HEADER_SIZE + header.dataLen
              && mem[a..a + 8] + s.data == PrintSegment(s)
  {
    hide LeU32, U32Le;
    U32LeOfLeU32(mem[a..a + 4]);
    U32LeOfLeU32(mem[a + 4..a + 8]);
    assert mem[a..a + 8] == mem[a..a + 4] + mem[a + 4..a + 8];
  }

  /** The body of the segment loop: header, hash, address check, payload. */
  method ProcessSegment(flash: Flash, pool: S.Sha256Pool, ram: Ram, env: Env, load: bool,
                        nextAddr: u32, h: S.Sha256Context?, checksum: byte)
    returns (ok: bool, header: Option<SegmentHeader>, sum: byte, ghost seg: Segment)
    requires Ready(flash, pool) && ram !in pool.Repr() && 0 < nextAddr
    requires h != null ==> pool.Live(h)
    requires Safe(ram.cells, env)
    modifies flash`readCount, flash`mapped, flash`mappedSize, flash`readMapping, flash`window, flash.buf, pool.Repr(), ram
    ensures Ready(flash, pool) && pool.FreeSlots() == old(pool.FreeSlots()) && (h != null ==> pool.Live(h))
    ensures Safe(ram.cells, env)
    ensures ok ==>
      && ParseSegment(flash.mem, nextAddr) == Some(seg) && (load ==> Admissible(seg, env))
      && header == Some(SegmentHeader(seg.loadAddr, |seg.data|))
      && sum == XorAll(checksum, seg.data)
      && ram.cells == (if load then AfterSegment(old(ram.cells), seg) else old(ram.cells))
    ensures ok && h != null ==> h.Absorbed() == old(h.Absorbed()) + PrintSegment(seg)
    ensures h != null ==> |h.Absorbed()| <= |old(h.Absorbed())| + MAX_SEGMENT_LEN
    ensures (flash.Reliable() && ParseSegment(flash.mem, nextAddr).Some?
             && (load ==> Admissible(ParseSegment(flash.mem, nextAddr).value, env))) ==> ok
  {
    hide Flash.Valid, S.Sha256Context.Valid, S.Sha256Pool.Valid, S.Sha256Pool.Live, S.Sha256Pool.FreeSlots, LoadAddressesOk, ShouldLoad, XorAll, LeU32, Stored, ParseSegment, PrintSegment, Safe;
    seg, sum, header := Segment(0, []), checksum, None;
    var sh;
    ok, sh := ReadSegmentHeader(flash, pool, h, nextAddr);
    if !ok {
      assert !flash.Reliable() || ParseSegment(flash.mem, nextAddr).None? by { ParseNeedsHeader(flash.mem, nextAddr); }
      return;
    }
    header := Some(sh);
    AnnouncedSegment(flash.mem, nextAddr, sh);
    var dataAddr := Add32(nextAddr, SEGMENT_HEADER_SIZE);
    var doLoad := load && ShouldLoad(sh.loadAddr);
    if doLoad && !LoadAddressesOk(sh.loadAddr, Add32(sh.loadAddr, sh.dataLen), env) {
      return false, header, sum, seg;
    }
    ok, sum := ProcessSegmentData(flash, pool, ram, sh.loadAddr, dataAddr, sh.dataLen, doLoad, h, checksum);
    if !ok {
      return;
    }
    seg := ParseSegment(flash.mem, nextAddr).value;
    if load {
      AdmissibleStoreIsSafe(old(ram.cells), seg, env);
    }
  }

  lemma ParseNeedsHeader(mem: seq<byte>, a: nat)
    ensures ParseSegment(mem, a).Some? ==> a + SEGMENT_HEADER_SIZE <= |mem|
  {}

  // -------------------------------------------------------------------------
  // All segments
  // -------------------------------------------------------------------------

  function DataAddr(at: nat, ss: seq<Segment>, k: nat): nat
    requires SmallSegments(ss) && k < |ss|
  {
    at + HEADER_SIZE + |PrintSegments(ss[..k])| + SEGMENT_HEADER_SIZE
  }

  /** Table entry `k` describes segment `k` of the image at `at`. */
  predicate RecordedAt(header: SegmentHeader, addr: u32, at: nat, ss: seq<Segment>, k: nat)
    requires SmallSegments(ss) && k < |ss|
  {
    header == SegmentHeader(ss[k].loadAddr, |ss[k].data|) && addr == DataAddr(at, ss, k)
  }

  /** The metadata tables describe the segments `ss` of the image at `at`. */
  predicate Recorded(segments: seq<SegmentHeader>, segmentData: seq<u32>, at: nat, ss: seq<Segment>)
    requires SmallSegments(ss)
  {
    && |ss| <= |segments| && |ss| <= |segmentData|
    && forall k | 0 <= k < |ss| :: RecordedAt(segments[k], segmentData[k], at, ss, k)
  }

  predicate AllAdmissible(ss: seq<Segment>, env: Env) {
    forall i | 0 <= i < |ss| :: Admissible(ss[i], env)
  }

  /** A prefix of a parse is a parse, and the next element is what parses next. */
  lemma {:induction false} ParsePrefix(mem: seq<byte>, a: nat, n: nat, i: nat)
    requires i <= n && ParseSegments(mem, a, n).Some?
    ensures var full := ParseSegments(mem, a, n).value;
            && ParseSegments(mem, a, i) == Some(full[..i])
            && (i < n ==> ParseSegment(mem, a + |PrintSegments(full[..i])|) == Some(full[i]))
    decreases n
  {
    hide ParseSegment, PrintSegments;
    var full := ParseSegments(mem, a, n).value;
    if i == n {
      assert full[..n] == full;
    } else {
      ParsePrefix(mem, a, n - 1, i);
      var rest := ParseSegments(mem, a, n - 1).value;
      assert full[..n - 1] == rest;
      assert full[..i] == rest[..i];
    }
  }

  lemma RecordedAtExtends(header: SegmentHeader, addr: u32, at: nat, ss: seq<Segment>, s: Segment, k: nat)
    requires SmallSegments(ss) && |s.data| <= MAX_SEGMENT_DATA && k < |ss|
    requires RecordedAt(header, addr, at, ss, k)
    ensures SmallSegments(ss + [s]) && RecordedAt(header, addr, at, ss + [s], k)
  {
    hide PrintSegments;
    assert (ss + [s])[..k] == ss[..k];
  }

  lemma RecordedLast(at: nat, ss: seq<Segment>, s: Segment, addr: u32)
    requires SmallSegments(ss) && |s.data| <= MAX_SEGMENT_DATA
    requires addr == at + HEADER_SIZE + |PrintSegments(ss)| + SEGMENT_HEADER_SIZE
    ensures SmallSegments(ss + [s])
    ensures RecordedAt(SegmentHeader(s.loadAddr, |s.data|), addr, at, ss + [s], |ss|)
  {
    hide PrintSegments;
    assert (ss + [s])[..|ss|] == ss;
  }

  lemma RecordedOneMore(segments: seq<SegmentHeader>, segmentData: seq<u32>, at: nat, ss: seq<Segment>, s: Segment, addr: u32)
    requires SmallSegments(ss) && |s.data| <= MAX_SEGMENT_DATA
    requires |ss| < |segments| == |segmentData|
    requires Recorded(segments, segmentData, at, ss)
    requires addr == at + HEADER_SIZE + |PrintSegments(ss)| + SEGMENT_HEADER_SIZE
    ensures SmallSegments(ss + [s])
    ensures Recorded(segments[|ss| := SegmentHeader(s.loadAddr, |s.data|)], segmentData[|ss| := addr], at, ss + [s])
  {
    hide PrintSegments, RecordedAt;
    RecordedLast(at, ss, s, addr);
    forall k | 0 <= k < |ss|
      ensures RecordedAt(segments[k], segmentData[k], at, ss + [s], k)
    {
      RecordedAtExtends(segments[k], segmentData[k], at, ss, s, k);
    }
  }

  lemma AfterOneMore(cells: map<nat, byte>, ss: seq<Segment>, s: Segment)
    ensures AfterSegments(cells, ss + [s]) == AfterSegment(AfterSegments(cells, ss), s)
  {
    hide AfterSegment;
    assert (ss + [s])[..|ss|] == ss;
  }

  /** What the loop knows after the segments `ss`. */
  ghost predicate Progress(mem: seq<byte>, at: nat, ss: seq<Segment>, next: nat, sum: byte, env: Env, load: bool,
                           before: map<nat, byte>, cells: map<nat, byte>)
  {
    && at + HEADER_SIZE <= |mem|
    && ParseSegments(mem, at + HEADER_SIZE, |ss|) == Some(ss)
    && next == at + HEADER_SIZE + |PrintSegments(ss)| <= |mem|
    && sum == XorAll(CHECKSUM_SEED, Payload(ss))
    && (load ==> AllAdmissible(ss, env))
    && cells == (if load then AfterSegments(before, ss) else before)
  }

  lemma ProgressStart(mem: seq<byte>, at: nat, env: Env, load: bool, before: map<nat, byte>)
    requires at + HEADER_SIZE <= |mem|
    ensures Progress(mem, at, [], at + HEADER_SIZE, CHECKSUM_SEED, env, load, before, before)
  {}

  lemma ProgressEnd(mem: seq<byte>, at: nat, ss: seq<Segment>, next: nat, sum: byte, env: Env, load: bool,
                    before: map<nat, byte>, cells: map<nat, byte>)
    requires Progress(mem, at, ss, next, sum, env, load, before, cells)
    ensures SmallSegments(ss) && next == at + HEADER_SIZE + |PrintSegments(ss)| <= |mem|
  {}

  lemma ProgressStep(mem: seq<byte>, at: nat, ss: seq<Segment>, next: nat, sum: byte, env: Env, load: bool,
                     before: map<nat, byte>, cells: map<nat, byte>, s: Segment, after: map<nat, byte>)
    requires Progress(mem, at, ss, next, sum, env, load, before, cells)
    requires ParseSegment(mem, next) == Some(s) && (load ==> Admissible(s, env))
    requires after == if load then AfterSegment(cells, s) else cells
    ensures SmallSegments(ss) && |s.data| <= MAX_SEGMENT_DATA
    ensures |PrintSegment(s)| == SEGMENT_HEADER_SIZE + |s.data|
    ensures next + |PrintSegment(s)| <= |mem|
    ensures PrintSegments(ss + [s]) == PrintSegments(ss) + PrintSegment(s)
    ensures Progress(mem, at, ss + [s], next + |PrintSegment(s)|, XorAll(sum, s.data), env, load, before, after)
  {
    hide ParseSegment, Admissible, AfterSegment, PrintSegments, Payload, XorAll, AfterSegments;
    SegmentsSplit(mem, at + HEADER_SIZE, |ss| + 1, ss, s);
    PrintSegmentsLast(ss, s);
    XorAllConcat(CHECKSUM_SEED, Payload(ss), s.data);
    AfterOneMore(before, ss, s);
    ParsedSize(mem, next, s);
  }

  lemma ParsedSize(mem: seq<byte>, a: nat, s: Segment)
    requires ParseSegment(mem, a) == Some(s)
    ensures |s.data| <= MAX_SEGMENT_DATA && a + |PrintSegment(s)| <= |mem|
  {}

  /** When the next segment does not parse or may not be loaded, neither does the whole list. */
  lemma ProgressStuck(mem: seq<byte>, at: nat, ss: seq<Segment>, next: nat, sum: byte, env: Env, load: bool,
                      before: map<nat, byte>, cells: map<nat, byte>, n: nat)
    requires Progress(mem, at, ss, next, sum, env, load, before, cells) && |ss| < n
    requires ParseSegments(mem, at + HEADER_SIZE, n).Some?
    requires load ==> AllAdmissible(ParseSegments(mem, at + HEADER_SIZE, n).value, env)
    ensures ParseSegment(mem, next).Some? && (load ==> Admissible(ParseSegment(mem, next).value, env))
  {
    hide ParseSegment, Admissible, PrintSegments;
    ParsePrefix(mem, at + HEADER_SIZE, n, |ss|);
  }

  /** The metadata and the loop variables after the segments `ss`. */
  ghost predicate Walked(flash: Flash, ram: Ram, md: EspImageMetadata, env: Env, load: bool, at: nat, ss: seq<Segment>,
                         next: nat, sum: byte, before: map<nat, byte>)
    reads flash`mem, ram, md
  {
    && md.Valid() && Safe(ram.cells, env)
    && SmallSegments(ss)
    && Progress(flash.mem, at, ss, next, sum, env, load, before, ram.cells)
    && Recorded(md.segments, md.segmentData, at, ss)
    && md.imageLen == HEADER_SIZE + |PrintSegments(ss)|
  }

  /** One turn of the segment loop. */
  method SegmentTurn(flash: Flash, pool: S.Sha256Pool, ram: Ram, md: EspImageMetadata, env: Env, load: bool,
                     at: u32, n: nat, i: nat, nextAddr: u32, checksum: byte, h: S.Sha256Context?,
                     ghost ss: seq<Segment>, ghost before: map<nat, byte>)
    returns (ok: bool, next: u32, sum: byte, ghost seg: Segment)
    requires Ready(flash, pool) && ram !in pool.Repr() && md !in pool.Repr()
    requires |ss| == i < n <= MAX_SEGMENTS
    requires h != null ==> pool.Live(h)
    requires Walked(flash, ram, md, env, load, at, ss, nextAddr, checksum, before)
    modifies flash`readCount, flash`mapped, flash`mappedSize, flash`readMapping, flash`window, flash.buf, pool.Repr(), ram
    modifies md`segments, md`segmentData, md`imageLen
    ensures Ready(flash, pool) && pool.FreeSlots() == old(pool.FreeSlots()) && (h != null ==> pool.Live(h))
    ensures md.Valid() && Safe(ram.cells, env)
    ensures ok ==> Walked(flash, ram, md, env, load, at, ss + [seg], next, sum, before)
                   && PrintSegments(ss + [seg]) == PrintSegments(ss) + PrintSegment(seg)
    ensures ok && h != null ==> h.Absorbed() == old(h.Absorbed()) + PrintSegment(seg)
    ensures h != null ==> |h.Absorbed()| <= |old(h.Absorbed())| + MAX_SEGMENT_LEN
    ensures (flash.Reliable() && ParseSegments(flash.mem, at + HEADER_SIZE, n).Some?
             && (load ==> AllAdmissible(ParseSegments(flash.mem, at + HEADER_SIZE, n).value, env))) ==> ok
  {
    hide Flash.Valid, S.Sha256Context.Valid, S.Sha256Pool.Valid, S.Sha256Pool.Live, S.Sha256Pool.FreeSlots, Safe, ParseSegment,
         ParseSegments, PrintSegment, PrintSegments, AfterSegment, Admissible, AllAdmissible, Progress, Recorded, XorAll;
    next := nextAddr;
    ghost var cells := ram.cells;
    ProgressEnd(flash.mem, at, ss, nextAddr, checksum, env, load, before, ram.cells);
    var header;
    ok, header, sum, seg := ProcessSegment(flash, pool, ram, env, load, nextAddr, h, checksum);
    var dataAddr := Add32(nextAddr, SEGMENT_HEADER_SIZE);
    if !ok {
      if header.Some? {
        md.segments, md.segmentData := md.segments[i := header.value], md.segmentData[i := dataAddr];
      }
      if ParseSegments(flash.mem, at + HEADER_SIZE, n).Some?
         && (load ==> AllAdmissible(ParseSegments(flash.mem, at + HEADER_SIZE, n).value, env)) {
        ProgressStuck(flash.mem, at, ss, nextAddr, checksum, env, load, before, cells, n);
      }
      return;
    }
    ProgressStep(flash.mem, at, ss, nextAddr, checksum, env, load, before, cells, seg, ram.cells);
    RecordedOneMore(md.segments, md.segmentData, at, ss, seg, dataAddr);
    var total := Add32(SEGMENT_HEADER_SIZE, header.value.dataLen);
    next := Add32(nextAddr, total);
    md.segments, md.segmentData, md.imageLen :=
      md.segments[i := header.value], md.segmentData[i := dataAddr], Add32(md.imageLen, total);
  }

  /** The segment loop. */
  method ProcessSegments(flash: Flash, pool: S.Sha256Pool, ram: Ram, md: EspImageMetadata, env: Env, load: bool,
                         at: u32, n: nat, h: S.Sha256Context?)
    returns (ok: bool, next: u32, sum: byte, ghost ss: seq<Segment>)
    requires Ready(flash, pool) && ram !in pool.Repr() && md !in pool.Repr()
    requires md.Valid() && n <= MAX_SEGMENTS && md.imageLen == HEADER_SIZE
    requires h != null ==> pool.Live(h)
    requires at + HEADER_SIZE <= |flash.mem|
    requires Safe(ram.cells, env)
    modifies flash`readCount, flash`mapped, flash`mappedSize, flash`readMapping, flash`window, flash.buf, pool.Repr(), ram
    modifies md`segments, md`segmentData, md`imageLen
    ensures Ready(flash, pool) && pool.FreeSlots() == old(pool.FreeSlots()) && (h != null ==> pool.Live(h))
    ensures md.Valid() && Safe(ram.cells, env)
    ensures ok ==> |ss| == n && Walked(flash, ram, md, env, load, at, ss, next, sum, old(ram.cells))
    ensures ok && h != null ==> h.Absorbed() == old(h.Absorbed()) + PrintSegments(ss)
    ensures h != null ==> |h.Absorbed()| <= |old(h.Absorbed())| + n * MAX_SEGMENT_LEN
    ensures (flash.Reliable() && ParseSegments(flash.mem, at + HEADER_SIZE, n).Some?
             && (load ==> AllAdmissible(ParseSegments(flash.mem, at + HEADER_SIZE, n).value, env))) ==> ok
  {
    hide Flash.Valid, S.Sha256Context.Valid, S.Sha256Pool.Valid, S.Sha256Pool.Live, S.Sha256Pool.FreeSlots, Safe, ParseSegment,
         ParseSegments, PrintSegment, PrintSegments, Walked, AllAdmissible;
    next, sum, ss := Add32(at, HEADER_SIZE), CHECKSUM_SEED, [];
    WalkStart(flash, ram, md, env, load, at);
    NoSegments(flash.mem, at);
    for i := 0 to n
      invariant Ready(flash, pool) && pool.FreeSlots() == old(pool.FreeSlots()) && (h != null ==> pool.Live(h))
      invariant |ss| == i && Walked(flash, ram, md, env, load, at, ss, next, sum, old(ram.cells))
      invariant SmallSegments(ss) && md.Valid() && Safe(ram.cells, env)
      invariant h != null ==> h.Absorbed() == old(h.Absorbed()) + PrintSegments(ss)
      invariant h != null ==> |h.Absorbed()| <= |old(h.Absorbed())| + i * MAX_SEGMENT_LEN
    {
      ghost var seg;
      ok, next, sum, seg := SegmentTurn(flash, pool, ram, md, env, load, at, n, i, next, sum, h, ss, old(ram.cells));
      if !ok {
        return;
      }
      WalkedIsSmall(flash, ram, md, env, load, at, ss + [seg], next, sum, old(ram.cells));
      ss := ss + [seg];
    }
    ok := true;
  }

  lemma WalkStart(flash: Flash, ram: Ram, md: EspImageMetadata, env: Env, load: bool, at: nat)
    requires at + HEADER_SIZE <= |flash.mem| && md.Valid() && md.imageLen == HEADER_SIZE && Safe(ram.cells, env)
    ensures Walked(flash, ram, md, env, load, at, [], at + HEADER_SIZE, CHECKSUM_SEED, ram.cells)
  {
    hide Safe;
    ProgressStart(flash.mem, at, env, load, ram.cells);
    NothingRecorded(md.segments, md.segmentData, at);
  }

  lemma WalkedIsSmall(flash: Flash, ram: Ram, md: EspImageMetadata, env: Env, load: bool, at: nat, ss: seq<Segment>,
                      next: nat, sum: byte, before: map<nat, byte>)
    requires Walked(flash, ram, md, env, load, at, ss, next, sum, before)
    ensures SmallSegments(ss)
  {}

  lemma NothingRecorded(segments: seq<SegmentHeader>, segmentData: seq<u32>, at: nat)
    ensures Recorded(segments, segmentData, at, [])
  {}

  // -------------------------------------------------------------------------
  // Start and end of an image
  // -------------------------------------------------------------------------

  /** Release a context on an error path by finishing into a dummy buffer. */
  method ShaAbort(pool: S.Sha256Pool, h: S.Sha256Context?)
    requires pool.Valid() && (h != null ==> pool.Live(h) && |h.Absorbed()| < F.MAX_MESSAGE)
    modifies pool.Repr()
    ensures pool.Valid()
    ensures pool.FreeSlots() == old(pool.FreeSlots()) + if h != null then 1 else 0
  {
    hide Flash.Valid, S.Sha256Context.Valid, S.Sha256Pool.Valid, S.Sha256Pool.Live, S.Sha256Pool.FreeSlots;
    if h != null {
      var dummy := new byte[HASH_LEN](_ => 0);
      pool.Finish(h, dummy);
    }
  }

  /** Steps 1 and 2: the header and, when a digest will be checked, a context that has absorbed it. */
  method BeginImage(flash: Flash, pool: S.Sha256Pool, md: EspImageMetadata, env: Env, at: u32, verify: bool)
    returns (ok: bool, h: S.Sha256Context?)
    requires Ready(flash, pool) && md !in pool.Repr() && md.Valid()
    modifies flash`readCount, flash`mapped, flash`mappedSize, flash`readMapping, flash`window, flash.buf, pool.Repr()
    modifies md`image
    ensures Ready(flash, pool)
    ensures ok ==> 0 < at && at + HEADER_SIZE <= |flash.mem| && md.image == flash.mem[at..at + HEADER_SIZE] && HeaderOk(md.image, env)
    ensures h != null <==> ok && verify && HashAppended(md.image) && old(pool.FreeSlots()) > 0
    ensures h != null ==> pool.Live(h) && h.Absorbed() == flash.mem[at..at + HEADER_SIZE]
    ensures pool.FreeSlots() == old(pool.FreeSlots()) - if h != null then 1 else 0
    ensures flash.Reliable() && 0 < at && at + HEADER_SIZE <= |flash.mem| && HeaderOk(flash.mem[at..at + HEADER_SIZE], env) ==> ok
  {
    hide Flash.Valid, S.Sha256Context.Valid, S.Sha256Pool.Valid, S.Sha256Pool.Live, S.Sha256Pool.FreeSlots, HeaderOk, HashAppended;
    h := null;
    var hdrPtr := flash.Mmap(at, HEADER_SIZE);
    if hdrPtr == null {
      return false, h;
    }
    md.image := hdrPtr[..HEADER_SIZE];
    flash.Munmap();
    if !HeaderOk(md.image, env) {
      return false, h;
    }
    ok := true;
    if verify && HashAppended(md.image) {
      h := pool.Start();
      if h != null {
        // The raw header is still in the bounce buffer although the mapping is gone.
        pool.Data(h, hdrPtr, HEADER_SIZE);
        assert [] + hdrPtr[..HEADER_SIZE] == hdrPtr[..HEADER_SIZE];
      }
    }
  }

  /** The digest the loader compares with: without a context it is never written. */
  function ExpectedDigest(h: bool, absorbed: seq<byte>): seq<byte> {
    if h && |absorbed| < F.MAX_MESSAGE then F.Sha256(absorbed) else F.Zeros(HASH_LEN)
  }

  lemma NoContextDigest()
    ensures forall a, b :: ExpectedDigest(false, a) == ExpectedDigest(false, b)
  {}

  /** Steps 4 and 5 hold of the flash behind the segments. */
  ghost predicate TrailerOk(mem: seq<byte>, next: nat, verify: bool, shaNeeded: bool, sum: byte, h: bool, absorbed: seq<byte>) {
    var ck := next + PadLen(next);
    && ck + 1 <= |mem|
    && (verify ==> sum == mem[ck])
    && (shaNeeded ==> ck + 1 + HASH_LEN <= |mem|
                      && mem[ck + 1..ck + 1 + HASH_LEN] == ExpectedDigest(h, absorbed + [mem[ck]]))
  }

  /** `((next + 16) & !0x0f) - 1` is the last byte of the line `next` lies in. */
  lemma ChecksumAddress(next: nat)
    requires next <= MAX_CHIP
    ensures Sub32(Add32(next, 16) / 16 * 16, 1) == next + PadLen(next)
  {
    assert Add32(next, 16) == next + 16;
    assert (next + 16) / 16 * 16 == next + 16 - next % 16;
  }

  /** Step 4: read the stored checksum byte and hash it. */
  method ReadChecksum(flash: Flash, pool: S.Sha256Pool, h: S.Sha256Context?, checksumAddr: u32) returns (ok: bool, stored: byte)
    requires Ready(flash, pool) && (h != null ==> pool.Live(h)) && 0 < checksumAddr
    modifies flash`readCount, flash`mapped, flash`mappedSize, flash`readMapping, flash`window, flash.buf, pool.Repr()
    ensures Ready(flash, pool) && pool.FreeSlots() == old(pool.FreeSlots()) && (h != null ==> pool.Live(h))
    ensures ok ==> checksumAddr + 1 <= |flash.mem| && stored == flash.mem[checksumAddr]
    ensures ok && h != null ==> h.Absorbed() == old(h.Absorbed()) + [stored]
    ensures !ok && h != null ==> h.Absorbed() == old(h.Absorbed())
    ensures flash.Reliable() && checksumAddr + 1 <= |flash.mem| ==> ok
  {
    hide Flash.Valid, S.Sha256Context.Valid, S.Sha256Pool.Valid, S.Sha256Pool.Live, S.Sha256Pool.FreeSlots;
    var ckPtr := flash.Mmap(checksumAddr, 1);
    if ckPtr == null {
      return false, 0;
    }
    stored := ckPtr[0];
    assert stored == ckPtr[..1][0];
    flash.Munmap();
    if h != null {
      var one := new byte[1](_ => stored);
      pool.Data(h, one, 1);
      assert one[..1] == [stored];
    }
    ok := true;
  }

  /** Step 5: compare the appended digest, read before the computation is finished, with the computed
      one; the context goes back to the pool on every path. */
  method CheckDigest(flash: Flash, pool: S.Sha256Pool, md: EspImageMetadata, h: S.Sha256Context?, hashAddr: u32)
    returns (ok: bool)
    requires Ready(flash, pool) && md !in pool.Repr() && 0 < hashAddr
    requires h != null ==> pool.Live(h) && |h.Absorbed()| < F.MAX_MESSAGE
    modifies flash`readCount, flash`mapped, flash`mappedSize, flash`readMapping, flash`window, flash.buf, pool.Repr(), md`imageDigest
    ensures Ready(flash, pool)
    ensures pool.FreeSlots() == old(pool.FreeSlots()) + if h != null then 1 else 0
    ensures ok ==> hashAddr + HASH_LEN <= |flash.mem|
                   && flash.mem[hashAddr..hashAddr + HASH_LEN] == ExpectedDigest(h != null, if h != null then old(h.Absorbed()) else [])
                   && md.imageDigest == flash.mem[hashAddr..hashAddr + HASH_LEN]
    ensures (flash.Reliable() && hashAddr + HASH_LEN <= |flash.mem|
             && flash.mem[hashAddr..hashAddr + HASH_LEN] == ExpectedDigest(h != null, if h != null then old(h.Absorbed()) else [])) ==> ok
  {
    hide Flash.Valid, S.Sha256Context.Valid, S.Sha256Pool.Valid, S.Sha256Pool.Live, S.Sha256Pool.FreeSlots, F.Sha256;
    var hashPtr := flash.Mmap(hashAddr, HASH_LEN);
    if hashPtr == null {
      ShaAbort(pool, h);
      return false;
    }
    ghost var stored := hashPtr[..HASH_LEN];
    flash.Munmap();
    var computed := new byte[HASH_LEN](_ => 0);
    pool.Finish(h, computed);
    assert hashPtr[..HASH_LEN] == stored;
    assert computed[..] == ExpectedDigest(h != null, if h != null then old(h.Absorbed()) else []);
    if computed[..] != hashPtr[..HASH_LEN] {
      return false;
    }
    md.imageDigest := computed[..];
    ok := true;
  }

  // -------------------------------------------------------------------------
  // The whole image
  // -------------------------------------------------------------------------

  /** The image whose segments have been walked, with whatever trailer the flash holds. */
  function ImageWith(mem: seq<byte>, at: nat, ss: seq<Segment>, next: nat, shaNeeded: bool): Image
    requires at + HEADER_SIZE <= |mem| && next + PadLen(next) + 1 <= |mem|
    requires shaNeeded ==> next + PadLen(next) + 1 + HASH_LEN <= |mem|
  {
    var ck := next + PadLen(next);
    Image(mem[at..at + HEADER_SIZE], ss, mem[next..ck], mem[ck], if shaNeeded then mem[ck + 1..ck + 1 + HASH_LEN] else [])
  }

  /** With header and segments through, decoding needs only that the trailer fits. */
  lemma DecodedWith(mem: seq<byte>, at: nat, env: Env, verify: bool, header: HeaderBytes, shaNeeded: bool,
                    ss: seq<Segment>, next: nat)
    requires 0 < at && at + HEADER_SIZE <= |mem| && header == mem[at..at + HEADER_SIZE]
    requires shaNeeded == (verify && HashAppended(header)) && HeaderOk(header, env)
    requires ParseSegments(mem, at + HEADER_SIZE, SegmentCount(header)) == Some(ss)
    requires SmallSegments(ss) && next == at + HEADER_SIZE + |PrintSegments(ss)|
    ensures Decode(mem, at, env, verify)
            == if next + PadLen(next) + 1 + (if shaNeeded then HASH_LEN else 0) <= |mem|
               then Some(ImageWith(mem, at, ss, next, shaNeeded)) else None
  {
    hide HeaderOk, SegmentCount, HashAppended, ParseSegments, PrintSegments;
  }

  /** The checks of a decoded image, split into those already made and the trailer's. */
  lemma AcceptableWith(mem: seq<byte>, at: nat, env: Env, verify: bool, load: bool, avail: bool,
                       header: HeaderBytes, shaNeeded: bool, ss: seq<Segment>, next: nat, sum: byte)
    requires |mem| <= MAX_CHIP && at + HEADER_SIZE <= |mem| && header == mem[at..at + HEADER_SIZE]
    requires shaNeeded == (verify && HashAppended(header))
    requires SmallSegments(ss) && next == at + HEADER_SIZE + |PrintSegments(ss)|
    requires next + PadLen(next) + 1 + (if shaNeeded then HASH_LEN else 0) <= |mem|
    requires sum == XorAll(CHECKSUM_SEED, Payload(ss)) && (load ==> AllAdmissible(ss, env))
    ensures Acceptable(ImageWith(mem, at, ss, next, shaNeeded), env, verify, load, avail)
            <==> TrailerOk(mem, next, verify, shaNeeded, sum, avail, header + PrintSegments(ss))
    ensures |Print(ImageWith(mem, at, ss, next, shaNeeded))|
            == next + PadLen(next) + 1 + (if shaNeeded then HASH_LEN else 0) - at
  {
    hide HashAppended, PrintSegments, XorAll, Payload, Admissible, F.Sha256, PadLen;
    assert |HashedBytes(ImageWith(mem, at, ss, next, shaNeeded))| < F.MAX_MESSAGE;
  }

  /** Once header and segments are through, acceptance is decided by the trailer alone. */
  lemma TrailerDecides(mem: seq<byte>, at: nat, env: Env, verify: bool, load: bool, avail: bool,
                       header: HeaderBytes, shaNeeded: bool,
                       ss: seq<Segment>, next: nat, sum: byte, before: map<nat, byte>, cells: map<nat, byte>)
    requires |mem| <= MAX_CHIP
    requires Progress(mem, at, ss, next, sum, env, load, before, cells)
    requires header == mem[at..at + HEADER_SIZE] && shaNeeded == (verify && HashAppended(header))
    requires 0 < at && HeaderOk(header, env) && |ss| == SegmentCount(header)
    ensures AcceptedImage(mem, at, env, verify, load, avail).Some?
            <==> TrailerOk(mem, next, verify, shaNeeded, sum, avail, header + PrintSegments(ss))
    ensures AcceptedImage(mem, at, env, verify, load, avail).Some? ==>
              var im := AcceptedImage(mem, at, env, verify, load, avail).value;
              && next + PadLen(next) + 1 + (if shaNeeded then HASH_LEN else 0) <= |mem|
              && im == ImageWith(mem, at, ss, next, shaNeeded)
              && |Print(im)| == next + PadLen(next) + 1 + (if shaNeeded then HASH_LEN else 0) - at
  {
    hide Decode, HeaderOk, SegmentCount, HashAppended, ParseSegments, PrintSegments, Payload, XorAll, Acceptable, ImageWith, Print,
         ExpectedDigest, AfterSegments, AllAdmissible;
    DecodedWith(mem, at, env, verify, header, shaNeeded, ss, next);
    if next + PadLen(next) + 1 + (if shaNeeded then HASH_LEN else 0) <= |mem| {
      AcceptableWith(mem, at, env, verify, load, avail, header, shaNeeded, ss, next, sum);
    }
  }

  /** `process_image`, with all its exits. */
  method ProcessImage(flash: Flash, pool: S.Sha256Pool, ram: Ram, md: EspImageMetadata, env: Env,
                      at: u32, verify: bool, load: bool)
    returns (ok: bool)
    requires Ready(flash, pool) && ram !in pool.Repr() && md !in pool.Repr()
    requires md.Valid() && Safe(ram.cells, env)
    modifies flash`readCount, flash`mapped, flash`mappedSize, flash`readMapping, flash`window, flash.buf, pool.Repr(), ram, md
    ensures Ready(flash, pool) && md.Valid()
    ensures pool.FreeSlots() == old(pool.FreeSlots())
    ensures Safe(ram.cells, env)
    ensures ok ==> AcceptedImage(flash.mem, at, env, verify, load, old(pool.FreeSlots()) > 0).Some?
    ensures ok ==> var im := AcceptedImage(flash.mem, at, env, verify, load, old(pool.FreeSlots()) > 0).value;
                   && Describes(md, at, im)
                   && ram.cells == (if load then AfterSegments(old(ram.cells), im.segments) else old(ram.cells))
    ensures flash.Reliable() && AcceptedImage(flash.mem, at, env, verify, load, old(pool.FreeSlots()) > 0).Some? ==> ok
  {
    hide Flash.Valid, S.Sha256Context.Valid, S.Sha256Pool.Valid, S.Sha256Pool.Live, S.Sha256Pool.FreeSlots, Safe, HeaderOk, SegmentCount, HashAppended, ParseSegments, PrintSegments,
         Progress, Recorded, TrailerOk, AfterSegments, AcceptedImage, AllAdmissible, XorAll, Print, ImageWith;
    ghost var avail := pool.FreeSlots() > 0;
    AcceptedParts(flash.mem, at, env, verify, load, avail);
    var h;
    ok, h := BeginImage(flash, pool, md, env, at, verify);
    if !ok {
      return;
    }
    var shaNeeded := verify && HashAppended(md.image);
    HeaderCount(md.image, env);
    md.startAddr := at;
    md.imageLen := HEADER_SIZE;
    var next, sum;
    ghost var ss;
    ok, next, sum, ss := ProcessSegments(flash, pool, ram, md, env, load, at, SegmentCount(md.image), h);
    if !ok {
      ShaAbort(pool, h);
      return;
    }
    ProgressEnd(flash.mem, at, ss, next, sum, env, load, old(ram.cells), ram.cells);
    TrailerDecides(flash.mem, at, env, verify, load, avail, md.image, shaNeeded, ss, next, sum, old(ram.cells), ram.cells);
    TrailerSame(flash.mem, next, verify, shaNeeded, sum, h != null, if h != null then h.Absorbed() else [],
                avail, md.image + PrintSegments(ss));
    ok := FinishImage(flash, pool, md, at, verify, shaNeeded, next, sum, h);
    if ok {
      ImageWithParts(flash.mem, at, ss, next, sum, env, load, old(ram.cells), ram.cells, shaNeeded);
    }
  }

  lemma ImageWithParts(mem: seq<byte>, at: nat, ss: seq<Segment>, next: nat, sum: byte, env: Env, load: bool,
                       before: map<nat, byte>, cells: map<nat, byte>, shaNeeded: bool)
    requires Progress(mem, at, ss, next, sum, env, load, before, cells)
    requires next + PadLen(next) + 1 <= |mem|
    requires shaNeeded ==> next + PadLen(next) + 1 + HASH_LEN <= |mem|
    ensures cells == if load then AfterSegments(before, ss) else before
    ensures var im := ImageWith(mem, at, ss, next, shaNeeded);
            && im.header == mem[at..at + HEADER_SIZE] && im.segments == ss
            && (im.digest != [] ==> shaNeeded)
            && (shaNeeded ==> im.digest == mem[next + PadLen(next) + 1..next + PadLen(next) + 1 + HASH_LEN])
  {
    hide ParseSegments, PrintSegments, AfterSegments, XorAll;
  }

  lemma HeaderCount(header: HeaderBytes, env: Env)
    requires HeaderOk(header, env)
    ensures SegmentCount(header) <= MAX_SEGMENTS
  {}

  lemma AcceptedParts(mem: seq<byte>, at: nat, env: Env, verify: bool, load: bool, avail: bool)
    ensures AcceptedImage(mem, at, env, verify, load, avail).Some? ==>
              && 0 < at && at + HEADER_SIZE <= |mem| && HeaderOk(mem[at..at + HEADER_SIZE], env)
              && ParseSegments(mem, at + HEADER_SIZE, SegmentCount(mem[at..at + HEADER_SIZE])).Some?
              && (load ==> AllAdmissible(ParseSegments(mem, at + HEADER_SIZE, SegmentCount(mem[at..at + HEADER_SIZE])).value, env))
  {
    hide HeaderOk, SegmentCount, HashAppended, ParseSegments, PrintSegments, XorAll, Payload, Admissible, F.Sha256;
  }

  /** The trailer test looks at the hash only when one is needed, and at the absorbed bytes only when
      there was a context. */
  lemma TrailerSame(mem: seq<byte>, next: nat, verify: bool, shaNeeded: bool, sum: byte,
                    h: bool, absorbed: seq<byte>, h': bool, absorbed': seq<byte>)
    requires shaNeeded ==> h == h' && (h ==> absorbed == absorbed')
    ensures TrailerOk(mem, next, verify, shaNeeded, sum, h, absorbed)
            <==> TrailerOk(mem, next, verify, shaNeeded, sum, h', absorbed')
  {
    hide F.Sha256;
  }

  /** The metadata describe the image `im` at `at`. */
  ghost predicate Describes(md: EspImageMetadata, at: nat, im: Image)
    reads md
  {
    && md.startAddr == at
    && md.image == im.header
    && SmallSegments(im.segments)
    && Recorded(md.segments, md.segmentData, at, im.segments)
    && md.imageLen == |Print(im)|
    && (im.digest != [] ==> md.imageDigest == im.digest)
  }

  /** Steps 4 and 5. */
  method FinishImage(flash: Flash, pool: S.Sha256Pool, md: EspImageMetadata, at: u32, verify: bool, shaNeeded: bool,
                     next: u32, sum: byte, h: S.Sha256Context?)
    returns (ok: bool)
    requires Ready(flash, pool) && md !in pool.Repr()
    requires at <= next <= |flash.mem| && (shaNeeded ==> verify)
    requires h != null ==> shaNeeded && pool.Live(h) && |h.Absorbed()| < MAX_CHIP + 1
    modifies flash`readCount, flash`mapped, flash`mappedSize, flash`readMapping, flash`window, flash.buf, pool.Repr()
    modifies md`imageLen, md`imageDigest
    ensures Ready(flash, pool)
    ensures pool.FreeSlots() == old(pool.FreeSlots()) + if h != null then 1 else 0
    ensures var absorbed := if h != null then old(h.Absorbed()) else [];
            && (ok ==> TrailerOk(flash.mem, next, verify, shaNeeded, sum, h != null, absorbed))
            && (flash.Reliable() && TrailerOk(flash.mem, next, verify, shaNeeded, sum, h != null, absorbed) ==> ok)
    ensures ok ==> md.imageLen == next + PadLen(next) + 1 + (if shaNeeded then HASH_LEN else 0) - at
    ensures ok && shaNeeded ==> var ck := next + PadLen(next);
                                ck + 1 + HASH_LEN <= |flash.mem| && md.imageDigest == flash.mem[ck + 1..ck + 1 + HASH_LEN]
  {
    hide Flash.Valid, S.Sha256Context.Valid, S.Sha256Pool.Valid, S.Sha256Pool.Live, S.Sha256Pool.FreeSlots, ExpectedDigest;
    NoContextDigest();
    ChecksumAddress(next);
    var checksumAddr := Sub32(Add32(next, 16) / 16 * 16, 1);
    var stored;
    ok, stored := ReadChecksum(flash, pool, h, checksumAddr);
    if !ok {
      ShaAbort(pool, h);
      return;
    }
    md.imageLen := Add32(Sub32(checksumAddr, at), 1);
    if verify && sum != stored {
      ShaAbort(pool, h);
      return false;
    }
    if shaNeeded {
      ok := CheckDigest(flash, pool, md, h, Add32(checksumAddr, 1));
      if ok {
        md.imageLen := Add32(md.imageLen, HASH_LEN);
      }
    }
  }
}
