/** From loaded metadata to the address space the application starts in: which segments are mapped,
    and which flash byte every mapped address shows. */
module MemoryMap {
  import opened Words
  import opened Wrappers
  import opened FlashDriver
  import opened ImageFormat
  import opened ImageLoad

  // -------------------------------------------------------------------------
  // Choosing the segments
  // -------------------------------------------------------------------------

  predicate InWindow(h: SegmentHeader, low: u32, high: u32) {
    h.dataLen != 0 && low <= h.loadAddr < high
  }

  /** The first non-empty segment of the first `n` that loads into `[low, high)`. */
  function FirstIn(segments: seq<SegmentHeader>, n: nat, low: u32, high: u32): (r: Option<nat>)
    requires n <= |segments|
    ensures r.Some? ==> r.value < n && InWindow(segments[r.value], low, high)
    ensures r.Some? ==> forall k | 0 <= k < r.value :: !InWindow(segments[k], low, high)
    ensures r.None? ==> forall k | 0 <= k < n :: !InWindow(segments[k], low, high)
    decreases n
  {
    if n == 0 then None
    else
      match FirstIn(segments, n - 1, low, high)
      case Some(k) => Some(k)
      case None => if InWindow(segments[n - 1], low, high) then Some(n - 1) else None
  }

  /** Flash address, load address and size of a chosen segment; all zero when there is none. */
  datatype Chosen = Chosen(addr: u32, load: u32, size: u32)

  function ChosenSegment(segments: seq<SegmentHeader>, segmentData: seq<u32>, r: Option<nat>): Chosen
    requires r.Some? ==> r.value < |segments| && r.value < |segmentData|
  {
    match r
    case None => Chosen(0, 0, 0)
    case Some(k) => Chosen(segmentData[k], segments[k].loadAddr, segments[k].dataLen)
  }

  method ExtractSegmentInfo(md: EspImageMetadata) returns (drom: Chosen, irom: Chosen)
    requires md.Valid() && SegmentCount(md.image) <= MAX_SEGMENTS
    ensures drom == ChosenSegment(md.segments, md.segmentData, FirstIn(md.segments, SegmentCount(md.image), DROM_LOW, DROM_HIGH))
    ensures irom == ChosenSegment(md.segments, md.segmentData, FirstIn(md.segments, SegmentCount(md.image), IROM_LOW, IROM_HIGH))
  {
    hide SegmentCount;
    drom, irom := Chosen(0, 0, 0), Chosen(0, 0, 0);
    for i := 0 to SegmentCount(md.image)
      invariant drom == ChosenSegment(md.segments, md.segmentData, FirstIn(md.segments, i, DROM_LOW, DROM_HIGH))
      invariant irom == ChosenSegment(md.segments, md.segmentData, FirstIn(md.segments, i, IROM_LOW, IROM_HIGH))
    {
      var loadAddr, dataLen := md.segments[i].loadAddr, md.segments[i].dataLen;
      var dataAddr := md.segmentData[i];
      if dataLen == 0 {
        continue;
      }
      if DROM_LOW <= loadAddr < DROM_HIGH {
        // First occurrence wins.
        if drom.size == 0 {
          drom := Chosen(dataAddr, loadAddr, dataLen);
        }
      } else if IROM_LOW <= loadAddr < IROM_HIGH {
        if irom.size == 0 {
          irom := Chosen(dataAddr, loadAddr, dataLen);
        }
      }
    }
  }

  // -------------------------------------------------------------------------
  // Mapping pages
  // -------------------------------------------------------------------------

  /** One bus of the MMU: virtual page number to flash page number. */
  type PageMap = map<nat, nat>

  /** `Cache_?bus_MMU_Set(vaddr, paddr, 64, pages)`, assumed to map consecutive 64 KB pages. */
  function MmuSet(m: PageMap, vaddr: nat, paddr: nat, pages: nat): PageMap {
    m + map v: nat | vaddr / PAGE_SIZE <= v < vaddr / PAGE_SIZE + pages :: FlashPage(vaddr, paddr, v)
  }

  function FlashPage(vaddr: nat, paddr: nat, v: nat): nat
    requires vaddr / PAGE_SIZE <= v
  {
    paddr / PAGE_SIZE + (v - vaddr / PAGE_SIZE)
  }

  /** The flash address a virtual address shows. */
  function Translate(m: PageMap, va: nat): Option<nat> {
    if va / PAGE_SIZE in m then Some(m[va / PAGE_SIZE] * PAGE_SIZE + va % PAGE_SIZE) else None
  }

  function PageStart(a: u32): u32 {
    a - a % PAGE_SIZE
  }

  /** `(size + vaddr_offset + 65535) / 65536` in 32-bit arithmetic. */
  function PageCount(c: Chosen): nat {
    Add32(Add32(c.size, c.load % PAGE_SIZE), PAGE_SIZE - 1) / PAGE_SIZE
  }

  /** The mapping of one bus after `Cache_MMU_Init` and the step for its segment. */
  function BusMap(c: Chosen): PageMap {
    if c.size > 0 && c.addr != 0 then MmuSet(map[], PageStart(c.load), PageStart(c.addr), PageCount(c)) else map[]
  }

  class Mmu {
    var dbus: PageMap
    var ibus: PageMap

    /** Steps 2 to 4 of `set_cache_and_start_app`. */
    method SetCache(drom: Chosen, irom: Chosen)
      modifies this
      ensures dbus == BusMap(drom) && ibus == BusMap(irom)
    {
      dbus, ibus := map[], map[];
      if drom.size > 0 && drom.addr != 0 {
        var paddr := PageStart(drom.addr);
        var vaddr := PageStart(drom.load);
        var vaddrOffset := drom.load - vaddr;
        var pages := Add32(Add32(drom.size, vaddrOffset), PAGE_SIZE - 1) / PAGE_SIZE;
        dbus := MmuSet(dbus, vaddr, paddr, pages);
      }
      if irom.size > 0 && irom.addr != 0 {
        var paddr := PageStart(irom.addr);
        var vaddr := PageStart(irom.load);
        var vaddrOffset := irom.load - vaddr;
        var pages := Add32(Add32(irom.size, vaddrOffset), PAGE_SIZE - 1) / PAGE_SIZE;
        ibus := MmuSet(ibus, vaddr, paddr, pages);
      }
    }
  }

  // -------------------------------------------------------------------------
  // What the mapping shows
  // -------------------------------------------------------------------------

  /** A segment small enough for the loader. */
  predicate Mappable(c: Chosen) {
    0 < c.size <= MAX_SEGMENT_DATA && c.addr != 0 && c.load + c.size + PAGE_SIZE < TWO_TO_THE_32
  }

  lemma PageCountIsExact(c: Chosen)
    requires Mappable(c)
    ensures (PageCount(c) - 1) * PAGE_SIZE < c.load % PAGE_SIZE + c.size <= PageCount(c) * PAGE_SIZE
  {
    var n := c.size + c.load % PAGE_SIZE;
    assert Add32(Add32(c.size, c.load % PAGE_SIZE), PAGE_SIZE - 1) == n + (PAGE_SIZE - 1);
    CeilingDivision(n);
  }

  lemma CeilingDivision(n: nat)
    requires n > 0
    ensures ((n + (PAGE_SIZE - 1)) / PAGE_SIZE - 1) * PAGE_SIZE < n <= (n + (PAGE_SIZE - 1)) / PAGE_SIZE * PAGE_SIZE
  {}

  /** Where byte `j` of the segment appears: at the flash address with the segment's own page shift. */
  lemma TranslateByte(c: Chosen, j: nat)
    requires Mappable(c) && j < c.size
    ensures Translate(BusMap(c), c.load + j) == Some(PageStart(c.addr) + c.load % PAGE_SIZE + j)
  {
    PageCountIsExact(c);
    var o := c.load % PAGE_SIZE;
    var vpage := c.load / PAGE_SIZE;
    assert c.load == PAGE_SIZE * vpage + o;
    assert PageStart(c.load) / PAGE_SIZE == vpage;
    var p := (o + j) / PAGE_SIZE;
    assert o + j == PAGE_SIZE * p + (o + j) % PAGE_SIZE;
    assert (c.load + j) / PAGE_SIZE == vpage + p && (c.load + j) % PAGE_SIZE == (o + j) % PAGE_SIZE by {
      assert c.load + j == PAGE_SIZE * (vpage + p) + (o + j) % PAGE_SIZE;
      DivMod(vpage + p, (o + j) % PAGE_SIZE);
    }
    assert p < PageCount(c);
    assert BusMap(c)[vpage + p] == PageStart(c.addr) / PAGE_SIZE + p;
    assert PageStart(c.addr) / PAGE_SIZE * PAGE_SIZE == PageStart(c.addr);
  }

  lemma DivMod(q: nat, r: nat)
    requires r < PAGE_SIZE
    ensures (PAGE_SIZE * q + r) / PAGE_SIZE == q && (PAGE_SIZE * q + r) % PAGE_SIZE == r
  {}

  /** Byte `j` of the range at `va` is the flash byte `j` of the range at `fa`. */
  predicate ShowsByte(m: PageMap, va: nat, fa: nat, j: nat) {
    Translate(m, va + j) == Some(fa + j)
  }

  predicate Shows(m: PageMap, va: nat, fa: nat, size: nat) {
    forall j | 0 <= j < size :: ShowsByte(m, va, fa, j)
  }

  lemma ShownByteIff(c: Chosen, j: nat)
    requires Mappable(c) && j < c.size
    ensures ShowsByte(BusMap(c), c.load, c.addr, j) <==> c.load % PAGE_SIZE == c.addr % PAGE_SIZE
  {
    hide Translate, BusMap;
    TranslateByte(c, j);
  }

  /** Every load address of the segment shows the flash address of the same byte exactly when the two
      are congruent modulo the page size. */
  lemma MapsOwnBytesIff(c: Chosen)
    requires Mappable(c)
    ensures Shows(BusMap(c), c.load, c.addr, c.size) <==> c.load % PAGE_SIZE == c.addr % PAGE_SIZE
  {
    hide ShowsByte;
    forall j | 0 <= j < c.size
      ensures ShowsByte(BusMap(c), c.load, c.addr, j) <==> c.load % PAGE_SIZE == c.addr % PAGE_SIZE
    {
      ShownByteIff(c, j);
    }
    assert ShowsByte(BusMap(c), c.load, c.addr, 0) <==> c.load % PAGE_SIZE == c.addr % PAGE_SIZE;
  }

  /** No smaller number of pages reaches the segment's last byte. */
  lemma PageCountIsMinimal(c: Chosen, fewer: nat)
    requires Mappable(c) && fewer < PageCount(c)
    ensures Translate(MmuSet(map[], PageStart(c.load), PageStart(c.addr), fewer), c.load + c.size - 1) == None
  {
    PageCountIsExact(c);
    var o, vpage := c.load % PAGE_SIZE, c.load / PAGE_SIZE;
    assert c.load == PAGE_SIZE * vpage + o && PageStart(c.load) / PAGE_SIZE == vpage;
    var p := (o + c.size - 1) / PAGE_SIZE;
    assert p >= PageCount(c) - 1;
    assert c.load + c.size - 1 == PAGE_SIZE * (vpage + p) + (o + c.size - 1) % PAGE_SIZE;
    DivMod(vpage + p, (o + c.size - 1) % PAGE_SIZE);
  }

  // -------------------------------------------------------------------------
  // From an accepted image to the application's view
  // -------------------------------------------------------------------------

  /** The bytes of an accepted segment lie at the address the metadata record for it. */
  lemma SegmentInFlash(mem: seq<byte>, at: nat, env: Env, verify: bool, load: bool, avail: bool, im: Image, k: nat)
    requires AcceptedImage(mem, at, env, verify, load, avail) == Some(im) && k < |im.segments|
    ensures LiesAt(mem, DataAddr(at, im.segments, k), im.segments[k].data)
    ensures |im.segments[k].data| <= MAX_SEGMENT_DATA
  {
    hide HeaderOk, ParseSegments, PrintSegments, Acceptable;
    AcceptedParts(mem, at, env, verify, load, avail);
    var a, n := at + HEADER_SIZE, SegmentCount(mem[at..at + HEADER_SIZE]);
    assert ParseSegments(mem, a, n) == Some(im.segments);
    ParsePrefix(mem, a, n, k);
    ParsedInFlash(mem, a + |PrintSegments(im.segments[..k])|, im.segments[k]);
  }

  lemma ParsedInFlash(mem: seq<byte>, a: nat, s: Segment)
    requires ParseSegment(mem, a) == Some(s)
    ensures LiesAt(mem, a + SEGMENT_HEADER_SIZE, s.data) && |s.data| <= MAX_SEGMENT_DATA
  {
    hide LeU32;
  }

  predicate SegmentIn(s: Segment, low: u32, high: u32) {
    s.data != [] && low <= s.loadAddr < high
  }

  /** Segment `k` is the image's first non-empty one in the window. */
  predicate IsFirstIn(ss: seq<Segment>, k: nat, low: u32, high: u32) {
    k < |ss| && SegmentIn(ss[k], low, high) && forall i | 0 <= i < k :: !SegmentIn(ss[i], low, high)
  }

  /** What `ExtractSegmentInfo` picks after an accepted load is the first segment of that very image
      in the window: nothing a previous attempt left in the tables can be chosen. */
  lemma ChosenFromImage(md: EspImageMetadata, at: nat, im: Image, low: u32, high: u32)
    requires md.Valid() && Describes(md, at, im)
    requires |im.header| == HEADER_SIZE && |im.segments| == SegmentCount(im.header) <= MAX_SEGMENTS
    ensures var r := FirstIn(md.segments, SegmentCount(md.image), low, high);
            match r
            case None => forall k | 0 <= k < |im.segments| :: !SegmentIn(im.segments[k], low, high)
            case Some(k) =>
              && IsFirstIn(im.segments, k, low, high)
              && DataAddr(at, im.segments, k) < TWO_TO_THE_32
              && |im.segments[k].data| < TWO_TO_THE_32
              && ChosenSegment(md.segments, md.segmentData, r)
                 == Chosen(DataAddr(at, im.segments, k), im.segments[k].loadAddr, |im.segments[k].data|)
  {
    hide SegmentCount, PrintSegments, Print, FirstIn;
    forall k | 0 <= k < |im.segments|
      ensures SegmentIn(im.segments[k], low, high) <==> InWindow(md.segments[k], low, high)
      ensures RecordedAt(md.segments[k], md.segmentData[k], at, im.segments, k)
    {
      assert RecordedAt(md.segments[k], md.segmentData[k], at, im.segments, k);
    }
  }

  /** One of the two mapped windows. */
  predicate Window(low: u32, high: u32) {
    (low == DROM_LOW && high == DROM_HIGH) || (low == IROM_LOW && high == IROM_HIGH)
  }

  /** The application, reading byte `j` of a range at its load address `va`, gets byte `j` of `data`
      from the flash address `fa` it was verified at. */
  predicate SeesByte(m: PageMap, flash: seq<byte>, va: nat, fa: nat, data: seq<byte>, j: nat)
    requires j < |data|
  {
    ShowsByte(m, va, fa, j) && fa + j < |flash| && flash[fa + j] == data[j]
  }

  /** Byte `j` of segment `k` of an accepted image, on the flash `after` the application starts with:
      it is read in its place if and only if load and flash address are congruent modulo the page size
      and the cell still holds what was verified. */
  lemma VerifiedByteIsSeenIff(mem: seq<byte>, after: seq<byte>, at: nat, env: Env, verify: bool, load: bool, avail: bool, im: Image,
                              k: nat, j: nat, c: Chosen, low: u32, high: u32)
    requires AcceptedImage(mem, at, env, verify, load, avail) == Some(im) && |after| == |mem|
    requires Window(low, high) && k < |im.segments| && SegmentIn(im.segments[k], low, high) && j < |im.segments[k].data|
    requires c.addr == DataAddr(at, im.segments, k) && c.load == im.segments[k].loadAddr && c.size == |im.segments[k].data|
    ensures LiesAt(mem, c.addr, im.segments[k].data)
    ensures SeesByte(BusMap(c), after, c.load, c.addr, im.segments[k].data, j)
            <==> c.load % PAGE_SIZE == c.addr % PAGE_SIZE && after[c.addr + j] == mem[c.addr + j]
  {
    hide AcceptedImage, BusMap, PrintSegments, ShowsByte;
    SegmentInFlash(mem, at, env, verify, load, avail, im, k);
    ShownByteIff(c, j);
    assert mem[c.addr..c.addr + c.size][j] == mem[c.addr + j];
  }
}
