/** The flash driver: the single bounce-buffer mapping, the raw and the cached read route, erase
    and write.  The chip and the ROM routines are the model's assumed environment:
    - a ROM read of `n` bytes at `a` delivers the cells from `a + 1` on and fails beyond the end of
      the chip, so address 0 cannot be read through it; which other reads fail is a parameter;
    - completed erases and writes succeed inside the chip and fail outside;
    - the cached window shows one 64 KB page of the chip and arbitrary bytes beyond it. */
module FlashDriver {
  import opened Words
  import opened FlashOps

  const MMAP_BUF_SIZE: nat := 4096
  const MMAP_LIMIT: nat := 4093
  const PAGE_SIZE: nat := 0x1_0000
  const NO_MAPPING: u32 := 0xFFFF_FFFF
  const MAX_CHIP: nat := 0x100_0000

  // -------------------------------------------------------------------------
  // The cached route, byte by byte
  // -------------------------------------------------------------------------

  /** What the window delivers for byte `k` of a read at `src`: the page is chosen by the word the
      byte belongs to, and a word may hang over the page's end. */
  function WindowOffset(src: nat, k: nat): nat {
    (src + k / 4 * 4) % PAGE_SIZE + k % 4
  }

  predicate StaysInWindow(src: nat, size: nat) {
    forall k | 0 <= k < size :: WindowOffset(src, k) < PAGE_SIZE
  }

  /** No byte of a read is lost exactly when the source is word-aligned or the read ends before the
      page does. */
  lemma StaysInWindowIff(src: nat, size: nat)
    requires size <= MMAP_BUF_SIZE
    ensures StaysInWindow(src, size) <==> src % 4 == 0 || size <= PAGE_SIZE - src % PAGE_SIZE
  {
    var d := PAGE_SIZE - src % PAGE_SIZE;
    if src % 4 == 0 || size <= d {
      forall k | 0 <= k < size
        ensures WindowOffset(src, k) < PAGE_SIZE
      {
        WordInPage(src, k / 4, k % 4);
      }
    } else {
      WordOverPage(src);
      assert d % 4 != 0 && WindowOffset(src, d) >= PAGE_SIZE;
    }
  }

  lemma PageRemainder(q: nat, r: nat)
    requires r < PAGE_SIZE
    ensures (PAGE_SIZE * q + r) % PAGE_SIZE == r
  {}

  lemma WordInPage(src: nat, w: nat, r: nat)
    requires r < 4 && 4 * w + r < MMAP_BUF_SIZE
    requires src % 4 == 0 || 4 * w + r < PAGE_SIZE - src % PAGE_SIZE
    ensures (src + 4 * w) % PAGE_SIZE + r < PAGE_SIZE
  {
    var q, o := src / PAGE_SIZE, src % PAGE_SIZE;
    assert src == PAGE_SIZE * q + o;
    assert src % 4 == 0 ==> o == 4 * (src / 4 - PAGE_SIZE / 4 * q);
    if o + 4 * w < PAGE_SIZE {
      PageRemainder(q, o + 4 * w);
    } else {
      PageRemainder(q + 1, o + 4 * w - PAGE_SIZE);
    }
  }

  lemma WordOverPage(src: nat)
    requires src % 4 != 0
    ensures var d := PAGE_SIZE - src % PAGE_SIZE; d % 4 != 0 && WindowOffset(src, d) >= PAGE_SIZE
  {
    var q, o := src / PAGE_SIZE, src % PAGE_SIZE;
    var d := PAGE_SIZE - o;
    var r := d % 4;
    assert src == PAGE_SIZE * q + o;
    assert d == 4 * (d / 4) + r;
    assert src + d / 4 * 4 == PAGE_SIZE * q + (PAGE_SIZE - r);
    PageRemainder(q, PAGE_SIZE - r);
  }

  // -------------------------------------------------------------------------
  // Erasing ranges
  // -------------------------------------------------------------------------

  /** `(size + 4095) / 4096` in 32-bit arithmetic. */
  function SectorsFor(size: u32): nat {
    Add32(size, SECTOR_SIZE - 1) / SECTOR_SIZE
  }

  function EraseOps(start: u32, size: u32): (ops: seq<FlashOp>)
    ensures |ops| == SectorsFor(size)
  {
    seq(SectorsFor(size), i requires 0 <= i => Erase(start / SECTOR_SIZE + i))
  }

  /** The first `k` erases blank the first `k` sectors of the range and nothing else. */
  lemma {:induction false} ErasePrefix(mem: seq<byte>, start: u32, size: u32, k: nat, i: nat)
    requires start % SECTOR_SIZE == 0 && k <= SectorsFor(size) && i < |mem|
    ensures ApplyAll(mem, EraseOps(start, size)[..k])[i] == if start <= i < start + k * SECTOR_SIZE then 0xFF else mem[i]
  {
    var ops := EraseOps(start, size);
    if k > 0 {
      ErasePrefix(mem, start, size, k - 1, i);
      assert ops[..k] == ops[..k - 1] + [ops[k - 1]];
      ApplyAllLast(mem, ops[..k - 1], ops[k - 1]);
      assert ops[k - 1] == Erase(start / SECTOR_SIZE + (k - 1));
      assert start / SECTOR_SIZE * SECTOR_SIZE == start;
    }
  }

  /** The erases of a range that succeed: those before the first sector outside the chip. */
  function ErasesIn(start: u32, size: u32, chip: nat): (ops: seq<FlashOp>)
    ensures ops <= EraseOps(start, size)
  {
    var room := if start / SECTOR_SIZE < chip / SECTOR_SIZE then chip / SECTOR_SIZE - start / SECTOR_SIZE else 0;
    EraseOps(start, size)[..if room < SectorsFor(size) then room else SectorsFor(size)]
  }

  lemma SectorExists(sector: nat, chip: nat)
    ensures (sector + 1) * SECTOR_SIZE <= chip <==> sector < chip / SECTOR_SIZE
  {}

  class Flash {
    const encrypted: bool
    const readFails: nat -> bool
    const beyondWindow: nat -> byte
    const buf: array<byte>      // MMAP_BUF
    var mem: seq<byte>          // the chip
    ghost var log: seq<FlashOp> // every erase and program since reset
    var readCount: nat          // ROM reads so far
    var mapped: bool
    var mappedSize: u32
    var readMapping: u32        // CURRENT_READ_MAPPING
    var window: nat             // the page the window shows

    predicate Valid()
      reads this
    {
      && buf.Length == MMAP_BUF_SIZE
      && |mem| <= MAX_CHIP && |mem| % SECTOR_SIZE == 0
      && window % PAGE_SIZE == 0
      && (readMapping == NO_MAPPING || readMapping == window)
    }

    /** Every ROM read inside the chip succeeds. */
    ghost predicate Reliable() {
      forall n: nat :: !readFails(n)
    }

    // -----------------------------------------------------------------------
    // ROM routines and hardware
    // -----------------------------------------------------------------------

    method RomRead(src: u32, size: nat) returns (ok: bool)
      requires Valid() && size <= MMAP_BUF_SIZE
      modifies this`readCount, buf
      ensures ok ==> src + 1 + size <= |mem| && buf[..size] == mem[src + 1..src + 1 + size]
      ensures Reliable() && src + 1 + size <= |mem| ==> ok
    {
      var at := src + 1;
      ok := !readFails(readCount) && at + size <= |mem|;
      readCount := readCount + 1;
      if ok {
        forall i | 0 <= i < size {
          buf[i] := mem[at + i];
        }
      }
    }

    method EraseSector(sector: nat) returns (ok: bool)
      modifies this`mem, this`log
      ensures ok <==> (sector + 1) * SECTOR_SIZE <= |old(mem)|
      ensures Performed(old(mem), old(log), mem, log, if ok then [Erase(sector)] else [])
    {
      ok := (sector + 1) * SECTOR_SIZE <= |mem|;
      if ok {
        ApplyAllLast(mem, [], Erase(sector));
        assert [] + [Erase(sector)] == [Erase(sector)];
        mem := Apply(mem, Erase(sector));
        log := log + [Erase(sector)];
      } else {
        PerformedNothing(mem, log);
      }
    }

    method ProgramWord(addr: nat, word: bv32)
      modifies this`mem, this`log
      ensures Performed(old(mem), old(log), mem, log, [Program(addr, word)])
    {
      ApplyAllLast(mem, [], Program(addr, word));
      assert [] + [Program(addr, word)] == [Program(addr, word)];
      mem := Apply(mem, Program(addr, word));
      log := log + [Program(addr, word)];
    }

    method Write(addr: nat, words: seq<bv32>) returns (ok: bool)
      modifies this`mem, this`log
      ensures ok <==> addr + 4 * |words| <= |old(mem)|
      ensures Performed(old(mem), old(log), mem, log, if ok then ProgramWords(addr, words) else [])
    {
      hide Performed;
      ghost var ops := ProgramWords(addr, words);
      PerformedNothing(mem, log);
      ok := addr + 4 * |words| <= |mem|;
      if ok {
        for k := 0 to |words|
          invariant Performed(old(mem), old(log), mem, log, ops[..k])
        {
          ghost var mid, midLog := mem, log;
          ProgramWord(addr + 4 * k, words[k]);
          PerformedThen(old(mem), old(log), mid, midLog, ops[..k], mem, log, [ops[k]]);
          assert ops[..k + 1] == ops[..k] + [ops[k]];
        }
        assert ops[..|words|] == ops;
      }
    }

    /** Erase every sector a range of `size` bytes needs, starting with the one holding `start`;
        stop at the first failure. */
    method EraseRange(start: u32, size: u32) returns (ok: bool)
      modifies this`mem, this`log
      ensures Performed(old(mem), old(log), mem, log, ErasesIn(start, size, |old(mem)|))
      ensures ok <==> ErasesIn(start, size, |old(mem)|) == EraseOps(start, size)
    {
      hide Performed;
      var startSector := start / SECTOR_SIZE;
      var numSectors := SectorsFor(size);
      ghost var ops, chip := EraseOps(start, size), |mem|;
      PerformedNothing(mem, log);
      for i := 0 to numSectors
        invariant |mem| == chip && (i > 0 ==> startSector + i <= chip / SECTOR_SIZE)
        invariant Performed(old(mem), old(log), mem, log, ops[..i])
      {
        SectorExists(startSector + i, chip);
        ghost var mid, midLog := mem, log;
        var erased := EraseSector(startSector + i);
        if !erased {
          assert ErasesIn(start, size, chip) == ops[..i];
          PerformedThen(old(mem), old(log), mid, midLog, ops[..i], mem, log, []);
          assert ops[..i] + [] == ops[..i];
          return false;
        }
        PerformedThen(old(mem), old(log), mid, midLog, ops[..i], mem, log, [ops[i]]);
        PerformedLength(mid, midLog, mem, log, [ops[i]]);
        assert ops[..i + 1] == ops[..i] + [ops[i]];
      }
      assert ops[..numSectors] == ops;
      ok := true;
    }

    /** One byte read through the window at offset `o`, while it shows the page at `page`. */
    function ThroughWindow(page: nat, o: nat): byte
      reads this`mem
    {
      if o < PAGE_SIZE && page + o < |mem| then mem[page + o] else beyondWindow(page + o)
    }

    /** Byte `k` of a cached read at `src`. */
    function Delivered(src: u32, k: nat): byte
      requires k < MMAP_BUF_SIZE
      reads this`mem
    {
      var wordSrc := Add32(src, k / 4 * 4);
      ThroughWindow(wordSrc - wordSrc % PAGE_SIZE, wordSrc % PAGE_SIZE + k % 4)
    }

    lemma DeliveredIsFlash(src: u32, k: nat)
      requires k < MMAP_BUF_SIZE && |mem| <= MAX_CHIP && src + k < |mem|
      requires WindowOffset(src, k) < PAGE_SIZE
      ensures Delivered(src, k) == mem[src + k]
    {
      assert Add32(src, k / 4 * 4) == src + k / 4 * 4;
    }

    // -----------------------------------------------------------------------
    // Reading
    // -----------------------------------------------------------------------

    method ReadRaw(src: u32, size: nat) returns (ok: bool)
      requires Valid() && size <= MMAP_BUF_SIZE
      modifies this`readCount, buf
      ensures ok ==> 0 < src && src + size <= |mem| && buf[..size] == mem[src..src + size]
      ensures Reliable() && 0 < src && src + size <= |mem| ==> ok
    {
      ok := RomRead(Sub32(src, 1), size);
    }

    /** The remembered sliding window: remap only when the page changes, and forget at the end. */
    method ReadViaCache(src: u32, size: nat) returns (ok: bool)
      requires Valid() && size <= MMAP_BUF_SIZE && size % 4 == 0
      modifies this`readMapping, this`window, buf
      ensures Valid() && ok
      ensures readMapping == 0xFFFF_FFFF
      ensures forall k | 0 <= k < size :: buf[k] == Delivered(src, k)
    {
      for word := 0 to size / 4
        invariant Valid()
        invariant forall k | 0 <= k < 4 * word :: buf[k] == Delivered(src, k)
      {
        var wordSrc := Add32(src, word * 4);
        var mapAt := wordSrc - wordSrc % PAGE_SIZE;
        if mapAt != readMapping {
          window := mapAt;
          readMapping := mapAt;
        }
        PageIsNotTheMarker(wordSrc);
        CopyWord(word, wordSrc - mapAt);
        forall k | 4 * word <= k < 4 * word + 4
          ensures buf[k] == Delivered(src, k)
        {
          assert k / 4 == word && buf[k] == buf[4 * word + k % 4];
        }
      }
      readMapping := NO_MAPPING;
      ok := true;
    }

    /** `*dest.add(word) = read_volatile(map_ptr)`. */
    method CopyWord(word: nat, o: nat)
      requires 4 * word + 4 <= buf.Length
      modifies buf
      ensures forall k | 4 * word <= k < 4 * word + 4 :: buf[k] == ThroughWindow(window, o + k - 4 * word)
      ensures forall k | 0 <= k < buf.Length && !(4 * word <= k < 4 * word + 4) :: buf[k] == old(buf[k])
    {
      forall j | 0 <= j < 4 {
        buf[4 * word + j] := ThroughWindow(window, o + j);
      }
    }

    // -----------------------------------------------------------------------
    // The one mapping
    // -----------------------------------------------------------------------

    method Mmap(src: u32, size: u32) returns (p: array?<byte>)
      requires Valid()
      modifies this`readCount, this`mapped, this`mappedSize, this`readMapping, this`window, buf
      ensures Valid()
      ensures p == null || p == buf
      ensures size == 0 || size > 4093 || old(mapped) ==> p == null
      ensures mapped == (old(mapped) || p != null)
      ensures p != null && !encrypted ==> 0 < src && src + size <= |mem|
      ensures p != null && src + size <= |mem| && (!encrypted || StaysInWindow(src, size)) ==> buf[..size] == mem[src..src + size]
      ensures 0 < size <= 4093 && !old(mapped) && src + size <= |mem| && (encrypted || (Reliable() && 0 < src)) ==> p != null
    {
      if size == 0 || size > MMAP_LIMIT {
        return null;
      }
      if mapped {
        return null;
      }
      var ok;
      if encrypted {
        var aligned := (size + 3) / 4 * 4;
        ok := ReadViaCache(src, aligned);
        if src + size <= |mem| && StaysInWindow(src, size) {
          forall k | 0 <= k < size
            ensures buf[k] == mem[src + k]
          {
            DeliveredIsFlash(src, k);
          }
          assert buf[..size] == mem[src..src + size];
        }
      } else {
        ok := ReadRaw(src, size);
      }
      if !ok {
        return null;
      }
      mapped := true;
      mappedSize := size;
      p := buf;
    }

    method Munmap()
      requires Valid()
      modifies this`mapped, this`mappedSize
      ensures Valid() && !mapped
    {
      mapped := false;
      mappedSize := 0;
    }
  }

  lemma PageIsNotTheMarker(a: nat)
    ensures a - a % PAGE_SIZE != NO_MAPPING
  {}
}
