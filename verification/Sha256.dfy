/** The bootloader's streaming SHA-256 and its static pool of two contexts, proved against
    `Fips180`. */
module Sha256Streaming {
  import opened Words
  import F = Fips180

  const TWO_TO_THE_64: int := 0x1_0000_0000_0000_0000

  // -------------------------------------------------------------------------
  // Elementary operations, written with the processor's rotate
  // -------------------------------------------------------------------------

  function Ch(x: bv32, y: bv32, z: bv32): bv32 { (x & y) ^ (!x & z) }

  function Maj(x: bv32, y: bv32, z: bv32): bv32 { (x & y) ^ (x & z) ^ (y & z) }

  function Sigma0(x: bv32): bv32 { F.Xor3(x.RotateRight(2), x.RotateRight(13), x.RotateRight(22)) }

  function Sigma1(x: bv32): bv32 { F.Xor3(x.RotateRight(6), x.RotateRight(11), x.RotateRight(25)) }

  function Gamma0(x: bv32): bv32 { F.Xor3(x.RotateRight(7), x.RotateRight(18), (x >> 3)) }

  function Gamma1(x: bv32): bv32 { F.Xor3(x.RotateRight(17), x.RotateRight(19), (x >> 10)) }

  lemma RotateBy2(x: bv32)
    ensures x.RotateRight(2) == F.Rotr2(x)
  {}

  lemma RotateBy6(x: bv32)
    ensures x.RotateRight(6) == F.Rotr6(x)
  {}

  lemma RotateBy7(x: bv32)
    ensures x.RotateRight(7) == F.Rotr7(x)
  {}

  lemma RotateBy11(x: bv32)
    ensures x.RotateRight(11) == F.Rotr11(x)
  {}

  lemma RotateBy13(x: bv32)
    ensures x.RotateRight(13) == F.Rotr13(x)
  {}

  lemma RotateBy17(x: bv32)
    ensures x.RotateRight(17) == F.Rotr17(x)
  {}

  lemma RotateBy18(x: bv32)
    ensures x.RotateRight(18) == F.Rotr18(x)
  {}

  lemma RotateBy19(x: bv32)
    ensures x.RotateRight(19) == F.Rotr19(x)
  {}

  lemma RotateBy22(x: bv32)
    ensures x.RotateRight(22) == F.Rotr22(x)
  {}

  lemma RotateBy25(x: bv32)
    ensures x.RotateRight(25) == F.Rotr25(x)
  {}

  lemma Sigma0IsStandard(x: bv32)
    ensures Sigma0(x) == F.BigSigma0(x)
  {
    hide F.Xor3, F.Rotr2, F.Rotr13, F.Rotr22;
    RotateBy2(x);
    RotateBy13(x);
    RotateBy22(x);
  }

  lemma Sigma1IsStandard(x: bv32)
    ensures Sigma1(x) == F.BigSigma1(x)
  {
    hide F.Xor3, F.Rotr6, F.Rotr11, F.Rotr25;
    RotateBy6(x);
    RotateBy11(x);
    RotateBy25(x);
  }

  lemma Gamma0IsStandard(x: bv32)
    ensures Gamma0(x) == F.SmallSigma0(x)
  {
    hide F.Xor3, F.Rotr7, F.Rotr18;
    RotateBy7(x);
    RotateBy18(x);
  }

  lemma Gamma1IsStandard(x: bv32)
    ensures Gamma1(x) == F.SmallSigma1(x)
  {
    hide F.Xor3, F.Rotr17, F.Rotr19;
    RotateBy17(x);
    RotateBy19(x);
  }

  lemma ChoiceAndMajorityAreStandard(x: bv32, y: bv32, z: bv32)
    ensures Ch(x, y, z) == F.Ch(x, y, z)
    ensures Maj(x, y, z) == F.Maj(x, y, z)
  {}

  // -------------------------------------------------------------------------
  // One block
  // -------------------------------------------------------------------------

  method MessageSchedule(block: seq<byte>) returns (w: array<bv32>)
    requires |block| == 64
    ensures fresh(w) && w.Length == 64
    ensures forall t | 0 <= t < 64 :: w[t] == F.Schedule(block, t)
  {
    hide F.BeWord, F.Add, Gamma0, Gamma1, F.SmallSigma0, F.SmallSigma1;
    w := new bv32[64];
    for t := 0 to 16
      invariant forall k | 0 <= k < t :: w[k] == F.Schedule(block, k)
    {
      var i := t * 4;
      w[t] := F.BeWord(block[i..i + 4]);
    }
    for t := 16 to 64
      invariant forall k | 0 <= k < t :: w[k] == F.Schedule(block, k)
    {
      Gamma1IsStandard(w[t - 2]);
      Gamma0IsStandard(w[t - 15]);
      w[t] := F.Add(F.Add(F.Add(Gamma1(w[t - 2]), w[t - 7]), Gamma0(w[t - 15])), w[t - 16]);
    }
  }

  /** The working variables after the 64 rounds. */
  method CompressionRounds(start: seq<bv32>, block: seq<byte>) returns (v: F.Vars)
    requires |start| == 8 && |block| == 64
    ensures v == F.Rounds(F.Load(start), block, 64)
  {
    hide F.Add, F.Ch, F.Maj, Ch, Maj, Sigma0, Sigma1, F.BigSigma0, F.BigSigma1, F.Schedule, F.RoundConstant;
    var w := MessageSchedule(block);
    var a, b, c, d := start[0], start[1], start[2], start[3];
    var e, f, g, h := start[4], start[5], start[6], start[7];
    for t := 0 to 64
      modifies {}
      invariant F.Vars(a, b, c, d, e, f, g, h) == F.Rounds(F.Load(start), block, t)
    {
      Sigma1IsStandard(e);
      Sigma0IsStandard(a);
      ChoiceAndMajorityAreStandard(e, f, g);
      ChoiceAndMajorityAreStandard(a, b, c);
      var t1 := F.Add(F.Add(F.Add(F.Add(h, Sigma1(e)), Ch(e, f, g)), F.RoundConstant(t)), w[t]);
      var t2 := F.Add(Sigma0(a), Maj(a, b, c));
      h := g;
      g := f;
      f := e;
      e := F.Add(d, t1);
      d := c;
      c := b;
      b := a;
      a := F.Add(t1, t2);
    }
    v := F.Vars(a, b, c, d, e, f, g, h);
  }

  /** The 64-bit counter after `n` bytes. */
  function BitCount(n: nat): (c: nat)
    ensures c < TWO_TO_THE_64
  {
    (8 * n) % TWO_TO_THE_64
  }

  // -------------------------------------------------------------------------
  // The context
  // -------------------------------------------------------------------------

  class Sha256Context {
    const state: array<bv32>   // current hash value
    const buffer: array<byte>  // one block under construction
    var count: nat             // total bits, a 64-bit counter
    var index: nat             // bytes currently in `buffer`
    ghost var whole: seq<byte> // the bytes absorbed as complete blocks
    ghost var tail: seq<byte>  // the bytes absorbed since

    /** The fixed arrays have their sizes, whatever they hold. */
    predicate Shaped() {
      state.Length == 8 && buffer.Length == 64 && state as object != buffer
    }

    /** Every byte absorbed so far. */
    ghost function Absorbed(): seq<byte>
      reads this
    {
      whole + tail
    }

    /** The hash value covers the complete blocks, the buffer holds the rest. */
    ghost predicate Tracking()
      reads this, state, buffer
    {
      && Shaped()
      && |whole| % 64 == 0
      && index == |tail| < 64
      && state[..] == F.HashBlocks(F.InitialHash(), whole)
      && buffer[..index] == tail
    }

    ghost predicate Valid()
      reads this, state, buffer
    {
      Tracking() && count == BitCount(|Absorbed()|)
    }

    constructor ()
      ensures Valid() && Absorbed() == []
      ensures fresh(state) && fresh(buffer)
    {
      state := new bv32[8](i requires 0 <= i < 8 => F.InitialHash()[i]);
      buffer := new byte[64](_ => 0);
      count, index, whole, tail := 0, 0, [], [];
      new;
      assert state[..] == F.InitialHash();
    }

    /** `*self = Sha256Context::new()`: the pool reuses its slots in place. */
    method Reset()
      requires Shaped()
      modifies this, state, buffer
      ensures Valid() && Absorbed() == []
    {
      var h := F.InitialHash();
      forall i | 0 <= i < 8 {
        state[i] := h[i];
      }
      forall i | 0 <= i < 64 {
        buffer[i] := 0;
      }
      count, index, whole, tail := 0, 0, [], [];
      assert state[..] == F.InitialHash();
    }

    method Compress(block: seq<byte>)
      requires Shaped() && |block| == 64
      modifies state
      ensures state[..] == F.Compress(old(state[..]), block)
    {
      hide F.Add, F.Rounds;
      var v := CompressionRounds(state[..], block);
      var h := state[..];
      var sum := [F.Add(h[0], v.a), F.Add(h[1], v.b), F.Add(h[2], v.c), F.Add(h[3], v.d),
                  F.Add(h[4], v.e), F.Add(h[5], v.f), F.Add(h[6], v.g), F.Add(h[7], v.h)];
      forall i | 0 <= i < 8 {
        state[i] := sum[i];
      }
      assert state[..] == sum;
    }

    /** Absorb `data[..len]`: fill a part-filled block first, then take whole blocks straight from
        the input, then keep the rest. */
    method Update(data: array?<byte>, len: nat)
      requires Valid()
      requires data != null ==> len <= data.Length && data != buffer
      modifies this, state, buffer
      ensures Valid()
      ensures Absorbed() == old(Absorbed()) + if data == null then [] else data[..len]
    {
      hide F.HashBlocks, F.Compress, F.InitialHash, BitCount;
      if data == null || len == 0 {
        return;
      }
      ghost var before := Absorbed();
      var input := data[..len];
      CountAdds(|before|, len);
      count := (count + len * 8) % TWO_TO_THE_64;

      var offset := 0;
      if index > 0 && index + len >= 64 {
        offset := 64 - index;
        FinishBlock(input[..offset]);
      }
      var end := AbsorbBlocks(input, offset);
      KeepRest(input[end..]);
      JoinParts(before, input, offset, end);
    }

    /** Complete the part-filled block with the first bytes of the input. */
    method FinishBlock(part: seq<byte>)
      requires Tracking() && 0 < index && index + |part| == 64
      modifies this`index, this`whole, this`tail, state, buffer
      ensures Tracking() && index == 0
      ensures Absorbed() == old(Absorbed()) + part
    {
      hide F.HashBlocks, F.Compress, F.InitialHash;
      ghost var hash := state[..];
      forall i | 0 <= i < |part| {
        buffer[index + i] := part[i];
      }
      assert state[..] == hash;
      var block := buffer[..];
      assert block == tail + part;
      Compress(block);
      NextBlock(whole, block);
      assert whole + tail + part == whole + block;
      whole, tail := whole + block, [];
      index := 0;
    }

    /** Compress whole blocks of the input until less than one is left. */
    method AbsorbBlocks(input: seq<byte>, offset: nat) returns (end: nat)
      requires Tracking() && offset <= |input|
      requires index == 0 || index + (|input| - offset) < 64
      modifies this`whole, state
      ensures Tracking() && tail == old(tail)
      ensures offset <= end <= |input| && index + (|input| - end) < 64
      ensures Absorbed() == old(Absorbed()) + input[offset..end]
    {
      hide F.HashBlocks, F.Compress, F.InitialHash;
      end := offset;
      while |input| - end >= 64
        invariant offset <= end <= |input|
        invariant Tracking() && tail == old(tail)
        invariant index == 0 || index + (|input| - end) < 64
        invariant Absorbed() == old(Absorbed()) + input[offset..end]
      {
        AbsorbBlock(input[end..end + 64]);
        assert input[offset..end + 64] == input[offset..end] + input[end..end + 64];
        end := end + 64;
      }
    }

    /** Compress one block of the input directly. */
    method AbsorbBlock(block: seq<byte>)
      requires Tracking() && index == 0 && |block| == 64
      modifies this`whole, state
      ensures Tracking()
      ensures Absorbed() == old(Absorbed()) + block
    {
      hide F.HashBlocks, F.Compress, F.InitialHash;
      Compress(block);
      NextBlock(whole, block);
      assert whole + block + [] == whole + block && whole + [] == whole;
      whole := whole + block;
    }

    /** Buffer the rest of the input, too short to complete a block. */
    method KeepRest(rest: seq<byte>)
      requires Tracking() && index + |rest| < 64
      modifies this`index, this`tail, buffer
      ensures Tracking()
      ensures Absorbed() == old(Absorbed()) + rest
    {
      hide F.HashBlocks, F.InitialHash;
      forall i | 0 <= i < |rest| {
        buffer[index + i] := rest[i];
      }
      tail := tail + rest;
      index := index + |rest|;
      assert whole + tail == old(whole + tail) + rest;
    }

    /** Pad the buffered bytes, compress the last one or two blocks and write the digest. */
    method Finalize(digest: array?<byte>)
      requires Valid()
      requires |Absorbed()| < F.MAX_MESSAGE
      requires digest != null ==> digest.Length == 32 && digest != buffer
      modifies this, state, buffer, digest
      ensures digest != null ==> digest[..] == F.Sha256(old(Absorbed()))
    {
      hide F.HashBlocks, F.InitialHash, F.DigestBytes, F.Pad;
      PadAndCompress();
      if digest != null {
        WriteDigest(digest);
      }
    }

    method PadAndCompress()
      requires Valid() && |Absorbed()| < F.MAX_MESSAGE
      modifies this, state, buffer
      ensures state[..] == F.HashBlocks(F.InitialHash(), F.Pad(old(Absorbed())))
    {
      hide F.HashBlocks, F.Compress, F.InitialHash, F.U64Be, F.Zeros;
      ghost var msg, used := Absorbed(), index;
      assert used == |msg| % 64 by { TailLength(whole, tail); }
      PaddingIsStandard(msg, used);
      MarkEnd();
      AppendCount();
    }

    method WriteDigest(digest: array<byte>)
      requires Shaped() && digest.Length == 32
      modifies digest
      ensures digest[..] == F.DigestBytes(old(state[..]))
    {
      hide F.WordBe;
      var out := F.DigestBytes(state[..]);
      forall i | 0 <= i < 32 {
        digest[i] := out[i];
      }
      assert digest[..] == out;
    }

    /** Append the 0x80 marker; when the count no longer fits, fill and compress this block. */
    method MarkEnd()
      requires Tracking()
      modifies this`index, this`whole, this`tail, state, buffer
      ensures Tracking() && index == if old(index) < 56 then old(index) + 1 else 0
      ensures Absorbed() == old(Absorbed()) + [0x80] + F.Zeros(if old(index) < 56 then 0 else 63 - old(index))
    {
      hide F.HashBlocks, F.Compress, F.InitialHash;
      ghost var hash := state[..];
      buffer[index] := 0x80;
      assert state[..] == hash;
      index := index + 1;
      if index > 56 {
        forall i | index <= i < 64 {
          buffer[i] := 0;
        }
        assert state[..] == hash;
        var block := buffer[..];
        assert block == tail + [0x80] + F.Zeros(64 - index);
        Compress(block);
        NextBlock(whole, block);
        assert whole + block == whole + tail + [0x80] + F.Zeros(64 - index);
        whole, tail, index := whole + block, [], 0;
      } else {
        tail := tail + [0x80];
        assert whole + tail == old(whole + tail) + [0x80] + F.Zeros(0);
      }
    }

    /** Zero-fill up to byte 56, append the bit count and compress. */
    method AppendCount()
      requires Tracking() && index <= 56 && count < TWO_TO_THE_64
      modifies state, buffer
      ensures (|Absorbed()| + (56 - index) + 8) % 64 == 0
      ensures state[..] == F.HashBlocks(F.InitialHash(), Absorbed() + F.Zeros(56 - index) + F.U64Be(count))
    {
      hide F.HashBlocks, F.Compress, F.InitialHash, F.U64Be;
      var bits := F.U64Be(count);
      ghost var hash := state[..];
      forall i | index <= i < 56 {
        buffer[i] := 0;
      }
      forall i | 56 <= i < 64 {
        buffer[i] := bits[i - 56];
      }
      assert state[..] == hash;
      var block := buffer[..];
      assert block == tail + F.Zeros(56 - index) + bits;
      Compress(block);
      NextBlock(whole, block);
      assert whole + block == whole + tail + F.Zeros(56 - index) + bits;
    }
  }

  /** The two zero runs, before and after a block boundary, make the run the standard asks for. */
  lemma PaddingIsStandard(msg: seq<byte>, index: nat)
    requires index == |msg| % 64 && |msg| < F.MAX_MESSAGE
    ensures var spill := if index < 56 then 0 else 63 - index;
            var left := if index < 56 then 55 - index else 56;
            F.Pad(msg) == msg + [0x80] + F.Zeros(spill) + F.Zeros(left) + F.U64Be(8 * |msg|)
  {
    hide F.U64Be;
    var q := |msg| / 64;
    if index < 56 {
      assert 55 - |msg| == 64 * (-q) + (55 - index);
    } else {
      assert 55 - |msg| == 64 * (-q - 1) + (119 - index);
    }
  }

  lemma JoinParts(before: seq<byte>, input: seq<byte>, offset: nat, end: nat)
    requires offset <= end <= |input|
    ensures before + input[..offset] + input[offset..end] + input[end..] == before + input
    ensures before + input[0..end] + input[end..] == before + input
  {}

  lemma TailLength(whole: seq<byte>, tail: seq<byte>)
    requires |whole| % 64 == 0 && |tail| < 64
    ensures |whole + tail| % 64 == |tail|
  {}

  /** Both counters are taken modulo 2^64, so they agree however the input is cut. */
  lemma CountAdds(before: nat, more: nat)
    ensures (BitCount(before) + more * 8) % TWO_TO_THE_64 == BitCount(before + more)
  {
    var q := (8 * before) / TWO_TO_THE_64;
    assert 8 * (before + more) == q * TWO_TO_THE_64 + (BitCount(before) + more * 8);
  }

  lemma NextBlock(whole: seq<byte>, block: seq<byte>)
    requires |whole| % 64 == 0 && |block| == 64
    ensures F.HashBlocks(F.InitialHash(), whole + block)
            == F.Compress(F.HashBlocks(F.InitialHash(), whole), block)
  {
    hide F.HashBlocks, F.Compress, F.InitialHash;
    F.HashBlocksConcat(F.InitialHash(), whole, block);
    F.OneBlock(F.HashBlocks(F.InitialHash(), whole), block);
  }

  // -------------------------------------------------------------------------
  // The static pool
  // -------------------------------------------------------------------------

  const POOL_SIZE: nat := 2

  class Sha256Pool {
    const ctx0: Sha256Context
    const ctx1: Sha256Context
    const used: array<bool>

    /** `CTX_POOL[i]` */
    function Context(i: nat): Sha256Context
      requires i < POOL_SIZE
    {
      if i == 0 then ctx0 else ctx1
    }

    /** Everything the pool may change. */
    ghost function Repr(): set<object> {
      {this, used, ctx0, ctx0.state, ctx0.buffer, ctx1, ctx1.state, ctx1.buffer}
    }

    /** Two separate contexts with separate arrays. */
    ghost predicate Shaped() {
      && used.Length == POOL_SIZE
      && ctx0.Shaped() && ctx1.Shaped()
      && ctx0 != ctx1
      && ctx0.state != ctx1.state && ctx0.buffer != ctx1.buffer
      && ctx0.state as object != ctx1.buffer && ctx1.state as object != ctx0.buffer
      && used as object !in {ctx0.state as object, ctx0.buffer, ctx1.state, ctx1.buffer}
    }

    /** Handed-out contexts are consistent; free ones may hold anything. */
    ghost predicate Valid()
      reads Repr()
    {
      && Shaped()
      && (used[0] ==> ctx0.Valid())
      && (used[1] ==> ctx1.Valid())
    }

    /** `h` is a handed-out context. */
    ghost predicate Live(h: Sha256Context)
      reads used
    {
      used.Length == POOL_SIZE && ((h == ctx0 && used[0]) || (h == ctx1 && used[1]))
    }

    /** How many contexts are free. */
    ghost function FreeSlots(): nat
      reads used
    {
      if used.Length != POOL_SIZE then 0 else (if used[0] then 0 else 1) + (if used[1] then 0 else 1)
    }

    constructor ()
      ensures Valid() && fresh(Repr())
      ensures FreeSlots() == POOL_SIZE
    {
      ctx0 := new Sha256Context();
      ctx1 := new Sha256Context();
      used := new bool[POOL_SIZE](_ => false);
    }

    /** Hand out the first free context, freshly initialised. */
    method Start() returns (h: Sha256Context?)
      requires Valid()
      modifies Repr()
      ensures Valid()
      ensures h == null <==> old(FreeSlots()) == 0
      ensures h == null ==> FreeSlots() == 0
      ensures h != null ==> Live(h) && h.Absorbed() == [] && FreeSlots() == old(FreeSlots()) - 1
      ensures ctx0 != h && old(used[0]) ==> used[0] && ctx0.Absorbed() == old(ctx0.Absorbed())
      ensures ctx1 != h && old(used[1]) ==> used[1] && ctx1.Absorbed() == old(ctx1.Absorbed())
    {
      hide F.HashBlocks, F.InitialHash;
      for i := 0 to POOL_SIZE
        invariant Valid() && used[..] == old(used[..])
        invariant forall k | 0 <= k < i :: used[k]
        invariant ctx0.Absorbed() == old(ctx0.Absorbed()) && ctx1.Absorbed() == old(ctx1.Absorbed())
      {
        if !used[i] {
          Context(i).Reset();
          used[i] := true;
          return Context(i);
        }
      }
      h := null;
    }

    /** Feed `data[..len]`; without a context this does nothing. */
    method Data(h: Sha256Context?, data: array<byte>, len: nat)
      requires Valid() && (h != null ==> Live(h))
      requires len <= data.Length && data !in Repr()
      modifies Repr()
      ensures Valid() && FreeSlots() == old(FreeSlots())
      ensures h != null ==> Live(h) && h.Absorbed() == old(h.Absorbed()) + data[..len]
      ensures ctx0 != h && old(used[0]) ==> used[0] && ctx0.Absorbed() == old(ctx0.Absorbed())
      ensures ctx1 != h && old(used[1]) ==> used[1] && ctx1.Absorbed() == old(ctx1.Absorbed())
    {
      hide F.HashBlocks, F.InitialHash, F.Sha256, Sha256Context.Valid;
      if h == null {
        return;
      }
      h.Update(data, len);
      assert used[..] == old(used[..]);
    }

    /** Write the digest and return the context to the pool; without a context, do nothing. */
    method Finish(h: Sha256Context?, digest: array<byte>)
      requires Valid() && (h != null ==> Live(h) && |h.Absorbed()| < F.MAX_MESSAGE)
      requires digest.Length == 32 && digest !in Repr()
      modifies Repr(), digest
      ensures Valid()
      ensures h == null ==> digest[..] == old(digest[..]) && FreeSlots() == old(FreeSlots())
      ensures h != null ==> digest[..] == F.Sha256(old(h.Absorbed()))
      ensures h != null ==> FreeSlots() == old(FreeSlots()) + 1
      ensures ctx0 != h && old(used[0]) ==> used[0] && ctx0.Absorbed() == old(ctx0.Absorbed())
      ensures ctx1 != h && old(used[1]) ==> used[1] && ctx1.Absorbed() == old(ctx1.Absorbed())
    {
      hide F.HashBlocks, F.InitialHash, F.Sha256, Sha256Context.Valid;
      if h == null {
        return;
      }
      h.Finalize(digest);
      assert used[..] == old(used[..]);
      Release(h);
    }

    /** Find the slot by address and mark it free. */
    method Release(h: Sha256Context)
      requires Shaped() && Live(h)
      modifies used
      ensures used[0] == (old(used[0]) && h != ctx0)
      ensures used[1] == (old(used[1]) && h != ctx1)
    {
      for i := 0 to POOL_SIZE
        invariant used[0] == old(used[0]) && used[1] == old(used[1])
        invariant (i > 0 ==> h != ctx0) && (i > 1 ==> h != ctx1)
      {
        if Context(i) == h {
          used[i] := false;
          break;
        }
      }
    }
  }

  // -------------------------------------------------------------------------
  // Any way of cutting a message into chunks gives the standard's hash
  // -------------------------------------------------------------------------

  function Concat(chunks: seq<seq<byte>>): seq<byte> {
    if chunks == [] then [] else Concat(chunks[..|chunks| - 1]) + chunks[|chunks| - 1]
  }

  /** start / data* / finish over an arbitrary list of chunks. */
  method HashChunks(pool: Sha256Pool, chunks: seq<seq<byte>>) returns (digest: array<byte>)
    requires pool.Valid() && pool.FreeSlots() > 0
    requires |Concat(chunks)| < F.MAX_MESSAGE
    modifies pool.Repr()
    ensures digest.Length == 32 && digest[..] == F.Sha256(Concat(chunks))
    ensures pool.Valid() && pool.FreeSlots() == old(pool.FreeSlots())
  {
    hide F.HashBlocks, F.InitialHash, F.Sha256, Sha256Context.Valid;
    digest := new byte[32](_ => 0);
    var h := pool.Start();
    for i := 0 to |chunks|
      invariant pool.Valid() && pool.Live(h) && pool.FreeSlots() == old(pool.FreeSlots()) - 1
      invariant h.Absorbed() == Concat(chunks[..i])
    {
      assert chunks[..i + 1][..i] == chunks[..i];
      var chunk := new byte[|chunks[i]|](k requires 0 <= k < |chunks[i]| => chunks[i][k]);
      assert chunk[..chunk.Length] == chunks[i];
      pool.Data(h, chunk, chunk.Length);
    }
    assert chunks[..|chunks|] == chunks;
    pool.Finish(h, digest);
  }
}
