/** The 4096-byte signature block appended by the signing tool: layout, parsing, and what its
    CRC protects. */
module SigBlocks {
  import opened Words
  import opened Wrappers
  import opened Crc

  const MAGIC: byte := 0xE7
  const VERSION: byte := 0x02
  const BLOCK_SIZE: nat := 4096
  const HEADER_SIZE: nat := 168

  datatype SigBlock = SigBlock(imageDigest: seq<byte>, signature: seq<byte>, pubKey: seq<byte>)
  {
    predicate Valid() {
      |imageDigest| == 32 && |signature| == 64 && |pubKey| == 64
    }
  }

  // -------------------------------------------------------------------------
  // The layout and its inverse
  // -------------------------------------------------------------------------

  function Fill(b: byte, n: nat): (s: seq<byte>)
    ensures |s| == n
    ensures forall i | 0 <= i < n :: s[i] == b
  {
    seq(n, i => b)
  }

  /** The bytes the CRC covers. */
  function Covered(sig: SigBlock): (s: seq<byte>)
    requires sig.Valid()
    ensures |s| == 164
  {
    [MAGIC, VERSION, 0, 0] + sig.imageDigest + sig.signature + sig.pubKey
  }

  function Layout(sig: SigBlock): (s: seq<byte>)
    requires sig.Valid()
    ensures |s| == BLOCK_SIZE
  {
    Covered(sig) + WordLe(Crc32(Covered(sig))) + Fill(0xFF, BLOCK_SIZE - HEADER_SIZE)
  }

  predicate Accepted(raw: seq<byte>)
    requires |raw| == BLOCK_SIZE
  {
    raw[0] == MAGIC && raw[1] == VERSION && LeWord(raw[164..168]) == Crc32(raw[..164])
  }

  function Parse(raw: seq<byte>): (r: Option<SigBlock>)
    requires |raw| == BLOCK_SIZE
    ensures r.Some? ==> r.value.Valid()
  {
    if Accepted(raw) then Some(SigBlock(raw[4..36], raw[36..100], raw[100..164])) else None
  }

  // -------------------------------------------------------------------------
  // The tool's methods
  // -------------------------------------------------------------------------

  /** `copy_from_slice` of `src` to position `at` of a block that holds `done` and then only 0xFF. */
  method CopyInto(block: array<byte>, ghost done: seq<byte>, at: nat, src: seq<byte>)
    requires |done| == at && at + |src| <= block.Length
    requires block[..] == done + Fill(0xFF, block.Length - at)
    modifies block
    ensures block[..] == done + src + Fill(0xFF, block.Length - at - |src|)
  {
    forall i | 0 <= i < |src| {
      block[at + i] := src[i];
    }
    assert forall i | 0 <= i < at :: block[i] == old(block[..])[i];
    assert forall i | at + |src| <= i < block.Length :: block[i] == old(block[..])[i];
  }

  method ToBytes(sig: SigBlock) returns (block: array<byte>)
    requires sig.Valid()
    ensures fresh(block)
    ensures block.Length == BLOCK_SIZE
    ensures block[..] == Layout(sig)
  {
    hide Crc32, WordLe;
    block := new byte[BLOCK_SIZE](_ => 0xFF);
    CopyInto(block, [], 0, [MAGIC, VERSION, 0, 0]);
    CopyInto(block, [MAGIC, VERSION, 0, 0], 4, sig.imageDigest);
    CopyInto(block, [MAGIC, VERSION, 0, 0] + sig.imageDigest, 36, sig.signature);
    CopyInto(block, [MAGIC, VERSION, 0, 0] + sig.imageDigest + sig.signature, 100, sig.pubKey);
    assert block[..164] == block[..][..164] == Covered(sig);
    var crc := Crc32Bytes(block[..164]);
    CopyInto(block, Covered(sig), 164, WordLe(crc));
  }

  method FromBytes(raw: array<byte>) returns (r: Option<SigBlock>)
    requires raw.Length == BLOCK_SIZE
    ensures r == Parse(raw[..])
  {
    if raw[0] != MAGIC || raw[1] != VERSION {
      return None;
    }
    assert raw[..][..164] == raw[..164] && raw[..][164..168] == raw[164..168];
    var storedCrc := LeWord(raw[164..168]);
    var computedCrc := Crc32Bytes(raw[..164]);
    if storedCrc != computedCrc {
      return None;
    }
    r := Some(SigBlock(raw[4..36], raw[36..100], raw[100..164]));
  }

  // -------------------------------------------------------------------------
  // Round trips
  // -------------------------------------------------------------------------

  lemma ParseOfLayout(sig: SigBlock)
    requires sig.Valid()
    ensures Parse(Layout(sig)) == Some(sig)
  {
    hide Crc32, LeWord, WordLe;
    var raw := Layout(sig);
    assert raw[..164] == Covered(sig);
    assert raw[164..168] == WordLe(Crc32(Covered(sig)));
    LeWordOfWordLe(Crc32(Covered(sig)));
    assert raw[4..36] == sig.imageDigest && raw[36..100] == sig.signature && raw[100..164] == sig.pubKey;
  }

  /** Printing a parsed block restores it exactly when the bytes the parser ignores, the two
      reserved ones and the padding, held what the printer puts there. */
  lemma LayoutOfParse(raw: seq<byte>)
    requires |raw| == BLOCK_SIZE
    requires Parse(raw).Some?
    ensures Layout(Parse(raw).value) == raw
            <==> raw[2] == 0 && raw[3] == 0 && forall i | HEADER_SIZE <= i < BLOCK_SIZE :: raw[i] == 0xFF
  {
    hide Crc32, LeWord, WordLe;
    var sig := Parse(raw).value;
    var out := Layout(sig);
    assert out[..164] == Covered(sig);
    assert out[2] == 0 && out[3] == 0;
    assert out[HEADER_SIZE..] == Fill(0xFF, BLOCK_SIZE - HEADER_SIZE);
    assert forall i | HEADER_SIZE <= i < BLOCK_SIZE :: out[i] == out[HEADER_SIZE..][i - HEADER_SIZE];
    if raw[2] == 0 && raw[3] == 0 && forall i | HEADER_SIZE <= i < BLOCK_SIZE :: raw[i] == 0xFF {
      assert Covered(sig) == raw[..164];
      WordLeOfLeWord(raw[164..168]);
      assert out == raw[..164] + raw[164..168] + raw[168..];
    }
  }

  // -------------------------------------------------------------------------
  // What the CRC protects
  // -------------------------------------------------------------------------

  lemma AcceptedIffResidue(raw: seq<byte>)
    requires |raw| == BLOCK_SIZE
    ensures Accepted(raw)
            <==> raw[0] == MAGIC && raw[1] == VERSION && Register(ALL_ONES, raw[..HEADER_SIZE]) == RESIDUE
  {
    hide Crc32, LeWord, Register;
    assert raw[..HEADER_SIZE] == raw[..164] + raw[164..168];
    ResidueCharacterisesCheck(raw[..164], raw[164..168]);
  }

  /** Whatever four consecutive bytes of the first 168 are changed, an accepted block stops
      parsing, including when the stored CRC itself is part of the change. */
  lemma BurstRejected(good: seq<byte>, bad: seq<byte>, p: nat)
    requires |good| == |bad| == BLOCK_SIZE
    requires Parse(good).Some?
    requires good[..HEADER_SIZE] != bad[..HEADER_SIZE]
    requires DifferWithinBurst(good[..HEADER_SIZE], bad[..HEADER_SIZE], p)
    ensures Parse(bad) == None
  {
    hide Crc32, LeWord, Register;
    AcceptedIffResidue(good);
    AcceptedIffResidue(bad);
    BurstDetected(ALL_ONES, good[..HEADER_SIZE], bad[..HEADER_SIZE], p);
  }

  // -------------------------------------------------------------------------
  // Finding the content in front of a block
  // -------------------------------------------------------------------------

  predicate EndsInBlock(image: seq<byte>) {
    && |image| >= BLOCK_SIZE
    && image[|image| - BLOCK_SIZE] == MAGIC
    && image[|image| - BLOCK_SIZE + 1] == VERSION
  }

  function ImageContentLen(image: seq<byte>): nat {
    if EndsInBlock(image) then |image| - BLOCK_SIZE else |image|
  }

  /** Signing hashes the same bytes whether or not the image already carries a block, unless
      the unsigned image itself happens to look signed. */
  lemma ResigningHashesTheSameContent(image: seq<byte>, sig: SigBlock)
    requires sig.Valid()
    ensures ImageContentLen(image + Layout(sig)) == |image|
    ensures ImageContentLen(image) == ImageContentLen(image + Layout(sig)) <==> !EndsInBlock(image)
  {
    var signed := image + Layout(sig);
    assert signed[|image|] == Layout(sig)[0] && signed[|image| + 1] == Layout(sig)[1];
  }
}
