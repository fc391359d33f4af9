/** NOR flash as a sequence of cells, and the two operations that change it.  A run of the boot
    flow or of the application is a list of operations; losing power is stopping inside it. */
module FlashOps {
  import opened Words

  const SECTOR_SIZE: nat := 4096

  /** Erase one sector to 0xFF, or program one word by clearing bits. */
  datatype FlashOp = Erase(sector: nat) | Program(addr: nat, word: bv32)

  predicate Touches(op: FlashOp, i: nat) {
    match op
    case Erase(s) => s * SECTOR_SIZE <= i < (s + 1) * SECTOR_SIZE
    case Program(a, _) => a <= i < a + 4
  }

  /** Programming can only turn ones into zeros. */
  function And(x: byte, y: byte): byte { x & y }

  lemma AndErased(x: byte)
    ensures And(0xFF, x) == x
  {}

  function CellAfter(cell: byte, op: FlashOp, i: nat): byte {
    if !Touches(op, i) then cell
    else if op.Erase? then 0xFF
    else And(cell, WordLe(op.word)[i - op.addr])
  }

  function Apply(mem: seq<byte>, op: FlashOp): (r: seq<byte>)
    ensures |r| == |mem|
    ensures forall i | 0 <= i < |mem| :: r[i] == CellAfter(mem[i], op, i)
  {
    seq(|mem|, i requires 0 <= i < |mem| => CellAfter(mem[i], op, i))
  }

  function ApplyAll(mem: seq<byte>, ops: seq<FlashOp>): (r: seq<byte>)
    ensures |r| == |mem|
    decreases |ops|
  {
    if ops == [] then mem else Apply(ApplyAll(mem, ops[..|ops| - 1]), ops[|ops| - 1])
  }

  lemma ApplyAllLast(mem: seq<byte>, ops: seq<FlashOp>, op: FlashOp)
    ensures ApplyAll(mem, ops + [op]) == Apply(ApplyAll(mem, ops), op)
  {
    assert (ops + [op])[..|ops|] == ops;
  }

  lemma {:induction false} ApplyAllConcat(mem: seq<byte>, a: seq<FlashOp>, b: seq<FlashOp>)
    ensures ApplyAll(mem, a + b) == ApplyAll(ApplyAll(mem, a), b)
    decreases |b|
  {
    if b == [] {
      assert a + b == a;
    } else {
      var b' := b[..|b| - 1];
      assert (a + b)[..|a + b| - 1] == a + b';
      ApplyAllConcat(mem, a, b');
    }
  }

  /** Between two states of a chip and its operation log, exactly `ops` were performed. */
  predicate Performed(mem: seq<byte>, log: seq<FlashOp>, after: seq<byte>, afterLog: seq<FlashOp>, ops: seq<FlashOp>) {
    after == ApplyAll(mem, ops) && afterLog == log + ops
  }

  lemma PerformedNothing(mem: seq<byte>, log: seq<FlashOp>)
    ensures Performed(mem, log, mem, log, [])
  {
    assert log + [] == log;
  }

  lemma PerformedLength(mem: seq<byte>, log: seq<FlashOp>, after: seq<byte>, afterLog: seq<FlashOp>, ops: seq<FlashOp>)
    requires Performed(mem, log, after, afterLog, ops)
    ensures |after| == |mem|
  {}

  lemma PerformedThen(mem: seq<byte>, log: seq<FlashOp>, mid: seq<byte>, midLog: seq<FlashOp>, a: seq<FlashOp>,
                      after: seq<byte>, afterLog: seq<FlashOp>, b: seq<FlashOp>)
    requires Performed(mem, log, mid, midLog, a) && Performed(mid, midLog, after, afterLog, b)
    ensures Performed(mem, log, after, afterLog, a + b)
  {
    ApplyAllConcat(mem, a, b);
    assert log + a + b == log + (a + b);
  }

  /** Cells no operation touches keep their value. */
  lemma {:induction false} Untouched(mem: seq<byte>, ops: seq<FlashOp>, i: nat)
    requires i < |mem|
    requires forall k | 0 <= k < |ops| :: !Touches(ops[k], i)
    ensures ApplyAll(mem, ops)[i] == mem[i]
    decreases |ops|
  {
    if ops != [] {
      Untouched(mem, ops[..|ops| - 1], i);
    }
  }

  /** All operations stay inside `[lo, hi)`. */
  predicate Within(ops: seq<FlashOp>, lo: nat, hi: nat) {
    forall k | 0 <= k < |ops| ::
      match ops[k]
      case Erase(s) => lo <= s * SECTOR_SIZE && (s + 1) * SECTOR_SIZE <= hi
      case Program(a, _) => lo <= a && a + 4 <= hi
  }

  lemma WithinLeavesRest(mem: seq<byte>, ops: seq<FlashOp>, lo: nat, hi: nat)
    requires Within(ops, lo, hi)
    ensures forall i | 0 <= i < |mem| && !(lo <= i < hi) :: ApplyAll(mem, ops)[i] == mem[i]
  {
    forall i | 0 <= i < |mem| && !(lo <= i < hi)
      ensures ApplyAll(mem, ops)[i] == mem[i]
    {
      Untouched(mem, ops, i);
    }
  }

  lemma WithinConcat(a: seq<FlashOp>, b: seq<FlashOp>, lo: nat, hi: nat)
    ensures Within(a + b, lo, hi) <==> Within(a, lo, hi) && Within(b, lo, hi)
  {
    if Within(a + b, lo, hi) {
      assert forall k | 0 <= k < |a| :: a[k] == (a + b)[k];
      assert forall k | 0 <= k < |b| :: b[k] == (a + b)[|a| + k];
    }
  }

  // -------------------------------------------------------------------------
  // Words in flash
  // -------------------------------------------------------------------------

  function WordAt(mem: seq<byte>, a: nat): bv32
    requires a + 4 <= |mem|
  {
    LeWord(mem[a..a + 4])
  }

  /** The words are written one by one, in address order. */
  function ProgramWords(addr: nat, words: seq<bv32>): (ops: seq<FlashOp>)
    ensures |ops| == |words|
    ensures forall k | 0 <= k < |words| :: ops[k] == Program(addr + 4 * k, words[k])
  {
    seq(|words|, k requires 0 <= k < |words| => Program(addr + 4 * k, words[k]))
  }

  lemma ErasedWord(mem: seq<byte>, s: nat, a: nat)
    requires s * SECTOR_SIZE <= a && a + 4 <= (s + 1) * SECTOR_SIZE && a + 4 <= |mem|
    ensures WordAt(Apply(mem, Erase(s)), a) == 0xFFFF_FFFF
  {
    hide LeWord, WordLe;
    var e := Apply(mem, Erase(s))[a..a + 4];
    assert e == [0xFF, 0xFF, 0xFF, 0xFF];
    AllOnesWord();
  }

  lemma AllOnesWord()
    ensures LeWord([0xFF, 0xFF, 0xFF, 0xFF]) == 0xFFFF_FFFF
    ensures WordLe(0xFFFF_FFFF) == [0xFF, 0xFF, 0xFF, 0xFF]
  {}

  /** Programming an erased word stores it exactly. */
  lemma ProgrammedWord(mem: seq<byte>, a: nat, w: bv32)
    requires a + 4 <= |mem|
    requires WordAt(mem, a) == 0xFFFF_FFFF
    ensures WordAt(Apply(mem, Program(a, w)), a) == w
  {
    hide LeWord, WordLe, And;
    AllOnesWord();
    WordLeOfLeWord(mem[a..a + 4]);
    var r := Apply(mem, Program(a, w));
    forall k | 0 <= k < 4
      ensures r[a + k] == WordLe(w)[k]
    {
      assert mem[a + k] == mem[a..a + 4][k];
      AndErased(WordLe(w)[k]);
    }
    assert r[a..a + 4] == WordLe(w);
    LeWordOfWordLe(w);
  }

  lemma UntouchedWord(mem: seq<byte>, op: FlashOp, a: nat)
    requires a + 4 <= |mem|
    requires forall k | a <= k < a + 4 :: !Touches(op, k)
    ensures WordAt(Apply(mem, op), a) == WordAt(mem, a)
  {
    assert Apply(mem, op)[a..a + 4] == mem[a..a + 4];
  }
}
