/** The transfer protocol between `ota_push.py` and `cmd_ota`: one chunk in flight, one '.' per
    chunk, over a byte stream that may deliver any number of bytes at a time. */
module OtaLink {
  import opened Words
  import opened FlashOps
  import opened FlashDriver
  import OtaData
  import T = OtaTransfer

  const RECV_MAX: nat := 4096
  const DOT: byte := 0x2E
  const LETTER_O: byte := 0x4F
  const LETTER_K: byte := 0x4B

  /** `puts_uart`: a carriage return goes in front of every line feed. */
  function PutsUart(text: seq<byte>): seq<byte>
    decreases |text|
  {
    if text == [] then [] else PutsUart(text[..|text| - 1]) + if text[|text| - 1] == 0x0A then [0x0D, 0x0A] else [text[|text| - 1]]
  }

  /** What `puts_uart("\r\nOK\r\n")` puts on the wire. */
  const FINISH: seq<byte> := [0x0D, 0x0D, 0x0A, 0x4F, 0x4B, 0x0D, 0x0D, 0x0A]

  lemma FinishOnTheWire()
    ensures PutsUart([0x0D, 0x0A, 0x4F, 0x4B, 0x0D, 0x0A]) == FINISH
  {
    hide PutsUart;
    PutsNothing();
    var t1, w1 := PutsChar([], [], 0x0D);
    var t2, w2 := PutsChar(t1, w1, 0x0A);
    var t3, w3 := PutsChar(t2, w2, 0x4F);
    var t4, w4 := PutsChar(t3, w3, 0x4B);
    var t5, w5 := PutsChar(t4, w4, 0x0D);
    var t6, w6 := PutsChar(t5, w5, 0x0A);
    assert t6 == [0x0D, 0x0A, 0x4F, 0x4B, 0x0D, 0x0A];
    assert w6 == FINISH;
  }

  /** One more character of the text, and what it adds to the wire. */
  lemma PutsChar(text: seq<byte>, wire: seq<byte>, b: byte) returns (longer: seq<byte>, longerWire: seq<byte>)
    requires PutsUart(text) == wire
    ensures longer == text + [b] && PutsUart(longer) == longerWire
    ensures longerWire == wire + if b == 0x0A then [0x0D, 0x0A] else [b]
  {
    longer, longerWire := text + [b], wire + if b == 0x0A then [0x0D, 0x0A] else [b];
    assert longer[..|text|] == text;
  }

  lemma PutsNothing()
    ensures PutsUart([]) == []
  {}

  datatype Phase = Sending | AwaitAck | AwaitOk | Closed

  /** Host: phase, bytes sent, bytes heard since the last marker, bytes thrown away behind it.
      Channels: up to the device, down to the host.  Device: bytes in flash, bytes of the current
      chunk, whether the record is written and the final message sent. */
  datatype Link = Link(
    host: Phase, offset: nat, heard: seq<byte>, discarded: seq<byte>,
    up: seq<byte>, down: seq<byte>,
    flashed: seq<byte>, chunk: seq<byte>, finished: bool)

  datatype Move = SendChunk | HostHears(n: nat) | DeviceReads | DeviceWrites | DeviceFinishes

  function Least(a: nat, b: nat): nat { if a < b then a else b }

  /** The size of the chunk at `at`, computed alike on both sides. */
  function ChunkAt(fw: seq<byte>, at: nat): nat
    requires at <= |fw|
  {
    Least(T.CHUNK, |fw| - at)
  }

  function FirstDot(b: seq<byte>): (i: nat)
    ensures i <= |b|
    ensures forall k | 0 <= k < i :: b[k] != DOT
    ensures i < |b| ==> b[i] == DOT
  {
    if b == [] || b[0] == DOT then 0 else 1 + FirstDot(b[1..])
  }

  predicate HasOk(b: seq<byte>) {
    exists i | 0 <= i < |b| - 1 :: b[i] == LETTER_O && b[i + 1] == LETTER_K
  }

  predicate Enabled(s: Link, fw: seq<byte>, m: Move) {
    match m
    case SendChunk => s.host == Sending && s.offset < |fw|
    case HostHears(n) => (s.host == AwaitAck || s.host == AwaitOk) && 1 <= n <= Least(|s.down|, RECV_MAX)
    case DeviceReads => s.up != [] && |s.flashed| < |fw| && |s.chunk| < ChunkAt(fw, |s.flashed|)
    case DeviceWrites => |s.flashed| < |fw| && |s.chunk| == ChunkAt(fw, |s.flashed|)
    case DeviceFinishes => |s.flashed| >= |fw| && !s.finished
  }

  /** `recv_until` gets `n` more bytes; when the marker has arrived it returns, and whatever came
      behind the marker is gone. */
  function Hears(s: Link, fw: seq<byte>, n: nat): Link
    requires n <= |s.down|
  {
    var heard := s.heard + s.down[..n];
    var t := s.(down := s.down[n..]);
    if s.host == AwaitAck && FirstDot(heard) < |heard| then
      t.(host := if s.offset < |fw| then Sending else AwaitOk, heard := [], discarded := heard[FirstDot(heard) + 1..])
    else if s.host == AwaitOk && HasOk(heard) then
      t.(host := Closed, heard := heard)
    else
      t.(heard := heard)
  }

  function Next(s: Link, fw: seq<byte>, m: Move): Link
    requires Enabled(s, fw, m)
  {
    match m
    case SendChunk =>
      var n := ChunkAt(fw, s.offset);
      s.(host := AwaitAck, offset := s.offset + n, up := s.up + fw[s.offset..s.offset + n])
    case HostHears(n) => Hears(s, fw, n)
    case DeviceReads => s.(chunk := s.chunk + [s.up[0]], up := s.up[1..])
    case DeviceWrites => s.(flashed := s.flashed + s.chunk, chunk := [], down := s.down + [DOT])
    case DeviceFinishes => s.(down := s.down + FINISH, finished := true)
  }

  // -------------------------------------------------------------------------
  // The invariant
  // -------------------------------------------------------------------------

  /** Left-overs of the `READY` line. */
  predicate Quiet(b: seq<byte>) {
    forall i | 0 <= i < |b| :: b[i] == 0x0D || b[i] == 0x0A
  }

  predicate Start(s: Link) {
    Quiet(s.down) && s == Link(Sending, 0, [], [], [], s.down, [], [], false)
  }

  /** Chunk boundaries. */
  predicate AtBoundary(fw: seq<byte>, at: nat) {
    at == |fw| || (at < |fw| && at % T.CHUNK == 0)
  }

  /** What the device has sent behind the acknowledgement of the last chunk. */
  function Tail(s: Link): seq<byte> {
    if s.finished then FINISH else []
  }

  /** One '.' is on its way, behind nothing but left-overs. */
  ghost predicate AckInFlight(s: Link) {
    exists q: nat :: AckAt(s, q)
  }

  predicate AckAt(s: Link, q: nat) {
    q < |s.down| && Quiet(s.down[..q]) && s.down[q] == DOT && s.down[q + 1..] == Tail(s)
  }

  predicate DataInv(s: Link, fw: seq<byte>) {
    && s.offset <= |fw| && |s.flashed| <= s.offset
    && s.flashed == fw[..|s.flashed|]
    && s.chunk + s.up == fw[|s.flashed|..s.offset]
    && AtBoundary(fw, |s.flashed|) && AtBoundary(fw, s.offset)
    && (s.offset == |s.flashed| || s.offset == |s.flashed| + ChunkAt(fw, |s.flashed|))
    && (s.finished ==> |s.flashed| == |fw|)
  }

  ghost predicate HostInv(s: Link, fw: seq<byte>) {
    match s.host
    case Sending => s.offset < |fw| && s.offset == |s.flashed| && Quiet(s.down) && s.heard == []
    case AwaitAck =>
      && Quiet(s.heard)
      && if s.offset == |s.flashed| then AckInFlight(s) else Quiet(s.down)
    case AwaitOk => |s.flashed| == |fw| && s.discarded + s.heard + s.down == Tail(s) && !HasOk(s.heard)
    case Closed => |s.flashed| == |fw| && s.discarded + s.heard + s.down == Tail(s) && HasOk(s.heard)
  }

  ghost predicate Inv(s: Link, fw: seq<byte>) {
    DataInv(s, fw) && HostInv(s, fw)
  }

  lemma StartIsFine(s: Link, fw: seq<byte>)
    requires Start(s) && fw != []
    ensures Inv(s, fw)
  {}

  lemma SendKeeps(s: Link, fw: seq<byte>)
    requires Inv(s, fw) && Enabled(s, fw, SendChunk)
    ensures Inv(Next(s, fw, SendChunk), fw)
  {
    var t := Next(s, fw, SendChunk);
    assert s.chunk + s.up == [];
    assert t.chunk + t.up == fw[|t.flashed|..t.offset];
    NextBoundary(fw, s.offset);
  }

  lemma NextBoundary(fw: seq<byte>, at: nat)
    requires AtBoundary(fw, at)
    ensures AtBoundary(fw, at + ChunkAt(fw, at))
  {
    if at + T.CHUNK < |fw| {
      var n := at / T.CHUNK;
      assert at == T.CHUNK * n;
      assert (T.CHUNK * (n + 1)) % T.CHUNK == 0;
    }
  }

  lemma ReadKeeps(s: Link, fw: seq<byte>)
    requires Inv(s, fw) && Enabled(s, fw, DeviceReads)
    ensures Inv(Next(s, fw, DeviceReads), fw)
  {
    var t := Next(s, fw, DeviceReads);
    assert t.chunk + t.up == s.chunk + s.up;
  }

  lemma WriteKeeps(s: Link, fw: seq<byte>)
    requires Inv(s, fw) && Enabled(s, fw, DeviceWrites)
    ensures Inv(Next(s, fw, DeviceWrites), fw)
  {
    var t := Next(s, fw, DeviceWrites);
    var pending := fw[|s.flashed|..s.offset];
    assert |s.chunk + s.up| == |pending|;
    assert s.up == [] && s.chunk == pending by {
      assert s.chunk == (s.chunk + s.up)[..|s.chunk|];
    }
    assert t.flashed == fw[..s.offset];
    assert s.host == AwaitAck;
    assert t.down[..|s.down|] == s.down && t.down[|s.down| + 1..] == [];
    assert AckAt(t, |s.down|);
  }

  lemma FinishKeeps(s: Link, fw: seq<byte>)
    requires Inv(s, fw) && Enabled(s, fw, DeviceFinishes)
    ensures Inv(Next(s, fw, DeviceFinishes), fw)
  {
    var t := Next(s, fw, DeviceFinishes);
    if s.host == AwaitAck {
      var q: nat :| AckAt(s, q);
      assert t.down[..q] == s.down[..q];
      assert t.down[q + 1..] == s.down[q + 1..] + FINISH;
      assert AckAt(t, q);
    } else {
      assert s.discarded + s.heard + s.down == [];
      assert t.discarded + t.heard + t.down == FINISH;
    }
  }

  lemma DotPosition(quiet: seq<byte>, rest: seq<byte>)
    requires Quiet(quiet)
    ensures FirstDot(quiet) == |quiet|
    ensures FirstDot(quiet + [DOT] + rest) == |quiet|
  {
    var b := quiet + [DOT] + rest;
    assert b[|quiet|] == DOT;
    assert forall k | 0 <= k < |quiet| :: b[k] == quiet[k] != DOT;
  }

  lemma HearKeeps(s: Link, fw: seq<byte>, n: nat)
    requires Inv(s, fw) && Enabled(s, fw, HostHears(n))
    ensures Inv(Next(s, fw, HostHears(n)), fw)
  {
    hide Hears, HasOk, DataInv;
    if s.host == AwaitAck {
      if s.offset == |s.flashed| {
        var q: nat :| AckAt(s, q);
        HearAck(s, fw, n, q);
      } else {
        HearLeftOvers(s, fw, n);
      }
    } else {
      HearFinish(s, fw, n);
    }
  }

  lemma HearLeftOvers(s: Link, fw: seq<byte>, n: nat)
    requires Inv(s, fw) && Enabled(s, fw, HostHears(n))
    requires s.host == AwaitAck && s.offset != |s.flashed|
    ensures Inv(Next(s, fw, HostHears(n)), fw)
  {
    hide DataInv, HasOk;
    var t, heard := Next(s, fw, HostHears(n)), s.heard + s.down[..n];
    DotPosition(heard, []);
    assert t == s.(heard := heard, down := s.down[n..]);
    SameData(s, t, fw);
  }

  lemma HearFinish(s: Link, fw: seq<byte>, n: nat)
    requires Inv(s, fw) && Enabled(s, fw, HostHears(n))
    requires s.host == AwaitOk
    ensures Inv(Next(s, fw, HostHears(n)), fw)
  {
    hide DataInv, HasOk, FirstDot;
    var t, heard := Next(s, fw, HostHears(n)), s.heard + s.down[..n];
    assert s.discarded + s.heard + s.down == s.discarded + heard + s.down[n..];
    assert t.heard == heard && t.down == s.down[n..] && t.discarded == s.discarded;
    SameData(s, t, fw);
  }

  lemma HearAck(s: Link, fw: seq<byte>, n: nat, q: nat)
    requires Inv(s, fw) && Enabled(s, fw, HostHears(n))
    requires s.host == AwaitAck && s.offset == |s.flashed| && AckAt(s, q)
    ensures Inv(Next(s, fw, HostHears(n)), fw)
  {
    if n <= q {
      HearBeforeAck(s, fw, n, q);
    } else {
      HearBeyondAck(s, fw, n, q);
    }
  }

  lemma HearBeforeAck(s: Link, fw: seq<byte>, n: nat, q: nat)
    requires Inv(s, fw) && Enabled(s, fw, HostHears(n)) && n <= q
    requires s.host == AwaitAck && s.offset == |s.flashed| && AckAt(s, q)
    ensures Inv(Next(s, fw, HostHears(n)), fw)
  {
    hide DataInv, HasOk;
    var t := Next(s, fw, HostHears(n));
    var heard := s.heard + s.down[..n];
    QuietParts(s.down, n, q);
    DotPosition(heard, []);
    assert t == s.(heard := heard, down := s.down[n..]);
    assert AckAt(t, q - n);
    SameData(s, t, fw);
  }

  lemma QuietParts(b: seq<byte>, n: nat, q: nat)
    requires n <= q < |b| && Quiet(b[..q])
    ensures Quiet(b[..n]) && Quiet(b[n..][..q - n])
    ensures b[n..][q - n] == b[q] && b[n..][q - n + 1..] == b[q + 1..]
  {
    assert forall i | 0 <= i < q :: b[i] == b[..q][i];
  }

  lemma HearBeyondAck(s: Link, fw: seq<byte>, n: nat, q: nat)
    requires Inv(s, fw) && Enabled(s, fw, HostHears(n)) && n > q
    requires s.host == AwaitAck && s.offset == |s.flashed| && AckAt(s, q)
    ensures Inv(Next(s, fw, HostHears(n)), fw)
  {
    hide DataInv, HasOk, Next;
    AckHeard(s, fw, n, q);
    var t, rest := Next(s, fw, HostHears(n)), s.down[q + 1..n];
    NoOkYet();
    assert t.discarded + t.heard + t.down == rest + t.down;
    SameData(s, t, fw);
    DataFacts(s, fw);
  }

  lemma AckHeard(s: Link, fw: seq<byte>, n: nat, q: nat)
    requires s.host == AwaitAck && Enabled(s, fw, HostHears(n)) && n > q
    requires AckAt(s, q) && Quiet(s.heard)
    ensures Next(s, fw, HostHears(n))
            == s.(host := if s.offset < |fw| then Sending else AwaitOk, heard := [], discarded := s.down[q + 1..n], down := s.down[n..])
    ensures s.down[q + 1..n] + s.down[n..] == Tail(s)
  {
    hide HasOk, FirstDot;
    var quiet, rest := s.heard + s.down[..q], s.down[q + 1..n];
    assert s.down[..n] == s.down[..q] + [DOT] + rest;
    assert s.heard + s.down[..n] == quiet + [DOT] + rest;
    DotPosition(quiet, rest);
    assert (quiet + [DOT] + rest)[|quiet| + 1..] == rest;
  }

  lemma NoOkYet()
    ensures !HasOk([])
  {}

  lemma SameData(s: Link, t: Link, fw: seq<byte>)
    requires t.offset == s.offset && t.up == s.up && t.flashed == s.flashed && t.chunk == s.chunk && t.finished == s.finished
    ensures DataInv(t, fw) <==> DataInv(s, fw)
  {}

  lemma DataFacts(s: Link, fw: seq<byte>)
    requires DataInv(s, fw)
    ensures |s.flashed| <= s.offset <= |fw| && (s.finished ==> |s.flashed| == |fw|)
  {}

  lemma MoveKeeps(s: Link, fw: seq<byte>, m: Move)
    requires Inv(s, fw) && Enabled(s, fw, m)
    ensures Inv(Next(s, fw, m), fw)
  {
    hide Inv, Enabled, Next;
    match m {
      case SendChunk => SendKeeps(s, fw);
      case HostHears(n) => HearKeeps(s, fw, n);
      case DeviceReads => ReadKeeps(s, fw);
      case DeviceWrites => WriteKeeps(s, fw);
      case DeviceFinishes => FinishKeeps(s, fw);
    }
  }

  // -------------------------------------------------------------------------
  // Runs
  // -------------------------------------------------------------------------

  /** `s` is where the moves lead from `from`. */
  predicate Leads(from: Link, fw: seq<byte>, moves: seq<Move>, s: Link)
    decreases |moves|
  {
    if moves == [] then s == from
    else Enabled(from, fw, moves[0]) && Leads(Next(from, fw, moves[0]), fw, moves[1..], s)
  }

  /** Work left; every move reduces it. */
  function Measure(s: Link, fw: seq<byte>): int {
    4 * (|fw| - s.offset) + 3 * |s.up| + 2 * |s.chunk| + |s.down| + if s.finished then 0 else 9
  }

  lemma MoveMakesProgress(s: Link, fw: seq<byte>, m: Move)
    requires Inv(s, fw) && Enabled(s, fw, m)
    ensures 0 <= Measure(Next(s, fw, m), fw) < Measure(s, fw)
  {
    hide Inv, Measure;
    MoveKeeps(s, fw, m);
    NoNegativeWork(Next(s, fw, m), fw);
    LessWork(s, fw, m);
  }

  lemma LessWork(s: Link, fw: seq<byte>, m: Move)
    requires Enabled(s, fw, m)
    ensures Measure(Next(s, fw, m), fw) < Measure(s, fw)
  {
    hide HasOk, FirstDot;
  }

  /** In every reachable state the device is never ahead of the host and at most one chunk behind, the
      flash holds a prefix of the firmware, and the number of moves is bounded. */
  lemma {:induction false} ReachableStates(from: Link, fw: seq<byte>, moves: seq<Move>, s: Link)
    requires Inv(from, fw) && Leads(from, fw, moves, s)
    ensures Inv(s, fw)
    ensures |s.flashed| <= s.offset <= |s.flashed| + T.CHUNK && s.flashed <= fw
    ensures |moves| + Measure(s, fw) <= Measure(from, fw)
    decreases |moves|
  {
    hide Enabled, Next, HostInv, Measure;
    if moves != [] {
      MoveKeeps(from, fw, moves[0]);
      MoveMakesProgress(from, fw, moves[0]);
      ReachableStates(Next(from, fw, moves[0]), fw, moves[1..], s);
    }
  }

  /** From `READY` with no chunk under way, every state a run leads to is one the invariant describes,
      and no run is longer than the work at its start. */
  lemma EveryRun(from: Link, fw: seq<byte>, moves: seq<Move>, s: Link)
    requires Start(from) && fw != [] && Leads(from, fw, moves, s)
    ensures Inv(s, fw) && |s.flashed| <= s.offset <= |s.flashed| + T.CHUNK && s.flashed <= fw
    ensures |moves| <= 4 * |fw| + |from.down| + 9
  {
    hide Inv, Leads;
    StartIsFine(from, fw);
    ReachableStates(from, fw, moves, s);
    NoNegativeWork(s, fw);
  }

  lemma NoNegativeWork(s: Link, fw: seq<byte>)
    requires Inv(s, fw)
    ensures Measure(s, fw) >= 0
  {
    hide HostInv;
  }

  /** `b` holds exactly one '.'. */
  ghost predicate OneDot(b: seq<byte>) {
    exists q: nat :: OnlyDotAt(b, q)
  }

  predicate OnlyDotAt(b: seq<byte>, q: nat) {
    q < |b| && b[q] == DOT && forall i | 0 <= i < |b| && i != q :: b[i] != DOT
  }

  /** No acknowledgement is lost or doubled: while the host waits for one, either its chunk is still
      being received and no '.' is on the line, or exactly one '.' is. */
  lemma AckNeverLost(s: Link, fw: seq<byte>)
    requires Inv(s, fw) && s.host == AwaitAck
    ensures s.chunk + s.up != [] ==> DOT !in s.heard + s.down
    ensures s.chunk + s.up == [] ==> DOT !in s.heard && OneDot(s.down)
    ensures s.chunk + s.up == [] <==> s.offset == |s.flashed|
  {
    assert |s.chunk + s.up| == s.offset - |s.flashed|;
    if s.offset == |s.flashed| {
      var q: nat :| AckAt(s, q);
      OneDotOf(s.down, q, Tail(s));
    }
  }

  lemma OneDotOf(b: seq<byte>, q: nat, tail: seq<byte>)
    requires q < |b| && Quiet(b[..q]) && b[q] == DOT && b[q + 1..] == tail
    requires tail == FINISH || tail == []
    ensures OneDot(b)
  {
    forall i | 0 <= i < |b| && i != q
      ensures b[i] != DOT
    {
      if i < q {
        assert b[i] == b[..q][i];
      } else {
        assert b[i] == tail[i - q - 1];
      }
    }
    assert OnlyDotAt(b, q);
  }

  // -------------------------------------------------------------------------
  // The device's moves are `CmdOta`
  // -------------------------------------------------------------------------

  /** The flash operations of the device up to a state of the link. */
  function DeviceOps(s: Link, fw: seq<byte>): seq<FlashOp>
    requires |fw| <= T.OTA0_SIZE
  {
    EraseOps(T.OTA0_OFFSET, |fw|) + T.ImageOps(s.flashed) + if s.finished then T.RecordOps(OtaData.IMG_NEW) else []
  }

  /** A chunk written on the link is one turn of the receive loop: the operations `StoreChunk` performs
      for these bytes, and its one '.'. */
  lemma WriteIsStoreChunk(s: Link, fw: seq<byte>)
    requires Inv(s, fw) && Enabled(s, fw, DeviceWrites) && |fw| <= T.OTA0_SIZE
    ensures var t, w := Next(s, fw, DeviceWrites), |s.flashed|;
            && s.chunk == fw[w..w + |s.chunk|] && 0 < |s.chunk| <= T.CHUNK && w % T.CHUNK == 0
            && DeviceOps(t, fw) == DeviceOps(s, fw) + ProgramWords(T.OTA0_OFFSET + w, T.WordsOf(T.Padded(fw[w..w + |s.chunk|])))
            && t.down == s.down + [DOT]
  {
    hide Inv, T.WordsOf, T.Padded, T.ImageOps, EraseOps, ProgramWords;
    ChunkIsNext(s, fw);
    T.OneMoreChunk(fw, |s.flashed|, |s.chunk|);
  }

  lemma ChunkIsNext(s: Link, fw: seq<byte>)
    requires Inv(s, fw) && Enabled(s, fw, DeviceWrites)
    ensures var w, n := |s.flashed|, |s.chunk|;
            && w + n <= |fw| && 0 < n <= T.CHUNK && w % T.CHUNK == 0 && w % 4 == 0 && !s.finished
            && s.flashed == fw[..w] && s.chunk == fw[w..w + n] && s.flashed + s.chunk == fw[..w + n]
  {
    hide HostInv;
    var w, n := |s.flashed|, |s.chunk|;
    assert s.chunk == (s.chunk + s.up)[..n];
    assert fw[w..s.offset][..n] == fw[w..w + n];
    ByFours(w);
  }

  lemma ByFours(w: nat)
    requires w % T.CHUNK == 0
    ensures w % 4 == 0
  {
    assert w == 4 * (64 * (w / T.CHUNK));
  }

  lemma FinishIsRecord(s: Link, fw: seq<byte>)
    requires Enabled(s, fw, DeviceFinishes) && |fw| <= T.OTA0_SIZE
    ensures DeviceOps(Next(s, fw, DeviceFinishes), fw) == DeviceOps(s, fw) + T.RecordOps(OtaData.IMG_NEW)
  {
    hide T.ImageOps, T.RecordOps, EraseOps;
  }

  /** Where the link stops, the device has performed exactly what `CmdOta` performs when it reads the
      firmware from its line. */
  lemma StopsAsCmdOta(s: Link, fw: seq<byte>)
    requires Inv(s, fw) && Stuck(s, fw) && fw != [] && |fw| <= T.OTA0_SIZE
    ensures DeviceOps(s, fw) == T.OtaOps(fw)
  {
    hide Inv, T.ImageOps, T.RecordOps, EraseOps;
    StopsOnlyWhenDone(s, fw);
  }

  /** Nobody can move. */
  ghost predicate Stuck(s: Link, fw: seq<byte>) {
    forall m: Move :: !Enabled(s, fw, m)
  }

  lemma OkSurvives(k: nat)
    requires k <= |FINISH|
    ensures HasOk(FINISH[k..]) <==> k <= 3
  {
    var b := FINISH[k..];
    assert |b| == 8 - k && forall i | 0 <= i < |b| :: b[i] == FINISH[k + i];
    if k <= 3 {
      assert b[3 - k] == LETTER_O && b[3 - k + 1] == LETTER_K;
    }
  }

  /** The link stops only when the device holds the whole firmware and has written its record; the
      host then knows it exactly when at most the first three bytes of the final message were thrown
      away together with the last acknowledgement. */
  lemma StopsOnlyWhenDone(s: Link, fw: seq<byte>)
    requires Inv(s, fw) && Stuck(s, fw) && fw != []
    ensures s.flashed == fw && s.finished
    ensures s.host == Closed <==> |s.discarded| <= 3
  {
    hide Inv, Enabled, HasOk;
    StuckShape(s, fw);
    var k, whole := |s.discarded|, s.discarded + s.heard + s.down;
    assert whole[k..] == s.heard + s.down;
    OkSurvives(k);
    if s.host == Closed {
      OkWithin(s.heard, s.down);
    } else {
      assert s.heard + s.down == s.heard;
    }
  }

  lemma StuckShape(s: Link, fw: seq<byte>)
    requires Inv(s, fw) && Stuck(s, fw) && fw != []
    ensures s.flashed == fw && s.finished
    ensures s.discarded + s.heard + s.down == FINISH && |s.discarded| <= |FINISH|
    ensures (s.host == Closed && HasOk(s.heard)) || (s.host == AwaitOk && s.down == [] && !HasOk(s.heard))
  {
    hide HasOk;
    assert !Enabled(s, fw, SendChunk);
    assert !Enabled(s, fw, HostHears(1));
    assert !Enabled(s, fw, DeviceReads);
    assert !Enabled(s, fw, DeviceWrites);
    assert !Enabled(s, fw, DeviceFinishes);
    assert |s.chunk + s.up| == s.offset - |s.flashed|;
  }

  lemma OkWithin(b: seq<byte>, more: seq<byte>)
    requires HasOk(b)
    ensures HasOk(b + more)
  {
    var i :| 0 <= i < |b| - 1 && b[i] == LETTER_O && b[i + 1] == LETTER_K;
    assert (b + more)[i] == LETTER_O && (b + more)[i + 1] == LETTER_K;
  }

  lemma LeadsStep(from: Link, fw: seq<byte>, m: Move, moves: seq<Move>, s: Link)
    requires Enabled(from, fw, m) && Leads(Next(from, fw, m), fw, moves, s)
    ensures Leads(from, fw, [m] + moves, s)
  {
    hide Enabled, Next;
    assert ([m] + moves)[1..] == moves;
  }

  /** A host that hears the acknowledgement and the final message in one piece never learns of the
      success: a run with a one-byte firmware. */
  lemma CoalescedOkIsLost(b: byte) returns (moves: seq<Move>, s: Link)
    ensures Leads(Link(Sending, 0, [], [], [], [], [], [], false), [b], moves, s)
    ensures Stuck(s, [b]) && s.host == AwaitOk && s.flashed == [b] && s.finished
  {
    hide Leads;
    var fw := [b];
    var s0 := Link(Sending, 0, [], [], [], [], [], [], false);
    var s1 := Next(s0, fw, SendChunk);
    assert s1 == Link(AwaitAck, 1, [], [], [b], [], [], [], false);
    var s2 := Next(s1, fw, DeviceReads);
    assert s2 == Link(AwaitAck, 1, [], [], [], [], [], [b], false);
    var s3 := Next(s2, fw, DeviceWrites);
    assert s3 == Link(AwaitAck, 1, [], [], [], [DOT], [b], [], false);
    var s4 := Next(s3, fw, DeviceFinishes);
    assert s4 == Link(AwaitAck, 1, [], [], [], [DOT] + FINISH, [b], [], true);
    DotPosition([], FINISH);
    assert [] + [DOT] + FINISH == [DOT] + FINISH && ([DOT] + FINISH)[..9] == [DOT] + FINISH;
    s := Next(s4, fw, HostHears(9));
    assert s == Link(AwaitOk, 1, [], FINISH, [], [], [b], [], true);
    NoMoves(s, fw);
    LeadsStep(s4, fw, HostHears(9), [], s);
    LeadsStep(s3, fw, DeviceFinishes, [HostHears(9)] + [], s);
    LeadsStep(s2, fw, DeviceWrites, [DeviceFinishes] + ([HostHears(9)] + []), s);
    LeadsStep(s1, fw, DeviceReads, [DeviceWrites] + ([DeviceFinishes] + ([HostHears(9)] + [])), s);
    moves := [SendChunk] + ([DeviceReads] + ([DeviceWrites] + ([DeviceFinishes] + ([HostHears(9)] + []))));
    LeadsStep(s0, fw, SendChunk, moves[1..], s);
  }

  lemma NoMoves(s: Link, fw: seq<byte>)
    ensures Leads(s, fw, [], s)
  {}
}
