/** The bulk benchmark's loop (benchmarks/usb-bench-rs/src/bin/w_bulk.rs): which blocks it
    touches, when it succeeds and what it leaves on the disk. */
module BulkBenchmark {
  import opened UsbBase
  import opened BlockDisk
  import opened BulkTransport
  import opened ScsiDevice

  datatype Mode = Read | Write | ReadWrite

  datatype Config = Config(mode: Mode, random: bool, blocksPerIter: u16, iterations: u32)

  const TWO_TO_THE_64: int := 0x1_0000_0000_0000_0000

  type u64 = x: int | 0 <= x < TWO_TO_THE_64

  function LcgNext(state: u64): u64 {
    (state * 6_364_136_223_846_793_005 + 1_442_695_040_888_963_407) % TWO_TO_THE_64
  }

  /** The high 31 bits. */
  function LcgOutput(state: u64): u32 {
    state / 0x2_0000_0000
  }

  function ChooseLba(cfg: Config, numBlocks: u32, state: u64): u32 {
    if cfg.random && numBlocks > cfg.blocksPerIter
    then LcgOutput(LcgNext(state)) % (numBlocks - cfg.blocksPerIter)
    else 0
  }

  /** The states the generator goes through from `seed`, one for each of `n` draws. */
  function LcgStates(seed: u64, n: nat): (states: seq<u64>)
    ensures |states| == n + 1
  {
    if n == 0 then [seed]
    else var before := LcgStates(seed, n - 1); before + [LcgNext(before[n - 1])]
  }

  /** Knuth's generator: its first state is the seed, and each next one is the last, multiplied and
      added to modulo 2^64. */
  lemma {:induction false} LcgStep(seed: u64, n: nat, k: nat)
    requires k <= n
    ensures LcgStates(seed, n)[0] == seed
    ensures k < n ==>
              var before: int, after: int := LcgStates(seed, n)[k], LcgStates(seed, n)[k + 1];
              after == (before * 6364136223846793005 + 1442695040888963407) % 0x1_0000_0000_0000_0000
  {
    if n == 0 {
    } else {
      LcgStep(seed, n - 1, if k < n - 1 then k else 0);
    }
  }

  /** The block of iteration `k`: block 0, or at random the high 31 bits of the state after `k + 1`
      draws, reduced to the blocks that leave room. */
  predicate IsChoice(cfg: Config, numBlocks: u32, seed: u64, lba: nat, k: nat) {
    lba == if cfg.random && numBlocks > cfg.blocksPerIter
           then LcgStates(seed, k + 1)[k + 1] / 0x2_0000_0000 % (numBlocks - cfg.blocksPerIter)
           else 0
  }

  predicate AllChoices(cfg: Config, numBlocks: u32, seed: u64, lbas: seq<nat>) {
    forall k :: 0 <= k < |lbas| ==> IsChoice(cfg, numBlocks, seed, lbas[k], k)
  }

  /** The generator's state before iteration `n`, and the blocks chosen up to then. */
  function StateBefore(cfg: Config, numBlocks: u32, seed: u64, n: nat): u64 {
    if n == 0 then seed
    else
      var before := StateBefore(cfg, numBlocks, seed, n - 1);
      if cfg.random && numBlocks > cfg.blocksPerIter then LcgNext(before) else before
  }

  function Chosen(cfg: Config, numBlocks: u32, seed: u64, n: nat): (r: seq<nat>)
    ensures |r| == n
  {
    if n == 0 then []
    else Chosen(cfg, numBlocks, seed, n - 1) + [ChooseLba(cfg, numBlocks, StateBefore(cfg, numBlocks, seed, n - 1))]
  }

  /** Without `random` every block chosen is block 0; with it they are the generator's. */
  lemma {:induction false} ChosenAreChoices(cfg: Config, numBlocks: u32, seed: u64, n: nat)
    ensures cfg.random && numBlocks > cfg.blocksPerIter ==> StateBefore(cfg, numBlocks, seed, n) == LcgStates(seed, n)[n]
    ensures AllChoices(cfg, numBlocks, seed, Chosen(cfg, numBlocks, seed, n))
    ensures !cfg.random ==> forall k :: 0 <= k < n ==> Chosen(cfg, numBlocks, seed, n)[k] == 0
  {
    if n == 0 {
    } else {
      ChosenAreChoices(cfg, numBlocks, seed, n - 1);
    }
  }

  /** Whatever the generator's state, the chosen blocks exist exactly when an iteration's blocks
      fit the device at all. */
  lemma ChosenBlocksExist(cfg: Config, numBlocks: u32, state: u64)
    ensures ChooseLba(cfg, numBlocks, state) + cfg.blocksPerIter <= numBlocks
       <==> cfg.blocksPerIter <= numBlocks
  {}

  // ----- what write mode does to the disk -----

  function Pattern(n: nat): (r: seq<byte>)
    ensures |r| == n
  {
    seq(n, _ => 0x5A)
  }

  /** The disk after writing the pattern at each of `lbas` in turn. */
  function Filled(g: Geometry, disk: seq<byte>, lbas: seq<nat>, count: nat): (r: seq<byte>)
    requires ValidDisk(g, disk)
    ensures ValidDisk(g, r)
  {
    if lbas == [] then disk
    else FlatWrite(g, Filled(g, disk, lbas[..|lbas| - 1], count), lbas[|lbas| - 1], count, Pattern(count * g.blockSize))
  }

  predicate Covers(g: Geometry, lba: nat, count: nat, x: nat) {
    lba * g.blockSize <= x < lba * g.blockSize + count * g.blockSize
  }

  predicate Covered(g: Geometry, lbas: seq<nat>, count: nat, x: nat) {
    lbas != [] && (Covers(g, lbas[|lbas| - 1], count, x) || Covered(g, lbas[..|lbas| - 1], count, x))
  }

  /** Write mode sets the bytes of the chosen blocks and no others. */
  lemma {:induction false} FilledExactly(g: Geometry, disk: seq<byte>, lbas: seq<nat>, count: nat, x: nat)
    requires ValidDisk(g, disk) && x < |disk|
    requires forall k :: 0 <= k < |lbas| ==> InRange(g, lbas[k], count)
    ensures Filled(g, disk, lbas, count)[x] == if Covered(g, lbas, count, x) then 0x5A else disk[x]
  {
    if lbas == [] {
    } else {
      var init, last := lbas[..|lbas| - 1], lbas[|lbas| - 1];
      FilledExactly(g, disk, init, count, x);
      FillAt(g, Filled(g, disk, init, count), last, count, x);
    }
  }

  lemma FillAt(g: Geometry, disk: seq<byte>, lba: nat, count: nat, x: nat)
    requires ValidDisk(g, disk) && x < |disk| && InRange(g, lba, count)
    ensures FlatWrite(g, disk, lba, count, Pattern(count * g.blockSize))[x]
         == if Covers(g, lba, count, x) then 0x5A else disk[x]
  {
    var size := count * g.blockSize;
    var pattern := Pattern(size);
    assert forall i :: 0 <= i < size ==> pattern[i] == 0x5A;
    WriteRangeAt(g, disk, lba, pattern, count, x);
  }

  // ----- the loop -----

  /** An empty WASM write leaves host and device out of step. The command line refuses zero blocks,
      so only another caller of the loop can ask for it. */
  predicate EmptyWasmWrite(cfg: Config, kind: Kind) {
    kind.Wasm? && cfg.blocksPerIter == 0 && !cfg.mode.Read?
  }

  /** An iteration's blocks fit the device and the 32-bit length field. */
  predicate IterationFits(cfg: Config, blocks: nat, blockSize: nat) {
    cfg.blocksPerIter <= blocks && cfg.blocksPerIter * blockSize < TWO_TO_THE_32
  }

  predicate IterationGoes(cfg: Config, kind: Kind, numBlocks: u32, blockSize: nat) {
    IterationFits(cfg, numBlocks, blockSize) && !EmptyWasmWrite(cfg, kind)
  }

  predicate Succeeds(cfg: Config, kind: Kind, numBlocks: u32, blockSize: nat) {
    cfg.iterations == 0 || IterationGoes(cfg, kind, numBlocks, blockSize)
  }

  /** One timed iteration. */
  method Iterate(scsi: Scsi, cfg: Config, lba: u32, writeBuf: seq<byte>) returns (ok: bool)
    requires scsi.Valid() && writeBuf == Pattern(scsi.Expected(cfg.blocksPerIter))
    requires Addressable(scsi.transport.kind, writeBuf)
    modifies scsi.transport, scsi.transport.device`phase, scsi.transport.device`disk
    ensures ok <==> InRange(scsi.transport.device.geometry, lba, cfg.blocksPerIter)
                    && cfg.blocksPerIter * scsi.blockSize < TWO_TO_THE_32
                    && !EmptyWasmWrite(cfg, scsi.transport.kind)
    ensures ok ==> scsi.Valid()
    ensures scsi.transport.device.Valid()
    ensures scsi.transport.device.disk ==
            if cfg.mode.Write? && ok
            then AfterWrite(scsi.transport.device.geometry, old(scsi.transport.device.disk), lba, cfg.blocksPerIter,
                            Pattern(cfg.blocksPerIter * scsi.transport.device.geometry.blockSize))
            else old(scsi.transport.device.disk)
  {
    ghost var g := scsi.transport.device.geometry;
    ReadReplyOk(g, scsi.transport.device.disk, lba, cfg.blocksPerIter, cfg.blocksPerIter * scsi.blockSize);
    match cfg.mode {
      case Read =>
        var data := scsi.ReadBlocks(lba, cfg.blocksPerIter);
        return data.Ok?;
      case Write =>
        IterationWrite(g, scsi.transport.device.disk, scsi.transport.kind, lba, cfg.blocksPerIter,
                       cfg.blocksPerIter * scsi.blockSize);
        var written := scsi.WriteBlocks(lba, cfg.blocksPerIter, writeBuf);
        return written.Ok?;
      case ReadWrite =>
        var data := scsi.ReadWriteBlocks(lba, cfg.blocksPerIter);
        return data.Ok?;
    }
  }

  lemma ReadReplyOk(g: Geometry, disk: seq<byte>, lba: u32, count: u16, n: nat)
    requires ValidDisk(g, disk) && n == count * g.blockSize
    ensures ReadReply(g, disk, lba, count).Ok? <==> InRange(g, lba, count) && n < TWO_TO_THE_32
  {}

  /** The pre-built buffer in write mode: when it is not written, and when host and device stay in
      step. */
  lemma IterationWrite(g: Geometry, disk: seq<byte>, kind: Kind, lba: u32, count: u16, n: nat)
    requires ValidDisk(g, disk) && n == count * g.blockSize
    ensures var data := Pattern(UsizeLength(kind, n));
            && (n < TWO_TO_THE_32 ==> data == Pattern(n) && (InStep(kind, Some(data)) <==> kind.Native? || count > 0))
            && (n >= TWO_TO_THE_32 || !InRange(g, lba, count) || count == 0 ==>
                  AfterWrite(g, disk, lba, count, data) == disk)
            && (n >= TWO_TO_THE_32 && InStep(kind, Some(data)) ==> WriteReply(g, lba, count).Err?)
  {
    ProductPositive(count, g.blockSize);
    if count == 0 && InRange(g, lba, count) {
      RangeInDisk(g, disk, lba, count);
    }
  }

  /** The disk after the iterations at `lbas`. */
  function DiskAfter(cfg: Config, g: Geometry, before: seq<byte>, lbas: seq<nat>): (r: seq<byte>)
    requires ValidDisk(g, before)
    ensures ValidDisk(g, r)
  {
    if cfg.mode.Write? then Filled(g, before, lbas, cfg.blocksPerIter) else before
  }

  predicate AllInRange(g: Geometry, lbas: seq<nat>, count: nat) {
    forall k :: 0 <= k < |lbas| ==> InRange(g, lbas[k], count)
  }

  lemma WriteIsFilled(g: Geometry, before: seq<byte>, lbas: seq<nat>, lba: nat, count: nat)
    requires ValidDisk(g, before) && InRange(g, lba, count) && count * g.blockSize < TWO_TO_THE_32
    ensures AfterWrite(g, Filled(g, before, lbas, count), lba, count, Pattern(count * g.blockSize))
         == Filled(g, before, lbas + [lba], count)
  {
    assert (lbas + [lba])[..|lbas|] == lbas;
  }

  /** One turn of the loop: choose a block, move the generator on if that took a draw, and transfer. */
  method RunIteration(scsi: Scsi, cfg: Config, state: u64, writeBuf: seq<byte>,
                      ghost seed: u64, ghost lbas: seq<nat>, ghost before: seq<byte>)
    returns (ok: bool, next: u64, ghost lba: nat)
    requires scsi.Valid() && writeBuf == Pattern(scsi.Expected(cfg.blocksPerIter))
    requires Addressable(scsi.transport.kind, writeBuf)
    requires scsi.numBlocks == ReportedBlocks(scsi.transport.device.geometry)
    requires ValidDisk(scsi.transport.device.geometry, before)
    requires scsi.transport.device.disk == DiskAfter(cfg, scsi.transport.device.geometry, before, lbas)
    requires state == StateBefore(cfg, scsi.numBlocks, seed, |lbas|)
    requires lbas == Chosen(cfg, scsi.numBlocks, seed, |lbas|)
    modifies scsi.transport, scsi.transport.device`phase, scsi.transport.device`disk
    ensures ok <==> IterationGoes(cfg, scsi.transport.kind, scsi.numBlocks, scsi.blockSize)
    ensures ok ==> scsi.Valid() && InRange(scsi.transport.device.geometry, lba, cfg.blocksPerIter)
    ensures lbas + [lba] == Chosen(cfg, scsi.numBlocks, seed, |lbas| + 1)
    ensures next == StateBefore(cfg, scsi.numBlocks, seed, |lbas| + 1)
    ensures scsi.transport.device.disk
         == DiskAfter(cfg, scsi.transport.device.geometry, before, if ok then lbas + [lba] else lbas)
  {
    var chosen := ChooseLba(cfg, scsi.numBlocks, state);
    ChosenInRange(cfg, scsi.transport.device.geometry, scsi.numBlocks, state);
    lba, next := chosen, state;
    if cfg.random && scsi.numBlocks > cfg.blocksPerIter {
      next := LcgNext(state);
    }
    ok := Iterate(scsi, cfg, chosen, writeBuf);
    if ok {
      WriteIsFilled(scsi.transport.device.geometry, before, lbas, lba, cfg.blocksPerIter);
    }
  }

  /** The run succeeds exactly when `Succeeds` says so, for every seed; outside write mode it
      leaves the disk as it was, and in write mode it sets only the blocks it chose, all of which
      exist. */
  method RunBenchmark(scsi: Scsi, cfg: Config, seed: u64) returns (totalBytes: Option<nat>, ghost lbas: seq<nat>)
    requires scsi.Valid()
    requires scsi.numBlocks == ReportedBlocks(scsi.transport.device.geometry)
    modifies scsi.transport, scsi.transport.device`phase, scsi.transport.device`disk
    ensures totalBytes.Some? <==> Succeeds(cfg, scsi.transport.kind, scsi.numBlocks, scsi.blockSize)
    ensures totalBytes.Some? ==>
              totalBytes.value == cfg.iterations * (cfg.blocksPerIter * scsi.blockSize) && |lbas| == cfg.iterations
    ensures AllInRange(scsi.transport.device.geometry, lbas, cfg.blocksPerIter)
    ensures lbas == Chosen(cfg, scsi.numBlocks, seed, |lbas|)
    ensures scsi.transport.device.disk
         == if cfg.mode.Write? && totalBytes.Some?
            then Filled(scsi.transport.device.geometry, old(scsi.transport.device.disk), lbas, cfg.blocksPerIter)
            else old(scsi.transport.device.disk)
  {
    ghost var g, before := scsi.transport.device.geometry, scsi.transport.device.disk;
    var bytesPerIter := cfg.blocksPerIter * scsi.blockSize;
    var writeBuf := Pattern(scsi.Expected(cfg.blocksPerIter));
    var state := seed;
    var total := 0;
    lbas := [];
    var iter := 0;
    while iter < cfg.iterations
      invariant 0 <= iter <= cfg.iterations && |lbas| == iter && total == Multiple(iter, bytesPerIter)
      invariant scsi.Valid() && scsi.transport.device.disk == DiskAfter(cfg, g, before, lbas)
      invariant iter > 0 ==> IterationGoes(cfg, scsi.transport.kind, scsi.numBlocks, scsi.blockSize)
      invariant AllInRange(g, lbas, cfg.blocksPerIter)
      invariant state == StateBefore(cfg, scsi.numBlocks, seed, iter)
      invariant lbas == Chosen(cfg, scsi.numBlocks, seed, iter)
    {
      var ok, next;
      ghost var lba;
      ok, next, lba := RunIteration(scsi, cfg, state, writeBuf, seed, lbas, before);
      if !ok {
        assert iter == 0;
        return None, lbas;
      }
      lbas := lbas + [lba];
      state := next;
      total := total + bytesPerIter;
      iter := iter + 1;
    }
    MultipleIs(cfg.iterations, bytesPerIter);
    return Some(total), lbas;
  }

  /** `b`, added up `n` times. */
  function Multiple(n: nat, b: nat): nat {
    if n == 0 then 0 else Multiple(n - 1, b) + b
  }

  lemma {:induction false} MultipleIs(n: nat, b: nat)
    ensures Multiple(n, b) == n * b
  {
    if n == 0 {
    } else {
      MultipleIs(n - 1, b);
      assert n * b == (n - 1) * b + b;
    }
  }

  lemma ChosenInRange(cfg: Config, g: Geometry, numBlocks: u32, state: u64)
    requires ValidGeometry(g) && numBlocks == ReportedBlocks(g)
    ensures InRange(g, ChooseLba(cfg, numBlocks, state), cfg.blocksPerIter) <==> cfg.blocksPerIter <= numBlocks
  {
    ChosenBlocksExist(cfg, numBlocks, state);
  }
}
