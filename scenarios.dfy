/**
 * Whole-driver runs on a freshly built controller, stated as methods whose
 * postconditions follow from the driver's contracts alone.
 */
module Scenarios {
  import opened Wrappers
  import opened Bits
  import opened Registers
  import opened CpuModel
  import opened Mmio
  import opened Traces
  import opened Loongson3Spi

  /** A driver brought up with the "3a4000" model on a controller whose registers all read 0. */
  method BroughtUp(slave: Slave, latency: nat) returns (drv: Driver)
    ensures fresh(drv) && fresh(drv.ctrl) && fresh(drv.ctrl.regs)
    ensures drv.Valid() && drv.spictrlBase.Some? && drv.ctrl.Idle()
    ensures drv.ctrl.slave == slave && drv.ctrl.latency == latency && drv.ctrl.clocked == 0
  {
    var ctrl := new SpiController(seq(RegSize, _ => 0), [], slave, latency);
    drv := new Driver(ctrl);
    var r := drv.Init(Some("3a4000"), true, true);
  }

  /**
   * Bring-up with the "3a4000" model from any boot state: success, the 64G
   * base, controller enabled as master, read engine off, CS0 released, read
   * FIFO empty.
   */
  method BringUp3a4000(boot: seq<bv8>, stale: seq<bv8>, latency: nat)
    returns (r: int, base: Option<nat>, spcr: bv8, sfcp: bv8, softcs: bv8, empty: bool)
    requires |boot| == RegSize
    ensures r == 0 && base == Some(Loongson64GSpiBase)
    ensures Bit(spcr, 4) && Bit(spcr, 6) && !Bit(sfcp, 0)
    ensures softcs == SoftCsDeassert && empty
  {
    var ctrl := new SpiController(boot, stale, Echo, latency);
    var drv := new Driver(ctrl);
    r := drv.Init(Some("3a4000"), true, true);
    base := drv.spictrlBase;
    spcr, sfcp, softcs := ctrl.regs[Spcr], ctrl.regs[Sfcp], ctrl.regs[SoftCs];
    empty := ctrl.rxFifo == [];
    EnableSetsMasterAndSpe(boot[Spcr]);
    DisableClearsOnlyMemEn(boot[Sfcp]);
  }

  /** An unknown model is rejected: status 1, no base, no register access. */
  method RejectUnknownModel(boot: seq<bv8>, stale: seq<bv8>, latency: nat)
    returns (r: int, base: Option<nat>, accesses: nat)
    requires |boot| == RegSize
    ensures r == 1 && base == None && accesses == 0
  {
    var ctrl := new SpiController(boot, stale, Echo, latency);
    var drv := new Driver(ctrl);
    r := drv.Init(Some("unknown9000"), true, true);
    base := drv.spictrlBase;
    accesses := |ctrl.trace|;
  }

  /**
   * Reading a JEDEC ID: opcode 0x9f followed by two dummy bytes, one byte
   * written and three read, against a flash that answers 0xef 0x40 0x18 to
   * the three read-phase pushes.
   */
  method ReadJedecId(latency: nat) returns (id: seq<bv8>)
    ensures id == [0xef, 0x40, 0x18]
  {
    var drv := BroughtUp(Script([0xff, 0xef, 0x40, 0x18]), latency);
    var readarr := new bv8[3];
    var r := drv.SendCommand(1, 3, [0x9f, 0x00, 0x00], readarr);
    id := readarr[..];
  }

  /** Against a loop-back device the read phase returns the bytes it re-sends: `writearr[0..readcnt)`. */
  method EchoReadBack(writearr: seq<bv8>, writecnt: nat, readcnt: nat, latency: nat)
    returns (back: seq<bv8>)
    requires writecnt <= |writearr| && readcnt <= |writearr|
    ensures back == writearr[..readcnt]
  {
    var drv := BroughtUp(Echo, latency);
    var readarr := new bv8[readcnt];
    var r := drv.SendCommand(writecnt, readcnt, writearr, readarr);
    back := readarr[..];
  }

  /** A sequence is its whole prefix followed by its empty prefix. */
  lemma WholePrefixEmptySuffix(s: seq<bv8>)
    ensures s[..|s|] + s[..0] == s
  {
  }

  /** Dropping a prefix of a concatenation leaves the rest. */
  lemma SuffixAfter(start: seq<Access>, t1: seq<Access>, t2: seq<Access>)
    ensures (start + t1 + t2)[|start|..] == t1 + t2
  {
  }

  /**
   * Two transactions back to back write chip-select assert, release,
   * assert, release: CS0 is never asserted twice without a release between.
   */
  method BackToBack(first: seq<bv8>, second: seq<bv8>, latency: nat) returns (cs: seq<bv8>)
    ensures cs == [SoftCsAssert, SoftCsDeassert, SoftCsAssert, SoftCsDeassert]
  {
    var drv := BroughtUp(Echo, latency);
    var start := drv.ctrl.trace;
    var sink := new bv8[0];
    WholePrefixEmptySuffix(first);
    WholePrefixEmptySuffix(second);
    var r := drv.SendCommand(|first|, 0, first, sink);
    r := drv.SendCommand(|second|, 0, second, sink);
    ghost var t1, t2 := TransactionTrace(first, latency), TransactionTrace(second, latency);
    SuffixAfter(start, t1, t2);
    cs := Written(drv.ctrl.trace[|start|..], SoftCs);
    TransactionWrittenAt(first, latency, SoftCs);
    TransactionWrittenAt(second, latency, SoftCs);
    WrittenAppend(t1, t2, SoftCs);
  }

  /**
   * The shutdown hook as the source has it, after a successful bring-up
   * from a boot state whose read engine was on: the read engine stays off
   * and CS0 stays released.
   */
  method ShutdownAsWrittenLeavesReadEngineOff(boot: seq<bv8>, stale: seq<bv8>)
    returns (memen: bool, softcs: bv8)
    requires |boot| == RegSize && Bit(boot[Sfcp], 0)
    ensures !memen && softcs == SoftCsDeassert
  {
    var ctrl := new SpiController(boot, stale, Echo, 0);
    var drv := new Driver(ctrl);
    var r := drv.Init(Some("3a4000"), true, true);
    r := drv.ShutdownAsWritten();
    memen := Bit(ctrl.regs[Sfcp], 0);
    softcs := ctrl.regs[SoftCs];
    DisableClearsOnlyMemEn(boot[Sfcp]);
  }

  /**
   * The corrected shutdown after a successful bring-up: the read engine is
   * back on, chip-select holds 0, and a second drain pops nothing.
   */
  method ShutdownRestoresReadEngine(boot: seq<bv8>, stale: seq<bv8>)
    returns (memen: bool, softcs: bv8, pops: nat)
    requires |boot| == RegSize
    ensures memen && softcs == 0 && pops == 0
  {
    var ctrl := new SpiController(boot, stale, Echo, 0);
    var drv := new Driver(ctrl);
    var r := drv.Init(Some("3a4000"), true, true);
    r := drv.Shutdown();
    memen := Bit(ctrl.regs[Sfcp], 0);
    softcs := ctrl.regs[SoftCs];
    var before := ctrl.trace;
    drv.DrainReadFifo();
    pops := Reads(ctrl.trace[|before|..], Fifo);
    DrainReads(0, Fifo);
    assert ctrl.trace[|before|..] == DrainTrace(0);
  }
}
