/**
 * The Loongson3 SPI master driver: controller bring-up (`loongson3_spi_init`),
 * teardown (`loongson3_spi_shutdown`) and the byte-at-a-time transaction
 * engine (`loongson3_spi_send_command`), over the abstract controller of
 * module Mmio.
 */
module Loongson3Spi {
  import opened Wrappers
  import opened Bits
  import opened Registers
  import opened CpuModel
  import opened Mmio
  import opened Traces

  class Driver {
    /** `spictrl_base`: the physical base the mapped window starts at, None while NULL. */
    var spictrlBase: Option<nat>
    /** The controller behind the window. */
    const ctrl: SpiController
    /** Whether the shutdown hook has been registered with the programmer core. */
    ghost var hookRegistered: bool

    ghost predicate Valid()
      reads this, ctrl
    {
      ctrl.Valid()
    }

    constructor (ctrl: SpiController)
      requires ctrl.Valid()
      ensures Valid() && this.ctrl == ctrl && spictrlBase == None && !hookRegistered
    {
      this.ctrl := ctrl;
      spictrlBase := None;
      hookRegistered := false;
    }

    /**
     * `loongson3_spi_init`. `cpu` is the `cpu` programmer parameter (None when
     * absent), `mapOk` whether mapping the register window succeeds, and
     * `hookOk` whether the shutdown hook is registered. Returns 0 on success
     * and 1 on every failure.
     */
    method Init(cpu: Option<string>, mapOk: bool, hookOk: bool) returns (r: int)
      requires Valid() && ctrl.incoming == []
      modifies this, ctrl, ctrl.regs
      ensures Valid()
      ensures r == 0 || r == 1
      ensures r == 0 <==> cpu.Some? && SelectBase(cpu.value).Some? && mapOk && hookOk
      // a missing or unknown model is rejected before anything is mapped or touched
      ensures cpu.None? || SelectBase(cpu.value).None? ==>
        spictrlBase == old(spictrlBase) && unchanged(ctrl) && unchanged(ctrl.regs)
      // a known model sets the handle: the family's base, or NULL if the map failed
      ensures cpu.Some? && SelectBase(cpu.value).Some? ==>
        spictrlBase == if mapOk then SelectBase(cpu.value) else None
      ensures spictrlBase.None? ==> unchanged(ctrl) && unchanged(ctrl.regs)
      // the hook is registered exactly by a successful init, and only over a mapped window
      ensures hookRegistered == (old(hookRegistered) || r == 0)
      ensures r == 0 ==> spictrlBase.Some?
      // a failed hook registration comes after one read of SFCP and nothing else
      ensures r == 1 && cpu.Some? && SelectBase(cpu.value).Some? && mapOk ==>
        && ctrl.trace == old(ctrl.trace) + [Read(Sfcp)] && ctrl.rxFifo == old(ctrl.rxFifo)
        && ctrl.regs[..] == old(ctrl.regs[..])
        && ctrl.incoming == old(ctrl.incoming) && ctrl.wait == old(ctrl.wait)
        && ctrl.clocked == old(ctrl.clocked)
      // success: CS0 released, controller enabled as master, read engine off, read FIFO drained
      ensures r == 0 ==>
        && ctrl.regs[..] == old(ctrl.regs[..])
             [SoftCs := SoftCsDeassert]
             [Spcr := SetBits(old(ctrl.regs[Spcr]), SpcrEnable)]
             [Sfcp := ClearBits(old(ctrl.regs[Sfcp]), SfcpMemEn)]
        && ctrl.Idle() && Bit(ctrl.Status(), 0)
        && ctrl.wait == old(ctrl.wait) && ctrl.clocked == old(ctrl.clocked)
        && ctrl.trace == old(ctrl.trace)
             + InitTrace(old(ctrl.regs[Spcr]), old(ctrl.regs[Sfcp]), |old(ctrl.rxFifo)|)
    {
      if cpu.None? {
        return 1;
      }
      var base := SelectBase(cpu.value);
      if base.None? {
        return 1;
      }
      spictrlBase := if mapOk then base else None;
      if spictrlBase.None? {
        return 1;
      }

      // Only feeds a diagnostic about the read engine.
      var reg := ctrl.ReadB(Sfcp);
      if !hookOk {
        return 1;
      }
      hookRegistered := true;
      EnableController();
      return 0;
    }

    /**
     * The register sequence of init once the hook is in place: release CS0,
     * enable the controller as master, turn the read engine off for software
     * control, drain the read FIFO.
     */
    method EnableController()
      requires Valid() && ctrl.incoming == []
      modifies ctrl, ctrl.regs
      ensures Valid() && ctrl.Idle() && Bit(ctrl.Status(), 0)
      ensures ctrl.regs[..] == old(ctrl.regs[..])
        [SoftCs := SoftCsDeassert]
        [Spcr := SetBits(old(ctrl.regs[Spcr]), SpcrEnable)]
        [Sfcp := ClearBits(old(ctrl.regs[Sfcp]), SfcpMemEn)]
      ensures ctrl.wait == old(ctrl.wait) && ctrl.clocked == old(ctrl.clocked)
      ensures ctrl.trace == old(ctrl.trace) + [Write(SoftCs, SoftCsDeassert)]
        + Rmw(Spcr, SetBits(old(ctrl.regs[Spcr]), SpcrEnable))
        + Rmw(Sfcp, ClearBits(old(ctrl.regs[Sfcp]), SfcpMemEn))
        + DrainTrace(|old(ctrl.rxFifo)|)
    {
      ctrl.WriteB(SoftCsDeassert, SoftCs);

      var reg := ctrl.ReadB(Spcr);
      reg := SetBits(reg, SpcrEnable);
      ctrl.WriteB(reg, Spcr);

      reg := ctrl.ReadB(Sfcp);
      reg := ClearBits(reg, SfcpMemEn);
      ctrl.WriteB(reg, Sfcp);

      DrainReadFifo();
    }

    /**
     * The drain loop of init: while the status register reports a non-empty
     * read FIFO, pop one byte and discard it. On exit RFEMPTY is set, and one
     * pop was made per stale byte: none when the FIFO was already empty.
     */
    method DrainReadFifo()
      requires Valid() && ctrl.incoming == []
      modifies ctrl
      ensures Valid() && ctrl.Idle() && Bit(ctrl.Status(), 0)
      ensures ctrl.wait == old(ctrl.wait) && ctrl.clocked == old(ctrl.clocked)
      ensures ctrl.trace == old(ctrl.trace) + DrainTrace(|old(ctrl.rxFifo)|)
    {
      ghost var stale, wait0, clocked0, trace0 := ctrl.rxFifo, ctrl.wait, ctrl.clocked, ctrl.trace;
      ghost var popped: nat := 0;
      var status := ctrl.ReadB(Spsr);
      while status & SpsrRfEmpty == 0
        invariant Valid() && ctrl.incoming == []
        invariant ctrl.wait == wait0 && ctrl.clocked == clocked0
        invariant popped <= |stale| && ctrl.rxFifo == stale[popped..]
        invariant ctrl.trace == trace0 + DrainTrace(popped)
        invariant Bit(status, 0) <==> ctrl.rxFifo == []
        decreases |stale| - popped
      {
        var discarded := ctrl.ReadB(Fifo);
        status := ctrl.ReadB(Spsr);
        DrainTraceStep(trace0, popped);
        popped := popped + 1;
      }
      assert |stale[popped..]| == |stale| - popped;
    }

    /**
     * `loongson3_spi_shutdown` with its guard the right way round: when the
     * window is mapped, disable soft chip-select by writing 0 to SOFTCS (bit 0,
     * software control of CS0, cleared) and turn the read engine back on;
     * otherwise do nothing. Always returns 0.
     */
    method Shutdown() returns (r: int)
      requires Valid()
      modifies ctrl, ctrl.regs
      ensures Valid() && r == 0
      ensures spictrlBase.None? ==> unchanged(ctrl) && unchanged(ctrl.regs)
      ensures spictrlBase.Some? ==>
        && ctrl.regs[..] == old(ctrl.regs[..])
             [SoftCs := 0]
             [Sfcp := SetBits(old(ctrl.regs[Sfcp]), SfcpMemEn)]
        && ctrl.trace == old(ctrl.trace) + [Write(SoftCs, 0)] + Rmw(Sfcp, SetBits(old(ctrl.regs[Sfcp]), SfcpMemEn))
        && ctrl.rxFifo == old(ctrl.rxFifo) && ctrl.incoming == old(ctrl.incoming)
        && ctrl.wait == old(ctrl.wait) && ctrl.clocked == old(ctrl.clocked)
    {
      if spictrlBase.Some? {
        ctrl.WriteB(0x0, SoftCs);
        var reg := ctrl.ReadB(Sfcp);
        reg := SetBits(reg, SfcpMemEn);
        ctrl.WriteB(reg, Sfcp);
      }
      r := 0;
    }

    /**
     * `loongson3_spi_shutdown` as written: its body runs only when
     * `spictrl_base` is NULL. The hook runs only once registered, and the
     * init that registered it had mapped the window (see `Init`), so whenever
     * it runs the body is skipped: no register is touched (this method
     * modifies nothing) and the read engine stays off.
     */
    method ShutdownAsWritten() returns (r: int)
      requires Valid() && hookRegistered && spictrlBase.Some?
      ensures r == 0
    {
      if spictrlBase.None? {
        // The body would dereference the NULL handle; it cannot be reached here.
        assert false;
      }
      r := 0;
    }

    /**
     * One round trip of the transaction loops: push `b`, spin on the status
     * register until the read FIFO is non-empty, pop the reply.
     */
    method Exchange(b: bv8) returns (v: bv8)
      requires Valid() && ctrl.Idle()
      modifies ctrl, ctrl.regs
      ensures Valid() && ctrl.Idle()
      ensures v == Reply(ctrl.slave, old(ctrl.clocked), b)
      ensures ctrl.clocked == old(ctrl.clocked) + 1
      ensures ctrl.trace == old(ctrl.trace) + RoundTrip(b, ctrl.latency)
      ensures ctrl.regs[..] == old(ctrl.regs[..])
    {
      ghost var regs0, clocked0 := ctrl.regs[..], ctrl.clocked;
      var reply := Reply(ctrl.slave, ctrl.clocked, b);
      ctrl.WriteB(b, Fifo);
      ghost var pushed := ctrl.trace;
      var status := ctrl.ReadB(Spsr);
      ghost var polls := 1;
      while status & SpsrRfEmpty != 0
        invariant Valid() && 1 <= polls <= ctrl.latency + 1
        invariant ctrl.regs[..] == regs0 && ctrl.clocked == clocked0 + 1
        invariant ctrl.trace == pushed + Polls(polls)
        invariant Bit(status, 0) ==>
          ctrl.rxFifo == [] && ctrl.incoming == [reply] && ctrl.wait == ctrl.latency - polls
        invariant !Bit(status, 0) ==>
          ctrl.rxFifo == [reply] && ctrl.incoming == [] && polls == ctrl.latency + 1
        decreases if Bit(status, 0) then ctrl.wait + 1 else 0
      {
        status := ctrl.ReadB(Spsr);
        polls := polls + 1;
      }
      v := ctrl.ReadB(Fifo);
    }

    /**
     * `loongson3_spi_send_command`: assert CS0; round-trip the `writecnt`
     * bytes of `writearr`, discarding what comes back; round-trip
     * `writearr[0..readcnt)` again, storing what comes back in
     * `readarr[0..readcnt)`; release CS0; return 0.
     */
    method SendCommand(writecnt: nat, readcnt: nat, writearr: seq<bv8>, readarr: array<bv8>)
      returns (r: int)
      requires Valid() && spictrlBase.Some? && ctrl.Idle()
      requires writecnt <= |writearr| && readcnt <= |writearr| && readcnt <= readarr.Length
      requires readarr != ctrl.regs
      modifies ctrl, ctrl.regs, readarr
      ensures Valid() && ctrl.Idle() && r == 0
      ensures ctrl.trace ==
        old(ctrl.trace) + TransactionTrace(writearr[..writecnt] + writearr[..readcnt], ctrl.latency)
      ensures ctrl.clocked == old(ctrl.clocked) + writecnt + readcnt
      ensures ctrl.regs[..] == old(ctrl.regs[..])[SoftCs := SoftCsDeassert]
      ensures forall i :: 0 <= i < readcnt ==>
        readarr[i] == Reply(ctrl.slave, old(ctrl.clocked) + writecnt + i, writearr[i])
      ensures forall i :: readcnt <= i < readarr.Length ==> readarr[i] == old(readarr[i])
    {
      ghost var regs0, trace0 := ctrl.regs[..], ctrl.trace;
      ghost var front, back := RoundTrips(writearr[..writecnt], ctrl.latency), RoundTrips(writearr[..readcnt], ctrl.latency);
      ctrl.WriteB(SoftCsAssert, SoftCs);
      WritePhase(writecnt, writearr);
      ReadPhase(writecnt, readcnt, writearr, readarr);
      assert ctrl.trace == trace0 + [Write(SoftCs, SoftCsAssert)] + front + back;
      ctrl.WriteB(SoftCsDeassert, SoftCs);
      assert ctrl.regs[..] == regs0[SoftCs := SoftCsAssert][SoftCs := SoftCsDeassert];
      RoundTripsConcat(writearr[..writecnt], writearr[..readcnt], ctrl.latency);
      TransactionSplit(trace0, front, back);
      r := 0;
    }

    /**
     * The first loop of `loongson3_spi_send_command`: round-trip
     * `writearr[0..writecnt)` in order and discard every reply.
     */
    method WritePhase(writecnt: nat, writearr: seq<bv8>)
      requires Valid() && ctrl.Idle() && writecnt <= |writearr|
      modifies ctrl, ctrl.regs
      ensures Valid() && ctrl.Idle()
      ensures ctrl.regs[..] == old(ctrl.regs[..])
      ensures ctrl.clocked == old(ctrl.clocked) + writecnt
      ensures ctrl.trace == old(ctrl.trace) + RoundTrips(writearr[..writecnt], ctrl.latency)
    {
      ghost var regs0, clocked0, trace0 := ctrl.regs[..], ctrl.clocked, ctrl.trace;
      var i := 0;
      while i < writecnt
        invariant Valid() && ctrl.Idle() && i <= writecnt
        invariant ctrl.regs[..] == regs0
        invariant ctrl.clocked == clocked0 + i
        invariant ctrl.trace == trace0 + RoundTrips(writearr[..i], ctrl.latency)
      {
        var discarded := Exchange(writearr[i]);
        RoundTripsPrefixStep(writearr, i, ctrl.latency);
        i := i + 1;
      }
    }

    /**
     * The second loop of `loongson3_spi_send_command`: round-trip
     * `writearr[0..readcnt)` in order and store the i-th reply in
     * `readarr[i]`; the rest of `readarr` is left alone.
     */
    method ReadPhase(writecnt: nat, readcnt: nat, writearr: seq<bv8>, readarr: array<bv8>)
      requires Valid() && ctrl.Idle()
      requires writecnt <= |writearr| && readcnt <= |writearr| && readcnt <= readarr.Length
      requires readarr != ctrl.regs
      modifies ctrl, ctrl.regs, readarr
      ensures Valid() && ctrl.Idle()
      ensures ctrl.regs[..] == old(ctrl.regs[..])
      ensures ctrl.clocked == old(ctrl.clocked) + readcnt
      ensures ctrl.trace == old(ctrl.trace) + RoundTrips(writearr[..readcnt], ctrl.latency)
      ensures forall i :: 0 <= i < readcnt ==>
        readarr[i] == Reply(ctrl.slave, old(ctrl.clocked) + i, writearr[i])
      ensures forall i :: readcnt <= i < readarr.Length ==> readarr[i] == old(readarr[i])
    {
      ghost var regs0, clocked0, trace0, out0 := ctrl.regs[..], ctrl.clocked, ctrl.trace, readarr[..];
      var i := 0;
      while i < readcnt
        invariant Valid() && ctrl.Idle() && i <= readcnt
        invariant ctrl.regs[..] == regs0
        invariant ctrl.clocked == clocked0 + i
        invariant ctrl.trace == trace0 + RoundTrips(writearr[..i], ctrl.latency)
        invariant forall j :: 0 <= j < i ==> readarr[j] == Reply(ctrl.slave, clocked0 + j, writearr[j])
        invariant forall j :: i <= j < readarr.Length ==> readarr[j] == out0[j]
      {
        var v := Exchange(writearr[i]);
        readarr[i] := v;
        RoundTripsPrefixStep(writearr, i, ctrl.latency);
        i := i + 1;
      }
    }
  }
}
