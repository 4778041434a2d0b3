/**
 * The register interface: byte-wide reads and writes (`mmio_readb`,
 * `mmio_writeb`) on an abstract Loongson3 SPI controller.
 *
 * The controller is full duplex: every byte pushed into the FIFO register is
 * shifted out to the flash while the flash shifts one byte back. That reply
 * is "in flight" for `latency` status polls and lands in the read FIFO at the
 * poll after that. Every access is appended to `trace`.
 */
module Mmio {
  import opened Registers
  import opened Bits

  /** One register access, by offset from the mapped base. */
  datatype Access = Write(off: nat, val: bv8) | Read(off: nat)

  /** The device on CS0, as seen from the bus: what it shifts back. */
  datatype Slave =
    | Echo                   // returns the byte it was sent (a loop-back test double)
    | Script(out: seq<bv8>)  // returns out[n] for the n-th byte clocked, 0xff once exhausted

  /** The byte the slave returns while the `n`-th byte of the session, `mosi`, is shifted out. */
  function Reply(slave: Slave, n: nat, mosi: bv8): bv8 {
    match slave
    case Echo => mosi
    case Script(out) => if n < |out| then out[n] else 0xff
  }

  class SpiController {
    /** The plain register contents of the 16-byte window. */
    const regs: array<bv8>
    /** The device on the bus. */
    const slave: Slave
    /** Status polls that still report an empty read FIFO after a push. */
    const latency: nat

    /** Bytes waiting in the read FIFO, oldest first. */
    var rxFifo: seq<bv8>
    /** Replies shifted in but not yet visible in the read FIFO. */
    var incoming: seq<bv8>
    /** Status polls left before `incoming` lands. */
    var wait: nat
    /** Bytes clocked onto the bus so far. */
    var clocked: nat
    /** Every register access so far, in order. */
    var trace: seq<Access>

    ghost predicate Valid()
      reads this
    {
      regs.Length == RegSize
    }

    /** No byte waits in the read FIFO and none is in flight. */
    predicate Idle()
      reads this
    {
      rxFifo == [] && incoming == []
    }

    /** The status register as the hardware reports it: RFEMPTY tracks the read FIFO. */
    function Status(): (s: bv8)
      requires Valid()
      reads this, regs
      ensures Bit(s, 0) <==> rxFifo == []
    {
      (regs[Spsr] & !SpsrRfEmpty) | (if rxFifo == [] then SpsrRfEmpty else 0)
    }

    constructor (boot: seq<bv8>, bootFifo: seq<bv8>, slave: Slave, latency: nat)
      requires |boot| == RegSize
      ensures Valid() && fresh(regs)
      ensures regs[..] == boot && rxFifo == bootFifo && incoming == []
      ensures this.slave == slave && this.latency == latency
      ensures wait == 0 && clocked == 0 && trace == []
    {
      regs := new bv8[RegSize](i requires 0 <= i < RegSize => boot[i]);
      this.slave := slave;
      this.latency := latency;
      rxFifo := bootFifo;
      incoming := [];
      wait := 0;
      clocked := 0;
      trace := [];
    }

    /**
     * `mmio_readb(base + off)`. Reading the status register is one poll: it
     * either counts down the wait or lets the in-flight bytes land, then
     * reports. Reading the FIFO register pops the oldest byte; on an empty
     * FIFO it returns the stale data register and pops nothing.
     */
    method ReadB(off: nat) returns (v: bv8)
      requires Valid() && off < RegSize
      modifies this
      ensures Valid()
      ensures trace == old(trace) + [Read(off)] && clocked == old(clocked)
      ensures off == Spsr ==>
        && (old(incoming) != [] && old(wait) == 0 ==>
              rxFifo == old(rxFifo) + old(incoming) && incoming == [] && wait == 0)
        && (old(incoming) != [] && old(wait) != 0 ==>
              rxFifo == old(rxFifo) && incoming == old(incoming) && wait == old(wait) - 1)
        && (old(incoming) == [] ==>
              rxFifo == old(rxFifo) && incoming == [] && wait == old(wait))
        && v == Status()
      ensures off == Fifo ==>
        && incoming == old(incoming) && wait == old(wait)
        && (old(rxFifo) == [] ==> rxFifo == [] && v == regs[Fifo])
        && (old(rxFifo) != [] ==> rxFifo == old(rxFifo)[1..] && v == old(rxFifo)[0])
      ensures off != Spsr && off != Fifo ==>
        rxFifo == old(rxFifo) && incoming == old(incoming) && wait == old(wait) && v == regs[off]
    {
      trace := trace + [Read(off)];
      if off == Spsr {
        if incoming != [] {
          if wait == 0 {
            rxFifo := rxFifo + incoming;
            incoming := [];
          } else {
            wait := wait - 1;
          }
        }
        v := Status();
      } else if off == Fifo {
        if rxFifo == [] {
          v := regs[Fifo];
        } else {
          v := rxFifo[0];
          rxFifo := rxFifo[1..];
        }
      } else {
        v := regs[off];
      }
    }

    /**
     * `mmio_writeb(v, base + off)`. A write to the FIFO register clocks `v`
     * out to the slave and puts its reply in flight; any other write stores
     * `v` in the register.
     */
    method WriteB(v: bv8, off: nat)
      requires Valid() && off < RegSize
      modifies this, regs
      ensures Valid()
      ensures trace == old(trace) + [Write(off, v)]
      ensures off == Fifo ==>
        && regs[..] == old(regs[..]) && rxFifo == old(rxFifo)
        && incoming == old(incoming) + [Reply(slave, old(clocked), v)]
        && wait == latency && clocked == old(clocked) + 1
      ensures off != Fifo ==>
        && regs[..] == old(regs[..])[off := v] && rxFifo == old(rxFifo)
        && incoming == old(incoming) && wait == old(wait) && clocked == old(clocked)
    {
      trace := trace + [Write(off, v)];
      if off == Fifo {
        incoming := incoming + [Reply(slave, clocked, v)];
        wait := latency;
        clocked := clocked + 1;
      } else {
        regs[off] := v;
      }
    }
  }
}
