# Loongson3 SPI master: a verified Dafny model

This project models the software-driven SPI master in flashrom's
`loongson3_spi.c`. The driver talks to the firmware flash on chip-select 0
through a 16-byte window of byte-wide memory-mapped registers:

- SPCR: control.
- SPSR: status, where bit 0 is "read FIFO empty".
- FIFO: a write pushes a byte, a read pops one.
- SFCP: read-engine control, where bit 0 is the memory read engine.
- SOFTCS: software chip-select.

The model covers three parts of the driver:

- **CPU-model classification** (`cpu_model.dfy`). `cpu_is_loongson64c`,
  `cpu_is_loongson64g` and the selector branch of `loongson3_spi_init` are
  pure functions. They map the `cpu` parameter to the 64C base 0x1fe00220,
  the 64G base 0x1fe001f0, or a rejection.
- **Controller lifecycle** (`loongson3_spi.dfy`, class `Driver`). This covers
  the register sequence of `loongson3_spi_init` (release CS0, set SPCR's
  master and enable bits, clear SFCP's read-engine bit, drain the read FIFO)
  and `loongson3_spi_shutdown`.
- **Transaction engine** (`Driver.SendCommand`). It asserts CS0, makes
  `writecnt` push/wait/pop round trips that discard the reply, makes
  `readcnt` round trips that re-send `writearr[i]` and store the reply in
  `readarr[i]`, then releases CS0.

The hardware is the class `Mmio.SpiController`. Its `ReadB` and `WriteB`
stand for `mmio_readb` and `mmio_writeb`. The plain registers live in an
`array<bv8>` of length 0x10. The read FIFO is a queue. The device is full
duplex: every push clocks one byte onto the bus and puts the flash's reply
in flight. The reply lands in the read FIFO after `latency` status polls
that still report "empty". This is the device assumption that replaces
real timing for the busy-wait loops. Every access is recorded in `trace`.
The module `Traces` gives the exact trace of each operation as a function,
plus observers that read a trace back: `Written(t, off)` is the bytes
written to a register, and `Reads(t, off)` counts its reads. The lemmas
there state what each operation does on the bus. The module `Scenarios`
states whole-driver scenarios on fresh controllers, with proved
postconditions.

Bits are handled as `bv8`. `Bits.SetBits` and `Bits.ClearBits` are the
source's `reg |= mask` and `reg &= ~mask`, and their contracts say which
bits change and which stay.

## Model

| member | source | states |
|---|---|---|
| `CpuModel.CpuIsLoongson64C` | loongson3_spi.c:77-95 | returns 0 or 1, and 1 exactly when the model is one of 3b1500, 3a2000, 3b2000, 3a3000, 3b3000 |
| `CpuModel.CpuIsLoongson64G` | loongson3_spi.c:97-106 | returns 0 or 1, and 1 exactly when the model is 3a4000 or 3b4000 |
| `CpuModel.FamiliesDisjoint` | loongson3_spi.c:77-106 | the two families share no model, so at most one classifier answers 1 |
| `CpuModel.SelectBase` | loongson3_spi.c:124-136 | a 64C model selects base 0x1fe00220 and a 64G model selects 0x1fe001f0, each if and only if; every other string is rejected |
| `Bits.SetBits` | loongson3_spi.c:157 | `reg \| mask` sets every bit of the mask and keeps every other bit |
| `Bits.ClearBits` | loongson3_spi.c:162 | `reg & ~mask` clears every bit of the mask and keeps every other bit |
| `Registers.EnableSetsMasterAndSpe` | loongson3_spi.c:155-158 | the SPCR update of init sets bits 4 and 6 and leaves the other six bits as they were |
| `Registers.DisableClearsOnlyMemEn` | loongson3_spi.c:160-163 | the SFCP update of init clears bit 0 and leaves the other seven bits as they were |
| `Registers.EnableSetsOnlyMemEn` | loongson3_spi.c:182-185 | the SFCP update of shutdown sets bit 0 and leaves the other seven bits as they were |
| `Registers.ChipSelectPatterns` | loongson3_spi.c:54-57 | SOFTCS_ASSERT (0x01) and SOFTCS_DESSERT (0x11) both keep CS0 under software control and differ only in bit 4, the CS0 level |
| `Mmio.SpiController.Status` | loongson3_spi.c:42-43 | the status byte's bit 0 (RFEMPTY) is set exactly when the read FIFO is empty |
| `Mmio.SpiController.ReadB` | loongson3_spi.c:42-54 | a status read is one poll that may let the in-flight reply land; a FIFO read pops the oldest byte; any other read returns the register; the access is logged |
| `Mmio.SpiController.WriteB` | loongson3_spi.c:49-57 | a FIFO write clocks the byte out and puts the slave's reply in flight; any other write stores the byte in that register only; the access is logged |
| `Traces.RoundTripsWritten` | loongson3_spi.c:202-218 | a run of round trips pushes exactly the given bytes in order and writes no other register |
| `Traces.RoundTripsPops` | loongson3_spi.c:202-218 | a run of round trips pops the FIFO once per byte and reads no register other than the FIFO and the status register |
| `Traces.RoundTripsInLockstep` | loongson3_spi.c:202-218 | round trips never pipeline: at every point at most one pushed byte has not yet been popped |
| `Traces.TransactionObserved` | loongson3_spi.c:200-222 | the first access asserts CS0 and the last releases it; SOFTCS is written exactly those two times; the FIFO pushes are exactly `writearr[0..writecnt) ++ writearr[0..readcnt)`; there is one pop per push; SPCR and SFCP are not written |
| `Traces.TransactionInLockstep` | loongson3_spi.c:200-222 | within a whole transaction each pushed byte is popped before the next push |
| `Traces.SessionAlternates` | loongson3_spi.c:200-220 | over any number of back-to-back transactions, chip-select writes alternate assert, release, assert, release, …, so CS0 is never asserted twice without a release between |
| `Traces.DrainWritten` | loongson3_spi.c:167-168 | the drain writes no register |
| `Traces.DrainReads` | loongson3_spi.c:167-168 | a drain that finds n stale bytes pops exactly n and polls n + 1 times; with n = 0 it pops nothing |
| `Traces.InitWrittenAt` | loongson3_spi.c:145-168 | a successful init writes SOFTCS once with the release pattern, SPCR once with the enable bits set, SFCP once with the read engine cleared, and no other register, so it pushes nothing onto the bus |
| `Traces.InitPops` | loongson3_spi.c:145-168 | a successful init pops exactly the stale bytes |
| `Loongson3Spi.Driver.Init` | loongson3_spi.c:108-172 | a missing or unknown `cpu` returns 1 with no register access; a failed map leaves the handle NULL and returns 1; a failed hook returns 1 after one SFCP read; only a successful init registers the hook, and it leaves the handle set; success returns 0 with SOFTCS = 0x11, SPCR with bits 4 and 6 set, SFCP with bit 0 cleared, other registers unchanged, the read FIFO empty, and the exact access trace |
| `Loongson3Spi.Driver.EnableController` | loongson3_spi.c:152-168 | after the hook is registered: SOFTCS holds 0x11, SPCR gains bits 4 and 6, SFCP loses bit 0, no other register changes, the read FIFO ends empty with RFEMPTY set, and the trace is the CS0 release, the two read-modify-writes and the drain |
| `Loongson3Spi.Driver.DrainReadFifo` | loongson3_spi.c:166-168 | on exit the status register's RFEMPTY bit is set and the FIFO is empty; the trace holds one pop per stale byte and no pop if the FIFO was already empty |
| `Loongson3Spi.Driver.ShutdownAsWritten` | loongson3_spi.c:174-189 | once the hook is registered, which `Init` does only over a mapped window, the inverted guard skips the body: it returns 0 and modifies nothing |
| `Loongson3Spi.Driver.Shutdown` | loongson3_spi.c:174-189 | the guard corrected: with the window mapped it writes 0x0 to SOFTCS, which disables soft chip-select (bit 0, software control of CS0, cleared), and sets only SFCP bit 0; unmapped it touches nothing; it always returns 0 |
| `Loongson3Spi.Driver.Exchange` | loongson3_spi.c:203-208 | one round trip: push the byte, spin on RFEMPTY until the reply has landed, pop it; the popped byte is the slave's reply to that push and the bus is idle again |
| `Loongson3Spi.Driver.WritePhase` | loongson3_spi.c:202-209 | pushes `writearr[0..writecnt)` in order and discards each reply; `readarr` is not in its frame |
| `Loongson3Spi.Driver.ReadPhase` | loongson3_spi.c:211-218 | pushes `writearr[0..readcnt)` in order and stores the reply to push i in `readarr[i]`; `readarr[readcnt..]` is untouched |
| `Loongson3Spi.Driver.SendCommand` | loongson3_spi.c:191-223 | returns 0; the trace grows by exactly the transaction trace; `writecnt + readcnt` bytes are clocked; SOFTCS ends released and no other register changes; `readarr[i]` is the reply to push `writecnt + i`; `readarr[readcnt..]` is untouched |
| `Scenarios.BringUp3a4000` | loongson3_spi.c:128-172 | from any boot state, init with "3a4000" succeeds with the 64G base, SPCR bits 4 and 6 set, SFCP bit 0 clear, CS0 released and the read FIFO empty |
| `Scenarios.RejectUnknownModel` | loongson3_spi.c:132-136 | init with "unknown9000" returns 1, leaves the handle NULL and makes no register access |
| `Scenarios.ReadJedecId` | loongson3_spi.c:211-218 | a 1-write, 3-read command against a flash that answers 0xef 0x40 0x18 stores exactly those bytes in `readarr` |
| `Scenarios.EchoReadBack` | loongson3_spi.c:211-218 | against a loop-back device, `readarr[0..readcnt)` equals `writearr[0..readcnt)` |
| `Scenarios.BackToBack` | loongson3_spi.c:200-220 | two transactions in a row write chip-select assert, release, assert, release and nothing else |
| `Scenarios.ShutdownAsWrittenLeavesReadEngineOff` | loongson3_spi.c:176 | after a successful init, the shutdown hook as written leaves the read engine disabled and CS0 at the release pattern |
| `Scenarios.ShutdownRestoresReadEngine` | loongson3_spi.c:176-186 | after a successful init, the corrected shutdown turns the read engine back on and leaves SOFTCS at 0, and a later drain pops nothing |

## Left out

- `extract_programmer_param`, `rphysmap` and `free` are foreign calls. Their outcomes are parameters of `Init`: `cpu` is None when the parameter is absent, and `mapOk` says whether the map succeeded. The handle records the physical base of the mapped window, not a virtual pointer.
- `register_shutdown` is reduced to its outcome, the `hookOk` parameter of `Init`. `register_spi_master`, the `spi_master_loongson3` table and the `default_spi_*` operations are framework glue whose behaviour is not part of this file (loongson3_spi.c:67-75, 149, 170).
- `msg_perr` and `msg_pwarn` are diagnostics only. The SFCP read that feeds the read-engine warning is kept in the trace; the warning is not.
- The FIFO-batching variant of `loongson3_spi_send_command` is compiled out under `#if 0` (loongson3_spi.c:225-286).
- Real hardware timing is not modelled. The busy-wait loops terminate because of the device assumption that a reply lands after `latency` empty polls.
- Status flags RFFULL, WFEMPTY, WFFULL and WCOL are not modelled separately, because the driver never consults them. The other status bits are whatever the SPSR byte holds.
- Concurrency is not modelled. The driver is single-threaded and nothing in it locks.
- Loongson3Spi.Driver.SendCommand: requires `readcnt <= |writearr|`, because the read loop indexes `writearr[i]` for every `i < readcnt`. A caller that passes a shorter write buffer makes the C code read past its end, and the model does not describe that read.
- Loongson3Spi.Driver.SendCommand: requires an idle bus: an empty read FIFO and no reply in flight. Init establishes this and every transaction preserves it. A stale byte would be popped in place of the first reply, and the model does not follow that case.
- Loongson3Spi.Driver.Init: requires that no reply is in flight at boot. Stale bytes already in the read FIFO are allowed and are drained.
- Mmio.SpiController.ReadB: reading the FIFO register while the read FIFO is empty returns the stored data byte and pops nothing. The driver never does this, and nothing in the source says what the hardware returns.
- Loongson3Spi.Driver.SendCommand: `writearr` is an immutable sequence and `readarr` a separate array, so a caller whose `readarr` overlaps `writearr`, which C permits, is not described. With such overlap, a read-phase store could change a byte that a later push re-sends.
- `writecnt` and `readcnt` are unbounded naturals rather than `unsigned int`. The loop counters stay below them, so no wrap-around is possible.

## Findings

| source | as written | input that shows it | evidently intended | confidence | as-written member | corrected member |
|---|---|---|---|---|---|---|
| loongson3_spi.c:176 | `if (!spictrl_base)`: the cleanup body runs only when the handle is NULL, and would then dereference NULL | `cpu=3a4000` with a successful map, then teardown: the hook is registered only after the map succeeded, so the body is always skipped and the read engine stays disabled | `if (spictrl_base)`: re-enable the read engine whenever the window is mapped | high; not executed | `Scenarios.ShutdownAsWrittenLeavesReadEngineOff` | `Loongson3Spi.Driver.Shutdown` |
