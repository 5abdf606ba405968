# SPI lifecycle and USART transmitter of an LPC8xx hardware-abstraction layer

This project models two drivers of the `lpc8xx-hal` crate in Dafny and proves what their
documentation and code promise.

- **SPI** (`src/spi.rs`). `SPI<I, State>` is a typestate handle over one SPI instance's register
  block. `new` makes a `Disabled` handle. `enable` needs a `Disabled` handle and the instance's own
  SCK/MOSI/MISO switch-matrix functions in the `Assigned` state. It ungates the peripheral clock
  and selects the functional clock on the shared `syscon::Handle`, then writes DIV, TXCTL and CFG,
  and returns an `Enabled` handle. `disable` gates the clock again. `free` gives back the register
  block from either state. `read`/`send` are non-blocking and depend on RXRDY/TXRDY.
- **USART transmitter** (`src/usart/tx.rs`). `Tx<I, Enabled>` offers a non-blocking `write` that
  depends on TXRDY and a `flush` that depends on TXIDLE. It also offers the TXRDY interrupt
  enable/disable, the blocking `write_str` (every byte through `block!(write)`, then
  `block!(flush)`), and the DMA `wait`, which is `flush`.

Modelling choices:

- A typestate handle is a datatype holding the register block and the state tag:
  `Spi.SpiHandle(spi, state)` and `UsartTx.Tx(regs, state)`.
- The register block is a class whose fields the driver writes in place:
  `Spi.SpiRegisters` and `UsartTx.UsartRegisters`.
- "Only available in state S" becomes `requires h.state == S`.
- The hardware rule that an unclocked peripheral's registers cannot be written is a precondition
  of the SPI register writes: `WriteDiv`, `WriteTxctl` and `WriteCfg` need the instance's clock
  ungated.
- All three also need a functional clock selected; `WriteDiv` needs it to be the descriptor's.
- So `Spi.Enable` verifies only because it ungates and selects the clock before it writes.

Status flags (RXRDY, TXRDY, TXIDLE) and RXDAT are set by the hardware, so the model takes them as
inputs. A blocking loop polls STAT again and again. The model is given `hw`, the statuses the
hardware shows after each poll. Once `hw` is used up the status stays as it is. A loop whose call
then still returns `WouldBlock` would spin forever in the source; the model reports this as
`Hangs`. `UsartTx.Block`, `SendAll` and `WriteStrRun` are this behaviour as functions.
`bwrite_all` (src/usart/tx.rs:99-100, 110) is also a default implementation that lives in the
`embedded-hal` crate, not in this repository. `SendAll` follows embedded-hal 0.2's
`blocking::serial::write::Default::bwrite_all`, which runs `block!(self.write(w))?` for each word in
order.
`UsartTx.BlockOn`, `WriteAll` and `WriteStr` are the imperative loops, each proved equal to its
function.

`enable` takes the three `Assigned` function handles by value and drops them
(src/spi.rs:127-129), so they cannot be unassigned afterwards. The model's `Spi.Enable` likewise
takes them and returns nothing for them.

## Model

| member | source | states |
|---|---|---|
| `Hal.ZeroExtend` | src/spi.rs:236 | `word as u16` is the one 16-bit value below 0x100 whose low byte is `word` |
| `Hal.LowByte` | src/spi.rs:226 | `rxdat as u8` differs from `rxdat` by a multiple of 0x100, and equals it below 0x100 |
| `Hal.ZeroExtendAll` | src/usart/tx.rs:110 | the words for `s.as_bytes()` are the zero-extended bytes, same length, same order |
| `Spi.New` | src/spi.rs:98-103 | `new` yields a `Disabled` handle over the given register block |
| `Spi.Free` | src/spi.rs:216-218 | `free`, in any state, returns exactly the wrapped register block |
| `Spi.FreeNew` | src/spi.rs:216-218 | freeing a freshly wrapped block gives the same block back |
| `Spi.Required` | src/spi.rs:264-274 | the function an instance needs for SCK/MOSI/MISO is that instance's function for that signal (SPI0_* for SPI0, SPI1_* for SPI1) |
| `Spi.RequiredInjective` | src/spi.rs:264-274 | no function is required for two signals or by both instances |
| `Spi.CfgFor` | src/spi.rs:153-166 | CPOL is high iff polarity is `IdleHigh`; CPHA is clear iff phase is `CaptureOnFirstTransition`; enable and master mode are set |
| `Spi.ModeOf` | src/spi.rs:153-166 | decoding CFG inverts `CfgFor` on every enabled master CFG value |
| `Spi.ModeOfCfgFor` | src/spi.rs:153-166 | decoding the CFG value `enable` writes gives back the requested mode |
| `Spi.SpiRegisters.WriteDiv` | src/spi.rs:144-146 | DIV takes the descriptor's `divval`; allowed only with the clock ungated and the descriptor's source selected |
| `Spi.SpiRegisters.WriteTxctl` | src/spi.rs:148-151 | TXCTL.LEN takes the given length; allowed only with the clock ungated and a functional clock selected |
| `Spi.SpiRegisters.WriteCfg` | src/spi.rs:153-166 | CFG takes the given value; allowed only with the clock ungated and a functional clock selected |
| `Spi.Enable` | src/spi.rs:122-172 | only on `Disabled`, with the instance's own three functions `Assigned`; clock bit set and source selected before any register write; afterwards `divval == clock.divval`, `len == 7` (8-bit frames), `cfg == CfgFor(mode)`; returns an `Enabled` handle over the same block, whose tag matches its clock bit; the other instance's tag still matches its clock bit; status and data registers untouched |
| `Spi.Disable` | src/spi.rs:190-200 | only on `Enabled`; clears only this instance's clock bit; returns a `Disabled` handle over the unchanged block, whose tag matches its clock bit; the other instance's tag still matches its clock bit |
| `Spi.Read` | src/spi.rs:224-230 | `Ok(rxdat as u8)` when RXRDY is set, `WouldBlock` otherwise; never an error, nothing written |
| `Spi.Send` | src/spi.rs:232-241 | with TXRDY set, TXDAT becomes the zero-extended word and the result is `Ok`; otherwise `WouldBlock` and TXDAT unchanged; no other register written |
| `Syscon.Handle.EnableClock` | src/spi.rs:140 | sets this peripheral's clock bit, no other |
| `Syscon.Handle.SelectClock` | src/spi.rs:142 | records the descriptor's source as this peripheral's functional clock |
| `Syscon.Handle.DisableClock` | src/spi.rs:194 | clears this peripheral's clock bit, no other |
| `UsartTx.New` | src/usart/tx.rs:30-35 | `Tx::new` yields a handle of the requested state for the instance |
| `UsartTx.EnableTxrdy` | src/usart/tx.rs:49-54 | only on `Enabled`; sets the TXRDY interrupt enable; TXDAT and status untouched |
| `UsartTx.DisableTxrdy` | src/usart/tx.rs:57-62 | only on `Enabled`; clears the TXRDY interrupt enable; TXDAT and status untouched |
| `UsartTx.Attempt` | src/usart/tx.rs:69-96 | a non-blocking `write`/`flush` is `Ok` iff its flag (TXRDY/TXIDLE) is set and `WouldBlock` iff it is clear; never an error (`Void`) |
| `UsartTx.Write` | src/usart/tx.rs:71-85 | with TXRDY clear, `WouldBlock` and TXDAT unchanged; with TXRDY set, TXDAT becomes the zero-extended word, which is appended to the record of written words, and the result is `Ok` |
| `UsartTx.Flush` | src/usart/tx.rs:87-96 | `Ok` iff TXIDLE is set, otherwise `WouldBlock`; writes no register |
| `UsartTx.Wait` | src/usart/tx.rs:123-125 | the same result as `flush`, and no register written |
| `UsartTx.Block` | src/usart/tx.rs:111 | a `block!` loop only consumes statuses, and spins forever only once the status is frozen with its flag clear; `BlockNeverFails` and `BlockForeverIffNeverReady` state the rest |
| `UsartTx.BlockNeverFails` | src/usart/tx.rs:110-111 | a `block!` loop over `write` or `flush` never ends in an error |
| `UsartTx.BlockForeverIffNeverReady` | src/usart/tx.rs:111 | a `block!` loop spins forever iff its flag is clear in every status the hardware will show; otherwise it ends with its call succeeded |
| `UsartTx.SendAll` | src/usart/tx.rs:110 | `bwrite_all` only consumes statuses, and spins forever only once the status is frozen with TXRDY clear; `SendAllSendsPrefix` and `SendAllNeverFails` state the rest |
| `UsartTx.SendAllSendsPrefix` | src/usart/tx.rs:110 | `bwrite_all` writes a prefix of the bytes, in order, and all of them iff it succeeds |
| `UsartTx.SendAllNeverFails` | src/usart/tx.rs:110 | `bwrite_all` never ends in an error |
| `UsartTx.SendAllOnReadyHardware` | src/usart/tx.rs:110 | when TXRDY is set in every status, `bwrite_all` writes every byte, whatever TXIDLE does; a flag set in every status before stays set in every status after |
| `UsartTx.WriteStrRun` | src/usart/tx.rs:107-114 | `write_str` only consumes statuses, and hangs only once the status is frozen: with TXRDY clear while bytes remain, or with TXIDLE clear after the last byte; `WriteStrReturnsOk` states the rest |
| `UsartTx.WriteStrReturnsOk` | src/usart/tx.rs:107-114 | `write_str` never returns `fmt::Error`; when it returns `Ok`, every byte of the string was written in order and the wait for TXIDLE succeeded |
| `UsartTx.WriteStrOnReadyHardware` | src/usart/tx.rs:107-114 | when TXRDY and TXIDLE are set in every status, `write_str` returns `Ok` after writing the whole string |
| `UsartTx.BlockOn` | src/usart/tx.rs:111 | the imperative `block!` loop behaves as `Block`: same end, same status afterwards, and the word written exactly when a write loop succeeded; TXDAT takes that word then and is untouched otherwise |
| `UsartTx.WriteAll` | src/usart/tx.rs:110 | the imperative `bwrite_all` loop behaves as `SendAll`: same end, same TXDAT record, same status; TXDAT ends with the last word sent and is untouched when none was |
| `UsartTx.WriteStr` | src/usart/tx.rs:107-114 | the imperative `write_str` behaves as `WriteStrRun`: same outcome, same TXDAT record, same final status; TXDAT ends with the last word sent and is untouched when none was; the interrupt enable is untouched |

## Left out

- Single ownership of handles is left out. The source's consuming transitions make the old handle unusable at compile time. Dafny datatype values can be copied, so the model does not stop a caller from reusing a stale `Disabled` handle after `Spi.Enable`. Only the preconditions on each call are modelled.
- `dma::Dest::end_addr` (src/usart/tx.rs:127-131) is left out. It only casts a register address to a pointer.
- The blocking SPI `transfer` and `write` (src/spi.rs:276-281) are left out. They are default implementations that live in the `embedded-hal` crate, not in this repository.
- Clock-divider computation (`SpiClock::new`) is left out. The descriptor is an input: a clock source identifier and `divval`.
- The chip-specific effect of `select_clock` is left out. The model records the selected source per peripheral.
- Switch-matrix `assign`/`unassign` are left out. An `Assigned` function handle is taken as a precondition token.
- `syscon::Handle`'s clock-control internals are not part of this model. They are a set of ungated peripherals plus a map of selected sources.
- Reset control is left out. `Instance` requires it, but these drivers never use it.
- Register bit layouts and `unsafe` register access are left out. Registers are abstract fields. `enable` writes every other CFG and TXCTL bit with its reset value; those bits are not modelled.
- Spi.Read: the hardware clears RXRDY when RXDAT is read. The model treats RXRDY as an input, so a read changes nothing.
- UsartTx.WriteStr: hardware timing is replaced by a finite script of status values. When the script ends on a status that still blocks, the model reports `Hangs` where the source would loop forever.
- UsartTx.WriteStr: the string is given as its UTF-8 bytes; converting a `&str` to bytes is not modelled.
- USART interrupt enables other than TXRDY are left out. NVIC interrupt delivery and races between interrupt handlers and the main code are left out too.
- `Peripherals::take` and the board programs under `examples/` are left out. They hold no state logic of these drivers.
