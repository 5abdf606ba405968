/** The SPI peripheral: a typestate handle `SPI<I, State>` over an SPI
    register block, its `Disabled -> Enabled -> Disabled` lifecycle, and the
    non-blocking full-duplex data path of an enabled handle. */
module Spi {
  import opened Hal
  import opened Swm
  import opened Syscon

  datatype Polarity = IdleLow | IdleHigh
  datatype Phase = CaptureOnFirstTransition | CaptureOnSecondTransition

  /** `embedded_hal::spi::Mode`. */
  datatype Mode = Mode(polarity: Polarity, phase: Phase)

  /** The CFG bits `enable` writes; every other CFG bit gets its reset value. */
  datatype Cfg = Cfg(cpol: bool, cpha: bool, enable: bool, master: bool)

  /** The CFG value `enable` writes for `mode`: clock polarity and phase from
      the mode, the peripheral enabled, in master mode. */
  function CfgFor(mode: Mode): (c: Cfg)
    ensures c.cpol <==> mode.polarity == IdleHigh
    ensures !c.cpha <==> mode.phase == CaptureOnFirstTransition
    ensures c.enable && c.master
  {
    var cpol := match mode.polarity
      case IdleHigh => true
      case IdleLow => false;
    var cpha := match mode.phase
      case CaptureOnFirstTransition => false
      case CaptureOnSecondTransition => true;
    Cfg(cpol, cpha, true, true)
  }

  /** The mode a CFG value configures. On every enabled master CFG value
      it inverts CfgFor, so every mode has exactly one CFG encoding. */
  function ModeOf(c: Cfg): (m: Mode)
    ensures CfgFor(m).cpol == c.cpol && CfgFor(m).cpha == c.cpha
    ensures c.enable && c.master ==> CfgFor(m) == c
  {
    Mode(if c.cpol then IdleHigh else IdleLow,
         if c.cpha then CaptureOnSecondTransition else CaptureOnFirstTransition)
  }

  /** Decoding the CFG value `enable` writes gives back the mode. */
  lemma ModeOfCfgFor(m: Mode)
    ensures ModeOf(CfgFor(m)) == m
  {
  }

  /** The movable function an SPI instance needs for a signal (the associated
      types `Sck`, `Mosi`, `Miso` of `Instance`): it is the function of that
      instance that carries that signal. */
  function Required(i: Peripheral, signal: SpiSignal): (f: FunctionKind)
    ensures Owner(f) == i && Signal(f) == signal
  {
    match i
    case Spi0 => (match signal case Sck => Spi0Sck case Mosi => Spi0Mosi case Miso => Spi0Miso)
    case Spi1 => (match signal case Sck => Spi1Sck case Mosi => Spi1Mosi case Miso => Spi1Miso)
  }

  /** No movable function is required twice: not for two signals of one
      instance, not by both instances. */
  lemma RequiredInjective(i: Peripheral, s: SpiSignal, j: Peripheral, t: SpiSignal)
    ensures Required(i, s) == Required(j, t) <==> i == j && s == t
  {
  }

  /** The register block of one SPI instance (`pac::SPI0` or `pac::SPI1`),
      reduced to the fields the driver touches. `rxrdy`, `txrdy` and `rxdat`
      are set by the hardware and are inputs of the model. */
  class SpiRegisters {
    /** Which instance this register block belongs to. */
    const id: Peripheral
    /** DIV.DIVVAL */
    var divval: u16
    /** TXCTL.LEN: the frame length minus one. */
    var len: u4
    /** CFG */
    var cfg: Cfg
    /** STAT.RXRDY and STAT.TXRDY */
    var rxrdy: bool
    var txrdy: bool
    /** RXDAT.RXDAT and TXDAT.DATA */
    var rxdat: u16
    var txdat: u16

    /** Writes DIV. The clock must be ungated, and the selected functional
        clock must be the descriptor's, whose divider this is. */
    method WriteDiv(clock: SpiClock, ghost syscon: Handle)
      requires id in syscon.clocked
      requires id in syscon.selected && syscon.selected[id] == clock.source
      modifies this`divval
      ensures divval == clock.divval
    {
      divval := clock.divval;
    }

    /** Writes TXCTL. The clock must be ungated and a functional clock
        selected. */
    method WriteTxctl(frameLen: u4, ghost syscon: Handle)
      requires id in syscon.clocked && id in syscon.selected
      modifies this`len
      ensures len == frameLen
    {
      len := frameLen;
    }

    /** Writes CFG. The clock must be ungated and a functional clock
        selected. */
    method WriteCfg(c: Cfg, ghost syscon: Handle)
      requires id in syscon.clocked && id in syscon.selected
      modifies this`cfg
      ensures cfg == c
    {
      cfg := c;
    }
  }

  /** `SPI<I, State>`: the wrapped register block and the state tag. */
  datatype SpiHandle = SpiHandle(spi: SpiRegisters, state: State)

  /** A handle's tag agrees with the clock gate of its instance. */
  predicate TagMatches(h: SpiHandle, clocked: set<Peripheral>)
  {
    h.state == Enabled <==> h.spi.id in clocked
  }

  /** `SPI::new`: wraps a register block in a `Disabled` handle. */
  function New(spi: SpiRegisters): (h: SpiHandle)
    ensures h.state == Disabled && h.spi == spi
  {
    SpiHandle(spi, Disabled)
  }

  /** `free`: the escape hatch, available in either state; gives back
      the very register block the handle wraps. */
  function Free(h: SpiHandle): (spi: SpiRegisters)
    ensures spi == h.spi
  {
    h.spi
  }

  /** Wrapping a register block and freeing it again gives the same block. */
  lemma FreeNew(spi: SpiRegisters)
    ensures Free(New(spi)) == spi
  {
  }

  /** `enable`: only on a `Disabled` handle, and only with the instance's
      own SCK, MOSI and MISO functions in the `Assigned` state. Ungates the
      clock and selects the functional clock first (the register writes
      require both), then writes DIV, TXCTL (8-bit frames) and CFG, and
      yields an `Enabled` handle over the same registers. The status and
      data registers are left alone. */
  method Enable(h: SpiHandle, clock: SpiClock, syscon: Handle, mode: Mode,
                sck: Function, mosi: Function, miso: Function)
    returns (e: SpiHandle)
    requires h.state == Disabled
    requires IsAssigned(sck, Required(h.spi.id, Sck))
    requires IsAssigned(mosi, Required(h.spi.id, Mosi))
    requires IsAssigned(miso, Required(h.spi.id, Miso))
    modifies syscon, h.spi`divval, h.spi`len, h.spi`cfg
    ensures e == SpiHandle(h.spi, Enabled)
    ensures syscon.clocked == old(syscon.clocked) + {h.spi.id}
    ensures syscon.selected == old(syscon.selected)[h.spi.id := clock.source]
    ensures h.spi.divval == clock.divval
    ensures h.spi.len == 7
    ensures h.spi.cfg == CfgFor(mode)
    ensures TagMatches(e, syscon.clocked)
    ensures forall g: SpiHandle :: g.spi.id != h.spi.id ==>
      (TagMatches(g, syscon.clocked) <==> TagMatches(g, old(syscon.clocked)))
  {
    syscon.EnableClock(h.spi.id);
    syscon.SelectClock(clock, h.spi.id);
    h.spi.WriteDiv(clock, syscon);
    h.spi.WriteTxctl(7, syscon);
    h.spi.WriteCfg(CfgFor(mode), syscon);
    e := SpiHandle(h.spi, Enabled);
  }

  /** `disable`: only on an `Enabled` handle. Gates the clock and nothing
      else, and yields a `Disabled` handle over the same registers. */
  method Disable(h: SpiHandle, syscon: Handle) returns (d: SpiHandle)
    requires h.state == Enabled
    modifies syscon`clocked
    ensures d == SpiHandle(h.spi, Disabled)
    ensures syscon.clocked == old(syscon.clocked) - {h.spi.id}
    ensures TagMatches(d, syscon.clocked)
    ensures forall g: SpiHandle :: g.spi.id != h.spi.id ==>
      (TagMatches(g, syscon.clocked) <==> TagMatches(g, old(syscon.clocked)))
  {
    syscon.DisableClock(h.spi.id);
    d := SpiHandle(h.spi, Disabled);
  }

  /** `FullDuplex::read`: only on an `Enabled` handle. The received word's
      low byte if RXRDY is set, `WouldBlock` otherwise; never an error, and
      no register is written. */
  method Read(h: SpiHandle) returns (r: Nb<u8>)
    requires h.state == Enabled
    ensures h.spi.rxrdy ==> r == Ok(LowByte(h.spi.rxdat))
    ensures !h.spi.rxrdy ==> r == WouldBlock
  {
    if h.spi.rxrdy {
      r := Ok(LowByte(h.spi.rxdat));
    } else {
      r := WouldBlock;
    }
  }

  /** `FullDuplex::send`: only on an `Enabled` handle. If TXRDY is set,
      writes the word zero-extended into TXDAT and succeeds; otherwise
      `WouldBlock` with TXDAT unchanged. Never an error; no other register
      is written. */
  method Send(h: SpiHandle, word: u8) returns (r: Nb<()>)
    requires h.state == Enabled
    modifies h.spi`txdat
    ensures h.spi.txrdy ==> r == Ok(()) && h.spi.txdat == ZeroExtend(word)
    ensures !h.spi.txrdy ==> r == WouldBlock && h.spi.txdat == old(h.spi.txdat)
  {
    if h.spi.txrdy {
      h.spi.txdat := ZeroExtend(word);
      r := Ok(());
    } else {
      r := WouldBlock;
    }
  }
}
