/** The shared system-configuration handle (`syscon::Handle`) as the SPI
    lifecycle uses it: one clock-gate bit per peripheral and a functional
    clock selection per peripheral. Many peripherals borrow it briefly in
    their `enable` and `disable`. */
module Syscon {
  import opened Hal

  /** A functional clock source; which sources the chip offers is not part
      of this model. */
  datatype ClockSource = ClockSource(id: nat)

  /** `SpiClock<CLOCK>`: the clock descriptor `enable` consumes, a functional
      clock source and the value for the SPI's DIV register. */
  datatype SpiClock = SpiClock(source: ClockSource, divval: u16)

  class Handle {
    /** The peripherals whose clock-gate bit is set. */
    var clocked: set<Peripheral>
    /** The functional clock selected for each peripheral so far. */
    var selected: map<Peripheral, ClockSource>

    /** `enable_clock`: ungates `p`'s clock and leaves every other bit. */
    method EnableClock(p: Peripheral)
      modifies this`clocked
      ensures clocked == old(clocked) + {p}
    {
      clocked := clocked + {p};
    }

    /** `disable_clock`: gates `p`'s clock and leaves every other bit. */
    method DisableClock(p: Peripheral)
      modifies this`clocked
      ensures clocked == old(clocked) - {p}
    {
      clocked := clocked - {p};
    }

    /** `clock.select_clock(syscon)`: selects the descriptor's source as
        `p`'s functional clock. */
    method SelectClock(clock: SpiClock, p: Peripheral)
      modifies this`selected
      ensures selected == old(selected)[p := clock.source]
    {
      selected := selected[p := clock.source];
    }
  }
}
