/** The switch matrix's movable functions as far as the SPI peripherals use
    them: each function is a distinct value, and a function handle carries
    the assignment state its type records. Assigning and unassigning are
    not part of this model; an `Assigned` handle is taken as given. */
module Swm {
  import opened Hal

  /** A physical pin `PIO<port>_<number>`. */
  datatype Pin = Pio(port: nat, number: nat)

  /** The signals an SPI instance routes through the switch matrix. */
  datatype SpiSignal = Sck | Mosi | Miso

  /** The movable functions `swm::SPI0_SCK` ... `swm::SPI1_MISO`. */
  datatype FunctionKind =
    | Spi0Sck | Spi0Mosi | Spi0Miso
    | Spi1Sck | Spi1Mosi | Spi1Miso

  /** The SPI instance a movable function belongs to, read off its name. */
  function Owner(f: FunctionKind): Peripheral
  {
    match f
    case Spi0Sck | Spi0Mosi | Spi0Miso => Spi0
    case Spi1Sck | Spi1Mosi | Spi1Miso => Spi1
  }

  /** The signal a movable function carries, read off its name. */
  function Signal(f: FunctionKind): SpiSignal
  {
    match f
    case Spi0Sck | Spi1Sck => Sck
    case Spi0Mosi | Spi1Mosi => Mosi
    case Spi0Miso | Spi1Miso => Miso
  }

  /** `swm::state::Unassigned` or `swm::state::Assigned<Pin>`. */
  datatype FunctionState = Unassigned | Assigned(pin: Pin)

  /** `swm::Function<T, State>`: which function, in which state. */
  datatype Function = Function(kind: FunctionKind, state: FunctionState)

  /** `f` is a handle of type `swm::Function<kind, Assigned<_>>`. */
  predicate IsAssigned(f: Function, kind: FunctionKind)
  {
    f.kind == kind && f.state.Assigned?
  }
}
