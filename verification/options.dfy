/** The generator's options that the modelled core reads (generator.py). */
module Options {

  /** `ignore_wait`: delays up to this many milliseconds are not emitted;
      `dumb_dcs`: only match the always-safe DCS commands. */
  datatype Options = Options(ignoreWait: int, dumbDcs: bool)

  /** Polarity of a GPIO line as written into the driver. */
  datatype GpioFlag = ActiveHigh | ActiveLow
}
