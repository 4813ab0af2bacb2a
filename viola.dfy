/**
 * Shared vocabulary of the Viola monitor: the page states of include/linux/viola.h,
 * the device ids the monitor guards, the kernel error numbers it returns, and the
 * width of the values it handles.
 *
 * On the 32-bit ARM target a `char` is unsigned, so every byte is a `bv8`; registers,
 * addresses and `unsigned long` values are `bv32`, and their arithmetic wraps.
 */
module Viola {

  datatype Option<T> = None | Some(value: T) {
    function GetOr(default: T): T {
      match this
      case Some(v) => v
      case None => default
    }
  }

  /** Page states, numbered as in include/linux/viola.h. */
  const VIOLA_SHARED: int := 0
  const VIOLA_MODIFIED: int := 1
  const VIOLA_INVALID: int := 2

  predicate IsPageState(state: int) {
    state == VIOLA_SHARED || state == VIOLA_MODIFIED || state == VIOLA_INVALID
  }

  /** Device ids: camera, vibrator, vibrator driver IC, vibrator clock. */
  const CAM: bv8 := 0x4
  const VIB: bv8 := 0x5
  const VIB_IC: bv8 := 0x6
  const VIB_CLK: bv8 := 0x7

  /** The device ids that own a shadow register file. */
  predicate IsDevice(devid: bv8) {
    CAM <= devid <= VIB_CLK
  }

  /** Linux error numbers (asm-generic/errno-base.h); the monitor returns them negated. */
  const ENOMEM: int := 12
  const EFAULT: int := 14

  /** Size of one shadow register file: a register offset is one byte. */
  const SHADOW_SIZE: nat := 256
}
