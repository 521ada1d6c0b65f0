/** Widths of the machine's integers, and counting. */
module Machine {

  const TWO16: nat := 0x1_0000
  const TWO31: nat := 0x8000_0000
  const TWO32: nat := 0x1_0000_0000
  const TWO63: int := 0x8000_0000_0000_0000
  const TWO64: nat := 0x1_0000_0000_0000_0000
  const LONG_MAX: nat := 0x7FFF_FFFF_FFFF_FFFF

  /** The weight of a condition in a count. */
  function One(b: bool): nat {
    if b then 1 else 0
  }
}
