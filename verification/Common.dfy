/** What several modules need: optional values, and the words of a 32-bit
    machine. */
module Common {

  datatype Option<+T> = None | Some(value: T)

  const MOD32: int := 0x1_0000_0000

  type Word = x: int | 0 <= x < MOD32
}
