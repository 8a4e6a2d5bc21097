/** Shared value types of the model. */
module Wrappers {

  datatype Option<+T> = None | Some(value: T)

  datatype Result<+T, +E> = Ok(value: T) | Err(error: E)
}

/** Unsigned machine integers of the source, as ranges of mathematical integers. */
module Machine {

  const TWO_16: int := 0x1_0000
  const TWO_32: int := 0x1_0000_0000
  const TWO_64: int := 0x1_0000_0000_0000_0000
  const TWO_128: int := TWO_64 * TWO_64

  type Byte = b: int | 0 <= b < 0x100
  type Word = w: int | 0 <= w < 0x1_0000

  // Bit k of a command or status byte.
  predicate Bit(value: Byte, weight: nat)
    requires weight > 0
  {
    value / weight % 2 == 1
  }

  function Low(w: Word): Byte { w % 0x100 }

  function High(w: Word): Byte { w / 0x100 }

  function LittleEndian(low: Byte, high: Byte): Word { low + 0x100 * high }

  function Min(a: int, b: int): int { if a < b then a else b }
}
