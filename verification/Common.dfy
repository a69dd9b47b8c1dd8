// The widths of C's unsigned integers, an optional value, and rounding.

module Common {
  const TWO_32: int := 0x1_0000_0000

  type byte = x: int | 0 <= x < 256
  type u16 = x: int | 0 <= x < 0x1_0000
  type u32 = x: int | 0 <= x < 0x1_0000_0000

  datatype Option<T> = None | Some(value: T)

  /** Rounded up to a multiple of 4. */
  function Align4(n: nat): nat { (n + 3) / 4 * 4 }
}
