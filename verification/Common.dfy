/** What several parts share: handles of 16 bits, of which one is never valid, sizes of 64
    bits, strings that end with a zero character, and values that may be missing. */
module Common {
  const NUL: char := '\0'

  newtype Handle = h: int | 0 <= h < 0x1_0000

  const INVALID_HANDLE: Handle := 0xFFFF

  const TWO_64 := 0x1_0000_0000_0000_0000

  datatype Maybe<T> = Nothing | Just(val: T)
}
