/** Small shared vocabulary: an optional value (a C pointer that may be NULL) and the
    32-bit unsigned DWORD of the Win32 API. */
module Common {

  /** A value that may be absent, as a NULL pointer or handle is. */
  datatype Option<T> = None | Some(value: T)

  /** The values a C `int` can hold. */
  type Int32 = x: int | -0x8000_0000 <= x < 0x8000_0000

  const DWORD_MODULUS: int := 0x1_0000_0000

  /** The values a DWORD can hold. */
  type DWord = x: int | 0 <= x < DWORD_MODULUS

  /** The C cast `(DWORD) x` of a 32-bit signed value: two's-complement reinterpretation,
      i.e. reduction modulo 2^32. */
  function ToDWord(x: int): (d: DWord)
    ensures 0 <= x < DWORD_MODULUS ==> d == x
    ensures -DWORD_MODULUS <= x < 0 ==> d == x + DWORD_MODULUS
  {
    x % DWORD_MODULUS
  }
}
