/** Machine-level vocabulary shared by the parser model: bytes, the C-locale
    `isalpha` test and the conversion of a C `int` to `size_t`. */
module Types {

  /** An unsigned C byte (`uchar`). */
  newtype byte = x: int | 0 <= x < 256

  /** `isalpha` in the C locale: the ASCII letters only. The TIS-620 Thai
      letters (0xA1 and up) and the digits are not alphabetic under it. */
  predicate IsAlpha(b: byte) {
    || ('A' as int <= b as int <= 'Z' as int)
    || ('a' as int <= b as int <= 'z' as int)
  }

  /** 2^64: `size_t` is 64 bits wide on the platforms the server is built for. */
  const SIZE_T_MODULUS: int := 0x1_0000_0000_0000_0000

  /** The value a C `int` expression takes once it is passed as a `size_t`
      argument: it is reduced modulo 2^64, so a negative length reaches the
      callee as a huge one. */
  function ToSizeT(x: int): (r: nat)
    ensures r < SIZE_T_MODULUS
    ensures 0 <= x < SIZE_T_MODULUS ==> r == x
    ensures -SIZE_T_MODULUS / 2 <= x < 0 ==> SIZE_T_MODULUS / 2 <= r && r - x == SIZE_T_MODULUS
  {
    x % SIZE_T_MODULUS
  }

  /** 2^32: the width of a C `int`. */
  const INT_MODULUS: int := 0x1_0000_0000

  /** The value an integer takes once it is stored in a C `int`: reduced
      modulo 2^32 into the two's-complement range. */
  function ToInt32(x: int): (r: int)
    ensures -INT_MODULUS / 2 <= r < INT_MODULUS / 2
    ensures (x - r) % INT_MODULUS == 0
  {
    var m := x % INT_MODULUS;
    if m >= INT_MODULUS / 2 then m - INT_MODULUS else m
  }

  /** An `int` length that travels through a `size_t` parameter and is then
      passed on as an `int` again comes back unchanged, negative ones
      included. */
  lemma SizeTRoundTrip(x: int)
    requires -INT_MODULUS / 2 <= x < INT_MODULUS / 2
    ensures ToInt32(ToSizeT(x)) == x
  {
    if x < 0 {
      assert ToSizeT(x) == SIZE_T_MODULUS + x;
      assert SIZE_T_MODULUS + x == (INT_MODULUS - 1) * INT_MODULUS + (INT_MODULUS + x);
      assert ToSizeT(x) % INT_MODULUS == INT_MODULUS + x;
    }
  }
}
