/** Shared vocabulary: C++ bytes and characters, and the optional/result wrappers
    used for values the source may fail to produce. */
module Base {

  /** A `uint8_t`: shifts truncate to eight bits and `|`, `&` are bitwise. */
  type byte = bv8

  /** A C++ `char`, as its 8-bit code. Whether `char` is signed is up to the
      platform; it matters where the source compares a `char` with a negative
      value or with a `uint8_t`, and the members that do so take the
      signedness as a parameter or say which reading they model. */
  type char8 = bv8

  /** The `int` a `char` promotes to: its code where `char` is unsigned; where
      it is signed, codes from 0x80 are the negative values, the code less 256. */
  function Promoted(c: char8, signedChar: bool): (v: int)
    ensures !signedChar || c < 0x80 ==> v == c as int
    ensures signedChar && c >= 0x80 ==> v < 0
  {
    if signedChar && c >= 0x80 then c as int - 256 else c as int
  }

  /** `c < 0` on a `char`: only a signed `char` from 0x80 is negative. */
  predicate Negative(c: char8, signedChar: bool) {
    signedChar && c >= 0x80
  }

  /** `Negative` is the comparison of the promoted value with 0. */
  lemma NegativeIsBelowZero(c: char8, signedChar: bool)
    ensures Negative(c, signedChar) <==> Promoted(c, signedChar) < 0
  {
  }

  /** The range of a C++ `int`. */
  const IntMin: int := -0x8000_0000
  const IntMax: int := 0x7FFF_FFFF

  /** The character literals the modelled code uses, by their ASCII codes. */
  const Nul: char8 := 0x00      // '\0'
  const Hash: char8 := 0x23     // '#'
  const Digit0: char8 := 0x30   // '0'
  const Digit1: char8 := 0x31   // '1'
  const Digit9: char8 := 0x39   // '9'
  const UpperA: char8 := 0x41   // 'A'
  const UpperF: char8 := 0x46   // 'F'
  const LowerA: char8 := 0x61   // 'a'
  const LowerF: char8 := 0x66   // 'f'

  /** `std::optional`. */
  datatype Option<T> = None | Some(value: T)

  /** A value or an error, for the failures the model makes explicit. */
  datatype Result<T, E> = Success(value: T) | Failure(error: E)
}
