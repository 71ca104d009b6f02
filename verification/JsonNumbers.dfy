/** The numbers of section 6 of RFC 8259, said without any reader. */
module JsonNumbers {
  import opened Options

  type Bytes = seq<bv8>

  /** Minus or none, digits, a point with digits or none, and an exponent or none. */
  datatype Numeral = Numeral(minus: bool, whole: Bytes, fraction: Option<Bytes>, exponent: Option<Exponent>)

  /** The letter, the sign if any, and digits. */
  datatype Exponent = Exponent(letter: bv8, sign: Bytes, digits: Bytes)

  predicate Digits(s: Bytes) {
    forall i :: 0 <= i < |s| ==> 0x30 <= s[i] <= 0x39
  }

  /** Section 6; besides, leading zeros, as strtod allows them. */
  predicate LegalNumeral(n: Numeral) {
    && n.whole != [] && Digits(n.whole)
    && (n.fraction.Some? ==> n.fraction.value != [] && Digits(n.fraction.value))
    && (n.exponent.Some? ==> LegalExponent(n.exponent.value))
  }

  predicate LegalExponent(e: Exponent) {
    && (e.letter == 0x65 || e.letter == 0x45) && (e.sign == [] || e.sign == [0x2B] || e.sign == [0x2D])
    && e.digits != [] && Digits(e.digits)
  }

  function Figures(n: Numeral): Bytes {
    (if n.minus then [0x2D] else []) + n.whole + FractionText(n.fraction) + ExponentText(n.exponent)
  }

  function FractionText(f: Option<Bytes>): Bytes {
    if f.None? then [] else [0x2E] + f.value
  }

  function ExponentText(e: Option<Exponent>): Bytes {
    if e.None? then [] else [e.value.letter] + e.value.sign + e.value.digits
  }
}
