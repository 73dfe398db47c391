/** Code units, bytes and the base64 alphabet shared by the UTF-7 encoder and decoder. */
module Utf7Scheme {
  // A char16_t and a char seen as an unsigned byte.
  type Unit = x: int | 0 <= x < 0x1_0000
  type Byte = x: int | 0 <= x < 0x100

  const DASH: Byte := 45
  const PLUS: Byte := 43

  /** What a converter is built from: the 64th base64 character, the escape character, the units
      that stand for themselves, and whether the compiler's plain `char` is signed. */
  datatype Scheme = Scheme(lastChar: Byte, escChar: Byte, directUnits: set<Unit>, signedChar: bool)

  /** The virtual DirectEncodable. */
  predicate Direct(s: Scheme, u: Unit) {
    u in s.directUnits
  }

  predicate Alphanumeric(b: int) {
    65 <= b <= 90 || 97 <= b <= 122 || 48 <= b <= 57
  }

  /** What both instances satisfy and all the laws below need. */
  ghost predicate WellFormed(s: Scheme) {
    && s.lastChar < 128 && !Alphanumeric(s.lastChar) && s.lastChar != PLUS && s.lastChar != DASH
    && s.escChar < 128 && s.escChar != DASH
    && forall u :: u in s.directUnits ==> u < 128
  }

  predicate PrintableAscii(u: Unit) {
    0x20 <= u <= 0x7e
  }

  predicate Utf7Direct(u: Unit) {
    || Alphanumeric(u) || 39 <= u <= 41 || 44 <= u <= 47 || u == 58 || u == 63 || u == 32
    || u == 9 || u == 13 || u == 10 || u == 60 || u == 33 || u == 34 || u == 62 || u == 61
    || u == 59 || u == 91 || u == 93
  }

  /** IMAP modified UTF-7: ',' is the last digit and '&' the escape. */
  function ModifiedUtf7(signedChar: bool): (s: Scheme)
    ensures WellFormed(s) && forall u: Unit :: Direct(s, u) <==> PrintableAscii(u)
  {
    Scheme(44, 38, (set u: Unit | PrintableAscii(u)), signedChar)
  }

  /** Plain UTF-7: '/' is the last digit and '+' the escape, which is never direct. */
  function PlainUtf7(signedChar: bool): (s: Scheme)
    ensures WellFormed(s) && forall u: Unit :: Direct(s, u) <==> Utf7Direct(u)
  {
    Scheme(47, 43, (set u: Unit | u < 128 && Utf7Direct(u)), signedChar)
  }

  function ValueToChar(s: Scheme, v: nat): Byte {
    if v < 26 then 65 + v
    else if v < 52 then 97 + v - 26
    else if v < 62 then 48 + v - 52
    else if v == 62 then PLUS
    else if v == 63 then s.lastChar
    else 255
  }

  const NOT_A_DIGIT := 0xffff

  function CharToValue(s: Scheme, b: Byte): nat {
    if 65 <= b <= 90 then b - 65
    else if 97 <= b <= 122 then 26 + b - 97
    else if 48 <= b <= 57 then 52 + b - 48
    else if b == PLUS then 62
    else if b == s.lastChar then 63
    else NOT_A_DIGIT
  }

  predicate IsDigit(s: Scheme, b: Byte) {
    CharToValue(s, b) <= 0xff
  }

  /** Assigning a `char` to a char16_t. */
  function Widen(s: Scheme, b: Byte): Unit {
    if s.signedChar && b >= 128 then 0xff00 + b else b
  }

  lemma CharOfValue(s: Scheme, v: nat)
    requires WellFormed(s) && v < 64
    ensures CharToValue(s, ValueToChar(s, v)) == v
    ensures ValueToChar(s, v) < 128 && ValueToChar(s, v) != DASH
  {
  }

  lemma ValueOfChar(s: Scheme, b: Byte)
    requires WellFormed(s) && IsDigit(s, b)
    ensures CharToValue(s, b) < 64 && ValueToChar(s, CharToValue(s, b)) == b
    ensures b != DASH
  {
  }

  const UPPER := "ABCDEFGHIJKLMNOPQRSTUVWXYZ"
  const LOWER := "abcdefghijklmnopqrstuvwxyz"
  const DIGITS := "0123456789"

  /** The table is the base64 alphabet with the scheme's own last character. */
  lemma TableIsBase64(s: Scheme, v: nat)
    requires v < 64
    ensures v < 26 ==> ValueToChar(s, v) == UPPER[v] as int
    ensures 26 <= v < 52 ==> ValueToChar(s, v) == LOWER[v - 26] as int
    ensures 52 <= v < 62 ==> ValueToChar(s, v) == DIGITS[v - 52] as int
    ensures v == 62 ==> ValueToChar(s, v) == '+' as int
    ensures v == 63 ==> ValueToChar(s, v) == s.lastChar
  {
  }
}
