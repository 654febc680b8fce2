/** The parts of the C library that the lexers rely on, in the "C" locale:
    reading a NUL-terminated string, the <ctype.h> classes, and `strtol`
    followed by the conversion of its `long` result to `int`. */
module CLib {
  import Words

  const NUL: char := '\0'

  /** Reading `p[i]` of a C string whose characters are `s`: past the end the
      terminator is seen. */
  function At(s: string, i: nat): char
  {
    if i < |s| then s[i] else NUL
  }

  /** A C string's characters never include the terminator. */
  predicate IsCString(s: string)
  {
    forall k :: 0 <= k < |s| ==> s[k] != NUL
  }

  /** `isspace`: space, and the control characters \t \n \v \f \r. */
  predicate IsSpace(c: char)
  {
    c == ' ' || ('\t' <= c <= '\r')
  }

  /** `isalpha` */
  predicate IsAlpha(c: char)
  {
    ('a' <= c <= 'z') || ('A' <= c <= 'Z')
  }

  /** `isdigit` */
  predicate IsDigit(c: char)
  {
    '0' <= c <= '9'
  }

  /** `strncmp(s + i, w, |w|) == 0` (equally `memcmp` after a length check):
      the characters of `w` appear in `s` starting at `i`. */
  predicate StartsWith(s: string, i: nat, w: string)
  {
    i + |w| <= |s| && s[i..i + |w|] == w
  }

  predicate AllDigits(s: string)
  {
    forall k :: 0 <= k < |s| ==> IsDigit(s[k])
  }

  /** The end of the maximal run of decimal digits starting at `i`. */
  function DigitEnd(s: string, i: nat): (j: nat)
    requires i <= |s|
    ensures i <= j <= |s|
    ensures forall k :: i <= k < j ==> IsDigit(s[k])
    ensures !IsDigit(At(s, j))
    decreases |s| - i
  {
    if i < |s| && IsDigit(s[i]) then DigitEnd(s, i + 1) else i
  }

  /** A run of digits from `i` that stops at `e` is the maximal one. */
  lemma {:induction false} DigitEndIs(s: string, i: nat, e: nat)
    requires i <= e <= |s|
    requires forall k :: i <= k < e ==> IsDigit(s[k])
    requires !IsDigit(At(s, e))
    ensures DigitEnd(s, i) == e
    decreases e - i
  {
    if i < e {
      DigitEndIs(s, i + 1, e);
    }
  }

  /** The base-10 value of a digit string, read left to right. */
  function Decimal(ds: string): nat
    requires AllDigits(ds)
  {
    if ds == [] then 0
    else Decimal(ds[..|ds| - 1]) * 10 + (ds[|ds| - 1] as int - '0' as int)
  }

  const LONG_MAX: int := 0x7FFF_FFFF_FFFF_FFFF
  const TWO_32: int := 0x1_0000_0000
  const INT_MAX: int := 0x7FFF_FFFF

  /** Conversion of an integer to a 32-bit `int`, modulo 2^32 (the rule GCC
      documents for this implementation-defined conversion). */
  function ToInt32(x: int): (r: int)
    ensures -TWO_32 / 2 <= r <= INT_MAX
    ensures (r - x) % TWO_32 == 0
  {
    (x + TWO_32 / 2) % TWO_32 - TWO_32 / 2
  }

  /** `int val = strtol(p, &p, 10)` where `p` points at a maximal digit run
      `ds`: strtol saturates at LONG_MAX, then the value is narrowed to int. */
  function StrtolInt(ds: string): (r: int)
    requires AllDigits(ds)
    ensures -TWO_32 / 2 <= r <= INT_MAX
    ensures Decimal(ds) >= LONG_MAX ==> r == -1
  {
    var v := Decimal(ds);
    ToInt32(if v > LONG_MAX then LONG_MAX else v)
  }

  /** A digit run whose value fits in an `int` yields exactly that value. */
  lemma StrtolIntExact(ds: string)
    requires AllDigits(ds) && Decimal(ds) <= INT_MAX
    ensures StrtolInt(ds) == Decimal(ds)
  {
  }

  /** Storing a (possibly negative) integer in a `size_t`: it wraps modulo 2^64. */
  function SizeT(x: int): (r: nat)
    ensures r < Words.TWO_64 && (r - x) % Words.TWO_64 == 0
  {
    x % Words.TWO_64
  }
}
