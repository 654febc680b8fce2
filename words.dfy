/** 64-bit machine words as the x86-64 instructions emitted by the compiler
    see them: registers hold unsigned words, signed instructions read them in
    two's complement. */
module Words {

  const TWO_64: int := 0x1_0000_0000_0000_0000
  const TWO_63: int := 0x8000_0000_0000_0000

  type Word = x: int | 0 <= x < TWO_64

  /** A signed 64-bit value (a C `long`). */
  predicate InLong(x: int)
  {
    -TWO_63 <= x < TWO_63
  }

  /** The word holding `x` modulo 2^64 (two's complement for negatives). */
  function ToWord(x: int): Word
  {
    x % TWO_64
  }

  /** The two's-complement reading of a word. */
  function Signed(w: Word): (x: int)
    ensures InLong(x) && ToWord(x) == w
  {
    if w < TWO_63 then w else w - TWO_64
  }

  /** Wrap-around of a mathematical result into the signed 64-bit range. */
  function Wrap(x: int): (r: int)
    ensures InLong(r) && (r - x) % TWO_64 == 0
  {
    Signed(ToWord(x))
  }

  /** Signed division truncating toward zero, as `idiv` and C99 `/` do
      (Dafny's own `/` is Euclidean). Division by zero is given the value 0
      here only to keep the function total; callers rule it out. */
  function Quot(x: int, y: int): int
  {
    if y == 0 then 0
    else
      var q := Abs(x) / Abs(y);
      if (x < 0) == (y < 0) then q else -q
  }

  function Abs(x: int): nat
  {
    if x < 0 then -x else x
  }

  /** `Quot` rounds toward zero: its magnitude is the largest multiple count
      of `|y|` that fits in `|x|`, and it is negative exactly when the
      operands have opposite signs and the quotient is not zero. */
  lemma QuotTruncates(x: int, y: int)
    requires y != 0
    ensures Abs(Quot(x, y)) * Abs(y) <= Abs(x) < (Abs(Quot(x, y)) + 1) * Abs(y)
    ensures Quot(x, y) < 0 <==> (x < 0) != (y < 0) && Abs(x) >= Abs(y)
  {
    var q := Abs(x) / Abs(y);
    var r := Abs(x) % Abs(y);
    assert Abs(x) == q * Abs(y) + r;
    assert Abs(Quot(x, y)) == q;
    assert (q + 1) * Abs(y) == q * Abs(y) + Abs(y);
    if Abs(x) < Abs(y) {
      assert q == 0;
    }
  }

  /** Adding a multiple of 2^64 does not change the word. */
  lemma ToWordShift(z: int, t: int)
    ensures ToWord(z + TWO_64 * t) == ToWord(z)
  {
    var q, r := z / TWO_64, z % TWO_64;
    assert z == TWO_64 * q + r;
    assert z + TWO_64 * t == TWO_64 * (q + t) + r;
  }

  /** Reading a word as signed and storing it back gives the same word, and a
      signed value survives the round trip. */
  lemma SignedToWord(x: int)
    requires InLong(x)
    ensures Signed(ToWord(x)) == x
  {
  }

  /** A truncated quotient is in range unless it is LONG_MIN / -1. */
  lemma QuotInLong(x: int, y: int)
    requires InLong(x) && y != 0 && InLong(y)
    requires !(x == -TWO_63 && y == -1)
    ensures InLong(Quot(x, y))
  {
    var a, b := Abs(x), Abs(y);
    var q := a / b;
    assert a <= TWO_63;
    if b == 1 {
      assert q == a;
      if a == TWO_63 {
        assert x == -TWO_63 && y == 1;
        assert Quot(x, y) == -q;
      }
    } else {
      DivMonotone(a, b);
      assert q <= a / 2;
    }
  }

  lemma DivMonotone(a: nat, b: nat)
    requires b >= 2
    ensures a / b <= a / 2
  {
    assert a == b * (a / b) + a % b;
    assert b * (a / b) >= 2 * (a / b);
    assert 2 * (a / b) <= a;
  }
}
