/** Kotlin's `Int`: a 32-bit two's-complement integer whose `+` and `-`
    wrap around silently on overflow. Every balance, limit, value and id
    in the ledger has this type, and the ledger's `balance - value` and
    `balance + value` are Kotlin `Int` operations. */
module KotlinInt {

  const MIN_INT: int := -0x8000_0000
  const MAX_INT: int := 0x7fff_ffff
  const MODULUS: int := 0x1_0000_0000

  type Int32 = x: int | -0x8000_0000 <= x <= 0x7fff_ffff

  /** The `Int` that Kotlin yields for the mathematical value `x`: the
      value in range reached by adding or subtracting 2^32. */
  function Wrap(x: int): (r: Int32)
    ensures MIN_INT <= x <= MAX_INT ==> r == x
    decreases if x < MIN_INT then MIN_INT - x + MODULUS else x - MIN_INT
  {
    if x < MIN_INT then Wrap(x + MODULUS)
    else if x > MAX_INT then Wrap(x - MODULUS)
    else x
  }

  /** `Wrap` is reduction modulo 2^32 into the signed range. */
  lemma {:induction false} WrapIsMod(x: int)
    ensures Wrap(x) == (x - MIN_INT) % MODULUS + MIN_INT
    decreases if x < MIN_INT then MIN_INT - x + MODULUS else x - MIN_INT
  {
    var m := (x - MIN_INT) % MODULUS;
    var d := (x - MIN_INT) / MODULUS;
    if x < MIN_INT {
      WrapIsMod(x + MODULUS);
      ModUnique(x + MODULUS - MIN_INT, d + 1, m);
    } else if x > MAX_INT {
      WrapIsMod(x - MODULUS);
      ModUnique(x - MODULUS - MIN_INT, d - 1, m);
    } else {
      ModUnique(x - MIN_INT, 0, x - MIN_INT);
    }
  }

  /** Two numbers that differ by a multiple of 2^32 wrap to the same `Int`. */
  lemma {:induction false} WrapShift(x: int, q: int)
    ensures Wrap(x + q * MODULUS) == Wrap(x)
  {
    var a := x - MIN_INT;
    var d, m := a / MODULUS, a % MODULUS;
    assert a + q * MODULUS == (d + q) * MODULUS + m;
    ModUnique(a + q * MODULUS, d + q, m);
    WrapIsMod(x);
    WrapIsMod(x + q * MODULUS);
  }

  /** Euclidean division is unique: a quotient and a remainder in range
      that reassemble `y` are the ones `/` and `%` compute. */
  lemma {:induction false} ModUnique(y: int, d: int, m: int)
    requires 0 <= m < MODULUS
    requires y == d * MODULUS + m
    ensures y % MODULUS == m
  {
    var d', m' := y / MODULUS, y % MODULUS;
    assert (d - d') * MODULUS == m' - m;
  }

  /** Wrapping an intermediate result changes nothing: a chain of Kotlin
      `Int` additions equals the wrapped mathematical sum. */
  lemma {:induction false} WrapAddLeft(a: int, b: int)
    ensures Wrap(Wrap(a) + b) == Wrap(a + b)
  {
    WrapIsMod(a);
    var q := (a - MIN_INT) / MODULUS;
    assert a - Wrap(a) == q * MODULUS;
    assert Wrap(a) + b == (a + b) + (-q) * MODULUS;
    WrapShift(a + b, -q);
  }
}
