/** Go's machine scalars as the inspector sees them on a 64-bit platform. */
module Machine {

  /** 2^64: `uintptr` arithmetic is taken modulo this. */
  const WORD: int := 0x1_0000_0000_0000_0000

  /** A Go `uintptr`: an address, an offset, a size or a padding. */
  type Uintptr = x: int | 0 <= x < WORD

  /** One byte of a Go string. */
  type Byte = x: int | 0 <= x < 256

  /** The `uintptr` that a Go expression yields for the exact integer `x`:
      wrap-around modulo 2^64. */
  function Wrap(x: int): (r: Uintptr)
    ensures 0 <= x < WORD ==> r == x
    ensures WORD <= x < 2 * WORD ==> r == x - WORD
    ensures -WORD <= x < 0 ==> r == x + WORD
  {
    x % WORD
  }

  /** Wrapping an intermediate sum does not change the final `uintptr`:
      `(a mod 2^64 + b) mod 2^64 == (a + b) mod 2^64`. */
  lemma WrapAdd(a: int, b: int)
    ensures Wrap(Wrap(a) + b) == Wrap(a + b)
  {
    var q := a / WORD;
    assert a == q * WORD + Wrap(a);
    assert a + b == (Wrap(a) + b) + q * WORD;
    ModuloShift(Wrap(a) + b, q);
  }

  /** Adding a multiple of 2^64 does not change the wrapped value. */
  lemma ModuloShift(x: int, q: int)
    ensures Wrap(x + q * WORD) == Wrap(x)
  {
    var y := x + q * WORD;
    assert y == (x / WORD + q) * WORD + x % WORD;
    assert 0 <= x % WORD < WORD;
    DivModUnique(y, x / WORD + q, x % WORD);
  }

  /** The remainder of a division by 2^64 is the unique one in [0, 2^64). */
  lemma DivModUnique(y: int, q: int, r: int)
    requires 0 <= r < WORD && y == q * WORD + r
    ensures y % WORD == r
  {
  }
}
