/** Java's 32-bit `int`: the range of the type, and the two's-complement
    wrap-around that `+=` on an `int` performs when a sum leaves that range. */
module JavaInt {

  const INT_MIN: int := -0x8000_0000
  /** `Integer.MAX_VALUE` */
  const INT_MAX: int := 0x7fff_ffff

  newtype int32 = x: int | -0x8000_0000 <= x < 0x8000_0000

  predicate InInt32Range(x: int) {
    INT_MIN <= x <= INT_MAX
  }

  /** The value Java's `int` arithmetic yields for the exact result `x`:
      `x` itself when it fits, otherwise `x` shifted by multiples of 2^32. */
  function Wrap(x: int): (r: int32)
    ensures InInt32Range(x) ==> r as int == x
    decreases if x > INT_MAX then x - INT_MAX else if x < INT_MIN then INT_MIN - x else 0
  {
    if x > INT_MAX then Wrap(x - 0x1_0000_0000)
    else if x < INT_MIN then Wrap(x + 0x1_0000_0000)
    else x as int32
  }

  /** `Wrap(x)` is the one `int` that agrees with `x` modulo 2^32. */
  lemma {:induction false} WrapCongruent(x: int)
    ensures (Wrap(x) as int - x) % 0x1_0000_0000 == 0
    decreases if x > INT_MAX then x - INT_MAX else if x < INT_MIN then INT_MIN - x else 0
  {
    if x > INT_MAX {
      WrapCongruent(x - 0x1_0000_0000);
    } else if x < INT_MIN {
      WrapCongruent(x + 0x1_0000_0000);
    }
  }

  /** Two `int` values congruent modulo 2^32 are the same value. */
  lemma CongruentInt32Equal(a: int32, b: int32)
    requires (a as int - b as int) % 0x1_0000_0000 == 0
    ensures a == b
  {
  }

  /** Shifting by 2^32 does not change the wrapped value. */
  lemma WrapShift(x: int)
    ensures Wrap(x + 0x1_0000_0000) == Wrap(x)
  {
  }

  /** Wrapping after every addition, as a running `int` total does, gives the
      same value as wrapping once at the end. */
  lemma {:induction false} WrapAdd(a: int, b: int)
    ensures Wrap(Wrap(a) as int + b) == Wrap(a + b)
    decreases if a > INT_MAX then a - INT_MAX else if a < INT_MIN then INT_MIN - a else 0
  {
    if a > INT_MAX {
      WrapAdd(a - 0x1_0000_0000, b);
      WrapShift(a - 0x1_0000_0000 + b);
    } else if a < INT_MIN {
      WrapAdd(a + 0x1_0000_0000, b);
      WrapShift(a + b);
    }
  }
}
