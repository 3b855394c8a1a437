/**
 Go's `int64` and its `+` operator: two's-complement integers of 64 bits whose
 addition wraps around modulo 2^64 instead of failing.
 */
module Int64 {

  const Modulus: int := 0x1_0000_0000_0000_0000
  const MinInt64: int := -0x8000_0000_0000_0000
  const MaxInt64: int := 0x7fff_ffff_ffff_ffff

  newtype int64 = x: int | -0x8000_0000_0000_0000 <= x < 0x8000_0000_0000_0000

  /* True iff x and y leave the same remainder modulo 2^64. */
  predicate Congruent(x: int, y: int)
  {
    (x - y) % Modulus == 0
  }

  /* The int64 value that an exact integer result becomes after wrap-around. */
  function Wrap(x: int): (r: int64)
    ensures Congruent(r as int, x)
    ensures MinInt64 <= x <= MaxInt64 ==> r as int == x
  {
    var low := x % Modulus;
    if low <= MaxInt64 then low as int64 else (low - Modulus) as int64
  }

  /* Go's `a + b` on int64 operands. */
  function Add(a: int64, b: int64): (r: int64)
    ensures Congruent(r as int, a as int + b as int)
    ensures MinInt64 <= a as int + b as int <= MaxInt64 ==> r as int == a as int + b as int
  {
    Wrap(a as int + b as int)
  }

  /* Wrapping at each step gives the same int64 as wrapping once at the end. */
  lemma WrapAddWrap(x: int, y: int)
    ensures Wrap(Wrap(x) as int + y) == Wrap(x + y)
  {
  }
}
