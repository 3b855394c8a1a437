# Summing the values of a map, with and without generics

A Go hands-on example about generics. It sums the values of a map three ways:

- `SumInts` works on `map[string]int64`.
- `SumIntsOrFloats[K comparable, V int64 | float64]` is generic, with an inline constraint.
- `SumNumbers[K comparable, V Number]` is the same function with the named constraint `Number`.

Each starts an accumulator at the zero value and runs `for _, v := range m { s += v }`.

This project models the integer versions. It has two modules:

- `Int64` (`int64.dfy`) models Go's `int64`. The type is a newtype over the signed 64-bit range. `Add` is `+` with two's-complement wrap-around: `Wrap` reduces an exact integer modulo 2^64 into that range.
- `MapSum` (`map_sum.dfy`) holds the specification and the loops:
  - `Total(m)` is the exact, unbounded sum of the values of `m`. It is defined through `SumOver`, which takes the keys out of a set one at a time; which key comes next is left unspecified.
  - `SumInOrder(m, order)` is the accumulator after `s += v` has run for the keys in `order`, one after the other. `Enumerates(order, ks)` says that `order` visits each key of `ks` exactly once, so it is one possible iteration order of Go's `range`.
  - `SumInts` and the generic `SumNumbers<K>` are methods with a `while` loop. The loop runs over the keys not yet visited and picks the next key arbitrarily, as Go's unspecified map iteration order does.
  - Both methods return the wrapped exact sum, `Wrap(Total(m))`. They also return, as a ghost result, the visit order they used, and the accumulator equals `SumInOrder` for that order.
  - `OrderIndependent` proves that every visit order gives the same result.

Go's map is a reference type, but the three functions only read it. The model passes the map as a Dafny value, so the callee cannot change it and the caller's map is the same after the call.

The source keeps a separate copy of the loop in `SumInts` and in each generic function. The model does the same: `SumInts` has its own loop, and `SumNumbers<K>` stands for both generic functions at `V = int64`. Their type constraints only decide which value types compile, so at `int64` the two generic functions are the same code. `CallStyles` shows that all call styles of the demo program give the same result.

## Model

| member | source | states |
|---|---|---|
| `Int64.Wrap` | main.go:10 | the result is congruent to the exact integer modulo 2^64 and in the int64 range; a value already in range is unchanged |
| `Int64.Add` | main.go:10 | `s += v` on int64: the result is the exact sum modulo 2^64, and equals the exact sum whenever that fits in int64; there is no error path |
| `Int64.WrapAddWrap` | main.go:9-11 | wrapping after every `+=` gives the same int64 as wrapping the exact total once at the end |
| `MapSum.SumOverRemove` | main.go:9-11 | any key may be added first: the sum over a key set is that key's value plus the sum over the rest |
| `MapSum.SumOverAdd` | main.go:9-10 | visiting one more key adds exactly its value to the sum over the visited keys (the step of the loop invariant) |
| `MapSum.EnumeratesAppend` | main.go:9 | appending a key that was not yet visited to a visit order gives a visit order of the enlarged key set |
| `MapSum.SumInOrderIsWrappedSum` | main.go:9-11 | for every order that visits each key exactly once, the accumulator ends as the exact sum of those values reduced to int64 |
| `MapSum.OrderIndependent` | main.go:9-11 | two visit orders of the same map always produce the same int64 result |
| `MapSum.TotalInsert` | main.go:9-11 | adding an entry under a new key adds exactly its value to the total, so each entry is counted once |
| `MapSum.SumOverSameValues` | main.go:9-11 | the sum over a key set depends only on the values at those keys |
| `MapSum.SumInts` | main.go:7-13 | returns 0 for the empty map; returns the exact sum of all values wrapped to int64, and the exact sum itself when it fits; the result is the accumulator for the order the loop visited, which covers each key exactly once; the loop invariant says the accumulator is the wrapped sum over exactly the visited keys |
| `MapSum.SumNumbers` | main.go:25-45 | the generic `SumIntsOrFloats` and `SumNumbers` at `V = int64` for any key type: the same guarantees as `SumInts` |
| `MapSum.CallStyles` | main.go:60-77 | the non-generic call, the generic call with explicit type arguments, the call with inferred type arguments and the constrained call all return the same value for one map |
| `MapSum.DemoTotal` | main.go:49-52 | the values of `{"first": 34, "second": 12}` add up to 46 |
| `MapSum.DemoSums` | main.go:47-77 | every integer call of the demo program returns 46 on that map |
| `MapSum.OverflowWraps` | main.go:10 | a total beyond the int64 range wraps: the largest int64 plus 1 sums to the smallest int64 |

## Left out

- `SumFloats` and every `float64` instantiation (main.go:16-22, 55-58, 62, 67, 72, 77): floating-point rounding makes the sum depend on the visit order, so the order-independence property does not hold for them.
- `main`'s `fmt.Printf` calls: console output. `DemoSums` and `CallStyles` keep the integer calls and their results and drop the printing.
- The constraints `V int64 | float64` and `Number` (main.go:25, 34-36): type checks at compile time with no behaviour when the program runs. They appear only as the choice of `int64` as the value type.
- Go's map as a shared, mutable reference: the model passes maps by value, so concurrent mutation during iteration and aliasing are not modelled.
- Go's actual iteration order, which the runtime randomises: the loops pick the next key nondeterministically, and the properties hold for every choice.
