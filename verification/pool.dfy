/** `ArrayPool<T>.Shared`, as the writers use it: `Rent(n)` hands out an
    array at least `n` long holding whatever it held before, and `Return`
    has no observable effect. The pool is passed around as the function
    `rent`. */
module Pool {
  /** What `Rent` promises. */
  ghost predicate Rents<T>(rent: nat -> seq<T>) {
    forall n: nat :: |rent(n)| >= n
  }

  /** `Math.Max`. */
  function Max(a: int, b: int): (r: int)
    ensures r >= a && r >= b && (r == a || r == b)
  {
    if a >= b then a else b
  }
}
