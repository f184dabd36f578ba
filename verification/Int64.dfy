/** Go's 64-bit signed integers: arithmetic wraps around. */
module Int64 {
  const MIN: int := -0x8000_0000_0000_0000
  const MAX: int := 0x7fff_ffff_ffff_ffff

  predicate Fits(n: int) {
    MIN <= n <= MAX
  }

  function Wrap(n: int): (r: int)
    ensures Fits(r)
    ensures Fits(n) <==> r == n
  {
    (n - MIN) % (MAX - MIN + 1) + MIN
  }
}
