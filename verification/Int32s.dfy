/** Go's 32-bit integers. */
module Int32s {
  const INT32_SPAN := 0x1_0000_0000
  const INT32_LIMIT := 0x8000_0000

  predicate FitsInt32(n: int) {
    -INT32_LIMIT <= n < INT32_LIMIT
  }

  /** The conversion int32(n), and what a 32-bit operation with exact result n leaves. */
  function Int32(n: int): (r: int)
    ensures FitsInt32(r) && (r - n) % INT32_SPAN == 0
    ensures FitsInt32(n) ==> r == n
  {
    (n + INT32_LIMIT) % INT32_SPAN - INT32_LIMIT
  }
}
