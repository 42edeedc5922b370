/** The C type int32_t. */
module Int32 {
  const INT_MIN: int := -0x8000_0000
  const INT_MAX: int := 0x7fff_ffff

  /** The value left in an int32_t. */
  function Wrap32(x: int): (r: int)
    ensures INT_MIN <= r <= INT_MAX
  {
    (x - INT_MIN) % 0x1_0000_0000 + INT_MIN
  }

  lemma FitsInt32(x: int)
    ensures Wrap32(x) == x <==> INT_MIN <= x <= INT_MAX
  {
  }
}
