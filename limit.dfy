/** `ca_limit_u32`: bring an input into the range [min, max] by returning the limited value. */
module Limit {
  import opened Words

  /** The header gives no body and leaves an empty range (min > max) open; for that case the
      model picks `min`. */
  function LimitU32(input: U32, min: U32, max: U32): (r: U32)
    ensures min <= max ==> min <= r <= max
    ensures min <= input <= max ==> r == input
    ensures min <= max && input < min ==> r == min
    ensures min <= max && max < input ==> r == max
    ensures max < min ==> r == min
  {
    if max < min then min
    else if input < min then min
    else if max < input then max
    else input
  }

  /** Limiting twice is the same as limiting once. */
  lemma LimitIdempotent(input: U32, min: U32, max: U32)
    ensures LimitU32(LimitU32(input, min, max), min, max) == LimitU32(input, min, max)
  {
  }

  /** The limited value is the in-range value nearest to the input. */
  lemma LimitIsNearest(input: U32, min: U32, max: U32, y: U32)
    requires min <= y <= max
    ensures Dist(LimitU32(input, min, max), input) <= Dist(y, input)
  {
  }

  function Dist(a: int, b: int): nat
  {
    if a <= b then b - a else a - b
  }

  /** Inputs above the range land on max; e.g. 500 limited to [0, 255] is 255. */
  lemma LimitAboveRange()
    ensures LimitU32(500, 0, 255) == 255
  {
  }

  /** A negative argument arrives as its unsigned 32-bit image, so -5 becomes 0xFFFF_FFFB and is
      limited to the top of the range, not the bottom. */
  lemma LimitWrappedNegative()
    ensures Wrap32(-5) == 0xFFFF_FFFB
    ensures LimitU32(Wrap32(-5), 0, 255) == 255
  {
  }
}
