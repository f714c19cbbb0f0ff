/** The paired operand types `ca_uint32_t`, `ca_uint16_t` and `ca_uint8_t`: a value together with
    a companion word. How the companion is derived from the value is not fixed by the header, so
    it is a parameter `derive` wherever it matters. */
module Armoured {
  import opened Words

  datatype Armoured<T> = Armoured(value: T, companion: T)

  type CaU32 = Armoured<U32>
  type CaU16 = Armoured<U16>
  type CaU8 = Armoured<U8>

  /** The pair still carries the companion that `derive` assigns to its value. */
  predicate Consistent<T(==)>(p: Armoured<T>, derive: T -> T)
  {
    p.companion == derive(p.value)
  }

  /** The pair that `ca_ret_u32`, `ca_ret_u16` and `ca_ret_u8` hand back for `value`, leaving the
      random delay out: it carries `value` unchanged and a companion that agrees with it. */
  function Ret<T(==)>(value: T, derive: T -> T): (p: Armoured<T>)
    ensures p.value == value
    ensures Consistent(p, derive)
  {
    Armoured(value, derive(value))
  }

  /** Two pairs built for the same value are the same pair, and pairs built for different values
      differ in their value field. */
  lemma RetInjective<T>(a: T, b: T, derive: T -> T)
    ensures Ret(a, derive) == Ret(b, derive) <==> a == b
  {
  }

  /** Changing the companion of a consistent pair, and nothing else, makes it inconsistent. */
  lemma CompanionFlipDetected<T>(p: Armoured<T>, c: T, derive: T -> T)
    requires Consistent(p, derive)
    requires c != p.companion
    ensures !Consistent(Armoured(p.value, c), derive)
  {
  }
}
