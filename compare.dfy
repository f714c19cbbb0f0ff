/** `ca_compare_u32_eq`: compare two armoured 32-bit operands and call one of two caller-supplied
    functions depending on the result. The calls made are the observable effect, so the model
    returns them as a sequence, in order. */
module Compare {
  import opened Words
  import opened Armoured

  /** A `ca_fptr_voidptr_t` together with the `void *` argument it is to be called with.
      A NULL `fn` means the caller wants nothing called for that outcome. */
  datatype Callback = Callback(fn: Addr, arg: Addr)

  /** Calling a callback: one call `fn(arg)`, or none at all for a NULL function. */
  function Invoke(cb: Callback): (calls: seq<Callback>)
    ensures |calls| <= 1
    ensures calls == [] <==> cb.fn == NULL
    ensures forall c :: c in calls ==> c == cb
  {
    if cb.fn == NULL then [] else [cb]
  }

  /** Operand 1 and operand 2 are compared by their values (`cau32`). The function called on a
      match is `onEqual`, on a difference `onUnequal`; never both. */
  function CompareU32Eq(op1: CaU32, op2: CaU32, onEqual: Callback, onUnequal: Callback)
    : (calls: seq<Callback>)
    ensures |calls| <= 1
    ensures op1.value == op2.value && onEqual.fn != NULL ==> calls == [onEqual]
    ensures op1.value != op2.value && onUnequal.fn != NULL ==> calls == [onUnequal]
    ensures calls == [] <==>
              (op1.value == op2.value && onEqual.fn == NULL)
              || (op1.value != op2.value && onUnequal.fn == NULL)
  {
    if op1.value == op2.value then Invoke(onEqual) else Invoke(onUnequal)
  }

  /** With two distinct callbacks, an equal-function call and an unequal-function call never
      both happen, and the one that happens matches the comparison. */
  lemma CalledMatchesOutcome(op1: CaU32, op2: CaU32, onEqual: Callback, onUnequal: Callback)
    requires onEqual != onUnequal
    ensures !(onEqual in CompareU32Eq(op1, op2, onEqual, onUnequal)
              && onUnequal in CompareU32Eq(op1, op2, onEqual, onUnequal))
    ensures (onEqual in CompareU32Eq(op1, op2, onEqual, onUnequal))
            <==> op1.value == op2.value && onEqual.fn != NULL
    ensures (onUnequal in CompareU32Eq(op1, op2, onEqual, onUnequal))
            <==> op1.value != op2.value && onUnequal.fn != NULL
  {
  }

  /** Equality is symmetric, so the order of the operands does not matter. */
  lemma CompareSymmetric(op1: CaU32, op2: CaU32, onEqual: Callback, onUnequal: Callback)
    ensures CompareU32Eq(op1, op2, onEqual, onUnequal) == CompareU32Eq(op2, op1, onEqual, onUnequal)
  {
  }

  /** The model, like the header's comment, compares the value fields only, so the companions
      play no part in which function is called; a check of the companions is not modelled. */
  lemma CompanionsIgnored(op1: CaU32, op2: CaU32, c1: U32, c2: U32,
                          onEqual: Callback, onUnequal: Callback)
    ensures CompareU32Eq(Armoured(op1.value, c1), Armoured(op2.value, c2), onEqual, onUnequal)
            == CompareU32Eq(op1, op2, onEqual, onUnequal)
  {
  }

  /** Comparing the pairs `ca_ret_u32` produced for two values calls the equal function exactly
      when the values are the same. */
  lemma CompareRetValues(a: U32, b: U32, derive: U32 -> U32, onEqual: Callback, onUnequal: Callback)
    requires onEqual.fn != NULL && onUnequal.fn != NULL
    ensures CompareU32Eq(Ret(a, derive), Ret(b, derive), onEqual, onUnequal)
            == if a == b then [onEqual] else [onUnequal]
  {
  }
}
