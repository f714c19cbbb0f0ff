/** The `ca_return_t` status codes: four sparse 32-bit constants rather than 0, 1, 2, 3. */
module Status {
  import opened Words

  datatype Status = Success | Fail | BadArg | MemErr

  datatype Option<T> = None | Some(value: T)

  /** The same constants as 32-bit patterns, for reasoning about their bits. */
  function Code(s: Status): bv32
  {
    match s
    case Success => 0x5ABF_0938
    case Fail => 0x2820_F02A
    case BadArg => 0x328A_9201
    case MemErr => 0x480A_BFE1
  }

  /** The constant each status is represented by. Every code keeps its top bit clear, so it is
      a positive value of a signed 32-bit enum. */
  function ToU32(s: Status): (w: U32)
    ensures w < 0x8000_0000
    ensures w != 0
  {
    match s
    case Success => 0x5ABF_0938
    case Fail => 0x2820_F02A
    case BadArg => 0x328A_9201
    case MemErr => 0x480A_BFE1
  }

  /** The bit pattern and the number denote the same 32-bit word. */
  lemma CodeIsToU32(s: Status)
    ensures Code(s) as int == ToU32(s)
  {
  }

  /** Reading a stored 32-bit word back as a status; any other word (a corrupted code) is None. */
  function FromU32(w: U32): (r: Option<Status>)
    ensures r.Some? ==> ToU32(r.value) == w
  {
    if w == ToU32(Success) then Some(Success)
    else if w == ToU32(Fail) then Some(Fail)
    else if w == ToU32(BadArg) then Some(BadArg)
    else if w == ToU32(MemErr) then Some(MemErr)
    else None
  }

  /** The four codes are pairwise distinct, so a code names exactly one status. */
  lemma CodesDistinct(s: Status, t: Status)
    ensures ToU32(s) == ToU32(t) <==> s == t
  {
  }

  /** Decoding undoes encoding. */
  lemma DecodeEncode(s: Status)
    ensures FromU32(ToU32(s)) == Some(s)
  {
  }

  /** A word with its top bit set is never a valid status. */
  lemma TopBitSetIsNoStatus(w: U32)
    requires w >= 0x8000_0000
    ensures FromU32(w) == None
  {
  }

  /** No single bit flip turns one code into another: two different codes differ in at least two
      bits, so their difference is neither zero nor a power of two. */
  lemma NoSingleBitFlip(s: Status, t: Status)
    requires s != t
    ensures var d := Code(s) ^ Code(t); d != 0 && d & (d - 1) != 0
  {
  }

  /** Any two different codes differ in at least 13 of their 32 bits. */
  lemma CodesFarApart(s: Status, t: Status)
    requires s != t
    ensures HammingDistance(Code(s), Code(t)) >= 13
  {
  }
}
