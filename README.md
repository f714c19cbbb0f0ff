# ChipArmour core, modelled in Dafny

ChipArmour is a firmware library that helps embedded code resist fault injection (voltage,
clock or electromagnetic glitches). Its public header `inc/chiparmour.h` holds three things
this project models:

- **The return-address guard** `CA_ROP_CHECK_VALID_RETURN` (module `RopGuard`, file
  `rop_guard.dfy`). This is the only code in the header with a body. A protected function
  declares how many call sites it has (`CA_ROP_SET_MAX_RETURNS`) and a zero-initialised static
  registry of that many valid return addresses (`CA_ROP_RETURNADDRS_ARRAY`). Before it returns,
  the guard scans the registry for the real return address. A zero entry marks the end of the
  populated part and panics. A matching entry ends the scan. A check after the loop is meant to
  panic when no match was found. The scan is a method with a `while` loop over a read-only
  `array<Addr>`. It has no `modifies` clause, so Dafny proves that it never writes the registry.
  Its outcome is `Proceed` or `Panic`. Panic does not return, so it is a terminal outcome.
- **The status codes** `ca_return_t` (module `Status`, `status.dfy`). These are four sparse
  32-bit constants, each with its top bit clear. `Status.Code` is a proof helper: the same four
  constants as `bv32` bit patterns, for the lemmas about their bits. `CodeIsToU32` ties it back
  to `ToU32`.
- **The documented contracts** of functions whose bodies the header does not show:
  - `ca_limit_u32` (module `Limit`, `limit.dfy`);
  - `ca_compare_u32_eq` (module `Compare`, `compare.dfy`), with its function-pointer callbacks;
  - the paired operand types `ca_uint32_t`, `ca_uint16_t` and `ca_uint8_t` returned by
    `ca_ret_u32/u16/u8` (module `Armoured`, `armoured.dfy`).

Machine words and addresses are in module `Words` (`words.dfy`). The header does not fix the
width of a pointer. The guard only compares addresses with each other and with 0, so the width
changes no outcome; the model uses 32-bit addresses, and 0 is NULL. The bit-counting functions
in `Words` (`Flag`, `ByteWeight`, `PopCount`, `HammingDistance`) are helpers for the lemmas
about the status codes.

Where the header has no body, the model follows the header's comments and no more:
- The companion field of a pair is derived from the value by a rule the header does not give.
  It is a function parameter `derive`.
- `ca_compare_u32_eq` compares the value fields and calls at most one of the two callbacks.
  A NULL function pointer means no call. The model returns the calls made, in order.
- The header leaves open what `ca_limit_u32` does when `min > max`. The model picks `min`.

The macro text is not valid C as written: there is a stray `\ ` on line 118, `len()` is not a C
operator, and `ca_functionname` is not token-pasted. The model takes the evident intent:
`len(...)` is the registry's capacity, that is, the array length.

The guard is meant to let a return proceed only when a match is found. The comment on line 123
calls reaching a zero entry something that "shouldn't happen", and the `ca_panic()` after the
loop (lines 131-133) only makes sense as the test for "no match found". This is not what the
code does. After the loop the index is at most the capacity, so the test `ca_loopindx > len`
cannot succeed. A full registry with no match therefore lets the return proceed. The model
follows the code in `CheckValidReturnAsWritten` and gives the corrected guard (`>=`) in
`CheckValidReturn`. See "## Findings".

## Model

| member | source | states |
|---|---|---|
| `Status.ToU32` | inc/chiparmour.h:81-88 | each status has its own fixed constant; every constant is non-zero and has bit 31 clear |
| `Status.CodesDistinct` | inc/chiparmour.h:82-85 | two statuses have the same constant exactly when they are the same status |
| `Status.FromU32` | inc/chiparmour.h:81-90 | a word read back as a status names the status whose constant it is; other words name none |
| `Status.DecodeEncode` | inc/chiparmour.h:81-90 | reading back a status's constant gives that status |
| `Status.TopBitSetIsNoStatus` | inc/chiparmour.h:87-88 | no word with its top bit set is a valid status |
| `Status.CodeIsToU32` | inc/chiparmour.h:82-85 | the bit patterns used for the bit-level lemmas are the same four constants |
| `Status.NoSingleBitFlip` | inc/chiparmour.h:78-85 | two different codes differ in at least two bits, so flipping one bit never turns one code into another |
| `Status.CodesFarApart` | inc/chiparmour.h:78-85 | any two different codes differ in at least 13 of their 32 bits |
| `Words.Wrap32` | inc/chiparmour.h:224 | the conversion of an integer argument to a `uint32_t` parameter: equal to it modulo 2^32, and equal to it when it already fits |
| `Armoured.Ret` | inc/chiparmour.h:202-218 | the pair returned for a value carries that value unchanged and a companion consistent with it |
| `Armoured.RetInjective` | inc/chiparmour.h:206-218 | pairs returned for two values are equal exactly when the values are equal |
| `Armoured.CompanionFlipDetected` | inc/chiparmour.h:51-58 | changing only the companion of a consistent pair makes it inconsistent |
| `Limit.LimitU32` | inc/chiparmour.h:220-224 | for min <= max the result lies in [min, max], equals the input when the input is in range, and is the nearer bound otherwise; for min > max it is min |
| `Limit.LimitIdempotent` | inc/chiparmour.h:220-224 | limiting an already limited value changes nothing |
| `Limit.LimitIsNearest` | inc/chiparmour.h:220-224 | no in-range value is closer to the input than the limited value |
| `Limit.LimitAboveRange` | inc/chiparmour.h:220-224 | 500 limited to [0, 255] is 255 |
| `Limit.LimitWrappedNegative` | inc/chiparmour.h:224 | -5 passed as uint32_t becomes 0xFFFFFFFB and is limited to 255, the top of [0, 255] |
| `Compare.Invoke` | inc/chiparmour.h:232-237 | a callback with a NULL function makes no call; otherwise it makes exactly one call, to that function with its argument |
| `Compare.CompareU32Eq` | inc/chiparmour.h:226-245 | at most one call; equal operands call the equal function, different operands the unequal function; no call exactly when the selected function is NULL |
| `Compare.CalledMatchesOutcome` | inc/chiparmour.h:226-237 | with distinct callbacks, never both are called; the equal callback is called exactly when the operands are equal and its function is not NULL, and likewise for the unequal one |
| `Compare.CompareSymmetric` | inc/chiparmour.h:226-231 | swapping op1 and op2 makes the same calls |
| `Compare.CompanionsIgnored` | inc/chiparmour.h:226-245 | the model, like the header's comment, compares the value fields only: the calls do not depend on the companions |
| `Compare.CompareRetValues` | inc/chiparmour.h:206-245 | comparing the pairs returned for a and b calls the equal function when a == b and the unequal function otherwise |
| `RopGuard.Unprovisioned` | inc/chiparmour.h:111-115 | a registry before provisioning holds max_returns entries, all zero |
| `RopGuard.StopIndex` | inc/chiparmour.h:122-130 | the scan stops at the first entry that is zero or equal to the return address, or at the end; no earlier entry is either |
| `RopGuard.StopIndexAt` | inc/chiparmour.h:122-130 | an index is the stopping index when every entry before it is non-zero and differs from the return address, and it is zero, the address or the end |
| `RopGuard.CheckValidReturnAsWritten` | inc/chiparmour.h:117-134 | the scan as written, reading the registry without writing it, yields the outcome `AsWritten` of the registry's contents |
| `RopGuard.CheckValidReturn` | inc/chiparmour.h:117-134 | the scan with the final check corrected to `>=` yields the outcome `Intended` of the registry's contents, again without writing it |
| `RopGuard.IntendedProceedsIffRegistered` | inc/chiparmour.h:122-133 | the corrected guard proceeds exactly when some entry i equals the non-zero return address and all entries before i are non-zero |
| `RopGuard.AsWrittenPanicsIffZeroFirst` | inc/chiparmour.h:122-133 | the guard as written panics exactly when a zero entry comes before every entry equal to the return address |
| `RopGuard.ZeroBeforeMatchPanics` | inc/chiparmour.h:123-128 | a zero entry before the first match panics in both guards, even when the return address occurs later |
| `RopGuard.UnprovisionedPanics` | inc/chiparmour.h:114-125 | an all-zero registry with capacity > 0 panics whatever the return address |
| `RopGuard.FinalCheckUnreachable` | inc/chiparmour.h:122-133 | the loop index never exceeds the capacity, so the guard as written panics only at a zero entry |
| `RopGuard.FullUnmatchedFallsThrough` | inc/chiparmour.h:122-133 | a registry of only non-zero entries, none of them the return address, proceeds as written and panics when corrected |
| `RopGuard.OffByOneWitness` | inc/chiparmour.h:131-133 | the one-entry registry [0x08001000] with return address 0x08002000 proceeds as written and panics when corrected |
| `RopGuard.GuardsAgreeElsewhere` | inc/chiparmour.h:122-133 | when the scan stops inside the registry, both guards give the same outcome |
| `RopGuard.NullReturnNeverProceeds` | inc/chiparmour.h:123-128 | the return address NULL never proceeds under the corrected guard, because the zero test comes first |

## Findings

| source | as written | input that shows it | evidently intended | confidence | as-written member | corrected member |
|---|---|---|---|---|---|---|
| inc/chiparmour.h:131 | `if (ca_loopindx > len(...)) ca_panic();` after a loop that leaves `ca_loopindx <= len` | registry of capacity 1 holding 0x08001000; return address 0x08002000: no zero entry, no match, and the return proceeds | `>=`, so that a scan that ends without a match panics | not executed; high (the test can never be true) | `RopGuard.CheckValidReturnAsWritten`, `RopGuard.OffByOneWitness` | `RopGuard.CheckValidReturn`, `RopGuard.IntendedProceedsIffRegistered` |

## Left out

- `ca_init` and `ca_hal_mpu_init`: platform bring-up of the memory-protection unit and random source. They have no body and only hardware effects.
- `ca_lock_secure1`, `ca_unlock_secure1`, `CA_ATTR_SECURE1` and `secure1_valid_returnaddrs` as a protected memory region: these program the memory-protection hardware and the linker sections, and the header shows no key check to model. Only the registry's shape is reused by the guard.
- The random delay in `ca_ret_u32/u16/u8`: it depends on entropy hardware and timing. `Armoured.Ret` keeps only the value and the companion it returns.
- `Armoured.Ret`: the companion's derivation is a parameter `derive`, because the header does not say how the companion is computed.
- `__builtin_extract_return_addr(__builtin_return_address(0))`: a compiler intrinsic. The return address is a parameter of the guard.
- `causer_panic` and `ca_panic`: the weak-override mechanism and the way panic is routed. Panic is modelled only as the terminal outcome `Panic`.
- `Compare.CompareU32Eq`: does not model the returned `ca_return_t`, because the header does not say which status it returns. It does not re-check the companions either, because the header's comment does not mention such a check.
- `Compare.CompareU32Eq`: the C `void *` argument and the called function are modelled as opaque 32-bit addresses. What the called function does is outside the model.
- `ca_compare_func_eq`: built around an opaque hash callback. Its parameter types are not declared anywhere in the header, and its comment promises too little to state.
- `ca_test_mpu` and `ca_test_panic`: hardware self-tests that are meant to fault.
- The step after the build that writes the real return addresses into the ELF file: an external tool. `RopGuard.Unprovisioned` is the registry before that step.
- `Limit.LimitU32`: the header leaves `min > max` open; the model picks `min`, and nothing in the source fixes that choice.
- Interrupt masking around the guard, and other concurrency: calls are modelled as atomic.
