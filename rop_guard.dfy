/** The return-address guard `CA_ROP_CHECK_VALID_RETURN`. A protected function owns a registry of
    `maxReturns` valid return addresses (`CA_ROP_SET_MAX_RETURNS`, `CA_ROP_RETURNADDRS_ARRAY`),
    a static array filled in after the build. Before the function returns, the guard scans the
    registry for the actual return address; a zero entry marks the end of the populated part.
    Panic never returns, so it is a terminal outcome here. */
module RopGuard {
  import opened Words

  datatype Outcome = Proceed | Panic

  /** The zero entry that ends the populated part of a registry. */
  const SENTINEL: Addr := 0

  /** A registry as the static declaration leaves it before the addresses are written in:
      `maxReturns` zero entries. */
  function Unprovisioned(maxReturns: nat): (regs: seq<Addr>)
    ensures |regs| == maxReturns
    ensures forall i :: 0 <= i < |regs| ==> regs[i] == SENTINEL
  {
    seq(maxReturns, _ => SENTINEL)
  }

  /** Where the scan leaves the loop: the first index holding the sentinel or the return address,
      or the length of the registry when there is none. */
  function StopIndex(regs: seq<Addr>, ra: Addr): (k: nat)
    ensures k <= |regs|
    ensures forall j :: 0 <= j < k ==> regs[j] != SENTINEL && regs[j] != ra
    ensures k < |regs| ==> regs[k] == SENTINEL || regs[k] == ra
  {
    if regs == [] then 0
    else if regs[0] == SENTINEL || regs[0] == ra then 0
    else 1 + StopIndex(regs[1..], ra)
  }

  /** The outcome of the guard as written: the check after the loop panics only when the index is
      beyond the length. */
  function AsWritten(regs: seq<Addr>, ra: Addr): Outcome
  {
    var k := StopIndex(regs, ra);
    if k < |regs| && regs[k] == SENTINEL then Panic
    else if k > |regs| then Panic
    else Proceed
  }

  /** The outcome the guard is meant to have: the return proceeds only on a match found before any
      sentinel; both the sentinel and a scan that runs off the end panic. */
  function Intended(regs: seq<Addr>, ra: Addr): Outcome
  {
    var k := StopIndex(regs, ra);
    if k < |regs| && regs[k] == SENTINEL then Panic
    else if k >= |regs| then Panic
    else Proceed
  }

  /** `ra` is registered in the populated part: some entry equal to it, with only non-zero entries
      before it. */
  ghost predicate Registered(regs: seq<Addr>, ra: Addr)
  {
    exists i :: 0 <= i < |regs| && regs[i] == ra && ra != SENTINEL && Populated(regs, i)
  }

  /** The first `n` entries are all non-zero. */
  ghost predicate Populated(regs: seq<Addr>, n: nat)
    requires n <= |regs|
  {
    forall j :: 0 <= j < n ==> regs[j] != SENTINEL
  }

  /** The scan as the macro writes it, over the registry array and the return address the
      protected function is about to use. It reads the registry and never writes it. */
  method CheckValidReturnAsWritten(regs: array<Addr>, ra: Addr) returns (outcome: Outcome)
    ensures outcome == AsWritten(regs[..], ra)
  {
    var i: nat := 0;
    while i < regs.Length
      invariant i <= regs.Length
      invariant forall j :: 0 <= j < i ==> regs[j] != SENTINEL && regs[j] != ra
    {
      if regs[i] == SENTINEL {
        StopIndexAt(regs[..], ra, i);
        return Panic;
      }
      if regs[i] == ra {
        break;
      }
      i := i + 1;
    }
    StopIndexAt(regs[..], ra, i);
    outcome := if i > regs.Length then Panic else Proceed;
  }

  /** The scan with the final check corrected to `>=`: running off the end of the registry
      without a match panics. */
  method CheckValidReturn(regs: array<Addr>, ra: Addr) returns (outcome: Outcome)
    ensures outcome == Intended(regs[..], ra)
  {
    var i: nat := 0;
    while i < regs.Length
      invariant i <= regs.Length
      invariant forall j :: 0 <= j < i ==> regs[j] != SENTINEL && regs[j] != ra
    {
      if regs[i] == SENTINEL {
        StopIndexAt(regs[..], ra, i);
        return Panic;
      }
      if regs[i] == ra {
        break;
      }
      i := i + 1;
    }
    StopIndexAt(regs[..], ra, i);
    outcome := if i >= regs.Length then Panic else Proceed;
  }

  /** StopIndex is the first index whose entry is the sentinel or the return address. */
  lemma StopIndexAt(regs: seq<Addr>, ra: Addr, i: nat)
    requires i <= |regs|
    requires forall j :: 0 <= j < i ==> regs[j] != SENTINEL && regs[j] != ra
    requires i < |regs| ==> regs[i] == SENTINEL || regs[i] == ra
    ensures StopIndex(regs, ra) == i
  {
  }

  /** The intended guard lets the return proceed exactly when the address is registered. */
  lemma IntendedProceedsIffRegistered(regs: seq<Addr>, ra: Addr)
    ensures Intended(regs, ra) == Proceed <==> Registered(regs, ra)
  {
    var k := StopIndex(regs, ra);
    if Intended(regs, ra) == Proceed {
      assert regs[k] == ra && ra != SENTINEL && Populated(regs, k);
    }
    if Registered(regs, ra) {
      var i :| 0 <= i < |regs| && regs[i] == ra && ra != SENTINEL && Populated(regs, i);
      assert k <= i;
      assert regs[k] != SENTINEL;
    }
  }

  /** A zero entry met before any match panics, in both versions of the guard, even when `ra`
      appears further on in the registry. */
  lemma ZeroBeforeMatchPanics(regs: seq<Addr>, ra: Addr, z: nat)
    requires z < |regs| && regs[z] == SENTINEL
    requires forall j :: 0 <= j < z ==> regs[j] != ra
    ensures AsWritten(regs, ra) == Panic
    ensures Intended(regs, ra) == Panic
  {
  }

  /** The guard as written panics exactly when a zero entry comes before any match. */
  lemma AsWrittenPanicsIffZeroFirst(regs: seq<Addr>, ra: Addr)
    ensures AsWritten(regs, ra) == Panic <==>
              exists z :: 0 <= z < |regs| && regs[z] == SENTINEL && forall j :: 0 <= j < z ==> regs[j] != ra
  {
    var k := StopIndex(regs, ra);
    if AsWritten(regs, ra) == Panic {
      assert k < |regs| && regs[k] == SENTINEL;
    }
  }

  /** Before any address is written in, the first check panics whatever the return address. */
  lemma UnprovisionedPanics(maxReturns: nat, ra: Addr)
    requires maxReturns > 0
    ensures AsWritten(Unprovisioned(maxReturns), ra) == Panic
    ensures Intended(Unprovisioned(maxReturns), ra) == Panic
  {
    ZeroBeforeMatchPanics(Unprovisioned(maxReturns), ra, 0);
  }

  /** The loop leaves its index at most at the length, so the check `ca_loopindx > len` after it
      never fires: the guard as written panics only at a sentinel. */
  lemma FinalCheckUnreachable(regs: seq<Addr>, ra: Addr)
    ensures StopIndex(regs, ra) <= |regs|
    ensures AsWritten(regs, ra) == Panic <==>
              StopIndex(regs, ra) < |regs| && regs[StopIndex(regs, ra)] == SENTINEL
  {
  }

  /** A fully populated registry that does not hold `ra` lets the return proceed under the guard
      as written, where the intended guard panics. */
  lemma FullUnmatchedFallsThrough(regs: seq<Addr>, ra: Addr)
    requires forall j :: 0 <= j < |regs| ==> regs[j] != SENTINEL && regs[j] != ra
    ensures AsWritten(regs, ra) == Proceed
    ensures Intended(regs, ra) == Panic
  {
    StopIndexAt(regs, ra, |regs|);
  }

  /** A one-entry registry holding 0x0800_1000, with the return address 0x0800_2000. */
  lemma OffByOneWitness()
    ensures AsWritten([0x0800_1000], 0x0800_2000) == Proceed
    ensures Intended([0x0800_1000], 0x0800_2000) == Panic
  {
    FullUnmatchedFallsThrough([0x0800_1000], 0x0800_2000);
  }

  /** The two guards differ only where the scan runs off the end with no match and no sentinel. */
  lemma GuardsAgreeElsewhere(regs: seq<Addr>, ra: Addr)
    requires StopIndex(regs, ra) < |regs|
    ensures AsWritten(regs, ra) == Intended(regs, ra)
  {
  }

  /** The return address NULL never proceeds under the intended guard: the zero test comes
      before the match test. */
  lemma NullReturnNeverProceeds(regs: seq<Addr>)
    ensures Intended(regs, NULL) == Panic
  {
  }
}
