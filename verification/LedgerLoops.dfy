/** The loops of execution and verification that only read the ledger. */
module LedgerLoops {
  import opened Seqs
  import opened LedgerTypes
  import opened PlanRules
  import opened Execution
  import opened ExecutionProofs
  import opened ReceiptAudit

  method RequirementsEstablished(established: seq<nat>, d: Descriptor) returns (missing: Option<nat>)
    ensures missing == FirstMissing(established, d.requirements, 0)
  {
    var k := 0;
    while k < |d.requirements|
      invariant k <= |d.requirements|
      invariant FirstMissing(established, d.requirements, 0) == FirstMissing(established, d.requirements, k)
    {
      if !HasCapability(established, d.requirements[k]) {
        return Some(d.requirements[k]);
      }
      k := k + 1;
    }
    return None;
  }

  /** The first of cs that is missing from allowed. */
  method FindOutside(cs: seq<nat>, allowed: seq<nat>) returns (c: Option<nat>)
    ensures c == FirstOutside(cs, allowed, 0)
  {
    var k := 0;
    while k < |cs|
      invariant k <= |cs|
      invariant FirstOutside(cs, allowed, 0) == FirstOutside(cs, allowed, k)
    {
      if cs[k] !in allowed {
        return Some(cs[k]);
      }
      k := k + 1;
    }
    return None;
  }

  method ValidateResult(d: Descriptor, r: StageResult) returns (check: ResultCheck)
    ensures check == CheckResult(d, r)
  {
    var declared: seq<nat> := [];
    if r.outcome == RAN {
      declared := d.provided;
    } else if r.outcome == SKIPPED {
      declared := d.skipped;
    } else if r.outcome != FAILED {
      return Rejected(ReceiptMismatch, NO_CAPABILITY);
    }
    if |r.provided| > STAGE_CAPABILITY_CAPACITY || |r.counters| > PROOF_COUNTER_CAPACITY {
      return Rejected(ReceiptMismatch, NO_CAPABILITY);
    }
    var bad := FindOutside(r.provided, declared);
    if bad.Some? {
      return Rejected(UndeclaredCapabilityProvided, bad.value);
    }
    if |r.provided| != |declared| {
      return Rejected(ReceiptMismatch, NO_CAPABILITY);
    }
    bad := FindOutside(declared, r.provided);
    if bad.Some? {
      return Rejected(ReceiptMismatch, bad.value);
    }
    return Accepted;
  }

  /** Count the capabilities of one receipt, refusing the first that is unknown,
      undeclared, repeated or already counted. */
  method CountProvided(id: nat, declared: seq<nat>, provided: seq<nat>, caps: seq<nat>)
    returns (fault: Option<Fault>, counted: seq<nat>)
    ensures fault == ProvidedFault(id, declared, provided, caps, 0)
    ensures fault.None? ==> counted == caps + provided
  {
    counted := caps;
    var p := 0;
    while p < |provided|
      invariant p <= |provided|
      invariant counted == caps + provided[..p]
      invariant ProvidedFault(id, declared, provided, caps, 0) == ProvidedFault(id, declared, provided, caps, p)
    {
      var c := provided[p];
      if !CapabilityIsKnown(c) {
        return Some(Refusal(UnknownCapability, id, c)), counted;
      }
      if c !in declared {
        return Some(Refusal(UndeclaredCapabilityProvided, id, c)), counted;
      }
      var earlier := 0;
      while earlier < p
        invariant earlier <= p
        invariant c !in provided[..earlier]
      {
        if provided[earlier] == c {
          assert c in provided[..p];
          return Some(Refusal(ReceiptMismatch, id, c)), counted;
        }
        earlier := earlier + 1;
      }
      if c in counted {
        return Some(Refusal(DuplicateCapabilityProvider, id, c)), counted;
      }
      if |counted| >= CAPABILITY_COUNT {
        return Some(Refusal(ReceiptMismatch, id, c)), counted;
      }
      counted := counted + [c];
      assert provided[..p + 1] == provided[..p] + [c];
      p := p + 1;
    }
    assert provided[..p] == provided;
    fault := None;
  }

  method CheckContents(d: Descriptor, r: Receipt, caps: seq<nat>) returns (fault: Option<Fault>, counted: seq<nat>)
    ensures fault == Either(RequirementGap(d, r, caps), ContentFault(d, r, caps))
    ensures fault.None? ==> counted == caps + r.provided
  {
    counted := caps;
    if r.outcome != SKIPPED {
      var missing := FindOutside(d.requirements, caps);
      if missing.Some? {
        return Some(Refusal(StageExecutedBeforeRequirements, d.id, missing.value)), counted;
      }
    }
    var declared: seq<nat> := [];
    if r.outcome == RAN {
      declared := d.provided;
    } else if r.outcome == SKIPPED {
      declared := d.skipped;
    }
    if |r.provided| != |declared| {
      return Some(Refusal(ReceiptMismatch, d.id, NO_CAPABILITY)), counted;
    }
    fault, counted := CountProvided(d.id, declared, r.provided, caps);
    if fault.Some? {
      return;
    }
    var missing := FindOutside(declared, r.provided);
    if missing.Some? {
      return Some(Refusal(ReceiptMismatch, d.id, missing.value)), counted;
    }
    fault := None;
  }

  /** The stages already seen among the first k receipts. */
  ghost predicate MarksSeen(seen: array<bool>, receipts: seq<Receipt>, k: nat)
    reads seen
  {
    && seen.Length == STAGE_COUNT
    && k <= |receipts|
    && forall s :: 0 <= s < STAGE_COUNT ==> (seen[s] <==> exists j :: 0 <= j < k && receipts[j].stage == s)
  }

  method CheckReceipt(at: Option<Descriptor>, receipts: seq<Receipt>, k: nat, caps: seq<nat>, seen: array<bool>)
    returns (fault: Option<Fault>, counted: seq<nat>)
    requires k < |receipts| && MarksSeen(seen, receipts, k)
    modifies seen
    ensures fault == ReceiptFault(at, receipts, k, caps)
    ensures fault.None? ==> counted == caps + receipts[k].provided && MarksSeen(seen, receipts, k + 1)
  {
    counted := caps;
    var r := receipts[k];
    if !StageIsKnown(r.stage) {
      return Some(Refusal(UnknownStageIdentifier, r.stage, NO_CAPABILITY)), counted;
    }
    assert seen[r.stage] <==> SeenBefore(receipts, k);
    if at.None? || r.stage != at.value.id || r.sequence != k + 1 || seen[r.stage] {
      return Some(Refusal(InstalledPlanDiffersValidatedPlan, r.stage, NO_CAPABILITY)), counted;
    }
    var d := at.value;
    seen[r.stage] := true;
    if BadShape(r) {
      return Some(Refusal(ReceiptMismatch, d.id, NO_CAPABILITY)), counted;
    }
    if d.required && (r.outcome != RAN || r.status != Ok) {
      return Some(Refusal(ReceiptMismatch, d.id, NO_CAPABILITY)), counted;
    }
    fault, counted := CheckContents(d, r, caps);
  }

  /** The whole verifier. */
  method AuditReceipts(planned: seq<Option<Descriptor>>, receipts: seq<Receipt>, established: seq<nat>)
    returns (fault: Option<Fault>)
    ensures fault == Audit(planned, receipts, established)
  {
    if |receipts| != |planned| {
      return Some(Refusal(ReceiptMismatch, NO_STAGE, NO_CAPABILITY));
    }
    var caps: seq<nat> := [];
    var seen := new bool[STAGE_COUNT](_ => false);
    var k := 0;
    while k < |receipts|
      invariant k <= |receipts|
      invariant caps == Flatten(receipts[..k])
      invariant MarksSeen(seen, receipts, k)
      invariant Audit(planned, receipts, established) == AuditFrom(planned, receipts, established, k)
    {
      fault, caps := CheckReceipt(planned[k], receipts, k, caps, seen);
      if fault.Some? {
        return;
      }
      assert receipts[..k + 1][..k] == receipts[..k];
      k := k + 1;
    }
    assert receipts[..k] == receipts;
    fault := CheckTotal(caps, established);
  }

  method CheckTotal(caps: seq<nat>, established: seq<nat>) returns (fault: Option<Fault>)
    ensures fault == TotalFault(caps, established)
  {
    if |caps| != |established| {
      return Some(Refusal(ReceiptMismatch, NO_STAGE, NO_CAPABILITY));
    }
    var k := 0;
    while k < |caps|
      invariant k <= |caps|
      invariant FirstUnheld(caps, established, 0) == FirstUnheld(caps, established, k)
    {
      if !HasCapability(established, caps[k]) {
        return Some(Refusal(ReceiptMismatch, NO_STAGE, caps[k]));
      }
      k := k + 1;
    }
    return None;
  }
}
