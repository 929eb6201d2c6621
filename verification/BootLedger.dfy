/** The Boot Ledger itself: one mutable object whose operations add stages,
    validate the plan, execute it and verify its own evidence. */
module BootLedger {
  import opened Seqs
  import opened LedgerTypes
  import opened PlanRules
  import opened PlanEquivalence
  import opened Planner
  import opened Fingerprint
  import opened FingerprintWords
  import opened Execution
  import opened ExecutionProofs
  import opened ReceiptAudit
  import opened PlanExecution
  import opened LedgerLoops

  /** The plan a validated ledger holds. */
  ghost predicate Validated(ds: seq<Descriptor>, order: seq<nat>, ids: seq<nat>, fp: nat) {
    && LegalPlan(ds)
    && CanonicalOrder(ds, order)
    && (forall k :: 0 <= k < |order| ==> order[k] < |ds|)
    && ids == IdsOf(Planned(ds, order))
    && fp == PlanHash(Planned(ds, order))
  }

  /** These bodies drive the stages to exactly this record. */
  ghost predicate RunsTo(
    stages: seq<Descriptor>, bodies: seq<StageResult>, mark: Refusal, receipts: seq<Receipt>, established: seq<nat>)
  {
    && |bodies| == |stages|
    && var st := Run(stages, IdsOf(stages), bodies, mark, |stages|);
       !st.halted && st.receipts == receipts && st.established == established
  }

  ghost predicate Reachable(stages: seq<Descriptor>, receipts: seq<Receipt>, established: seq<nat>) {
    exists bodies, mark :: RunsTo(stages, bodies, mark, receipts, established)
  }

  class Ledger {
    var descriptors: seq<Descriptor>
    var canonicalOrder: seq<nat>
    var validatedStageIds: seq<nat>
    var receipts: seq<Receipt>
    var established: seq<nat>
    var mark: Refusal               // status, refusal stage and refusal capability
    var planFingerprint: nat
    var fingerprint: nat
    var executedCount: nat
    var optionalSkipCount: nat
    var validated: bool
    var executed: bool
    var degraded: bool
    ghost var calls: seq<nat>       // plan positions whose body was entered

    /** Every planned index names a descriptor. */
    ghost predicate Indexed()
      reads this
    {
      && |validatedStageIds| == |canonicalOrder|
      && forall k :: 0 <= k < |canonicalOrder| ==> canonicalOrder[k] < |descriptors|
    }

    /** What the public operations keep: a validated ledger holds a legal plan in
        canonical order, and an executed one holds the record of a real run of it. */
    ghost predicate Sound()
      reads this
    {
      && Indexed()
      && (validated ==> Validated(descriptors, canonicalOrder, validatedStageIds, planFingerprint))
      && (executed ==>
            && validated
            && Reachable(Planned(descriptors, canonicalOrder), receipts, established)
            && fingerprint == ReceiptHash(planFingerprint, receipts))
    }

    ghost function State(halted: bool): (r: RunState)
      reads this
      ensures r.halted == halted && r.mark == mark
    {
      RunState(receipts, established, executedCount, optionalSkipCount, degraded, calls, mark, halted)
    }

    /** Reset. */
    constructor ()
      ensures Sound()
      ensures descriptors == [] && canonicalOrder == [] && receipts == [] && established == []
      ensures !validated && !executed && !degraded
      ensures mark == Refusal(NotValidated, NO_STAGE, NO_CAPABILITY)
    {
      descriptors, canonicalOrder, validatedStageIds, receipts, established := [], [], [], [], [];
      mark := Refusal(NotValidated, NO_STAGE, NO_CAPABILITY);
      planFingerprint, fingerprint, executedCount, optionalSkipCount := 0, 0, 0, 0;
      validated, executed, degraded := false, false, false;
      calls := [];
    }

    method AddStage(d: Descriptor) returns (status: Status)
      requires Indexed()
      modifies this`descriptors, this`mark, this`validated, this`executed
      ensures old(Sound()) ==> Sound()
      ensures status == Ok <==> |old(descriptors)| < STAGE_CAPACITY
      ensures status == Ok ==> descriptors == old(descriptors) + [d] && !validated && !executed
      ensures status == Ok ==> mark == old(mark).(status := NotValidated)
      ensures status != Ok ==> descriptors == old(descriptors) && validated == old(validated)
      ensures status != Ok ==> executed == old(executed) && status == TooManyStages
      ensures status != Ok ==> mark == Refusal(TooManyStages, d.id, NO_CAPABILITY)
    {
      hide Validated, Reachable, ReceiptHash;
      if |descriptors| >= STAGE_CAPACITY {
        mark := Refusal(TooManyStages, d.id, NO_CAPABILITY);
        return mark.status;
      }
      descriptors := descriptors + [d];
      validated, executed := false, false;
      mark := mark.(status := NotValidated);
      return Ok;
    }

    /** Validation accepts exactly the legal plans; it leaves the greedy order of
        whatever could be placed, and names the first reason when it refuses. */
    method Validate() returns (status: Status)
      modifies this`validated, this`executed, this`canonicalOrder, this`validatedStageIds, this`receipts,
               this`mark, this`planFingerprint, this`fingerprint
      ensures Sound() && !executed && receipts == []
      ensures validated == (status == Ok) && status == mark.status
      ensures status == Ok <==> LegalPlan(descriptors)
      ensures PlannedAs(descriptors, canonicalOrder, validatedStageIds)
      ensures status == Ok ==> mark == Refusal(Ok, NO_STAGE, NO_CAPABILITY) && fingerprint == 0
      ensures status != Ok ==> RefusedAs(descriptors, mark)
      ensures status != Ok ==> planFingerprint == old(planFingerprint) && fingerprint == old(fingerprint)
    {
      hide LegalPlan, RefusedAs, PlannedAs, Validated, CanonicalOrder, Reachable, PlanHash, ReceiptHash, Planned, Sound;
      validated, executed := false, false;
      receipts := [];
      mark := mark.(stage := NO_STAGE, capability := NO_CAPABILITY);
      var planning := PlanStages(descriptors);
      PlannedIsIndexed(descriptors, planning.order, planning.ids);
      canonicalOrder, validatedStageIds := planning.order, planning.ids;
      if planning.fault.Some? {
        mark := planning.fault.value;
        NotYetExecuted();
        return mark.status;
      }
      Publish();
      return mark.status;
    }

    /** Fingerprint an accepted plan and mark it validated. */
    method Publish()
      requires LegalPlan(descriptors) && CanonicalOrder(descriptors, canonicalOrder)
      requires PlannedAs(descriptors, canonicalOrder, validatedStageIds) && !executed
      modifies this`planFingerprint, this`fingerprint, this`validated, this`mark
      ensures Sound() && validated && fingerprint == 0 && mark == old(mark).(status := Ok)
    {
      hide LegalPlan, PlannedAs, Validated, CanonicalOrder, Reachable, PlanHash, ReceiptHash, Planned, Sound;
      PlannedIsIndexed(descriptors, canonicalOrder, validatedStageIds);
      PlannedIsValidated(descriptors, canonicalOrder, validatedStageIds);
      planFingerprint := FingerprintPlan(descriptors, canonicalOrder);
      fingerprint := 0;
      validated := true;
      mark := mark.(status := Ok);
      NotYetExecuted();
    }

    lemma NotYetExecuted()
      requires Indexed() && !executed
      requires validated ==> Validated(descriptors, canonicalOrder, validatedStageIds, planFingerprint)
      ensures Sound()
    {
    }

    /** Establish what is new among the capabilities, as far as there is room. */
    method EstablishAll(provided: seq<nat>) returns (overflow: Option<nat>)
      modifies this`established
      ensures Establishing(established, overflow) == Establish(old(established), provided, 0)
    {
      var k := 0;
      while k < |provided|
        invariant k <= |provided|
        invariant Establish(old(established), provided, 0) == Establish(established, provided, k)
      {
        if !HasCapability(established, provided[k]) {
          if |established| >= CAPABILITY_COUNT {
            return Some(provided[k]);
          }
          established := established + [provided[k]];
        }
        k := k + 1;
      }
      return None;
    }

    /** Record a result: establish what it provides, append its receipt, keep the accounts. */
    method AppendReceipt(d: Descriptor, r: StageResult, receiptStatus: Status) returns (status: Status)
      modifies this`receipts, this`established, this`executedCount, this`optionalSkipCount, this`degraded, this`mark
      ensures State(status != Ok) == Execution.AppendReceipt(old(State(false)), d, r, receiptStatus)
      ensures status != Ok ==> status == mark.status
    {
      if |receipts| >= RECEIPT_CAPACITY {
        mark := Refusal(TooManyReceipts, d.id, NO_CAPABILITY);
        return mark.status;
      }
      var overflow := EstablishAll(r.provided);
      if overflow.Some? {
        mark := Refusal(ReceiptMismatch, d.id, overflow.value);
        return mark.status;
      }
      receipts := receipts + [Receipt(d.id, |receipts| + 1, r.provided, receiptStatus, r.outcome, r.counters)];
      if r.outcome != SKIPPED {
        executedCount := executedCount + 1;
      }
      if r.outcome != RAN {
        if r.outcome != SKIPPED || !d.skipPreservesHealth {
          degraded := true;
        }
        if r.outcome == SKIPPED {
          optionalSkipCount := optionalSkipCount + 1;
        }
      }
      return Ok;
    }

    /** Act on what a body returned. */
    method SettleResult(d: Descriptor, r: StageResult) returns (status: Status)
      modifies this`receipts, this`established, this`executedCount, this`optionalSkipCount, this`degraded, this`mark
      ensures State(status != Ok) == Settle(old(State(false)), d, r)
      ensures status != Ok ==> status == mark.status
    {
      hide Execution.AppendReceipt;
      var check := ValidateResult(d, r);
      if check.Rejected? {
        CheckStatusProper(d, r);
        mark := Refusal(check.status, d.id, check.capability);
        return mark.status;
      }
      if r.outcome == SKIPPED && d.required {
        var _ := AppendReceipt(d, r, RequiredStageSkipped);
        mark := Refusal(RequiredStageSkipped, d.id, NO_CAPABILITY);
        return mark.status;
      }
      if r.outcome == FAILED {
        var receiptStatus := if d.required then RequiredStageFailed else OptionalStageFailed;
        var _ := AppendReceipt(d, r, receiptStatus);
        if d.required {
          mark := Refusal(receiptStatus, d.id, NO_CAPABILITY);
          return mark.status;
        }
        degraded := true;
        return Ok;
      }
      status := AppendReceipt(d, r, if r.outcome == SKIPPED then OptionalStageSkipped else Ok);
    }

    method ExecuteStage(d: Descriptor, position: nat, body: StageResult) returns (status: Status)
      modifies this`receipts, this`established, this`executedCount, this`optionalSkipCount, this`degraded,
               this`mark, this`calls
      ensures State(status != Ok) == Execution.ExecuteStage(old(State(false)), d, position, body)
      ensures status != Ok ==> status == mark.status
    {
      hide Execution.AppendReceipt, Settle;
      var missing := RequirementsEstablished(established, d);
      if missing.Some? {
        if d.required {
          mark := Refusal(StageExecutedBeforeRequirements, d.id, missing.value);
          return mark.status;
        }
        status := AppendReceipt(d, SkipResult(d), OptionalStageSkipped);
        return;
      }
      calls := calls + [position];
      status := SettleResult(d, body);
    }

    /** Whether the plan still is what was validated. */
    ghost predicate Intact()
      reads this
      requires Indexed()
    {
      PlanHash(Planned(descriptors, canonicalOrder)) == planFingerprint
    }

    /** Execution runs the planned stages against the given bodies, or says why not. */
    method Execute(bodies: seq<StageResult>) returns (status: Status)
      requires Indexed() && |bodies| == |canonicalOrder|
      modifies this`receipts, this`established, this`executedCount, this`optionalSkipCount, this`degraded,
               this`mark, this`calls, this`fingerprint, this`executed
      ensures status == mark.status
      ensures !old(validated && !executed && Intact()) ==>
        status == if !validated then NotValidated
        else if old(executed) then AlreadyExecuted else PlanFingerprintMismatch
      ensures !old(validated && !executed && Intact()) ==>
        State(false) == old(State(false)).(mark := Refusal(status, NO_STAGE, NO_CAPABILITY))
      ensures !old(validated && !executed && Intact()) ==> executed == old(executed) && fingerprint == old(fingerprint)
      ensures old(validated && !executed && Intact()) ==>
        RunRecorded(State(status != Ok),
          Run(Planned(descriptors, canonicalOrder), validatedStageIds, bodies, old(mark), |bodies|))
      ensures old(validated && !executed && Intact()) ==>
        && executed == (status == Ok)
        && fingerprint == if executed then ReceiptHash(planFingerprint, receipts) else old(fingerprint)
      ensures old(Sound()) ==> Sound()
    {
      hide PlanHash, ReceiptHash, Run, Validated, Reachable, Planned, IdsOf, LegalPlan, CanonicalOrder, RunsTo;
      if !validated {
        mark := Refusal(NotValidated, NO_STAGE, NO_CAPABILITY);
        return mark.status;
      }
      if executed {
        mark := Refusal(AlreadyExecuted, NO_STAGE, NO_CAPABILITY);
        return mark.status;
      }
      var fp := FingerprintPlan(descriptors, canonicalOrder);
      if fp != planFingerprint {
        mark := Refusal(PlanFingerprintMismatch, NO_STAGE, NO_CAPABILITY);
        return mark.status;
      }
      status := RunValidated(bodies);
    }

    /** Run a validated plan, and fingerprint the record if the run completes. */
    method RunValidated(bodies: seq<StageResult>) returns (status: Status)
      requires Indexed() && |bodies| == |canonicalOrder| && validated && !executed
      modifies this`receipts, this`established, this`executedCount, this`optionalSkipCount, this`degraded,
               this`mark, this`calls, this`fingerprint, this`executed
      ensures status == mark.status && executed == (status == Ok)
      ensures RunRecorded(State(status != Ok),
        Run(Planned(descriptors, canonicalOrder), validatedStageIds, bodies, old(mark), |bodies|))
      ensures fingerprint == if executed then ReceiptHash(planFingerprint, receipts) else old(fingerprint)
      ensures old(Sound()) ==> Sound()
    {
      hide PlanHash, ReceiptHash, Run, Validated, Reachable, Planned;
      status := RunPlan(bodies);
      if status != Ok {
        return;
      }
      if old(Sound()) {
        RunIsReachable(descriptors, canonicalOrder, validatedStageIds, planFingerprint, bodies, old(mark));
      }
      fingerprint := FingerprintReceipts(planFingerprint, receipts);
      executed := true;
      mark := mark.(status := Ok);
      return mark.status;
    }

    method RunPlan(bodies: seq<StageResult>) returns (status: Status)
      requires Indexed() && |bodies| == |canonicalOrder|
      modifies this`receipts, this`established, this`executedCount, this`optionalSkipCount, this`degraded,
               this`mark, this`calls
      ensures State(status != Ok) ==
        Run(Planned(descriptors, canonicalOrder), validatedStageIds, bodies, old(mark), |bodies|)
      ensures status != Ok ==> status == mark.status
    {
      hide AfterStage, Run, Planned, State, Fresh;
      PlannedStage(descriptors, canonicalOrder);
      BeginRun();
      ghost var stages := Planned(descriptors, canonicalOrder);
      RunStart(stages, validatedStageIds, bodies, mark);
      var k := 0;
      while k < |canonicalOrder|
        invariant k <= |canonicalOrder|
        invariant State(false) == Run(stages, validatedStageIds, bodies, old(mark), k)
      {
        RunStep(stages, validatedStageIds, bodies, old(mark), k);
        status := RunPosition(k, bodies[k]);
        if status != Ok {
          RunStopped(stages, validatedStageIds, bodies, old(mark), k + 1, |bodies|);
          return;
        }
        k := k + 1;
      }
      return Ok;
    }

    /** Re-derive legality from the receipts. */
    method VerifyReceiptSet() returns (status: Status)
      modifies this`mark
      ensures var answer := Audit(PlannedAt(descriptors, canonicalOrder), receipts, established);
        if answer.None? then status == Ok && mark == old(mark) else status == mark.status && mark == answer.value
    {
      var fault := AuditReceipts(PlannedAt(descriptors, canonicalOrder), receipts, established);
      if fault.Some? {
        mark := fault.value;
        return mark.status;
      }
      return Ok;
    }

    /** The evidence checks that open installed verification. A sound, executed ledger passes them all. */
    method VerifyEvidence() returns (status: Status)
      requires Indexed()
      modifies this`mark
      ensures status == Ok <==>
        && validated && executed && Intact()
        && Audit(PlannedAt(descriptors, canonicalOrder), receipts, established).None?
        && fingerprint == ReceiptHash(planFingerprint, receipts)
      ensures status == Ok ==> mark == old(mark)
      ensures status != Ok ==> status == mark.status
      ensures old(Sound() && executed) ==> status == Ok
    {
      hide PlanHash, ReceiptHash, Audit, Validated, Reachable;
      if old(Sound() && executed) {
        ReachableIsAccepted(descriptors, canonicalOrder, validatedStageIds, planFingerprint, receipts, established);
        assert PlannedAt(descriptors, canonicalOrder) == Present(Planned(descriptors, canonicalOrder));
      }
      if !validated || !executed {
        mark := Refusal(NotValidated, NO_STAGE, NO_CAPABILITY);
        return mark.status;
      }
      var fp := FingerprintPlan(descriptors, canonicalOrder);
      if fp != planFingerprint {
        mark := Refusal(PlanFingerprintMismatch, NO_STAGE, NO_CAPABILITY);
        return mark.status;
      }
      status := VerifyReceiptSet();
      if status != Ok {
        return;
      }
      fp := FingerprintReceipts(planFingerprint, receipts);
      if fp != fingerprint {
        mark := Refusal(PlanFingerprintMismatch, NO_STAGE, NO_CAPABILITY);
        return mark.status;
      }
    }

    method BeginRun()
      modifies this`receipts, this`established, this`executedCount, this`optionalSkipCount, this`degraded, this`calls
      ensures State(false) == Fresh(mark)
    {
      receipts, established := [], [];
      executedCount, optionalSkipCount, degraded := 0, 0, false;
      calls := [];
    }

    method RunPosition(k: nat, body: StageResult) returns (status: Status)
      requires Indexed() && k < |canonicalOrder|
      modifies this`receipts, this`established, this`executedCount, this`optionalSkipCount, this`degraded,
               this`mark, this`calls
      ensures State(status != Ok) ==
        AfterStage(old(State(false)), descriptors[canonicalOrder[k]], validatedStageIds[k], k, body)
      ensures status != Ok ==> status == mark.status
    {
      hide Execution.ExecuteStage;
      var d := descriptors[canonicalOrder[k]];
      if d.id != validatedStageIds[k] {
        mark := Refusal(InstalledPlanDiffersValidatedPlan, d.id, NO_CAPABILITY);
        return mark.status;
      }
      status := ExecuteStage(d, k, body);
    }
  }

  lemma PlannedStage(ds: seq<Descriptor>, order: seq<nat>)
    requires forall k :: 0 <= k < |order| ==> order[k] < |ds|
    ensures forall k :: 0 <= k < |order| ==> Planned(ds, order)[k] == ds[order[k]]
  {
  }

  /** The planned stage at each position, absent where the index names no descriptor. */
  function PlannedAt(ds: seq<Descriptor>, order: seq<nat>): (r: seq<Option<Descriptor>>)
    ensures |r| == |order|
  {
    seq(|order|, k requires 0 <= k < |order| => if order[k] < |ds| then Some(ds[order[k]]) else None)
  }

  /** The ledger holds the outcome of run st, marked Ok if it completed. */
  /** A plan altered in one field of one stage after it was validated never runs. */
  method AlteredPlanIsRefused(ledger: Ledger, i: nat, d: Descriptor, bodies: seq<StageResult>) returns (status: Status)
    requires ledger.Sound() && ledger.validated && !ledger.executed && |bodies| == |ledger.canonicalOrder|
    requires i < |ledger.descriptors| && OneFieldApart(ledger.descriptors[i], d) && SmallFields(d)
    modifies ledger
    ensures status == PlanFingerprintMismatch && !ledger.executed && ledger.receipts == old(ledger.receipts)
  {
    hide PlanHash, OneFieldApart, SmallFields, Validated, Reachable, Run, Planned, RunRecorded;
    ghost var ds, order := ledger.descriptors, ledger.canonicalOrder;
    AlteredPlan(ds, order, ledger.validatedStageIds, ledger.planFingerprint, i, d);
    ledger.descriptors := ledger.descriptors[i := d];
    status := ledger.Execute(bodies);
  }

  lemma AlteredPlan(ds: seq<Descriptor>, order: seq<nat>, ids: seq<nat>, fp: nat, i: nat, d: Descriptor)
    requires Validated(ds, order, ids, fp) && i < |ds| && OneFieldApart(ds[i], d) && SmallFields(d)
    ensures PlanHash(Planned(ds[i := d], order)) != fp
  {
    hide PlanHash, OneFieldApart;
    CanonicalInRange(ds, order);
    assert WellDeclared(ds[i]);
    DistinctOnto(order, i);
    var k :| 0 <= k < |order| && order[k] == i;
    assert Planned(ds[i := d], order) == Planned(ds, order)[k := d];
    AlteredPlanShows(Planned(ds, order), k, d);
  }

  ghost predicate RunRecorded(now: RunState, st: RunState) {
    now == if st.halted then st else st.(mark := st.mark.(status := Ok))
  }

  lemma RunIsReachable(
    ds: seq<Descriptor>, order: seq<nat>, ids: seq<nat>, fp: nat, bodies: seq<StageResult>, mark: Refusal)
    requires Validated(ds, order, ids, fp) && |bodies| == |order|
    requires !Run(Planned(ds, order), ids, bodies, mark, |bodies|).halted
    ensures var st := Run(Planned(ds, order), ids, bodies, mark, |bodies|);
      Reachable(Planned(ds, order), st.receipts, st.established)
  {
    hide LegalPlan, CanonicalOrder, PlanHash, Execution.ExecuteStage;
    var stages := Planned(ds, order);
    var st := Run(stages, ids, bodies, mark, |bodies|);
    assert RunsTo(stages, bodies, mark, st.receipts, st.established);
  }

  lemma CheckStatusProper(d: Descriptor, r: StageResult)
    ensures CheckResult(d, r).Rejected? ==> CheckResult(d, r).status != Ok
  {
  }

  /** The record of a real run of a validated plan passes the verifier, and the plan its fingerprint. */
  lemma ReachableIsAccepted(
    ds: seq<Descriptor>, order: seq<nat>, ids: seq<nat>, fp: nat, receipts: seq<Receipt>, established: seq<nat>)
    requires Validated(ds, order, ids, fp)
    requires Reachable(Planned(ds, order), receipts, established)
    ensures fp == PlanHash(Planned(ds, order))
    ensures Audit(Present(Planned(ds, order)), receipts, established).None?
  {
    hide PlanHash, Audit, Run;
    CanonicalIsRunnable(ds, order);
    var stages := Planned(ds, order);
    var bodies, mark :| RunsTo(stages, bodies, mark, receipts, established);
    ExecutionIsAccepted(stages, bodies, mark);
  }

  lemma PlannedIsIndexed(ds: seq<Descriptor>, order: seq<nat>, ids: seq<nat>)
    requires PlannedAs(ds, order, ids)
    ensures |ids| == |order| && forall k :: 0 <= k < |order| ==> order[k] < |ds|
  {
  }

  lemma PlannedIsValidated(ds: seq<Descriptor>, order: seq<nat>, ids: seq<nat>)
    requires LegalPlan(ds) && CanonicalOrder(ds, order) && PlannedAs(ds, order, ids)
    ensures Validated(ds, order, ids, PlanHash(Planned(ds, order)))
  {
    hide LegalPlan, CanonicalOrder, PlanHash;
    assert ids == IdsOf(Planned(ds, order));
  }
}
