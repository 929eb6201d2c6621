/** Executing a validated plan, as a function of what the stage bodies return.
    Bodies are an oracle: bodies[k] is whatever the k-th planned stage would hand
    back if it were called, malformed results included. */
module Execution {
  import opened Seqs
  import opened LedgerTypes

  /** `mark` is the ledger's last recorded refusal, `calls` the plan positions
      whose body was entered, `halted` whether execution has stopped. */
  datatype RunState = RunState(
    receipts: seq<Receipt>,
    established: seq<nat>,
    executedCount: nat,
    optionalSkipCount: nat,
    degraded: bool,
    calls: seq<nat>,
    mark: Refusal,
    halted: bool)

  function Fresh(mark: Refusal): RunState {
    RunState([], [], 0, 0, false, [], mark, false)
  }

  predicate HasCapability(established: seq<nat>, c: nat) {
    CapabilityIsKnown(c) && c in established
  }

  /** The first requirement from k on that is not established, if any. */
  function FirstMissing(established: seq<nat>, requirements: seq<nat>, k: nat): Option<nat>
    requires k <= |requirements|
    decreases |requirements| - k
  {
    if k == |requirements| then None
    else if !HasCapability(established, requirements[k]) then Some(requirements[k])
    else FirstMissing(established, requirements, k + 1)
  }

  function SkipResult(d: Descriptor): StageResult {
    StageResult(SKIPPED, d.skipped, [])
  }

  function SuccessResult(d: Descriptor): StageResult {
    StageResult(RAN, d.provided, [])
  }

  /** The capabilities an outcome must provide, exactly. */
  function Declared(d: Descriptor, outcome: nat): seq<nat> {
    if outcome == RAN then d.provided else if outcome == SKIPPED then d.skipped else []
  }

  /** The first element of cs, from k on, that is not in allowed. */
  function FirstOutside(cs: seq<nat>, allowed: seq<nat>, k: nat): Option<nat>
    requires k <= |cs|
    decreases |cs| - k
  {
    if k == |cs| then None
    else if cs[k] !in allowed then Some(cs[k])
    else FirstOutside(cs, allowed, k + 1)
  }

  datatype ResultCheck = Accepted | Rejected(status: Status, capability: nat)

  function CheckResult(d: Descriptor, r: StageResult): ResultCheck {
    var declared := Declared(d, r.outcome);
    if r.outcome > FAILED then Rejected(ReceiptMismatch, NO_CAPABILITY)
    else if |r.provided| > STAGE_CAPABILITY_CAPACITY || |r.counters| > PROOF_COUNTER_CAPACITY then
      Rejected(ReceiptMismatch, NO_CAPABILITY)
    else match FirstOutside(r.provided, declared, 0)
      case Some(c) => Rejected(UndeclaredCapabilityProvided, c)
      case None =>
        if |r.provided| != |declared| then Rejected(ReceiptMismatch, NO_CAPABILITY)
        else match FirstOutside(declared, r.provided, 0)
          case Some(c) => Rejected(ReceiptMismatch, c)
          case None => Accepted
  }

  datatype Establishing = Establishing(established: seq<nat>, overflow: Option<nat>)

  /** Add the capabilities from position k on, in order, once each, within capacity. */
  function Establish(established: seq<nat>, provided: seq<nat>, k: nat): Establishing
    requires k <= |provided|
    decreases |provided| - k
  {
    if k == |provided| then Establishing(established, None)
    else if HasCapability(established, provided[k]) then Establish(established, provided, k + 1)
    else if |established| >= CAPABILITY_COUNT then Establishing(established, Some(provided[k]))
    else Establish(established + [provided[k]], provided, k + 1)
  }

  function AppendReceipt(st: RunState, d: Descriptor, r: StageResult, status: Status): RunState {
    if |st.receipts| >= RECEIPT_CAPACITY then
      st.(mark := Refusal(TooManyReceipts, d.id, NO_CAPABILITY), halted := true)
    else
      var e := Establish(st.established, r.provided, 0);
      if e.overflow.Some? then
        st.(established := e.established,
            mark := Refusal(ReceiptMismatch, d.id, e.overflow.value), halted := true)
      else
        var neutral := r.outcome == SKIPPED && d.skipPreservesHealth;
        st.(receipts := st.receipts
              + [Receipt(d.id, |st.receipts| + 1, r.provided, status, r.outcome, r.counters)],
            established := e.established,
            executedCount := if r.outcome != SKIPPED then st.executedCount + 1 else st.executedCount,
            optionalSkipCount := if r.outcome == SKIPPED then st.optionalSkipCount + 1 else st.optionalSkipCount,
            degraded := st.degraded || (r.outcome != RAN && !neutral))
  }

  function Halt(st: RunState, refusal: Refusal): RunState {
    st.(mark := refusal, halted := true)
  }

  /** What happens once a body has returned. */
  function Settle(st: RunState, d: Descriptor, r: StageResult): RunState {
    match CheckResult(d, r)
    case Rejected(status, c) => Halt(st, Refusal(status, d.id, c))
    case Accepted =>
      if r.outcome == SKIPPED && d.required then
        Halt(AppendReceipt(st, d, r, RequiredStageSkipped), Refusal(RequiredStageSkipped, d.id, NO_CAPABILITY))
      else if r.outcome == FAILED && d.required then
        Halt(AppendReceipt(st, d, r, RequiredStageFailed), Refusal(RequiredStageFailed, d.id, NO_CAPABILITY))
      else if r.outcome == FAILED then
        AppendReceipt(st, d, r, OptionalStageFailed).(degraded := true, halted := false)
      else
        AppendReceipt(st, d, r, if r.outcome == SKIPPED then OptionalStageSkipped else Ok)
  }

  function ExecuteStage(st: RunState, d: Descriptor, position: nat, r: StageResult): RunState {
    match FirstMissing(st.established, d.requirements, 0)
    case Some(missing) =>
      if d.required then Halt(st, Refusal(StageExecutedBeforeRequirements, d.id, missing))
      else AppendReceipt(st, d, SkipResult(d), OptionalStageSkipped)
    case None => Settle(st.(calls := st.calls + [position]), d, r)
  }

  /** One position of a run: the installed stage must still be the validated one. */
  function AfterStage(st: RunState, d: Descriptor, id: nat, k: nat, body: StageResult): RunState {
    if d.id != id then Halt(st, Refusal(InstalledPlanDiffersValidatedPlan, d.id, NO_CAPABILITY))
    else ExecuteStage(st, d, k, body)
  }

  /** The state after the first n planned stages. ids is the sequence validation recorded. */
  function Run(stages: seq<Descriptor>, ids: seq<nat>, bodies: seq<StageResult>, mark: Refusal, n: nat): RunState
    requires n <= |stages| == |ids| == |bodies|
    decreases n
  {
    if n == 0 then Fresh(mark)
    else
      var st := Run(stages, ids, bodies, mark, n - 1);
      if st.halted then st else AfterStage(st, stages[n - 1], ids[n - 1], n - 1, bodies[n - 1])
  }
}
