/** What a run records and why it stops, said of the bodies and the record alone. */
module RunMeaning {
  import opened Seqs
  import opened LedgerTypes
  import opened PlanRules
  import opened Execution
  import opened ExecutionProofs

  /** The requirements of position k were all provided by earlier receipts. */
  ghost predicate Met(stages: seq<Descriptor>, receipts: seq<Receipt>, k: nat)
    requires k < |stages| && k <= |receipts|
  {
    Satisfied(stages[k], Flatten(receipts[..k]))
  }

  /** The receipt of position k: what its body returned if it was entered, a neutral skip if not. */
  ghost predicate Reports(stages: seq<Descriptor>, bodies: seq<StageResult>, receipts: seq<Receipt>, k: nat)
    requires k < |receipts| <= |stages| == |bodies|
  {
    var d, body := stages[k], bodies[k];
    receipts[k] ==
      if Met(stages, receipts, k)
      then Receipt(d.id, k + 1, body.provided, ReceiptStatus(d, body.outcome), body.outcome, body.counters)
      else Receipt(d.id, k + 1, d.skipped, OptionalStageSkipped, SKIPPED, [])
  }

  /** c is the first of the capabilities cs that is not among held. */
  ghost predicate FirstOf(cs: seq<nat>, held: seq<nat>, c: nat) {
    exists i :: 0 <= i < |cs| && cs[i] == c && c !in held && forall j :: 0 <= j < i ==> cs[j] in held
  }

  /** What is wrong with a result, in the order it is looked at. */
  ghost predicate Blamed(d: Descriptor, r: StageResult, status: Status, c: nat) {
    var declared := Declared(d, r.outcome);
    if r.outcome > FAILED || |r.provided| > STAGE_CAPABILITY_CAPACITY || |r.counters| > PROOF_COUNTER_CAPACITY then
      status == ReceiptMismatch && c == NO_CAPABILITY
    else if !Within(r.provided, declared) then
      status == UndeclaredCapabilityProvided && FirstOf(r.provided, declared, c)
    else if |r.provided| != |declared| then status == ReceiptMismatch && c == NO_CAPABILITY
    else status == ReceiptMismatch && FirstOf(declared, r.provided, c)
  }

  /** An acceptable result of stage d. */
  ghost predicate Acceptable(d: Descriptor, r: StageResult) {
    && r.outcome <= FAILED && |r.counters| <= PROOF_COUNTER_CAPACITY
    && multiset(r.provided) == multiset(Declared(d, r.outcome))
  }

  /** Why a run with these receipts and calls stopped with this mark. */
  ghost predicate Explained(stages: seq<Descriptor>, bodies: seq<StageResult>, st: RunState)
    requires |st.receipts| <= |stages| == |bodies|
  {
    || StoppedUnmet(stages, st)
    || StoppedByResult(stages, bodies, st)
    || StoppedRequired(stages, st)
  }

  /** A required stage was reached without its requirements. */
  ghost predicate StoppedUnmet(stages: seq<Descriptor>, st: RunState) {
    var h := |st.receipts|;
    && h < |stages| && stages[h].required && !Met(stages, st.receipts, h) && h !in st.calls
    && st.mark.status == StageExecutedBeforeRequirements && st.mark.stage == stages[h].id
    && FirstOf(stages[h].requirements, Flatten(st.receipts), st.mark.capability)
  }

  /** A body was entered and what it returned is not acceptable. */
  ghost predicate StoppedByResult(stages: seq<Descriptor>, bodies: seq<StageResult>, st: RunState)
    requires |stages| == |bodies|
  {
    var h := |st.receipts|;
    && h < |stages| && Met(stages, st.receipts, h) && h in st.calls
    && !Acceptable(stages[h], bodies[h]) && st.mark.stage == stages[h].id
    && Blamed(stages[h], bodies[h], st.mark.status, st.mark.capability)
  }

  /** A required stage skipped itself or failed; its receipt is the last. */
  ghost predicate StoppedRequired(stages: seq<Descriptor>, st: RunState) {
    && 0 < |st.receipts| <= |stages|
    && var h := |st.receipts| - 1;
       && stages[h].required && st.receipts[h].outcome != RAN && h in st.calls
       && st.mark == Refusal(
            if st.receipts[h].outcome == SKIPPED then RequiredStageSkipped else RequiredStageFailed,
            stages[h].id, NO_CAPABILITY)
  }

  /** The whole of a run's record. */
  ghost predicate Meant(stages: seq<Descriptor>, bodies: seq<StageResult>, mark: Refusal, n: nat, st: RunState)
    requires n <= |stages| == |bodies|
  {
    && |st.receipts| <= n
    && (forall k: nat :: k < |st.receipts| ==> Reports(stages, bodies, st.receipts, k))
    && (forall k: nat :: k < |st.receipts| ==> (k in st.calls <==> Met(stages, st.receipts, k)))
    && (forall k :: k in st.calls ==> k < |st.receipts| || (st.halted && k == |st.receipts|))
    && (!st.halted ==> |st.receipts| == n && st.mark == mark)
    && (st.halted ==> Explained(stages, bodies, st))
  }

  // ----- the pieces -----

  lemma {:induction false} FirstMissingIsFirst(established: seq<nat>, requirements: seq<nat>, k: nat)
    requires k <= |requirements| && AllKnown(requirements)
    requires forall j :: 0 <= j < k ==> requirements[j] in established
    ensures var r := FirstMissing(established, requirements, k);
      r.Some? ==> FirstOf(requirements, established, r.value)
    decreases |requirements| - k
  {
    if k < |requirements| && HasCapability(established, requirements[k]) {
      FirstMissingIsFirst(established, requirements, k + 1);
    }
  }

  lemma {:induction false} FirstOutsideIsFirst(cs: seq<nat>, allowed: seq<nat>, k: nat)
    requires k <= |cs| && forall j :: 0 <= j < k ==> cs[j] in allowed
    ensures var r := FirstOutside(cs, allowed, k);
      if r.Some? then FirstOf(cs, allowed, r.value) && !Within(cs, allowed) else Within(cs, allowed)
    decreases |cs| - k
  {
    if k < |cs| && cs[k] in allowed { FirstOutsideIsFirst(cs, allowed, k + 1); }
  }

  /** The result check refuses exactly what is not acceptable, and says what is wrong first. */
  lemma CheckResultMeaning(d: Descriptor, r: StageResult)
    requires WellDeclared(d)
    ensures match CheckResult(d, r)
      case Accepted => Acceptable(d, r)
      case Rejected(status, c) => !Acceptable(d, r) && Blamed(d, r, status, c)
  {
    hide FirstOutside, WellDeclared;
    AcceptedExactly(d, r);
    FirstOutsideIsFirst(r.provided, Declared(d, r.outcome), 0);
    FirstOutsideIsFirst(Declared(d, r.outcome), r.provided, 0);
  }

  // ----- one stage -----

  /** Once a body has returned: an acceptable result is recorded as it is, and stops the run
      exactly when a required stage did not run; any other stops it unrecorded. */
  ghost predicate Settled(st: RunState, d: Descriptor, r: StageResult, next: RunState) {
    if Acceptable(d, r) then
      && next.receipts == st.receipts + [
           Receipt(d.id, |st.receipts| + 1, r.provided, ReceiptStatus(d, r.outcome), r.outcome, r.counters)]
      && next.calls == st.calls
      && (next.halted <==> d.required && r.outcome != RAN)
      && next.mark == if next.halted
           then Refusal(if r.outcome == SKIPPED then RequiredStageSkipped else RequiredStageFailed, d.id, NO_CAPABILITY)
           else st.mark
    else
      && next.receipts == st.receipts && next.calls == st.calls && next.halted
      && next.mark.stage == d.id && Blamed(d, r, next.mark.status, next.mark.capability)
  }

  lemma SettleMeaning(stages: seq<Descriptor>, st: RunState, r: StageResult)
    requires Runnable(stages) && Consistent(stages, st) && !st.halted && |st.receipts| < |stages|
    ensures Settled(st, stages[|st.receipts|], r, Settle(st, stages[|st.receipts|], r))
  {
    var d := stages[|st.receipts|];
    assert WellDeclared(d);
    hide Consistent, Runnable, WellDeclared, AppendReceipt, CheckResult, Blamed;
    CheckResultMeaning(d, r);
    if Acceptable(d, r) { AppendRecords(stages, st, r, ReceiptStatus(d, r.outcome)); }
  }

  /** One position of a run, in terms of its requirements and what its body returned. */
  ghost predicate Stepped(d: Descriptor, st: RunState, r: StageResult, next: RunState) {
    var n := |st.receipts|;
    if Satisfied(d, st.established) then Settled(st.(calls := st.calls + [n]), d, r, next)
    else if d.required then
      && next.receipts == st.receipts && next.calls == st.calls && next.halted
      && next.mark.status == StageExecutedBeforeRequirements && next.mark.stage == d.id
      && FirstOf(d.requirements, st.established, next.mark.capability)
    else
      && next.receipts == st.receipts + [Receipt(d.id, n + 1, d.skipped, OptionalStageSkipped, SKIPPED, [])]
      && next.calls == st.calls && !next.halted && next.mark == st.mark
  }

  lemma StageMeaning(stages: seq<Descriptor>, st: RunState, r: StageResult)
    requires Runnable(stages) && Consistent(stages, st) && !st.halted && |st.receipts| < |stages|
    ensures var n := |st.receipts|; Stepped(stages[n], st, r, ExecuteStage(st, stages[n], n, r))
  {
    var n := |st.receipts|;
    var d := stages[n];
    assert WellDeclared(d);
    hide Consistent, Runnable, WellDeclared, AppendReceipt, Settle, Settled, FirstMissing, Satisfied, FirstOf;
    EstablishedMeansSatisfied(stages, st, d);
    if Satisfied(d, st.established) {
      CallConsistent(stages, st);
      SettleMeaning(stages, st.(calls := st.calls + [n]), r);
    } else if d.required {
      MissingRequirement(d, st.established);
    } else {
      AppendRecords(stages, st, SkipResult(d), OptionalStageSkipped);
    }
  }

  lemma MissingRequirement(d: Descriptor, established: seq<nat>)
    requires WellDeclared(d)
    ensures var r := FirstMissing(established, d.requirements, 0);
      r.Some? ==> FirstOf(d.requirements, established, r.value)
  {
    FirstMissingIsFirst(established, d.requirements, 0);
  }

  // ----- whole runs -----

  /** A receipt added at the end does not change what the earlier ones say. */
  lemma ReportsStay(stages: seq<Descriptor>, bodies: seq<StageResult>, receipts: seq<Receipt>, r: Receipt, k: nat)
    requires k < |receipts| < |stages| == |bodies|
    ensures Met(stages, receipts + [r], k) <==> Met(stages, receipts, k)
    ensures Reports(stages, bodies, receipts + [r], k) <==> Reports(stages, bodies, receipts, k)
  {
    PrefixAppend(receipts, r, k);
  }

  lemma MetNow(stages: seq<Descriptor>, receipts: seq<Receipt>, more: seq<Receipt>)
    requires |receipts| < |stages|
    ensures Met(stages, receipts + more, |receipts|) <==> Satisfied(stages[|receipts|], Flatten(receipts))
  {
    assert (receipts + more)[..|receipts|] == receipts;
  }

  /** An entered stage whose result is acceptable. */
  lemma MeantRecorded(stages: seq<Descriptor>, bodies: seq<StageResult>, mark: Refusal, st: RunState, next: RunState)
    requires |stages| == |bodies| && |st.receipts| < |stages| && !st.halted
    requires Meant(stages, bodies, mark, |st.receipts|, st)
    requires |next.receipts| == |st.receipts| + 1 && next.receipts[..|st.receipts|] == st.receipts
    requires Reports(stages, bodies, next.receipts, |st.receipts|)
    requires next.calls == if Met(stages, next.receipts, |st.receipts|) then st.calls + [|st.receipts|] else st.calls
    requires if next.halted then StoppedRequired(stages, next) else next.mark == st.mark
    ensures Meant(stages, bodies, mark, |st.receipts| + 1, next)
  {
    hide Reports, Met, StoppedRequired;
    var n := |st.receipts|;
    assert next.receipts == st.receipts + [next.receipts[n]];
    forall k: nat | k < n
      ensures Reports(stages, bodies, next.receipts, k) && (k in next.calls <==> Met(stages, next.receipts, k))
    {
      ReportsStay(stages, bodies, st.receipts, next.receipts[n], k);
    }
  }

  lemma MeantStopped(stages: seq<Descriptor>, bodies: seq<StageResult>, mark: Refusal, st: RunState, next: RunState)
    requires |stages| == |bodies| && |st.receipts| < |stages| && !st.halted
    requires Meant(stages, bodies, mark, |st.receipts|, st)
    requires next.receipts == st.receipts && next.halted && Explained(stages, bodies, next)
    requires next.calls == st.calls || next.calls == st.calls + [|st.receipts|]
    ensures Meant(stages, bodies, mark, |st.receipts| + 1, next)
  {
    hide Reports, Met, Explained;
  }

  lemma MeantNext(stages: seq<Descriptor>, bodies: seq<StageResult>, mark: Refusal, st: RunState, next: RunState)
    requires Runnable(stages) && |stages| == |bodies| && |st.receipts| < |stages| && !st.halted
    requires st.established == Flatten(st.receipts) && Meant(stages, bodies, mark, |st.receipts|, st)
    requires Stepped(stages[|st.receipts|], st, bodies[|st.receipts|], next)
    ensures Meant(stages, bodies, mark, |st.receipts| + 1, next)
  {
    var n := |st.receipts|;
    var d, r := stages[n], bodies[n];
    assert n !in st.calls;
    assert next.receipts == st.receipts || next.receipts == st.receipts + [next.receipts[n]];
    MetNow(stages, st.receipts, next.receipts[n..]);
    assert next.receipts == st.receipts + next.receipts[n..];
    hide Runnable, Satisfied, Blamed, FirstOf, Meant, Flatten, Met;
    if |next.receipts| == n {
      MeantStopped(stages, bodies, mark, st, next);
    } else {
      MeantRecorded(stages, bodies, mark, st, next);
    }
  }

  /** What every run records: for each position reached, whether its body was entered and exactly
      what it returned; and if the run stopped, at which stage and why. */
  lemma {:induction false} RunMeant(stages: seq<Descriptor>, bodies: seq<StageResult>, mark: Refusal, n: nat)
    requires Runnable(stages) && n <= |stages| == |bodies|
    ensures Meant(stages, bodies, mark, n, Run(stages, IdsOf(stages), bodies, mark, n))
    decreases n
  {
    hide Run, ExecuteStage, Consistent, Runnable, Stepped, Explained, Reports, Met;
    if n == 0 {
      RunStart(stages, IdsOf(stages), bodies, mark);
    } else {
      RunMeant(stages, bodies, mark, n - 1);
      RunConsistent(stages, bodies, mark, n - 1);
      var st := Run(stages, IdsOf(stages), bodies, mark, n - 1);
      if st.halted {
        RunStopped(stages, IdsOf(stages), bodies, mark, n - 1, n);
      } else {
        NextStage(stages, bodies, mark, n - 1);
        StageMeaning(stages, st, bodies[n - 1]);
        EstablishedIsFlattened(stages, st);
        MeantNext(stages, bodies, mark, st, Run(stages, IdsOf(stages), bodies, mark, n));
      }
    }
  }

  lemma EstablishedIsFlattened(stages: seq<Descriptor>, st: RunState)
    requires Consistent(stages, st)
    ensures st.established == Flatten(st.receipts)
  {
  }

  // ----- one receipt, in any state at all -----

  /** What was established, then each new capability once, as far as there is room for 57. */
  ghost predicate Joined(established: seq<nat>, provided: seq<nat>, e: Establishing) {
    && established <= e.established
    && (forall c :: c in e.established ==> c in established || c in provided)
    && (Distinct(established) && AllKnown(provided) ==> Distinct(e.established))
    && (e.overflow.None? ==> Within(provided, e.established))
    && (|established| <= 57 ==> |e.established| <= 57)
    && (e.overflow.Some? ==>
          |e.established| >= 57 && e.overflow.value in provided && !HasCapability(e.established, e.overflow.value))
  }

  lemma {:induction false} EstablishJoins(established: seq<nat>, provided: seq<nat>, k: nat)
    requires k <= |provided|
    ensures Joined(established, provided[k..], Establish(established, provided, k))
    decreases |provided| - k
  {
    if k < |provided| {
      var c, rest := provided[k], provided[k + 1..];
      assert provided[k..] == [c] + rest;
      var next := if HasCapability(established, c) then established else established + [c];
      if HasCapability(established, c) || |established| < CAPABILITY_COUNT {
        EstablishJoins(next, provided, k + 1);
        JoinedStep(established, next, c, rest, Establish(established, provided, k));
      }
    }
  }

  lemma JoinedStep(established: seq<nat>, next: seq<nat>, c: nat, rest: seq<nat>, e: Establishing)
    requires next == if HasCapability(established, c) then established else established + [c]
    requires |established| < CAPABILITY_COUNT || next == established
    requires Joined(next, rest, e)
    ensures Joined(established, [c] + rest, e)
  {
    var all := [c] + rest;
    assert forall x :: x in all <==> x == c || x in rest;
    if AllKnown(all) {
      assert all[0] == c;
      forall i | 0 <= i < |rest| ensures CapabilityIsKnown(rest[i]) { assert rest[i] == all[i + 1]; }
    }
    assert c in next;
    assert next[..|established|] == established;
  }

  /** A receipt is refused for want of room exactly when 43 stand already, or when a capability
      would be the 58th; otherwise it is the next one, and what it provides is established. */
  lemma AppendMeaning(st: RunState, d: Descriptor, r: StageResult, status: Status)
    requires !st.halted
    ensures var next := AppendReceipt(st, d, r, status);
      if |st.receipts| >= 43 then next == st.(mark := Refusal(TooManyReceipts, d.id, 0), halted := true)
      else if next.halted then
        && next.receipts == st.receipts && next.mark.status == ReceiptMismatch && next.mark.stage == d.id
        && Joined(st.established, r.provided, Establishing(next.established, Some(next.mark.capability)))
      else
        && next.mark == st.mark
        && next.receipts == st.receipts + [Receipt(d.id, |st.receipts| + 1, r.provided, status, r.outcome, r.counters)]
        && Joined(st.established, r.provided, Establishing(next.established, None))
  {
    hide Joined, Establish;
    EstablishJoins(st.established, r.provided, 0);
    assert r.provided[0..] == r.provided;
  }
}
