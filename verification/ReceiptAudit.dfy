/** The installed-state verifier: it re-derives the legality of a run from the
    receipts alone, and is proved to accept exactly the records execution can
    produce. */
module ReceiptAudit {
  import opened Seqs
  import opened LedgerTypes
  import opened PlanRules
  import opened Execution
  import opened ExecutionProofs

  // ----- refusals, in reporting order -----

  predicate BadShape(r: Receipt) {
    || |r.provided| > STAGE_CAPABILITY_CAPACITY
    || |r.counters| > PROOF_COUNTER_CAPACITY
    || (r.outcome == RAN && r.status != Ok)
    || (r.outcome == SKIPPED && r.status != OptionalStageSkipped)
    || (r.outcome == FAILED && r.status != OptionalStageFailed)
    || r.outcome > FAILED
  }

  predicate SeenBefore(receipts: seq<Receipt>, k: nat)
    requires k < |receipts|
  {
    exists j :: 0 <= j < k && receipts[j].stage == receipts[k].stage
  }

  /** The first fault among capabilities p.. of a receipt, given those already counted. */
  function ProvidedFault(id: nat, declared: seq<nat>, provided: seq<nat>, caps: seq<nat>, p: nat): Option<Fault>
    requires p <= |provided|
    decreases |provided| - p
  {
    if p == |provided| then None
    else
      var c := provided[p];
      if !CapabilityIsKnown(c) then Some(Refusal(UnknownCapability, id, c))
      else if c !in declared then Some(Refusal(UndeclaredCapabilityProvided, id, c))
      else if c in provided[..p] then Some(Refusal(ReceiptMismatch, id, c))
      else if c in caps + provided[..p] then Some(Refusal(DuplicateCapabilityProvider, id, c))
      else if |caps| + p >= CAPABILITY_COUNT then Some(Refusal(ReceiptMismatch, id, c))
      else ProvidedFault(id, declared, provided, caps, p + 1)
  }

  /** What is wrong with the capabilities of a receipt. */
  function ContentFault(d: Descriptor, r: Receipt, caps: seq<nat>): Option<Fault> {
    var declared := Declared(d, r.outcome);
    if |r.provided| != |declared| then Some(Refusal(ReceiptMismatch, d.id, NO_CAPABILITY))
    else
      Either(ProvidedFault(d.id, declared, r.provided, caps, 0),
             match FirstOutside(declared, r.provided, 0)
             case Some(c) => Some(Refusal(ReceiptMismatch, d.id, c))
             case None => None)
  }

  function RequirementGap(d: Descriptor, r: Receipt, caps: seq<nat>): Option<Fault> {
    if r.outcome == SKIPPED then None
    else match FirstOutside(d.requirements, caps, 0)
      case Some(c) => Some(Refusal(StageExecutedBeforeRequirements, d.id, c))
      case None => None
  }

  /** What is wrong with receipt k, planned for stage `at`, once caps have been counted. */
  function ReceiptFault(at: Option<Descriptor>, receipts: seq<Receipt>, k: nat, caps: seq<nat>): Option<Fault>
    requires k < |receipts|
  {
    var r := receipts[k];
    if !StageIsKnown(r.stage) then Some(Refusal(UnknownStageIdentifier, r.stage, NO_CAPABILITY))
    else if at.None? || r.stage != at.value.id || r.sequence != k + 1 || SeenBefore(receipts, k) then
      Some(Refusal(InstalledPlanDiffersValidatedPlan, r.stage, NO_CAPABILITY))
    else
      var d := at.value;
      if BadShape(r) then Some(Refusal(ReceiptMismatch, d.id, NO_CAPABILITY))
      else if d.required && (r.outcome != RAN || r.status != Ok) then
        Some(Refusal(ReceiptMismatch, d.id, NO_CAPABILITY))
      else Either(RequirementGap(d, r, caps), ContentFault(d, r, caps))
  }

  /** The first counted capability, from k on, the ledger does not hold. */
  function FirstUnheld(caps: seq<nat>, established: seq<nat>, k: nat): Option<nat>
    requires k <= |caps|
    decreases |caps| - k
  {
    if k == |caps| then None
    else if !HasCapability(established, caps[k]) then Some(caps[k])
    else FirstUnheld(caps, established, k + 1)
  }

  function TotalFault(caps: seq<nat>, established: seq<nat>): Option<Fault> {
    if |caps| != |established| then Some(Refusal(ReceiptMismatch, NO_STAGE, NO_CAPABILITY))
    else match FirstUnheld(caps, established, 0)
      case Some(c) => Some(Refusal(ReceiptMismatch, NO_STAGE, c))
      case None => None
  }

  function AuditFrom(planned: seq<Option<Descriptor>>, receipts: seq<Receipt>, established: seq<nat>, k: nat)
    : Option<Fault>
    requires k <= |receipts| == |planned|
    decreases |receipts| - k
  {
    if k == |receipts| then TotalFault(Flatten(receipts), established)
    else Either(ReceiptFault(planned[k], receipts, k, Flatten(receipts[..k])),
                AuditFrom(planned, receipts, established, k + 1))
  }

  /** The verifier's answer: None when it accepts. */
  function Audit(planned: seq<Option<Descriptor>>, receipts: seq<Receipt>, established: seq<nat>): Option<Fault> {
    if |receipts| != |planned| then Some(Refusal(ReceiptMismatch, NO_STAGE, NO_CAPABILITY))
    else AuditFrom(planned, receipts, established, 0)
  }

  function Present(stages: seq<Descriptor>): (r: seq<Option<Descriptor>>)
    ensures |r| == |stages|
  {
    seq(|stages|, k requires 0 <= k < |stages| => Some(stages[k]))
  }

  // ----- what acceptance means -----

  /** A complete, legal record of running all the stages. */
  ghost predicate LegalRecord(stages: seq<Descriptor>, receipts: seq<Receipt>) {
    && |receipts| == |stages|
    && HonestReceipts(stages, receipts)
    && Ordered(stages, receipts)
    && forall i: nat :: i < |receipts| && stages[i].required ==> receipts[i].outcome == RAN
  }

  /** Receipt k alone is legal after the first k. */
  ghost predicate LegalAt(stages: seq<Descriptor>, receipts: seq<Receipt>, k: nat)
    requires k < |receipts| == |stages|
  {
    && Honest(stages[k], receipts[k], k)
    && (receipts[k].outcome != SKIPPED ==> Satisfied(stages[k], Flatten(receipts[..k])))
    && (stages[k].required ==> receipts[k].outcome == RAN)
  }

  /** Capability m of a receipt is known, declared and new, and there is room for it. */
  ghost predicate ProvidedAt(declared: seq<nat>, provided: seq<nat>, caps: seq<nat>, m: nat)
    requires m < |provided|
  {
    && CapabilityIsKnown(provided[m]) && provided[m] in declared
    && provided[m] !in provided[..m] && provided[m] !in caps
    && |caps| + m < CAPABILITY_COUNT
  }

  lemma ProvidedFaultNext(id: nat, declared: seq<nat>, provided: seq<nat>, caps: seq<nat>, p: nat)
    requires p < |provided|
    ensures ProvidedFault(id, declared, provided, caps, p).None? <==>
      ProvidedAt(declared, provided, caps, p) && ProvidedFault(id, declared, provided, caps, p + 1).None?
  {
    var c := provided[p];
    assert c in caps + provided[..p] <==> c in caps || c in provided[..p];
  }

  lemma {:induction false} ProvidedFaultMeaning(
    id: nat, declared: seq<nat>, provided: seq<nat>, caps: seq<nat>, p: nat)
    requires p <= |provided|
    ensures ProvidedFault(id, declared, provided, caps, p).None? <==>
      forall m: nat :: p <= m < |provided| ==> ProvidedAt(declared, provided, caps, m)
    decreases |provided| - p
  {
    hide ProvidedAt;
    if p < |provided| {
      ProvidedFaultMeaning(id, declared, provided, caps, p + 1);
      ProvidedFaultNext(id, declared, provided, caps, p);
    }
  }

  lemma {:induction false} FirstUnheldMeaning(caps: seq<nat>, established: seq<nat>, k: nat)
    requires k <= |caps|
    ensures FirstUnheld(caps, established, k).None? <==>
      forall m :: k <= m < |caps| ==> HasCapability(established, caps[m])
    decreases |caps| - k
  {
    if k < |caps| { FirstUnheldMeaning(caps, established, k + 1); }
  }

  /** No content fault means the declared capabilities exactly. */
  lemma ContentSound(d: Descriptor, r: Receipt, caps: seq<nat>)
    requires WellDeclared(d) && ContentFault(d, r, caps).None?
    ensures multiset(r.provided) == multiset(Declared(d, r.outcome))
  {
    var declared := Declared(d, r.outcome);
    ProvidedFaultMeaning(d.id, declared, r.provided, caps, 0);
    forall m: nat | m < |r.provided|
      ensures r.provided[m] in declared && r.provided[m] !in r.provided[..m]
    {
      assert ProvidedAt(declared, r.provided, caps, m);
    }
    forall a, b | 0 <= a < b < |r.provided| ensures r.provided[a] != r.provided[b] {
      assert r.provided[..b][a] == r.provided[a];
    }
    DistinctCover(r.provided, declared);
  }

  lemma ContentComplete(d: Descriptor, r: Receipt, caps: seq<nat>)
    requires WellDeclared(d) && multiset(r.provided) == multiset(Declared(d, r.outcome))
    requires Distinct(caps + r.provided) && AllKnown(caps + r.provided)
    ensures ContentFault(d, r, caps).None?
  {
    var declared := Declared(d, r.outcome);
    SameContents(r.provided, declared);
    FirstOutsideMeaning(declared, r.provided, 0);
    ProvidedFaultMeaning(d.id, declared, r.provided, caps, 0);
    var whole := caps + r.provided;
    DistinctBound(whole, CAPABILITY_COUNT);
    forall m | 0 <= m < |r.provided|
      ensures CapabilityIsKnown(r.provided[m]) && r.provided[m] !in r.provided[..m] && r.provided[m] !in caps
    {
      assert whole[|caps| + m] == r.provided[m];
      forall a | 0 <= a < m ensures r.provided[a] != r.provided[m] {
        assert whole[|caps| + a] == r.provided[a];
      }
      if r.provided[m] in caps { DisjointHalves(caps, r.provided, r.provided[m]); }
    }
  }

  /** A state whose receipts are the first k of an honest record. */
  function Snapshot(receipts: seq<Receipt>, degraded: bool): RunState {
    RunState(receipts, Flatten(receipts), |receipts| - Skips(receipts), Skips(receipts), degraded, [],
      Refusal(Ok, NO_STAGE, NO_CAPABILITY), false)
  }

  lemma {:induction false} HonestFlattenDistinct(stages: seq<Descriptor>, receipts: seq<Receipt>)
    requires Runnable(stages) && HonestReceipts(stages, receipts) && Ordered(stages, receipts)
    ensures Distinct(Flatten(receipts)) && AllKnown(Flatten(receipts))
    decreases |receipts|
  {
    if receipts != [] {
      var n := |receipts| - 1;
      var before := receipts[..n];
      forall i: nat | i < n ensures before[..i] == receipts[..i] {}
      HonestFlattenDistinct(stages, before);
      assert Honest(stages[n], receipts[n], n);
      NewlyProvided(stages, Snapshot(before, Degrading(stages, before)), receipts[n].outcome, receipts[n].provided);
    }
  }

  lemma NotSeenBefore(stages: seq<Descriptor>, receipts: seq<Receipt>, k: nat)
    requires Runnable(stages) && k < |receipts| == |stages|
    requires HonestReceipts(stages, receipts[..k]) && receipts[k].stage == stages[k].id
    ensures !SeenBefore(receipts, k)
  {
    forall j | 0 <= j < k ensures receipts[j].stage != receipts[k].stage {
      assert Honest(stages[j], receipts[..k][j], j);
    }
  }

  lemma ReceiptSound(stages: seq<Descriptor>, receipts: seq<Receipt>, k: nat)
    requires Runnable(stages) && k < |receipts| == |stages|
    requires ReceiptFault(Some(stages[k]), receipts, k, Flatten(receipts[..k])).None?
    ensures LegalAt(stages, receipts, k)
  {
    var d, r, caps := stages[k], receipts[k], Flatten(receipts[..k]);
    FirstOutsideMeaning(d.requirements, caps, 0);
    ContentSound(d, r, caps);
  }

  lemma LegalContent(stages: seq<Descriptor>, receipts: seq<Receipt>, k: nat)
    requires Runnable(stages) && k < |receipts| == |stages|
    requires HonestReceipts(stages, receipts[..k]) && Ordered(stages, receipts[..k])
    requires LegalAt(stages, receipts, k)
    ensures ContentFault(stages[k], receipts[k], Flatten(receipts[..k])).None?
    ensures |receipts[k].provided| <= STAGE_CAPABILITY_CAPACITY
  {
    var before, r := receipts[..k], receipts[k];
    HonestFlattenDistinct(stages, before);
    NewlyProvided(stages, Snapshot(before, Degrading(stages, before)), r.outcome, r.provided);
    DeclaredFacts(stages[k], r.outcome, r.provided);
    ContentComplete(stages[k], r, Flatten(before));
  }

  /** One receipt passes exactly when it is legal after the ones before it. */
  lemma ReceiptFaultMeaning(stages: seq<Descriptor>, receipts: seq<Receipt>, k: nat)
    requires Runnable(stages) && k < |receipts| == |stages|
    requires HonestReceipts(stages, receipts[..k]) && Ordered(stages, receipts[..k])
    ensures ReceiptFault(Some(stages[k]), receipts, k, Flatten(receipts[..k])).None? <==> LegalAt(stages, receipts, k)
  {
    var d, caps := stages[k], Flatten(receipts[..k]);
    hide ContentFault, Runnable;
    if ReceiptFault(Some(d), receipts, k, caps).None? {
      ReceiptSound(stages, receipts, k);
    }
    if LegalAt(stages, receipts, k) {
      NotSeenBefore(stages, receipts, k);
      LegalContent(stages, receipts, k);
      FirstOutsideMeaning(d.requirements, caps, 0);
    }
  }

  /** The established list holds exactly the counted capabilities. */
  lemma TotalFaultMeaning(caps: seq<nat>, established: seq<nat>)
    requires Distinct(caps) && AllKnown(caps)
    ensures TotalFault(caps, established).None? <==> multiset(established) == multiset(caps)
  {
    FirstUnheldMeaning(caps, established, 0);
    if TotalFault(caps, established).None? {
      DistinctCover(caps, established);
    }
    if multiset(established) == multiset(caps) {
      SameContents(caps, established);
    }
  }

  lemma LegalPrefix(stages: seq<Descriptor>, receipts: seq<Receipt>, k: nat)
    requires k <= |receipts| == |stages|
    requires forall i: nat :: i < k ==> LegalAt(stages, receipts, i)
    ensures HonestReceipts(stages, receipts[..k]) && Ordered(stages, receipts[..k])
  {
    var before := receipts[..k];
    forall i: nat | i < k ensures Honest(stages[i], before[i], i) {
      assert LegalAt(stages, receipts, i);
    }
    forall i: nat | i < k && before[i].outcome != SKIPPED ensures Satisfied(stages[i], Flatten(before[..i])) {
      assert LegalAt(stages, receipts, i);
      assert before[..i] == receipts[..i];
    }
  }

  lemma {:induction false} AuditFromMeaning(
    stages: seq<Descriptor>, receipts: seq<Receipt>, established: seq<nat>, k: nat)
    requires Runnable(stages) && k <= |receipts| == |stages|
    requires forall i: nat :: i < k ==> LegalAt(stages, receipts, i)
    ensures AuditFrom(Present(stages), receipts, established, k).None? <==>
      && (forall i: nat :: k <= i < |receipts| ==> LegalAt(stages, receipts, i))
      && multiset(established) == multiset(Flatten(receipts))
    decreases |receipts| - k
  {
    LegalPrefix(stages, receipts, k);
    if k == |receipts| {
      assert receipts[..k] == receipts;
      HonestFlattenDistinct(stages, receipts);
      TotalFaultMeaning(Flatten(receipts), established);
    } else {
      ReceiptFaultMeaning(stages, receipts, k);
      if LegalAt(stages, receipts, k) {
        AuditFromMeaning(stages, receipts, established, k + 1);
      }
    }
  }

  /** The verifier accepts exactly the legal complete records whose capabilities
      are, counted with multiplicity, the established ones. */
  lemma AuditExact(stages: seq<Descriptor>, receipts: seq<Receipt>, established: seq<nat>)
    requires Runnable(stages)
    ensures Audit(Present(stages), receipts, established).None? <==>
      LegalRecord(stages, receipts) && multiset(established) == multiset(Flatten(receipts))
  {
    if |receipts| == |stages| {
      AuditFromMeaning(stages, receipts, established, 0);
      if LegalRecord(stages, receipts) {
        forall i: nat | i < |receipts| ensures LegalAt(stages, receipts, i) {}
      }
      if forall i: nat :: 0 <= i < |receipts| ==> LegalAt(stages, receipts, i) {
        LegalPrefix(stages, receipts, |receipts|);
        assert receipts[..|receipts|] == receipts;
        forall i: nat | i < |receipts| && stages[i].required ensures receipts[i].outcome == RAN {
          assert LegalAt(stages, receipts, i);
        }
      }
    }
  }

  // ----- executor and verifier agree -----

  /** Whatever the bodies do, a run that completes is accepted. */
  lemma ExecutionIsAccepted(stages: seq<Descriptor>, bodies: seq<StageResult>, mark: Refusal)
    requires Runnable(stages) && |bodies| == |stages|
    ensures var st := Run(stages, IdsOf(stages), bodies, mark, |stages|);
      !st.halted ==> Audit(Present(stages), st.receipts, st.established).None?
  {
    RunConsistent(stages, bodies, mark, |stages|);
    var st := Run(stages, IdsOf(stages), bodies, mark, |stages|);
    AuditExact(stages, st.receipts, st.established);
  }

  /** Equal up to the order of capabilities and the proof counters. */
  ghost predicate SameRecord(a: Receipt, b: Receipt) {
    && a.stage == b.stage && a.sequence == b.sequence && a.status == b.status && a.outcome == b.outcome
    && multiset(a.provided) == multiset(b.provided)
  }

  ghost predicate SameRecords(a: seq<Receipt>, b: seq<Receipt>) {
    |a| == |b| && forall i :: 0 <= i < |a| ==> SameRecord(a[i], b[i])
  }

  /** Stage bodies that return what the receipts say. */
  function Replay(receipts: seq<Receipt>): (r: seq<StageResult>)
    ensures |r| == |receipts|
  {
    seq(|receipts|, k requires 0 <= k < |receipts| =>
      StageResult(receipts[k].outcome, receipts[k].provided, receipts[k].counters))
  }

  lemma {:induction false} SameRecordsFlatten(a: seq<Receipt>, b: seq<Receipt>)
    requires SameRecords(a, b)
    ensures multiset(Flatten(a)) == multiset(Flatten(b))
    decreases |a|
  {
    if a != [] {
      var n := |a| - 1;
      SameRecordsFlatten(a[..n], b[..n]);
      assert SameRecord(a[n], b[n]);
    }
  }

  lemma SameSatisfied(d: Descriptor, a: seq<nat>, b: seq<nat>)
    requires multiset(a) == multiset(b)
    ensures Satisfied(d, a) <==> Satisfied(d, b)
  {
    SameContents(a, b);
  }

  lemma SameRecordsExtend(a: seq<Receipt>, b: seq<Receipt>, x: Receipt)
    requires |a| < |b| && SameRecords(a, b[..|a|]) && SameRecord(x, b[|a|])
    ensures SameRecords(a + [x], b[..|a| + 1])
  {
  }

  /** A body that returns what an honest, permitted receipt says earns that receipt. */
  lemma ReplayCalled(stages: seq<Descriptor>, st: RunState, r: Receipt)
    requires Runnable(stages) && Consistent(stages, st) && !st.halted && |st.receipts| < |stages|
    requires Honest(stages[|st.receipts|], r, |st.receipts|)
    requires stages[|st.receipts|].required ==> r.outcome == RAN
    ensures var next := Settle(st, stages[|st.receipts|], StageResult(r.outcome, r.provided, r.counters));
      !next.halted && next.receipts == st.receipts + [r]
  {
    var d := stages[|st.receipts|];
    var body := StageResult(r.outcome, r.provided, r.counters);
    AcceptedExactly(d, body);
    AppendRecords(stages, st, body, ReceiptStatus(d, r.outcome));
  }

  /** Replaying one legal receipt reproduces it. */
  lemma ReplayStep(stages: seq<Descriptor>, receipts: seq<Receipt>, st: RunState)
    requires Runnable(stages) && LegalRecord(stages, receipts)
    requires Consistent(stages, st) && !st.halted && |st.receipts| < |stages|
    requires SameRecords(st.receipts, receipts[..|st.receipts|])
    ensures var n := |st.receipts|;
      var next := ExecuteStage(st, stages[n], n, Replay(receipts)[n]);
      !next.halted && |next.receipts| == n + 1 && SameRecords(next.receipts, receipts[..n + 1])
  {
    hide Settle, AppendReceipt, FirstMissing, Satisfied, Flatten, Honest;
    var n := |st.receipts|;
    var d, r := stages[n], receipts[n];
    assert Honest(d, r, n);
    SameRecordsFlatten(st.receipts, receipts[..n]);
    SameSatisfied(d, st.established, Flatten(receipts[..n]));
    EstablishedMeansSatisfied(stages, st, d);
    if Satisfied(d, st.established) {
      CallConsistent(stages, st);
      ReplayCalled(stages, st.(calls := st.calls + [n]), r);
      SameRecordsExtend(st.receipts, receipts, r);
    } else {
      ReplaySkipped(stages, receipts, st);
    }
  }

  /** A legal receipt of a stage whose requirements are not met is the skip the executor records. */
  lemma ReplaySkipped(stages: seq<Descriptor>, receipts: seq<Receipt>, st: RunState)
    requires Runnable(stages) && Consistent(stages, st) && !st.halted
    requires |st.receipts| < |stages| == |receipts| && SameRecords(st.receipts, receipts[..|st.receipts|])
    requires var n := |st.receipts|;
      Honest(stages[n], receipts[n], n) && receipts[n].outcome == SKIPPED && !stages[n].required
    ensures var n := |st.receipts|;
      var next := AppendReceipt(st, stages[n], SkipResult(stages[n]), OptionalStageSkipped);
      !next.halted && |next.receipts| == n + 1 && SameRecords(next.receipts, receipts[..n + 1])
  {
    hide AppendReceipt, Runnable, Consistent;
    var n := |st.receipts|;
    var d := stages[n];
    AppendRecords(stages, st, SkipResult(d), OptionalStageSkipped);
    SameRecordsExtend(st.receipts, receipts,
      Receipt(d.id, n + 1, d.skipped, OptionalStageSkipped, SKIPPED, []));
  }

  lemma ReplayAdvance(stages: seq<Descriptor>, receipts: seq<Receipt>, mark: Refusal, n: nat)
    requires Runnable(stages) && LegalRecord(stages, receipts) && n < |stages| == |receipts|
    requires var st := Run(stages, IdsOf(stages), Replay(receipts), mark, n);
      !st.halted && |st.receipts| == n && SameRecords(st.receipts, receipts[..n])
    ensures var st := Run(stages, IdsOf(stages), Replay(receipts), mark, n + 1);
      !st.halted && |st.receipts| == n + 1 && SameRecords(st.receipts, receipts[..n + 1])
  {
    hide *;
    NextStage(stages, Replay(receipts), mark, n);
    RunConsistent(stages, Replay(receipts), mark, n);
    ReplayStep(stages, receipts, Run(stages, IdsOf(stages), Replay(receipts), mark, n));
  }

  lemma {:induction false} ReplayReproduces(
    stages: seq<Descriptor>, receipts: seq<Receipt>, mark: Refusal, n: nat)
    requires Runnable(stages) && LegalRecord(stages, receipts) && n <= |stages| == |receipts|
    ensures var st := Run(stages, IdsOf(stages), Replay(receipts), mark, n);
      !st.halted && |st.receipts| == n && SameRecords(st.receipts, receipts[..n])
    decreases n
  {
    hide Run, Runnable, LegalRecord;
    if n == 0 {
      RunStart(stages, IdsOf(stages), Replay(receipts), mark);
    } else {
      ReplayReproduces(stages, receipts, mark, n - 1);
      ReplayAdvance(stages, receipts, mark, n - 1);
    }
  }

  /** Verifier soundness: every accepted record is the outcome of executing the
      plan with some bodies, and the established list is what that run establishes. */
  lemma AcceptedIsExecution(stages: seq<Descriptor>, receipts: seq<Receipt>, established: seq<nat>, mark: Refusal)
    requires Runnable(stages)
    requires Audit(Present(stages), receipts, established).None?
    ensures |receipts| == |stages|
    ensures var st := Run(stages, IdsOf(stages), Replay(receipts), mark, |stages|);
      && !st.halted
      && SameRecords(st.receipts, receipts)
      && multiset(st.established) == multiset(established)
  {
    hide Run, Audit, Runnable, Honest, Ordered;
    AuditExact(stages, receipts, established);
    ReplayReproduces(stages, receipts, mark, |stages|);
    RunConsistent(stages, Replay(receipts), mark, |stages|);
    var st := Run(stages, IdsOf(stages), Replay(receipts), mark, |stages|);
    assert receipts[..|stages|] == receipts;
    SameRecordsFlatten(st.receipts, receipts);
  }
}
