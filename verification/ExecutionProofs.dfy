/** What every run of a runnable plan keeps, whatever the stage bodies return. */
module ExecutionProofs {
  import opened Seqs
  import opened LedgerTypes
  import opened PlanRules
  import opened Execution

  /** The facts about a planned stage sequence that execution relies on. */
  ghost predicate Runnable(stages: seq<Descriptor>) {
    && |stages| <= STAGE_CAPACITY
    && (forall k :: 0 <= k < |stages| ==> WellDeclared(stages[k]))
    && DistinctIds(stages)
    && ExclusiveProviders(stages)
    && (forall k: nat, c :: k < |stages| && c in IrreversibleRequirements(stages[k].irreversibleClass) ==>
          c in stages[k].requirements)
  }

  function IdsOf(stages: seq<Descriptor>): (ids: seq<nat>)
    ensures |ids| == |stages|
  {
    seq(|stages|, k requires 0 <= k < |stages| => stages[k].id)
  }

  /** Everything the receipts say was provided, in order. */
  function Flatten(receipts: seq<Receipt>): seq<nat>
    decreases |receipts|
  {
    if receipts == [] then [] else Flatten(receipts[..|receipts| - 1]) + receipts[|receipts| - 1].provided
  }

  /** All requirements of d are among the capabilities cs. */
  ghost predicate Satisfied(d: Descriptor, cs: seq<nat>) {
    forall c :: c in d.requirements ==> c in cs
  }

  ghost predicate Unhealthy(d: Descriptor, r: Receipt) {
    r.outcome == FAILED || (r.outcome == SKIPPED && !d.skipPreservesHealth)
  }

  function ReceiptStatus(d: Descriptor, outcome: nat): Status {
    if outcome == RAN then Ok
    else if outcome == SKIPPED then (if d.required then RequiredStageSkipped else OptionalStageSkipped)
    else if d.required then RequiredStageFailed else OptionalStageFailed
  }

  /** Receipt r is an honest record of position i: right stage, right place, and
      exactly the capabilities its outcome declares. */
  ghost predicate Honest(d: Descriptor, r: Receipt, i: nat) {
    && r.stage == d.id && r.sequence == i + 1
    && r.outcome <= FAILED && r.status == ReceiptStatus(d, r.outcome)
    && |r.counters| <= PROOF_COUNTER_CAPACITY
    && multiset(r.provided) == multiset(Declared(d, r.outcome))
  }

  ghost predicate HonestReceipts(stages: seq<Descriptor>, receipts: seq<Receipt>) {
    && |receipts| <= |stages|
    && forall i: nat :: i < |receipts| ==> Honest(stages[i], receipts[i], i)
  }

  /** No stage ran, or failed while running, before its requirements had receipts. */
  ghost predicate Ordered(stages: seq<Descriptor>, receipts: seq<Receipt>) {
    && |receipts| <= |stages|
    && forall i: nat :: i < |receipts| && receipts[i].outcome != SKIPPED ==>
         Satisfied(stages[i], Flatten(receipts[..i]))
  }

  /** A body entered at position k had all its requirements in the receipts before k. */
  ghost predicate Justified(stages: seq<Descriptor>, receipts: seq<Receipt>, k: nat) {
    k < |stages| && k <= |receipts| && Satisfied(stages[k], Flatten(receipts[..k]))
  }

  ghost predicate Degrading(stages: seq<Descriptor>, receipts: seq<Receipt>) {
    exists i: nat :: i < |receipts| && i < |stages| && Unhealthy(stages[i], receipts[i])
  }

  /** How many receipts record a skip. */
  function Skips(receipts: seq<Receipt>): (n: nat)
    ensures n <= |receipts|
    decreases |receipts|
  {
    if receipts == [] then 0
    else Skips(receipts[..|receipts| - 1]) + if receipts[|receipts| - 1].outcome == SKIPPED then 1 else 0
  }

  /** The run invariant. */
  ghost predicate Consistent(stages: seq<Descriptor>, st: RunState) {
    && HonestReceipts(stages, st.receipts)
    && Ordered(stages, st.receipts)
    && st.established == Flatten(st.receipts)
    && Distinct(st.established)
    && AllKnown(st.established)
    && st.optionalSkipCount == Skips(st.receipts) && st.executedCount == |st.receipts| - Skips(st.receipts)
    && (st.degraded <==> Degrading(stages, st.receipts))
    && (forall k :: k in st.calls ==> Justified(stages, st.receipts, k))
  }

  /** In a run that has not stopped every required stage so far has run. */
  ghost predicate OnTrack(stages: seq<Descriptor>, st: RunState, n: nat) {
    && |st.receipts| == n <= |stages|
    && forall i: nat :: i < n && stages[i].required ==> st.receipts[i].outcome == RAN
  }

  // ----- small steps -----

  lemma {:induction false} FirstMissingMeaning(established: seq<nat>, requirements: seq<nat>, k: nat)
    requires k <= |requirements|
    ensures FirstMissing(established, requirements, k).None? <==>
      forall m :: k <= m < |requirements| ==> HasCapability(established, requirements[m])
    decreases |requirements| - k
  {
    if k < |requirements| { FirstMissingMeaning(established, requirements, k + 1); }
  }

  lemma {:induction false} FirstOutsideMeaning(cs: seq<nat>, allowed: seq<nat>, k: nat)
    requires k <= |cs|
    ensures FirstOutside(cs, allowed, k).None? <==> forall m :: k <= m < |cs| ==> cs[m] in allowed
    decreases |cs| - k
  {
    if k < |cs| { FirstOutsideMeaning(cs, allowed, k + 1); }
  }

  /** An accepted result provides exactly what its outcome declares: equal counts
      and inclusion leave no room for a duplicate. */
  lemma AcceptedExactly(d: Descriptor, r: StageResult)
    requires WellDeclared(d)
    ensures CheckResult(d, r).Accepted? <==>
      && r.outcome <= FAILED
      && |r.counters| <= PROOF_COUNTER_CAPACITY
      && multiset(r.provided) == multiset(Declared(d, r.outcome))
  {
    var declared := Declared(d, r.outcome);
    FirstOutsideMeaning(r.provided, declared, 0);
    FirstOutsideMeaning(declared, r.provided, 0);
    if CheckResult(d, r).Accepted? {
      DistinctCover(declared, r.provided);
    }
    if multiset(r.provided) == multiset(declared) {
      SameContents(r.provided, declared);
    }
  }

  /** Fresh capabilities are all established, in order, and always fit. */
  lemma {:induction false} EstablishAppends(base: seq<nat>, provided: seq<nat>, k: nat)
    requires k <= |provided|
    requires Distinct(base + provided) && AllKnown(base + provided)
    ensures Establish(base + provided[..k], provided, k) == Establishing(base + provided, None)
    decreases |provided| - k
  {
    var so := base + provided[..k];
    if k == |provided| {
      assert so == base + provided;
    } else {
      var whole := base + provided;
      var c := provided[k];
      assert whole[|base| + k] == c && CapabilityIsKnown(c);
      assert whole[..|base| + k] == so;
      assert c !in so;
      assert whole[..|base| + k + 1] == so + [c];
      DistinctBound(whole[..|base| + k + 1], CAPABILITY_COUNT);
      assert base + provided[..k + 1] == so + [c];
      EstablishAppends(base, provided, k + 1);
    }
  }

  /** A capability no recorded stage can provide is not in the record. */
  lemma {:induction false} NotFlattened(stages: seq<Descriptor>, receipts: seq<Receipt>, c: nat)
    requires HonestReceipts(stages, receipts)
    requires forall j: nat :: j < |receipts| ==> !Provides(stages[j], c)
    ensures c !in Flatten(receipts)
    decreases |receipts|
  {
    if receipts != [] {
      var n := |receipts| - 1;
      NotFlattened(stages, receipts[..n], c);
      assert Honest(stages[n], receipts[n], n);
      SameContents(receipts[n].provided, Declared(stages[n], receipts[n].outcome));
    }
  }

  lemma DeclaredFacts(d: Descriptor, outcome: nat, provided: seq<nat>)
    requires WellDeclared(d) && multiset(provided) == multiset(Declared(d, outcome))
    ensures Distinct(provided) && AllKnown(provided)
    ensures |provided| <= STAGE_CAPABILITY_CAPACITY
    ensures forall c :: c in provided ==> Provides(d, c)
  {
    var declared := Declared(d, outcome);
    SameContents(provided, declared);
    forall k | 0 <= k < |provided| ensures CapabilityIsKnown(provided[k]) {
      assert provided[k] in declared;
    }
  }

  /** What a new position provides is disjoint from everything before it. */
  lemma NewlyProvided(stages: seq<Descriptor>, st: RunState, outcome: nat, provided: seq<nat>)
    requires Runnable(stages) && Consistent(stages, st) && |st.receipts| < |stages|
    requires multiset(provided) == multiset(Declared(stages[|st.receipts|], outcome))
    ensures Distinct(st.established + provided) && AllKnown(st.established + provided)
  {
    var n := |st.receipts|;
    DeclaredFacts(stages[n], outcome, provided);
    forall c | c in provided ensures c !in st.established {
      forall j: nat | j < n ensures !Provides(stages[j], c) {
        assert !SharedOutcome(stages, j, n, c);
      }
      NotFlattened(stages, st.receipts, c);
    }
    var whole := st.established + provided;
    forall i, j | 0 <= i < j < |whole| ensures whole[i] != whole[j] {
      if i < |st.established| <= j {
        assert whole[j] in provided && whole[i] in st.established;
      }
    }
  }

  lemma FlattenAppend(receipts: seq<Receipt>, r: Receipt)
    ensures Flatten(receipts + [r]) == Flatten(receipts) + r.provided
  {
    assert (receipts + [r])[..|receipts|] == receipts;
  }

  lemma SkipsAppend(receipts: seq<Receipt>, r: Receipt)
    ensures Skips(receipts + [r]) == Skips(receipts) + if r.outcome == SKIPPED then 1 else 0
  {
    assert (receipts + [r])[..|receipts|] == receipts;
  }

  /** The effect of recording an honest result in a consistent state. */
  ghost predicate Recorded(st: RunState, next: RunState, d: Descriptor, r: StageResult, status: Status) {
    && next.receipts == st.receipts
         + [Receipt(d.id, |st.receipts| + 1, r.provided, status, r.outcome, r.counters)]
    && next.calls == st.calls
    && next.established == st.established + r.provided
    && next.executedCount == st.executedCount + (if r.outcome == SKIPPED then 0 else 1)
    && next.optionalSkipCount == st.optionalSkipCount + (if r.outcome == SKIPPED then 1 else 0)
    && next.degraded == (st.degraded || r.outcome == FAILED || (r.outcome == SKIPPED && !d.skipPreservesHealth))
    && next.mark == st.mark && next.halted == st.halted
  }

  lemma AppendRecords(stages: seq<Descriptor>, st: RunState, r: StageResult, status: Status)
    requires Runnable(stages) && Consistent(stages, st) && |st.receipts| < |stages|
    requires r.outcome <= FAILED
    requires multiset(r.provided) == multiset(Declared(stages[|st.receipts|], r.outcome))
    ensures Recorded(st, AppendReceipt(st, stages[|st.receipts|], r, status), stages[|st.receipts|], r, status)
  {
    NewlyProvided(stages, st, r.outcome, r.provided);
    EstablishAppends(st.established, r.provided, 0);
    assert st.established + r.provided[..0] == st.established;
  }

  lemma PrefixAppend<T>(s: seq<T>, x: T, k: nat)
    requires k <= |s|
    ensures (s + [x])[..k] == s[..k]
  {
  }

  lemma OrderedAppendAt(stages: seq<Descriptor>, receipts: seq<Receipt>, r: Receipt, i: nat)
    requires Ordered(stages, receipts) && i <= |receipts| < |stages|
    requires r.outcome != SKIPPED ==> Satisfied(stages[|receipts|], Flatten(receipts))
    ensures (receipts + [r])[i].outcome != SKIPPED ==> Satisfied(stages[i], Flatten((receipts + [r])[..i]))
  {
    PrefixAppend(receipts, r, i);
    assert receipts[..|receipts|] == receipts;
  }

  lemma HonestAppend(stages: seq<Descriptor>, receipts: seq<Receipt>, r: Receipt)
    requires HonestReceipts(stages, receipts) && Ordered(stages, receipts) && |receipts| < |stages|
    requires Honest(stages[|receipts|], r, |receipts|)
    requires r.outcome != SKIPPED ==> Satisfied(stages[|receipts|], Flatten(receipts))
    ensures HonestReceipts(stages, receipts + [r]) && Ordered(stages, receipts + [r])
  {
    hide Satisfied, Flatten, Honest;
    forall i: nat | i <= |receipts|
      ensures (receipts + [r])[i].outcome != SKIPPED ==> Satisfied(stages[i], Flatten((receipts + [r])[..i]))
    {
      OrderedAppendAt(stages, receipts, r, i);
    }
  }

  lemma JustifiedAppend(stages: seq<Descriptor>, receipts: seq<Receipt>, r: Receipt, k: nat)
    requires Justified(stages, receipts, k)
    ensures Justified(stages, receipts + [r], k)
  {
    PrefixAppend(receipts, r, k);
  }

  lemma DegradingAppend(stages: seq<Descriptor>, receipts: seq<Receipt>, r: Receipt)
    requires |receipts| < |stages|
    ensures Degrading(stages, receipts + [r]) <==>
      Degrading(stages, receipts) || Unhealthy(stages[|receipts|], r)
  {
    var all := receipts + [r];
    if Degrading(stages, receipts) {
      var i: nat :| i < |receipts| && Unhealthy(stages[i], receipts[i]);
      assert Unhealthy(stages[i], all[i]);
    }
    if Unhealthy(stages[|receipts|], r) {
      assert Unhealthy(stages[|receipts|], all[|receipts|]);
    }
    if Degrading(stages, all) {
      var i: nat :| i < |all| && i < |stages| && Unhealthy(stages[i], all[i]);
      if i < |receipts| { assert Unhealthy(stages[i], receipts[i]); }
    }
  }

  /** Recording an honest, justified result keeps the invariant. */
  lemma RecordedConsistent(stages: seq<Descriptor>, st: RunState, next: RunState, r: StageResult)
    requires Runnable(stages) && Consistent(stages, st) && |st.receipts| < |stages|
    requires r.outcome <= FAILED && |r.counters| <= PROOF_COUNTER_CAPACITY
    requires var d := stages[|st.receipts|];
      multiset(r.provided) == multiset(Declared(d, r.outcome)) &&
      Recorded(st, next, d, r, ReceiptStatus(d, r.outcome))
    requires r.outcome != SKIPPED ==> Satisfied(stages[|st.receipts|], st.established)
    ensures Consistent(stages, next)
  {
    var added := next.receipts[|st.receipts|];
    HonestAppend(stages, st.receipts, added);
    FlattenAppend(st.receipts, added);
    SkipsAppend(st.receipts, added);
    NewlyProvided(stages, st, r.outcome, r.provided);
    DegradingAppend(stages, st.receipts, added);
    forall k | k in next.calls ensures Justified(stages, next.receipts, k) {
      JustifiedAppend(stages, st.receipts, added, k);
    }
  }

  // ----- one stage -----

  lemma EstablishedMeansSatisfied(stages: seq<Descriptor>, st: RunState, d: Descriptor)
    requires Consistent(stages, st) && WellDeclared(d)
    ensures FirstMissing(st.established, d.requirements, 0).None? <==> Satisfied(d, st.established)
  {
    FirstMissingMeaning(st.established, d.requirements, 0);
    forall m | 0 <= m < |d.requirements| ensures CapabilityIsKnown(d.requirements[m]) {}
  }

  /** The state handed to Settle: the body has been entered with its requirements met. */
  lemma CallConsistent(stages: seq<Descriptor>, st: RunState)
    requires Consistent(stages, st) && |st.receipts| < |stages|
    requires Satisfied(stages[|st.receipts|], st.established)
    ensures Consistent(stages, st.(calls := st.calls + [|st.receipts|]))
  {
    assert st.receipts[..|st.receipts|] == st.receipts;
    assert Justified(stages, st.receipts, |st.receipts|);
  }

  /** The invariant does not read the refusal mark. */
  lemma MarkIrrelevant(stages: seq<Descriptor>, st: RunState, mark: Refusal, halted: bool)
    requires Consistent(stages, st)
    ensures Consistent(stages, st.(mark := mark, halted := halted))
  {
  }

  /** Settling either stops without a receipt or records the result, and goes on
      only if the stage was not a required one that did not run. */
  lemma SettleShape(st: RunState, d: Descriptor, r: StageResult)
    requires !st.halted
    requires CheckResult(d, r).Accepted? ==>
      r.outcome <= FAILED &&
      Recorded(st, AppendReceipt(st, d, r, ReceiptStatus(d, r.outcome)), d, r, ReceiptStatus(d, r.outcome))
    ensures var next := Settle(st, d, r);
      if CheckResult(d, r).Accepted? then
        && next == AppendReceipt(st, d, r, ReceiptStatus(d, r.outcome)).(mark := next.mark, halted := next.halted)
        && (!next.halted ==> (d.required ==> r.outcome == RAN) && next.mark == st.mark)
      else next == st.(mark := next.mark, halted := true)
  {
    hide AppendReceipt, CheckResult;
  }

  lemma OnTrackAppend(stages: seq<Descriptor>, st: RunState, next: RunState)
    requires OnTrack(stages, st, |st.receipts|) && |st.receipts| < |stages|
    requires |next.receipts| == |st.receipts| + 1 && next.receipts[..|st.receipts|] == st.receipts
    requires stages[|st.receipts|].required ==> next.receipts[|st.receipts|].outcome == RAN
    ensures OnTrack(stages, next, |st.receipts| + 1)
  {
    forall i: nat | i < |st.receipts| ensures next.receipts[i] == st.receipts[i] {
      assert next.receipts[..|st.receipts|][i] == st.receipts[i];
    }
  }

  lemma SettleKeeps(stages: seq<Descriptor>, st: RunState, r: StageResult)
    requires Runnable(stages) && Consistent(stages, st) && !st.halted && |st.receipts| < |stages|
    requires OnTrack(stages, st, |st.receipts|)
    requires Satisfied(stages[|st.receipts|], st.established)
    ensures var next := Settle(st, stages[|st.receipts|], r);
      && Consistent(stages, next)
      && |next.receipts| <= |st.receipts| + 1
      && (!next.halted ==> OnTrack(stages, next, |st.receipts| + 1) && next.mark == st.mark)
  {
    var d := stages[|st.receipts|];
    assert WellDeclared(d);
    hide Consistent, Runnable, AppendReceipt, CheckResult, Satisfied, WellDeclared, Settle, OnTrack;
    AcceptedExactly(d, r);
    var next := Settle(st, d, r);
    if CheckResult(d, r).Accepted? {
      var status := ReceiptStatus(d, r.outcome);
      var recorded := AppendReceipt(st, d, r, status);
      AppendRecords(stages, st, r, status);
      RecordedConsistent(stages, st, recorded, r);
      MarkIrrelevant(stages, recorded, next.mark, next.halted);
      SettleShape(st, d, r);
      if !next.halted { OnTrackAppend(stages, st, next); }
    } else {
      SettleShape(st, d, r);
      MarkIrrelevant(stages, st, next.mark, next.halted);
    }
  }

  lemma StageKeeps(stages: seq<Descriptor>, st: RunState, r: StageResult)
    requires Runnable(stages) && Consistent(stages, st) && !st.halted && |st.receipts| < |stages|
    requires OnTrack(stages, st, |st.receipts|)
    ensures var next := ExecuteStage(st, stages[|st.receipts|], |st.receipts|, r);
      && Consistent(stages, next)
      && |next.receipts| <= |st.receipts| + 1
      && (!next.halted ==> OnTrack(stages, next, |st.receipts| + 1) && next.mark == st.mark)
  {
    var d := stages[|st.receipts|];
    assert WellDeclared(d);
    hide Consistent, Runnable, AppendReceipt, Settle, FirstMissing, Satisfied, WellDeclared, OnTrack;
    EstablishedMeansSatisfied(stages, st, d);
    var next := ExecuteStage(st, d, |st.receipts|, r);
    if FirstMissing(st.established, d.requirements, 0).None? {
      CallConsistent(stages, st);
      var called := st.(calls := st.calls + [|st.receipts|]);
      CallOnTrack(stages, st, called);
      SettleKeeps(stages, called, r);
    } else if d.required {
      MarkIrrelevant(stages, st, next.mark, next.halted);
    } else {
      AppendRecords(stages, st, SkipResult(d), OptionalStageSkipped);
      RecordedConsistent(stages, st, next, SkipResult(d));
      OnTrackAppend(stages, st, next);
    }
  }

  lemma CallOnTrack(stages: seq<Descriptor>, st: RunState, called: RunState)
    requires OnTrack(stages, st, |st.receipts|) && called.receipts == st.receipts
    ensures OnTrack(stages, called, |called.receipts|)
  {
  }

  // ----- whole runs -----

  lemma RunStart(stages: seq<Descriptor>, ids: seq<nat>, bodies: seq<StageResult>, mark: Refusal)
    requires |stages| == |ids| == |bodies|
    ensures Run(stages, ids, bodies, mark, 0) == Fresh(mark)
  {
  }

  lemma RunStep(stages: seq<Descriptor>, ids: seq<nat>, bodies: seq<StageResult>, mark: Refusal, k: nat)
    requires k < |stages| == |ids| == |bodies|
    requires !Run(stages, ids, bodies, mark, k).halted
    ensures Run(stages, ids, bodies, mark, k + 1) ==
      AfterStage(Run(stages, ids, bodies, mark, k), stages[k], ids[k], k, bodies[k])
  {
    hide AfterStage;
  }

  /** In an unaltered plan the next position simply executes its stage. */
  lemma NextStage(stages: seq<Descriptor>, bodies: seq<StageResult>, mark: Refusal, k: nat)
    requires k < |stages| == |bodies|
    requires !Run(stages, IdsOf(stages), bodies, mark, k).halted
    ensures Run(stages, IdsOf(stages), bodies, mark, k + 1) ==
      ExecuteStage(Run(stages, IdsOf(stages), bodies, mark, k), stages[k], k, bodies[k])
  {
    hide Run, ExecuteStage;
    RunStep(stages, IdsOf(stages), bodies, mark, k);
  }

  /** A stopped run stays as it stopped. */
  lemma {:induction false} RunStopped(
    stages: seq<Descriptor>, ids: seq<nat>, bodies: seq<StageResult>, mark: Refusal, k: nat, n: nat)
    requires k <= n <= |stages| == |ids| == |bodies|
    requires Run(stages, ids, bodies, mark, k).halted
    ensures Run(stages, ids, bodies, mark, n) == Run(stages, ids, bodies, mark, k)
    decreases n - k
  {
    hide AfterStage;
    if k < n { RunStopped(stages, ids, bodies, mark, k, n - 1); }
  }

  /** Run safety and accounting: every prefix of every run is consistent, and an
      unstopped run has one receipt per stage with every required stage run. */
  lemma {:induction false} RunConsistent(stages: seq<Descriptor>, bodies: seq<StageResult>, mark: Refusal, n: nat)
    requires Runnable(stages) && n <= |stages| == |bodies|
    ensures var st := Run(stages, IdsOf(stages), bodies, mark, n);
      && Consistent(stages, st)
      && |st.receipts| <= n
      && (!st.halted ==> OnTrack(stages, st, n) && st.mark == mark)
    decreases n
  {
    hide Run, ExecuteStage, Consistent, Runnable;
    if n == 0 {
      RunStart(stages, IdsOf(stages), bodies, mark);
      FreshConsistent(stages, mark);
    } else {
      RunConsistent(stages, bodies, mark, n - 1);
      var st := Run(stages, IdsOf(stages), bodies, mark, n - 1);
      if st.halted {
        RunStopped(stages, IdsOf(stages), bodies, mark, n - 1, n);
      } else {
        NextStage(stages, bodies, mark, n - 1);
        StageKeeps(stages, st, bodies[n - 1]);
      }
    }
  }

  lemma FreshConsistent(stages: seq<Descriptor>, mark: Refusal)
    ensures Consistent(stages, Fresh(mark)) && OnTrack(stages, Fresh(mark), 0)
  {
  }

  /** A stage body is entered only after all its requirements, its irreversible
      prerequisites included, were provided by earlier receipts. */
  lemma CallsAreSafe(stages: seq<Descriptor>, bodies: seq<StageResult>, mark: Refusal, n: nat, k: nat, c: nat)
    requires Runnable(stages) && n <= |stages| == |bodies|
    requires k in Run(stages, IdsOf(stages), bodies, mark, n).calls
    requires k < |stages|
    requires c in stages[k].requirements || c in IrreversibleRequirements(stages[k].irreversibleClass)
    ensures var receipts := Run(stages, IdsOf(stages), bodies, mark, n).receipts;
      exists j: nat :: j < k && j < |receipts| && c in receipts[j].provided
  {
    RunConsistent(stages, bodies, mark, n);
    var st := Run(stages, IdsOf(stages), bodies, mark, n);
    assert Justified(stages, st.receipts, k);
    FlattenSource(st.receipts[..k], c);
  }

  ghost predicate ProvidedBefore(receipts: seq<Receipt>, k: nat, c: nat) {
    exists j: nat :: j < k && j < |receipts| && c in receipts[j].provided
  }

  /** What stands behind each irreversible step: page tables and CR3 are loaded only over a
      validated device window registry and a frame allocator, interrupts are enabled only with
      an IDT and configured controllers, and so on, class by class. */
  lemma IrreversibleStepsAreSafe(stages: seq<Descriptor>, bodies: seq<StageResult>, mark: Refusal, n: nat, k: nat)
    requires Runnable(stages) && n <= |stages| == |bodies| && k < |stages|
    requires k in Run(stages, IdsOf(stages), bodies, mark, n).calls
    ensures var receipts := Run(stages, IdsOf(stages), bodies, mark, n).receipts;
      var kind := stages[k].irreversibleClass;
      && (kind == PAT_CR3 ==>
            ProvidedBefore(receipts, k, DEVICE_WINDOWS) && ProvidedBefore(receipts, k, FRAME_ALLOCATOR))
      && (kind == INTERRUPT_ENABLE ==>
            ProvidedBefore(receipts, k, IDT) && ProvidedBefore(receipts, k, INTERRUPT_CONTROLLERS))
      && (kind == FRAMEBUFFER_OUTPUT ==> ProvidedBefore(receipts, k, WRITE_COMBINING_PROOF))
      && (kind == APIC_TIMER ==>
            && ProvidedBefore(receipts, k, IDT) && ProvidedBefore(receipts, k, INTERRUPT_CONTROLLERS)
            && ProvidedBefore(receipts, k, INTERRUPTS) && ProvidedBefore(receipts, k, CLOCKS))
      && (kind == SCHEDULER ==>
            && ProvidedBefore(receipts, k, HEAP) && ProvidedBefore(receipts, k, THREADING)
            && ProvidedBefore(receipts, k, TIMER_CALIBRATION) && ProvidedBefore(receipts, k, INTERRUPTS))
  {
    hide Run, Runnable;
    var demands := IrreversibleRequirements(stages[k].irreversibleClass);
    var receipts := Run(stages, IdsOf(stages), bodies, mark, n).receipts;
    forall c | c in demands ensures ProvidedBefore(receipts, k, c) {
      CallsAreSafe(stages, bodies, mark, n, k, c);
    }
  }

  lemma {:induction false} FlattenSource(receipts: seq<Receipt>, c: nat)
    ensures c in Flatten(receipts) <==> exists j: nat :: j < |receipts| && c in receipts[j].provided
    decreases |receipts|
  {
    if receipts != [] {
      var n := |receipts| - 1;
      FlattenSource(receipts[..n], c);
      if c in Flatten(receipts[..n]) {
        var j: nat :| j < n && c in receipts[..n][j].provided;
        assert c in receipts[j].provided;
      }
      if exists j: nat :: j < |receipts| && c in receipts[j].provided {
        var j: nat :| j < |receipts| && c in receipts[j].provided;
        if j < n { assert c in receipts[..n][j].provided; }
      }
    }
  }

  /** No capability comes from two receipts of a record without repeats. */
  lemma {:induction false} NoSharedProvider(receipts: seq<Receipt>, i: nat, j: nat, c: nat)
    requires Distinct(Flatten(receipts))
    requires i < j < |receipts|
    ensures !(c in receipts[i].provided && c in receipts[j].provided)
    decreases |receipts|
  {
    var n := |receipts| - 1;
    var head, tail := Flatten(receipts[..n]), receipts[n].provided;
    assert Flatten(receipts) == head + tail;
    assert Distinct(head) by {
      forall a, b | 0 <= a < b < |head| ensures head[a] != head[b] {
        assert (head + tail)[a] != (head + tail)[b];
      }
    }
    if j < n {
      NoSharedProvider(receipts[..n], i, j, c);
    } else if c in receipts[i].provided && c in tail {
      FlattenSource(receipts[..n], c);
      assert c in receipts[..n][i].provided;
      DisjointHalves(head, tail, c);
    }
  }

  ghost predicate OnlyProvider(receipts: seq<Receipt>, i: nat, c: nat) {
    && i < |receipts| && c in receipts[i].provided
    && forall j: nat :: j < |receipts| && j != i ==> c !in receipts[j].provided
  }

  /** In every run, whatever the bodies return, a capability is established exactly when
      one receipt provides it, and then no other receipt does. */
  lemma OneProviderPerCapability(
    stages: seq<Descriptor>, bodies: seq<StageResult>, mark: Refusal, n: nat, c: nat)
    requires Runnable(stages) && n <= |stages| == |bodies|
    ensures var st := Run(stages, IdsOf(stages), bodies, mark, n);
      c in st.established <==> exists i: nat :: OnlyProvider(st.receipts, i, c)
  {
    hide Run, Runnable, HonestReceipts, Ordered;
    RunConsistent(stages, bodies, mark, n);
    var receipts := Run(stages, IdsOf(stages), bodies, mark, n).receipts;
    FlattenSource(receipts, c);
    if c in Flatten(receipts) {
      var i: nat :| i < |receipts| && c in receipts[i].provided;
      forall j: nat | j < |receipts| && j != i ensures c !in receipts[j].provided {
        NoSharedProvider(receipts, if i < j then i else j, if i < j then j else i, c);
      }
      assert OnlyProvider(receipts, i, c);
    }
  }

  lemma DisjointHalves(head: seq<nat>, tail: seq<nat>, c: nat)
    requires Distinct(head + tail) && c in head
    ensures c !in tail
  {
    var a :| 0 <= a < |head| && head[a] == c;
    forall b | 0 <= b < |tail| ensures tail[b] != c {
      assert (head + tail)[a] != (head + tail)[|head| + b];
    }
  }
}
