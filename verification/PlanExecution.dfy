/** From planning to execution: the canonical order of a legal plan is runnable,
    and when every body succeeds it runs to the end in full health. */
module PlanExecution {
  import opened Seqs
  import opened LedgerTypes
  import opened Scheduling
  import opened PlanRules
  import opened PlanEquivalence
  import opened Fingerprint
  import opened Execution
  import opened ExecutionProofs
  import opened ReceiptAudit

  lemma CanonicalInRange(ds: seq<Descriptor>, o: seq<nat>)
    requires CanonicalOrder(ds, o)
    ensures Distinct(o) && forall k :: 0 <= k < |o| ==> o[k] < |ds|
  {
    GreedyShape(GraphOf(ds), o);
  }

  /** The canonical order of an accepted plan can be handed to the executor. */
  lemma CanonicalIsRunnable(ds: seq<Descriptor>, o: seq<nat>)
    requires StaticallyLegal(ds) && CanonicalOrder(ds, o)
    ensures forall k :: 0 <= k < |o| ==> o[k] < |ds|
    ensures Runnable(Planned(ds, o))
  {
    CanonicalInRange(ds, o);
    var stages := Planned(ds, o);
    forall i, j | 0 <= i < j < |stages| ensures stages[i].id != stages[j].id {
      assert o[i] != o[j];
    }
    forall i: nat, j: nat, c: nat ensures !SharedOutcome(stages, i, j, c) {
      if i < |stages| && j < |stages| && i != j { assert !SharedOutcome(ds, o[i], o[j], c); }
    }
    forall k: nat, c | k < |stages| && c in IrreversibleRequirements(stages[k].irreversibleClass)
      ensures c in stages[k].requirements
    {
      assert stages[k] == ds[o[k]];
    }
  }

  /** All the stages, each once, and each after every stage it depends on. */
  ghost predicate RunsLegally(ds: seq<Descriptor>, o: seq<nat>) {
    && Distinct(o) && |o| == |ds| && (forall k :: 0 <= k < |o| ==> o[k] < |ds|)
    && forall k: nat, i: nat :: k < |o| && DependsOn(ds, o[k], i) ==> i in o[..k]
  }

  /** The first stage in which the two orders differ is o's, by (phase, id). */
  ghost predicate RunsSooner(ds: seq<Descriptor>, o: seq<nat>, t: seq<nat>, k: nat) {
    && k < |o| && k < |t| && o[..k] == t[..k] && o[k] < |ds| && t[k] < |ds|
    && Before(KeyOf(ds[o[k]]), KeyOf(ds[t[k]]))
  }

  lemma LegalIsSchedule(ds: seq<Descriptor>, t: seq<nat>)
    ensures RunsLegally(ds, t) <==> Schedule(GraphOf(ds), t)
  {
    var g := GraphOf(ds);
    if RunsLegally(ds, t) {
      forall k, j | 0 <= k < |t| && j in g.needs[t[k]] ensures j in t[..k] {
        assert DependsOn(ds, t[k], j);
      }
    }
    if Schedule(g, t) {
      forall k: nat, i: nat | k < |t| && DependsOn(ds, t[k], i) ensures i in t[..k] {
        assert i in g.needs[t[k]];
      }
    }
  }

  /** The canonical order of an accepted plan runs every stage once, providers first, with
      phases never going back, and of all orders that run the plan legally it is the least. */
  lemma CanonicalOrderIsLeast(ds: seq<Descriptor>, o: seq<nat>, t: seq<nat>)
    requires LegalPlan(ds) && CanonicalOrder(ds, o)
    ensures RunsLegally(ds, o) && forall i: nat :: i < |ds| ==> i in o
    ensures forall a: nat, b: nat :: a <= b < |o| ==> ds[o[a]].phase <= ds[o[b]].phase
    ensures RunsLegally(ds, t) && t != o ==> exists k: nat :: RunsSooner(ds, o, t, k)
  {
    var g := GraphOf(ds);
    GreedyShape(g, o);
    LegalIsSchedule(ds, o);
    LegalIsSchedule(ds, t);
    forall i: nat | i < |ds| ensures i in o { DistinctOnto(o, i); }
    assert PhasesAscend(g) by {
      forall i, j | 0 <= i < |g.needs| && j in g.needs[i] ensures g.keys[j].phase <= g.keys[i].phase {
        assert DependsOn(ds, i, j);
      }
    }
    forall a: nat, b: nat | a <= b < |o| ensures ds[o[a]].phase <= ds[o[b]].phase {
      GreedySortsPhases(g, o, a, b);
    }
    if RunsLegally(ds, t) && t != o {
      GreedyIsLeast(g, o, t);
      var k: nat :| LessAt(g, o, t, k);
      assert RunsSooner(ds, o, t, k);
    }
  }

  /** Every requirement is on some stage's success list. */
  ghost predicate SuccessSuffices(ds: seq<Descriptor>) {
    forall i: nat, c: nat :: i < |ds| && c in ds[i].requirements ==>
      exists j :: 0 <= j < |ds| && c in ds[j].provided
  }

  function AllSucceed(stages: seq<Descriptor>): (r: seq<StageResult>)
    ensures |r| == |stages|
  {
    seq(|stages|, k requires 0 <= k < |stages| => SuccessResult(stages[k]))
  }

  ghost predicate AllRan(receipts: seq<Receipt>, stages: seq<Descriptor>) {
    && |receipts| <= |stages|
    && forall i :: 0 <= i < |receipts| ==> receipts[i].outcome == RAN && receipts[i].provided == stages[i].provided
  }

  /** Where a requirement comes from in the canonical order. */
  lemma ProviderPlacedEarlier(ds: seq<Descriptor>, o: seq<nat>, n: nat, c: nat) returns (j: nat)
    requires StaticallyLegal(ds) && CanonicalOrder(ds, o) && SuccessSuffices(ds)
    requires n < |o| && o[n] < |ds| && c in ds[o[n]].requirements
    ensures j < n && o[j] < |ds| && c in ds[o[j]].provided
  {
    var g := GraphOf(ds);
    GreedyShape(g, o);
    var p :| 0 <= p < |ds| && c in ds[p].provided;
    assert Provides(ds[p], c);
    assert DependsOn(ds, o[n], p);
    assert p in g.needs[o[n]];
    assert p in o[..n];
    j :| 0 <= j < n && o[j] == p;
  }

  /** The requirement c of stage n is on the success list of an earlier stage. */
  ghost predicate Fed(stages: seq<Descriptor>, n: nat, c: nat) {
    exists j: nat :: j < n && j < |stages| && c in stages[j].provided
  }

  ghost predicate SelfFeeding(stages: seq<Descriptor>) {
    forall n: nat, c: nat :: n < |stages| && c in stages[n].requirements ==> Fed(stages, n, c)
  }

  lemma HealthyStage(stages: seq<Descriptor>, st: RunState, body: StageResult)
    requires SelfFeeding(stages) && Runnable(stages) && Consistent(stages, st)
    requires !st.halted && |st.receipts| < |stages| && AllRan(st.receipts, stages)
    requires body == SuccessResult(stages[|st.receipts|])
    ensures var n := |st.receipts|;
      var next := ExecuteStage(st, stages[n], n, body);
      !next.halted && |next.receipts| == n + 1 && AllRan(next.receipts, stages)
  {
    hide Settle, FirstMissing, Satisfied, SelfFeeding, Consistent, Honest, Runnable;
    var n := |st.receipts|;
    var d := stages[n];
    EstablishedFlat(stages, st);
    RequirementsFed(stages, st);
    SuccessIsHonest(stages, n);
    EstablishedMeansSatisfied(stages, st, d);
    CallConsistent(stages, st);
    ReplayCalled(stages, st.(calls := st.calls + [n]), Receipt(d.id, n + 1, d.provided, Ok, RAN, []));
  }

  lemma EstablishedFlat(stages: seq<Descriptor>, st: RunState)
    requires Consistent(stages, st)
    ensures st.established == Flatten(st.receipts)
  {
  }

  lemma SuccessIsHonest(stages: seq<Descriptor>, n: nat)
    requires Runnable(stages) && n < |stages|
    ensures var d := stages[n];
      WellDeclared(d) && Honest(d, Receipt(d.id, n + 1, d.provided, Ok, RAN, []), n)
  {
  }

  lemma RequirementsFed(stages: seq<Descriptor>, st: RunState)
    requires SelfFeeding(stages) && |st.receipts| < |stages|
    requires AllRan(st.receipts, stages) && st.established == Flatten(st.receipts)
    ensures Satisfied(stages[|st.receipts|], st.established)
  {
    var n := |st.receipts|;
    var d := stages[n];
    forall c | c in d.requirements ensures c in st.established {
      assert Fed(stages, n, c);
      var j: nat :| j < n && j < |stages| && c in stages[j].provided;
      FlattenSource(st.receipts, c);
      assert c in st.receipts[j].provided;
    }
  }

  lemma AllRanIsHealthy(stages: seq<Descriptor>, st: RunState)
    requires Consistent(stages, st) && AllRan(st.receipts, stages)
    ensures !st.degraded && st.executedCount == |st.receipts| && st.optionalSkipCount == 0
  {
    NoSkips(st.receipts);
    forall i: nat | i < |st.receipts| && i < |stages| ensures !Unhealthy(stages[i], st.receipts[i]) {}
  }

  lemma {:induction false} NoSkips(receipts: seq<Receipt>)
    requires forall i :: 0 <= i < |receipts| ==> receipts[i].outcome == RAN
    ensures Skips(receipts) == 0
    decreases |receipts|
  {
    if receipts != [] { NoSkips(receipts[..|receipts| - 1]); }
  }

  lemma HealthyAdvance(stages: seq<Descriptor>, bodies: seq<StageResult>, mark: Refusal, n: nat)
    requires SelfFeeding(stages) && Runnable(stages) && n < |stages| == |bodies|
    requires bodies[n] == SuccessResult(stages[n])
    requires var st := Run(stages, IdsOf(stages), bodies, mark, n);
      !st.halted && |st.receipts| == n && AllRan(st.receipts, stages)
    ensures var st := Run(stages, IdsOf(stages), bodies, mark, n + 1);
      !st.halted && |st.receipts| == n + 1 && AllRan(st.receipts, stages)
  {
    hide *;
    NextStage(stages, bodies, mark, n);
    RunConsistent(stages, bodies, mark, n);
    HealthyStage(stages, Run(stages, IdsOf(stages), bodies, mark, n), bodies[n]);
  }

  lemma {:induction false} HealthyPrefix(
    stages: seq<Descriptor>, bodies: seq<StageResult>, mark: Refusal, n: nat)
    requires SelfFeeding(stages) && Runnable(stages) && n <= |stages|
    requires |bodies| == |stages| && forall k :: 0 <= k < |stages| ==> bodies[k] == SuccessResult(stages[k])
    ensures var st := Run(stages, IdsOf(stages), bodies, mark, n);
      !st.halted && |st.receipts| == n && AllRan(st.receipts, stages)
    decreases n
  {
    hide Run, Runnable, SelfFeeding;
    if n == 0 {
      RunStart(stages, IdsOf(stages), bodies, mark);
    } else {
      HealthyPrefix(stages, bodies, mark, n - 1);
      HealthyAdvance(stages, bodies, mark, n - 1);
    }
  }

  /** Liveness of the canonical order: if success alone can satisfy every
      requirement and every body succeeds, every stage runs, undegraded. */
  lemma HealthyBoot(ds: seq<Descriptor>, o: seq<nat>, mark: Refusal)
    requires StaticallyLegal(ds) && CanonicalOrder(ds, o) && SuccessSuffices(ds)
    ensures forall k :: 0 <= k < |o| ==> o[k] < |ds|
    ensures var stages := Planned(ds, o);
      var st := Run(stages, IdsOf(stages), AllSucceed(stages), mark, |stages|);
      && !st.halted && !st.degraded && |st.receipts| == |ds| && AllRan(st.receipts, stages)
      && st.executedCount == |ds| && st.optionalSkipCount == 0
  {
    CanonicalIsRunnable(ds, o);
    var stages := Planned(ds, o);
    CanonicalFeeds(ds, o);
    HealthyPrefix(stages, AllSucceed(stages), mark, |stages|);
    RunConsistent(stages, AllSucceed(stages), mark, |stages|);
    AllRanIsHealthy(stages, Run(stages, IdsOf(stages), AllSucceed(stages), mark, |stages|));
  }

  lemma CanonicalFeeds(ds: seq<Descriptor>, o: seq<nat>)
    requires StaticallyLegal(ds) && CanonicalOrder(ds, o) && SuccessSuffices(ds)
    requires forall k :: 0 <= k < |o| ==> o[k] < |ds|
    ensures SelfFeeding(Planned(ds, o))
  {
    var stages := Planned(ds, o);
    forall n: nat, c: nat | n < |stages| && c in stages[n].requirements ensures Fed(stages, n, c) {
      var j := ProviderPlacedEarlier(ds, o, n, c);
      assert c in stages[j].provided;
    }
  }
}
