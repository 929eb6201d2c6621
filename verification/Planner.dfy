/** The planner's loops: the provider table, the static checks and the greedy
    selection, each proved against the rules it implements. */
module Planner {
  import opened Seqs
  import opened LedgerTypes
  import opened Scheduling
  import opened PlanRules
  import opened PlanEquivalence

  /** The provider table records, for every capability, its first provider among the first n. */
  ghost predicate Tracks(providers: array<nat>, ds: seq<Descriptor>, n: nat)
    reads providers
  {
    && providers.Length == CAPABILITY_COUNT
    && n <= |ds|
    && forall c :: 0 <= c < CAPABILITY_COUNT ==> providers[c] == Provider(ds, c, n)
  }

  method CheckRequirements(d: Descriptor) returns (fault: Option<Fault>)
    ensures fault == RequirementFault(d, 0)
  {
    var k := 0;
    while k < |d.requirements|
      invariant k <= |d.requirements|
      invariant RequirementFault(d, 0) == RequirementFault(d, k)
    {
      var c := d.requirements[k];
      if !CapabilityIsKnown(c) {
        return Some(Refusal(UnknownCapability, d.id, c));
      }
      var earlier := 0;
      while earlier < k
        invariant earlier <= k
        invariant c !in d.requirements[..earlier]
      {
        if d.requirements[earlier] == c {
          assert c in d.requirements[..k];
          return Some(Refusal(DuplicateCapabilityRequirement, d.id, c));
        }
        earlier := earlier + 1;
      }
      k := k + 1;
    }
    return None;
  }

  /** Claim every outcome of descriptor i in the provider table. */
  method ClaimOutcomes(ds: seq<Descriptor>, i: nat, providers: array<nat>) returns (fault: Option<Fault>)
    requires i < |ds| <= STAGE_CAPACITY
    requires Tracks(providers, ds, i)
    modifies providers
    ensures fault == OutcomeFault(ds, i, 0)
    ensures fault.None? ==> Tracks(providers, ds, i + 1)
  {
    var d := ds[i];
    var k := 0;
    while k < |d.provided| + |d.skipped|
      invariant k <= |Outcomes(d)|
      invariant forall c :: 0 <= c < CAPABILITY_COUNT ==> providers[c] == ProviderAt(ds, i, k, c)
      invariant OutcomeFault(ds, i, 0) == OutcomeFault(ds, i, k)
    {
      var skipped := k >= |d.provided|;
      var source := if skipped then k - |d.provided| else k;
      var c := if skipped then d.skipped[source] else d.provided[source];
      assert c == Outcomes(d)[k];
      if !CapabilityIsKnown(c) {
        return Some(Refusal(UnknownCapability, d.id, c));
      }
      var common := skipped && providers[c] == i && c in d.provided && c !in d.skipped[..source];
      if providers[c] != STAGE_CAPACITY && !common {
        return Some(Refusal(DuplicateCapabilityProvider, d.id, c));
      }
      assert Outcomes(d)[..k + 1] == Outcomes(d)[..k] + [c];
      if providers[c] == STAGE_CAPACITY {
        providers[c] := i;
      }
      k := k + 1;
    }
    assert Outcomes(d)[..k] == Outcomes(d);
    return None;
  }

  method CheckDescriptor(ds: seq<Descriptor>, i: nat, providers: array<nat>) returns (fault: Option<Fault>)
    requires i < |ds| <= STAGE_CAPACITY
    requires Tracks(providers, ds, i)
    modifies providers
    ensures fault == DescriptorFault(ds, i)
    ensures fault.None? ==> Tracks(providers, ds, i + 1)
  {
    var d := ds[i];
    if !StageIsKnown(d.id) {
      return Some(Refusal(UnknownStageIdentifier, d.id, NO_CAPABILITY));
    }
    if d.phase >= PHASE_COUNT || d.irreversibleClass >= IRREVERSIBLE_COUNT || !d.named || !d.callable {
      return Some(Refusal(InvalidPhaseTransition, d.id, NO_CAPABILITY));
    }
    if |d.requirements| > STAGE_CAPABILITY_CAPACITY || |d.provided| > STAGE_CAPABILITY_CAPACITY
       || |d.skipped| > STAGE_CAPABILITY_CAPACITY {
      return Some(Refusal(TooManyStageCapabilities, d.id, NO_CAPABILITY));
    }
    if d.skipPreservesHealth && (d.required || |d.skipped| == 0) {
      return Some(Refusal(InvalidNeutralSkip, d.id, NO_CAPABILITY));
    }
    var other := 0;
    while other < i
      invariant other <= i
      invariant forall j :: 0 <= j < other ==> ds[j].id != d.id
    {
      if ds[other].id == d.id {
        return Some(Refusal(DuplicateStage, d.id, NO_CAPABILITY));
      }
      other := other + 1;
    }
    fault := CheckRequirements(d);
    if fault.None? {
      fault := ClaimOutcomes(ds, i, providers);
    }
  }

  method CheckDeclarations(ds: seq<Descriptor>, providers: array<nat>) returns (fault: Option<Fault>)
    requires |ds| <= STAGE_CAPACITY && providers.Length == CAPABILITY_COUNT
    modifies providers
    ensures fault == DeclarationFault(ds, 0)
    ensures fault.None? ==> Tracks(providers, ds, |ds|)
  {
    hide DescriptorFault;
    for c := 0 to CAPABILITY_COUNT
      invariant forall e :: 0 <= e < c ==> providers[e] == STAGE_CAPACITY
    {
      providers[c] := STAGE_CAPACITY;
    }
    var i := 0;
    while i < |ds|
      invariant i <= |ds|
      invariant Tracks(providers, ds, i)
      invariant DeclarationFault(ds, 0) == DeclarationFault(ds, i)
    {
      fault := CheckDescriptor(ds, i, providers);
      if fault.Some? {
        return;
      }
      i := i + 1;
    }
    return None;
  }

  method CheckProviders(ds: seq<Descriptor>, providers: array<nat>) returns (fault: Option<Fault>)
    requires Tracks(providers, ds, |ds|)
    requires forall i :: 0 <= i < |ds| ==> WellDeclared(ds[i])
    ensures fault == MissingFault(ds, 0)
  {
    var i := 0;
    while i < |ds|
      invariant i <= |ds|
      invariant MissingFault(ds, 0) == MissingFault(ds, i)
    {
      var d := ds[i];
      assert WellDeclared(d);
      var k := 0;
      while k < |d.requirements|
        invariant k <= |d.requirements|
        invariant UnmetFault(ds, i, 0) == UnmetFault(ds, i, k)
      {
        if providers[d.requirements[k]] == STAGE_CAPACITY {
          return Some(Refusal(MissingCapabilityProvider, d.id, d.requirements[k]));
        }
        k := k + 1;
      }
      i := i + 1;
    }
    return None;
  }

  /** The k-th demand of an irreversible class, if there is one. */
  method IrreversibleRequirementAt(irreversibleClass: nat, k: nat) returns (demand: Option<nat>)
    ensures var demands := IrreversibleRequirements(irreversibleClass);
      demand == if k < |demands| then Some(demands[k]) else None
    ensures demand.Some? ==> CapabilityIsKnown(demand.value)
  {
    var demands := IrreversibleRequirements(irreversibleClass);
    if k >= |demands| {
      return None;
    }
    return Some(demands[k]);
  }

  method CheckClass(ds: seq<Descriptor>, i: nat, providers: array<nat>, ghost demands: seq<nat>)
    returns (fault: Option<Fault>)
    requires i < |ds| <= STAGE_CAPACITY && Tracks(providers, ds, |ds|)
    requires demands == IrreversibleRequirements(ds[i].irreversibleClass)
    ensures fault == ClassFault(ds, i, demands, 0)
  {
    var d := ds[i];
    var k := 0;
    while true
      invariant k <= |demands|
      invariant ClassFault(ds, i, demands, 0) == ClassFault(ds, i, demands, k)
      decreases |demands| - k
    {
      var demand := IrreversibleRequirementAt(d.irreversibleClass, k);
      if demand.None? {
        return None;
      }
      var c := demand.value;
      ProviderMeaning(ds, c, |ds|);
      if c !in d.requirements || providers[c] == STAGE_CAPACITY || ds[providers[c]].phase > d.phase {
        return Some(Refusal(IrreversibleStageOrderedTooEarly, d.id, c));
      }
      k := k + 1;
    }
  }

  method CheckClasses(ds: seq<Descriptor>, providers: array<nat>) returns (fault: Option<Fault>)
    requires |ds| <= STAGE_CAPACITY && Tracks(providers, ds, |ds|)
    ensures fault == IrreversibleFault(ds, 0)
  {
    var i := 0;
    while i < |ds|
      invariant i <= |ds|
      invariant IrreversibleFault(ds, 0) == IrreversibleFault(ds, i)
    {
      fault := CheckClass(ds, i, providers, IrreversibleRequirements(ds[i].irreversibleClass));
      if fault.Some? {
        return;
      }
      i := i + 1;
    }
    return None;
  }

  method CheckPhases(ds: seq<Descriptor>, providers: array<nat>) returns (fault: Option<Fault>)
    requires StaticallyLegal(ds) && Tracks(providers, ds, |ds|)
    ensures fault == PhaseFault(ds, 0)
  {
    var i := 0;
    while i < |ds|
      invariant i <= |ds|
      invariant PhaseFault(ds, 0) == PhaseFault(ds, i)
    {
      var d := ds[i];
      assert WellDeclared(d);
      var k := 0;
      while k < |d.requirements|
        invariant k <= |d.requirements|
        invariant EdgePhaseFault(ds, i, 0) == EdgePhaseFault(ds, i, k)
      {
        var c := d.requirements[k];
        assert HasProvider(ds, c);
        ProviderMeaning(ds, c, |ds|);
        if ds[providers[c]].phase > d.phase {
          return Some(Refusal(InvalidPhaseTransition, d.id, c));
        }
        k := k + 1;
      }
      i := i + 1;
    }
    return None;
  }

  // ----- greedy selection -----

  ghost predicate Marks(planned: array<bool>, order: seq<nat>)
    reads planned
  {
    forall i :: 0 <= i < planned.Length ==> (planned[i] <==> i in order)
  }

  /** A stage is ready exactly when the recorded provider of each requirement is placed. */
  lemma ReadyByProviders(ds: seq<Descriptor>, order: seq<nat>, i: nat)
    requires StaticallyLegal(ds) && i < |ds|
    ensures Ready(GraphOf(ds), order, i) <==>
      i !in order && forall c :: c in ds[i].requirements ==> Provider(ds, c, |ds|) in order
  {
    var g := GraphOf(ds);
    if Ready(g, order, i) {
      forall c | c in ds[i].requirements ensures Provider(ds, c, |ds|) in order {
        assert HasProvider(ds, c);
        ProviderMeaning(ds, c, |ds|);
        assert DependsOn(ds, i, Provider(ds, c, |ds|));
      }
    }
    if i !in order && forall c :: c in ds[i].requirements ==> Provider(ds, c, |ds|) in order {
      forall j | j in g.needs[i] ensures j in order {
        var c: nat :| c in ds[i].requirements && Provides(ds[j], c);
        ProviderUnique(ds, c, j);
      }
    }
  }

  method IsReady(ds: seq<Descriptor>, i: nat, providers: array<nat>, planned: array<bool>, ghost order: seq<nat>)
    returns (ready: bool)
    requires StaticallyLegal(ds) && i < |ds| && Tracks(providers, ds, |ds|)
    requires planned.Length == |ds| && Marks(planned, order)
    ensures ready <==> Ready(GraphOf(ds), order, i)
  {
    var d := ds[i];
    assert WellDeclared(d);
    ReadyByProviders(ds, order, i);
    ready := !planned[i];
    if !ready {
      return;
    }
    var k := 0;
    while ready && k < |d.requirements|
      invariant k <= |d.requirements|
      invariant ready ==> forall m :: 0 <= m < k ==> Provider(ds, d.requirements[m], |ds|) in order
      invariant !ready ==> exists m :: 0 <= m < |d.requirements| && Provider(ds, d.requirements[m], |ds|) !in order
    {
      assert HasProvider(ds, d.requirements[k]);
      ProviderMeaning(ds, d.requirements[k], |ds|);
      var provider := providers[d.requirements[k]];
      ready := provider != STAGE_CAPACITY && planned[provider];
      k := k + 1;
    }
  }

  /** The least ready stage, or STAGE_CAPACITY when none is ready. */
  method SelectReady(ds: seq<Descriptor>, providers: array<nat>, planned: array<bool>, ghost order: seq<nat>)
    returns (selected: nat)
    requires StaticallyLegal(ds) && Tracks(providers, ds, |ds|)
    requires WellFormed(GraphOf(ds))
    requires planned.Length == |ds| && Marks(planned, order)
    ensures selected == STAGE_CAPACITY ==> Stuck(GraphOf(ds), order)
    ensures selected != STAGE_CAPACITY ==> Chosen(GraphOf(ds), order, selected)
  {
    ghost var g := GraphOf(ds);
    selected := STAGE_CAPACITY;
    var i := 0;
    while i < |ds|
      invariant i <= |ds|
      invariant selected == STAGE_CAPACITY ==> forall j: nat :: j < i ==> !Ready(g, order, j)
      invariant selected != STAGE_CAPACITY ==> selected < i && Ready(g, order, selected)
      invariant selected != STAGE_CAPACITY ==>
        forall j: nat :: j < i && Ready(g, order, j) && j != selected ==> Before(g.keys[selected], g.keys[j])
    {
      var ready := IsReady(ds, i, providers, planned, order);
      if ready {
        if selected == STAGE_CAPACITY || ds[i].phase < ds[selected].phase
           || (ds[i].phase == ds[selected].phase && ds[i].id < ds[selected].id) {
          selected := i;
        }
      }
      i := i + 1;
    }
  }

  /** `stage` is the least id among the stages that depend on a cycle. */
  ghost predicate LowestBlocked(ds: seq<Descriptor>, stage: nat) {
    && (exists i: nat :: i < |ds| && Doomed(GraphOf(ds), i) && ds[i].id == stage)
    && (forall i: nat :: i < |ds| && Doomed(GraphOf(ds), i) ==> stage <= ds[i].id)
  }

  /** Least id among the stages that could not be placed. */
  method LowestUnplanned(ds: seq<Descriptor>, planned: array<bool>, ghost order: seq<nat>) returns (stage: nat)
    requires StaticallyLegal(ds) && planned.Length == |ds| && Marks(planned, order)
    requires exists i: nat :: i < |ds| && i !in order
    ensures exists i: nat :: i < |ds| && i !in order && ds[i].id == stage
    ensures forall i: nat :: i < |ds| && i !in order ==> stage <= ds[i].id
  {
    stage := NO_STAGE;
    var i := 0;
    while i < |ds|
      invariant i <= |ds|
      invariant stage == NO_STAGE ==> forall j: nat :: j < i ==> j in order
      invariant stage != NO_STAGE ==> exists j: nat :: j < i && j !in order && ds[j].id == stage
      invariant stage != NO_STAGE ==> forall j: nat :: j < i && j !in order ==> stage <= ds[j].id
    {
      assert WellDeclared(ds[i]);
      if !planned[i] && (stage == NO_STAGE || ds[i].id < stage) {
        stage := ds[i].id;
      }
      i := i + 1;
    }
  }

  datatype Planning = Planning(order: seq<nat>, ids: seq<nat>, fault: Option<Fault>)

  /** Greedy planning of a statically legal plan. */
  method PlanOrder(ds: seq<Descriptor>, providers: array<nat>) returns (p: Planning)
    requires StaticallyLegal(ds) && Tracks(providers, ds, |ds|)
    requires WellFormed(GraphOf(ds))
    ensures Greedy(GraphOf(ds), p.order) && Stuck(GraphOf(ds), p.order)
    ensures |p.ids| == |p.order|
    ensures forall k :: 0 <= k < |p.order| ==> p.order[k] < |ds| && p.ids[k] == ds[p.order[k]].id
    ensures p.fault.Some? <==> Cyclic(GraphOf(ds))
    ensures p.fault.None? ==> |p.order| == |ds|
    ensures p.fault.Some? ==>
      && p.fault.value.status == CapabilityDependencyCycle
      && p.fault.value.capability == NO_CAPABILITY
      && LowestBlocked(ds, p.fault.value.stage)
  {
    ghost var g := GraphOf(ds);
    var planned := new bool[|ds|](_ => false);
    var order: seq<nat>, ids: seq<nat> := [], [];
    while |order| < |ds|
      invariant Greedy(g, order) && |order| <= |ds| && |ids| == |order|
      invariant Marks(planned, order)
      invariant forall k :: 0 <= k < |order| ==> order[k] < |ds| && ids[k] == ds[order[k]].id
      decreases |ds| - |order|
    {
      var selected := SelectReady(ds, providers, planned, order);
      if selected == STAGE_CAPACITY {
        GreedyShape(g, order);
        StuckShortIffCyclic(g, order);
        Blocked(ds, order);
        var stage := LowestUnplanned(ds, planned, order);
        return Planning(order, ids, Some(Refusal(CapabilityDependencyCycle, stage, NO_CAPABILITY)));
      }
      ExtendGreedy(g, order, selected);
      GreedyShape(g, order + [selected]);
      order := order + [selected];
      ids := ids + [ds[selected].id];
      planned[selected] := true;
    }
    Complete(g, order);
    return Planning(order, ids, None);
  }

  /** When selection stops short, what is left is what depends on a cycle. */
  lemma Blocked(ds: seq<Descriptor>, order: seq<nat>)
    requires WellFormed(GraphOf(ds)) && Legal(GraphOf(ds), order) && Stuck(GraphOf(ds), order)
    requires |order| < |ds|
    ensures exists i: nat :: i < |ds| && i !in order
    ensures forall i: nat :: i < |ds| ==> (i !in order <==> Doomed(GraphOf(ds), i))
  {
    if forall i :: 0 <= i < |ds| ==> i in order {
      CoverLength(order, |ds|);
    }
    forall i: nat | i < |ds| ensures i !in order <==> Doomed(GraphOf(ds), i) {
      StuckMeansDoomed(GraphOf(ds), order, i);
    }
  }

  lemma Complete(g: Graph, order: seq<nat>)
    requires WellFormed(g) && Greedy(g, order) && |order| == |g.needs|
    ensures Stuck(g, order) && !Cyclic(g)
  {
    GreedyShape(g, order);
    forall i: nat ensures !Ready(g, order, i) {
      if i < |g.needs| { DistinctOnto(order, i); }
    }
    StuckShortIffCyclic(g, order);
  }

  /** Everything checked before ordering, leaving the provider table filled in. */
  method CheckStatic(ds: seq<Descriptor>, providers: array<nat>) returns (fault: Option<Fault>)
    requires providers.Length == CAPABILITY_COUNT
    modifies providers
    ensures fault == StaticFault(ds)
    ensures fault.None? ==> Tracks(providers, ds, |ds|)
  {
    if |ds| == 0 {
      return Some(Refusal(EmptyPlan, NO_STAGE, NO_CAPABILITY));
    }
    if |ds| > STAGE_CAPACITY {
      return Some(Refusal(TooManyStages, NO_STAGE, NO_CAPABILITY));
    }
    fault := CheckDeclarations(ds, providers);
    if fault.Some? {
      return;
    }
    assert forall i :: 0 <= i < |ds| ==> WellDeclared(ds[i]) by {
      DeclarationFaultMeaning(ds, 0);
      forall i | 0 <= i < |ds| ensures WellDeclared(ds[i]) {
        DescriptorFaultMeaning(ds, i);
      }
    }
    fault := CheckProviders(ds, providers);
    if fault.Some? {
      return;
    }
    fault := CheckClasses(ds, providers);
  }

  /** The refusal planning must report for a plan that is not legal. */
  ghost predicate RefusedAs(ds: seq<Descriptor>, r: Refusal) {
    if StaticFault(ds).Some? then r == StaticFault(ds).value
    else if Cyclic(GraphOf(ds)) then
      r.status == CapabilityDependencyCycle && r.capability == NO_CAPABILITY && LowestBlocked(ds, r.stage)
    else PhaseFault(ds, 0) == Some(r)
  }

  /** What planning leaves behind, refused or not: the greedy order of every
      stage that could be placed, or nothing after a static refusal. */
  ghost predicate PlannedAs(ds: seq<Descriptor>, order: seq<nat>, ids: seq<nat>) {
    && |ids| == |order|
    && (forall k :: 0 <= k < |order| ==> order[k] < |ds| && ids[k] == ds[order[k]].id)
    && (StaticFault(ds).Some? ==> order == [])
    && (StaticFault(ds).None? ==>
          WellFormed(GraphOf(ds)) && Greedy(GraphOf(ds), order) && Stuck(GraphOf(ds), order))
  }

  /** Planning as a whole: accepts exactly the legal plans. */
  method PlanStages(ds: seq<Descriptor>) returns (p: Planning)
    ensures p.fault.None? <==> LegalPlan(ds)
    ensures p.fault.None? ==> CanonicalOrder(ds, p.order)
    ensures p.fault.Some? ==> RefusedAs(ds, p.fault.value)
    ensures PlannedAs(ds, p.order, p.ids)
  {
    StaticFaultMeaning(ds);
    var providers := new nat[CAPABILITY_COUNT](_ => STAGE_CAPACITY);
    var fault := CheckStatic(ds, providers);
    if fault.Some? {
      return Planning([], [], fault);
    }
    GraphWellFormed(ds);
    p := PlanOrder(ds, providers);
    if p.fault.Some? {
      return;
    }
    PhaseMeaning(ds);
    fault := CheckPhases(ds, providers);
    return Planning(p.order, p.ids, fault);
  }
}
