/** What makes a set of stage descriptors a legal boot plan, stated twice: as
    the ordered list of refusals the planner can report, and as a declarative
    predicate. The two are proved to agree, and legality is proved independent
    of the order in which anything was declared. */
module PlanRules {
  import opened Seqs
  import opened LedgerTypes
  import opened Scheduling

  // ----- refusals, in reporting order -----

  function Either<T>(a: Option<T>, b: Option<T>): Option<T> {
    if a.Some? then a else b
  }

  /** Index of the first of the first n descriptors with outcome c, or STAGE_CAPACITY. */
  function Provider(ds: seq<Descriptor>, c: nat, n: nat): nat
    requires n <= |ds|
    decreases n
  {
    if n == 0 then STAGE_CAPACITY
    else
      var earlier := Provider(ds, c, n - 1);
      if earlier != STAGE_CAPACITY then earlier
      else if c in Outcomes(ds[n - 1]) then n - 1
      else STAGE_CAPACITY
  }

  /** The provider of c once the first k outcomes of descriptor i have been claimed. */
  function ProviderAt(ds: seq<Descriptor>, i: nat, k: nat, c: nat): nat
    requires i < |ds| && k <= |Outcomes(ds[i])|
  {
    var earlier := Provider(ds, c, i);
    if earlier != STAGE_CAPACITY then earlier
    else if c in Outcomes(ds[i])[..k] then i
    else STAGE_CAPACITY
  }

  function ShapeFault(d: Descriptor): Option<Fault> {
    if !StageIsKnown(d.id) then
      Some(Refusal(UnknownStageIdentifier, d.id, NO_CAPABILITY))
    else if d.phase >= PHASE_COUNT || d.irreversibleClass >= IRREVERSIBLE_COUNT || !d.named || !d.callable then
      Some(Refusal(InvalidPhaseTransition, d.id, NO_CAPABILITY))
    else if |d.requirements| > STAGE_CAPABILITY_CAPACITY || |d.provided| > STAGE_CAPABILITY_CAPACITY
            || |d.skipped| > STAGE_CAPABILITY_CAPACITY then
      Some(Refusal(TooManyStageCapabilities, d.id, NO_CAPABILITY))
    else if d.skipPreservesHealth && (d.required || |d.skipped| == 0) then
      Some(Refusal(InvalidNeutralSkip, d.id, NO_CAPABILITY))
    else None
  }

  function DuplicateStageFault(ds: seq<Descriptor>, i: nat): Option<Fault>
    requires i < |ds|
  {
    if exists j :: 0 <= j < i && ds[j].id == ds[i].id then
      Some(Refusal(DuplicateStage, ds[i].id, NO_CAPABILITY))
    else None
  }

  /** The first fault among requirements k.. of one descriptor. */
  function RequirementFault(d: Descriptor, k: nat): Option<Fault>
    requires k <= |d.requirements|
    decreases |d.requirements| - k
  {
    if k == |d.requirements| then None
    else if !CapabilityIsKnown(d.requirements[k]) then
      Some(Refusal(UnknownCapability, d.id, d.requirements[k]))
    else if d.requirements[k] in d.requirements[..k] then
      Some(Refusal(DuplicateCapabilityRequirement, d.id, d.requirements[k]))
    else RequirementFault(d, k + 1)
  }

  /** A capability may appear in both the success and the skip list of one stage, once each. */
  predicate CommonOutcome(ds: seq<Descriptor>, i: nat, k: nat)
    requires i < |ds| && k < |Outcomes(ds[i])|
  {
    var d := ds[i];
    var c := Outcomes(d)[k];
    && k >= |d.provided|
    && ProviderAt(ds, i, k, c) == i
    && c in d.provided
    && c !in d.skipped[..k - |d.provided|]
  }

  /** The first fault among outcomes k.. of descriptor i. */
  function OutcomeFault(ds: seq<Descriptor>, i: nat, k: nat): Option<Fault>
    requires i < |ds| && k <= |Outcomes(ds[i])|
    decreases |Outcomes(ds[i])| - k
  {
    var d := ds[i];
    if k == |Outcomes(d)| then None
    else
      var c := Outcomes(d)[k];
      if !CapabilityIsKnown(c) then Some(Refusal(UnknownCapability, d.id, c))
      else if ProviderAt(ds, i, k, c) != STAGE_CAPACITY && !CommonOutcome(ds, i, k) then
        Some(Refusal(DuplicateCapabilityProvider, d.id, c))
      else OutcomeFault(ds, i, k + 1)
  }

  function DescriptorFault(ds: seq<Descriptor>, i: nat): Option<Fault>
    requires i < |ds|
  {
    Either(ShapeFault(ds[i]),
    Either(DuplicateStageFault(ds, i),
    Either(RequirementFault(ds[i], 0), OutcomeFault(ds, i, 0))))
  }

  /** The first fault of descriptors i.. on their own. */
  function DeclarationFault(ds: seq<Descriptor>, i: nat): Option<Fault>
    requires i <= |ds|
    decreases |ds| - i
  {
    if i == |ds| then None else Either(DescriptorFault(ds, i), DeclarationFault(ds, i + 1))
  }

  function UnmetFault(ds: seq<Descriptor>, i: nat, k: nat): Option<Fault>
    requires i < |ds| && k <= |ds[i].requirements|
    decreases |ds[i].requirements| - k
  {
    var d := ds[i];
    if k == |d.requirements| then None
    else if Provider(ds, d.requirements[k], |ds|) == STAGE_CAPACITY then
      Some(Refusal(MissingCapabilityProvider, d.id, d.requirements[k]))
    else UnmetFault(ds, i, k + 1)
  }

  function MissingFault(ds: seq<Descriptor>, i: nat): Option<Fault>
    requires i <= |ds|
    decreases |ds| - i
  {
    if i == |ds| then None else Either(UnmetFault(ds, i, 0), MissingFault(ds, i + 1))
  }

  predicate LaterPhase(ds: seq<Descriptor>, c: nat, phase: nat) {
    var p := Provider(ds, c, |ds|);
    p < |ds| && ds[p].phase > phase
  }

  function ClassFault(ds: seq<Descriptor>, i: nat, demands: seq<nat>, k: nat): Option<Fault>
    requires i < |ds| && k <= |demands|
    decreases |demands| - k
  {
    var d := ds[i];
    if k == |demands| then None
    else if demands[k] !in d.requirements || Provider(ds, demands[k], |ds|) == STAGE_CAPACITY
            || LaterPhase(ds, demands[k], d.phase) then
      Some(Refusal(IrreversibleStageOrderedTooEarly, d.id, demands[k]))
    else ClassFault(ds, i, demands, k + 1)
  }

  function IrreversibleFault(ds: seq<Descriptor>, i: nat): Option<Fault>
    requires i <= |ds|
    decreases |ds| - i
  {
    if i == |ds| then None
    else Either(ClassFault(ds, i, IrreversibleRequirements(ds[i].irreversibleClass), 0), IrreversibleFault(ds, i + 1))
  }

  function EdgePhaseFault(ds: seq<Descriptor>, i: nat, k: nat): Option<Fault>
    requires i < |ds| && k <= |ds[i].requirements|
    decreases |ds[i].requirements| - k
  {
    var d := ds[i];
    if k == |d.requirements| then None
    else if LaterPhase(ds, d.requirements[k], d.phase) then
      Some(Refusal(InvalidPhaseTransition, d.id, d.requirements[k]))
    else EdgePhaseFault(ds, i, k + 1)
  }

  function PhaseFault(ds: seq<Descriptor>, i: nat): Option<Fault>
    requires i <= |ds|
    decreases |ds| - i
  {
    if i == |ds| then None else Either(EdgePhaseFault(ds, i, 0), PhaseFault(ds, i + 1))
  }

  /** Everything checked before any ordering is attempted. */
  function StaticFault(ds: seq<Descriptor>): Option<Fault> {
    if |ds| == 0 then Some(Refusal(EmptyPlan, NO_STAGE, NO_CAPABILITY))
    else if |ds| > STAGE_CAPACITY then Some(Refusal(TooManyStages, NO_STAGE, NO_CAPABILITY))
    else Either(DeclarationFault(ds, 0), Either(MissingFault(ds, 0), IrreversibleFault(ds, 0)))
  }

  // ----- declarative legality -----

  ghost predicate AllKnown(cs: seq<nat>) {
    forall k :: 0 <= k < |cs| ==> CapabilityIsKnown(cs[k])
  }

  ghost predicate WellDeclared(d: Descriptor) {
    && StageIsKnown(d.id)
    && d.phase < PHASE_COUNT && d.irreversibleClass < IRREVERSIBLE_COUNT && d.named && d.callable
    && |d.requirements| <= STAGE_CAPABILITY_CAPACITY
    && |d.provided| <= STAGE_CAPABILITY_CAPACITY
    && |d.skipped| <= STAGE_CAPABILITY_CAPACITY
    && (d.skipPreservesHealth ==> !d.required && d.skipped != [])
    && Distinct(d.requirements) && Distinct(d.provided) && Distinct(d.skipped)
    && AllKnown(d.requirements) && AllKnown(d.provided) && AllKnown(d.skipped)
  }

  ghost predicate Provides(d: Descriptor, c: nat) {
    c in d.provided || c in d.skipped
  }

  ghost predicate SharedOutcome(ds: seq<Descriptor>, i: nat, j: nat, c: nat) {
    i < |ds| && j < |ds| && i != j && Provides(ds[i], c) && Provides(ds[j], c)
  }

  ghost predicate ExclusiveProviders(ds: seq<Descriptor>) {
    forall i: nat, j: nat, c: nat :: !SharedOutcome(ds, i, j, c)
  }

  /** Some stage of phase at most `phase` can establish c. */
  ghost predicate ProvidedBy(ds: seq<Descriptor>, c: nat, phase: nat) {
    exists j :: 0 <= j < |ds| && Provides(ds[j], c) && ds[j].phase <= phase
  }

  ghost predicate HasProvider(ds: seq<Descriptor>, c: nat) {
    exists j :: 0 <= j < |ds| && Provides(ds[j], c)
  }

  ghost predicate RequirementsProvided(ds: seq<Descriptor>) {
    forall i: nat, c: nat :: i < |ds| && c in ds[i].requirements ==> HasProvider(ds, c)
  }

  ghost predicate ClassesHonoured(ds: seq<Descriptor>) {
    forall i: nat, c: nat :: 0 <= i < |ds| && c in IrreversibleRequirements(ds[i].irreversibleClass) ==>
      c in ds[i].requirements && ProvidedBy(ds, c, ds[i].phase)
  }

  ghost predicate DistinctIds(ds: seq<Descriptor>) {
    forall i, j :: 0 <= i < j < |ds| ==> ds[i].id != ds[j].id
  }

  ghost predicate StaticallyLegal(ds: seq<Descriptor>) {
    && 1 <= |ds| <= STAGE_CAPACITY
    && (forall i :: 0 <= i < |ds| ==> WellDeclared(ds[i]))
    && DistinctIds(ds)
    && ExclusiveProviders(ds)
    && RequirementsProvided(ds)
    && ClassesHonoured(ds)
  }

  // ----- the dependency graph of a plan -----

  ghost predicate DependsOn(ds: seq<Descriptor>, i: nat, j: nat) {
    && i < |ds| && j < |ds|
    && exists c: nat :: c in ds[i].requirements && Provides(ds[j], c)
  }

  ghost function NeedsOf(ds: seq<Descriptor>, i: nat): set<nat>
    requires i < |ds|
  {
    set j | 0 <= j < |ds| && DependsOn(ds, i, j)
  }

  function KeyOf(d: Descriptor): Key {
    Key(d.phase, d.id)
  }

  ghost function GraphOf(ds: seq<Descriptor>): (g: Graph)
    ensures |g.needs| == |g.keys| == |ds|
  {
    Graph(seq(|ds|, i requires 0 <= i < |ds| => NeedsOf(ds, i)),
          seq(|ds|, i requires 0 <= i < |ds| => KeyOf(ds[i])))
  }

  lemma GraphWellFormed(ds: seq<Descriptor>)
    requires DistinctIds(ds)
    ensures WellFormed(GraphOf(ds))
  {
    var g := GraphOf(ds);
    forall i, j | 0 <= i < j < |ds| ensures g.keys[i] != g.keys[j] {
      assert g.keys[i].id == ds[i].id && g.keys[j].id == ds[j].id;
    }
  }

  ghost predicate PhaseOrdered(ds: seq<Descriptor>) {
    forall i: nat, j: nat :: DependsOn(ds, i, j) ==> ds[j].phase <= ds[i].phase
  }

  /** A plan the ledger accepts: statically legal, acyclic and phase ordered. */
  ghost predicate LegalPlan(ds: seq<Descriptor>) {
    StaticallyLegal(ds) && !Cyclic(GraphOf(ds)) && PhaseOrdered(ds)
  }

  // ----- the refusals agree with legality -----

  lemma {:induction false} ProviderMeaning(ds: seq<Descriptor>, c: nat, n: nat)
    requires n <= |ds| && n <= STAGE_CAPACITY
    ensures var p := Provider(ds, c, n);
      if p == STAGE_CAPACITY then forall j :: 0 <= j < n ==> !Provides(ds[j], c)
      else p < n && Provides(ds[p], c) && forall j :: 0 <= j < p ==> !Provides(ds[j], c)
    decreases n
  {
    if n > 0 { ProviderMeaning(ds, c, n - 1); }
  }

  /** Under exclusive providers, any stage that provides c is the provider of c. */
  lemma ProviderUnique(ds: seq<Descriptor>, c: nat, j: nat)
    requires |ds| <= STAGE_CAPACITY && ExclusiveProviders(ds)
    requires j < |ds| && Provides(ds[j], c)
    ensures Provider(ds, c, |ds|) == j
  {
    ProviderMeaning(ds, c, |ds|);
    assert !SharedOutcome(ds, Provider(ds, c, |ds|), j, c);
  }

  lemma {:induction false} RequirementFaultMeaning(d: Descriptor, k: nat)
    requires k <= |d.requirements|
    ensures RequirementFault(d, k).None? <==>
      forall m :: k <= m < |d.requirements| ==>
        CapabilityIsKnown(d.requirements[m]) && d.requirements[m] !in d.requirements[..m]
    decreases |d.requirements| - k
  {
    if k < |d.requirements| { RequirementFaultMeaning(d, k + 1); }
  }

  ghost predicate OutcomeAllowed(ds: seq<Descriptor>, i: nat, m: nat)
    requires i < |ds| && m < |Outcomes(ds[i])|
  {
    var d := ds[i];
    var c := Outcomes(d)[m];
    && CapabilityIsKnown(c)
    && Provider(ds, c, i) == STAGE_CAPACITY
    && (if m < |d.provided| then c !in d.provided[..m] else c !in d.skipped[..m - |d.provided|])
  }

  lemma {:induction false} OutcomeFaultMeaning(ds: seq<Descriptor>, i: nat, k: nat)
    requires i < |ds| <= STAGE_CAPACITY && k <= |Outcomes(ds[i])|
    ensures OutcomeFault(ds, i, k).None? <==>
      forall m :: k <= m < |Outcomes(ds[i])| ==> OutcomeAllowed(ds, i, m)
    decreases |Outcomes(ds[i])| - k
  {
    var d := ds[i];
    if k < |Outcomes(d)| {
      OutcomeFaultMeaning(ds, i, k + 1);
      ProviderMeaning(ds, Outcomes(d)[k], i);
      if k < |d.provided| {
        assert Outcomes(d)[..k] == d.provided[..k];
      } else {
        assert Outcomes(d)[..k] == d.provided + d.skipped[..k - |d.provided|];
      }
      var c := Outcomes(d)[k];
      assert OutcomeAllowed(ds, i, k) <==>
        CapabilityIsKnown(c) && (ProviderAt(ds, i, k, c) == STAGE_CAPACITY || CommonOutcome(ds, i, k));
    }
  }

  /** No earlier descriptor shares an outcome with descriptor i. */
  ghost predicate NewOutcomes(ds: seq<Descriptor>, i: nat) {
    forall j: nat, c: nat :: j < i ==> !SharedOutcome(ds, i, j, c)
  }

  lemma OutcomesAllowedMeaning(ds: seq<Descriptor>, i: nat)
    requires i < |ds| <= STAGE_CAPACITY
    ensures (forall m :: 0 <= m < |Outcomes(ds[i])| ==> OutcomeAllowed(ds, i, m)) <==>
      && AllKnown(ds[i].provided) && AllKnown(ds[i].skipped)
      && Distinct(ds[i].provided) && Distinct(ds[i].skipped)
      && NewOutcomes(ds, i)
  {
    var d := ds[i];
    var n := |d.provided|;
    if forall m :: 0 <= m < |Outcomes(d)| ==> OutcomeAllowed(ds, i, m) {
      forall m | 0 <= m < n ensures CapabilityIsKnown(d.provided[m]) && d.provided[m] !in d.provided[..m] {
        assert OutcomeAllowed(ds, i, m);
      }
      forall m | 0 <= m < |d.skipped| ensures CapabilityIsKnown(d.skipped[m]) && d.skipped[m] !in d.skipped[..m] {
        assert OutcomeAllowed(ds, i, n + m);
      }
      forall j: nat, c: nat | j < i ensures !SharedOutcome(ds, i, j, c) {
        if Provides(d, c) {
          assert c in Outcomes(d);
          var m :| 0 <= m < |Outcomes(d)| && Outcomes(d)[m] == c;
          assert OutcomeAllowed(ds, i, m);
          ProviderMeaning(ds, c, i);
        }
      }
    }
    if && AllKnown(d.provided) && AllKnown(d.skipped)
       && Distinct(d.provided) && Distinct(d.skipped)
       && NewOutcomes(ds, i) {
      forall m | 0 <= m < |Outcomes(d)| ensures OutcomeAllowed(ds, i, m) {
        var c := Outcomes(d)[m];
        ProviderMeaning(ds, c, i);
        assert !SharedOutcome(ds, i, Provider(ds, c, i), c);
      }
    }
  }

  lemma DescriptorFaultMeaning(ds: seq<Descriptor>, i: nat)
    requires i < |ds| <= STAGE_CAPACITY
    ensures DescriptorFault(ds, i).None? <==>
      && WellDeclared(ds[i])
      && (forall j :: 0 <= j < i ==> ds[j].id != ds[i].id)
      && NewOutcomes(ds, i)
  {
    var d := ds[i];
    RequirementFaultMeaning(d, 0);
    OutcomeFaultMeaning(ds, i, 0);
    OutcomesAllowedMeaning(ds, i);
    assert (forall m :: 0 <= m < |d.requirements| ==> d.requirements[m] !in d.requirements[..m])
      <==> Distinct(d.requirements);
  }

  lemma {:induction false} DeclarationFaultMeaning(ds: seq<Descriptor>, i: nat)
    requires i <= |ds| <= STAGE_CAPACITY
    ensures DeclarationFault(ds, i).None? <==> forall k :: i <= k < |ds| ==> DescriptorFault(ds, k).None?
    decreases |ds| - i
  {
    hide DescriptorFault;
    if i < |ds| { DeclarationFaultMeaning(ds, i + 1); }
  }

  lemma {:induction false} UnmetFaultMeaning(ds: seq<Descriptor>, i: nat, k: nat)
    requires i < |ds| && k <= |ds[i].requirements|
    ensures UnmetFault(ds, i, k).None? <==>
      forall m :: k <= m < |ds[i].requirements| ==> Provider(ds, ds[i].requirements[m], |ds|) != STAGE_CAPACITY
    decreases |ds[i].requirements| - k
  {
    if k < |ds[i].requirements| { UnmetFaultMeaning(ds, i, k + 1); }
  }

  lemma {:induction false} MissingFaultMeaning(ds: seq<Descriptor>, i: nat)
    requires i <= |ds|
    ensures MissingFault(ds, i).None? <==>
      forall k: nat, c: nat :: i <= k < |ds| && c in ds[k].requirements ==> Provider(ds, c, |ds|) != STAGE_CAPACITY
    decreases |ds| - i
  {
    if i < |ds| {
      UnmetFaultMeaning(ds, i, 0);
      MissingFaultMeaning(ds, i + 1);
    }
  }

  ghost predicate ClassMet(ds: seq<Descriptor>, i: nat, c: nat)
    requires i < |ds|
  {
    && c in ds[i].requirements
    && Provider(ds, c, |ds|) != STAGE_CAPACITY
    && !LaterPhase(ds, c, ds[i].phase)
  }

  lemma {:induction false} ClassFaultMeaning(ds: seq<Descriptor>, i: nat, demands: seq<nat>, k: nat)
    requires i < |ds| && k <= |demands|
    ensures ClassFault(ds, i, demands, k).None? <==>
      forall m :: k <= m < |demands| ==> ClassMet(ds, i, demands[m])
    decreases |demands| - k
  {
    if k < |demands| { ClassFaultMeaning(ds, i, demands, k + 1); }
  }

  ghost predicate ClassAllMet(ds: seq<Descriptor>, i: nat, demands: seq<nat>)
    requires i < |ds|
  {
    forall m :: 0 <= m < |demands| ==> ClassMet(ds, i, demands[m])
  }

  lemma {:induction false} IrreversibleFaultMeaning(ds: seq<Descriptor>, i: nat)
    requires i <= |ds|
    ensures IrreversibleFault(ds, i).None? <==>
      forall k :: i <= k < |ds| ==> ClassAllMet(ds, k, IrreversibleRequirements(ds[k].irreversibleClass))
    decreases |ds| - i
  {
    hide IrreversibleRequirements, ClassFault;
    if i < |ds| {
      var demands := IrreversibleRequirements(ds[i].irreversibleClass);
      ClassFaultMeaning(ds, i, demands, 0);
      assert ClassFault(ds, i, demands, 0).None? <==> ClassAllMet(ds, i, demands);
      IrreversibleFaultMeaning(ds, i + 1);
    }
  }

  lemma {:induction false} EdgePhaseFaultMeaning(ds: seq<Descriptor>, i: nat, k: nat)
    requires i < |ds| && k <= |ds[i].requirements|
    ensures EdgePhaseFault(ds, i, k).None? <==>
      forall m :: k <= m < |ds[i].requirements| ==> !LaterPhase(ds, ds[i].requirements[m], ds[i].phase)
    decreases |ds[i].requirements| - k
  {
    if k < |ds[i].requirements| { EdgePhaseFaultMeaning(ds, i, k + 1); }
  }

  lemma {:induction false} PhaseFaultMeaning(ds: seq<Descriptor>, i: nat)
    requires i <= |ds|
    ensures PhaseFault(ds, i).None? <==>
      forall k: nat, c: nat :: i <= k < |ds| && c in ds[k].requirements ==> !LaterPhase(ds, c, ds[k].phase)
    decreases |ds| - i
  {
    if i < |ds| {
      EdgePhaseFaultMeaning(ds, i, 0);
      PhaseFaultMeaning(ds, i + 1);
    }
  }

  lemma ExclusiveByOrder(ds: seq<Descriptor>)
    ensures ExclusiveProviders(ds) <==> forall i: nat :: i < |ds| ==> NewOutcomes(ds, i)
  {
    if forall i: nat :: i < |ds| ==> NewOutcomes(ds, i) {
      forall i: nat, j: nat, c: nat ensures !SharedOutcome(ds, i, j, c) {
        if i < |ds| && j < |ds| && i != j {
          assert NewOutcomes(ds, if i < j then j else i);
          assert SharedOutcome(ds, i, j, c) <==> SharedOutcome(ds, j, i, c);
        }
      }
    }
  }

  lemma ProvidedMeaning(ds: seq<Descriptor>)
    requires |ds| <= STAGE_CAPACITY
    ensures MissingFault(ds, 0).None? <==> RequirementsProvided(ds)
  {
    MissingFaultMeaning(ds, 0);
    forall c: nat ensures Provider(ds, c, |ds|) != STAGE_CAPACITY <==> HasProvider(ds, c) {
      ProviderMeaning(ds, c, |ds|);
      if HasProvider(ds, c) {
        var j :| 0 <= j < |ds| && Provides(ds[j], c);
      }
    }
    if MissingFault(ds, 0).None? {
      forall i: nat, c: nat | i < |ds| && c in ds[i].requirements ensures HasProvider(ds, c) {
        assert Provider(ds, c, |ds|) != STAGE_CAPACITY;
      }
      assert RequirementsProvided(ds);
    }
    if RequirementsProvided(ds) {
      forall k: nat, c: nat | k < |ds| && c in ds[k].requirements ensures Provider(ds, c, |ds|) != STAGE_CAPACITY {
        assert HasProvider(ds, c);
      }
      assert MissingFault(ds, 0).None?;
    }
  }

  lemma ClassesMeaningAt(ds: seq<Descriptor>, i: nat, demands: seq<nat>)
    requires i < |ds| <= STAGE_CAPACITY && ExclusiveProviders(ds)
    ensures ClassAllMet(ds, i, demands) <==>
      forall c: nat :: c in demands ==> c in ds[i].requirements && ProvidedBy(ds, c, ds[i].phase)
  {
    forall c: nat
      ensures ClassMet(ds, i, c) <==> c in ds[i].requirements && ProvidedBy(ds, c, ds[i].phase)
    {
      ProviderMeaning(ds, c, |ds|);
      forall j: nat | j < |ds| && Provides(ds[j], c) ensures Provider(ds, c, |ds|) == j {
        ProviderUnique(ds, c, j);
      }
    }
  }

  lemma ClassesMeaning(ds: seq<Descriptor>)
    requires |ds| <= STAGE_CAPACITY && ExclusiveProviders(ds)
    ensures IrreversibleFault(ds, 0).None? <==> ClassesHonoured(ds)
  {
    IrreversibleFaultMeaning(ds, 0);
    forall i: nat | i < |ds|
      ensures var demands := IrreversibleRequirements(ds[i].irreversibleClass);
        ClassAllMet(ds, i, demands) <==>
        forall c: nat :: c in demands ==> c in ds[i].requirements && ProvidedBy(ds, c, ds[i].phase)
    {
      ClassesMeaningAt(ds, i, IrreversibleRequirements(ds[i].irreversibleClass));
    }
  }

  /** The planner's static checks pass exactly on the statically legal plans. */
  lemma StaticFaultMeaning(ds: seq<Descriptor>)
    ensures StaticFault(ds).None? <==> StaticallyLegal(ds)
  {
    if 1 <= |ds| <= STAGE_CAPACITY {
      DeclarationFaultMeaning(ds, 0);
      forall i | 0 <= i < |ds|
        ensures DescriptorFault(ds, i).None? <==>
          WellDeclared(ds[i]) && (forall j :: 0 <= j < i ==> ds[j].id != ds[i].id) && NewOutcomes(ds, i)
      {
        DescriptorFaultMeaning(ds, i);
      }
      ExclusiveByOrder(ds);
      ProvidedMeaning(ds);
      if ExclusiveProviders(ds) { ClassesMeaning(ds); }
    }
  }

  lemma PhaseMeaning(ds: seq<Descriptor>)
    requires StaticallyLegal(ds)
    ensures PhaseFault(ds, 0).None? <==> PhaseOrdered(ds)
  {
    PhaseFaultMeaning(ds, 0);
    forall i: nat, c: nat | 0 <= i < |ds| && c in ds[i].requirements
      ensures var p := Provider(ds, c, |ds|); p < |ds| && DependsOn(ds, i, p)
      ensures forall j :: 0 <= j < |ds| && Provides(ds[j], c) ==> j == Provider(ds, c, |ds|)
    {
      ProviderMeaning(ds, c, |ds|);
      assert HasProvider(ds, c);
      forall j | 0 <= j < |ds| && Provides(ds[j], c) ensures Provider(ds, c, |ds|) == j {
        ProviderUnique(ds, c, j);
      }
    }
  }
}
