/** Every refusal of a plan, and of a record, is true of it: the stage and the capability it names
    are really at fault in the way it says. A plan of which no refusal is true passes. */
module PlanDiagnosis {
  import opened Seqs
  import opened LedgerTypes
  import opened PlanRules
  import opened Execution
  import opened ExecutionProofs
  import opened ReceiptAudit

  ghost predicate Twice(cs: seq<nat>, c: nat) {
    exists a, b :: 0 <= a < b < |cs| && cs[a] == c && cs[b] == c
  }

  /** Stage i of the plan is at fault in this way, over this capability. */
  ghost predicate AtFault(ds: seq<Descriptor>, i: nat, status: Status, c: nat)
    requires i < |ds|
  {
    var d := ds[i];
    match status
    case UnknownStageIdentifier => c == 0 && !(1 <= d.id <= 43)
    case InvalidPhaseTransition =>
      || (c == 0 && (d.phase > 7 || d.irreversibleClass > 5 || !d.named || !d.callable))
      || (c in d.requirements && exists j :: 0 <= j < |ds| && Provides(ds[j], c) && ds[j].phase > d.phase)
    case TooManyStageCapabilities => c == 0 && (|d.requirements| > 18 || |d.provided| > 18 || |d.skipped| > 18)
    case InvalidNeutralSkip => c == 0 && d.skipPreservesHealth && (d.required || d.skipped == [])
    case DuplicateStage => c == 0 && exists j :: 0 <= j < i && ds[j].id == d.id
    case UnknownCapability => (c in d.requirements || Provides(d, c)) && !(1 <= c <= 56)
    case DuplicateCapabilityRequirement => Twice(d.requirements, c)
    case DuplicateCapabilityProvider =>
      || Twice(d.provided, c) || Twice(d.skipped, c)
      || (Provides(d, c) && exists j :: 0 <= j < i && Provides(ds[j], c))
    case MissingCapabilityProvider => c in d.requirements && !HasProvider(ds, c)
    case IrreversibleStageOrderedTooEarly =>
      && c in IrreversibleRequirements(d.irreversibleClass)
      && (c !in d.requirements || !ProvidedBy(ds, c, d.phase))
    case _ => false
  }

  /** What a refusal says of a plan. */
  ghost predicate True(ds: seq<Descriptor>, r: Refusal) {
    match r.status
    case EmptyPlan => ds == [] && r.stage == 0 && r.capability == 0
    case TooManyStages => |ds| > 43 && r.stage == 0 && r.capability == 0
    case _ => exists i: nat :: i < |ds| && ds[i].id == r.stage && AtFault(ds, i, r.status, r.capability)
  }

  lemma ShapeTrue(ds: seq<Descriptor>, i: nat)
    requires i < |ds|
    ensures ShapeFault(ds[i]).Some? ==> True(ds, ShapeFault(ds[i]).value)
  {
  }

  lemma DuplicateTrue(ds: seq<Descriptor>, i: nat)
    requires i < |ds|
    ensures DuplicateStageFault(ds, i).Some? ==> True(ds, DuplicateStageFault(ds, i).value)
  {
  }

  lemma TwiceNow(cs: seq<nat>, k: nat)
    requires k < |cs| && cs[k] in cs[..k]
    ensures Twice(cs, cs[k])
  {
    var a :| 0 <= a < k && cs[..k][a] == cs[k];
    assert cs[a] == cs[k];
  }

  lemma {:induction false} RequirementTrue(ds: seq<Descriptor>, i: nat, k: nat)
    requires i < |ds| && k <= |ds[i].requirements|
    ensures RequirementFault(ds[i], k).Some? ==> True(ds, RequirementFault(ds[i], k).value)
    decreases |ds[i].requirements| - k
  {
    hide Twice;
    var d := ds[i];
    if k < |d.requirements| {
      if d.requirements[k] in d.requirements[..k] { TwiceNow(d.requirements, k); }
      RequirementTrue(ds, i, k + 1);
    }
  }

  lemma SharedOrTwice(ds: seq<Descriptor>, i: nat, k: nat)
    requires i < |ds| <= STAGE_CAPACITY && k < |Outcomes(ds[i])|
    requires ProviderAt(ds, i, k, Outcomes(ds[i])[k]) != STAGE_CAPACITY && !CommonOutcome(ds, i, k)
    ensures AtFault(ds, i, DuplicateCapabilityProvider, Outcomes(ds[i])[k])
  {
    var d := ds[i];
    var c, n := Outcomes(d)[k], |d.provided|;
    hide Twice;
    ProviderMeaning(ds, c, i);
    if Provider(ds, c, i) == STAGE_CAPACITY {
      if k < n {
        assert Outcomes(d)[..k] == d.provided[..k];
        TwiceNow(d.provided, k);
      } else {
        assert Outcomes(d)[..k] == d.provided + d.skipped[..k - n];
        if c in d.skipped[..k - n] { TwiceNow(d.skipped, k - n); }
      }
    }
  }

  lemma {:induction false} OutcomeTrue(ds: seq<Descriptor>, i: nat, k: nat)
    requires i < |ds| <= STAGE_CAPACITY && k <= |Outcomes(ds[i])|
    ensures OutcomeFault(ds, i, k).Some? ==> True(ds, OutcomeFault(ds, i, k).value)
    decreases |Outcomes(ds[i])| - k
  {
    hide Twice, ProviderAt, CommonOutcome;
    if k < |Outcomes(ds[i])| {
      var c := Outcomes(ds[i])[k];
      if CapabilityIsKnown(c) && ProviderAt(ds, i, k, c) != STAGE_CAPACITY && !CommonOutcome(ds, i, k) {
        SharedOrTwice(ds, i, k);
      } else {
        OutcomeTrue(ds, i, k + 1);
      }
    }
  }

  lemma {:induction false} DeclarationTrue(ds: seq<Descriptor>, i: nat)
    requires i <= |ds| <= STAGE_CAPACITY
    ensures DeclarationFault(ds, i).Some? ==> True(ds, DeclarationFault(ds, i).value)
    decreases |ds| - i
  {
    hide True, ShapeFault, DuplicateStageFault, RequirementFault, OutcomeFault;
    if i < |ds| {
      ShapeTrue(ds, i);
      DuplicateTrue(ds, i);
      RequirementTrue(ds, i, 0);
      OutcomeTrue(ds, i, 0);
      DeclarationTrue(ds, i + 1);
    }
  }

  lemma {:induction false} UnmetTrue(ds: seq<Descriptor>, i: nat, k: nat)
    requires i < |ds| <= STAGE_CAPACITY && k <= |ds[i].requirements|
    ensures UnmetFault(ds, i, k).Some? ==> True(ds, UnmetFault(ds, i, k).value)
    decreases |ds[i].requirements| - k
  {
    if k < |ds[i].requirements| {
      ProviderMeaning(ds, ds[i].requirements[k], |ds|);
      UnmetTrue(ds, i, k + 1);
    }
  }

  lemma {:induction false} MissingTrue(ds: seq<Descriptor>, i: nat)
    requires i <= |ds| <= STAGE_CAPACITY
    ensures MissingFault(ds, i).Some? ==> True(ds, MissingFault(ds, i).value)
    decreases |ds| - i
  {
    hide True, UnmetFault;
    if i < |ds| {
      UnmetTrue(ds, i, 0);
      MissingTrue(ds, i + 1);
    }
  }

  lemma TooEarly(ds: seq<Descriptor>, i: nat, c: nat)
    requires i < |ds| <= STAGE_CAPACITY && ExclusiveProviders(ds)
    requires Provider(ds, c, |ds|) == STAGE_CAPACITY || LaterPhase(ds, c, ds[i].phase)
    ensures !ProvidedBy(ds, c, ds[i].phase)
  {
    ProviderMeaning(ds, c, |ds|);
    if ProvidedBy(ds, c, ds[i].phase) {
      var j :| 0 <= j < |ds| && Provides(ds[j], c) && ds[j].phase <= ds[i].phase;
      ProviderUnique(ds, c, j);
    }
  }

  lemma {:induction false} ClassTrue(ds: seq<Descriptor>, i: nat, demands: seq<nat>, k: nat)
    requires i < |ds| <= STAGE_CAPACITY && ExclusiveProviders(ds) && k <= |demands|
    requires demands == IrreversibleRequirements(ds[i].irreversibleClass)
    ensures ClassFault(ds, i, demands, k).Some? ==> True(ds, ClassFault(ds, i, demands, k).value)
    decreases |demands| - k
  {
    hide IrreversibleRequirements, ProvidedBy, ExclusiveProviders, LaterPhase;
    if k < |demands| {
      var c := demands[k];
      if Provider(ds, c, |ds|) == STAGE_CAPACITY || LaterPhase(ds, c, ds[i].phase) { TooEarly(ds, i, c); }
      ClassTrue(ds, i, demands, k + 1);
    }
  }

  lemma {:induction false} IrreversibleTrue(ds: seq<Descriptor>, i: nat)
    requires i <= |ds| <= STAGE_CAPACITY && ExclusiveProviders(ds)
    ensures IrreversibleFault(ds, i).Some? ==> True(ds, IrreversibleFault(ds, i).value)
    decreases |ds| - i
  {
    hide True, ClassFault, IrreversibleRequirements;
    if i < |ds| {
      ClassTrue(ds, i, IrreversibleRequirements(ds[i].irreversibleClass), 0);
      IrreversibleTrue(ds, i + 1);
    }
  }

  lemma {:induction false} EdgeTrue(ds: seq<Descriptor>, i: nat, k: nat)
    requires i < |ds| <= STAGE_CAPACITY && k <= |ds[i].requirements|
    ensures EdgePhaseFault(ds, i, k).Some? ==> True(ds, EdgePhaseFault(ds, i, k).value)
    decreases |ds[i].requirements| - k
  {
    if k < |ds[i].requirements| {
      ProviderMeaning(ds, ds[i].requirements[k], |ds|);
      EdgeTrue(ds, i, k + 1);
    }
  }

  lemma {:induction false} PhaseTrue(ds: seq<Descriptor>, i: nat)
    requires i <= |ds| <= STAGE_CAPACITY
    ensures PhaseFault(ds, i).Some? ==> True(ds, PhaseFault(ds, i).value)
    decreases |ds| - i
  {
    hide True, EdgePhaseFault;
    if i < |ds| {
      EdgeTrue(ds, i, 0);
      PhaseTrue(ds, i + 1);
    }
  }

  /** Whatever the static checks refuse a plan for is true of it. */
  lemma StaticFaultTrue(ds: seq<Descriptor>)
    ensures StaticFault(ds).Some? ==> True(ds, StaticFault(ds).value)
  {
    if 0 < |ds| <= STAGE_CAPACITY {
      DeclarationTrue(ds, 0);
      MissingTrue(ds, 0);
      if DeclarationFault(ds, 0).None? {
        Exclusive(ds);
        IrreversibleTrue(ds, 0);
      }
      hide True;
    }
  }

  lemma Exclusive(ds: seq<Descriptor>)
    requires |ds| <= STAGE_CAPACITY && DeclarationFault(ds, 0).None?
    ensures ExclusiveProviders(ds)
  {
    DeclarationFaultMeaning(ds, 0);
    hide DescriptorFault, DeclarationFault;
    forall i: nat | i < |ds| ensures NewOutcomes(ds, i) { DescriptorFaultMeaning(ds, i); }
    forall i: nat, j: nat, c: nat ensures !SharedOutcome(ds, i, j, c) {
      if i < |ds| && j < |ds| && i != j {
        var hi, lo := if i < j then j else i, if i < j then i else j;
        assert NewOutcomes(ds, hi) && !SharedOutcome(ds, hi, lo, c);
      }
    }
  }

  lemma NoFaultIn(ds: seq<Descriptor>, i: nat, status: Status, c: nat)
    requires StaticallyLegal(ds) && PhaseOrdered(ds) && i < |ds|
    ensures !AtFault(ds, i, status, c)
  {
    hide ProvidedBy, HasProvider, IrreversibleRequirements, Twice, PhaseOrdered, ExclusiveProviders, Provides;
    KnownHere(ds[i], c);
    NoneLater(ds, i, c);
    NoneShared(ds, i, c);
  }

  lemma NoneLater(ds: seq<Descriptor>, i: nat, c: nat)
    requires PhaseOrdered(ds) && i < |ds|
    ensures c in ds[i].requirements ==>
      forall j :: 0 <= j < |ds| && Provides(ds[j], c) ==> ds[j].phase <= ds[i].phase
  {
    forall j | c in ds[i].requirements && 0 <= j < |ds| && Provides(ds[j], c) ensures ds[j].phase <= ds[i].phase {
      assert DependsOn(ds, i, j);
    }
  }

  lemma NoneShared(ds: seq<Descriptor>, i: nat, c: nat)
    requires ExclusiveProviders(ds) && i < |ds|
    ensures Provides(ds[i], c) ==> forall j :: 0 <= j < i ==> !Provides(ds[j], c)
  {
    forall j | Provides(ds[i], c) && 0 <= j < i ensures !Provides(ds[j], c) {
      assert !SharedOutcome(ds, i, j, c);
    }
  }

  lemma KnownHere(d: Descriptor, c: nat)
    requires WellDeclared(d)
    ensures c in d.requirements || Provides(d, c) ==> 1 <= c <= 56
    ensures !Twice(d.requirements, c) && !Twice(d.provided, c) && !Twice(d.skipped, c)
  {
  }

  /** A plan passes every check but the search for a cycle exactly when no refusal is true of it. */
  lemma PassesExactly(ds: seq<Descriptor>)
    ensures StaticFault(ds).None? && PhaseFault(ds, 0).None? <==> forall r: Refusal :: !True(ds, r)
  {
    hide AtFault, StaticFault, PhaseFault, StaticallyLegal, PhaseOrdered;
    StaticFaultMeaning(ds);
    if StaticFault(ds).Some? {
      StaticFaultTrue(ds);
    } else {
      LegalSize(ds);
      PhaseMeaning(ds);
      if PhaseFault(ds, 0).Some? {
        PhaseTrue(ds, 0);
      } else {
        forall r: Refusal ensures !True(ds, r) {
          forall i: nat | i < |ds| ensures !AtFault(ds, i, r.status, r.capability) {
            NoFaultIn(ds, i, r.status, r.capability);
          }
        }
      }
    }
  }

  lemma LegalSize(ds: seq<Descriptor>)
    requires StaticallyLegal(ds)
    ensures 1 <= |ds| <= 43
  {
  }

  // ----- refusals of a record -----

  ghost predicate Misnumbered(planned: seq<Option<Descriptor>>, receipts: seq<Receipt>, k: nat)
    requires k < |receipts| == |planned|
  {
    || planned[k].None? || receipts[k].stage != planned[k].value.id || receipts[k].sequence != k + 1
    || exists j :: 0 <= j < k && receipts[j].stage == receipts[k].stage
  }

  /** The receipt cannot be one of its stage, whatever else the record says. */
  ghost predicate Malformed(d: Descriptor, r: Receipt) {
    || |r.provided| > 18 || |r.counters| > 2 || r.outcome > 2
    || r.status != (if r.outcome == 0 then Ok else if r.outcome == 1 then OptionalStageSkipped else OptionalStageFailed)
    || (d.required && r.outcome != 0)
  }

  /** Receipt k is at fault in this way, over this capability. */
  ghost predicate ReceiptAtFault(
    planned: seq<Option<Descriptor>>, receipts: seq<Receipt>, k: nat, status: Status, c: nat)
    requires k < |receipts| == |planned|
  {
    var r, before := receipts[k], Flatten(receipts[..k]);
    if status == UnknownStageIdentifier then c == 0 && !(1 <= r.stage <= 43)
    else if status == InstalledPlanDiffersValidatedPlan then c == 0 && Misnumbered(planned, receipts, k)
    else if planned[k].None? then false
    else
      var d := planned[k].value;
      var declared := Declared(d, r.outcome);
      if status == StageExecutedBeforeRequirements then r.outcome != 1 && c in d.requirements && c !in before
      else if status == UnknownCapability then c in r.provided && !(1 <= c <= 56)
      else if status == UndeclaredCapabilityProvided then c in r.provided && c !in declared
      else if status == DuplicateCapabilityProvider then c in r.provided && c in before
      else
        && status == ReceiptMismatch
        && (|| (c == 0 && (Malformed(d, r) || |r.provided| != |declared|))
            || Twice(r.provided, c) || (c in declared && c !in r.provided)
            || (c in r.provided && |before| + |r.provided| > 57))
  }

  /** What a refusal says of a record. */
  ghost predicate TrueOfRecord(
    planned: seq<Option<Descriptor>>, receipts: seq<Receipt>, established: seq<nat>, r: Refusal)
  {
    if |receipts| != |planned| then r == Refusal(ReceiptMismatch, 0, 0)
    else
      || (exists k: nat :: k < |receipts| && receipts[k].stage == r.stage
            && ReceiptAtFault(planned, receipts, k, r.status, r.capability))
      || (r.status == ReceiptMismatch && r.stage == 0 && r.capability == 0 && |Flatten(receipts)| != |established|)
      || (r.status == ReceiptMismatch && r.stage == 0 && r.capability in Flatten(receipts)
            && (r.capability !in established || !(1 <= r.capability <= 56)))
  }

  lemma ShapeMeaning(d: Descriptor, r: Receipt)
    ensures BadShape(r) || (d.required && (r.outcome != RAN || r.status != Ok)) <==> Malformed(d, r)
  {
  }

  lemma {:induction false} ProvidedTrue(
    planned: seq<Option<Descriptor>>, receipts: seq<Receipt>, k: nat, d: Descriptor, p: nat)
    requires k < |receipts| == |planned| && planned[k] == Some(d) && receipts[k].stage == d.id
    requires p <= |receipts[k].provided|
    ensures var r := receipts[k];
      var fault := ProvidedFault(d.id, Declared(d, r.outcome), r.provided, Flatten(receipts[..k]), p);
      fault.Some? ==>
        && fault.value.stage == d.id
        && ReceiptAtFault(planned, receipts, k, fault.value.status, fault.value.capability)
    decreases |receipts[k].provided| - p
  {
    hide Twice, Flatten, Declared;
    var r, before := receipts[k], Flatten(receipts[..k]);
    if p < |r.provided| {
      var c := r.provided[p];
      if c in r.provided[..p] { TwiceNow(r.provided, p); }
      assert c in before + r.provided[..p] <==> c in before || c in r.provided[..p];
      ProvidedTrue(planned, receipts, k, d, p + 1);
    }
  }

  lemma {:induction false} OutsideMember(cs: seq<nat>, allowed: seq<nat>, k: nat)
    requires k <= |cs|
    ensures var r := FirstOutside(cs, allowed, k); r.Some? ==> r.value in cs && r.value !in allowed
    decreases |cs| - k
  {
    if k < |cs| { OutsideMember(cs, allowed, k + 1); }
  }

  lemma ContentTrue(planned: seq<Option<Descriptor>>, receipts: seq<Receipt>, k: nat, d: Descriptor)
    requires k < |receipts| == |planned| && planned[k] == Some(d) && receipts[k].stage == d.id
    ensures var fault := ContentFault(d, receipts[k], Flatten(receipts[..k]));
      fault.Some? ==>
        && fault.value.stage == d.id
        && ReceiptAtFault(planned, receipts, k, fault.value.status, fault.value.capability)
  {
    hide Twice, Flatten, ProvidedFault, FirstOutside, Malformed;
    var r := receipts[k];
    ProvidedTrue(planned, receipts, k, d, 0);
    OutsideMember(Declared(d, r.outcome), r.provided, 0);
  }

  lemma ReceiptTrue(planned: seq<Option<Descriptor>>, receipts: seq<Receipt>, k: nat)
    requires k < |receipts| == |planned|
    ensures var fault := ReceiptFault(planned[k], receipts, k, Flatten(receipts[..k]));
      fault.Some? ==>
        && fault.value.stage == receipts[k].stage
        && ReceiptAtFault(planned, receipts, k, fault.value.status, fault.value.capability)
  {
    hide Twice, Flatten, ContentFault, FirstOutside, Malformed, BadShape, Declared;
    if planned[k].Some? && receipts[k].stage == planned[k].value.id {
      var d := planned[k].value;
      ShapeMeaning(d, receipts[k]);
      OutsideMember(d.requirements, Flatten(receipts[..k]), 0);
      ContentTrue(planned, receipts, k, d);
    }
  }

  lemma {:induction false} UnheldTrue(caps: seq<nat>, established: seq<nat>, k: nat)
    requires k <= |caps|
    ensures var r := FirstUnheld(caps, established, k);
      r.Some? ==> r.value in caps && (r.value !in established || !(1 <= r.value <= 56))
    decreases |caps| - k
  {
    if k < |caps| { UnheldTrue(caps, established, k + 1); }
  }

  lemma {:induction false} AuditFromTrue(
    planned: seq<Option<Descriptor>>, receipts: seq<Receipt>, established: seq<nat>, k: nat)
    requires k <= |receipts| == |planned|
    ensures var fault := AuditFrom(planned, receipts, established, k);
      fault.Some? ==> TrueOfRecord(planned, receipts, established, fault.value)
    decreases |receipts| - k
  {
    hide Flatten, ReceiptFault, ReceiptAtFault, FirstUnheld;
    if k == |receipts| {
      UnheldTrue(Flatten(receipts), established, 0);
    } else {
      ReceiptTrue(planned, receipts, k);
      AuditFromTrue(planned, receipts, established, k + 1);
    }
  }

  /** Whatever the verifier refuses a record for is true of it. */
  lemma AuditTrue(planned: seq<Option<Descriptor>>, receipts: seq<Receipt>, established: seq<nat>)
    ensures var fault := Audit(planned, receipts, established);
      fault.Some? ==> TrueOfRecord(planned, receipts, established, fault.value)
  {
    if |receipts| == |planned| { AuditFromTrue(planned, receipts, established, 0); }
  }
}
