/** Declaration order never matters: permuting the descriptors, or the
    capability lists inside them, changes neither whether the plan is legal nor
    the sequence of stages it is run in. */
module PlanEquivalence {
  import opened Seqs
  import opened LedgerTypes
  import opened Scheduling
  import opened PlanRules

  /** The same stage, up to the order of its three capability lists. */
  ghost predicate SameStage(a: Descriptor, b: Descriptor) {
    && a.id == b.id && a.named == b.named && a.callable == b.callable
    && a.required == b.required && a.skipPreservesHealth == b.skipPreservesHealth
    && a.phase == b.phase && a.irreversibleClass == b.irreversibleClass
    && multiset(a.requirements) == multiset(b.requirements)
    && multiset(a.provided) == multiset(b.provided)
    && multiset(a.skipped) == multiset(b.skipped)
  }

  /** es lists the stages of ds in another order: its k-th stage is stage p[k] of ds. */
  ghost predicate Rearranged(ds: seq<Descriptor>, es: seq<Descriptor>, p: seq<nat>) {
    && |p| == |ds| == |es|
    && Permutation(p)
    && (forall k :: 0 <= k < |p| ==> SameStage(es[k], ds[p[k]]))
  }

  lemma SameStageFacts(a: Descriptor, b: Descriptor)
    requires SameStage(a, b)
    ensures SameStage(b, a)
    ensures WellDeclared(a) <==> WellDeclared(b)
    ensures forall c :: Provides(a, c) <==> Provides(b, c)
    ensures forall c :: c in a.requirements <==> c in b.requirements
  {
    SameContents(a.requirements, b.requirements);
    SameContents(a.provided, b.provided);
    SameContents(a.skipped, b.skipped);
    SameKnown(a.requirements, b.requirements);
    SameKnown(a.provided, b.provided);
    SameKnown(a.skipped, b.skipped);
  }

  lemma SameKnown(a: seq<nat>, b: seq<nat>)
    requires forall x :: x in a <==> x in b
    ensures AllKnown(a) <==> AllKnown(b)
  {
    if AllKnown(a) {
      forall k | 0 <= k < |b| ensures CapabilityIsKnown(b[k]) { assert b[k] in a; }
    }
    if AllKnown(b) {
      forall k | 0 <= k < |a| ensures CapabilityIsKnown(a[k]) { assert a[k] in b; }
    }
  }

  lemma RearrangedFacts(ds: seq<Descriptor>, es: seq<Descriptor>, p: seq<nat>)
    requires Rearranged(ds, es, p)
    ensures forall k: nat :: k < |p| ==> (WellDeclared(es[k]) <==> WellDeclared(ds[p[k]]))
    ensures forall k: nat, c :: k < |p| ==> (Provides(es[k], c) <==> Provides(ds[p[k]], c))
    ensures forall k: nat, c :: k < |p| ==> (c in es[k].requirements <==> c in ds[p[k]].requirements)
  {
    forall k: nat | k < |p|
      ensures WellDeclared(es[k]) <==> WellDeclared(ds[p[k]])
      ensures forall c :: Provides(es[k], c) <==> Provides(ds[p[k]], c)
      ensures forall c :: c in es[k].requirements <==> c in ds[p[k]].requirements
    {
      SameStageFacts(es[k], ds[p[k]]);
    }
  }

  /** Rearrangement can be undone. */
  lemma RearrangedInverse(ds: seq<Descriptor>, es: seq<Descriptor>, p: seq<nat>) returns (q: seq<nat>)
    requires Rearranged(ds, es, p)
    ensures Rearranged(es, ds, q)
  {
    q := seq(|p|, i requires 0 <= i < |p| => Position(p, i));
    forall i: nat | i < |p| ensures SameStage(ds[i], es[q[i]]) {
      SameStageFacts(es[q[i]], ds[p[q[i]]]);
    }
  }

  lemma HasProviderCarries(ds: seq<Descriptor>, es: seq<Descriptor>, p: seq<nat>, c: nat, phase: nat)
    requires Rearranged(ds, es, p)
    ensures HasProvider(ds, c) ==> HasProvider(es, c)
    ensures ProvidedBy(ds, c, phase) ==> ProvidedBy(es, c, phase)
  {
    RearrangedFacts(ds, es, p);
    if HasProvider(ds, c) {
      var j: nat :| j < |ds| && Provides(ds[j], c);
      var k := Position(p, j);
      assert Provides(es[k], c);
    }
    if ProvidedBy(ds, c, phase) {
      var j: nat :| j < |ds| && Provides(ds[j], c) && ds[j].phase <= phase;
      var k := Position(p, j);
      assert Provides(es[k], c) && es[k].phase <= phase;
    }
  }

  lemma StaticallyLegalCarries(ds: seq<Descriptor>, es: seq<Descriptor>, p: seq<nat>)
    requires Rearranged(ds, es, p) && StaticallyLegal(ds)
    ensures StaticallyLegal(es)
  {
    RearrangedFacts(ds, es, p);
    forall i, j | 0 <= i < j < |es| ensures es[i].id != es[j].id {
      assert p[i] != p[j] && ds[p[i]].id != ds[p[j]].id;
    }
    forall i: nat, j: nat, c: nat ensures !SharedOutcome(es, i, j, c) {
      if i < |p| && j < |p| && i != j { assert !SharedOutcome(ds, p[i], p[j], c); }
    }
    forall i: nat, c: nat | i < |es| && c in es[i].requirements ensures HasProvider(es, c) {
      assert c in ds[p[i]].requirements;
      HasProviderCarries(ds, es, p, c, 0);
    }
    ClassesCarry(ds, es, p);
  }

  lemma ClassesCarry(ds: seq<Descriptor>, es: seq<Descriptor>, p: seq<nat>)
    requires Rearranged(ds, es, p) && ClassesHonoured(ds)
    ensures ClassesHonoured(es)
  {
    RearrangedFacts(ds, es, p);
    forall i: nat, c: nat | i < |es| && c in IrreversibleRequirements(es[i].irreversibleClass)
      ensures c in es[i].requirements && ProvidedBy(es, c, es[i].phase)
    {
      assert SameStage(es[i], ds[p[i]]);
      HasProviderCarries(ds, es, p, c, es[i].phase);
    }
  }

  lemma DependsOnCarries(ds: seq<Descriptor>, es: seq<Descriptor>, p: seq<nat>, k: nat, l: nat)
    requires Rearranged(ds, es, p) && k < |p| && l < |p|
    ensures DependsOn(es, k, l) <==> DependsOn(ds, p[k], p[l])
  {
    RearrangedFacts(ds, es, p);
    if DependsOn(es, k, l) {
      var c: nat :| c in es[k].requirements && Provides(es[l], c);
      assert c in ds[p[k]].requirements && Provides(ds[p[l]], c);
    }
    if DependsOn(ds, p[k], p[l]) {
      var c: nat :| c in ds[p[k]].requirements && Provides(ds[p[l]], c);
      assert c in es[k].requirements && Provides(es[l], c);
    }
  }

  lemma GraphCarries(ds: seq<Descriptor>, es: seq<Descriptor>, p: seq<nat>)
    requires Rearranged(ds, es, p)
    ensures Relisted(GraphOf(ds), GraphOf(es), p)
  {
    var g, h := GraphOf(ds), GraphOf(es);
    forall k, l | 0 <= k < |p| && 0 <= l < |p| ensures l in h.needs[k] <==> p[l] in g.needs[p[k]] {
      DependsOnCarries(ds, es, p, k, l);
    }
    forall k | 0 <= k < |p| ensures h.keys[k] == g.keys[p[k]] {
      assert SameStage(es[k], ds[p[k]]);
    }
  }

  lemma LegalPlanCarries(ds: seq<Descriptor>, es: seq<Descriptor>, p: seq<nat>)
    requires Rearranged(ds, es, p) && LegalPlan(ds)
    ensures LegalPlan(es)
  {
    StaticallyLegalCarries(ds, es, p);
    GraphWellFormed(ds);
    GraphWellFormed(es);
    GraphCarries(ds, es, p);
    RelistedCyclic(GraphOf(ds), GraphOf(es), p);
    forall k: nat, l: nat | DependsOn(es, k, l) ensures es[l].phase <= es[k].phase {
      DependsOnCarries(ds, es, p, k, l);
      assert SameStage(es[k], ds[p[k]]) && SameStage(es[l], ds[p[l]]);
    }
  }

  /** Whether a plan is legal does not depend on how it was declared. */
  lemma LegalityIgnoresDeclarationOrder(ds: seq<Descriptor>, es: seq<Descriptor>, p: seq<nat>)
    requires Rearranged(ds, es, p)
    ensures LegalPlan(es) <==> LegalPlan(ds)
  {
    var q := RearrangedInverse(ds, es, p);
    if LegalPlan(ds) { LegalPlanCarries(ds, es, p); }
    if LegalPlan(es) { LegalPlanCarries(es, ds, q); }
  }

  /** The complete greedy order of a legal plan. */
  ghost predicate CanonicalOrder(ds: seq<Descriptor>, o: seq<nat>) {
    && DistinctIds(ds)
    && |o| == |ds|
    && WellFormed(GraphOf(ds))
    && Greedy(GraphOf(ds), o)
  }

  /** The two declarations run the same stages in the same order. */
  lemma OrderIgnoresDeclarationOrder(
    ds: seq<Descriptor>, es: seq<Descriptor>, p: seq<nat>, o: seq<nat>, t: seq<nat>)
    requires Rearranged(ds, es, p)
    requires CanonicalOrder(ds, o) && CanonicalOrder(es, t)
    ensures |o| == |t|
    ensures forall k :: 0 <= k < |o| ==> o[k] < |ds| && t[k] < |es| && SameStage(es[t[k]], ds[o[k]])
  {
    var g, h := GraphOf(ds), GraphOf(es);
    GreedyShape(g, o);
    GreedyShape(h, t);
    GraphCarries(ds, es, p);
    RelistedGreedy(g, h, p, t);
    GreedyUnique(g, o, Renamed(p, t));
    forall k | 0 <= k < |o| ensures SameStage(es[t[k]], ds[o[k]]) {
      assert o[k] == p[t[k]];
    }
  }
}
