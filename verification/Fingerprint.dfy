/** The 64-bit fingerprints of a plan and of its receipts. Collision resistance
    is not claimed; what is proved is that the fingerprint is a function of the
    abstract plan, so two declarations of one plan hash alike. */
module Fingerprint {
  import opened Architecture
  import opened Seqs
  import opened LedgerTypes
  import opened PlanEquivalence

  const OFFSET: nat := 14695981039346656037
  const PRIME: nat := 1099511628211
  const VERSION: nat := 1

  function StatusCode(status: Status): nat {
    match status
    case Ok => 0
    case EmptyPlan => 2
    case NotValidated => 3
    case AlreadyExecuted => 4
    case UnknownStageIdentifier => 5
    case UnknownCapability => 6
    case TooManyStages => 7
    case TooManyReceipts => 8
    case TooManyStageCapabilities => 9
    case InvalidNeutralSkip => 10
    case DuplicateStage => 11
    case DuplicateCapabilityRequirement => 12
    case DuplicateCapabilityProvider => 13
    case MissingCapabilityProvider => 14
    case CapabilityDependencyCycle => 15
    case InvalidPhaseTransition => 16
    case IrreversibleStageOrderedTooEarly => 17
    case RequiredStageSkipped => 18
    case UndeclaredCapabilityProvided => 19
    case StageExecutedBeforeRequirements => 20
    case RequiredStageFailed => 21
    case OptionalStageFailed => 22
    case OptionalStageSkipped => 23
    case ReceiptMismatch => 24
    case PlanFingerprintMismatch => 25
    case InstalledPlanDiffersValidatedPlan => 26
  }

  function Flag(b: bool): nat { if b then 1 else 0 }

  // ----- what the fingerprints are -----

  /** Bitwise exclusive or. */
  function Xor(a: nat, b: nat): nat
    decreases a, b
  {
    if a == 0 then b
    else if b == 0 then a
    else (if a % 2 == b % 2 then 0 else 1) + 2 * Xor(a / 2, b / 2)
  }

  function Shifted(value: nat, k: nat): nat {
    if k == 0 then value else Shifted(value, k - 1) / 256
  }

  /** The eight bytes of a word, least significant first. */
  function LittleEndian(value: nat): (r: seq<nat>)
    ensures |r| == 8
  {
    seq(8, k requires 0 <= k < 8 => Shifted(value, k) % 256)
  }

  function FoldBytes(fp: nat, bytes: seq<nat>): nat
    decreases |bytes|
  {
    if bytes == [] then fp
    else Xor(FoldBytes(fp, bytes[..|bytes| - 1]), bytes[|bytes| - 1]) * PRIME % WORD
  }

  function Mix(fp: nat, value: nat): nat {
    FoldBytes(fp, LittleEndian(value))
  }

  /** Fold the members of caps from c upward, in numeric order. */
  function MixMembers(fp: nat, caps: seq<nat>, c: nat): nat
    requires c <= CAPABILITY_COUNT
    decreases CAPABILITY_COUNT - c
  {
    if c == CAPABILITY_COUNT then fp
    else MixMembers(if c in caps then Mix(fp, c) else fp, caps, c + 1)
  }

  function MixSet(fp: nat, caps: seq<nat>, tag: nat): nat {
    MixMembers(Mix(Mix(fp, tag), |caps|), caps, 1)
  }

  function MixStage(fp: nat, d: Descriptor): nat {
    var head := Mix(Mix(Mix(Mix(Mix(fp, d.id), Flag(d.required)), Flag(d.skipPreservesHealth)), d.phase),
                    d.irreversibleClass);
    MixSet(MixSet(MixSet(head, d.requirements, 0xA1), d.provided, 0xA2), d.skipped, 0xA3)
  }

  function MixStages(fp: nat, stages: seq<Descriptor>): nat
    decreases |stages|
  {
    if stages == [] then fp else MixStage(MixStages(fp, stages[..|stages| - 1]), stages[|stages| - 1])
  }

  /** The stages of a plan in the order they run. */
  function Planned(ds: seq<Descriptor>, order: seq<nat>): (r: seq<Descriptor>)
    requires forall k :: 0 <= k < |order| ==> order[k] < |ds|
    ensures |r| == |order|
  {
    seq(|order|, k requires 0 <= k < |order| => ds[order[k]])
  }

  function PlanHash(stages: seq<Descriptor>): nat {
    MixStages(Mix(Mix(OFFSET, VERSION), |stages|), stages)
  }

  function MixReceipt(fp: nat, r: Receipt): nat {
    var head := Mix(Mix(Mix(Mix(fp, r.stage), r.sequence), r.outcome), StatusCode(r.status));
    MixSet(head, r.provided, 0xB1)
  }

  function MixReceipts(fp: nat, receipts: seq<Receipt>): nat
    decreases |receipts|
  {
    if receipts == [] then fp
    else MixReceipt(MixReceipts(fp, receipts[..|receipts| - 1]), receipts[|receipts| - 1])
  }

  function ReceiptHash(planHash: nat, receipts: seq<Receipt>): nat {
    MixReceipts(Mix(Mix(planHash, 0xB001ED6E), |receipts|), receipts)
  }

  // ----- how they are computed -----

  method FingerprintWord(fp: nat, value: nat) returns (r: nat)
    ensures r == Mix(fp, value)
  {
    r := fp;
    var v := value;
    ghost var bytes := LittleEndian(value);
    for byte: nat := 0 to 8
      invariant v == Shifted(value, byte)
      invariant r == FoldBytes(fp, bytes[..byte])
    {
      assert bytes[..byte + 1][..byte] == bytes[..byte];
      r := Xor(r, v % 256) * PRIME % WORD;
      v := v / 256;
    }
    assert bytes[..8] == bytes;
  }

  method FingerprintCapabilitySet(fp: nat, caps: seq<nat>, tag: nat) returns (r: nat)
    ensures r == MixSet(fp, caps, tag)
  {
    r := FingerprintWord(fp, tag);
    r := FingerprintWord(r, |caps|);
    for c: nat := 1 to CAPABILITY_COUNT
      invariant MixMembers(r, caps, c) == MixSet(fp, caps, tag)
    {
      if c in caps {
        r := FingerprintWord(r, c);
      }
    }
  }

  method FingerprintStage(fp: nat, d: Descriptor) returns (r: nat)
    ensures r == MixStage(fp, d)
  {
    r := FingerprintWord(fp, d.id);
    r := FingerprintWord(r, Flag(d.required));
    r := FingerprintWord(r, Flag(d.skipPreservesHealth));
    r := FingerprintWord(r, d.phase);
    r := FingerprintWord(r, d.irreversibleClass);
    r := FingerprintCapabilitySet(r, d.requirements, 0xA1);
    r := FingerprintCapabilitySet(r, d.provided, 0xA2);
    r := FingerprintCapabilitySet(r, d.skipped, 0xA3);
  }

  method FingerprintPlan(ds: seq<Descriptor>, order: seq<nat>) returns (r: nat)
    requires forall k :: 0 <= k < |order| ==> order[k] < |ds|
    ensures r == PlanHash(Planned(ds, order))
  {
    hide Mix, MixStage;
    r := FingerprintWord(OFFSET, VERSION);
    r := FingerprintWord(r, |order|);
    ghost var seed := r;
    ghost var stages := Planned(ds, order);
    for k := 0 to |order|
      invariant r == MixStages(seed, stages[..k])
    {
      assert stages[..k + 1][..k] == stages[..k];
      r := FingerprintStage(r, ds[order[k]]);
    }
    assert stages[..|order|] == stages;
  }

  method FingerprintReceipts(planHash: nat, receipts: seq<Receipt>) returns (r: nat)
    ensures r == ReceiptHash(planHash, receipts)
  {
    hide Mix, MixSet;
    r := FingerprintWord(planHash, 0xB001ED6E);
    r := FingerprintWord(r, |receipts|);
    ghost var seed := r;
    for k := 0 to |receipts|
      invariant r == MixReceipts(seed, receipts[..k])
    {
      assert receipts[..k + 1][..k] == receipts[..k];
      var receipt := receipts[k];
      r := FingerprintWord(r, receipt.stage);
      r := FingerprintWord(r, receipt.sequence);
      r := FingerprintWord(r, receipt.outcome);
      r := FingerprintWord(r, StatusCode(receipt.status));
      r := FingerprintCapabilitySet(r, receipt.provided, 0xB1);
    }
    assert receipts[..|receipts|] == receipts;
  }

  // ----- the fingerprint is a function of the abstract plan -----

  lemma {:induction false} SameMembersMixAlike(fp: nat, a: seq<nat>, b: seq<nat>, c: nat)
    requires c <= CAPABILITY_COUNT
    requires forall x :: x in a <==> x in b
    ensures MixMembers(fp, a, c) == MixMembers(fp, b, c)
    decreases CAPABILITY_COUNT - c
  {
    if c < CAPABILITY_COUNT {
      SameMembersMixAlike(if c in a then Mix(fp, c) else fp, a, b, c + 1);
    }
  }

  lemma SameSetMixAlike(fp: nat, a: seq<nat>, b: seq<nat>, tag: nat)
    requires multiset(a) == multiset(b)
    ensures MixSet(fp, a, tag) == MixSet(fp, b, tag)
  {
    SameContents(a, b);
    SameMembersMixAlike(Mix(Mix(fp, tag), |a|), a, b, 1);
  }

  lemma SameStageMixAlike(fp: nat, a: Descriptor, b: Descriptor)
    requires SameStage(a, b)
    ensures MixStage(fp, a) == MixStage(fp, b)
  {
    var head := Mix(Mix(Mix(Mix(Mix(fp, a.id), Flag(a.required)), Flag(a.skipPreservesHealth)), a.phase),
                    a.irreversibleClass);
    SameSetMixAlike(head, a.requirements, b.requirements, 0xA1);
    var second := MixSet(head, a.requirements, 0xA1);
    SameSetMixAlike(second, a.provided, b.provided, 0xA2);
    SameSetMixAlike(MixSet(second, a.provided, 0xA2), a.skipped, b.skipped, 0xA3);
  }

  lemma {:induction false} SameStagesMixAlike(fp: nat, a: seq<Descriptor>, b: seq<Descriptor>)
    requires |a| == |b| && forall k :: 0 <= k < |a| ==> SameStage(a[k], b[k])
    ensures MixStages(fp, a) == MixStages(fp, b)
    decreases |a|
  {
    if a != [] {
      var n := |a| - 1;
      SameStagesMixAlike(fp, a[..n], b[..n]);
      SameStageMixAlike(MixStages(fp, a[..n]), a[n], b[n]);
    }
  }

  /** Two declarations of one plan have the same stage sequence and the same fingerprint. */
  lemma FingerprintIgnoresDeclarationOrder(
    ds: seq<Descriptor>, es: seq<Descriptor>, p: seq<nat>, o: seq<nat>, t: seq<nat>)
    requires Rearranged(ds, es, p)
    requires CanonicalOrder(ds, o) && CanonicalOrder(es, t)
    ensures forall k :: 0 <= k < |o| ==> o[k] < |ds|
    ensures forall k :: 0 <= k < |t| ==> t[k] < |es|
    ensures |o| == |t|
    ensures forall k :: 0 <= k < |o| ==> es[t[k]].id == ds[o[k]].id
    ensures PlanHash(Planned(es, t)) == PlanHash(Planned(ds, o))
  {
    OrderIgnoresDeclarationOrder(ds, es, p, o, t);
    SameStagesMixAlike(Mix(Mix(OFFSET, VERSION), |o|), Planned(es, t), Planned(ds, o));
  }
}
