/** The vocabulary of the Boot Ledger: bounds, statuses, descriptors, stage
    results and receipts. Enumerations that arrive from outside the ledger
    (stage ids, capabilities, phases, classes, outcomes) are plain numbers,
    because the ledger's own job is to refuse the values it does not know. */
module LedgerTypes {

  const STAGE_CAPACITY: nat := 43
  const RECEIPT_CAPACITY: nat := 43
  const STAGE_CAPABILITY_CAPACITY: nat := 18
  const PROOF_COUNTER_CAPACITY: nat := 2
  const STAGE_COUNT: nat := 44
  const CAPABILITY_COUNT: nat := 57
  const PHASE_COUNT: nat := 8
  const IRREVERSIBLE_COUNT: nat := 6

  const NO_STAGE: nat := 0
  const NO_CAPABILITY: nat := 0

  // The capabilities that irreversible stages demand, and the classes of such stages.
  const FRAME_ALLOCATOR: nat := 4
  const CLOCKS: nat := 7
  const DEVICE_WINDOWS: nat := 8
  const HEAP: nat := 12
  const IDT: nat := 13
  const INTERRUPT_CONTROLLERS: nat := 14
  const INTERRUPTS: nat := 15
  const TIMER_CALIBRATION: nat := 17
  const WRITE_COMBINING_PROOF: nat := 20
  const THREADING: nat := 23

  const PAT_CR3: nat := 1
  const INTERRUPT_ENABLE: nat := 2
  const FRAMEBUFFER_OUTPUT: nat := 3
  const APIC_TIMER: nat := 4
  const SCHEDULER: nat := 5

  const RAN: nat := 0
  const SKIPPED: nat := 1
  const FAILED: nat := 2

  datatype Status =
    | Ok
    | EmptyPlan
    | NotValidated
    | AlreadyExecuted
    | UnknownStageIdentifier
    | UnknownCapability
    | TooManyStages
    | TooManyReceipts
    | TooManyStageCapabilities
    | InvalidNeutralSkip
    | DuplicateStage
    | DuplicateCapabilityRequirement
    | DuplicateCapabilityProvider
    | MissingCapabilityProvider
    | CapabilityDependencyCycle
    | InvalidPhaseTransition
    | IrreversibleStageOrderedTooEarly
    | RequiredStageSkipped
    | UndeclaredCapabilityProvided
    | StageExecutedBeforeRequirements
    | RequiredStageFailed
    | OptionalStageFailed
    | OptionalStageSkipped
    | ReceiptMismatch
    | PlanFingerprintMismatch
    | InstalledPlanDiffersValidatedPlan

  /** What the ledger records when it refuses: the status and who caused it. */
  datatype Refusal = Refusal(status: Status, stage: nat, capability: nat)

  /** A refusal proper: never the success status. */
  type Fault = r: Refusal | r.status != Ok witness Refusal(EmptyPlan, 0, 0)

  /** A stage descriptor. `named` and `callable` say whether its name and its
      execution function are present. */
  datatype Descriptor = Descriptor(
    id: nat,
    named: bool,
    requirements: seq<nat>,
    provided: seq<nat>,
    skipped: seq<nat>,
    required: bool,
    skipPreservesHealth: bool,
    phase: nat,
    irreversibleClass: nat,
    callable: bool)

  /** What a stage body hands back. Nothing about it is trusted. */
  datatype StageResult = StageResult(outcome: nat, provided: seq<nat>, counters: seq<nat>)

  datatype Receipt = Receipt(
    stage: nat,
    sequence: nat,
    provided: seq<nat>,
    status: Status,
    outcome: nat,
    counters: seq<nat>)

  predicate StageIsKnown(stage: nat) {
    0 < stage < STAGE_COUNT
  }

  predicate CapabilityIsKnown(capability: nat) {
    0 < capability < CAPABILITY_COUNT
  }

  /** Capabilities a stage can establish, whichever way it ends. */
  function Outcomes(d: Descriptor): seq<nat> {
    d.provided + d.skipped
  }

  /** What an irreversible class demands before it may be entered. */
  function IrreversibleRequirements(irreversibleClass: nat): seq<nat> {
    match irreversibleClass
    case 1 => [DEVICE_WINDOWS, FRAME_ALLOCATOR]
    case 2 => [IDT, INTERRUPT_CONTROLLERS]
    case 3 => [WRITE_COMBINING_PROOF]
    case 4 => [IDT, INTERRUPT_CONTROLLERS, INTERRUPTS, CLOCKS]
    case 5 => [HEAP, THREADING, TIMER_CALIBRATION, INTERRUPTS]
    case _ => []
  }
}
