/** DMA ownership over whole runs: any calls, with any handles presented, in any order. */
module DmaRuns {
  import opened Seqs
  import opened DmaTable

  datatype Op<H> =
    | Alloc(id: H, grant: Option<Frames>, mapped: bool)
    | Mark(id: H, fields: Fields)
    | GiveDevice(id: H, fields: Fields)
    | TakeBack(id: H, fields: Fields)
    | Free(id: H, fields: Fields)

  /** One call; a range the frame allocator could not have granted counts as refused. */
  ghost function Step<H>(d: Dma<H>, op: Op<H>): Reply<H> {
    match op
    case Alloc(id, grant, mapped) =>
      Allocate(d, id, if grant.Some? && Fresh(d.outstanding, grant.value) then grant else None, mapped)
    case Mark(id, f) => MarkInitialized(d, id, f)
    case GiveDevice(id, f) => ToDevice(d, id, f)
    case TakeBack(id, f) => ToCpu(d, id, f)
    case Free(id, f) => Release(d, id, f)
  }

  ghost function Run<H>(d: Dma<H>, ops: seq<Op<H>>): Dma<H>
    decreases |ops|
  {
    if ops == [] then d else Step(Run(d, ops[..|ops| - 1]), ops[|ops| - 1]).dma
  }

  lemma StepKeeps<H>(d: Dma<H>, op: Op<H>)
    requires Valid(d)
    ensures Valid(Step(d, op).dma)
  {
    hide Valid, Allocate, MarkInitialized, ToDevice, ToCpu, Release, Fresh;
    match op
    case Alloc(id, grant, mapped) =>
      AllocateKeeps(d, id, if grant.Some? && Fresh(d.outstanding, grant.value) then grant else None, mapped);
    case Mark(id, f) => MarkKeeps(d, id, f);
    case GiveDevice(id, f) => ToDeviceKeeps(d, id, f);
    case TakeBack(id, f) => ToCpuKeeps(d, id, f);
    case Free(id, f) => ReleaseKeeps(d, id, f);
  }

  /** In every reachable state the counters match the table, device-owned records are
      initialised, and the active ranges are disjoint and exactly the outstanding ones. */
  lemma {:induction false} RunKeeps<H>(d: Dma<H>, ops: seq<Op<H>>)
    requires Valid(d)
    ensures Valid(Run(d, ops))
    decreases |ops|
  {
    hide Valid, Step;
    if ops != [] {
      RunKeeps(d, ops[..|ops| - 1]);
      StepKeeps(Run(d, ops[..|ops| - 1]), ops[|ops| - 1]);
    }
  }

  lemma InitialValid<H>(records: seq<Record<H>>, live: bool)
    requires |records| == CAPACITY && forall i :: 0 <= i < CAPACITY ==> !records[i].active
    ensures Valid(Dma(records, live, 0, 0, 0, {}))
  {
    NoneCounted(records, Cpu);
    NoneCounted(records, Device);
  }

  lemma {:induction false} NoneCounted<H>(records: seq<Record<H>>, owner: Owner)
    requires forall i :: 0 <= i < |records| ==> !records[i].active
    ensures Count(records, owner) == 0
    decreases |records|
  {
    if records != [] { NoneCounted(records[..|records| - 1], owner); }
  }

  // ----- refusals -----

  /** A copied, stale or altered handle is refused, and nothing at all changes. */
  lemma ForgedIsRefused<H>(d: Dma<H>, id: H, f: Fields, op: Op<H>)
    requires Valid(d) && forall i: nat :: !Genuine(d, id, f, i)
    requires op == Mark(id, f) || op == GiveDevice(id, f) || op == TakeBack(id, f) || op == Free(id, f)
    ensures var r := Step(d, op);
      r.dma == d && r.fields == f && r.status in {BadAllocation, DoubleFree, NotInitialized}
  {
    hide Valid;
    SlotOf(d, id, f);
  }

  /** Every refusal of a presented handle, forged or not, leaves table, ranges and handle alone. */
  lemma RefusedUnchanged<H>(d: Dma<H>, op: Op<H>)
    requires Step(d, op).status != Ok
    ensures Step(d, op).dma == d
    ensures !op.Alloc? ==> Step(d, op).fields == op.fields
  {
  }

  // ----- the answers -----

  /** Everything but record i, and the caller's view of it, is as before. */
  ghost predicate OnlyRecord<H(!new)>(d: Dma<H>, next: Dma<H>, i: nat) {
    && |next.records| == |d.records| && i < |d.records| && next.live == d.live
    && forall j :: 0 <= j < |d.records| && j != i ==> next.records[j] == d.records[j]
  }

  /** The genuine handle of record i is refused for its owner, or changes that record alone. */
  ghost predicate Marked<H(!new)>(d: Dma<H>, i: nat, f: Fields, r: Reply<H>)
    requires i < |d.records|
  {
    if d.records[i].owner != Cpu then r == Reply(d, WrongOwner, f)
    else
      && r.status == Ok && OnlyRecord(d, r.dma, i) && r.dma.outstanding == d.outstanding
      && r.dma.records[i] == d.records[i].(initialized := true) && r.fields == Image(r.dma.records[i])
  }

  ghost predicate HandedOver<H(!new)>(d: Dma<H>, i: nat, f: Fields, r: Reply<H>)
    requires i < |d.records|
  {
    if d.records[i].owner != Cpu then r == Reply(d, WrongOwner, f)
    else if !d.records[i].initialized then r == Reply(d, NotPrepared, f)
    else
      && r.status == Ok && OnlyRecord(d, r.dma, i) && r.dma.outstanding == d.outstanding
      && r.dma.records[i] == d.records[i].(owner := Device) && r.fields == Image(r.dma.records[i])
  }

  ghost predicate TakenBack<H(!new)>(d: Dma<H>, i: nat, f: Fields, r: Reply<H>)
    requires i < |d.records|
  {
    if d.records[i].owner != Device then r == Reply(d, WrongOwner, f)
    else
      && r.status == Ok && OnlyRecord(d, r.dma, i) && r.dma.outstanding == d.outstanding
      && r.dma.records[i] == d.records[i].(owner := Cpu) && r.fields == Image(r.dma.records[i])
  }

  ghost predicate Freed<H(!new)>(d: Dma<H>, i: nat, f: Fields, r: Reply<H>)
    requires i < |d.records|
  {
    if d.records[i].owner != Cpu then r == Reply(d, WrongOwner, f)
    else
      && r.status == Ok && OnlyRecord(d, r.dma, i) && !r.dma.records[i].active
      && r.dma.outstanding == d.outstanding - {d.records[i].frames} && !r.fields.active
  }

  /** What each call answers to the genuine handle of a record, and to any other. */
  lemma CallsExactly<H(!new)>(d: Dma<H>, id: H, f: Fields)
    requires Valid(d)
    ensures forall i: nat :: Genuine(d, id, f, i) ==>
      && Marked(d, i, f, MarkInitialized(d, id, f)) && HandedOver(d, i, f, ToDevice(d, id, f))
      && TakenBack(d, i, f, ToCpu(d, id, f)) && (d.live ==> Freed(d, i, f, Release(d, id, f)))
    ensures (forall i: nat :: !Genuine(d, id, f, i)) ==>
      && MarkInitialized(d, id, f) == ToDevice(d, id, f) == ToCpu(d, id, f) == Reply(d, BadAllocation, f)
      && (d.live ==> Release(d, id, f) == Reply(d, if f.active then BadAllocation else DoubleFree, f))
    ensures !d.live ==> Release(d, id, f) == Reply(d, NotInitialized, f)
  {
    hide Valid, Validate;
    forall i: nat ensures Validate(d, id, f) == Some(i) <==> Genuine(d, id, f, i) { ValidateExact(d, id, f, i); }
    var found := Validate(d, id, f);
  }

  /** A handle is a device's exactly when it is the genuine one of a record the device owns. */
  lemma DeviceOwnedExactly<H(!new)>(d: Dma<H>, id: H, f: Fields)
    requires Valid(d)
    ensures DeviceOwned(d, id, f) <==> exists i: nat :: Genuine(d, id, f, i) && d.records[i].owner == Device
  {
    hide Separate, Matches, Count, Validate;
    forall i: nat ensures Validate(d, id, f) == Some(i) <==> Genuine(d, id, f, i) { ValidateExact(d, id, f, i); }
    var found := Validate(d, id, f);
    if found.Some? { assert Genuine(d, id, f, found.value); }
  }

  /** When a buffer is granted, and what is then recorded: in the first free slot, owned by the
      CPU and not yet initialised, its range outstanding. */
  lemma AllocateExactly<H(!new)>(d: Dma<H>, id: H, grant: Option<Frames>, mapped: bool)
    requires |d.records| == 32
    ensures var r := Allocate(d, id, grant, mapped);
      && (r.status == NotInitialized <==> !d.live)
      && (r.status == FrameAllocationFailure <==>
            d.live && ((forall i :: 0 <= i < 32 ==> d.records[i].active) || grant.None?))
      && (r.status == NotIdentityMapped <==>
            d.live && (exists i :: 0 <= i < 32 && !d.records[i].active) && grant.Some? && !mapped)
      && (r.status == Ok <==> d.live && (exists i :: 0 <= i < 32 && !d.records[i].active) && grant.Some? && mapped)
      && (r.status != Ok ==> r.dma == d && !r.fields.active)
      && (r.status == Ok ==>
            && r.dma.outstanding == d.outstanding + {grant.value}
            && exists i: nat :: FirstFree(d, i) && OnlyRecord(d, r.dma, i)
                 && r.dma.records[i] == Record(Some(id), grant.value, Cpu, false, true)
                 && r.fields == Fields(grant.value, grant.value.base, grant.value.pages * 4096, Cpu, false, true))
  {
    hide FreeSlot;
    FreeSlotFirst(d.records, 0);
    var r := Allocate(d, id, grant, mapped);
    if r.status == Ok {
      var i := FreeSlot(d.records, 0).value;
      assert FirstFree(d, i) && OnlyRecord(d, r.dma, i);
    }
  }

  ghost predicate FirstFree<H(!new)>(d: Dma<H>, i: nat) {
    i < |d.records| && !d.records[i].active && forall j :: 0 <= j < i ==> d.records[j].active
  }

  lemma {:induction false} FreeSlotFirst<H(!new)>(records: seq<Record<H>>, k: nat)
    requires k <= |records|
    ensures var r := FreeSlot(records, k);
      r.Some? ==> r.value >= k && forall j :: k <= j < r.value ==> records[j].active
    decreases |records| - k
  {
    if k < |records| && records[k].active { FreeSlotFirst(records, k + 1); }
  }

  // ----- device ownership -----

  predicate HasFrames<H>(d: Dma<H>, i: nat, fr: Frames) {
    i < |d.records| && d.records[i].active && d.records[i].frames == fr
  }

  /** A range goes back to the frame allocator only through a release by its own genuine
      handle while the CPU owns it. */
  lemma OnlyOwnerReturns<H>(d: Dma<H>, op: Op<H>, fr: Frames)
    requires Valid(d) && fr in d.outstanding && fr !in Step(d, op).dma.outstanding
    ensures op.Free? && exists i: nat ::
      HasFrames(d, i, fr) && d.records[i].owner == Cpu && Genuine(d, op.id, op.fields, i)
  {
    hide Valid;
    assert op.Free?;
    var i := Validate(d, op.id, op.fields).value;
    ValidateExact(d, op.id, op.fields, i);
    assert HasFrames(d, i, fr);
  }

  /** A device-owned record is touched by nothing but its own genuine take-back. */
  lemma DeviceUntouched<H>(d: Dma<H>, op: Op<H>, i: nat)
    requires Valid(d) && i < CAPACITY && d.records[i].active && d.records[i].owner == Device
    requires !(op.TakeBack? && Genuine(d, op.id, op.fields, i))
    ensures Step(d, op).dma.records[i] == d.records[i]
  {
    hide Separate, Matches, Count, Validate;
    match op
    case Alloc(id, grant, mapped) =>
    case Mark(id, f) => SlotOf(d, id, f);
    case GiveDevice(id, f) => SlotOf(d, id, f);
    case TakeBack(id, f) => SlotOf(d, id, f);
    case Free(id, f) => SlotOf(d, id, f);
  }

  lemma SlotOf<H>(d: Dma<H>, id: H, f: Fields)
    requires Valid(d)
    ensures var found := Validate(d, id, f); found.Some? ==> Genuine(d, id, f, found.value)
  {
    var found := Validate(d, id, f);
    if found.Some? { ValidateExact(d, id, f, found.value); }
  }

  ghost predicate TakesBack<H>(d: Dma<H>, op: Op<H>, i: nat) {
    op.TakeBack? && Genuine(d, op.id, op.fields, i)
  }

  /** From hand-over to take-back, through any run, the record and its range stay put. */
  lemma {:induction false} DeviceRangeHeld<H>(d: Dma<H>, ops: seq<Op<H>>, i: nat)
    requires Valid(d) && i < CAPACITY && d.records[i].active && d.records[i].owner == Device
    requires forall k: nat :: k < |ops| ==> !TakesBack(Run(d, ops[..k]), ops[k], i)
    ensures |Run(d, ops).records| == CAPACITY
    ensures Run(d, ops).records[i] == d.records[i] && d.records[i].frames in Run(d, ops).outstanding
    decreases |ops|
  {
    hide Step, Separate, Count;
    RunKeeps(d, ops);
    if ops != [] {
      var n := |ops| - 1;
      var before := Run(d, ops[..n]);
      forall k: nat | k < n ensures !TakesBack(Run(d, ops[..n][..k]), ops[..n][k], i) {
        assert ops[..n][..k] == ops[..k];
      }
      DeviceRangeHeld(d, ops[..n], i);
      RunKeeps(d, ops[..n]);
      assert !TakesBack(before, ops[n], i);
      DeviceUntouched(before, ops[n], i);
    }
  }

  // ----- the full cycle -----

  /** Each step of a buffer's life is accepted with the handle exactly as the previous
      step left it. */
  lemma LifeCycle<H>(d: Dma<H>, id: H, g: Frames)
    requires Valid(d) && d.live && Fresh(d.outstanding, g) && FreeSlot(d.records, 0).Some?
    ensures var a := Allocate(d, id, Some(g), true);
      var m := MarkInitialized(a.dma, id, a.fields);
      var t := ToDevice(m.dma, id, m.fields);
      var c := ToCpu(t.dma, id, t.fields);
      var r := Release(c.dma, id, c.fields);
      && a.status == Ok && m.status == Ok && t.status == Ok && c.status == Ok && r.status == Ok
      && ToDevice(a.dma, id, a.fields).status == NotPrepared
      && Release(t.dma, id, t.fields).status == WrongOwner
      && DeviceOwned(t.dma, id, t.fields)
      && Release(r.dma, id, r.fields).status == DoubleFree
      && SameBooks(d, r.dma, FreeSlot(d.records, 0).value)
  {
    hide Valid, Validate, FreeSlot, Fresh;
    var i := FreeSlot(d.records, 0).value;
    var a := Allocate(d, id, Some(g), true);
    AllocateKeeps(d, id, Some(g), true);
    ValidateExact(a.dma, id, a.fields, i);
    var m := MarkInitialized(a.dma, id, a.fields);
    MarkKeeps(a.dma, id, a.fields);
    ValidateExact(m.dma, id, m.fields, i);
    var t := ToDevice(m.dma, id, m.fields);
    ToDeviceKeeps(m.dma, id, m.fields);
    ValidateExact(t.dma, id, t.fields, i);
    var c := ToCpu(t.dma, id, t.fields);
    ToCpuKeeps(t.dma, id, t.fields);
    ValidateExact(c.dma, id, c.fields, i);
    FreshIsNew(d.outstanding, g);
  }

  lemma FreshIsNew(outstanding: set<Frames>, g: Frames)
    requires Fresh(outstanding, g)
    ensures g !in outstanding
  {
  }

  /** The same counters, ranges and records; only a free slot may hold other leftovers. */
  ghost predicate SameBooks<H>(d: Dma<H>, e: Dma<H>, slot: nat) {
    && slot < |d.records| == |e.records| && !d.records[slot].active && !e.records[slot].active
    && (forall j :: 0 <= j < |d.records| && j != slot ==> e.records[j] == d.records[j])
    && e.active == d.active && e.cpu == d.cpu && e.device == d.device
    && e.outstanding == d.outstanding && e.live == d.live
  }
}
