/** DMA ownership as a state machine: the record table, its counters, and the frame
    ranges outstanding at the allocator. Every call presents a handle: an identity
    together with whatever fields the caller's memory holds at that moment. */
module DmaTable {
  import opened Architecture
  import opened Seqs

  const CAPACITY: nat := 32
  const MAX_PAGES: nat := 0xFFFF_FFFF_FFFF_FFFF / 4096

  datatype Owner = NoOwner | Cpu | Device

  datatype Status =
    | Ok
    | AlreadyInitialized
    | NotInitialized
    | FrameAllocationFailure
    | NotIdentityMapped
    | NotPrepared
    | WrongOwner
    | DoubleFree
    | BadAllocation

  datatype Frames = Frames(base: nat, pages: nat, alignment: nat, maximum: nat, identifier: nat, active: bool)

  /** The caller-visible handle contents; address zero is NULL. */
  datatype Fields = Fields(
    frames: Frames, cpuAddress: nat, byteLength: nat, owner: Owner, initialized: bool, active: bool)

  datatype Record<H> = Record(
    handle: Option<H>, frames: Frames, owner: Owner, initialized: bool, active: bool)

  datatype Dma<H> = Dma(
    records: seq<Record<H>>, live: bool, active: int, cpu: int, device: int, outstanding: set<Frames>)

  datatype Reply<H> = Reply(dma: Dma<H>, status: Status, fields: Fields)

  const NO_FRAMES := Frames(0, 0, 0, 0, 0, false)
  const NO_FIELDS := Fields(NO_FRAMES, 0, 0, NoOwner, false, false)

  /** What a genuine handle shows for its record. */
  function Image<H>(r: Record<H>): Fields {
    Fields(r.frames, r.frames.base, r.frames.pages * PAGE, r.owner, r.initialized, true)
  }

  // ----- validation -----

  function FindRecord<H>(records: seq<Record<H>>, identifier: nat, k: nat): (r: Option<nat>)
    requires k <= |records|
    ensures r.Some? ==> k <= r.value < |records| && records[r.value].active &&
                        records[r.value].frames.identifier == identifier
    ensures r.None? ==> forall i :: k <= i < |records| && records[i].active ==>
                        records[i].frames.identifier != identifier
    decreases |records| - k
  {
    if k == |records| then None
    else if records[k].active && records[k].frames.identifier == identifier then Some(k)
    else FindRecord(records, identifier, k + 1)
  }

  predicate Agrees<H(==)>(r: Record<H>, id: H, f: Fields) {
    && r.handle == Some(id)
    && r.frames.base == f.frames.base && r.frames.pages == f.frames.pages
    && r.frames.alignment == f.frames.alignment && r.frames.maximum == f.frames.maximum
    && r.frames.active
    && f.cpuAddress == r.frames.base
    && r.frames.pages <= MAX_PAGES && f.byteLength == r.frames.pages * PAGE
    && r.owner == f.owner && r.initialized == f.initialized
  }

  predicate Plausible(f: Fields) {
    f.active && f.frames.active && f.cpuAddress != 0 && f.byteLength != 0 && f.owner != NoOwner
  }

  /** The record a presented handle speaks for, if it is the genuine one. */
  function Validate<H(==)>(d: Dma<H>, id: H, f: Fields): (r: Option<nat>)
    ensures r.Some? ==> r.value < |d.records|
  {
    if !Plausible(f) then None
    else match FindRecord(d.records, f.frames.identifier, 0)
      case None => None
      case Some(i) => if Agrees(d.records[i], id, f) then Some(i) else None
  }

  // ----- the calls -----

  function FreeSlot<H>(records: seq<Record<H>>, k: nat): (r: Option<nat>)
    requires k <= |records|
    ensures r.Some? ==> k <= r.value < |records| && !records[r.value].active
    ensures r.None? ==> forall i :: k <= i < |records| ==> records[i].active
    decreases |records| - k
  {
    if k == |records| then None else if !records[k].active then Some(k) else FreeSlot(records, k + 1)
  }

  /** What the contiguous frame allocator may hand out: a fresh identifier and a
      non-empty range above the low reservation, clear of every outstanding range. */
  ghost predicate Fresh(outstanding: set<Frames>, g: Frames) {
    && g.active && g.base > 0 && 0 < g.pages <= MAX_PAGES
    && forall x :: x in outstanding ==> x.identifier != g.identifier && Apart(x, g)
  }

  predicate Apart(a: Frames, b: Frames) {
    a.base + a.pages * PAGE <= b.base || b.base + b.pages * PAGE <= a.base
  }

  /** The frame allocator answers with a range or refuses; a range that is not mapped
      as writable identity memory goes straight back. */
  function Allocate<H>(d: Dma<H>, id: H, grant: Option<Frames>, mapped: bool): Reply<H> {
    if !d.live then Reply(d, NotInitialized, NO_FIELDS)
    else match FreeSlot(d.records, 0)
      case None => Reply(d, FrameAllocationFailure, NO_FIELDS)
      case Some(i) =>
        match grant
        case None => Reply(d, FrameAllocationFailure, NO_FIELDS)
        case Some(g) =>
          if !mapped then Reply(d, NotIdentityMapped, NO_FIELDS.(frames := g.(active := false)))
          else
            var r := Record(Some(id), g, Cpu, false, true);
            Reply(d.(records := d.records[i := r], active := d.active + 1, cpu := d.cpu + 1,
                     outstanding := d.outstanding + {g}), Ok, Image(r))
  }

  function MarkInitialized<H(==)>(d: Dma<H>, id: H, f: Fields): Reply<H> {
    match Validate(d, id, f)
    case None => Reply(d, BadAllocation, f)
    case Some(i) =>
      if f.owner != Cpu then Reply(d, WrongOwner, f)
      else Reply(d.(records := d.records[i := d.records[i].(initialized := true)]), Ok, f.(initialized := true))
  }

  function ToDevice<H(==)>(d: Dma<H>, id: H, f: Fields): Reply<H> {
    match Validate(d, id, f)
    case None => Reply(d, BadAllocation, f)
    case Some(i) =>
      if f.owner != Cpu then Reply(d, WrongOwner, f)
      else if !f.initialized then Reply(d, NotPrepared, f)
      else
        Reply(d.(records := d.records[i := d.records[i].(owner := Device)], cpu := d.cpu - 1, device := d.device + 1),
              Ok, f.(owner := Device))
  }

  function ToCpu<H(==)>(d: Dma<H>, id: H, f: Fields): Reply<H> {
    match Validate(d, id, f)
    case None => Reply(d, BadAllocation, f)
    case Some(i) =>
      if f.owner != Device then Reply(d, WrongOwner, f)
      else
        Reply(d.(records := d.records[i := d.records[i].(owner := Cpu)], cpu := d.cpu + 1, device := d.device - 1),
              Ok, f.(owner := Cpu))
  }

  function Released<H>(r: Record<H>): Record<H> {
    Record(None, r.frames.(active := false), NoOwner, false, false)
  }

  function Release<H(==)>(d: Dma<H>, id: H, f: Fields): Reply<H> {
    if !d.live then Reply(d, NotInitialized, f)
    else if !f.active then Reply(d, DoubleFree, f)
    else match Validate(d, id, f)
      case None => Reply(d, BadAllocation, f)
      case Some(i) =>
        if f.owner != Cpu then Reply(d, WrongOwner, f)
        else
          Reply(d.(records := d.records[i := Released(d.records[i])], active := d.active - 1, cpu := d.cpu - 1,
                   outstanding := d.outstanding - {d.records[i].frames}),
                Ok, NO_FIELDS.(frames := f.frames.(active := false)))
  }

  predicate DeviceOwned<H(==)>(d: Dma<H>, id: H, f: Fields) {
    var i := Validate(d, id, f);
    i.Some? && d.records[i.value].initialized && d.records[i.value].owner == Device
  }

  // ----- the invariant -----

  function Count<H>(records: seq<Record<H>>, owner: Owner): nat
    decreases |records|
  {
    if records == [] then 0
    else
      var r := records[|records| - 1];
      Count(records[..|records| - 1], owner) + if r.active && r.owner == owner then 1 else 0
  }

  ghost predicate SoundRecord<H>(r: Record<H>) {
    && r.handle.Some? && r.owner != NoOwner
    && (r.owner == Device ==> r.initialized)
    && r.frames.active && r.frames.base > 0 && 0 < r.frames.pages <= MAX_PAGES
  }

  /** Active records have distinct identifiers and ranges that do not overlap. */
  ghost predicate Separate<H>(records: seq<Record<H>>) {
    forall i, j :: 0 <= i < j < |records| && records[i].active && records[j].active ==>
      records[i].frames.identifier != records[j].frames.identifier && Apart(records[i].frames, records[j].frames)
  }

  ghost predicate Matches<H>(records: seq<Record<H>>, outstanding: set<Frames>) {
    && (forall i :: 0 <= i < |records| && records[i].active ==> records[i].frames in outstanding)
    && (forall x :: x in outstanding ==> exists i :: 0 <= i < |records| && records[i].active && records[i].frames == x)
  }

  ghost predicate Valid<H>(d: Dma<H>) {
    && |d.records| == CAPACITY
    && (forall i :: 0 <= i < CAPACITY && d.records[i].active ==> SoundRecord(d.records[i]))
    && Separate(d.records) && Matches(d.records, d.outstanding)
    && d.cpu == Count(d.records, Cpu) && d.device == Count(d.records, Device) && d.active == d.cpu + d.device
  }

  /** The handle is the registered object and shows exactly what its record says. */
  ghost predicate Genuine<H>(d: Dma<H>, id: H, f: Fields, i: nat) {
    i < |d.records| && d.records[i].active && d.records[i].handle == Some(id) && f == Image(d.records[i])
  }

  // ----- validation is exact -----

  /** Validation accepts precisely the genuine handle: copies and altered fields fail. */
  lemma ValidateExact<H>(d: Dma<H>, id: H, f: Fields, i: nat)
    requires Valid(d)
    ensures Validate(d, id, f) == Some(i) <==> Genuine(d, id, f, i)
  {
    if Genuine(d, id, f, i) {
      assert SoundRecord(d.records[i]);
      var found := FindRecord(d.records, f.frames.identifier, 0);
      assert found == Some(i);
    }
  }

  lemma {:induction false} CountUpdate<H>(records: seq<Record<H>>, i: nat, r: Record<H>, owner: Owner)
    requires i < |records|
    ensures Count(records[i := r], owner) == Count(records, owner)
      - (if records[i].active && records[i].owner == owner then 1 else 0)
      + (if r.active && r.owner == owner then 1 else 0)
    decreases |records|
  {
    var n := |records| - 1;
    if i == n {
      assert records[i := r][..n] == records[..n];
    } else {
      assert records[i := r][..n] == records[..n][i := r];
      CountUpdate(records[..n], i, r, owner);
    }
  }

  // ----- every call keeps the invariant -----

  lemma AllocateKeeps<H>(d: Dma<H>, id: H, grant: Option<Frames>, mapped: bool)
    requires Valid(d) && (grant.Some? ==> Fresh(d.outstanding, grant.value))
    ensures Valid(Allocate(d, id, grant, mapped).dma)
  {
    hide Count, FreeSlot, Apart;
    var slot := FreeSlot(d.records, 0);
    if d.live && slot.Some? && grant.Some? && mapped {
      var i, r := slot.value, Record(Some(id), grant.value, Cpu, false, true);
      CountUpdate(d.records, i, r, Cpu);
      CountUpdate(d.records, i, r, Device);
      AddsRange(d, i, r);
    }
  }

  lemma AddsRange<H>(d: Dma<H>, i: nat, r: Record<H>)
    requires Valid(d) && i < CAPACITY && !d.records[i].active && r.active && Fresh(d.outstanding, r.frames)
    ensures Separate(d.records[i := r]) && Matches(d.records[i := r], d.outstanding + {r.frames})
  {
    var records := d.records[i := r];
    forall j | 0 <= j < CAPACITY && j != i && records[j].active
      ensures records[j].frames.identifier != r.frames.identifier && Apart(records[j].frames, r.frames)
    {
      assert records[j].frames in d.outstanding;
    }
    forall x | x in d.outstanding + {r.frames}
      ensures exists j :: 0 <= j < |records| && records[j].active && records[j].frames == x
    {
      if x in d.outstanding {
        var j :| 0 <= j < |d.records| && d.records[j].active && d.records[j].frames == x;
        assert records[j] == d.records[j];
      } else {
        assert records[i].frames == x;
      }
    }
  }

  /** Changing who owns a record leaves the ranges alone. */
  lemma SameRanges<H>(d: Dma<H>, i: nat, r: Record<H>)
    requires Valid(d) && i < CAPACITY && d.records[i].active && r.active && r.frames == d.records[i].frames
    ensures Separate(d.records[i := r]) && Matches(d.records[i := r], d.outstanding)
  {
    var records := d.records[i := r];
    assert forall j :: 0 <= j < CAPACITY ==>
      && records[j].active == d.records[j].active
      && records[j].frames == (if j == i then r.frames else d.records[j].frames);
    forall x | x in d.outstanding
      ensures exists j :: 0 <= j < |records| && records[j].active && records[j].frames == x
    {
      var j :| 0 <= j < |d.records| && d.records[j].active && d.records[j].frames == x;
      assert records[j].frames == x;
    }
  }

  lemma DropsRange<H>(d: Dma<H>, i: nat)
    requires Valid(d) && i < CAPACITY && d.records[i].active
    ensures var records := d.records[i := Released(d.records[i])];
      Separate(records) && Matches(records, d.outstanding - {d.records[i].frames})
  {
    var records, gone := d.records[i := Released(d.records[i])], d.records[i].frames;
    forall j | 0 <= j < CAPACITY && records[j].active ensures records[j].frames in d.outstanding - {gone} {
      assert j != i && d.records[j].frames.identifier != gone.identifier;
    }
    forall x | x in d.outstanding - {gone}
      ensures exists j :: 0 <= j < |records| && records[j].active && records[j].frames == x
    {
      var j :| 0 <= j < |d.records| && d.records[j].active && d.records[j].frames == x;
      assert records[j] == d.records[j];
    }
  }

  lemma MarkKeeps<H>(d: Dma<H>, id: H, f: Fields)
    requires Valid(d)
    ensures Valid(MarkInitialized(d, id, f).dma)
  {
    hide Count, Validate, Separate, Matches;
    var found := Validate(d, id, f);
    if found.Some? {
      ValidateExact(d, id, f, found.value);
      var i, r := found.value, d.records[found.value].(initialized := true);
      CountUpdate(d.records, i, r, Cpu);
      CountUpdate(d.records, i, r, Device);
      SameRanges(d, i, r);
    }
  }

  lemma ToDeviceKeeps<H>(d: Dma<H>, id: H, f: Fields)
    requires Valid(d)
    ensures Valid(ToDevice(d, id, f).dma)
  {
    hide Count, Validate, Separate, Matches;
    var found := Validate(d, id, f);
    if found.Some? {
      ValidateExact(d, id, f, found.value);
      var i, r := found.value, d.records[found.value].(owner := Device);
      CountUpdate(d.records, i, r, Cpu);
      CountUpdate(d.records, i, r, Device);
      SameRanges(d, i, r);
    }
  }

  lemma ToCpuKeeps<H>(d: Dma<H>, id: H, f: Fields)
    requires Valid(d)
    ensures Valid(ToCpu(d, id, f).dma)
  {
    hide Count, Validate, Separate, Matches;
    var found := Validate(d, id, f);
    if found.Some? {
      ValidateExact(d, id, f, found.value);
      var i, r := found.value, d.records[found.value].(owner := Cpu);
      CountUpdate(d.records, i, r, Cpu);
      CountUpdate(d.records, i, r, Device);
      SameRanges(d, i, r);
    }
  }

  lemma ReleaseKeeps<H>(d: Dma<H>, id: H, f: Fields)
    requires Valid(d)
    ensures Valid(Release(d, id, f).dma)
  {
    hide Count, Validate, Separate, Matches;
    var found := Validate(d, id, f);
    if found.Some? {
      ValidateExact(d, id, f, found.value);
      var i := found.value;
      CountUpdate(d.records, i, Released(d.records[i]), Cpu);
      CountUpdate(d.records, i, Released(d.records[i]), Device);
      DropsRange(d, i);
    }
  }
}
