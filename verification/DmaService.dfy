/** The DMA service: the static record table, its counters, and the callers' handle
    objects, all updated in place. Handles are ordinary memory that any caller may
    copy or overwrite between calls; the table's invariant never relies on them. */
module DmaService {
  import opened Seqs
  import opened DmaTable
  import opened DmaRuns

  class Handle {
    var fields: Fields

    constructor ()
      ensures fields == NO_FIELDS
    {
      fields := NO_FIELDS;
    }
  }

  class Service {
    const records: array<Record<Handle>>
    var live: bool
    var active: int
    var cpu: int
    var device: int
    ghost var outstanding: set<Frames>   // held at the frame allocator

    ghost function Machine(): Dma<Handle>
      reads this, records
    {
      Dma(records[..], live, active, cpu, device, outstanding)
    }

    ghost predicate Valid()
      reads this, records
    {
      DmaTable.Valid(Machine())
    }

    ghost function Handles(): set<Handle>
      reads this, records
    {
      set i | 0 <= i < records.Length && records[i].handle.Some? :: records[i].handle.value
    }

    /** Every active record's registered handle still shows what the record says. */
    ghost predicate Intact()
      reads this, records, Handles()
    {
      forall i :: 0 <= i < records.Length && records[i].active ==>
        records[i].handle.Some? && records[i].handle.value.fields == Image(records[i])
    }

    ghost predicate Registered(h: Handle)
      reads this, records
    {
      exists i :: 0 <= i < records.Length && records[i].active && records[i].handle == Some(h)
    }

    constructor ()
      ensures Valid() && !live && outstanding == {} && Intact() && fresh(records)
    {
      records := new Record<Handle>[CAPACITY](_ => Record(None, NO_FRAMES, NoOwner, false, false));
      live, active, cpu, device, outstanding := false, 0, 0, 0, {};
      new;
      InitialValid(records[..], false);
    }

    method Initialize() returns (status: Status)
      requires Valid() && (!live ==> outstanding == {})
      modifies this, records
      ensures Valid() && outstanding == old(outstanding)
      ensures old(live) ==> status == AlreadyInitialized && Machine() == old(Machine())
      ensures !old(live) ==> status == Ok && live && active == cpu == device == 0
      ensures !old(live) ==> forall i :: 0 <= i < records.Length ==> !records[i].active
    {
      if live {
        return AlreadyInitialized;
      }
      active, cpu, device := 0, 0, 0;
      var k := 0;
      while k < CAPACITY
        invariant k <= CAPACITY == records.Length
        invariant forall i :: 0 <= i < k ==> !records[i].active
        modifies records
      {
        records[k] := records[k].(handle := None, active := false);
        k := k + 1;
      }
      live := true;
      InitialValid(records[..], true);
      return Ok;
    }

    method RecordFor(identifier: nat) returns (index: Option<nat>)
      ensures index == FindRecord(records[..], identifier, 0)
    {
      var k := 0;
      while k < records.Length
        invariant k <= records.Length
        invariant FindRecord(records[..], identifier, 0) == FindRecord(records[..], identifier, k)
      {
        if records[k].active && records[k].frames.identifier == identifier {
          return Some(k);
        }
        k := k + 1;
      }
      return None;
    }

    method ValidateAllocation(h: Handle) returns (index: Option<nat>)
      ensures index == Validate(Machine(), h, h.fields)
    {
      if !Plausible(h.fields) {
        return None;
      }
      var found := RecordFor(h.fields.frames.identifier);
      if found.None? || !Agrees(records[found.value], h, h.fields) {
        return None;
      }
      return found;
    }

    method MarkInitialized(h: Handle) returns (status: Status)
      requires Valid()
      modifies records, h
      ensures Valid()
      ensures Reply(Machine(), status, h.fields) == DmaTable.MarkInitialized(old(Machine()), h, old(h.fields))
    {
      hide DmaTable.Valid, Validate;
      MarkKeeps(Machine(), h, h.fields);
      var found := ValidateAllocation(h);
      if found.None? {
        return BadAllocation;
      }
      if h.fields.owner != Cpu {
        return WrongOwner;
      }
      var i := found.value;
      h.fields := h.fields.(initialized := true);
      records[i] := records[i].(initialized := true);
      return Ok;
    }

    method TransferToDevice(h: Handle) returns (status: Status)
      requires Valid()
      modifies this`cpu, this`device, records, h
      ensures Valid()
      ensures Reply(Machine(), status, h.fields) == ToDevice(old(Machine()), h, old(h.fields))
    {
      hide DmaTable.Valid, Validate;
      ToDeviceKeeps(Machine(), h, h.fields);
      var found := ValidateAllocation(h);
      if found.None? {
        return BadAllocation;
      }
      if h.fields.owner != Cpu {
        return WrongOwner;
      }
      if !h.fields.initialized {
        return NotPrepared;
      }
      var i := found.value;
      h.fields := h.fields.(owner := Device);
      records[i] := records[i].(owner := Device);
      cpu := cpu - 1;
      device := device + 1;
      return Ok;
    }

    method TransferToCpu(h: Handle) returns (status: Status)
      requires Valid()
      modifies this`cpu, this`device, records, h
      ensures Valid()
      ensures Reply(Machine(), status, h.fields) == ToCpu(old(Machine()), h, old(h.fields))
    {
      hide DmaTable.Valid, Validate;
      ToCpuKeeps(Machine(), h, h.fields);
      var found := ValidateAllocation(h);
      if found.None? {
        return BadAllocation;
      }
      if h.fields.owner != Device {
        return WrongOwner;
      }
      var i := found.value;
      h.fields := h.fields.(owner := Cpu);
      records[i] := records[i].(owner := Cpu);
      device := device - 1;
      cpu := cpu + 1;
      return Ok;
    }

    method ReleaseAllocation(h: Handle) returns (status: Status)
      requires Valid()
      modifies this`active, this`cpu, this`outstanding, records, h
      ensures Valid()
      ensures Reply(Machine(), status, h.fields) == Release(old(Machine()), h, old(h.fields))
    {
      hide DmaTable.Valid, Validate;
      ReleaseKeeps(Machine(), h, h.fields);
      if !live {
        return NotInitialized;
      }
      if !h.fields.active {
        return DoubleFree;
      }
      var found := ValidateAllocation(h);
      if found.None? {
        return BadAllocation;
      }
      if h.fields.owner != Cpu {
        return WrongOwner;
      }
      var i := found.value;
      outstanding := outstanding - {records[i].frames};
      h.fields := NO_FIELDS.(frames := h.fields.frames.(active := false));
      records[i] := Released(records[i]);
      active := active - 1;
      cpu := cpu - 1;
      return Ok;
    }

    method IsDeviceOwned(h: Handle) returns (owned: bool)
      requires Valid()
      ensures owned <==> exists i: nat :: Genuine(Machine(), h, h.fields, i) && Machine().records[i].owner == Device
    {
      var found := ValidateAllocation(h);
      SlotOf(Machine(), h, h.fields);
      forall i: nat | Genuine(Machine(), h, h.fields, i) ensures found == Some(i) {
        ValidateExact(Machine(), h, h.fields, i);
      }
      return found.Some? && records[found.value].initialized && records[found.value].owner == Device;
    }

    method FindFreeSlot() returns (index: Option<nat>)
      ensures index == FreeSlot(records[..], 0)
    {
      var k := 0;
      while k < records.Length
        invariant k <= records.Length
        invariant FreeSlot(records[..], 0) == FreeSlot(records[..], k)
      {
        if !records[k].active {
          return Some(k);
        }
        k := k + 1;
      }
      return None;
    }

    /** The frame allocator's answer is a parameter. The handle is wiped first, so a
        handle that is still registered loses its record. */
    method AllocateBuffer(h: Handle, grant: Option<Frames>, mapped: bool) returns (status: Status)
      requires Valid() && (grant.Some? ==> Fresh(outstanding, grant.value))
      modifies this`active, this`cpu, this`outstanding, records, h
      ensures Valid()
      ensures Reply(Machine(), status, h.fields) == Allocate(old(Machine()), h, grant, mapped)
      ensures old(Intact()) ==> (Intact() <==> !old(Registered(h)))
    {
      hide DmaTable.Valid, FreeSlot, Fresh;
      ghost var before := records[..];
      AllocateKeeps(Machine(), h, grant, mapped);
      AllocatedShows(Machine(), h, grant, mapped);
      h.fields := NO_FIELDS;
      if !live {
        return NotInitialized;
      }
      var slot := FindFreeSlot();
      if slot.None? || grant.None? {
        return FrameAllocationFailure;
      }
      if !mapped {
        h.fields := NO_FIELDS.(frames := grant.value.(active := false));
        return NotIdentityMapped;
      }
      var i := slot.value;
      records[i] := Record(Some(h), grant.value, Cpu, false, true);
      h.fields := Image(records[i]);
      outstanding := outstanding + {grant.value};
      active := active + 1;
      cpu := cpu + 1;
      assert !before[i].active;
      assert forall j :: 0 <= j < records.Length && before[j].active ==>
        records[j] == before[j] && h.fields != Image(records[j]);
      return Ok;
    }

    /** The audit's own condition, of any table: each active record has a handle that
        validates as something, and the counters add up. */
    ghost predicate Audited()
      reads this, records, Handles()
    {
      && (forall i :: 0 <= i < records.Length && records[i].active ==>
            && records[i].handle.Some? && records[i].owner != NoOwner
            && Validate(Machine(), records[i].handle.value, records[i].handle.value.fields).Some?)
      && cpu == Count(records[..], Cpu) && device == Count(records[..], Device) && active == cpu + device
    }

    method Verify() returns (status: Status)
      requires records.Length == CAPACITY
      ensures status == NotInitialized <==> !live
      ensures status == Ok <==> live && Audited()
      ensures status in {Ok, NotInitialized, BadAllocation}
    {
      hide Validate;
      if !live {
        return NotInitialized;
      }
      ghost var all := records[..];
      var total, cpuOwned, deviceOwned := 0, 0, 0;
      var k := 0;
      while k < CAPACITY
        invariant k <= CAPACITY == records.Length
        invariant forall i :: 0 <= i < k && records[i].active ==>
          && records[i].handle.Some? && records[i].owner != NoOwner
          && Validate(Machine(), records[i].handle.value, records[i].handle.value.fields).Some?
        invariant cpuOwned == Count(all[..k], Cpu) && deviceOwned == Count(all[..k], Device)
        invariant total == cpuOwned + deviceOwned
      {
        assert all[..k + 1][..k] == all[..k];
        if records[k].active {
          if records[k].handle.None? {
            return BadAllocation;
          }
          var found := ValidateAllocation(records[k].handle.value);
          if found.None? {
            return BadAllocation;
          }
          total := total + 1;
          if records[k].owner == Cpu {
            cpuOwned := cpuOwned + 1;
          } else if records[k].owner == Device {
            deviceOwned := deviceOwned + 1;
          } else {
            return BadAllocation;
          }
        }
        k := k + 1;
      }
      assert all[..k] == all;
      if total != active || cpuOwned != cpu || deviceOwned != device || cpuOwned + deviceOwned != total {
        return BadAllocation;
      }
      return Ok;
    }

    /** No two active records name the same handle. */
    ghost predicate Unshared()
      reads this, records
    {
      forall i, j :: 0 <= i < j < records.Length && records[i].active && records[j].active ==>
        records[i].handle != records[j].handle
    }

    /** The audit asks only that each registered handle is genuine for some record, so
        it sees every tampered handle except one that was registered twice. */
    lemma AuditMeaning()
      requires Valid()
      ensures Intact() <==> Audited() && Unshared()
    {
      hide Validate, Matches, Count;
      forall i | 0 <= i < records.Length && records[i].active
        ensures var h := records[i].handle.value;
          h.fields == Image(records[i]) ==> Validate(Machine(), h, h.fields).Some?
      {
        assert SoundRecord(Machine().records[i]);
        var h := records[i].handle.value;
        ValidateExact(Machine(), h, h.fields, i);
      }
      if Audited() {
        forall i | 0 <= i < records.Length && records[i].active
          ensures exists j: nat :: Genuine(Machine(), records[i].handle.value, records[i].handle.value.fields, j)
        {
          var h := records[i].handle.value;
          SlotOf(Machine(), h, h.fields);
        }
      }
    }

    /** Reusing a registered handle: a refused call leaves a handle the audit reports; a
        successful one leaves a record that no longer has a handle, and the audit passes. */
    lemma ReuseIsMissed(i: nat, j: nat)
      requires Valid() && i < CAPACITY && j < CAPACITY && i != j && records[i].active && records[j].active
      requires records[i].handle == records[j].handle && records[j].handle.value.fields == Image(records[j])
      requires forall k :: 0 <= k < CAPACITY && records[k].active && k != i ==>
        records[k].handle.Some? && records[k].handle.value.fields == Image(records[k])
      ensures Audited() && !Intact()
    {
      hide Validate, Matches, Count;
      assert records[i].frames.identifier != records[j].frames.identifier;
      forall k | 0 <= k < records.Length && records[k].active
        ensures records[k].handle.Some? && records[k].owner != NoOwner
        ensures Validate(Machine(), records[k].handle.value, records[k].handle.value.fields).Some?
      {
        assert SoundRecord(Machine().records[k]);
        var h := records[k].handle.value;
        ValidateExact(Machine(), h, h.fields, if k == i then j else k);
      }
    }
  }

  /** Two successful allocations through one handle, on an idle service. */
  method AllocateTwice(service: Service, handle: Handle, first: Frames, second: Frames)
    requires service.Valid() && service.live && service.outstanding == {}
    requires forall i :: 0 <= i < service.records.Length ==> !service.records[i].active
    requires Fresh({}, first) && Fresh({first}, second)
    modifies service, service.records, handle
    ensures service.Valid() && service.live && service.outstanding == {first, second}
    ensures service.records[..] == old(service.records[..])
      [0 := Record(Some(handle), first, Cpu, false, true)][1 := Record(Some(handle), second, Cpu, false, true)]
    ensures handle.fields == Image(service.records[1])
  {
    hide Separate, Matches, Count, SoundRecord;
    ghost var none := service.records[..];
    assert FreeSlot(none, 0) == Some(0);
    var status := service.AllocateBuffer(handle, Some(first), true);
    ghost var one := service.records[..];
    assert one == none[0 := Record(Some(handle), first, Cpu, false, true)];
    assert FreeSlot(one, 0) == Some(1);
    status := service.AllocateBuffer(handle, Some(second), true);
    assert service.records[..] == one[1 := Record(Some(handle), second, Cpu, false, true)];
  }

  /** The run that shows it: a fresh service, and two allocations through one handle. The
      audit answers Ok, and no handle shows the first range any more. */
  method ReuseOneHandle(first: Frames, second: Frames) returns (service: Service, handle: Handle, audit: Status)
    requires Fresh({}, first) && Fresh({first}, second)
    ensures fresh(service) && fresh(handle) && fresh(service.records) && service.Valid()
    ensures audit == Ok && service.Audited() && !service.Intact()
    ensures service.outstanding == {first, second} && handle.fields.frames == second
    ensures forall i :: 0 <= i < service.records.Length && service.records[i].active ==>
      service.records[i].handle == Some(handle)
  {
    hide Separate, Matches, Count, Validate, SoundRecord, Fresh;
    service := new Service();
    handle := new Handle();
    var status := service.Initialize();
    AllocateTwice(service, handle, first, second);
    service.ReuseIsMissed(0, 1);
    audit := service.Verify();
  }

  /** What the handle shows after an allocation call is the image of no record that
      was active before it. */
  lemma AllocatedShows<H>(d: Dma<H>, id: H, grant: Option<Frames>, mapped: bool)
    requires DmaTable.Valid(d) && (grant.Some? ==> Fresh(d.outstanding, grant.value))
    ensures forall i :: 0 <= i < |d.records| && d.records[i].active ==>
      Allocate(d, id, grant, mapped).fields != Image(d.records[i])
  {
    forall i | 0 <= i < |d.records| && d.records[i].active
      ensures Allocate(d, id, grant, mapped).fields != Image(d.records[i])
    {
      assert d.records[i].frames in d.outstanding;
    }
  }
}
