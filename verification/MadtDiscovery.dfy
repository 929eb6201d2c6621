/** Discovery as it runs: one walk over the table that fills fixed arrays, and
    wipes them on any refusal. */
module MadtDiscovery {
  import opened FirmwareBytes
  import opened Madt
  import opened MadtRoundTrip

  const NO_LOCAL := LocalApic(0, 0, false, false)
  const NO_IO_APIC := IoApic(0, 0, 0)
  const NO_OVERRIDE := Override(0, 0, 0, 0)
  const EMPTY := Topology(0, false, false, [], 0, [], [], 0, 0)

  function Reported(status: Status, t: Topology): Outcome {
    if status == Ok then Accepted(t) else Refused(status)
  }

  method Fill<T>(a: array<T>, v: T)
    modifies a
    ensures forall i :: 0 <= i < a.Length ==> a[i] == v
  {
    var k := 0;
    while k < a.Length
      invariant k <= a.Length
      invariant forall i :: 0 <= i < k ==> a[i] == v
    {
      a[k] := v;
      k := k + 1;
    }
  }

  /** The single pass: stop at the first structure that cannot be cut or consumed. */
  function WalkFrom(t: Topology, table: seq<Byte>, offset: nat): Outcome
    decreases |table| - offset
  {
    if offset >= |table| then Accepted(t)
    else if |table| - offset < 2 then Refused(TruncatedEntry)
    else
      var length := table[offset + 1];
      if length < 2 then Refused(BadEntryLength)
      else if length > |table| - offset then Refused(TruncatedEntry)
      else match ConsumeBytes(t, table[offset..offset + length])
        case Refused(status) => Refused(status)
        case Accepted(u) => WalkFrom(u, table, offset + length)
  }

  class Store {
    const locals: array<LocalApic>
    const ioApics: array<IoApic>
    const overrides: array<Override>
    var address: nat
    var overridden: bool
    var legacyPic: bool
    var localCount: nat
    var enabledCount: nat
    var ioApicCount: nat
    var overrideCount: nat
    var nmiCount: nat
    var ignoredCount: nat

    ghost predicate Shaped()
      reads this
    {
      && locals.Length == MAX_LOCAL_APICS && localCount <= MAX_LOCAL_APICS
      && ioApics.Length == MAX_IO_APICS && ioApicCount <= MAX_IO_APICS
      && overrides.Length == ISA_IRQ_COUNT && overrideCount <= ISA_IRQ_COUNT
    }

    ghost function View(): Topology
      requires Shaped()
      reads this, locals, ioApics, overrides
    {
      Topology(address, overridden, legacyPic, locals[..localCount], enabledCount,
               ioApics[..ioApicCount], overrides[..overrideCount], nmiCount, ignoredCount)
    }

    /** The recorded override sources are distinct ISA interrupts. */
    ghost predicate Sound()
      reads this, locals, ioApics, overrides
    {
      && Shaped() && DistinctSources(View().overrides)
      && forall i :: 0 <= i < |View().overrides| ==> View().overrides[i].source < ISA_IRQ_COUNT
    }

    /** Every field and every array slot is zero. */
    ghost predicate AllZero()
      reads this, locals, ioApics, overrides
    {
      && Shaped() && View() == EMPTY
      && (forall i :: 0 <= i < locals.Length ==> locals[i] == NO_LOCAL)
      && (forall i :: 0 <= i < ioApics.Length ==> ioApics[i] == NO_IO_APIC)
      && (forall i :: 0 <= i < overrides.Length ==> overrides[i] == NO_OVERRIDE)
    }

    constructor ()
      ensures Shaped() && fresh(locals) && fresh(ioApics) && fresh(overrides)
    {
      locals := new LocalApic[MAX_LOCAL_APICS];
      ioApics := new IoApic[MAX_IO_APICS];
      overrides := new Override[ISA_IRQ_COUNT];
      address, overridden, legacyPic := 0, false, false;
      localCount, enabledCount, ioApicCount, overrideCount, nmiCount, ignoredCount := 0, 0, 0, 0, 0, 0;
    }

    method Clear()
      requires Shaped()
      modifies this, locals, ioApics, overrides
      ensures AllZero()
    {
      Fill(locals, NO_LOCAL);
      Fill(ioApics, NO_IO_APIC);
      Fill(overrides, NO_OVERRIDE);
      address, overridden, legacyPic := 0, false, false;
      localCount, enabledCount, ioApicCount, overrideCount, nmiCount, ignoredCount := 0, 0, 0, 0, 0, 0;
    }

    method RecordLocalApic(uid: nat, apicId: nat, flags: nat) returns (status: Status)
      requires Sound()
      modifies this, locals
      ensures Sound() && (status != Ok ==> View() == old(View()))
      ensures Reported(status, View()) == RecordLocal(old(View()), uid, apicId, flags)
    {
      if flags >= 4 {
        return BadProcessorFlags;
      }
      var index := 0;
      while index < localCount
        invariant index <= localCount
        invariant forall i :: 0 <= i < index ==> locals[i].uid != uid
      {
        if locals[index].uid == uid {
          assert View().locals[index].uid == uid;
          return DuplicateProcessorUid;
        }
        index := index + 1;
      }
      if localCount == MAX_LOCAL_APICS {
        return TooManyLocalApics;
      }
      var entry := LocalFrom(uid, apicId, flags);
      locals[localCount] := entry;
      localCount := localCount + 1;
      if entry.enabled {
        enabledCount := enabledCount + 1;
      }
      return Ok;
    }

    method RecordController(id: nat, controller: nat, interruptBase: nat) returns (status: Status)
      requires Sound()
      modifies this, ioApics
      ensures Sound() && (status != Ok ==> View() == old(View()))
      ensures Reported(status, View()) == RecordIoApic(old(View()), id, controller, interruptBase)
    {
      if controller == 0 || !EarlyMapped(controller, IO_APIC_WINDOW) {
        return ApicOutsideEarlyMap;
      }
      var index := 0;
      while index < ioApicCount
        invariant index <= ioApicCount
        invariant forall i :: 0 <= i < index ==> ioApics[i].id != id
      {
        if ioApics[index].id == id {
          assert View().ioApics[index].id == id;
          return DuplicateIoApicId;
        }
        index := index + 1;
      }
      if ioApicCount == MAX_IO_APICS {
        return TooManyIoApics;
      }
      ioApics[ioApicCount] := IoApic(id, controller, interruptBase);
      ioApicCount := ioApicCount + 1;
      return Ok;
    }

    /** No capacity test: the slot exists because a fresh source leaves one free. */
    method RecordInterruptOverride(bus: nat, source: nat, gsi: nat, flags: nat) returns (status: Status)
      requires Sound()
      modifies this, overrides
      ensures Sound() && (status != Ok ==> View() == old(View()))
      ensures Reported(status, View()) == RecordOverride(old(View()), bus, source, gsi, flags)
    {
      if bus != 0 {
        return BadOverrideBus;
      }
      if source >= ISA_IRQ_COUNT {
        return BadOverrideSource;
      }
      if flags >= 16 {
        return BadOverrideFlags;
      }
      var index := 0;
      while index < overrideCount
        invariant index <= overrideCount
        invariant forall i :: 0 <= i < index ==> overrides[i].source != source
      {
        if overrides[index].source == source {
          assert View().overrides[index].source == source;
          return DuplicateOverrideSource;
        }
        index := index + 1;
      }
      ghost var before := View().overrides;
      assert !HasSource(before, source);
      OverridesFit(before);
      var entry := Override(bus, source, gsi, flags);
      overrides[overrideCount] := entry;
      overrideCount := overrideCount + 1;
      SourcesNext(before, [entry]);
      assert View().overrides == before + [entry];
      return Ok;
    }

    method RecordLocalApicAddress(window: nat) returns (status: Status)
      requires Sound()
      modifies this
      ensures Sound() && (status != Ok ==> View() == old(View()))
      ensures Reported(status, View()) == RecordAddress(old(View()), window)
    {
      if overridden {
        return DuplicateAddressOverride;
      }
      if window == 0 || !EarlyMapped(window, LOCAL_APIC_WINDOW) {
        return ApicOutsideEarlyMap;
      }
      address := window;
      overridden := true;
      return Ok;
    }

    /** One structure: its length is checked against its type before any field is read. */
    method ConsumeEntry(e: seq<Byte>) returns (status: Status)
      requires Sound() && |e| >= 2
      modifies this, locals, ioApics, overrides
      ensures Sound()
      ensures Reported(status, View()) == ConsumeBytes(old(View()), e)
    {
      hide RecordLocal, RecordIoApic, RecordOverride, RecordAddress, U16, U32, U64;
      var expected;
      match e[0] {
        case 0 => expected := 8;
        case 1 => expected := 12;
        case 2 => expected := 10;
        case 3 => expected := 8;
        case 4 => expected := 6;
        case 5 => expected := 12;
        case 9 => expected := 16;
        case _ =>
          ignoredCount := ignoredCount + 1;
          return Ok;
      }
      if |e| != expected {
        return BadEntryLength;
      }
      status := RecordEntry(e);
    }

    /** The record of a structure of the right length. */
    method RecordEntry(e: seq<Byte>) returns (status: Status)
      requires Sound() && |e| >= 2 && Decode(e).Some? && !Decode(e).value.Other?
      modifies this, locals, ioApics, overrides
      ensures Sound()
      ensures Reported(status, View()) == Consume(old(View()), Decode(e).value)
    {
      hide RecordLocal, RecordIoApic, RecordOverride, RecordAddress, U16, U32, U64;
      match e[0] {
        case 0 => status := RecordLocalApic(e[2], e[3], U32(e, 4));
        case 1 => status := RecordController(e[2], U32(e, 4), U32(e, 8));
        case 2 => status := RecordInterruptOverride(e[2], e[3], U32(e, 4), U16(e, 8));
        case 5 => status := RecordLocalApicAddress(U64(e, 4));
        case 9 => status := RecordLocalApic(U32(e, 12), U32(e, 4), U32(e, 8));
        case _ =>
          nmiCount := nmiCount + 1;
          status := Ok;
      }
    }

    /** The early checks, before any structure is looked at. */
    method RevalidateTable(m: Source, table: seq<Byte>) returns (status: Status)
      requires |table| == m.length
      ensures status == Revalidate(m, table)
    {
      if m.physicalAddress == 0 {
        return NullTable;
      }
      if m.length < FIXED_SIZE || m.length > MAX_TABLE_SIZE {
        return BadMadtLength;
      }
      if !EarlyMapped(m.physicalAddress, m.length) {
        return TableOutsideEarlyMap;
      }
      var sum := SumBytes(table, m.length);
      assert table[..m.length] == table;
      if sum != 0 {
        return BadTableChecksum;
      }
      return Ok;
    }

    /** Cut and consume in one pass. */
    method Walk(table: seq<Byte>) returns (status: Status)
      requires Sound() && |table| >= FIXED_SIZE
      modifies this, locals, ioApics, overrides
      ensures Sound()
      ensures Reported(status, View()) == WalkFrom(old(View()), table, FIXED_SIZE)
    {
      hide ConsumeBytes, DistinctSources;
      var offset := FIXED_SIZE;
      while offset < |table|
        invariant FIXED_SIZE <= offset <= |table|
        invariant Shaped() && Sound()
        invariant WalkFrom(old(View()), table, FIXED_SIZE) == WalkFrom(View(), table, offset)
        decreases |table| - offset
      {
        var remaining := |table| - offset;
        if remaining < 2 {
          return TruncatedEntry;
        }
        var length := table[offset + 1];
        if length < 2 {
          return BadEntryLength;
        }
        if length > remaining {
          return TruncatedEntry;
        }
        status := ConsumeEntry(table[offset..offset + length]);
        if status != Ok {
          return;
        }
        offset := offset + length;
      }
      return Ok;
    }

    /** All or nothing: the answer is the discovered topology, or a refusal that
        leaves every byte of the store zero, whatever it held before. */
    method DiscoverTopology(m: Source, table: seq<Byte>) returns (status: Status)
      requires Shaped() && |table| == m.length
      modifies this, locals, ioApics, overrides
      ensures Sound()
      ensures status == Ok ==> Discover(m, table) == Accepted(View())
      ensures status != Ok ==> Discover(m, table) == Refused(status) && AllZero()
    {
      hide Cut, ConsumeAll, Revalidate, WalkFrom;
      Clear();
      status := RevalidateTable(m, table);
      if status != Ok {
        return;
      }
      assert |table| >= FIXED_SIZE by { RevalidateLength(m, table); }
      address := m.localApicAddress;
      legacyPic := m.flags % 2 == 1;
      assert View() == Start(m);
      WalkIsCutAndConsume(Start(m), table, FIXED_SIZE);
      status := Walk(table);
      if status == Ok && enabledCount == 0 {
        status := MissingBootProcessor;
      } else if status == Ok && ioApicCount == 0 {
        status := MissingIoApic;
      }
      if status != Ok {
        Clear();
      }
    }
  }

  lemma RevalidateLength(m: Source, table: seq<Byte>)
    requires Revalidate(m, table) == Ok
    ensures m.length >= FIXED_SIZE
  {
  }

  // ----- one pass against two -----

  lemma {:induction false} ConsumeFirst(t: Topology, e: seq<Byte>, rest: seq<seq<Byte>>)
    requires |e| >= 2 && forall i :: 0 <= i < |rest| ==> |rest[i]| >= 2
    ensures ConsumeAll(t, [e] + rest) ==
      match ConsumeBytes(t, e)
      case Refused(status) => Refused(status)
      case Accepted(u) => ConsumeAll(u, rest)
    decreases |rest|
  {
    hide ConsumeBytes;
    var all := [e] + rest;
    if rest == [] {
      assert all == [e] && all[..0] == [];
    } else {
      var n := |rest| - 1;
      assert all[..|all| - 1] == [e] + rest[..n];
      ConsumeFirst(t, e, rest[..n]);
    }
  }

  /** Stopping at the first failure, structural or not, is what consuming the cut-off
      structures and then looking at the tail reports. */
  lemma {:induction false} WalkIsCutAndConsume(t: Topology, table: seq<Byte>, offset: nat)
    ensures var c := Cut(table, offset);
      WalkFrom(t, table, offset) ==
        match ConsumeAll(t, c.items)
        case Refused(s) => Refused(s)
        case Accepted(u) => Reported(c.tail, u)
    decreases |table| - offset
  {
    hide ConsumeBytes;
    if offset + 2 <= |table| && 2 <= table[offset + 1] <= |table| - offset {
      var length := table[offset + 1];
      var e := table[offset..offset + length];
      ConsumeFirst(t, e, Cut(table, offset + length).items);
      if ConsumeBytes(t, e).Accepted? {
        WalkIsCutAndConsume(ConsumeBytes(t, e).topology, table, offset + length);
      }
    }
  }
}
