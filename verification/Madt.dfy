/** The interrupt-controller table: how its bytes split into structures, what each
    one contributes, and exactly which tables are accepted and as what. */
module Madt {
  import opened Seqs
  import opened FirmwareBytes

  const FIXED_SIZE: nat := 44
  const MAX_TABLE_SIZE: nat := 1024 * 1024
  const MAX_LOCAL_APICS: nat := 64
  const MAX_IO_APICS: nat := 8
  const ISA_IRQ_COUNT: nat := 16
  const LOCAL_APIC_WINDOW: nat := 0x1000
  const IO_APIC_WINDOW: nat := 0x20

  datatype Status =
    | Ok
    | NullTable
    | BadMadtLength
    | TableOutsideEarlyMap
    | BadTableChecksum
    | TruncatedEntry
    | BadEntryLength
    | BadProcessorFlags
    | DuplicateProcessorUid
    | TooManyLocalApics
    | ApicOutsideEarlyMap
    | DuplicateIoApicId
    | TooManyIoApics
    | BadOverrideBus
    | BadOverrideSource
    | BadOverrideFlags
    | DuplicateOverrideSource
    | DuplicateAddressOverride
    | MissingBootProcessor
    | MissingIoApic

  datatype LocalApic = LocalApic(uid: nat, apicId: nat, enabled: bool, onlineCapable: bool)
  datatype IoApic = IoApic(id: nat, address: nat, interruptBase: nat)
  datatype Override = Override(bus: nat, source: nat, gsi: nat, flags: nat)

  /** What discovery reports. */
  datatype Topology = Topology(
    address: nat, overridden: bool, legacyPic: bool,
    locals: seq<LocalApic>, enabled: nat, ioApics: seq<IoApic>, overrides: seq<Override>,
    nmi: nat, ignored: nat)

  /** One structure of the table, by type. */
  datatype Entry =
    | Processor(uid: nat, apicId: nat, flags: nat)
    | X2Processor(uid: nat, apicId: nat, flags: nat)
    | IoController(id: nat, address: nat, interruptBase: nat)
    | SourceOverride(bus: nat, source: nat, gsi: nat, flags: nat)
    | AddressOverride(address: nat)
    | NmiSource(payload: seq<Byte>)
    | LocalApicNmi(payload: seq<Byte>)
    | Other(kind: Byte, payload: seq<Byte>)

  datatype Outcome = Accepted(topology: Topology) | Refused(status: Status)

  // ----- bytes to structures -----

  /** The fields of one structure; a modelled type must have exactly its own length. */
  function Decode(e: seq<Byte>): Option<Entry>
    requires |e| >= 2
  {
    match e[0]
    case 0 => if |e| == 8 then Some(Processor(e[2], e[3], U32(e, 4))) else None
    case 1 => if |e| == 12 then Some(IoController(e[2], U32(e, 4), U32(e, 8))) else None
    case 2 => if |e| == 10 then Some(SourceOverride(e[2], e[3], U32(e, 4), U16(e, 8))) else None
    case 3 => if |e| == 8 then Some(NmiSource(e[2..])) else None
    case 4 => if |e| == 6 then Some(LocalApicNmi(e[2..])) else None
    case 5 => if |e| == 12 then Some(AddressOverride(U64(e, 4))) else None
    case 9 => if |e| == 16 then Some(X2Processor(U32(e, 12), U32(e, 4), U32(e, 8))) else None
    case kind => Some(Other(kind, e[2..]))
  }

  /** Structures cut off the table in order, and why the cutting stopped. */
  datatype Chunks = Chunks(items: seq<seq<Byte>>, tail: Status)

  function Cut(table: seq<Byte>, offset: nat): (c: Chunks)
    ensures forall i :: 0 <= i < |c.items| ==> |c.items[i]| >= 2
    decreases |table| - offset
  {
    if offset >= |table| then Chunks([], Ok)
    else if |table| - offset < 2 then Chunks([], TruncatedEntry)
    else
      var length := table[offset + 1];
      if length < 2 then Chunks([], BadEntryLength)
      else if length > |table| - offset then Chunks([], TruncatedEntry)
      else
        var rest := Cut(table, offset + length);
        Chunks([table[offset..offset + length]] + rest.items, rest.tail)
  }

  function DecodeAll(items: seq<seq<Byte>>): Option<seq<Entry>>
    requires forall i :: 0 <= i < |items| ==> |items[i]| >= 2
    decreases |items|
  {
    if items == [] then Some([])
    else
      var n := |items| - 1;
      match (DecodeAll(items[..n]), Decode(items[n]))
      case (Some(es), Some(e)) => Some(es + [e])
      case _ => None
  }

  // ----- what each structure contributes -----

  predicate HasUid(locals: seq<LocalApic>, uid: nat) {
    exists i :: 0 <= i < |locals| && locals[i].uid == uid
  }

  predicate HasIoApic(ioApics: seq<IoApic>, id: nat) {
    exists i :: 0 <= i < |ioApics| && ioApics[i].id == id
  }

  predicate HasSource(overrides: seq<Override>, source: nat) {
    exists i :: 0 <= i < |overrides| && overrides[i].source == source
  }

  /** Bit zero says enabled, bit one online capable. */
  function LocalFrom(uid: nat, apicId: nat, flags: nat): (l: LocalApic)
    ensures flags < 4 ==> (l.enabled <==> flags == 1 || flags == 3)
    ensures flags < 4 ==> (l.onlineCapable <==> flags == 2 || flags == 3)
  {
    LocalApic(uid, apicId, flags % 2 == 1, flags / 2 % 2 == 1)
  }

  function RecordLocal(t: Topology, uid: nat, apicId: nat, flags: nat): Outcome {
    if flags >= 4 then Refused(BadProcessorFlags)
    else if HasUid(t.locals, uid) then Refused(DuplicateProcessorUid)
    else if |t.locals| == MAX_LOCAL_APICS then Refused(TooManyLocalApics)
    else
      var entry := LocalFrom(uid, apicId, flags);
      Accepted(t.(locals := t.locals + [entry], enabled := t.enabled + if entry.enabled then 1 else 0))
  }

  function RecordIoApic(t: Topology, id: nat, address: nat, interruptBase: nat): Outcome {
    if address == 0 || !EarlyMapped(address, IO_APIC_WINDOW) then Refused(ApicOutsideEarlyMap)
    else if HasIoApic(t.ioApics, id) then Refused(DuplicateIoApicId)
    else if |t.ioApics| == MAX_IO_APICS then Refused(TooManyIoApics)
    else Accepted(t.(ioApics := t.ioApics + [IoApic(id, address, interruptBase)]))
  }

  function RecordOverride(t: Topology, bus: nat, source: nat, gsi: nat, flags: nat): Outcome {
    if bus != 0 then Refused(BadOverrideBus)
    else if source >= ISA_IRQ_COUNT then Refused(BadOverrideSource)
    else if flags >= 16 then Refused(BadOverrideFlags)
    else if HasSource(t.overrides, source) then Refused(DuplicateOverrideSource)
    else Accepted(t.(overrides := t.overrides + [Override(bus, source, gsi, flags)]))
  }

  function RecordAddress(t: Topology, address: nat): Outcome {
    if t.overridden then Refused(DuplicateAddressOverride)
    else if address == 0 || !EarlyMapped(address, LOCAL_APIC_WINDOW) then Refused(ApicOutsideEarlyMap)
    else Accepted(t.(address := address, overridden := true))
  }

  function Consume(t: Topology, e: Entry): Outcome {
    match e
    case Processor(uid, apicId, flags) => RecordLocal(t, uid, apicId, flags)
    case X2Processor(uid, apicId, flags) => RecordLocal(t, uid, apicId, flags)
    case IoController(id, address, interruptBase) => RecordIoApic(t, id, address, interruptBase)
    case SourceOverride(bus, source, gsi, flags) => RecordOverride(t, bus, source, gsi, flags)
    case AddressOverride(address) => RecordAddress(t, address)
    case NmiSource(_) => Accepted(t.(nmi := t.nmi + 1))
    case LocalApicNmi(_) => Accepted(t.(nmi := t.nmi + 1))
    case Other(_, _) => Accepted(t.(ignored := t.ignored + 1))
  }

  function ConsumeBytes(t: Topology, e: seq<Byte>): Outcome
    requires |e| >= 2
  {
    match Decode(e)
    case None => Refused(BadEntryLength)
    case Some(entry) => Consume(t, entry)
  }

  function ConsumeAll(t: Topology, items: seq<seq<Byte>>): Outcome
    requires forall i :: 0 <= i < |items| ==> |items[i]| >= 2
    decreases |items|
  {
    if items == [] then Accepted(t)
    else
      var n := |items| - 1;
      match ConsumeAll(t, items[..n])
      case Refused(status) => Refused(status)
      case Accepted(before) => ConsumeBytes(before, items[n])
  }

  // ----- discovery -----

  datatype Source = Source(physicalAddress: nat, length: nat, localApicAddress: nat, flags: nat)

  function Revalidate(m: Source, table: seq<Byte>): Status {
    if m.physicalAddress == 0 then NullTable
    else if m.length < FIXED_SIZE || m.length > MAX_TABLE_SIZE then BadMadtLength
    else if !EarlyMapped(m.physicalAddress, m.length) then TableOutsideEarlyMap
    else if ByteSum(table) != 0 then BadTableChecksum
    else Ok
  }

  function Start(m: Source): Topology {
    Topology(m.localApicAddress, false, m.flags % 2 == 1, [], 0, [], [], 0, 0)
  }

  function Finish(t: Topology): Outcome {
    if t.enabled == 0 then Refused(MissingBootProcessor)
    else if |t.ioApics| == 0 then Refused(MissingIoApic)
    else Accepted(t)
  }

  /** What discovery answers for the table bytes found at the described place. */
  function Discover(m: Source, table: seq<Byte>): Outcome
    requires |table| == m.length
  {
    var status := Revalidate(m, table);
    if status != Ok then Refused(status)
    else
      var c := Cut(table, FIXED_SIZE);
      match ConsumeAll(Start(m), c.items)
      case Refused(s) => Refused(s)
      case Accepted(t) => if c.tail != Ok then Refused(c.tail) else Finish(t)
  }

  // ----- the reference: what a list of structures means -----

  /** Concatenate what each structure yields, in order. */
  function Gather<T>(es: seq<Entry>, f: Entry -> seq<T>): seq<T>
    decreases |es|
  {
    if es == [] then [] else Gather(es[..|es| - 1], f) + f(es[|es| - 1])
  }

  function LocalOf(e: Entry): seq<LocalApic> {
    match e
    case Processor(uid, apicId, flags) => [LocalFrom(uid, apicId, flags)]
    case X2Processor(uid, apicId, flags) => [LocalFrom(uid, apicId, flags)]
    case _ => []
  }

  function EnabledOf(e: Entry): seq<LocalApic> {
    if LocalOf(e) != [] && LocalOf(e)[0].enabled then LocalOf(e) else []
  }

  function IoApicOf(e: Entry): seq<IoApic> {
    match e
    case IoController(id, address, interruptBase) => [IoApic(id, address, interruptBase)]
    case _ => []
  }

  function OverrideOf(e: Entry): seq<Override> {
    match e
    case SourceOverride(bus, source, gsi, flags) => [Override(bus, source, gsi, flags)]
    case _ => []
  }

  function AddressOf(e: Entry): seq<nat> {
    match e
    case AddressOverride(address) => [address]
    case _ => []
  }

  function NmiOf(e: Entry): seq<Entry> {
    if e.NmiSource? || e.LocalApicNmi? then [e] else []
  }

  function OtherOf(e: Entry): seq<Entry> {
    if e.Other? then [e] else []
  }

  /** Every structure of the list, read back in order and nothing else. */
  function Described(m: Source, es: seq<Entry>): Topology {
    var addresses := Gather(es, AddressOf);
    Topology(
      if addresses == [] then m.localApicAddress else addresses[|addresses| - 1], addresses != [], m.flags % 2 == 1,
      Gather(es, LocalOf), |Gather(es, EnabledOf)|, Gather(es, IoApicOf), Gather(es, OverrideOf),
      |Gather(es, NmiOf)|, |Gather(es, OtherOf)|)
  }

  predicate FieldsLegal(e: Entry) {
    match e
    case Processor(_, _, flags) => flags < 4
    case X2Processor(_, _, flags) => flags < 4
    case IoController(_, address, _) => address != 0 && EarlyMapped(address, IO_APIC_WINDOW)
    case SourceOverride(bus, source, _, flags) => bus == 0 && source < ISA_IRQ_COUNT && flags < 16
    case AddressOverride(address) => address != 0 && EarlyMapped(address, LOCAL_APIC_WINDOW)
    case _ => true
  }

  ghost predicate DistinctUids(s: seq<LocalApic>) {
    forall i, j :: 0 <= i < j < |s| ==> s[i].uid != s[j].uid
  }

  ghost predicate DistinctIds(s: seq<IoApic>) {
    forall i, j :: 0 <= i < j < |s| ==> s[i].id != s[j].id
  }

  ghost predicate DistinctSources(s: seq<Override>) {
    forall i, j :: 0 <= i < j < |s| ==> s[i].source != s[j].source
  }

  ghost predicate Legal(es: seq<Entry>) {
    && (forall i :: 0 <= i < |es| ==> FieldsLegal(es[i]))
    && DistinctUids(Gather(es, LocalOf)) && |Gather(es, LocalOf)| <= MAX_LOCAL_APICS
    && DistinctIds(Gather(es, IoApicOf)) && |Gather(es, IoApicOf)| <= MAX_IO_APICS
    && DistinctSources(Gather(es, OverrideOf))
    && |Gather(es, AddressOf)| <= 1
  }

  // ----- exactness -----

  lemma {:induction false} DescribedStart(m: Source)
    ensures Legal([]) && Described(m, []) == Start(m)
  {
  }

  lemma GatherNext<T>(es: seq<Entry>, e: Entry, f: Entry -> seq<T>)
    ensures Gather(es + [e], f) == Gather(es, f) + f(e)
  {
    assert (es + [e])[..|es|] == es;
  }

  lemma UidsNext(s: seq<LocalApic>, x: seq<LocalApic>)
    requires |x| <= 1
    ensures DistinctUids(s + x) <==> DistinctUids(s) && (x != [] ==> !HasUid(s, x[0].uid))
  {
    var all := s + x;
    if x == [] {
      assert all == s;
    } else if DistinctUids(all) {
      assert forall i, j :: 0 <= i < j < |s| ==> all[i] == s[i] && all[j] == s[j];
      forall i | 0 <= i < |s| ensures s[i].uid != x[0].uid { assert all[i].uid != all[|s|].uid; }
    }
  }

  lemma IdsNext(s: seq<IoApic>, x: seq<IoApic>)
    requires |x| <= 1
    ensures DistinctIds(s + x) <==> DistinctIds(s) && (x != [] ==> !HasIoApic(s, x[0].id))
  {
    var all := s + x;
    if x == [] {
      assert all == s;
    } else if DistinctIds(all) {
      assert forall i, j :: 0 <= i < j < |s| ==> all[i] == s[i] && all[j] == s[j];
      forall i | 0 <= i < |s| ensures s[i].id != x[0].id { assert all[i].id != all[|s|].id; }
    }
  }

  lemma SourcesNext(s: seq<Override>, x: seq<Override>)
    requires |x| <= 1
    ensures DistinctSources(s + x) <==> DistinctSources(s) && (x != [] ==> !HasSource(s, x[0].source))
  {
    var all := s + x;
    if x == [] {
      assert all == s;
    } else if DistinctSources(all) {
      assert forall i, j :: 0 <= i < j < |s| ==> all[i] == s[i] && all[j] == s[j];
      forall i | 0 <= i < |s| ensures s[i].source != x[0].source { assert all[i].source != all[|s|].source; }
    }
  }

  /** What a legal list still has room for. */
  predicate Admits(t: Topology, e: Entry) {
    && FieldsLegal(e)
    && (LocalOf(e) != [] ==> !HasUid(t.locals, LocalOf(e)[0].uid) && |t.locals| < MAX_LOCAL_APICS)
    && (IoApicOf(e) != [] ==> !HasIoApic(t.ioApics, IoApicOf(e)[0].id) && |t.ioApics| < MAX_IO_APICS)
    && (OverrideOf(e) != [] ==> !HasSource(t.overrides, OverrideOf(e)[0].source))
    && (AddressOf(e) != [] ==> !t.overridden)
  }

  lemma FieldsNext(es: seq<Entry>, e: Entry)
    ensures (forall i :: 0 <= i < |es + [e]| ==> FieldsLegal((es + [e])[i])) <==>
      (forall i :: 0 <= i < |es| ==> FieldsLegal(es[i])) && FieldsLegal(e)
  {
    var all := es + [e];
    assert all[|es|] == e;
    assert forall i :: 0 <= i < |es| ==> all[i] == es[i];
  }

  /** One more structure keeps a list legal exactly when there is room for it. */
  lemma LegalNext(m: Source, es: seq<Entry>, e: Entry)
    ensures Legal(es + [e]) <==> Legal(es) && Admits(Described(m, es), e)
  {
    hide Gather, FieldsLegal, DistinctUids, DistinctIds, DistinctSources, HasUid, HasIoApic, HasSource;
    FieldsNext(es, e);
    GatherNext(es, e, LocalOf);
    GatherNext(es, e, IoApicOf);
    GatherNext(es, e, OverrideOf);
    GatherNext(es, e, AddressOf);
    UidsNext(Gather(es, LocalOf), LocalOf(e));
    IdsNext(Gather(es, IoApicOf), IoApicOf(e));
    SourcesNext(Gather(es, OverrideOf), OverrideOf(e));
  }

  lemma ConsumeAdmits(m: Source, es: seq<Entry>, e: Entry)
    requires |Gather(es, LocalOf)| <= MAX_LOCAL_APICS && |Gather(es, IoApicOf)| <= MAX_IO_APICS
    ensures Consume(Described(m, es), e).Accepted? <==> Admits(Described(m, es), e)
    ensures Admits(Described(m, es), e) ==> Consume(Described(m, es), e) == Accepted(Described(m, es + [e]))
  {
    hide Gather, HasUid, HasIoApic, HasSource, EarlyMapped;
    GatherNext(es, e, LocalOf);
    GatherNext(es, e, EnabledOf);
    GatherNext(es, e, IoApicOf);
    GatherNext(es, e, OverrideOf);
    GatherNext(es, e, AddressOf);
    GatherNext(es, e, NmiOf);
    GatherNext(es, e, OtherOf);
  }

  lemma {:induction false} ConsumeAllExact(m: Source, items: seq<seq<Byte>>)
    requires forall i :: 0 <= i < |items| ==> |items[i]| >= 2
    ensures ConsumeAll(Start(m), items).Accepted? <==>
      DecodeAll(items).Some? && Legal(DecodeAll(items).value)
    ensures ConsumeAll(Start(m), items).Accepted? ==>
      ConsumeAll(Start(m), items) == Accepted(Described(m, DecodeAll(items).value))
    decreases |items|
  {
    hide Described, Admits, Gather, DistinctUids, DistinctIds, DistinctSources, Consume, Decode, FieldsLegal;
    DescribedStart(m);
    if items != [] {
      var n := |items| - 1;
      ConsumeAllExact(m, items[..n]);
      if DecodeAll(items).Some? {
        var es, e := DecodeAll(items[..n]).value, Decode(items[n]).value;
        LegalNext(m, es, e);
        if Legal(es) { ConsumeAdmits(m, es, e); }
      }
    }
  }
}
