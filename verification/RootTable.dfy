/** Table lookup through the ACPI root: every referenced table is checked before any
    is returned, and a signature must be carried by exactly one root entry. */
module RootTable {
  import opened Seqs
  import opened FirmwareBytes

  const HEADER_SIZE: nat := 36
  const MAX_TABLE_SIZE: nat := 1024 * 1024
  const MAX_ENTRIES: nat := 256

  datatype Kind = NoRoot | Rsdt | Xsdt

  datatype Status =
    | NullRoot
    | RootOutsideEarlyMap
    | BadRootSignature
    | BadRootLength
    | BadRootEntrySize
    | TooManyRootEntries
    | BadRootChecksum
    | NullTable
    | TableOutsideEarlyMap
    | BadTableLength
    | BadTableChecksum
    | Missing
    | Duplicate

  datatype Result<T> = Ok(value: T) | Err(status: Status)

  /** Physical memory, one byte an address. */
  type Memory = nat -> Byte

  function Bytes(m: Memory, address: nat, length: nat): (s: seq<Byte>)
    ensures |s| == length
  {
    seq(length, i requires 0 <= i => m(address + i))
  }

  function Signature(m: Memory, address: nat): seq<Byte> {
    Bytes(m, address, 4)
  }

  function DeclaredLength(m: Memory, address: nat): nat {
    U32(Bytes(m, address, HEADER_SIZE), 4)
  }

  function EntrySize(kind: Kind): nat
    requires kind != NoRoot
  {
    if kind == Xsdt then 8 else 4
  }

  function RootSignature(kind: Kind): seq<Byte> {
    if kind == Xsdt then [0x58, 0x53, 0x44, 0x54] else [0x52, 0x53, 0x44, 0x54]
  }

  /** The root's entry count, once the root itself checks out. */
  function ValidateRoot(m: Memory, root: nat, kind: Kind): Result<nat> {
    if root == 0 then Err(NullRoot)
    else if !EarlyMapped(root, HEADER_SIZE) then Err(RootOutsideEarlyMap)
    else if kind == NoRoot || Signature(m, root) != RootSignature(kind) then Err(BadRootSignature)
    else
      var length := DeclaredLength(m, root);
      if length < HEADER_SIZE || length > MAX_TABLE_SIZE then Err(BadRootLength)
      else if (length - HEADER_SIZE) % EntrySize(kind) != 0 then Err(BadRootEntrySize)
      else
        var count := (length - HEADER_SIZE) / EntrySize(kind);
        if count > MAX_ENTRIES then Err(TooManyRootEntries)
        else if !EarlyMapped(root, length) then Err(RootOutsideEarlyMap)
        else if ByteSum(Bytes(m, root, length)) != 0 then Err(BadRootChecksum)
        else Ok(count)
  }

  function EntryAt(m: Memory, root: nat, kind: Kind, index: nat): nat
    requires kind != NoRoot
  {
    var at := root + HEADER_SIZE + index * EntrySize(kind);
    if kind == Xsdt then U64(Bytes(m, at, 8), 0) else U32(Bytes(m, at, 4), 0)
  }

  function Entries(m: Memory, root: nat, kind: Kind, count: nat): (s: seq<nat>)
    requires kind != NoRoot
    ensures |s| == count
  {
    seq(count, i requires 0 <= i => EntryAt(m, root, kind, i))
  }

  /** Why a referenced table may not be read, if so. */
  function TableFault(m: Memory, address: nat): Option<Status> {
    if address == 0 then Some(NullTable)
    else if !EarlyMapped(address, HEADER_SIZE) then Some(TableOutsideEarlyMap)
    else
      var length := DeclaredLength(m, address);
      if length < HEADER_SIZE || length > MAX_TABLE_SIZE then Some(BadTableLength)
      else if !EarlyMapped(address, length) then Some(TableOutsideEarlyMap)
      else if ByteSum(Bytes(m, address, length)) != 0 then Some(BadTableChecksum)
      else None
  }

  /** One walk from entry k on, with what has been found so far. */
  function Scan(m: Memory, entries: seq<nat>, signature: seq<Byte>, k: nat, found: Option<nat>): Result<nat>
    requires k <= |entries|
    decreases |entries| - k
  {
    if k == |entries| then
      if found.Some? then Ok(found.value) else Err(Missing)
    else match TableFault(m, entries[k])
      case Some(status) => Err(status)
      case None =>
        if Signature(m, entries[k]) != signature then Scan(m, entries, signature, k + 1, found)
        else if found.Some? then Err(Duplicate)
        else Scan(m, entries, signature, k + 1, Some(entries[k]))
  }

  /** The address of the one table with the signature. */
  function Find(m: Memory, root: nat, kind: Kind, signature: seq<Byte>): Result<(nat, nat)> {
    match ValidateRoot(m, root, kind)
    case Err(status) => Err(status)
    case Ok(count) =>
      match Scan(m, Entries(m, root, kind, count), signature, 0, None)
      case Err(status) => Err(status)
      case Ok(address) => Ok((address, count))
  }

  // ----- the same, said of the bytes of memory -----

  /** The little-endian number in n bytes of memory. */
  function Le(m: Memory, at: nat, n: nat): nat
    decreases n
  {
    if n == 0 then 0 else m(at) as nat + 256 * Le(m, at + 1, n - 1)
  }

  function Sum(m: Memory, at: nat, n: nat): nat {
    if n == 0 then 0 else Sum(m, at, n - 1) + m(at + n - 1) as nat
  }

  function LengthAt(m: Memory, at: nat): nat {
    Le(m, at + 4, 4)
  }

  /** A table that may be read: its header and all it declares lie below 4 GiB, its length is
      sane and its bytes add up to zero. */
  ghost predicate SoundTable(m: Memory, at: nat) {
    && at != 0 && 36 <= LengthAt(m, at) <= 0x10_0000
    && at + LengthAt(m, at) <= 0x1_0000_0000 && Sum(m, at, LengthAt(m, at)) % 256 == 0
  }

  function Width(kind: Kind): nat {
    if kind == Xsdt then 8 else 4
  }

  /** "XSDT" or "RSDT". */
  ghost predicate Tagged(m: Memory, at: nat, kind: Kind) {
    m(at) == (if kind == Xsdt then 0x58 else 0x52) && m(at + 1) == 0x53 && m(at + 2) == 0x44 && m(at + 3) == 0x54
  }

  /** A root with so many entries. */
  ghost predicate SoundRoot(m: Memory, root: nat, kind: Kind, count: nat) {
    && kind != NoRoot && root != 0 && Tagged(m, root, kind) && count <= 256
    && LengthAt(m, root) == 36 + count * Width(kind)
    && root + LengthAt(m, root) <= 0x1_0000_0000 && Sum(m, root, LengthAt(m, root)) % 256 == 0
  }

  function Referenced(m: Memory, root: nat, kind: Kind, i: nat): nat {
    Le(m, root + 36 + i * Width(kind), Width(kind))
  }

  ghost predicate Carries(m: Memory, at: nat, signature: seq<Byte>) {
    && |signature| == 4 && m(at) == signature[0] && m(at + 1) == signature[1]
    && m(at + 2) == signature[2] && m(at + 3) == signature[3]
  }

  lemma LeFour(m: Memory, at: nat, s: seq<Byte>, i: nat)
    requires i + 4 <= |s| && s[i] == m(at) && s[i + 1] == m(at + 1) && s[i + 2] == m(at + 2) && s[i + 3] == m(at + 3)
    ensures U32(s, i) == Le(m, at, 4)
  {
    FieldBytes(s, i);
    assert Le(m, at + 3, 1) == m(at + 3) as nat;
    assert Le(m, at + 2, 2) == m(at + 2) as nat + 256 * m(at + 3) as nat;
  }

  lemma LeEight(m: Memory, at: nat)
    ensures Le(m, at, 8) == Le(m, at, 4) + 0x1_0000_0000 * Le(m, at + 4, 4)
  {
    LeNext(m, at, 7);
    LeNext(m, at + 1, 6);
    LeNext(m, at + 2, 5);
    LeNext(m, at + 3, 4);
    LeNext(m, at, 3);
    LeNext(m, at + 1, 2);
    LeNext(m, at + 2, 1);
    LeNext(m, at + 3, 0);
    hide Le;
  }

  lemma LeNext(m: Memory, at: nat, n: nat)
    ensures Le(m, at, n + 1) == m(at) as nat + 256 * Le(m, at + 1, n) && Le(m, at, 0) == 0
  {
  }

  lemma {:induction false} SumIsTotal(m: Memory, at: nat, n: nat)
    ensures Total(Bytes(m, at, n)) == Sum(m, at, n)
    decreases n
  {
    if n > 0 {
      SumIsTotal(m, at, n - 1);
      assert Bytes(m, at, n)[..n - 1] == Bytes(m, at, n - 1);
    }
  }

  lemma DeclaredIsLength(m: Memory, at: nat)
    ensures DeclaredLength(m, at) == LengthAt(m, at)
  {
    LeFour(m, at + 4, Bytes(m, at, HEADER_SIZE), 4);
  }

  lemma EntryIsReferenced(m: Memory, root: nat, kind: Kind, i: nat)
    requires kind != NoRoot
    ensures EntryAt(m, root, kind, i) == Referenced(m, root, kind, i)
  {
    hide U32, U64, Bytes, Le;
    var at := root + 36 + i * Width(kind);
    WideEntry(m, at);
    NarrowEntry(m, at);
  }

  lemma WideEntry(m: Memory, at: nat)
    ensures U64(Bytes(m, at, 8), 0) == Le(m, at, 8)
  {
    var s := Bytes(m, at, 8);
    LeFour(m, at, s, 0);
    LeFour(m, at + 4, s, 4);
    LeEight(m, at);
    FieldBytes(s, 0);
    hide U32, U64, Le;
  }

  lemma NarrowEntry(m: Memory, at: nat)
    ensures U32(Bytes(m, at, 4), 0) == Le(m, at, 4)
  {
    LeFour(m, at, Bytes(m, at, 4), 0);
  }

  lemma SignatureCarries(m: Memory, at: nat, signature: seq<Byte>)
    ensures Signature(m, at) == signature <==> Carries(m, at, signature)
  {
    var s := Signature(m, at);
    assert s[0] == m(at) && s[1] == m(at + 1) && s[2] == m(at + 2) && s[3] == m(at + 3);
  }

  /** Why a referenced table is refused, each answer exactly. */
  lemma TableFaultExactly(m: Memory, at: nat)
    ensures var fault := TableFault(m, at); var length := LengthAt(m, at);
      && (fault == None <==> SoundTable(m, at))
      && (fault == Some(NullTable) <==> at == 0)
      && (fault == Some(TableOutsideEarlyMap) <==>
            at != 0 && (at + 36 > 0x1_0000_0000 || (36 <= length <= 0x10_0000 && at + length > 0x1_0000_0000)))
      && (fault == Some(BadTableLength) <==>
            at != 0 && at + 36 <= 0x1_0000_0000 && !(36 <= length <= 0x10_0000))
      && (fault == Some(BadTableChecksum) <==>
            && at != 0 && 36 <= length <= 0x10_0000 && at + length <= 0x1_0000_0000
            && Sum(m, at, length) % 256 != 0)
  {
    DeclaredIsLength(m, at);
    SumIsTotal(m, at, LengthAt(m, at));
    hide Sum, Total, LengthAt, DeclaredLength;
  }

  lemma TagIsSignature(m: Memory, at: nat, kind: Kind)
    requires kind != NoRoot
    ensures Signature(m, at) == RootSignature(kind) <==> Tagged(m, at, kind)
  {
    SignatureCarries(m, at, RootSignature(kind));
  }

  /** Which roots are accepted, with how many entries. */
  lemma RootExactly(m: Memory, root: nat, kind: Kind, count: nat)
    ensures ValidateRoot(m, root, kind) == Ok(count) <==> SoundRoot(m, root, kind, count)
  {
    DeclaredIsLength(m, root);
    SumIsTotal(m, root, LengthAt(m, root));
    hide Sum, Total, LengthAt, DeclaredLength, Signature, Tagged, RootSignature;
    if kind != NoRoot { TagIsSignature(m, root, kind); }
  }

  /** Why a root is refused, in the order it is looked at. */
  lemma RootFaultExactly(m: Memory, root: nat, kind: Kind)
    ensures var r := ValidateRoot(m, root, kind); var length := LengthAt(m, root);
      if root == 0 then r == Err(NullRoot)
      else if root + 36 > 0x1_0000_0000 then r == Err(RootOutsideEarlyMap)
      else if kind == NoRoot || !Tagged(m, root, kind) then r == Err(BadRootSignature)
      else if length < 36 || length > 0x10_0000 then r == Err(BadRootLength)
      else if (length - 36) % Width(kind) != 0 then r == Err(BadRootEntrySize)
      else if (length - 36) / Width(kind) > 256 then r == Err(TooManyRootEntries)
      else if root + length > 0x1_0000_0000 then r == Err(RootOutsideEarlyMap)
      else if Sum(m, root, length) % 256 != 0 then r == Err(BadRootChecksum)
      else r.Ok?
  {
    DeclaredIsLength(m, root);
    SumIsTotal(m, root, LengthAt(m, root));
    hide Sum, Total, LengthAt, DeclaredLength, Signature, Tagged, RootSignature;
    if kind != NoRoot { TagIsSignature(m, root, kind); }
  }

  // ----- what a successful lookup means -----

  /** How many of the entries from k on carry the signature. */
  function Carriers(m: Memory, entries: seq<nat>, signature: seq<Byte>, k: nat): nat
    requires k <= |entries|
    decreases |entries| - k
  {
    if k == |entries| then 0
    else (if Signature(m, entries[k]) == signature then 1 else 0) + Carriers(m, entries, signature, k + 1)
  }

  lemma {:induction false} ScanExact(m: Memory, entries: seq<nat>, signature: seq<Byte>, k: nat, found: Option<nat>)
    requires k <= |entries|
    ensures Scan(m, entries, signature, k, found).Ok? <==>
      && (forall i :: k <= i < |entries| ==> TableFault(m, entries[i]) == None)
      && Carriers(m, entries, signature, k) + (if found.Some? then 1 else 0) == 1
    ensures var r := Scan(m, entries, signature, k, found);
      r.Ok? && found.Some? ==> r.value == found.value
    ensures var r := Scan(m, entries, signature, k, found);
      r.Ok? && found.None? ==>
        exists i :: k <= i < |entries| && entries[i] == r.value && Signature(m, entries[i]) == signature
    decreases |entries| - k
  {
    hide TableFault, Signature;
    if k < |entries| {
      if TableFault(m, entries[k]) == None {
        if Signature(m, entries[k]) != signature {
          ScanExact(m, entries, signature, k + 1, found);
        } else if found.None? {
          ScanExact(m, entries, signature, k + 1, Some(entries[k]));
        }
      }
    }
  }

  lemma {:induction false} NoCarriers(m: Memory, entries: seq<nat>, signature: seq<Byte>, k: nat)
    requires k <= |entries|
    ensures Carriers(m, entries, signature, k) == 0 <==>
      forall i :: k <= i < |entries| ==> Signature(m, entries[i]) != signature
    decreases |entries| - k
  {
    hide Signature;
    if k < |entries| { NoCarriers(m, entries, signature, k + 1); }
  }

  lemma {:induction false} OneCarrier(m: Memory, entries: seq<nat>, signature: seq<Byte>, k: nat) returns (i: nat)
    requires k <= |entries| && Carriers(m, entries, signature, k) == 1
    ensures k <= i < |entries| && Signature(m, entries[i]) == signature
    ensures forall j :: k <= j < |entries| && j != i ==> Signature(m, entries[j]) != signature
    decreases |entries| - k
  {
    hide Signature;
    if Signature(m, entries[k]) == signature {
      NoCarriers(m, entries, signature, k + 1);
      i := k;
    } else {
      i := OneCarrier(m, entries, signature, k + 1);
    }
  }

  lemma {:induction false} CountsOne(m: Memory, entries: seq<nat>, signature: seq<Byte>, k: nat, i: nat)
    requires k <= i < |entries| && Signature(m, entries[i]) == signature
    requires forall j :: k <= j < |entries| && j != i ==> Signature(m, entries[j]) != signature
    ensures Carriers(m, entries, signature, k) == 1
    decreases |entries| - k
  {
    hide Signature;
    if k < i { CountsOne(m, entries, signature, k + 1, i); } else { NoCarriers(m, entries, signature, k + 1); }
  }

  /** Behind a sound root of count entries every table is sound, and entry i alone carries
      the signature. */
  ghost predicate Unique(m: Memory, root: nat, kind: Kind, signature: seq<Byte>, count: nat, i: nat) {
    && SoundRoot(m, root, kind, count) && i < count
    && (forall j: nat :: j < count ==> SoundTable(m, Referenced(m, root, kind, j)))
    && Carries(m, Referenced(m, root, kind, i), signature)
    && (forall j: nat :: j < count && j != i ==> !Carries(m, Referenced(m, root, kind, j), signature))
  }

  /** Lookup succeeds exactly when the root is sound, every referenced table is sound,
      and one entry alone carries the signature; and then it returns that entry. */
  lemma FindExact(m: Memory, root: nat, kind: Kind, signature: seq<Byte>)
    ensures Find(m, root, kind, signature).Ok? <==>
      exists count: nat, i: nat :: Unique(m, root, kind, signature, count, i)
    ensures forall count: nat, i: nat :: Unique(m, root, kind, signature, count, i) ==>
      Find(m, root, kind, signature) == Ok((Referenced(m, root, kind, i), count))
  {
    hide TableFault, Signature, Scan, Carriers, SoundTable, Carries, SoundRoot, ValidateRoot, Referenced, EntryAt;
    forall count: nat, i: nat | Unique(m, root, kind, signature, count, i)
      ensures Find(m, root, kind, signature) == Ok((Referenced(m, root, kind, i), count))
    {
      UniqueFound(m, root, kind, signature, count, i);
    }
    if Find(m, root, kind, signature).Ok? {
      var count, i := FoundUnique(m, root, kind, signature);
    }
  }

  lemma RootKind(m: Memory, root: nat, kind: Kind)
    ensures ValidateRoot(m, root, kind).Ok? ==> kind != NoRoot
  {
  }

  lemma EntryFacts(m: Memory, root: nat, kind: Kind, count: nat, signature: seq<Byte>, j: nat)
    requires kind != NoRoot && j < count
    ensures var at := Entries(m, root, kind, count)[j];
      && at == Referenced(m, root, kind, j)
      && (TableFault(m, at) == None <==> SoundTable(m, at))
      && (Signature(m, at) == signature <==> Carries(m, at, signature))
  {
    hide TableFault, Signature, SoundTable, Carries, Referenced, EntryAt;
    EntryIsReferenced(m, root, kind, j);
    TableFaultExactly(m, Referenced(m, root, kind, j));
    SignatureCarries(m, Referenced(m, root, kind, j), signature);
  }

  lemma UniqueFound(m: Memory, root: nat, kind: Kind, signature: seq<Byte>, count: nat, i: nat)
    requires Unique(m, root, kind, signature, count, i)
    ensures Find(m, root, kind, signature) == Ok((Referenced(m, root, kind, i), count))
  {
    RootExactly(m, root, kind, count);
    RootKind(m, root, kind);
    hide TableFault, Signature, Scan, Carriers, SoundTable, Carries, SoundRoot, ValidateRoot, Referenced, EntryAt;
    var entries := Entries(m, root, kind, count);
    forall j: nat | j < count
      ensures TableFault(m, entries[j]) == None && (Signature(m, entries[j]) == signature <==> j == i)
    {
      EntryFacts(m, root, kind, count, signature, j);
    }
    EntryFacts(m, root, kind, count, signature, i);
    CountsOne(m, entries, signature, 0, i);
    ScanExact(m, entries, signature, 0, None);
  }

  lemma FoundUnique(m: Memory, root: nat, kind: Kind, signature: seq<Byte>) returns (count: nat, i: nat)
    requires Find(m, root, kind, signature).Ok?
    ensures Unique(m, root, kind, signature, count, i)
  {
    hide TableFault, Signature, Scan, Carriers, SoundTable, Carries, SoundRoot, ValidateRoot, Referenced, EntryAt;
    count := ValidateRoot(m, root, kind).value;
    RootExactly(m, root, kind, count);
    RootKind(m, root, kind);
    var entries := Entries(m, root, kind, count);
    ScanExact(m, entries, signature, 0, None);
    i := OneCarrier(m, entries, signature, 0);
    forall j: nat | j < count
      ensures SoundTable(m, Referenced(m, root, kind, j))
      ensures Carries(m, Referenced(m, root, kind, j), signature) <==> j == i
    {
      EntryFacts(m, root, kind, count, signature, j);
    }
  }

  /** Why a walk over sound entries with at most one carrier so far is refused at entry k, or at
      the end. */
  ghost predicate RefusedAt(m: Memory, entries: seq<nat>, signature: seq<Byte>, k: nat, status: Status) {
    && k <= |entries|
    && (forall j :: 0 <= j < k ==> SoundTable(m, entries[j]))
    && (forall i, j :: 0 <= i < j < k ==> !(Carries(m, entries[i], signature) && Carries(m, entries[j], signature)))
    && if k == |entries| then status == Missing && forall j :: 0 <= j < k ==> !Carries(m, entries[j], signature)
       else if SoundTable(m, entries[k]) then
         && status == Duplicate && Carries(m, entries[k], signature)
         && exists j :: 0 <= j < k && Carries(m, entries[j], signature)
       else TableFault(m, entries[k]) == Some(status)
  }

  /** The first refusal along the walk is the answer. */
  lemma {:induction false} ScanRefusal(m: Memory, entries: seq<nat>, signature: seq<Byte>, k: nat, found: Option<nat>)
    returns (at: nat)
    requires k <= |entries| && Scan(m, entries, signature, k, found).Err?
    requires forall j :: 0 <= j < k ==> SoundTable(m, entries[j])
    requires forall i, j :: 0 <= i < j < k ==> !(Carries(m, entries[i], signature) && Carries(m, entries[j], signature))
    requires found.Some? <==> exists j :: 0 <= j < k && Carries(m, entries[j], signature)
    ensures RefusedAt(m, entries, signature, at, Scan(m, entries, signature, k, found).status)
    decreases |entries| - k
  {
    hide TableFault, Signature, SoundTable, Carries;
    at := k;
    if k < |entries| {
      TableFaultExactly(m, entries[k]);
      SignatureCarries(m, entries[k], signature);
      if TableFault(m, entries[k]) == None {
        if Signature(m, entries[k]) != signature {
          at := ScanRefusal(m, entries, signature, k + 1, found);
        } else if found.None? {
          assert Carries(m, entries[k], signature);
          at := ScanRefusal(m, entries, signature, k + 1, Some(entries[k]));
        }
      }
    }
  }

  /** A refused lookup has a bad root, or is refused at an entry of a sound one or after the last. */
  lemma FindRefusal(m: Memory, root: nat, kind: Kind, signature: seq<Byte>)
    requires Find(m, root, kind, signature).Err?
    ensures var status := Find(m, root, kind, signature).status;
      || ValidateRoot(m, root, kind) == Err(status)
      || (kind != NoRoot && exists count: nat, k: nat ::
            SoundRoot(m, root, kind, count) && RefusedAt(m, Entries(m, root, kind, count), signature, k, status))
  {
    hide TableFault, Signature, Scan, SoundTable, Carries, SoundRoot, ValidateRoot, RefusedAt, EntryAt;
    if ValidateRoot(m, root, kind).Ok? {
      var count := ValidateRoot(m, root, kind).value;
      RootExactly(m, root, kind, count);
      RootKind(m, root, kind);
      var k := ScanRefusal(m, Entries(m, root, kind, count), signature, 0, None);
    }
  }

  // ----- the walk -----

  method FindUniqueTable(m: Memory, root: nat, kind: Kind, signature: seq<Byte>) returns (result: Result<(nat, nat)>)
    ensures result == Find(m, root, kind, signature)
  {
    hide TableFault, Signature;
    var valid := ValidateRoot(m, root, kind);
    if valid.Err? {
      return Err(valid.status);
    }
    var count := valid.value;
    ghost var entries := Entries(m, root, kind, count);
    var found: Option<nat> := None;
    var k := 0;
    while k < count
      invariant k <= count
      invariant Scan(m, entries, signature, 0, None) == Scan(m, entries, signature, k, found)
    {
      var address := EntryAt(m, root, kind, k);
      assert address == entries[k];
      var fault := TableFault(m, address);
      if fault.Some? {
        return Err(fault.value);
      }
      if Signature(m, address) == signature {
        if found.Some? {
          return Err(Duplicate);
        }
        found := Some(address);
      }
      k := k + 1;
    }
    if found.None? {
      return Err(Missing);
    }
    return Ok((found.value, count));
  }
}
