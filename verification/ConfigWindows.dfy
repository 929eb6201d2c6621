/** The memory-mapped configuration windows of the MCFG table: which tables are
    accepted, and that accepted windows never wrap and never overlap. */
module ConfigWindows {
  import opened Architecture
  import opened Seqs
  import opened FirmwareBytes
  import RootTable

  const FIXED_SIZE: nat := 44
  const RECORD_SIZE: nat := 16
  const MAX_WINDOWS: nat := 8
  const BUS_SIZE: nat := 0x10_0000

  datatype Status =
    | BadLength
    | NoWindows
    | TooManyWindows
    | BadBusRange
    | BadBase
    | Overlapping

  datatype Result<T> = Ok(value: T) | Err(status: Status)

  datatype Window = Window(base: nat, segment: nat, startBus: nat, endBus: nat)

  /** One megabyte a bus, the end bus included. */
  function Size(w: Window): int {
    (w.endBus - w.startBus + 1) * BUS_SIZE
  }

  function RecordAt(table: seq<Byte>, index: nat): (w: Window)
    requires FIXED_SIZE + (index + 1) * RECORD_SIZE <= |table|
    ensures w.base < WORD && w.startBus < 256 && w.endBus < 256
  {
    var at := FIXED_SIZE + index * RECORD_SIZE;
    Window(U64(table, at), U16(table, at + 8), table[at + 10], table[at + 11])
  }

  /** The two windows serve a common bus, or occupy a common byte; in 64-bit arithmetic. */
  predicate Conflict(a: Window, b: Window) {
    || (a.segment == b.segment && a.startBus <= b.endBus && b.startBus <= a.endBus)
    || (a.base < (b.base + Size(b)) % WORD && b.base < (a.base + Size(a)) % WORD)
  }

  /** What is wrong with a window on its own. */
  function WindowFault(w: Window): Option<Status> {
    if w.endBus < w.startBus then Some(BadBusRange)
    else if w.base == 0 || w.base % BUS_SIZE != 0 then Some(BadBase)
    else if w.base > WORD - 1 - Size(w) then Some(BadBase)
    else None
  }

  predicate ConflictsWith(ws: seq<Window>, w: Window) {
    exists i :: 0 <= i < |ws| && Conflict(ws[i], w)
  }

  /** The first count records, or the first refusal among them. */
  function DecodeRecords(table: seq<Byte>, count: nat): Result<seq<Window>>
    requires FIXED_SIZE + count * RECORD_SIZE <= |table|
    decreases count
  {
    if count == 0 then Ok([])
    else match DecodeRecords(table, count - 1)
      case Err(status) => Err(status)
      case Ok(ws) =>
        var w := RecordAt(table, count - 1);
        var fault := WindowFault(w);
        if fault.Some? then Err(fault.value)
        else if ConflictsWith(ws, w) then Err(Overlapping)
        else Ok(ws + [w])
  }

  function Decode(table: seq<Byte>): Result<seq<Window>> {
    if |table| < FIXED_SIZE || (|table| - FIXED_SIZE) % RECORD_SIZE != 0 then Err(BadLength)
    else
      var count := (|table| - FIXED_SIZE) / RECORD_SIZE;
      if count == 0 then Err(NoWindows)
      else if count > MAX_WINDOWS then Err(TooManyWindows)
      else DecodeRecords(table, count)
  }

  // ----- what acceptance means -----

  /** The window decodes this physical address. */
  predicate Decodes(w: Window, address: nat) {
    w.base <= address < w.base + Size(w)
  }

  /** The window serves this bus of this segment group. */
  predicate Serves(w: Window, segment: nat, bus: nat) {
    w.segment == segment && w.startBus <= bus <= w.endBus
  }

  /** No address and no bus belongs to both. */
  ghost predicate Apart(a: Window, b: Window) {
    && (forall address: nat :: !(Decodes(a, address) && Decodes(b, address)))
    && (forall segment: nat, bus: nat :: !(Serves(a, segment, bus) && Serves(b, segment, bus)))
  }

  /** Aligned, non-empty, and wholly below 2^64. */
  ghost predicate Sound(w: Window) {
    && w.startBus <= w.endBus && w.base > 0 && w.base % BUS_SIZE == 0
    && w.base + Size(w) < WORD && Size(w) == (w.endBus - w.startBus + 1) * BUS_SIZE
  }

  lemma FaultMeaning(w: Window)
    ensures WindowFault(w) == None <==> Sound(w)
  {
  }

  /** For sound windows the conflict test is exactly overlap, of memory or of buses. */
  lemma ConflictMeaning(a: Window, b: Window)
    requires Sound(a) && Sound(b)
    ensures Conflict(a, b) <==> !Apart(a, b)
  {
    SizePositive(a);
    SizePositive(b);
    hide Size, Sound;
    if a.segment == b.segment && a.startBus <= b.endBus && b.startBus <= a.endBus {
      var bus := if a.startBus < b.startBus then b.startBus else a.startBus;
      assert Serves(a, a.segment, bus) && Serves(b, a.segment, bus);
    } else if a.base < b.base + Size(b) && b.base < a.base + Size(a) {
      var address := if a.base < b.base then b.base else a.base;
      assert Decodes(a, address) && Decodes(b, address);
    }
  }

  lemma SizePositive(w: Window)
    requires Sound(w)
    ensures 0 < Size(w) && w.startBus <= w.endBus && (w.base + Size(w)) % WORD == w.base + Size(w)
  {
  }

  ghost predicate AllSound(ws: seq<Window>) {
    forall i :: 0 <= i < |ws| ==> Sound(ws[i])
  }

  ghost predicate AllApart(ws: seq<Window>) {
    forall i, j :: 0 <= i < j < |ws| ==> Apart(ws[i], ws[j])
  }

  /** Record k of the table, byte by byte, says w. */
  ghost predicate Says(table: seq<Byte>, k: nat, w: Window)
    requires 44 + 16 * (k + 1) <= |table|
  {
    var at := 44 + 16 * k;
    && w.base == U64(table, at)
    && w.segment == table[at + 8] as nat + 0x100 * table[at + 9] as nat
    && w.startBus == table[at + 10] && w.endBus == table[at + 11]
  }

  /** The first count records say exactly these windows. */
  ghost predicate SaysAll(table: seq<Byte>, count: nat, ws: seq<Window>)
    requires 44 + 16 * count <= |table|
  {
    |ws| == count && forall k: nat :: k < count ==> Says(table, k, ws[k])
  }

  lemma RecordSays(table: seq<Byte>, k: nat, w: Window)
    requires 44 + 16 * (k + 1) <= |table|
    ensures Says(table, k, w) <==> w == RecordAt(table, k)
  {
    FieldBytes(table, 44 + 16 * k + 8);
    hide U64;
  }

  function Records(table: seq<Byte>, count: nat): (ws: seq<Window>)
    requires FIXED_SIZE + count * RECORD_SIZE <= |table|
    ensures |ws| == count
    decreases count
  {
    if count == 0 then [] else Records(table, count - 1) + [RecordAt(table, count - 1)]
  }

  lemma {:induction false} RecordsSay(table: seq<Byte>, count: nat)
    requires FIXED_SIZE + count * RECORD_SIZE <= |table|
    ensures SaysAll(table, count, Records(table, count))
    decreases count
  {
    hide RecordAt, Says;
    if count > 0 {
      RecordsSay(table, count - 1);
      RecordSays(table, count - 1, RecordAt(table, count - 1));
      var before := Records(table, count - 1);
      assert forall k: nat :: k < count - 1 ==> Records(table, count)[k] == before[k];
    }
  }

  lemma SaysOne(table: seq<Byte>, count: nat, ws: seq<Window>, vs: seq<Window>)
    requires 44 + 16 * count <= |table| && SaysAll(table, count, ws) && SaysAll(table, count, vs)
    ensures ws == vs
  {
    hide Says;
    forall k: nat | k < count ensures ws[k] == vs[k] {
      RecordSays(table, k, ws[k]);
      RecordSays(table, k, vs[k]);
    }
  }

  /** A table is accepted exactly when it is a header and one to eight whole records, and the
      windows its bytes say are each sound and no two overlap; they are then all reported, in order. */
  lemma DecodeExact(table: seq<Byte>, ws: seq<Window>)
    ensures Decode(table) == Ok(ws) <==>
      && 1 <= |ws| <= 8 && |table| == 44 + 16 * |ws|
      && SaysAll(table, |ws|, ws) && AllSound(ws) && AllApart(ws)
  {
    hide DecodeRecords, AllSound, AllApart, SaysAll;
    if |table| >= 44 && (|table| - 44) % 16 == 0 {
      var count := (|table| - 44) / 16;
      assert |table| == 44 + 16 * count;
      RecordsExact(table, count);
      RecordsSay(table, count);
      if |ws| == count && SaysAll(table, count, ws) { SaysOne(table, count, ws, Records(table, count)); }
    }
  }

  /** The records are accepted exactly when each window is sound and no two overlap,
      and they are then all reported, in order. */
  lemma {:induction false} RecordsExact(table: seq<Byte>, count: nat)
    requires FIXED_SIZE + count * RECORD_SIZE <= |table|
    ensures var ws := Records(table, count);
      && (DecodeRecords(table, count).Ok? <==> AllSound(ws) && AllApart(ws))
      && (DecodeRecords(table, count).Ok? ==> DecodeRecords(table, count).value == ws)
    decreases count
  {
    hide Apart, Sound, RecordAt, WindowFault;
    if count > 0 {
      RecordsExact(table, count - 1);
      var before, w := Records(table, count - 1), RecordAt(table, count - 1);
      FaultMeaning(w);
      AddWindow(before, w);
    }
  }

  /** Why a table is refused: its length, its number of records, or the first record that says a
      window which is not sound or overlaps an earlier one. */
  lemma DecodeRefusal(table: seq<Byte>, status: Status)
    requires Decode(table) == Err(status)
    ensures
      if |table| < 44 || (|table| - 44) % 16 != 0 then status == BadLength
      else if |table| == 44 then status == NoWindows
      else if |table| > 44 + 16 * 8 then status == TooManyWindows
      else exists k: nat, ws: seq<Window>, w: Window :: RefusedAt(table, k, ws, w, status)
  {
    hide DecodeRecords, RefusedAt;
    if |table| >= 44 && (|table| - 44) % 16 == 0 && 44 < |table| <= 44 + 16 * 8 {
      var k, ws, w := FirstRefused(table, (|table| - 44) / 16, status);
    }
  }

  /** Records before k are sound and apart, and record k says a window w refused with status. */
  ghost predicate RefusedAt(table: seq<Byte>, k: nat, ws: seq<Window>, w: Window, status: Status) {
    && 44 + 16 * (k + 1) <= |table| && SaysAll(table, k, ws) && AllSound(ws) && AllApart(ws) && Says(table, k, w)
    && if w.endBus < w.startBus then status == BadBusRange
       else if !Sound(w) then status == BadBase
       else status == Overlapping && exists i :: 0 <= i < k && !Apart(ws[i], w)
  }

  lemma {:induction false} FirstRefused(table: seq<Byte>, count: nat, status: Status)
    returns (k: nat, ws: seq<Window>, w: Window)
    requires FIXED_SIZE + count * RECORD_SIZE <= |table| && DecodeRecords(table, count) == Err(status)
    ensures RefusedAt(table, k, ws, w, status)
    decreases count
  {
    hide Apart, Sound, RecordAt, WindowFault, AllSound, AllApart, SaysAll;
    if DecodeRecords(table, count - 1).Err? {
      k, ws, w := FirstRefused(table, count - 1, status);
    } else {
      k, ws, w := count - 1, Records(table, count - 1), RecordAt(table, count - 1);
      RecordsExact(table, k);
      RecordsSay(table, k);
      RecordSays(table, k, w);
      BlamedWindow(ws, w, status);
    }
  }

  lemma BlamedWindow(ws: seq<Window>, w: Window, status: Status)
    requires AllSound(ws) && AllApart(ws)
    requires if WindowFault(w).Some? then status == WindowFault(w).value
      else status == Overlapping && ConflictsWith(ws, w)
    ensures if w.endBus < w.startBus then status == BadBusRange
      else if !Sound(w) then status == BadBase
      else status == Overlapping && exists i :: 0 <= i < |ws| && !Apart(ws[i], w)
  {
    FaultMeaning(w);
    if WindowFault(w).None? {
      var i :| 0 <= i < |ws| && Conflict(ws[i], w);
      ConflictMeaning(ws[i], w);
    }
  }

  // ----- writing the table -----

  /** The fields fit the bytes they are written in. */
  predicate Representable(w: Window) {
    w.base < 0x1_0000_0000_0000_0000 && w.segment < 0x1_0000 && w.startBus < 256 && w.endBus < 256
  }

  function Written(w: Window): (s: seq<Byte>)
    requires Representable(w)
    ensures |s| == 16
  {
    Le64(w.base) + Le16(w.segment) + [w.startBus, w.endBus, 0, 0, 0, 0]
  }

  function WrittenAll(ws: seq<Window>): (s: seq<Byte>)
    requires forall i :: 0 <= i < |ws| ==> Representable(ws[i])
    ensures |s| == 16 * |ws|
    decreases |ws|
  {
    if ws == [] then [] else WrittenAll(ws[..|ws| - 1]) + Written(ws[|ws| - 1])
  }

  lemma {:induction false} WrittenAt(ws: seq<Window>, k: nat)
    requires k < |ws| && forall i :: 0 <= i < |ws| ==> Representable(ws[i])
    ensures WrittenAll(ws)[16 * k..16 * (k + 1)] == Written(ws[k])
    decreases |ws|
  {
    hide Written, Representable;
    var n := |ws| - 1;
    var head := WrittenAll(ws[..n]);
    if k == n {
      assert WrittenAll(ws)[16 * n..16 * (n + 1)] == Written(ws[n]);
    } else {
      WrittenAt(ws[..n], k);
      assert WrittenAll(ws)[16 * k..16 * (k + 1)] == head[16 * k..16 * (k + 1)];
    }
  }

  lemma SliceOfSlice(s: seq<Byte>, at: nat, n: nat, i: nat, j: nat)
    requires i <= j <= n && at + n <= |s|
    ensures s[at..at + n][i..j] == s[at + i..at + j]
  {
    var whole, a, b := s[at..at + n], s[at..at + n][i..j], s[at + i..at + j];
    forall k | 0 <= k < j - i ensures a[k] == b[k] { assert a[k] == whole[i + k] == s[at + (i + k)]; }
  }

  lemma RecordReads(table: seq<Byte>, k: nat, w: Window)
    requires 44 + 16 * (k + 1) <= |table| && Representable(w)
    requires table[44 + 16 * k..44 + 16 * (k + 1)] == Written(w)
    ensures Says(table, k, w)
  {
    hide Le64, Le16, U64, U16;
    var at := 44 + 16 * k;
    var s := table[at..at + 16];
    assert s == Written(w);
    assert Written(w)[..8] == Le64(w.base) && Written(w)[8..10] == Le16(w.segment);
    SliceOfSlice(table, at, 16, 0, 8);
    assert s[0..8] == s[..8];
    Reads64(table, at, w.base);
    SliceOfSlice(table, at, 16, 8, 10);
    Reads16(table, at + 8, w.segment);
    FieldBytes(table, at + 8);
    assert table[at + 10] == s[10] && table[at + 11] == s[11];
  }

  /** Reading undoes writing: whatever one to eight windows are written behind any header, they
      are decoded exactly when they are sound and apart, as exactly those windows in that order. */
  lemma DecodeUndoesWrite(header: seq<Byte>, ws: seq<Window>)
    requires |header| == 44 && 1 <= |ws| <= 8 && forall i :: 0 <= i < |ws| ==> Representable(ws[i])
    ensures Decode(header + WrittenAll(ws)).Ok? <==> AllSound(ws) && AllApart(ws)
    ensures AllSound(ws) && AllApart(ws) ==> Decode(header + WrittenAll(ws)) == Ok(ws)
  {
    hide Decode, AllSound, AllApart, SaysAll, WrittenAll, Representable;
    WrittenSays(header, ws);
    var table := header + WrittenAll(ws);
    DecodeExact(table, ws);
    if Decode(table).Ok? {
      var vs := Decode(table).value;
      DecodeExact(table, vs);
      SaysOne(table, |ws|, ws, vs);
    }
  }

  lemma WrittenSays(header: seq<Byte>, ws: seq<Window>)
    requires |header| == 44 && forall i :: 0 <= i < |ws| ==> Representable(ws[i])
    ensures |header + WrittenAll(ws)| == 44 + 16 * |ws|
    ensures SaysAll(header + WrittenAll(ws), |ws|, ws)
  {
    hide WrittenAll, Representable, Says, Written;
    var table := header + WrittenAll(ws);
    forall k: nat | k < |ws| ensures Says(table, k, ws[k]) {
      WrittenAt(ws, k);
      assert table[44 + 16 * k..44 + 16 * (k + 1)] == WrittenAll(ws)[16 * k..16 * (k + 1)];
      RecordReads(table, k, ws[k]);
    }
  }

  lemma AddWindow(ws: seq<Window>, w: Window)
    ensures AllSound(ws + [w]) && AllApart(ws + [w]) <==>
      AllSound(ws) && AllApart(ws) && Sound(w) && !ConflictsWith(ws, w)
  {
    hide Apart, Sound, Conflict;
    var all := ws + [w];
    assert all[|ws|] == w;
    assert forall i :: 0 <= i < |ws| ==> all[i] == ws[i];
    if AllSound(ws) && Sound(w) {
      forall i | 0 <= i < |ws| ensures Conflict(ws[i], w) <==> !Apart(ws[i], w) { ConflictMeaning(ws[i], w); }
    }
    if AllSound(all) {
      assert forall i :: 0 <= i < |ws| ==> Sound(all[i]);
      if AllApart(all) { assert forall i :: 0 <= i < |ws| ==> Apart(all[i], all[|ws|]); }
    }
  }

  // ----- the decoder -----

  /** Records are stored as they pass; the count is published only at the end. */
  method DecodeWindows(table: seq<Byte>, windows: array<Window>) returns (result: Result<nat>)
    requires windows.Length == MAX_WINDOWS
    modifies windows
    ensures result.Ok? == Decode(table).Ok?
    ensures result.Err? ==> Decode(table) == Err(result.status)
    ensures result.Ok? ==> result.value <= MAX_WINDOWS && Decode(table) == Ok(windows[..result.value])
  {
    hide RecordAt, WindowFault, Conflict, DecodeRecords;
    if |table| < FIXED_SIZE || (|table| - FIXED_SIZE) % RECORD_SIZE != 0 {
      return Err(BadLength);
    }
    var count := (|table| - FIXED_SIZE) / RECORD_SIZE;
    if count == 0 {
      return Err(NoWindows);
    }
    if count > MAX_WINDOWS {
      return Err(TooManyWindows);
    }
    var index := 0;
    assert windows[..0] == [];
    NoRecords(table);
    while index < count
      invariant index <= count
      invariant DecodeRecords(table, index) == Ok(windows[..index])
    {
      var w := RecordAt(table, index);
      var fault := WindowFault(w);
      NextRecord(table, index);
      if fault.Some? {
        RefusalStands(table, index + 1, count);
        return Err(fault.value);
      }
      var earlier := 0;
      while earlier < index
        invariant earlier <= index
        invariant forall i :: 0 <= i < earlier ==> !Conflict(windows[i], w)
      {
        if Conflict(windows[earlier], w) {
          assert Conflict(windows[..index][earlier], w);
          RefusalStands(table, index + 1, count);
          return Err(Overlapping);
        }
        earlier := earlier + 1;
      }
      ghost var ws := windows[..index];
      assert !ConflictsWith(ws, w);
      windows[index] := w;
      assert windows[..index + 1] == ws + [w];
      index := index + 1;
    }
    return Ok(count);
  }

  lemma NoRecords(table: seq<Byte>)
    requires FIXED_SIZE <= |table|
    ensures DecodeRecords(table, 0) == Ok([])
  {
  }

  lemma NextRecord(table: seq<Byte>, index: nat)
    requires FIXED_SIZE + (index + 1) * RECORD_SIZE <= |table| && DecodeRecords(table, index).Ok?
    ensures var ws, w := DecodeRecords(table, index).value, RecordAt(table, index);
      DecodeRecords(table, index + 1) ==
        if WindowFault(w).Some? then Err(WindowFault(w).value)
        else if ConflictsWith(ws, w) then Err(Overlapping)
        else Ok(ws + [w])
  {
  }

  lemma {:induction false} RefusalStands(table: seq<Byte>, k: nat, count: nat)
    requires k <= count && FIXED_SIZE + count * RECORD_SIZE <= |table| && DecodeRecords(table, k).Err?
    ensures DecodeRecords(table, count) == DecodeRecords(table, k)
    decreases count
  {
    if k < count { RefusalStands(table, k, count - 1); }
  }

  // ----- discovery -----

  const MCFG: seq<Byte> := [0x4D, 0x43, 0x46, 0x47]
  const NO_WINDOW := Window(0, 0, 0, 0)

  datatype Discovery = Found(count: nat) | LookupRefused(lookup: RootTable.Status) | TableRefused(table: Status)

  /** All or nothing: windows are reported only from the one MCFG behind a sound root,
      they are then sound and pairwise apart, and any refusal leaves every slot empty. */
  method DiscoverWindows(m: RootTable.Memory, root: nat, kind: RootTable.Kind, windows: array<Window>)
    returns (result: Discovery)
    requires windows.Length == MAX_WINDOWS
    modifies windows
    ensures var found := RootTable.Find(m, root, kind, MCFG);
      match result
      case LookupRefused(status) => found == RootTable.Err(status)
      case TableRefused(status) => found.Ok? && Decode(TableBytes(m, found.value.0)) == Err(status)
      case Found(count) =>
        found.Ok? && count <= MAX_WINDOWS && Decode(TableBytes(m, found.value.0)) == Ok(windows[..count])
    ensures result.Found? ==> 0 < result.count <= MAX_WINDOWS
    ensures result.Found? ==> AllSound(windows[..result.count]) && AllApart(windows[..result.count])
    ensures !result.Found? ==> forall i :: 0 <= i < MAX_WINDOWS ==> windows[i] == NO_WINDOW
  {
    hide Decode, AllSound, AllApart, RootTable.Find;
    ClearWindows(windows);
    var found := RootTable.FindUniqueTable(m, root, kind, MCFG);
    if found.Err? {
      return LookupRefused(found.status);
    }
    var table := TableBytes(m, found.value.0);
    var decoded := DecodeWindows(table, windows);
    if decoded.Err? {
      ClearWindows(windows);
      return TableRefused(decoded.status);
    }
    AcceptedWindows(table);
    return Found(decoded.value);
  }

  function TableBytes(m: RootTable.Memory, address: nat): seq<Byte> {
    RootTable.Bytes(m, address, RootTable.DeclaredLength(m, address))
  }

  /** Accepted windows never wrap and are pairwise disjoint in memory and in buses. */
  lemma AcceptedWindows(table: seq<Byte>)
    requires Decode(table).Ok?
    ensures var ws := Decode(table).value;
      0 < |ws| <= MAX_WINDOWS && AllSound(ws) && AllApart(ws)
  {
    hide AllSound, AllApart;
    DecodeExact(table, Decode(table).value);
  }

  method ClearWindows(windows: array<Window>)
    modifies windows
    ensures forall i :: 0 <= i < windows.Length ==> windows[i] == NO_WINDOW
  {
    var k := 0;
    while k < windows.Length
      invariant k <= windows.Length
      invariant forall i :: 0 <= i < k ==> windows[i] == NO_WINDOW
    {
      windows[k] := NO_WINDOW;
      k := k + 1;
    }
  }
}
