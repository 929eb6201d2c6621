/** What the bytes of the interrupt-controller table say, structure by structure, and why a table
    is refused. */
module MadtMeaning {
  import opened Seqs
  import opened FirmwareBytes
  import opened Madt
  import opened MadtRoundTrip

  // ----- one structure -----

  function Num32(s: seq<Byte>, at: nat): nat
    requires at + 4 <= |s|
  {
    s[at] as nat + 0x100 * s[at + 1] as nat + 0x1_0000 * s[at + 2] as nat + 0x100_0000 * s[at + 3] as nat
  }

  /** The bytes p are structure e: type, length and fields where ACPI 6.6 section 5.2.12 puts them. */
  ghost predicate Says(p: seq<Byte>, e: Entry) {
    && |p| >= 2
    && match e
       case Processor(uid, apicId, flags) =>
         p[0] == 0 && |p| == 8 && uid == p[2] && apicId == p[3] && flags == Num32(p, 4)
       case IoController(id, address, interruptBase) =>
         p[0] == 1 && |p| == 12 && id == p[2] && address == Num32(p, 4) && interruptBase == Num32(p, 8)
       case SourceOverride(bus, source, gsi, flags) =>
         && p[0] == 2 && |p| == 10 && bus == p[2] && source == p[3] && gsi == Num32(p, 4)
         && flags == p[8] as nat + 0x100 * p[9] as nat
       case NmiSource(payload) => p[0] == 3 && |p| == 8 && payload == p[2..]
       case LocalApicNmi(payload) => p[0] == 4 && |p| == 6 && payload == p[2..]
       case AddressOverride(address) =>
         p[0] == 5 && |p| == 12 && address == Num32(p, 4) + 0x1_0000_0000 * Num32(p, 8)
       case X2Processor(uid, apicId, flags) =>
         p[0] == 9 && |p| == 16 && uid == Num32(p, 12) && apicId == Num32(p, 4) && flags == Num32(p, 8)
       case Other(kind, payload) => kind == p[0] && kind !in {0, 1, 2, 3, 4, 5, 9} && payload == p[2..]
  }

  lemma Num32Is(s: seq<Byte>, at: nat)
    requires at + 4 <= |s|
    ensures U32(s, at) == Num32(s, at)
  {
    FieldBytes(s, at);
  }

  /** Decoding reads exactly what the bytes say. */
  lemma DecodeSays(p: seq<Byte>, e: Entry)
    requires |p| >= 2
    ensures Decode(p) == Some(e) <==> Says(p, e)
  {
    FieldBytes(p, 4);
    FieldBytes(p, 8);
    if |p| >= 8 { Num32Is(p, 4); }
    if |p| >= 12 { Num32Is(p, 8); }
    if |p| >= 16 { Num32Is(p, 12); }
    hide U16, U32, U64, Num32;
  }

  // ----- the whole table -----

  function Concat(ps: seq<seq<Byte>>): seq<Byte> {
    if ps == [] then [] else ps[0] + Concat(ps[1..])
  }

  /** Every piece carries its own length in its second byte. */
  ghost predicate SelfDescribing(ps: seq<seq<Byte>>) {
    forall i :: 0 <= i < |ps| ==> |ps[i]| >= 2 && ps[i][1] == |ps[i]|
  }

  /** The table from the given offset is these structures, end to end. */
  ghost predicate Lists(table: seq<Byte>, offset: nat, ps: seq<seq<Byte>>) {
    offset <= |table| && SelfDescribing(ps) && Concat(ps) == table[offset..]
  }

  lemma {:induction false} CutLists(table: seq<Byte>, offset: nat)
    requires offset <= |table| && Cut(table, offset).tail == Ok
    ensures Lists(table, offset, Cut(table, offset).items)
    decreases |table| - offset
  {
    if offset < |table| {
      var length := table[offset + 1];
      CutLists(table, offset + length);
      var c, rest := Cut(table, offset), Cut(table, offset + length);
      assert c.items[1..] == rest.items;
      assert table[offset..] == table[offset..offset + length] + table[offset + length..];
      forall i | 0 <= i < |c.items| ensures |c.items[i]| >= 2 && c.items[i][1] == |c.items[i]| {
        if i > 0 { assert c.items[i] == rest.items[i - 1]; }
      }
    }
  }

  lemma {:induction false} ListsCut(table: seq<Byte>, offset: nat, ps: seq<seq<Byte>>)
    requires Lists(table, offset, ps)
    ensures Cut(table, offset) == Chunks(ps, Ok)
    decreases |ps|
  {
    if ps == [] {
      assert |table[offset..]| == 0;
    } else {
      var p, rest := ps[0], Concat(ps[1..]);
      assert table[offset..] == p + rest;
      assert table[offset..offset + |p|] == p by { assert (p + rest)[..|p|] == p; }
      assert table[offset + |p|..] == rest by { assert (p + rest)[|p|..] == rest; }
      ListsCut(table, offset + |p|, ps[1..]);
      CutOne(table, offset, p);
      assert [p] + ps[1..] == ps;
    }
  }

  lemma {:induction false} DecodeAllSays(items: seq<seq<Byte>>, es: seq<Entry>)
    requires forall i :: 0 <= i < |items| ==> |items[i]| >= 2
    ensures DecodeAll(items) == Some(es) <==>
      |es| == |items| && forall i :: 0 <= i < |es| ==> Says(items[i], es[i])
    decreases |items|
  {
    hide Decode, Says;
    if items != [] {
      var n := |items| - 1;
      if |es| == n + 1 {
        DecodeAllSays(items[..n], es[..n]);
        DecodeSays(items[n], es[n]);
        assert es[..n] + [es[n]] == es;
        if forall i :: 0 <= i < |es| ==> Says(items[i], es[i]) {
          forall i | 0 <= i < n ensures Says(items[..n][i], es[..n][i]) { assert Says(items[i], es[i]); }
        }
        if DecodeAll(items[..n]) == Some(es[..n]) && Decode(items[n]) == Some(es[n]) {
          forall i | 0 <= i < |es| ensures Says(items[i], es[i]) {
            if i < n { assert Says(items[..n][i], es[..n][i]); }
          }
        }
      }
      if DecodeAll(items) == Some(es) {
        var before := DecodeAll(items[..n]).value;
        DecodeAllSays(items[..n], before);
      }
    }
  }

  /** The structures of a table are these exactly when its bytes past the header are pieces that
      carry their own length and say them, in order, with nothing left over. */
  lemma EntriesExactly(table: seq<Byte>, es: seq<Entry>)
    requires |table| >= 44
    ensures Entries(table) == Some(es) <==>
      exists ps :: Lists(table, 44, ps) && |ps| == |es| && forall i :: 0 <= i < |es| ==> Says(ps[i], es[i])
  {
    hide Cut, Says, DecodeAll, Lists;
    var c := Cut(table, 44);
    if Entries(table) == Some(es) {
      CutLists(table, 44);
      DecodeAllSays(c.items, es);
    }
    if ps :| Lists(table, 44, ps) && |ps| == |es| && forall i :: 0 <= i < |es| ==> Says(ps[i], es[i]) {
      ListsCut(table, 44, ps);
      DecodeAllSays(ps, es);
    }
  }

  // ----- refusals -----

  ghost predicate ListsProcessor(es: seq<Entry>, uid: nat) {
    exists i :: 0 <= i < |es| && (es[i].Processor? || es[i].X2Processor?) && es[i].uid == uid
  }

  ghost predicate ListsController(es: seq<Entry>, id: nat) {
    exists i :: 0 <= i < |es| && es[i].IoController? && es[i].id == id
  }

  ghost predicate ListsSource(es: seq<Entry>, source: nat) {
    exists i :: 0 <= i < |es| && es[i].SourceOverride? && es[i].source == source
  }

  ghost predicate ListsAddress(es: seq<Entry>) {
    exists i :: 0 <= i < |es| && es[i].AddressOverride?
  }

  ghost predicate BlamesProcessor(es: seq<Entry>, uid: nat, flags: nat, status: Status) {
    if flags >= 4 then status == BadProcessorFlags
    else if ListsProcessor(es, uid) then status == DuplicateProcessorUid
    else status == TooManyLocalApics && |Gather(es, LocalOf)| == 64
  }

  /** What structure e gets wrong after the structures es, in the order it is looked at. */
  ghost predicate Blames(es: seq<Entry>, e: Entry, status: Status) {
    match e
    case Processor(uid, _, flags) => BlamesProcessor(es, uid, flags, status)
    case X2Processor(uid, _, flags) => BlamesProcessor(es, uid, flags, status)
    case IoController(id, address, _) =>
      if address == 0 || address + 0x20 > 0x1_0000_0000 then status == ApicOutsideEarlyMap
      else if ListsController(es, id) then status == DuplicateIoApicId
      else status == TooManyIoApics && |Gather(es, IoApicOf)| == 8
    case SourceOverride(bus, source, _, flags) =>
      if bus != 0 then status == BadOverrideBus
      else if source >= 16 then status == BadOverrideSource
      else if flags >= 16 then status == BadOverrideFlags
      else status == DuplicateOverrideSource && ListsSource(es, source)
    case AddressOverride(address) =>
      if ListsAddress(es) then status == DuplicateAddressOverride
      else status == ApicOutsideEarlyMap && (address == 0 || address + 0x1000 > 0x1_0000_0000)
    case _ => false
  }

  lemma {:induction false} Gathered<T(!new)>(es: seq<Entry>, f: Entry -> seq<T>, x: T)
    ensures x in Gather(es, f) <==> exists i :: 0 <= i < |es| && x in f(es[i])
    decreases |es|
  {
    if es != [] {
      var n := |es| - 1;
      Gathered(es[..n], f, x);
      if i :| 0 <= i < |es| && x in f(es[i]) {
        if i < n { assert x in f(es[..n][i]); }
      }
      if x in Gather(es[..n], f) {
        var i :| 0 <= i < n && x in f(es[..n][i]);
        assert x in f(es[i]);
      }
    }
  }

  lemma UidsListed(es: seq<Entry>, uid: nat)
    ensures HasUid(Gather(es, LocalOf), uid) <==> ListsProcessor(es, uid)
  {
    var g := Gather(es, LocalOf);
    hide Gather;
    if HasUid(g, uid) {
      var k :| 0 <= k < |g| && g[k].uid == uid;
      Gathered(es, LocalOf, g[k]);
      var i :| 0 <= i < |es| && g[k] in LocalOf(es[i]);
    }
    if ListsProcessor(es, uid) {
      var i :| 0 <= i < |es| && (es[i].Processor? || es[i].X2Processor?) && es[i].uid == uid;
      var l := LocalOf(es[i])[0];
      assert l in LocalOf(es[i]);
      Gathered(es, LocalOf, l);
      var k :| 0 <= k < |g| && g[k] == l;
    }
  }

  lemma IdsListed(es: seq<Entry>, id: nat)
    ensures HasIoApic(Gather(es, IoApicOf), id) <==> ListsController(es, id)
  {
    var g := Gather(es, IoApicOf);
    hide Gather;
    if HasIoApic(g, id) {
      var k :| 0 <= k < |g| && g[k].id == id;
      Gathered(es, IoApicOf, g[k]);
      var i :| 0 <= i < |es| && g[k] in IoApicOf(es[i]);
    }
    if ListsController(es, id) {
      var i :| 0 <= i < |es| && es[i].IoController? && es[i].id == id;
      var l := IoApicOf(es[i])[0];
      assert l in IoApicOf(es[i]);
      Gathered(es, IoApicOf, l);
      var k :| 0 <= k < |g| && g[k] == l;
    }
  }

  lemma SourcesListed(es: seq<Entry>, source: nat)
    ensures HasSource(Gather(es, OverrideOf), source) <==> ListsSource(es, source)
  {
    var g := Gather(es, OverrideOf);
    hide Gather;
    if HasSource(g, source) {
      var k :| 0 <= k < |g| && g[k].source == source;
      Gathered(es, OverrideOf, g[k]);
      var i :| 0 <= i < |es| && g[k] in OverrideOf(es[i]);
    }
    if ListsSource(es, source) {
      var i :| 0 <= i < |es| && es[i].SourceOverride? && es[i].source == source;
      var l := OverrideOf(es[i])[0];
      assert l in OverrideOf(es[i]);
      Gathered(es, OverrideOf, l);
      var k :| 0 <= k < |g| && g[k] == l;
    }
  }

  lemma AddressesListed(es: seq<Entry>)
    ensures Gather(es, AddressOf) != [] <==> ListsAddress(es)
  {
    var g := Gather(es, AddressOf);
    hide Gather;
    if g != [] {
      Gathered(es, AddressOf, g[0]);
      var i :| 0 <= i < |es| && g[0] in AddressOf(es[i]);
    }
    if ListsAddress(es) {
      var i :| 0 <= i < |es| && es[i].AddressOverride?;
      assert es[i].address in AddressOf(es[i]);
      Gathered(es, AddressOf, es[i].address);
    }
  }

  lemma ConsumeBlames(m: Source, es: seq<Entry>, e: Entry, status: Status)
    requires Consume(Described(m, es), e) == Refused(status)
    ensures Blames(es, e, status)
  {
    hide Gather, HasUid, HasIoApic, HasSource, ListsProcessor, ListsController, ListsSource, ListsAddress;
    match e
    case Processor(uid, _, _) => UidsListed(es, uid);
    case X2Processor(uid, _, _) => UidsListed(es, uid);
    case IoController(id, _, _) => IdsListed(es, id);
    case SourceOverride(_, source, _, _) => SourcesListed(es, source);
    case AddressOverride(_) => AddressesListed(es);
    case _ =>
  }

  /** The structures before item n are legal, and item n is the first that is not. */
  ghost predicate StructureRefused(items: seq<seq<Byte>>, n: nat, es: seq<Entry>, status: Status) {
    && n < |items| && |es| == n && (forall i :: 0 <= i < n ==> Says(items[i], es[i])) && Legal(es)
    && ((status == BadEntryLength && forall e :: !Says(items[n], e))
        || exists e :: Says(items[n], e) && Blames(es, e, status))
  }

  lemma {:induction false} ConsumeAllRefusal(m: Source, items: seq<seq<Byte>>, status: Status)
    returns (n: nat, es: seq<Entry>)
    requires forall i :: 0 <= i < |items| ==> |items[i]| >= 2
    requires ConsumeAll(Start(m), items) == Refused(status)
    ensures StructureRefused(items, n, es, status)
    decreases |items|
  {
    hide Says, Legal, Blames, Decode, Consume, Start, Described;
    var k := |items| - 1;
    ConsumeAllExact(m, items[..k]);
    if ConsumeAll(Start(m), items[..k]).Refused? {
      n, es := ConsumeAllRefusal(m, items[..k], status);
      assert items[..k][n] == items[n];
    } else {
      n, es := k, DecodeAll(items[..k]).value;
      DecodeAllSays(items[..k], es);
      forall i | 0 <= i < n ensures Says(items[i], es[i]) { assert Says(items[..k][i], es[i]); }
      forall e ensures Decode(items[n]) == Some(e) <==> Says(items[n], e) { DecodeSays(items[n], e); }
      match Decode(items[n])
      case None =>
      case Some(e) => ConsumeBlames(m, es, e, status);
    }
  }

  /** How the cutting ends at an offset: with the table, or with a byte too few or a length that
      does not fit. */
  ghost predicate EndsWith(table: seq<Byte>, at: nat, tail: Status) {
    && at <= |table|
    && if at == |table| then tail == Ok
       else if at + 1 == |table| then tail == TruncatedEntry
       else if table[at + 1] < 2 then tail == BadEntryLength
       else table[at + 1] > |table| - at && tail == TruncatedEntry
  }

  /** The pieces end before the table does. */
  ghost predicate TailRefused(table: seq<Byte>, ps: seq<seq<Byte>>, status: Status) {
    && |table| >= 44 && SelfDescribing(ps) && Concat(ps) <= table[44..]
    && 44 + |Concat(ps)| < |table| && EndsWith(table, 44 + |Concat(ps)|, status)
  }

  /** The cut, whether it comes out even or not. */
  lemma {:induction false} CutStops(table: seq<Byte>, offset: nat)
    requires offset <= |table|
    ensures var c := Cut(table, offset); var end := offset + |Concat(c.items)|;
      && SelfDescribing(c.items) && EndsWith(table, end, c.tail) && end <= |table|
      && Concat(c.items) == table[offset..end]
    decreases |table| - offset
  {
    hide EndsWith, Cut, SelfDescribing, Concat;
    if |table| - offset >= 2 && 2 <= table[offset + 1] <= |table| - offset {
      var length := table[offset + 1];
      CutStops(table, offset + length);
      CutPiece(table, offset);
      var rest := Cut(table, offset + length).items;
      ConcatFirst(table[offset..offset + length], rest);
      JoinSlices(table, offset, offset + length, offset + length + |Concat(rest)|);
    } else {
      CutHere(table, offset);
      NoPieces();
    }
  }

  lemma CutHere(table: seq<Byte>, offset: nat)
    requires offset <= |table| && !(|table| - offset >= 2 && 2 <= table[offset + 1] <= |table| - offset)
    ensures var c := Cut(table, offset); c.items == [] && EndsWith(table, offset, c.tail)
  {
  }

  lemma NoPieces()
    ensures SelfDescribing([]) && Concat([]) == []
  {
  }

  lemma JoinSlices(s: seq<Byte>, a: nat, b: nat, c: nat)
    requires a <= b <= c <= |s|
    ensures s[a..b] + s[b..c] == s[a..c]
  {
  }

  lemma CutPiece(table: seq<Byte>, offset: nat)
    requires offset + 2 <= |table| && 2 <= table[offset + 1] <= |table| - offset
    ensures var p := table[offset..offset + table[offset + 1]]; var rest := Cut(table, offset + table[offset + 1]);
      Cut(table, offset) == Chunks([p] + rest.items, rest.tail) && |p| >= 2 && p[1] == |p|
  {
  }

  lemma ConcatFirst(p: seq<Byte>, ps: seq<seq<Byte>>)
    requires |p| >= 2 && p[1] == |p| && SelfDescribing(ps)
    ensures SelfDescribing([p] + ps) && Concat([p] + ps) == p + Concat(ps)
  {
    assert ([p] + ps)[1..] == ps;
  }

  /** Why a table is refused: it may not be read; one of its structures is wrong, and which and
      how; its structures do not come out even; or nothing in it can boot. */
  lemma DiscoverRefusal(m: Source, table: seq<Byte>, status: Status)
    requires |table| == m.length && Discover(m, table) == Refused(status)
    ensures
      || (!Readable(m, table) && status == Revalidate(m, table))
      || (exists n: nat, ps, es ::
            SelfDescribing(ps) && Concat(ps) <= table[44..] && StructureRefused(ps, n, es, status))
      || (exists ps :: TailRefused(table, ps, status))
      || (Entries(table).Some? && var es := Entries(table).value;
          if Gather(es, EnabledOf) == [] then status == MissingBootProcessor
          else status == MissingIoApic && Gather(es, IoApicOf) == [])
  {
    RevalidateExactly(m, table);
    hide Readable, Revalidate, Cut, ConsumeAll, DecodeAll, Gather, StructureRefused, Legal, Concat, SelfDescribing;
    if Revalidate(m, table) == Ok {
      ReadableLength(m, table);
      var c := Cut(table, 44);
      CutStops(table, 44);
      assert Concat(c.items) <= table[44..];
      ConsumeAllExact(m, c.items);
      match ConsumeAll(Start(m), c.items)
      case Refused(s) =>
        var n, es := ConsumeAllRefusal(m, c.items, s);
        assert StructureRefused(c.items, n, es, status);
      case Accepted(t) =>
        if c.tail != Ok { assert TailRefused(table, c.items, status); }
    }
  }

  lemma ReadableLength(m: Source, table: seq<Byte>)
    requires Readable(m, table)
    ensures m.length >= 44
  {
  }
}
