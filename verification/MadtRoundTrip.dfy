/** Which tables discovery accepts, and that it undoes the table builder. */
module MadtRoundTrip {
  import opened Seqs
  import opened FirmwareBytes
  import opened Madt

  /** The structures of a table that splits cleanly. */
  function Entries(table: seq<Byte>): Option<seq<Entry>> {
    var c := Cut(table, FIXED_SIZE);
    if c.tail == Ok then DecodeAll(c.items) else None
  }

  predicate Bootable(es: seq<Entry>) {
    Gather(es, EnabledOf) != [] && Gather(es, IoApicOf) != []
  }

  /** A table that may be read: there, of a sane length, below 4 GiB, its bytes adding up to zero. */
  ghost predicate Readable(m: Source, table: seq<Byte>) {
    && m.physicalAddress != 0 && 44 <= m.length <= 0x10_0000
    && m.physicalAddress + m.length <= 0x1_0000_0000 && Total(table) % 256 == 0
  }

  /** Each answer of the first checks, exactly. */
  lemma RevalidateExactly(m: Source, table: seq<Byte>)
    ensures var status := Revalidate(m, table);
      && (status == Ok <==> Readable(m, table))
      && (status == NullTable <==> m.physicalAddress == 0)
      && (status == BadMadtLength <==> m.physicalAddress != 0 && !(44 <= m.length <= 0x10_0000))
      && (status == TableOutsideEarlyMap <==>
            && m.physicalAddress != 0 && 44 <= m.length <= 0x10_0000
            && m.physicalAddress + m.length > 0x1_0000_0000)
      && (status == BadTableChecksum <==>
            && m.physicalAddress != 0 && 44 <= m.length <= 0x10_0000
            && m.physicalAddress + m.length <= 0x1_0000_0000 && Total(table) % 256 != 0)
  {
    hide Total;
  }

  /** For every table, firmware-made or not: acceptance means readable bytes that are a legal,
      bootable list of structures, and the answer describes exactly that list. */
  lemma DiscoverExact(m: Source, table: seq<Byte>)
    requires |table| == m.length
    ensures Discover(m, table).Accepted? <==>
      && Readable(m, table)
      && Entries(table).Some? && Legal(Entries(table).value) && Bootable(Entries(table).value)
    ensures Discover(m, table).Accepted? ==>
      Discover(m, table).topology == Described(m, Entries(table).value)
  {
    hide Legal, Cut, ConsumeAll, Gather, DecodeAll, Revalidate, Readable;
    RevalidateExactly(m, table);
    ConsumeAllExact(m, Cut(table, FIXED_SIZE).items);
  }

  /** A table whose sum was zero and that had one byte changed is never accepted. */
  lemma CorruptedIsRefused(m: Source, table: seq<Byte>, i: nat, b: Byte)
    requires |table| == m.length && Total(table) % 256 == 0 && i < |table| && b != table[i]
    ensures !Discover(m, table[i := b]).Accepted?
    ensures Readable(m, table) ==> Discover(m, table[i := b]) == Refused(BadTableChecksum)
  {
    hide Entries, Legal, Bootable, Cut, ConsumeAll;
    ChangedByteShows(table, i, b);
    hide Total;
    DiscoverExact(m, table[i := b]);
    RevalidateExactly(m, table[i := b]);
  }

  /** The sixteen-slot override array can never be overrun: sources are distinct and below sixteen. */
  lemma OverridesFit(overrides: seq<Override>)
    requires DistinctSources(overrides)
    requires forall i :: 0 <= i < |overrides| ==> overrides[i].source < ISA_IRQ_COUNT
    ensures |overrides| <= ISA_IRQ_COUNT
    ensures forall source: nat :: source < ISA_IRQ_COUNT && !HasSource(overrides, source) ==>
      |overrides| < ISA_IRQ_COUNT
  {
    var sources := seq(|overrides|, i requires 0 <= i < |overrides| => overrides[i].source);
    DistinctBound(sources, ISA_IRQ_COUNT);
    forall source: nat | source < ISA_IRQ_COUNT && !HasSource(overrides, source)
      ensures |overrides| < ISA_IRQ_COUNT
    {
      var more := sources + [source];
      assert forall i :: 0 <= i < |more| ==> more[i] < ISA_IRQ_COUNT;
      assert Distinct(more);
      DistinctBound(more, ISA_IRQ_COUNT);
    }
  }

  // ----- the builder's bytes -----

  /** The fields fit their wire widths. */
  predicate Representable(e: Entry) {
    match e
    case Processor(uid, apicId, flags) => uid < 256 && apicId < 256 && flags < 0x1_0000_0000
    case X2Processor(uid, apicId, flags) =>
      uid < 0x1_0000_0000 && apicId < 0x1_0000_0000 && flags < 0x1_0000_0000
    case IoController(id, address, interruptBase) =>
      id < 256 && address < 0x1_0000_0000 && interruptBase < 0x1_0000_0000
    case SourceOverride(bus, source, gsi, flags) =>
      bus < 256 && source < 256 && gsi < 0x1_0000_0000 && flags < 0x1_0000
    case AddressOverride(address) => address < 0x1_0000_0000_0000_0000
    case NmiSource(payload) => |payload| == 6
    case LocalApicNmi(payload) => |payload| == 4
    case Other(kind, payload) => kind !in {0, 1, 2, 3, 4, 5, 9} && |payload| <= 253
  }

  function Encode(e: Entry): (s: seq<Byte>)
    requires Representable(e)
    ensures 2 <= |s| < 256 && s[1] == |s|
  {
    match e
    case Processor(uid, apicId, flags) => [0, 8, uid, apicId] + Le32(flags)
    case X2Processor(uid, apicId, flags) => [9, 16, 0, 0] + Le32(apicId) + Le32(flags) + Le32(uid)
    case IoController(id, address, interruptBase) => [1, 12, id, 0] + Le32(address) + Le32(interruptBase)
    case SourceOverride(bus, source, gsi, flags) => [2, 10, bus, source] + Le32(gsi) + Le16(flags)
    case AddressOverride(address) => [5, 12, 0, 0] + Le64(address)
    case NmiSource(payload) => [3, 8] + payload
    case LocalApicNmi(payload) => [4, 6] + payload
    case Other(kind, payload) => [kind, 2 + |payload|] + payload
  }

  lemma Field32(before: seq<Byte>, v: nat, after: seq<Byte>)
    requires v < 0x1_0000_0000
    ensures U32(before + Le32(v) + after, |before|) == v
  {
    var s := before + Le32(v) + after;
    assert s[|before|..|before| + 4] == Le32(v);
    Reads32(s, |before|, v);
  }

  lemma DecodeX2(uid: nat, apicId: nat, flags: nat)
    requires Representable(X2Processor(uid, apicId, flags))
    ensures Decode(Encode(X2Processor(uid, apicId, flags))) == Some(X2Processor(uid, apicId, flags))
  {
    hide U32, Le32;
    var s, h := Encode(X2Processor(uid, apicId, flags)), [9, 16, 0, 0];
    Field32(h, apicId, Le32(flags) + Le32(uid));
    assert s == h + Le32(apicId) + (Le32(flags) + Le32(uid));
    Field32(h + Le32(apicId), flags, Le32(uid));
    Field32(h + Le32(apicId) + Le32(flags), uid, []);
    assert s == h + Le32(apicId) + Le32(flags) + Le32(uid) + [];
  }

  lemma DecodeIo(id: nat, address: nat, interruptBase: nat)
    requires Representable(IoController(id, address, interruptBase))
    ensures Decode(Encode(IoController(id, address, interruptBase))) == Some(IoController(id, address, interruptBase))
  {
    hide U32, Le32;
    var s, h := Encode(IoController(id, address, interruptBase)), [1, 12, id, 0];
    Field32(h, address, Le32(interruptBase));
    Field32(h + Le32(address), interruptBase, []);
    assert s == h + Le32(address) + Le32(interruptBase) + [];
  }

  lemma DecodeSource(bus: nat, source: nat, gsi: nat, flags: nat)
    requires Representable(SourceOverride(bus, source, gsi, flags))
    ensures Decode(Encode(SourceOverride(bus, source, gsi, flags))) == Some(SourceOverride(bus, source, gsi, flags))
  {
    hide U16, U32, Le16, Le32;
    var s, h := Encode(SourceOverride(bus, source, gsi, flags)), [2, 10, bus, source];
    Field32(h, gsi, Le16(flags));
    assert s[|h + Le32(gsi)|..] == Le16(flags);
    Reads16(s, 8, flags);
  }

  lemma DecodeEncode(e: Entry)
    requires Representable(e)
    ensures Decode(Encode(e)) == Some(e)
  {
    hide U16, U32, U64, Le16, Le32, Le64;
    match e
    case Processor(uid, apicId, flags) =>
      Field32([0, 8, uid, apicId], flags, []);
      assert Encode(e) == [0, 8, uid, apicId] + Le32(flags) + [];
    case X2Processor(uid, apicId, flags) => DecodeX2(uid, apicId, flags);
    case IoController(id, address, interruptBase) => DecodeIo(id, address, interruptBase);
    case SourceOverride(bus, source, gsi, flags) => DecodeSource(bus, source, gsi, flags);
    case AddressOverride(address) =>
      assert Encode(e)[4..] == Le64(address);
      Reads64(Encode(e), 4, address);
    case NmiSource(payload) =>
      assert Encode(e)[2..] == payload;
    case LocalApicNmi(payload) =>
      assert Encode(e)[2..] == payload;
    case Other(kind, payload) =>
      assert Encode(e)[2..] == payload;
  }

  function EncodeAll(es: seq<Entry>): seq<Byte>
    requires forall i :: 0 <= i < |es| ==> Representable(es[i])
  {
    if es == [] then [] else Encode(es[0]) + EncodeAll(es[1..])
  }

  function Pieces(es: seq<Entry>): (items: seq<seq<Byte>>)
    requires forall i :: 0 <= i < |es| ==> Representable(es[i])
    ensures |items| == |es| && forall i :: 0 <= i < |es| ==> items[i] == Encode(es[i])
  {
    seq(|es|, i requires 0 <= i < |es| => Encode(es[i]))
  }

  lemma CutOne(table: seq<Byte>, offset: nat, piece: seq<Byte>)
    requires 2 <= |piece| && piece[1] == |piece|
    requires offset + |piece| <= |table| && table[offset..offset + |piece|] == piece
    ensures var rest := Cut(table, offset + |piece|);
      Cut(table, offset) == Chunks([piece] + rest.items, rest.tail)
  {
    assert table[offset + 1] == piece[1];
  }

  lemma {:induction false} CutEncoded(header: seq<Byte>, es: seq<Entry>)
    requires forall i :: 0 <= i < |es| ==> Representable(es[i])
    ensures Cut(header + EncodeAll(es), |header|) == Chunks(Pieces(es), Ok)
    decreases |es|
  {
    hide Encode, Representable, Cut, Pieces;
    var table := header + EncodeAll(es);
    if es == [] {
      assert table == header;
      CutEnd(table);
      assert Pieces(es) == [];
    } else {
      var first, rest := Encode(es[0]), EncodeAll(es[1..]);
      assert table == header + first + rest;
      CutEncoded(header + first, es[1..]);
      CutOne(table, |header|, first);
      PiecesNext(es);
    }
  }

  lemma CutEnd(table: seq<Byte>)
    ensures Cut(table, |table|) == Chunks([], Ok)
  {
  }

  lemma PiecesNext(es: seq<Entry>)
    requires es != [] && forall i :: 0 <= i < |es| ==> Representable(es[i])
    ensures Pieces(es) == [Encode(es[0])] + Pieces(es[1..])
  {
    hide Encode, Representable;
  }

  lemma {:induction false} DecodePieces(es: seq<Entry>)
    requires forall i :: 0 <= i < |es| ==> Representable(es[i])
    ensures DecodeAll(Pieces(es)) == Some(es)
    decreases |es|
  {
    hide Encode, Decode, Representable;
    if es != [] {
      var n := |es| - 1;
      assert Pieces(es)[..n] == Pieces(es[..n]);
      DecodePieces(es[..n]);
      DecodeEncode(es[n]);
      assert es[..n] + [es[n]] == es;
    }
  }

  /** Splitting what was built gives back the structures, whatever the header holds. */
  lemma BuiltEntries(header: seq<Byte>, es: seq<Entry>)
    requires |header| == FIXED_SIZE && forall i :: 0 <= i < |es| ==> Representable(es[i])
    ensures Entries(header + EncodeAll(es)) == Some(es)
  {
    CutEncoded(header, es);
    DecodePieces(es);
  }

  // ----- sealing -----

  /** The declared length and a fresh checksum. */
  function Sealed(s: seq<Byte>): (r: seq<Byte>)
    requires FIXED_SIZE <= |s|
    ensures |r| == |s| && r[FIXED_SIZE..] == s[FIXED_SIZE..]
  {
    var open := s[..4] + Le32(|s|) + [s[8], 0] + s[10..];
    open[9 := (256 - ByteSum(open)) % 256]
  }

  lemma SealedSums(s: seq<Byte>)
    requires FIXED_SIZE <= |s|
    ensures ByteSum(Sealed(s)) == 0
  {
    ChecksumCancels(s[..4] + Le32(|s|) + [s[8], 0] + s[10..], 9);
  }

  lemma SumIsTotal(s: seq<Byte>)
    ensures ByteSum(s) == Total(s) % 256
  {
  }

  /** Parse undoes build: whatever list of structures is built and sealed, discovery
      accepts it exactly when it is legal and bootable, and reads it back in order. */
  lemma DiscoverUndoesBuild(m: Source, header: seq<Byte>, es: seq<Entry>)
    requires |header| == FIXED_SIZE && forall i :: 0 <= i < |es| ==> Representable(es[i])
    requires m.length == FIXED_SIZE + |EncodeAll(es)| <= MAX_TABLE_SIZE
    requires m.physicalAddress != 0 && EarlyMapped(m.physicalAddress, m.length)
    ensures var answer := Discover(m, Sealed(header + EncodeAll(es)));
      && (answer.Accepted? <==> Legal(es) && Bootable(es))
      && (answer.Accepted? ==> answer.topology == Described(m, es))
  {
    var built := header + EncodeAll(es);
    var table := Sealed(built);
    SealedSums(built);
    hide Sealed, Discover, Legal, Bootable, Described, Entries, EncodeAll, ByteSum;
    assert built[FIXED_SIZE..] == EncodeAll(es);
    assert table == table[..FIXED_SIZE] + EncodeAll(es);
    BuiltEntries(table[..FIXED_SIZE], es);
    SumIsTotal(table);
    DiscoverExact(m, table);
  }
}
