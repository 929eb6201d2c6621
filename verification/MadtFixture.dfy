/** The table builder: a fixed byte buffer that structures are appended to and sealed. */
module MadtFixture {
  import opened Seqs
  import opened FirmwareBytes
  import opened Madt
  import opened MadtRoundTrip
  import opened MadtDiscovery

  const CAPACITY: nat := 640

  function Zeros(n: nat): (s: seq<Byte>)
    ensures |s| == n && forall i :: 0 <= i < n ==> s[i] == 0
  {
    seq(n, _ => 0)
  }

  /** Signature, revision, the local APIC address and the compatibility flag. */
  function Header(): (h: seq<Byte>)
    ensures |h| == FIXED_SIZE
  {
    [65, 80, 73, 67] + Zeros(4) + [5] + Zeros(27) + Le32(0xFEE0_0000) + Le32(1)
  }

  lemma {:induction false} EncodeAllNext(es: seq<Entry>, e: Entry)
    requires (forall i :: 0 <= i < |es| ==> Representable(es[i])) && Representable(e)
    ensures EncodeAll(es + [e]) == EncodeAll(es) + Encode(e)
    decreases |es|
  {
    hide Encode, Representable;
    var all := es + [e];
    if es == [] {
      assert all[1..] == [];
    } else {
      assert all[1..] == es[1..] + [e];
      EncodeAllNext(es[1..], e);
    }
  }

  lemma OpenedAt(all: seq<Byte>, w: seq<Byte>, n: nat)
    requires FIXED_SIZE <= n <= |all| && |w| == 4
    ensures (all[..4] + w + all[8..])[9 := 0][..n] == all[..n][..4] + w + [all[..n][8], 0] + all[..n][10..]
  {
  }

  /** Four bytes, a word and a tail behind what was there. */
  lemma Spliced(before: seq<Byte>, now: seq<Byte>, head: seq<Byte>, word: seq<Byte>, tail: seq<Byte>)
    requires |head| == |word| == 4 && |now| == |before| + 8 + |tail|
    requires forall k :: 0 <= k < |before| ==> now[k] == before[k]
    requires var at := |before|;
      now[at] == head[0] && now[at + 1] == head[1] && now[at + 2] == head[2] && now[at + 3] == head[3]
    requires forall k :: |before| + 4 <= k < |before| + 8 ==> now[k] == word[k - (|before| + 4)]
    requires forall k :: |before| + 8 <= k < |now| ==> now[k] == tail[k - (|before| + 8)]
    ensures now == before + (head + word + tail)
  {
    var whole := before + (head + word + tail);
    forall k | 0 <= k < |now| ensures now[k] == whole[k] {
    }
  }

  lemma Appended(before: seq<Byte>, now: seq<Byte>, es: seq<Entry>, e: Entry)
    requires (forall i :: 0 <= i < |es| ==> Representable(es[i])) && Representable(e)
    requires FIXED_SIZE <= |before| && before[FIXED_SIZE..] == EncodeAll(es) && now == before + Encode(e)
    ensures forall i :: 0 <= i < |es + [e]| ==> Representable((es + [e])[i])
    ensures now[FIXED_SIZE..] == EncodeAll(es + [e])
  {
    hide Encode, EncodeAll, Representable;
    EncodeAllNext(es, e);
  }

  class Fixture {
    const bytes: array<Byte>
    var length: nat

    /** Everything past the end is still zero. */
    ghost predicate Valid()
      reads this, bytes
    {
      && FIXED_SIZE <= length <= bytes.Length == CAPACITY
      && forall i :: length <= i < CAPACITY ==> bytes[i] == 0
    }

    ghost function Contents(): seq<Byte>
      requires Valid()
      reads this, bytes
    {
      bytes[..length]
    }

    /** The structures appended so far. */
    ghost predicate Holds(es: seq<Entry>)
      requires Valid()
      reads this, bytes
    {
      && (forall i :: 0 <= i < |es| ==> Representable(es[i]))
      && Contents()[FIXED_SIZE..] == EncodeAll(es)
    }

    constructor ()
      ensures Valid() && Contents() == Header() && Holds([]) && fresh(bytes)
    {
      bytes := new Byte[CAPACITY](_ => 0);
      length := FIXED_SIZE;
      new;
      Begin();
    }

    method Begin()
      requires bytes.Length == CAPACITY
      modifies this, bytes
      ensures Valid() && Contents() == Header() && Holds([])
    {
      var k := 0;
      while k < CAPACITY
        invariant k <= CAPACITY
        invariant forall i :: 0 <= i < k ==> bytes[i] == 0
      {
        bytes[k] := 0;
        k := k + 1;
      }
      bytes[0], bytes[1], bytes[2], bytes[3] := 65, 80, 73, 67;
      bytes[8] := 5;
      Write32(bytes, 36, 0xFEE0_0000);
      Write32(bytes, 40, 1);
      length := FIXED_SIZE;
      assert bytes[..FIXED_SIZE] == Header();
    }

    /** Reserve a structure; refused when it has no header or does not fit. */
    method Append(kind: Byte, size: Byte) returns (entry: Option<nat>)
      requires Valid()
      modifies this, bytes
      ensures Valid()
      ensures entry.Some? <==> 2 <= size && old(length) + size <= CAPACITY
      ensures entry.None? ==> length == old(length) && bytes[..] == old(bytes[..])
      ensures entry.Some? ==>
        && entry.value == old(length) && length == old(length) + size
        && bytes[entry.value] == kind && bytes[entry.value + 1] == size
        && (forall k :: 0 <= k < entry.value ==> bytes[k] == old(bytes[k]))
        && (forall k :: entry.value + 2 <= k < CAPACITY ==> bytes[k] == 0)
    {
      if size < 2 || length + size > CAPACITY {
        return None;
      }
      bytes[length] := kind;
      bytes[length + 1] := size;
      entry := Some(length);
      length := length + size;
    }

    method AppendLocalApic(uid: Byte, apicId: Byte, flags: nat, ghost es: seq<Entry>) returns (ok: bool)
      requires Valid() && Holds(es) && flags < 0x1_0000_0000
      modifies this, bytes
      ensures Valid() && (ok <==> old(length) + 8 <= CAPACITY)
      ensures Holds(if ok then es + [Processor(uid, apicId, flags)] else es)
    {
      hide Le32, EncodeAll;
      ghost var before, e := Contents(), Processor(uid, apicId, flags);
      var entry := Append(0, 8);
      if entry.None? {
        return false;
      }
      bytes[entry.value + 2] := uid;
      bytes[entry.value + 3] := apicId;
      Write32(bytes, entry.value + 4, flags);
      Spliced(before, Contents(), [0, 8, uid, apicId], Le32(flags), []);
      Appended(before, Contents(), es, e);
      return true;
    }

    method AppendIoApic(id: Byte, address: nat, interruptBase: nat, ghost es: seq<Entry>) returns (ok: bool)
      requires Valid() && Holds(es) && address < 0x1_0000_0000 && interruptBase < 0x1_0000_0000
      modifies this, bytes
      ensures Valid() && (ok <==> old(length) + 12 <= CAPACITY)
      ensures Holds(if ok then es + [IoController(id, address, interruptBase)] else es)
    {
      hide Le32, EncodeAll;
      ghost var before, e := Contents(), IoController(id, address, interruptBase);
      var entry := Append(1, 12);
      if entry.None? {
        return false;
      }
      bytes[entry.value + 2] := id;
      Write32(bytes, entry.value + 4, address);
      Write32(bytes, entry.value + 8, interruptBase);
      Spliced(before, Contents(), [1, 12, id, 0], Le32(address), Le32(interruptBase));
      Appended(before, Contents(), es, e);
      return true;
    }

    method AppendOverride(source: Byte, gsi: nat, ghost es: seq<Entry>) returns (ok: bool)
      requires Valid() && Holds(es) && gsi < 0x1_0000_0000
      modifies this, bytes
      ensures Valid() && (ok <==> old(length) + 10 <= CAPACITY)
      ensures Holds(if ok then es + [SourceOverride(0, source, gsi, 0)] else es)
    {
      hide Le16, Le32, EncodeAll;
      ghost var before, e := Contents(), SourceOverride(0, source, gsi, 0);
      var entry := Append(2, 10);
      if entry.None? {
        return false;
      }
      bytes[entry.value + 2] := 0;
      bytes[entry.value + 3] := source;
      Write32(bytes, entry.value + 4, gsi);
      Write16(bytes, entry.value + 8, 0);
      Spliced(before, Contents(), [2, 10, 0, source], Le32(gsi), Le16(0));
      Appended(before, Contents(), es, e);
      return true;
    }

    /** Recompute the declared length and the checksum. */
    method Seal(ghost es: seq<Entry>)
      requires Valid() && Holds(es)
      modifies this, bytes
      ensures Valid() && Holds(es) && length == old(length)
      ensures Contents() == Sealed(old(Contents())) && ByteSum(Contents()) == 0
    {
      hide Le32, EncodeAll, ByteSum;
      ghost var all, before := bytes[..], Contents();
      Write32(bytes, 4, length);
      bytes[9] := 0;
      ghost var open := Contents();
      OpenedAt(all, Le32(length), length);
      assert bytes[..] == (all[..4] + Le32(length) + all[8..])[9 := 0];
      var sum: nat := SumBytes(bytes[..], length);
      assert bytes[..][..length] == open;
      bytes[9] := (256 - sum) % 256;
      SealedSums(before);
      assert Contents() == Sealed(before);
      assert before[FIXED_SIZE..] == EncodeAll(es);
    }
  }

  /** The builder and discovery together: a sealed fixture is discovered exactly when what
      was appended is legal and bootable, and the store then describes it. */
  method SealAndDiscover(fixture: Fixture, store: Store, m: Source, ghost es: seq<Entry>) returns (status: Status)
    requires fixture.Valid() && fixture.Holds(es) && store.Shaped()
    requires m.length == fixture.length && m.physicalAddress != 0 && EarlyMapped(m.physicalAddress, m.length)
    modifies fixture, fixture.bytes, store, store.locals, store.ioApics, store.overrides
    ensures store.Sound() && (status == Ok <==> Legal(es) && Bootable(es))
    ensures status == Ok ==> store.View() == Described(m, es)
    ensures status != Ok ==> store.AllZero()
  {
    hide Sealed, Discover, Legal, Bootable, Described, EncodeAll;
    ghost var built := fixture.Contents();
    fixture.Seal(es);
    DiscoverUndoesBuild(m, built[..FIXED_SIZE], es);
    assert built == built[..FIXED_SIZE] + EncodeAll(es);
    var table := fixture.bytes[..fixture.length];
    status := store.DiscoverTopology(m, table);
  }
}
