/** The block table edited in place: searches, split with shift-right, removal
    with shift-left, coalescing and validation, each against its table function. */
module BlockArray {
  import opened Architecture
  import opened Seqs
  import opened HeapTable

  method FindFit(a: array<Block>, count: nat, size: nat) returns (index: Option<nat>)
    requires count <= a.Length
    ensures index == FirstFit(a[..count], size, 0)
  {
    var k := 0;
    while k < count
      invariant k <= count
      invariant FirstFit(a[..count], size, 0) == FirstFit(a[..count], size, k)
    {
      if !a[k].used && a[k].size >= size {
        return Some(k);
      }
      k := k + 1;
    }
    return None;
  }

  method BlockIndexForOffset(a: array<Block>, count: nat, offset: nat) returns (index: Option<nat>)
    requires count <= a.Length
    ensures index == FindOffset(a[..count], offset, 0)
  {
    var k := 0;
    while k < count
      invariant k <= count
      invariant FindOffset(a[..count], offset, 0) == FindOffset(a[..count], offset, k)
    {
      if a[k].offset == offset {
        return Some(k);
      }
      k := k + 1;
    }
    return None;
  }

  /** Close the gap at index. */
  method RemoveBlock(a: array<Block>, count: nat, index: nat)
    requires index < count <= a.Length
    modifies a
    ensures a[..count - 1] == Without(old(a[..count]), index)
  {
    var k := index;
    while k + 1 < count
      invariant index <= k < count
      invariant forall j :: 0 <= j < index ==> a[j] == old(a[j])
      invariant forall j :: index <= j < k ==> a[j] == old(a[j + 1])
      invariant forall j :: k <= j < count ==> a[j] == old(a[j])
    {
      a[k] := a[k + 1];
      k := k + 1;
    }
  }

  /** Open a gap after index. */
  method ShiftRight(a: array<Block>, count: nat, index: nat)
    requires index < count < a.Length
    modifies a
    ensures forall j :: 0 <= j <= index ==> a[j] == old(a[j])
    ensures forall j {:trigger a[j]} :: index + 2 <= j <= count ==> a[j] == old(a[j - 1])
  {
    var k := count;
    while k > index + 1
      invariant index + 1 <= k <= count
      invariant forall j :: 0 <= j <= k && j < count ==> a[j] == old(a[j])
      invariant forall j :: k < j <= count ==> a[j] == old(a[j - 1])
    {
      a[k] := a[k - 1];
      k := k - 1;
    }
  }

  method SplitBlock(a: array<Block>, count: nat, index: nat, size: nat) returns (ok: bool, after: nat)
    requires index < count <= a.Length == MAX_BLOCKS && size <= a[index].size
    modifies a
    ensures ok == Split(old(a[..count]), index, size).Some?
    ensures after <= a.Length
    ensures a[..after] == if ok then Split(old(a[..count]), index, size).value else old(a[..count])
    ensures !ok ==> after == count
  {
    hide Split;
    ghost var before := a[..count];
    var remainder := a[index].size - size;
    Splits(before, index, size);
    if remainder < ALIGNMENT {
      a[index] := a[index].(used := true);
      return true, count;
    }
    if count == MAX_BLOCKS {
      return false, count;
    }
    var b := a[index];
    ShiftRight(a, count, index);
    a[index + 1] := Block(b.offset + size, remainder, false);
    a[index] := Block(b.offset, size, true);
    ok, after := true, count + 1;
    Spliced(before, a[..after], index);
  }

  lemma Splits(t: seq<Block>, i: nat, size: nat)
    requires i < |t| && size <= t[i].size
    ensures Split(t, i, size) ==
      if t[i].size - size < ALIGNMENT then Some(t[i := t[i].(used := true)])
      else if |t| == MAX_BLOCKS then None
      else Some(t[..i]
        + [Block(t[i].offset, size, true), Block(t[i].offset + size, t[i].size - size, false)] + t[i + 1..])
  {
  }

  /** One element grown into two, the rest in place around them. */
  lemma Spliced(t: seq<Block>, r: seq<Block>, i: nat)
    requires i < |t| && |r| == |t| + 1
    requires forall j :: 0 <= j < i ==> r[j] == t[j]
    requires forall j {:trigger r[j]} :: i + 2 <= j < |r| ==> r[j] == t[j - 1]
    ensures r == t[..i] + [r[i], r[i + 1]] + t[i + 1..]
  {
  }

  /** Give block i the space of block i + 1 and drop the latter. */
  method AbsorbNext(a: array<Block>, count: nat, i: nat)
    requires i + 1 < count <= a.Length
    modifies a
    ensures a[..count - 1] == Absorb(old(a[..count]), i)
  {
    ghost var before := a[..count];
    a[i] := a[i].(size := a[i].size + a[i + 1].size);
    ghost var grown := a[..count];
    assert grown == before[i := before[i].(size := before[i].size + before[i + 1].size)];
    RemoveBlock(a, count, i + 1);
    assert Without(grown, i + 1) == Absorb(before, i);
  }

  /** Absorb any free neighbour on either side of a free block, forwards first. */
  method MergeFreeNeighbours(a: array<Block>, count: nat, index: nat) returns (after: nat)
    requires index < count <= a.Length
    modifies a
    ensures after <= count
    ensures a[..after] == MergeBackward(MergeForward(old(a[..count]), index), index)
  {
    hide Absorb;
    ghost var before := a[..count];
    after := count;
    if index + 1 < after && !a[index + 1].used {
      AbsorbNext(a, after, index);
      after := after - 1;
    }
    ghost var merged := a[..after];
    assert merged == MergeForward(before, index);
    if index > 0 && !a[index - 1].used {
      AbsorbNext(a, after, index - 1);
      after := after - 1;
    }
  }

  /** The tiling check, from the table alone; its running offset is a 64-bit word. */
  method ValidateTable(a: array<Block>, count: nat, committed: nat) returns (ok: bool)
    requires count <= a.Length
    ensures ok <==> Accepts(a[..count], committed)
  {
    ghost var t := a[..count];
    if count > MAX_BLOCKS {
      return false;
    }
    var expected: nat := 0;
    var p := 0;
    assert t[0..] == t;
    while p < count
      invariant p <= count
      invariant WrappedChain(t, 0, committed) <==> WrappedChain(t[p..], expected, committed)
      invariant Coalesced(t[..p])
    {
      assert t[p..][0] == t[p] && t[p..][1..] == t[p + 1..];
      if a[p].offset != expected || a[p].size == 0 || a[p].size % ALIGNMENT != 0 {
        return false;
      }
      if p > 0 && !a[p - 1].used && !a[p].used {
        assert !t[p - 1].used && !t[p].used;
        return false;
      }
      assert t[..p + 1] == t[..p] + [t[p]];
      CoalescedJoin(t[..p], [t[p]]);
      expected := (expected + a[p].size) % WORD;
      p := p + 1;
    }
    assert t[..p] == t && t[p..] == [];
    return expected == committed;
  }
}
