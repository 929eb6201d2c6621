/** The kernel heap as a value: the block table and the committed bytes, and what
    each operation does to them. Offsets are relative to the heap window. */
module HeapTable {
  import opened Architecture
  import opened Seqs

  const ALIGNMENT: nat := 16
  const HEAP_BASE: nat := 0x4_0000_0000
  const HEAP_SIZE: nat := 0x100_0000
  const MAX_BLOCKS: nat := 256

  datatype Block = Block(offset: nat, size: nat, used: bool)

  datatype Status =
    | Ok
    | NullArgument
    | AlreadyInitialized
    | NotInitialized
    | InterruptsEnabled
    | PagingInactive
    | GuardMapped
    | ZeroSize
    | TooLarge
    | OutOfMemory
    | OutOfBlocks
    | MappingFailure
    | BadPointer
    | DoubleFree
    | ValidationFailure

  /** How the page tables and the frame allocator answer a request for pages. */
  datatype Grant = Granted | NoFrame | MapRefused

  datatype Heap = Heap(table: seq<Block>, committed: nat)

  datatype Reply = Reply(heap: Heap, status: Status, pointer: nat)

  function AlignUp(value: nat, alignment: nat): nat
    requires alignment > 0
  {
    (value + alignment - 1) / alignment * alignment
  }

  /** The first free block from position k on that holds size bytes. */
  function FirstFit(t: seq<Block>, size: nat, k: nat): Option<nat>
    requires k <= |t|
    decreases |t| - k
  {
    if k == |t| then None
    else if !t[k].used && t[k].size >= size then Some(k)
    else FirstFit(t, size, k + 1)
  }

  function FindOffset(t: seq<Block>, offset: nat, k: nat): Option<nat>
    requires k <= |t|
    decreases |t| - k
  {
    if k == |t| then None
    else if t[k].offset == offset then Some(k)
    else FindOffset(t, offset, k + 1)
  }

  /** Take the front of free block i; a remainder of at least one unit becomes a
      block of its own, which needs a table slot. */
  function Split(t: seq<Block>, i: nat, size: nat): Option<seq<Block>>
    requires i < |t| && size <= t[i].size
  {
    var remainder := t[i].size - size;
    if remainder < ALIGNMENT then Some(t[i := t[i].(used := true)])
    else if |t| == MAX_BLOCKS then None
    else Some(t[..i] + [Block(t[i].offset, size, true), Block(t[i].offset + size, remainder, false)] + t[i + 1..])
  }

  /** Absorb block i + 1 into block i. */
  function Absorb(t: seq<Block>, i: nat): seq<Block>
    requires i + 1 < |t|
  {
    t[..i] + [t[i].(size := t[i].size + t[i + 1].size)] + t[i + 2..]
  }

  function MergeForward(t: seq<Block>, i: nat): (r: seq<Block>)
    requires i < |t|
    ensures i < |r| <= |t|
  {
    if i + 1 < |t| && !t[i + 1].used then Absorb(t, i) else t
  }

  function MergeBackward(t: seq<Block>, i: nat): seq<Block>
    requires i < |t|
  {
    if i > 0 && !t[i - 1].used then Absorb(t, i - 1) else t
  }

  /** Release block i and coalesce it with its free neighbours. */
  function FreeBlock(t: seq<Block>, i: nat): seq<Block>
    requires i < |t|
  {
    MergeBackward(MergeForward(t[i := t[i].(used := false)], i), i)
  }

  // ----- growth and the two operations -----

  predicate ExtendsLast(t: seq<Block>) {
    |t| > 0 && !t[|t| - 1].used
  }

  function Trailing(t: seq<Block>): nat {
    if ExtendsLast(t) then t[|t| - 1].size else 0
  }

  /** Whole pages needed so that the trailing free block reaches size. */
  function Growth(t: seq<Block>, size: nat): nat
    requires Trailing(t) <= size
  {
    AlignUp(size - Trailing(t), PAGE)
  }

  function Extended(h: Heap, growth: nat): Heap {
    var t := h.table;
    Heap(if ExtendsLast(t) then t[|t| - 1 := t[|t| - 1].(size := t[|t| - 1].size + growth)]
         else t + [Block(h.committed, growth, false)],
         h.committed + growth)
  }

  function Grow(h: Heap, size: nat, grant: Grant): Reply
    requires Trailing(h.table) <= size
  {
    var growth := Growth(h.table, size);
    if growth > HEAP_SIZE - h.committed then Reply(h, OutOfMemory, 0)
    else if !ExtendsLast(h.table) && |h.table| == MAX_BLOCKS then Reply(h, OutOfBlocks, 0)
    else match grant
      case NoFrame => Reply(h, OutOfMemory, 0)
      case MapRefused => Reply(h, MappingFailure, 0)
      case Granted => Reply(Extended(h, growth), Ok, 0)
  }

  /** Carve the request out of block i. */
  function Carve(h: Heap, i: nat, requested: nat): Reply
    requires i < |h.table| && requested <= h.table[i].size
  {
    match Split(h.table, i, requested)
    case None => Reply(h, OutOfBlocks, 0)
    case Some(t) => Reply(h.(table := t), Ok, HEAP_BASE + h.table[i].offset)
  }

  predicate RequestRefused(size: nat) {
    size == 0 || size > HEAP_SIZE || AlignUp(size, ALIGNMENT) > HEAP_SIZE
  }

  function Allocate(h: Heap, size: nat, grant: Grant): Reply {
    if size == 0 then Reply(h, ZeroSize, 0)
    else if RequestRefused(size) then Reply(h, TooLarge, 0)
    else
      var requested := AlignUp(size, ALIGNMENT);
      match FirstFit(h.table, requested, 0)
      case Some(i) => FitInRange(h.table, requested, 0); Carve(h, i, requested)
      case None =>
        NoFitTrailing(h.table, requested);
        var grown := Grow(h, requested, grant);
        if grown.status != Ok then grown
        else
          GrownFits(h, requested);
          Carve(grown.heap, |grown.heap.table| - 1, requested)
  }

  function Free(h: Heap, pointer: nat): Reply {
    if pointer == 0 then Reply(h, NullArgument, 0)
    else if pointer < HEAP_BASE || pointer >= HEAP_BASE + h.committed then Reply(h, BadPointer, 0)
    else match FindOffset(h.table, pointer - HEAP_BASE, 0)
      case None => Reply(h, BadPointer, 0)
      case Some(i) =>
        FoundInRange(h.table, pointer - HEAP_BASE, 0);
        if !h.table[i].used then Reply(h, DoubleFree, 0)
        else Reply(h.(table := FreeBlock(h.table, i)), Ok, 0)
  }

  // ----- what the searches mean -----

  lemma {:induction false} FitInRange(t: seq<Block>, size: nat, k: nat)
    requires k <= |t|
    ensures match FirstFit(t, size, k)
      case Some(i) => k <= i < |t| && !t[i].used && size <= t[i].size
        && forall j :: k <= j < i ==> t[j].used || t[j].size < size
      case None => forall j :: k <= j < |t| ==> t[j].used || t[j].size < size
    decreases |t| - k
  {
    if k < |t| { FitInRange(t, size, k + 1); }
  }

  lemma {:induction false} FoundInRange(t: seq<Block>, offset: nat, k: nat)
    requires k <= |t|
    ensures match FindOffset(t, offset, k)
      case Some(i) => k <= i < |t| && t[i].offset == offset
      case None => forall j :: k <= j < |t| ==> t[j].offset != offset
    decreases |t| - k
  {
    if k < |t| { FoundInRange(t, offset, k + 1); }
  }

  lemma NoFitTrailing(t: seq<Block>, size: nat)
    requires FirstFit(t, size, 0).None?
    ensures Trailing(t) <= size
  {
    FitInRange(t, size, 0);
  }

  lemma AlignUpBounds(value: nat, alignment: nat)
    requires alignment == ALIGNMENT || alignment == PAGE
    ensures value <= AlignUp(value, alignment) < value + alignment
    ensures AlignUp(value, alignment) % alignment == 0
  {
    if alignment == ALIGNMENT {
      assert AlignUp(value, ALIGNMENT) == (value + 15) / 16 * 16;
    } else {
      assert AlignUp(value, PAGE) == (value + 4095) / 4096 * 4096;
    }
  }

  lemma GrownFits(h: Heap, size: nat)
    requires Trailing(h.table) <= size
    ensures var t := Extended(h, Growth(h.table, size)).table;
      |t| > 0 && size <= t[|t| - 1].size
  {
    AlignUpBounds(size - Trailing(h.table), PAGE);
  }

  // ----- the invariant -----

  ghost predicate Sound(b: Block) {
    b.size > 0 && b.size % ALIGNMENT == 0
  }

  /** The blocks cover from..to exactly, in order, each a whole number of units. */
  ghost predicate Chain(t: seq<Block>, from: nat, to: nat)
    decreases |t|
  {
    if t == [] then from == to
    else t[0].offset == from && Sound(t[0]) && Chain(t[1..], from + t[0].size, to)
  }

  /** No two free blocks side by side. */
  ghost predicate Coalesced(t: seq<Block>) {
    forall i :: 0 < i < |t| ==> t[i - 1].used || t[i].used
  }

  /** The blocks tile the committed region with no gap, no overlap and no two free neighbours. */
  ghost predicate ValidTable(t: seq<Block>, committed: nat) {
    |t| <= MAX_BLOCKS && Chain(t, 0, committed) && Coalesced(t)
  }

  ghost predicate ValidHeap(h: Heap) {
    && ValidTable(h.table, h.committed)
    && h.committed <= HEAP_SIZE
    && h.committed % PAGE == 0
  }

  // ----- the same, as 64-bit arithmetic sees it -----

  /** The chain with its running offset taken modulo 2^64. */
  ghost predicate WrappedChain(t: seq<Block>, from: nat, to: nat)
    decreases |t|
  {
    if t == [] then from == to
    else t[0].offset == from && Sound(t[0]) && WrappedChain(t[1..], (from + t[0].size) % WORD, to)
  }

  /** What the tiling check accepts. */
  ghost predicate Accepts(t: seq<Block>, committed: nat) {
    |t| <= MAX_BLOCKS && WrappedChain(t, 0, committed) && Coalesced(t)
  }

  function TotalSize(t: seq<Block>): nat
    decreases |t|
  {
    if t == [] then 0 else t[0].size + TotalSize(t[1..])
  }

  lemma {:induction false} ChainExactly(t: seq<Block>, from: nat, to: nat)
    requires from < WORD && to < WORD
    ensures Chain(t, from, to) <==> WrappedChain(t, from, to) && from + TotalSize(t) < WORD
    decreases |t|
  {
    if t != [] {
      var next := from + t[0].size;
      if next < WORD {
        ChainExactly(t[1..], next, to);
      } else if Chain(t, from, to) {
        ChainAscends(t[1..], next, to);
      }
    }
  }

  /** An accepted table is a valid tiling exactly when its sizes do not add up to 2^64. */
  lemma AcceptsExactly(t: seq<Block>, committed: nat)
    requires committed < WORD
    ensures ValidTable(t, committed) <==> Accepts(t, committed) && TotalSize(t) < WORD
  {
    ChainExactly(t, 0, committed);
  }

  lemma {:induction false} SmallSizes(t: seq<Block>)
    requires forall i :: 0 <= i < |t| ==> t[i].size <= HEAP_SIZE
    ensures TotalSize(t) <= |t| * HEAP_SIZE
    decreases |t|
  {
    if t != [] { SmallSizes(t[1..]); }
  }

  /** So the check is exact for every table whose blocks fit the heap window. */
  lemma AcceptsSmall(t: seq<Block>, committed: nat)
    requires committed < WORD && forall i :: 0 <= i < |t| ==> t[i].size <= HEAP_SIZE
    ensures Accepts(t, committed) <==> ValidTable(t, committed)
  {
    AcceptsExactly(t, committed);
    if |t| <= MAX_BLOCKS { SmallSizes(t); }
  }

  /** Two blocks of 2^63 bytes pass as a tiling of nothing. */
  lemma WrapIsAccepted(t: seq<Block>)
    requires t == [Block(0, WORD / 2, true), Block(WORD / 2, WORD / 2, true)]
    ensures Accepts(t, 0) && !ValidTable(t, 0)
  {
    assert t[1..] == [t[1]] && t[1..][1..] == [];
    assert TotalSize(t[1..]) == WORD / 2;
    AcceptsExactly(t, 0);
  }

  // ----- joining and cutting tables -----

  lemma {:induction false} ChainJoin(a: seq<Block>, b: seq<Block>, from: nat, mid: nat, to: nat)
    requires Chain(a, from, mid) && Chain(b, mid, to)
    ensures Chain(a + b, from, to)
    decreases |a|
  {
    if a == [] {
      assert a + b == b;
    } else {
      ChainJoin(a[1..], b, from + a[0].size, mid, to);
      assert (a + b)[1..] == a[1..] + b;
    }
  }

  lemma {:induction false} ChainCut(t: seq<Block>, from: nat, to: nat, k: nat) returns (mid: nat)
    requires Chain(t, from, to) && k <= |t|
    ensures from <= mid <= to && Chain(t[..k], from, mid) && Chain(t[k..], mid, to)
    ensures k < |t| ==> t[k].offset == mid && Sound(t[k])
    decreases k
  {
    if k == 0 {
      mid := from;
      ChainAscends(t, from, to);
    } else {
      mid := ChainCut(t[1..], from + t[0].size, to, k - 1);
      assert t[..k][1..] == t[1..][..k - 1];
      assert t[k..] == t[1..][k - 1..];
    }
  }

  lemma {:induction false} ChainAscends(t: seq<Block>, from: nat, to: nat)
    requires Chain(t, from, to)
    ensures from <= to && (from < to <==> t != [])
    decreases |t|
  {
    if t != [] { ChainAscends(t[1..], from + t[0].size, to); }
  }

  /** Replacing a stretch of a table by another with the same span keeps the tiling. */
  lemma ChainReplace(t: seq<Block>, to: nat, i: nat, j: nat, middle: seq<Block>, lo: nat, hi: nat)
    requires Chain(t, 0, to) && i <= j <= |t|
    requires Chain(t[..i], 0, lo) && Chain(middle, lo, hi) && Chain(t[j..], hi, to)
    ensures Chain(t[..i] + middle + t[j..], 0, to)
  {
    ChainJoin(t[..i], middle, 0, lo, hi);
    ChainJoin(t[..i] + middle, t[j..], 0, hi, to);
  }

  ghost predicate Bordered(a: seq<Block>, b: seq<Block>) {
    a != [] && b != [] ==> a[|a| - 1].used || b[0].used
  }

  lemma CoalescedJoin(a: seq<Block>, b: seq<Block>)
    ensures Coalesced(a + b) <==> Coalesced(a) && Coalesced(b) && Bordered(a, b)
  {
    var t := a + b;
    if Coalesced(t) {
      forall i | 0 < i < |a| ensures a[i - 1].used || a[i].used { assert t[i - 1].used || t[i].used; }
      forall i | 0 < i < |b| ensures b[i - 1].used || b[i].used {
        assert t[|a| + i - 1].used || t[|a| + i].used;
      }
      if a != [] && b != [] { assert t[|a| - 1].used || t[|a|].used; }
    }
    if Coalesced(a) && Coalesced(b) && Bordered(a, b) {
      forall i | 0 < i < |t| ensures t[i - 1].used || t[i].used {
        if i > |a| { assert b[i - |a| - 1].used || b[i - |a|].used; }
      }
    }
  }

  /** What surrounds block i in a coalesced table. */
  lemma CoalescedAround(t: seq<Block>, i: nat)
    requires i < |t|
    ensures Coalesced(t) <==>
      && Coalesced(t[..i]) && Coalesced(t[i + 1..])
      && Bordered(t[..i], [t[i]]) && Bordered([t[i]], t[i + 1..])
  {
    assert t == t[..i] + ([t[i]] + t[i + 1..]);
    CoalescedJoin(t[..i], [t[i]] + t[i + 1..]);
    CoalescedJoin([t[i]], t[i + 1..]);
  }

  // ----- every operation keeps the invariant -----

  lemma SplitKeeps(t: seq<Block>, committed: nat, i: nat, size: nat)
    requires ValidTable(t, committed) && i < |t| && !t[i].used
    requires 0 < size <= t[i].size && size % ALIGNMENT == 0
    ensures Split(t, i, size).Some? ==> ValidTable(Split(t, i, size).value, committed)
  {
    var lo := ChainCut(t, 0, committed, i);
    CoalescedAround(t, i);
    var b := t[i];
    assert t[i..][1..] == t[i + 1..];
    if b.size - size < ALIGNMENT {
      var whole := [b.(used := true)];
      ChainOne(whole[0], lo);
      ChainReplace(t, committed, i, i + 1, whole, lo, lo + b.size);
      assert t[i := whole[0]] == t[..i] + whole + t[i + 1..];
      CoalescedAround(t[i := whole[0]], i);
    } else {
      var front, rest := Block(b.offset, size, true), Block(b.offset + size, b.size - size, false);
      ChainOne(front, lo);
      ChainOne(rest, lo + size);
      ChainJoin([front], [rest], lo, lo + size, lo + b.size);
      assert [front] + [rest] == [front, rest];
      ChainReplace(t, committed, i, i + 1, [front, rest], lo, lo + b.size);
      CoalescedJoin([front, rest], t[i + 1..]);
      CoalescedJoin(t[..i], [front, rest] + t[i + 1..]);
      assert t[..i] + [front, rest] + t[i + 1..] == t[..i] + ([front, rest] + t[i + 1..]);
    }
  }

  lemma ChainOne(b: Block, from: nat)
    requires b.offset == from && Sound(b)
    ensures Chain([b], from, from + b.size)
  {
  }

  lemma ChainTail(t: seq<Block>, i: nat, from: nat, to: nat)
    requires i < |t| && Chain(t[i..], from, to)
    ensures t[i].offset == from && Sound(t[i]) && Chain(t[i + 1..], from + t[i].size, to)
  {
    assert t[i..][1..] == t[i + 1..];
  }

  lemma AbsorbKeeps(t: seq<Block>, committed: nat, i: nat)
    requires Chain(t, 0, committed) && i + 1 < |t|
    ensures Chain(Absorb(t, i), 0, committed)
  {
    hide Chain;
    var lo := ChainCut(t, 0, committed, i);
    ChainTail(t, i, lo, committed);
    ChainTail(t, i + 1, lo + t[i].size, committed);
    var joined := t[i].(size := t[i].size + t[i + 1].size);
    ChainOne(joined, lo);
    ChainReplace(t, committed, i, i + 2, [joined], lo, lo + joined.size);
  }

  lemma {:induction false} ChainIgnoresUse(t: seq<Block>, from: nat, to: nat, i: nat, used: bool)
    requires Chain(t, from, to) && i < |t|
    ensures Chain(t[i := t[i].(used := used)], from, to)
    decreases i
  {
    var u := t[i := t[i].(used := used)];
    if i == 0 {
      assert u[1..] == t[1..];
    } else {
      ChainIgnoresUse(t[1..], from + t[0].size, to, i - 1, used);
      assert u[1..] == t[1..][i - 1 := t[i].(used := used)];
    }
  }

  /** Coalescing around a freed block leaves no free pair. */
  lemma FreeCoalesces(t: seq<Block>, i: nat)
    requires Coalesced(t) && i < |t|
    ensures Coalesced(FreeBlock(t, i))
  {
  }

  lemma FreeKeeps(t: seq<Block>, committed: nat, i: nat)
    requires ValidTable(t, committed) && i < |t|
    ensures ValidTable(FreeBlock(t, i), committed)
  {
    FreeCoalesces(t, i);
    ChainIgnoresUse(t, 0, committed, i, false);
    var freed := t[i := t[i].(used := false)];
    if i + 1 < |t| && !t[i + 1].used { AbsorbKeeps(freed, committed, i); }
    var merged := MergeForward(freed, i);
    if i > 0 && !merged[i - 1].used { AbsorbKeeps(merged, committed, i - 1); }
  }

  lemma PagesAreUnits(growth: nat)
    requires growth % PAGE == 0
    ensures growth % ALIGNMENT == 0
  {
  }

  lemma SoundGrowth(b: Block, growth: nat)
    requires Sound(b) && growth % ALIGNMENT == 0
    ensures Sound(b.(size := b.size + growth))
  {
  }

  lemma ExtendLastKeeps(t: seq<Block>, committed: nat, growth: nat)
    requires ValidTable(t, committed) && ExtendsLast(t) && growth % ALIGNMENT == 0
    ensures ValidTable(t[|t| - 1 := t[|t| - 1].(size := t[|t| - 1].size + growth)], committed + growth)
  {
    hide Sound;
    var n := |t| - 1;
    var lo := ChainCut(t, 0, committed, n);
    assert t[n..] == [t[n]] && t[n..][1..] == [];
    var grown := t[n].(size := t[n].size + growth);
    SoundGrowth(t[n], growth);
    ChainOne(grown, lo);
    ChainJoin(t[..n], [grown], 0, lo, committed + growth);
    assert t[n := grown] == t[..n] + [grown];
    CoalescedAround(t, n);
    CoalescedJoin(t[..n], [grown]);
  }

  lemma AppendKeeps(t: seq<Block>, committed: nat, growth: nat)
    requires ValidTable(t, committed) && !ExtendsLast(t) && |t| < MAX_BLOCKS
    requires growth > 0 && growth % ALIGNMENT == 0
    ensures ValidTable(t + [Block(committed, growth, false)], committed + growth)
  {
    var b := Block(committed, growth, false);
    ChainOne(b, committed);
    ChainJoin(t, [b], 0, committed, committed + growth);
    CoalescedJoin(t, [b]);
  }

  lemma ExtendedKeeps(h: Heap, growth: nat)
    requires ValidHeap(h) && growth > 0 && growth % PAGE == 0 && growth <= HEAP_SIZE - h.committed
    requires ExtendsLast(h.table) || |h.table| < MAX_BLOCKS
    ensures ValidHeap(Extended(h, growth))
  {
    hide ValidTable;
    PagesAreUnits(growth);
    if ExtendsLast(h.table) {
      ExtendLastKeeps(h.table, h.committed, growth);
    } else {
      AppendKeeps(h.table, h.committed, growth);
    }
  }
}
