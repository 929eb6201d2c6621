/** A run of ordinary requests after which the audit refuses the heap. */
module HeapStale {
  import opened Architecture
  import opened Seqs
  import opened HeapTable
  import opened HeapRuns
  import opened KernelHeap

  /** n used units from the start of the window. */
  function Units(n: nat): (t: seq<Block>)
    ensures |t| == n && forall j :: 0 <= j < n ==> t[j].used
  {
    if n == 0 then [] else Units(n - 1) + [Block(16 * (n - 1), 16, true)]
  }

  lemma UnitsNext(n: nat)
    ensures Units(n + 1) == Units(n) + [Block(16 * n, 16, true)]
  {
  }

  /** One page: n used units, then one free block. */
  function Filled(n: nat): Heap
    requires n < 256
  {
    Heap(Units(n) + [Block(16 * n, PAGE - 16 * n, false)], PAGE)
  }

  lemma {:induction false} FitsLast(t: seq<Block>, b: Block, size: nat, k: nat)
    requires k <= |t| && (forall j :: 0 <= j < |t| ==> t[j].used) && !b.used
    ensures FirstFit(t + [b], size, k) == if size <= b.size then Some(|t|) else None
    decreases |t| - k
  {
    if k < |t| { FitsLast(t, b, size, k + 1); }
  }

  lemma {:induction false} NothingFree(t: seq<Block>, size: nat, k: nat)
    requires k <= |t| && forall j :: 0 <= j < |t| ==> t[j].used
    ensures FirstFit(t, size, k) == None
    decreases |t| - k
  {
    if k < |t| { NothingFree(t, size, k + 1); }
  }

  lemma AlignedAlready(size: nat)
    requires size % 16 == 0
    ensures AlignUp(size, ALIGNMENT) == size
    ensures 0 < size <= PAGE ==> AlignUp(size, PAGE) == PAGE
  {
    hide AlignUp;
    AlignUpBounds(size, ALIGNMENT);
    AlignUpBounds(size, PAGE);
    assert (AlignUp(size, ALIGNMENT) - size) % 16 == 0;
  }

  /** An aligned request that fits is carved from the block that fits. */
  lemma AllocateFits(h: Heap, size: nat, i: nat)
    requires 0 < size <= HEAP_SIZE && size % 16 == 0
    requires FirstFit(h.table, size, 0) == Some(i) && i < |h.table| && size <= h.table[i].size
    ensures Allocate(h, size, Granted) == Carve(h, i, size)
  {
    hide FirstFit, Carve, AlignUp;
    AlignedAlready(size);
  }

  /** One that does not is carved from a fresh page, when every block is used. */
  lemma AllocateGrows(h: Heap, size: nat)
    requires 0 < size <= PAGE && size % 16 == 0 && h.committed + PAGE <= HEAP_SIZE && |h.table| < MAX_BLOCKS
    requires forall j :: 0 <= j < |h.table| ==> h.table[j].used
    ensures FirstFit(h.table, size, 0) == None && AlignUp(size, ALIGNMENT) == size && Growth(h.table, size) == PAGE
    ensures Allocate(h, size, Granted) ==
      Carve(Heap(h.table + [Block(h.committed, PAGE, false)], h.committed + PAGE), |h.table|, size)
  {
    hide FirstFit, Carve, AlignUp;
    AlignedAlready(size);
    NothingFree(h.table, size, 0);
    assert !ExtendsLast(h.table);
    assert Growth(h.table, size) == PAGE;
    assert Grow(h, size, Granted).heap == Extended(h, PAGE);
  }

  lemma FillOne(n: nat, size: nat)
    requires n < 254 && size == 16
    ensures size <= Filled(n).table[n].size
    ensures Allocate(Filled(n), size, Granted).heap == Carve(Filled(n), n, size).heap == Filled(n + 1)
  {
    hide FirstFit, Units, Allocate;
    var h := Filled(n);
    UnitsNext(n);
    FitsLast(Units(n), h.table[n], size, 0);
    AllocateFits(h, size, n);
    assert h.table[..n] == Units(n) && h.table[n + 1..] == [];
  }

  lemma FillFirst(size: nat)
    requires size == 16
    ensures Allocate(Heap([], 0), size, Granted).heap == Filled(1)
  {
    hide FirstFit, Allocate, Carve;
    AllocateGrows(Heap([], 0), size);
    FillOne(0, size);
    assert Filled(0) == Heap([] + [Block(0, PAGE, false)], 0 + PAGE);
  }

  function Requests(n: nat): (ops: seq<Op>)
    ensures |ops| == n
  {
    if n == 0 then [] else Requests(n - 1) + [Alloc(16, Granted)]
  }

  lemma {:induction false} FillAll(n: nat)
    requires 1 <= n <= 254
    ensures RunOps(Requests(n)).heap == Filled(n)
  {
    var ops := Requests(n);
    assert ops[..n - 1] == Requests(n - 1);
    if n == 1 {
      FillFirst(16);
    } else {
      FillAll(n - 1);
      FillOne(n - 1, 16);
    }
  }

  /** 254 units and one double unit use up a page and 255 blocks; the next request
      is refused after the table has grown. */
  lemma StaleIsReachable() returns (ops: seq<Op>)
    ensures RefusalAppends(RunOps(ops).heap, 16, Granted)
    ensures Allocate(RunOps(ops).heap, 16, Granted).status == OutOfBlocks
  {
    hide Allocate, Filled, RefusalAppends;
    var filling := Requests(254);
    FillAll(254);
    ops := filling + [Alloc(32, Granted)];
    assert ops[..|ops| - 1] == filling;
    FullTable(32);
    RefusedOutOfBlocks(RunOps(ops).heap, 16);
  }

  lemma FullTable(size: nat)
    requires size == 32
    ensures var h := Allocate(Filled(254), size, Granted).heap;
      |h.table| == 255 && h.committed == PAGE && forall j :: 0 <= j < 255 ==> h.table[j].used
  {
    hide FirstFit, Units, Allocate;
    var h := Filled(254);
    FitsLast(Units(254), h.table[254], size, 0);
    AllocateFits(h, size, 254);
  }

  lemma RefusedOutOfBlocks(h: Heap, size: nat)
    requires size == 16 && |h.table| == 255 && h.committed == PAGE
    requires forall j :: 0 <= j < |h.table| ==> h.table[j].used
    ensures RefusalAppends(h, size, Granted) && Allocate(h, size, Granted).status == OutOfBlocks
  {
    hide FirstFit, AlignUp, Allocate, Growth;
    AllocateGrows(h, size);
  }
}
