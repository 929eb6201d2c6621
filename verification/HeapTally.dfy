/** The heap's statistics, read off the set of live allocations alone. */
module HeapTally {
  import opened Architecture
  import opened HeapTable
  import opened HeapRuns
  import opened HeapAnswers
  import opened KernelHeap

  /** The bytes a set of allocations holds. */
  ghost function Bytes(live: set<(nat, nat)>): nat
    decreases |live|
  {
    if live == {} then 0 else var x :| x in live; x.1 + Bytes(live - {x})
  }

  lemma {:induction false} BytesLess(live: set<(nat, nat)>, x: (nat, nat))
    requires x in live
    ensures Bytes(live) == x.1 + Bytes(live - {x})
    decreases |live|
  {
    var y :| y in live && Bytes(live) == y.1 + Bytes(live - {y});
    if y != x {
      BytesLess(live - {y}, x);
      BytesLess(live - {x}, y);
      assert live - {y} - {x} == live - {x} - {y};
    }
  }

  lemma BytesMore(live: set<(nat, nat)>, x: (nat, nat))
    requires x !in live
    ensures Bytes(live + {x}) == Bytes(live) + x.1 && |live + {x}| == |live| + 1
  {
    BytesLess(live + {x}, x);
    assert live + {x} - {x} == live;
  }

  /** The counts follow the live blocks of any stretch of a table. */
  lemma {:induction false} TallyPrefix(t: seq<Block>, to: nat)
    requires Chain(t, 0, to)
    ensures UsedBytes(t) == Bytes(Live(t)) <= to && UsedCount(t) == |Live(t)|
    decreases |t|
  {
    hide Chain, Bytes;
    if t == [] {
      LiveNone();
      BytesNone();
    } else {
      var n := |t| - 1;
      var rest, b := t[..n], t[n];
      var at := ChainCut(t, 0, to, n);
      TallyPrefix(rest, at);
      LastFits(t, to, at);
      assert t == rest + [b];
      LiveJoin(rest, [b]);
      LiveOne(b);
      if b.used {
        NotBefore(rest, at, b);
        BytesMore(Live(rest), (b.offset, b.size));
      }
    }
  }

  lemma BytesNone()
    ensures Bytes({}) == 0
  {
  }

  lemma LastFits(t: seq<Block>, to: nat, at: nat)
    requires t != [] && Chain(t[|t| - 1..], at, to)
    ensures at + t[|t| - 1].size == to
  {
    assert t[|t| - 1..][1..] == [];
  }

  lemma NotBefore(t: seq<Block>, at: nat, b: Block)
    requires Chain(t, 0, at) && b.offset == at
    ensures (b.offset, b.size) !in Live(t)
  {
    hide Chain;
    if (b.offset, b.size) in Live(t) {
      var i := LiveBlock(t, b.offset, b.size);
      BlockInside(t, 0, at, i);
    }
  }

  /** The statistics of a valid heap: its blocks, and the number and the bytes of its live allocations. */
  lemma StatsCountLive(h: Heap)
    requires ValidHeap(h)
    ensures StatsOf(h.table) == Stats(|h.table|, Bytes(Live(h.table)), |Live(h.table)|)
  {
    hide Chain, Bytes, Live;
    TallyPrefix(h.table, h.committed);
  }

  /** An allocation adds one allocation and its rounded bytes to the statistics. */
  lemma AllocateCounted(h: Heap, size: nat, grant: Grant, k: nat)
    requires ValidHeap(h) && RoundsTo(size, 16, k) && Allocate(h, size, grant).status == Ok
    ensures var was, now := StatsOf(h.table), StatsOf(Allocate(h, size, grant).heap.table);
      now.bytes == was.bytes + k && now.live == was.live + 1
  {
    hide ValidHeap, Allocate, Bytes, StatsOf;
    AllocateKeeps(h, size, grant);
    var r := Allocate(h, size, grant);
    var held: nat :| Served(h, r, size, held);
    HeldRounded(h, size, grant, k, held);
    StatsCountLive(h);
    StatsCountLive(r.heap);
    BytesMore(Live(h.table), (r.pointer - HEAP_BASE, held));
  }

  lemma HeldRounded(h: Heap, size: nat, grant: Grant, k: nat, held: nat)
    requires ValidHeap(h) && RoundsTo(size, 16, k) && Allocate(h, size, grant).status == Ok
    requires Served(h, Allocate(h, size, grant), size, held)
    ensures held == k
  {
    hide Chain, Coalesced, Allocate, Live;
    var r := Allocate(h, size, grant);
    AllocateExactly(h, size, grant, k);
    AllocateKeeps(h, size, grant);
    SomeFitsOrNone(h.table, size);
    if NothingFits(h.table, size) {
      GrowthRounds(h, size, k);
      assert AnswersGrowth(h, k, Growth(h.table, k), grant, r);
    } else {
      var i: nat :| FirstFits(h.table, size, i);
      assert AnswersFit(h, i, k, r);
    }
    assert Block(r.pointer - HEAP_BASE, k, true) in r.heap.table;
    var i :| 0 <= i < |r.heap.table| && r.heap.table[i] == Block(r.pointer - HEAP_BASE, k, true);
    var j: nat :| j < |r.heap.table| && r.heap.table[j] == Block(r.pointer - HEAP_BASE, held, true);
    OffsetUnique(r.heap.table, r.heap.committed, i, j);
  }

  /** What growth asks for is the shortfall rounded to pages. */
  lemma GrowthRounds(h: Heap, size: nat, k: nat)
    requires ValidHeap(h) && 0 < size && RoundsTo(size, 16, k) && NothingFits(h.table, size)
    ensures Trailing(h.table) <= k && RoundsTo(k - FreeEnd(h.table), 4096, Growth(h.table, k))
  {
    hide Chain, Coalesced, AlignUp;
    AlignUpBounds(k - FreeEnd(h.table), PAGE);
  }

  /** A free takes one allocation and its bytes from the statistics. */
  lemma FreeCounted(h: Heap, pointer: nat, size: nat)
    requires ValidHeap(h) && pointer >= HEAP_BASE && (pointer - HEAP_BASE, size) in Live(h.table)
    ensures var r := Free(h, pointer); var was, now := StatsOf(h.table), StatsOf(r.heap.table);
      r.status == Ok && was.bytes == now.bytes + size && was.live == now.live + 1
  {
    hide ValidHeap, Free, Bytes, StatsOf, Live;
    var r, x := Free(h, pointer), (pointer - HEAP_BASE, size);
    FreeKeepsHeap(h, pointer);
    assert IsLive(h.table, pointer - HEAP_BASE);
    LivesApart(h, x);
    StatsCountLive(h);
    StatsCountLive(r.heap);
    assert Live(r.heap.table) == Live(h.table) - {x};
    BytesLess(Live(h.table), x);
  }

  /** No two live allocations share an offset. */
  lemma LivesApart(h: Heap, x: (nat, nat))
    requires ValidHeap(h) && x in Live(h.table)
    ensures forall y: (nat, nat) :: y in Live(h.table) && y.0 == x.0 ==> y == x
  {
    hide Chain, Coalesced;
    forall y: (nat, nat) | y in Live(h.table) && y.0 == x.0 ensures y == x {
      var i := LiveBlock(h.table, x.0, x.1);
      var j := LiveBlock(h.table, y.0, y.1);
      OffsetUnique(h.table, h.committed, i, j);
    }
  }
}
