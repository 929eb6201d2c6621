/** What the heap promises over whole runs: live allocations never overlap, an
    allocation and its free cancel out, freeing everything leaves one block, and
    the block table only fills up with at least 128 allocations outstanding. */
module HeapRuns {
  import opened Architecture
  import opened Seqs
  import opened HeapTable

  // ----- live blocks -----

  /** The (offset, size) of every block in use. */
  ghost function Live(t: seq<Block>): set<(nat, nat)> {
    set b | b in t && b.used :: (b.offset, b.size)
  }

  ghost predicate IsLive(t: seq<Block>, offset: nat) {
    exists size: nat :: (offset, size) in Live(t)
  }

  lemma LiveJoin(a: seq<Block>, b: seq<Block>)
    ensures Live(a + b) == Live(a) + Live(b)
  {
    forall x | x in Live(a) + Live(b) ensures x in Live(a + b) {
      var c :| (c in a || c in b) && c.used && x == (c.offset, c.size);
      assert c in a + b;
    }
  }

  lemma LiveAround(t: seq<Block>, i: nat)
    requires i < |t|
    ensures Live(t) == Live(t[..i]) + Live([t[i]]) + Live(t[i + 1..])
  {
    assert t == t[..i] + [t[i]] + t[i + 1..];
    LiveJoin(t[..i] + [t[i]], t[i + 1..]);
    LiveJoin(t[..i], [t[i]]);
  }

  lemma LiveNone()
    ensures Live([]) == {}
  {
  }

  lemma LiveOne(b: Block)
    ensures Live([b]) == if b.used then {(b.offset, b.size)} else {}
  {
    if b.used { assert b in [b]; }
  }

  /** A block ends where a later one begins, or before it. */
  lemma BlocksAscend(t: seq<Block>, committed: nat, i: nat, j: nat)
    requires Chain(t, 0, committed) && i < j < |t|
    ensures t[i].offset + t[i].size <= t[j].offset
  {
    var at := ChainCut(t, 0, committed, j);
    BlockInside(t[..j], 0, at, i);
    assert t[..j][i] == t[i];
  }

  lemma BlockInside(t: seq<Block>, from: nat, to: nat, i: nat)
    requires Chain(t, from, to) && i < |t|
    ensures Sound(t[i]) && from <= t[i].offset && t[i].offset + t[i].size <= to
  {
    var at := ChainCut(t, from, to, i);
    assert t[i..][0] == t[i];
    ChainAscends(t[i..][1..], at + t[i].size, to);
  }

  lemma {:induction false} BlockAligned(t: seq<Block>, from: nat, to: nat, i: nat)
    requires Chain(t, from, to) && i < |t| && from % ALIGNMENT == 0
    ensures t[i].offset % ALIGNMENT == 0
    decreases i
  {
    if i > 0 { BlockAligned(t[1..], from + t[0].size, to, i - 1); }
  }

  /** Offsets identify blocks. */
  lemma OffsetUnique(t: seq<Block>, committed: nat, i: nat, j: nat)
    requires Chain(t, 0, committed) && i < |t| && j < |t| && t[i].offset == t[j].offset
    ensures i == j
  {
    BlockInside(t, 0, committed, i);
    BlockInside(t, 0, committed, j);
    if i < j { BlocksAscend(t, committed, i, j); }
    if j < i { BlocksAscend(t, committed, j, i); }
  }

  lemma FindsBlock(t: seq<Block>, committed: nat, i: nat)
    requires Chain(t, 0, committed) && i < |t|
    ensures FindOffset(t, t[i].offset, 0) == Some(i)
  {
    FoundInRange(t, t[i].offset, 0);
    var j := FindOffset(t, t[i].offset, 0).value;
    OffsetUnique(t, committed, i, j);
  }

  // ----- the operations keep the invariant and account for live blocks -----

  lemma CarveKeeps(h: Heap, i: nat, requested: nat)
    requires ValidHeap(h) && i < |h.table| && !h.table[i].used
    requires 0 < requested <= h.table[i].size && requested % ALIGNMENT == 0
    ensures var r := Carve(h, i, requested);
      && ValidHeap(r.heap) && r.heap.committed == h.committed
      && (r.status == Ok || r.status == OutOfBlocks)
      && (r.status == OutOfBlocks ==> r.heap == h && |h.table| == MAX_BLOCKS)
      && (r.status == Ok ==>
            && r.pointer == HEAP_BASE + h.table[i].offset
            && Live(r.heap.table) == Live(h.table) + {(h.table[i].offset, r.heap.table[i].size)}
            && i < |r.heap.table| && requested <= r.heap.table[i].size
            && r.heap.table[i].offset == h.table[i].offset && r.heap.table[i].used)
  {
    hide Chain;
    SplitKeeps(h.table, h.committed, i, requested);
    SplitLive(h.table, i, requested);
  }

  lemma SplitLive(t: seq<Block>, i: nat, requested: nat)
    requires i < |t| && !t[i].used && requested <= t[i].size
    ensures Split(t, i, requested).Some? ==>
      var r := Split(t, i, requested).value;
      && i < |r| && requested <= r[i].size && r[i].used && r[i].offset == t[i].offset
      && Live(r) == Live(t) + {(t[i].offset, r[i].size)}
  {
    LiveAround(t, i);
    LiveOne(t[i]);
    if Split(t, i, requested).Some? {
      var r := Split(t, i, requested).value;
      LiveAround(r, i);
      LiveOne(r[i]);
      assert r[..i] == t[..i];
      if t[i].size - requested < ALIGNMENT {
        assert r[i + 1..] == t[i + 1..];
      } else {
        assert r[i + 1..] == [r[i + 1]] + t[i + 1..];
        LiveJoin([r[i + 1]], t[i + 1..]);
        LiveOne(r[i + 1]);
      }
    }
  }

  lemma ExtendedLive(h: Heap, growth: nat)
    ensures Live(Extended(h, growth).table) == Live(h.table)
  {
    var t := h.table;
    var e := Extended(h, growth).table;
    if ExtendsLast(t) {
      var n := |t| - 1;
      LiveAround(t, n);
      LiveAround(e, n);
      LiveOne(t[n]);
      LiveOne(e[n]);
      assert e[..n] == t[..n] && e[n + 1..] == t[n + 1..];
    } else {
      LiveJoin(t, [Block(h.committed, growth, false)]);
      LiveOne(Block(h.committed, growth, false));
    }
  }

  /** Growing either succeeds whole or leaves the heap as it was. */
  lemma GrowKeeps(h: Heap, size: nat, grant: Grant)
    requires ValidHeap(h) && FirstFit(h.table, size, 0).None? && 0 < size
    ensures Trailing(h.table) <= size
    ensures var r := Grow(h, size, grant);
      && ValidHeap(r.heap) && Live(r.heap.table) == Live(h.table)
      && (r.status != Ok ==> r.heap == h && r.status in {OutOfMemory, OutOfBlocks, MappingFailure})
      && (r.status == Ok ==>
            var t := r.heap.table;
            |t| > 0 && size <= t[|t| - 1].size && !t[|t| - 1].used)
  {
    FitInRange(h.table, size, 0);
    hide FirstFit, Chain, Coalesced, Live, AlignUp;
    var growth := Growth(h.table, size);
    AlignUpBounds(size - Trailing(h.table), PAGE);
    if growth <= HEAP_SIZE - h.committed && (ExtendsLast(h.table) || |h.table| < MAX_BLOCKS) {
      ExtendedKeeps(h, growth);
      ExtendedLive(h, growth);
      GrownFits(h, size);
    }
  }

  /** A successful allocation: one more live block, of the asked size at least, at the returned pointer. */
  ghost predicate Served(before: Heap, r: Reply, size: nat, held: nat) {
    && r.pointer >= HEAP_BASE
    && size <= held
    && Live(r.heap.table) == Live(before.table) + {(r.pointer - HEAP_BASE, held)}
    && (exists i: nat :: i < |r.heap.table| &&
          r.heap.table[i] == Block(r.pointer - HEAP_BASE, held, true))
    && (forall x: (nat, nat) :: x in Live(before.table) ==> x.0 != r.pointer - HEAP_BASE)
  }

  lemma CarveServes(h: Heap, i: nat, requested: nat)
    requires ValidHeap(h) && i < |h.table| && !h.table[i].used
    requires 0 < requested <= h.table[i].size && requested % ALIGNMENT == 0
    requires Carve(h, i, requested).status == Ok
    ensures exists held: nat :: Served(h, Carve(h, i, requested), requested, held)
  {
    CarveKeeps(h, i, requested);
    var r := Carve(h, i, requested);
    var held := r.heap.table[i].size;
    forall x: (nat, nat) | x in Live(h.table) ensures x.0 != h.table[i].offset {
      var b :| b in h.table && b.used && x == (b.offset, b.size);
      var j :| 0 <= j < |h.table| && h.table[j] == b;
      if b.offset == h.table[i].offset { OffsetUnique(h.table, h.committed, i, j); }
    }
    assert r.heap.table[i] == Block(r.pointer - HEAP_BASE, held, true);
    assert Served(h, r, requested, held);
  }

  lemma AllocateKeeps(h: Heap, size: nat, grant: Grant)
    requires ValidHeap(h)
    ensures var r := Allocate(h, size, grant);
      && ValidHeap(r.heap)
      && (r.status != Ok ==> Live(r.heap.table) == Live(h.table) && r.pointer == 0)
      && (r.status == Ok ==> exists held: nat :: Served(h, r, size, held))
  {
    hide Chain, Coalesced, Grow, Carve, Live, FirstFit;
    if !RequestRefused(size) {
      var requested := AlignUp(size, ALIGNMENT);
      AlignUpBounds(size, ALIGNMENT);
      FitInRange(h.table, requested, 0);
      match FirstFit(h.table, requested, 0)
      case Some(i) => CarveOutcome(h, h, i, size, requested);
      case None =>
        GrowKeeps(h, requested, grant);
        var grown := Grow(h, requested, grant);
        if grown.status == Ok {
          CarveOutcome(h, grown.heap, |grown.heap.table| - 1, size, requested);
        } else {
          GrowPointer(h, requested, grant);
        }
    }
  }

  lemma GrowPointer(h: Heap, size: nat, grant: Grant)
    requires Trailing(h.table) <= size
    ensures Grow(h, size, grant).pointer == 0
  {
  }

  lemma CarveOutcome(before: Heap, h: Heap, i: nat, size: nat, requested: nat)
    requires ValidHeap(h) && i < |h.table| && !h.table[i].used && Live(h.table) == Live(before.table)
    requires 0 < size <= requested <= h.table[i].size && requested % ALIGNMENT == 0
    ensures var r := Carve(h, i, requested);
      && ValidHeap(r.heap)
      && (r.status != Ok ==> Live(r.heap.table) == Live(before.table) && r.pointer == 0)
      && (r.status == Ok ==> exists held: nat :: Served(before, r, size, held))
  {
    hide Chain, Coalesced, Live;
    CarveKeeps(h, i, requested);
    if Carve(h, i, requested).status == Ok {
      CarveServes(h, i, requested);
      var r := Carve(h, i, requested);
      var held: nat :| Served(h, r, requested, held);
      assert Served(before, r, size, held);
    }
  }

  lemma FreeLive(t: seq<Block>, committed: nat, i: nat)
    requires ValidTable(t, committed) && i < |t| && t[i].used
    ensures Live(FreeBlock(t, i)) == Live(t) - {(t[i].offset, t[i].size)}
  {
    hide Coalesced, Chain;
    LiveAround(t, i);
    LiveOne(t[i]);
    OthersElsewhere(t, committed, i);
    var merged := MergeForward(t[i := t[i].(used := false)], i);
    MergeForwardLive(t, i);
    MergeBackwardLive(merged, i);
  }

  lemma MergeBackwardLive(t: seq<Block>, i: nat)
    requires i < |t| && !t[i].used
    ensures Live(MergeBackward(t, i)) == Live(t[..i]) + Live(t[i + 1..])
  {
    hide Live;
    LiveAround(t, i);
    LiveOne(t[i]);
    if i > 0 && !t[i - 1].used {
      var r := Absorb(t, i - 1);
      assert r[..i - 1] == t[..i][..i - 1] && r[i..] == t[i + 1..];
      LiveAround(t[..i], i - 1);
      LiveOne(t[i - 1]);
      assert t[..i][i..] == [];
      LiveNone();
      LiveAround(r, i - 1);
      LiveOne(r[i - 1]);
    }
  }

  lemma MergeForwardLive(t: seq<Block>, i: nat)
    requires i < |t|
    ensures var merged := MergeForward(t[i := t[i].(used := false)], i);
      i < |merged| && merged[..i] == t[..i] && !merged[i].used && Live(merged[i + 1..]) == Live(t[i + 1..])
  {
    var freed := t[i := t[i].(used := false)];
    var merged := MergeForward(freed, i);
    if i + 1 < |t| && !t[i + 1].used {
      assert t[i + 1..] == [t[i + 1]] + t[i + 2..];
      LiveJoin([t[i + 1]], t[i + 2..]);
      LiveOne(t[i + 1]);
      assert merged[i + 1..] == t[i + 2..];
    } else {
      assert merged[i + 1..] == t[i + 1..];
    }
  }

  /** No other block has this one's offset. */
  lemma OthersElsewhere(t: seq<Block>, committed: nat, i: nat)
    requires Chain(t, 0, committed) && i < |t|
    ensures (t[i].offset, t[i].size) !in Live(t[..i]) + Live(t[i + 1..])
  {
    forall b | (b in t[..i] || b in t[i + 1..]) && b.used ensures b.offset != t[i].offset {
      if b in t[..i] {
        var j :| 0 <= j < i && t[j] == b;
        if b.offset == t[i].offset { OffsetUnique(t, committed, i, j); }
      } else {
        var j :| 0 <= j < |t[i + 1..]| && t[i + 1..][j] == b;
        if b.offset == t[i].offset { OffsetUnique(t, committed, i, i + 1 + j); }
      }
    }
  }

  /** Freeing succeeds exactly on the address of a live block, and retires just that block. */
  lemma FreeKeepsHeap(h: Heap, pointer: nat)
    requires ValidHeap(h)
    ensures var r := Free(h, pointer);
      && ValidHeap(r.heap) && r.heap.committed == h.committed
      && (r.status != Ok ==> r.heap == h)
      && (r.status == Ok <==>
            pointer >= HEAP_BASE && IsLive(h.table, pointer - HEAP_BASE))
      && (r.status == Ok ==>
            forall x: (nat, nat) :: x in Live(r.heap.table) <==> x in Live(h.table) && x.0 != pointer - HEAP_BASE)
  {
    var t := h.table;
    if pointer >= HEAP_BASE {
      var offset := pointer - HEAP_BASE;
      FoundInRange(t, offset, 0);
      match FindOffset(t, offset, 0)
      case Some(i) =>
        FindOffsetLive(t, h.committed, i);
        BlockInside(t, 0, h.committed, i);
        if t[i].used {
          FreeKeeps(t, h.committed, i);
          FreeLive(t, h.committed, i);
        }
      case None =>
        forall size: nat ensures (offset, size) !in Live(t) {}
    }
  }

  /** The live entry at a block's offset, if any, is that block. */
  lemma FindOffsetLive(t: seq<Block>, committed: nat, i: nat)
    requires Chain(t, 0, committed) && i < |t|
    ensures forall x: (nat, nat) :: x in Live(t) && x.0 == t[i].offset ==> t[i].used && x.1 == t[i].size
    ensures t[i].used ==> (t[i].offset, t[i].size) in Live(t)
  {
    if t[i].used { assert t[i] in t; }
    forall x: (nat, nat) | x in Live(t) && x.0 == t[i].offset ensures t[i].used && x.1 == t[i].size {
      var b :| b in t && b.used && x == (b.offset, b.size);
      var j :| 0 <= j < |t| && t[j] == b;
      OffsetUnique(t, committed, i, j);
    }
  }

  // ----- whole runs -----

  datatype Op = Alloc(size: nat, grant: Grant) | Release(pointer: nat)

  /** The heap together with what its callers hold: pointer to requested size. */
  datatype Trace = Trace(heap: Heap, held: map<nat, nat>)

  function Step(tr: Trace, op: Op): Trace {
    match op
    case Alloc(size, grant) =>
      var r := Allocate(tr.heap, size, grant);
      Trace(r.heap, if r.status == Ok then tr.held[r.pointer := size] else tr.held)
    case Release(pointer) =>
      var r := Free(tr.heap, pointer);
      Trace(r.heap, if r.status == Ok then tr.held - {pointer} else tr.held)
  }

  function RunOps(ops: seq<Op>): Trace
    decreases |ops|
  {
    if ops == [] then Trace(Heap([], 0), map[]) else Step(RunOps(ops[..|ops| - 1]), ops[|ops| - 1])
  }

  /** What is held is exactly what is live, and never less than was asked for. */
  ghost predicate Backed(tr: Trace) {
    && (forall x: (nat, nat) :: x in Live(tr.heap.table) ==>
          HEAP_BASE + x.0 in tr.held && tr.held[HEAP_BASE + x.0] <= x.1)
    && (forall p :: p in tr.held ==> p >= HEAP_BASE && IsLive(tr.heap.table, p - HEAP_BASE))
  }

  /** Live blocks of the old table that are still live keep backing their holders. */
  lemma StillLive(t: seq<Block>, r: seq<Block>, offset: nat)
    requires IsLive(t, offset)
    requires forall x: (nat, nat) :: x in Live(t) && x.0 == offset ==> x in Live(r)
    ensures IsLive(r, offset)
  {
    hide Live;
    var size: nat :| (offset, size) in Live(t);
    assert (offset, size) in Live(r);
  }

  lemma AllocBacked(tr: Trace, r: Reply, size: nat, held: nat)
    requires Backed(tr) && Served(tr.heap, r, size, held)
    ensures Backed(Trace(r.heap, tr.held[r.pointer := size]))
  {
    hide Live, IsLive;
    var next := tr.held[r.pointer := size];
    assert IsLive(r.heap.table, r.pointer - HEAP_BASE) by {
      NowLive(r.heap.table, r.pointer - HEAP_BASE, held);
    }
    forall p | p in next ensures p >= HEAP_BASE && IsLive(r.heap.table, p - HEAP_BASE) {
      if p != r.pointer { StillLive(tr.heap.table, r.heap.table, p - HEAP_BASE); }
    }
  }

  lemma NowLive(t: seq<Block>, offset: nat, size: nat)
    requires (offset, size) in Live(t)
    ensures IsLive(t, offset)
  {
  }

  lemma ReleaseBacked(tr: Trace, r: Heap, pointer: nat)
    requires Backed(tr) && pointer >= HEAP_BASE
    requires forall x: (nat, nat) :: x in Live(r.table) <==> x in Live(tr.heap.table) && x.0 != pointer - HEAP_BASE
    ensures Backed(Trace(r, tr.held - {pointer}))
  {
    hide Live, IsLive;
    forall p | p in tr.held && p != pointer ensures p >= HEAP_BASE && IsLive(r.table, p - HEAP_BASE) {
      StillLive(tr.heap.table, r.table, p - HEAP_BASE);
    }
  }

  lemma SameLiveBacked(tr: Trace, r: Heap)
    requires Backed(tr) && Live(r.table) == Live(tr.heap.table)
    ensures Backed(Trace(r, tr.held))
  {
    hide Live, IsLive;
    forall p | p in tr.held ensures IsLive(r.table, p - HEAP_BASE) {
      StillLive(tr.heap.table, r.table, p - HEAP_BASE);
    }
  }

  lemma StepKeeps(tr: Trace, op: Op)
    requires ValidHeap(tr.heap) && Backed(tr)
    ensures ValidHeap(Step(tr, op).heap) && Backed(Step(tr, op))
  {
    hide ValidHeap, Live, Allocate, Free, Served, IsLive;
    match op
    case Alloc(size, grant) =>
      AllocateKeeps(tr.heap, size, grant);
      var r := Allocate(tr.heap, size, grant);
      if r.status == Ok {
        var held: nat :| Served(tr.heap, r, size, held);
        AllocBacked(tr, r, size, held);
      } else {
        SameLiveBacked(tr, r.heap);
      }
    case Release(pointer) =>
      FreeKeepsHeap(tr.heap, pointer);
      var r := Free(tr.heap, pointer);
      if r.status == Ok { ReleaseBacked(tr, r.heap, pointer); }
  }

  /** Every sequence of calls, refused ones included, keeps the heap valid and backed. */
  lemma {:induction false} RunKeeps(ops: seq<Op>)
    ensures ValidHeap(RunOps(ops).heap) && Backed(RunOps(ops))
    decreases |ops|
  {
    hide Step, Backed, ValidHeap;
    if ops == [] {
      EmptyKeeps();
    } else {
      RunKeeps(ops[..|ops| - 1]);
      StepKeeps(RunOps(ops[..|ops| - 1]), ops[|ops| - 1]);
    }
  }

  lemma EmptyKeeps()
    ensures ValidHeap(Heap([], 0)) && Backed(Trace(Heap([], 0), map[]))
  {
  }

  /** In every reachable state, what a caller holds is aligned and committed, and what two
      callers hold is disjoint. */
  lemma HoldingsDisjoint(ops: seq<Op>, p: nat, q: nat)
    requires p in RunOps(ops).held && q in RunOps(ops).held
    ensures var tr := RunOps(ops);
      && p % ALIGNMENT == 0 && HEAP_BASE <= p && p + tr.held[p] <= HEAP_BASE + tr.heap.committed
      && (p != q ==> p + tr.held[p] <= q || q + tr.held[q] <= p)
  {
    hide *;
    RunKeeps(ops);
    HeldInside(RunOps(ops), p);
    if p != q { HeldApart(RunOps(ops), p, q); }
  }

  lemma HeldInside(tr: Trace, p: nat)
    requires ValidHeap(tr.heap) && Backed(tr) && p in tr.held
    ensures p % ALIGNMENT == 0 && HEAP_BASE <= p && p + tr.held[p] <= HEAP_BASE + tr.heap.committed
  {
    hide Backed, Live, Chain;
    var i := HeldBlock(tr, p);
    BlockInside(tr.heap.table, 0, tr.heap.committed, i);
    BlockAligned(tr.heap.table, 0, tr.heap.committed, i);
  }

  lemma HeldApart(tr: Trace, p: nat, q: nat)
    requires ValidHeap(tr.heap) && Backed(tr) && p in tr.held && q in tr.held && p != q
    ensures p + tr.held[p] <= q || q + tr.held[q] <= p
  {
    hide Backed, Live, Chain;
    var i := HeldBlock(tr, p);
    var j := HeldBlock(tr, q);
    if i < j {
      BlocksAscend(tr.heap.table, tr.heap.committed, i, j);
    } else {
      BlocksAscend(tr.heap.table, tr.heap.committed, j, i);
    }
  }

  /** The block behind a held pointer. */
  lemma HeldBlock(tr: Trace, p: nat) returns (i: nat)
    requires Backed(tr) && p in tr.held
    ensures p >= HEAP_BASE && i < |tr.heap.table|
    ensures var b := tr.heap.table[i]; b.used && b.offset == p - HEAP_BASE && tr.held[p] <= b.size
  {
    hide Live;
    var size: nat :| (p - HEAP_BASE, size) in Live(tr.heap.table);
    i := LiveBlock(tr.heap.table, p - HEAP_BASE, size);
  }

  lemma LiveBlock(t: seq<Block>, offset: nat, size: nat) returns (i: nat)
    requires (offset, size) in Live(t)
    ensures i < |t| && t[i] == Block(offset, size, true)
  {
    var b :| b in t && b.used && (offset, size) == (b.offset, b.size);
    i :| 0 <= i < |t| && t[i] == b;
  }

  // ----- inverses -----

  lemma FreeUndoesSplit(t: seq<Block>, committed: nat, i: nat, size: nat)
    requires ValidTable(t, committed) && i < |t| && !t[i].used
    requires 0 < size <= t[i].size && size % ALIGNMENT == 0
    requires Split(t, i, size).Some?
    ensures var r := Split(t, i, size).value; i < |r| && FreeBlock(r, i) == t
  {
    CoalescedAround(t, i);
    var _ := ChainCut(t, 0, committed, i);
    var r := Split(t, i, size).value;
    if i > 0 { assert t[..i][i - 1].used; }
    if t[i].size - size < ALIGNMENT {
      if i + 1 < |t| { assert t[i + 1..][0].used; }
      assert r[i := r[i].(used := false)] == t;
    } else {
      var freed := r[i := r[i].(used := false)];
      assert Absorb(freed, i) == t;
    }
  }

  /** Carving a block and freeing what was returned restores the identical heap. */
  lemma FreeUndoesCarve(h: Heap, i: nat, requested: nat)
    requires ValidHeap(h) && i < |h.table| && !h.table[i].used
    requires 0 < requested <= h.table[i].size && requested % ALIGNMENT == 0
    requires Carve(h, i, requested).status == Ok
    ensures var r := Carve(h, i, requested); Free(r.heap, r.pointer) == Reply(h, Ok, 0)
  {
    var r := Carve(h, i, requested);
    CarveKeeps(h, i, requested);
    FreeUndoesSplit(h.table, h.committed, i, requested);
    FindsBlock(r.heap.table, h.committed, i);
    BlockInside(r.heap.table, 0, h.committed, i);
  }

  /** An allocation that needed no growth, followed by its free, is the identity;
      one that grew leaves just the growth, as free space at the end. */
  lemma FreeUndoesAllocate(h: Heap, size: nat, grant: Grant)
    requires ValidHeap(h) && Allocate(h, size, grant).status == Ok
    ensures !RequestRefused(size)
    ensures var r := Allocate(h, size, grant);
      var requested := AlignUp(size, ALIGNMENT);
      if FirstFit(h.table, requested, 0).Some? then Free(r.heap, r.pointer) == Reply(h, Ok, 0)
      else
        && Trailing(h.table) <= requested
        && Free(r.heap, r.pointer) == Reply(Extended(h, Growth(h.table, requested)), Ok, 0)
  {
    hide Chain, Coalesced, Carve, Free, Live, FirstFit;
    var requested := AlignUp(size, ALIGNMENT);
    AlignUpBounds(size, ALIGNMENT);
    FitInRange(h.table, requested, 0);
    match FirstFit(h.table, requested, 0)
    case Some(i) => FreeUndoesCarve(h, i, requested);
    case None =>
      GrowKeeps(h, requested, grant);
      var grown := Grow(h, requested, grant).heap;
      FreeUndoesCarve(grown, |grown.table| - 1, requested);
  }

  /** Free a list of pointers in order; ok says whether every call succeeded. */
  function FreeAll(h: Heap, pointers: seq<nat>): (Heap, bool)
    decreases |pointers|
  {
    if pointers == [] then (h, true)
    else
      var r := Free(h, pointers[0]);
      var (rest, ok) := FreeAll(r.heap, pointers[1..]);
      (rest, ok && r.status == Ok)
  }

  /** pointers lists every live allocation once. */
  ghost predicate ListsLive(h: Heap, pointers: seq<nat>) {
    && Distinct(pointers)
    && (forall k :: 0 <= k < |pointers| ==> pointers[k] >= HEAP_BASE)
    && (forall offset: nat :: IsLive(h.table, offset) <==> HEAP_BASE + offset in pointers)
  }

  lemma ListsRest(h: Heap, pointers: seq<nat>)
    requires ValidHeap(h) && pointers != [] && ListsLive(h, pointers)
    ensures var r := Free(h, pointers[0]);
      r.status == Ok && ValidHeap(r.heap) && r.heap.committed == h.committed && ListsLive(r.heap, pointers[1..])
  {
    hide ValidTable, Live, Free;
    var p := pointers[0];
    assert p in pointers;
    assert IsLive(h.table, p - HEAP_BASE);
    FreeKeepsHeap(h, p);
    var r := Free(h, p);
    forall offset: nat ensures IsLive(r.heap.table, offset) <==> HEAP_BASE + offset in pointers[1..] {
      assert IsLive(r.heap.table, offset) <==> IsLive(h.table, offset) && offset != p - HEAP_BASE by {
        if IsLive(r.heap.table, offset) {
          var size: nat :| (offset, size) in Live(r.heap.table);
          assert (offset, size) in Live(h.table);
        }
        if IsLive(h.table, offset) && offset != p - HEAP_BASE {
          var size: nat :| (offset, size) in Live(h.table);
          assert (offset, size) in Live(r.heap.table);
        }
      }
      assert HEAP_BASE + offset in pointers[1..] <==> HEAP_BASE + offset in pointers && HEAP_BASE + offset != p;
    }
  }

  /** A heap with nothing live is empty or one free block. */
  lemma NothingLive(h: Heap)
    requires ValidHeap(h) && forall offset: nat :: !IsLive(h.table, offset)
    ensures h.table == if h.committed == 0 then [] else [Block(0, h.committed, false)]
  {
    var t := h.table;
    assert |t| >= 2 ==> t[1 - 1].used || t[1].used;
    ChainAscends(t, 0, h.committed);
    forall i | 0 <= i < |t| ensures !t[i].used {
      if t[i].used {
        FindOffsetLive(t, h.committed, i);
        assert IsLive(t, t[i].offset);
      }
    }
    if |t| == 1 { assert Chain(t[1..], t[0].size, h.committed); assert t[1..] == [] && t == [t[0]]; }
  }

  /** Freeing all live allocations, in any order, always succeeds and leaves one free block. */
  lemma {:induction false} FreeAllLeavesOneBlock(h: Heap, pointers: seq<nat>)
    requires ValidHeap(h) && ListsLive(h, pointers)
    ensures FreeAll(h, pointers) ==
      (Heap(if h.committed == 0 then [] else [Block(0, h.committed, false)], h.committed), true)
    decreases |pointers|
  {
    hide ValidHeap, Free, Live;
    if pointers == [] {
      NothingLive(h);
    } else {
      ListsRest(h, pointers);
      FreeAllLeavesOneBlock(Free(h, pointers[0]).heap, pointers[1..]);
    }
  }

  // ----- capacity -----

  function UsedCount(t: seq<Block>): nat
    decreases |t|
  {
    if t == [] then 0 else UsedCount(t[..|t| - 1]) + if t[|t| - 1].used then 1 else 0
  }

  /** Free blocks are never adjacent, so at least half of a long table is in use. */
  lemma {:induction false} HalfUsed(t: seq<Block>)
    requires Coalesced(t)
    ensures |t| <= 2 * UsedCount(t) + 1
    decreases |t|
  {
    if |t| >= 2 {
      var n := |t| - 1;
      var rest := t[..n - 1];
      assert t[..n][..n - 1] == rest;
      forall i | 0 < i < |rest| ensures rest[i - 1].used || rest[i].used { assert t[i - 1].used || t[i].used; }
      HalfUsed(rest);
      assert t[n - 1].used || t[n].used;
      assert UsedCount(t[..n]) == UsedCount(rest) + if t[n - 1].used then 1 else 0;
    }
  }

  lemma ExtendedUsed(h: Heap, growth: nat)
    ensures UsedCount(Extended(h, growth).table) == UsedCount(h.table)
  {
    var t, e := h.table, Extended(h, growth).table;
    assert e[..|e| - 1] == if ExtendsLast(t) then t[..|t| - 1] else t;
  }

  /** The block table is exhausted only with at least 128 live allocations. */
  lemma OutOfBlocksNeedsMany(h: Heap, size: nat, grant: Grant)
    requires ValidHeap(h) && Allocate(h, size, grant).status == OutOfBlocks
    ensures UsedCount(h.table) >= 128
  {
    hide Chain, Coalesced, FirstFit, Live;
    var requested := AlignUp(size, ALIGNMENT);
    AlignUpBounds(size, ALIGNMENT);
    FitInRange(h.table, requested, 0);
    HalfUsed(h.table);
    if FirstFit(h.table, requested, 0).None? {
      GrowKeeps(h, requested, grant);
      var grown := Grow(h, requested, grant).heap;
      HalfUsed(grown.table);
      ExtendedUsed(h, Growth(h.table, requested));
    }
  }

  // ----- refusals that leave a trace -----

  /** Growth would succeed, but the carve that follows would need a slot the table no longer has. */
  predicate GrowsThenRefuses(h: Heap, size: nat, grant: Grant) {
    && !RequestRefused(size)
    && var requested := AlignUp(size, ALIGNMENT);
       && FirstFit(h.table, requested, 0).None?
       && Trailing(h.table) <= requested
       && Growth(h.table, requested) <= HEAP_SIZE - h.committed
       && grant == Granted
       && |h.table| == (if ExtendsLast(h.table) then MAX_BLOCKS else MAX_BLOCKS - 1)
       && Trailing(h.table) + Growth(h.table, requested) >= requested + ALIGNMENT
  }

  /** A refused allocation leaves the heap untouched, except exactly in that case. */
  lemma RefusalTrace(h: Heap, size: nat, grant: Grant)
    requires ValidHeap(h)
    ensures var r := Allocate(h, size, grant);
      r.status != Ok && r.heap != h <==> GrowsThenRefuses(h, size, grant)
  {
    hide Chain, Coalesced, FirstFit, Live;
    if !RequestRefused(size) {
      var requested := AlignUp(size, ALIGNMENT);
      AlignUpBounds(size, ALIGNMENT);
      FitInRange(h.table, requested, 0);
      if FirstFit(h.table, requested, 0).None? {
        GrowKeeps(h, requested, grant);
        AlignUpBounds(requested - Trailing(h.table), PAGE);
        var grown := Grow(h, requested, grant).heap;
        var last := |grown.table| - 1;
      }
    }
  }
}
