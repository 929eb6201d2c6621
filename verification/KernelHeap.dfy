/** The kernel heap object: the block array edited in place, the committed region
    and its pages, the cached statistics, and the audit that re-derives them. */
module KernelHeap {
  import opened Architecture
  import opened HeapTable
  import opened HeapRuns
  import opened PageTables
  import opened HeapPages
  import opened BlockArray

  datatype Stats = Stats(blocks: nat, bytes: nat, live: nat)

  function UsedBytes(t: seq<Block>): nat
    decreases |t|
  {
    if t == [] then 0 else UsedBytes(t[..|t| - 1]) + if t[|t| - 1].used then t[|t| - 1].size else 0
  }

  /** The statistics a table deserves; the byte count is a 64-bit sum. */
  function StatsOf(t: seq<Block>): Stats {
    Stats(|t|, UsedBytes(t) % WORD, UsedCount(t))
  }

  ghost predicate Covered(pages: map<nat, nat>, n: nat) {
    forall p: nat :: p < n ==> p in pages
  }

  /** Exactly the first n pages of the window are mapped. */
  ghost predicate Exact(pages: map<nat, nat>, n: nat) {
    forall p: nat :: p in pages <==> p < n
  }

  lemma {:induction false} ExactCount(pages: map<nat, nat>, n: nat)
    requires Exact(pages, n)
    ensures |pages| == n
    decreases n
  {
    if n == 0 {
      assert pages == map[];
    } else {
      var rest := pages - {n - 1};
      ExactCount(rest, n - 1);
      assert rest[n - 1 := pages[n - 1]] == pages;
    }
  }

  lemma StatsExtended(h: Heap, growth: nat)
    ensures StatsOf(Extended(h, growth).table) ==
      StatsOf(h.table).(blocks := |h.table| + if ExtendsLast(h.table) then 0 else 1)
  {
    var t, e := h.table, Extended(h, growth).table;
    assert e[..|e| - 1] == if ExtendsLast(t) then t[..|t| - 1] else t;
  }

  /** A refusal that appended a block: the cached block count is then one behind. */
  predicate RefusalAppends(h: Heap, size: nat, grant: Grant) {
    GrowsThenRefuses(h, size, grant) && !ExtendsLast(h.table)
  }

  lemma StaleExactlyThen(h: Heap, size: nat, grant: Grant)
    requires ValidHeap(h)
    ensures var r := Allocate(h, size, grant);
      r.status != Ok ==> (StatsOf(r.heap.table) != StatsOf(h.table) <==> RefusalAppends(h, size, grant))
  {
    RefusalTrace(h, size, grant);
    RefusalShape(h, size, grant);
    hide Allocate, GrowsThenRefuses, ValidHeap;
    if GrowsThenRefuses(h, size, grant) {
      var requested := AlignUp(size, ALIGNMENT);
      RefusalTrailing(h, size, grant);
      StatsExtended(h, Growth(h.table, requested));
    }
  }

  lemma RefusalTrailing(h: Heap, size: nat, grant: Grant)
    requires GrowsThenRefuses(h, size, grant)
    ensures Trailing(h.table) <= AlignUp(size, ALIGNMENT)
  {
  }

  lemma RefusalShape(h: Heap, size: nat, grant: Grant)
    requires ValidHeap(h)
    ensures GrowsThenRefuses(h, size, grant) ==>
      Allocate(h, size, grant).heap == Extended(h, Growth(h.table, AlignUp(size, ALIGNMENT)))
  {
    hide Chain, Coalesced, FirstFit, Live;
    if GrowsThenRefuses(h, size, grant) {
      var requested := AlignUp(size, ALIGNMENT);
      AlignUpBounds(requested - Trailing(h.table), PAGE);
      GrownFits(h, requested);
    }
  }

  lemma NothingYet(kernel: set<Node>)
    ensures ValidHeap(Heap([], 0)) && Covered(map[], 0) && Exact(map[], 0) && Tidy(kernel, {}, kernel)
  {
  }

  lemma PageSteps(committed: nat, growth: nat)
    requires committed % PAGE == 0 && growth % PAGE == 0
    ensures (committed + growth) / PAGE == committed / PAGE + growth / PAGE
  {
  }

  lemma AddsCovers(before: map<nat, nat>, after: map<nat, nat>, n: nat, m: nat)
    requires n <= m && Covered(before, n) && Adds(before, after, n, m)
    ensures Covered(after, m) && (Exact(before, n) ==> Exact(after, m))
    ensures after.Keys == before.Keys + Range(n, m)
  {
  }

  lemma LeavesCovers(before: map<nat, nat>, after: map<nat, nat>, n: nat, m: nat, unmapRefuses: nat -> bool)
    requires Covered(before, n) && Leaves(before, after, n, m, unmapRefuses)
    ensures Covered(after, n)
  {
  }

  lemma UnmapsWithin(lo: nat, hi: nat, unmapRefuses: nat -> bool)
    requires hi <= HEAP_SIZE / PAGE
    ensures Unmaps(0, HEAP_SIZE / PAGE, unmapRefuses) ==> Unmaps(lo, hi, unmapRefuses)
  {
  }

  /** The growth that heap h needs to hold size bytes gets as far as asking for pages. */
  predicate Asks(h: Heap, size: nat) {
    && Trailing(h.table) <= size && Growth(h.table, size) <= HEAP_SIZE - h.committed
    && (ExtendsLast(h.table) || |h.table| != MAX_BLOCKS)
  }

  /** How the pages and their tables answer that growth. */
  function Asked(h: Heap, size: nat, pages: set<nat>, t: set<Node>, frames: nat, paging: Paging): Attempt {
    if Trailing(h.table) > size then Attempt(Granted, 0, {})
    else
      Try(pages, t, frames, h.committed / PAGE, (h.committed + Growth(h.table, size)) / PAGE, paging)
  }

  /** An allocation of size bytes gets as far as asking for pages. */
  predicate AsksFor(h: Heap, size: nat) {
    && !RequestRefused(size)
    && FirstFit(h.table, AlignUp(size, ALIGNMENT), 0).None? && Asks(h, AlignUp(size, ALIGNMENT))
  }

  class KernelHeap {
    const blocks: array<Block>
    const backing: Backing
    var blockCount: nat
    var committed: nat
    var stats: Stats
    var active: bool

    ghost predicate Shaped()
      reads this
    {
      blockCount <= blocks.Length == MAX_BLOCKS
    }

    ghost function State(): Heap
      requires Shaped()
      reads this, blocks
    {
      Heap(blocks[..blockCount], committed)
    }

    ghost predicate Valid()
      reads this, blocks, backing
    {
      && Shaped() && ValidHeap(State())
      && backing.Consistent() && Covered(backing.pages, committed / PAGE)
    }

    /** No page of the window is mapped beyond the committed region. */
    ghost predicate Exactly()
      reads this, backing
    {
      Exact(backing.pages, committed / PAGE)
    }

    /** No page table over the window is there for nothing. */
    ghost predicate Neat()
      reads this, backing
    {
      Tidy(backing.tables.Keys, backing.pages.Keys, backing.others)
    }

    /** Pages from the committed region on left no trace among the frames, as the state
        before the attempt decides. */
    ghost predicate NoTraceOf(a: Attempt)
      reads this, backing
    {
      Traceless(backing.tables.Keys, backing.pages.Keys, backing.others, committed / PAGE, a)
    }

    constructor (frames: set<nat>, kernel: map<Node, nat>)
      requires Exclusive(kernel, frames) && Closed(kernel.Keys, {})
      ensures Valid() && Exactly() && Neat() && !active && State() == Heap([], 0)
      ensures backing.freeFrames == frames && backing.tables == kernel && fresh(blocks) && fresh(backing)
    {
      hide ValidHeap, Covered, Exact, Tidy, Exclusive, Closed;
      blocks := new Block[MAX_BLOCKS](_ => Block(0, 0, false));
      backing := new Backing(frames, kernel);
      blockCount, committed, stats, active := 0, 0, Stats(0, 0, 0), false;
      new;
      NothingYet(kernel.Keys);
    }

    /** The counters start from nothing, whatever they held; with no page mapped, so does the heap. */
    method Initialize(pagingActive: bool, interruptsEnabled: bool, guardsMapped: bool) returns (status: Status)
      requires Shaped()
      modifies this, backing`mappedPages
      ensures Shaped()
      ensures status == Ok <==> !old(active) && pagingActive && !interruptsEnabled && !guardsMapped
      ensures status == Ok ==>
        active && State() == Heap([], 0) && backing.mappedPages == 0 && stats == StatsOf(State().table)
      ensures status == Ok && backing.Consistent() ==> Valid() && Exactly()
      ensures status != Ok ==> unchanged(this) && backing.mappedPages == old(backing.mappedPages)
    {
      if active { return AlreadyInitialized; }
      if !pagingActive { return PagingInactive; }
      if interruptsEnabled { return Status.InterruptsEnabled; }
      if guardsMapped { return GuardMapped; }
      blockCount, committed, active := 0, 0, true;
      backing.mappedPages := 0;
      RefreshState();
      return Ok;
    }

    method RefreshState()
      requires Shaped()
      modifies this`stats
      ensures stats == StatsOf(State().table)
    {
      var bytes, live := CountUsed();
      stats := Stats(blockCount, bytes, live);
    }

    /** Sum the used blocks of the table. */
    method CountUsed() returns (bytes: nat, live: nat)
      requires Shaped()
      ensures bytes == UsedBytes(State().table) % WORD && live == UsedCount(State().table)
    {
      ghost var t := State().table;
      bytes, live := 0, 0;
      var k := 0;
      while k < blockCount
        invariant k <= blockCount
        invariant bytes == UsedBytes(t[..k]) % WORD && live == UsedCount(t[..k])
      {
        assert t[..k + 1][..k] == t[..k];
        if blocks[k].used {
          bytes := (bytes + blocks[k].size) % WORD;
          live := live + 1;
        }
        k := k + 1;
      }
      assert t[..k] == t;
    }

    /** How the pages would answer the growth to hold size bytes now. */
    ghost function AskedNow(size: nat, paging: Paging): Attempt
      requires Shaped()
      reads this, blocks, backing
    {
      Asked(State(), size, backing.pages.Keys, backing.tables.Keys, |backing.freeFrames|, paging)
    }

    /** Give the last block the growth, or append a block for it. */
    method ExtendTable(growth: nat)
      requires Shaped() && (ExtendsLast(State().table) || blockCount < MAX_BLOCKS)
      modifies this`blockCount, this`committed, blocks
      ensures Shaped() && State() == Extended(old(State()), growth)
    {
      ghost var t := State().table;
      if blockCount > 0 && !blocks[blockCount - 1].used {
        var last := blocks[blockCount - 1];
        blocks[blockCount - 1] := last.(size := last.size + growth);
      } else {
        blocks[blockCount] := Block(committed, growth, false);
        blockCount := blockCount + 1;
      }
      committed := committed + growth;
    }

    /** Back the next growth bytes of the window. */
    method CommitGrowth(growth: nat, paging: Paging) returns (grant: Grant)
      requires backing.Consistent() && Covered(backing.pages, committed / PAGE)
      requires committed % PAGE == 0 && growth % PAGE == 0 && committed + growth <= HEAP_SIZE
      modifies backing
      ensures backing.Consistent() && backing.Owned() == old(backing.Owned())
      ensures var a := Try(old(backing.pages.Keys), old(backing.tables.Keys), |old(backing.freeFrames)|,
        committed / PAGE, (committed + growth) / PAGE, paging);
        && grant == a.grant
        && (Unmaps(0, HEAP_SIZE / PAGE, paging.unmapRefuses) && grant != Granted ==>
              (backing.freeFrames == old(backing.freeFrames) <==> old(NoTraceOf(a))))
        && (Unmaps(0, HEAP_SIZE / PAGE, paging.unmapRefuses) && old(Neat()) ==> (Neat() <==> a.kept == {}))
      ensures var n := (committed + if grant == Granted then growth else 0) / PAGE;
        && Covered(backing.pages, n)
        && (old(Exactly()) && Unmaps(0, HEAP_SIZE / PAGE, paging.unmapRefuses) ==> Exact(backing.pages, n))
    {
      hide Try, Tidy, Traceless, Covered, Exact, Unmaps, backing.Owned, backing.Consistent;
      PageSteps(committed, growth);
      grant := CommitRange(committed / PAGE, (committed + growth) / PAGE, paging);
    }

    /** Back the pages from..to after the first ones. */
    method CommitRange(from: nat, to: nat, paging: Paging) returns (grant: Grant)
      requires backing.Consistent() && Covered(backing.pages, from) && from <= to <= HEAP_SIZE / PAGE
      modifies backing
      ensures backing.Consistent() && backing.Owned() == old(backing.Owned())
      ensures var a := Try(old(backing.pages.Keys), old(backing.tables.Keys), |old(backing.freeFrames)|,
        from, to, paging);
        && grant == a.grant
        && (Unmaps(0, HEAP_SIZE / PAGE, paging.unmapRefuses) && grant != Granted ==>
              (backing.freeFrames == old(backing.freeFrames) <==>
               Traceless(old(backing.tables.Keys), old(backing.pages.Keys), backing.others, from, a)))
        && (Unmaps(0, HEAP_SIZE / PAGE, paging.unmapRefuses) && old(Neat()) ==> (Neat() <==> a.kept == {}))
      ensures var n := if grant == Granted then to else from;
        && Covered(backing.pages, n)
        && (old(Exact(backing.pages, from)) && Unmaps(0, HEAP_SIZE / PAGE, paging.unmapRefuses) ==>
              Exact(backing.pages, n))
    {
      hide Try, Tidy, Traceless, Left, Closed, Paths, Range, Exact, Adds, Leaves, Unmaps, Covered,
           backing.Owned, backing.Spare, backing.Consistent;
      ghost var before, t, frames := backing.pages, backing.tables.Keys, |backing.freeFrames|;
      backing.Counted();
      UnmapsWithin(from, to, paging.unmapRefuses);
      grant := backing.CommitPages(from, to, paging);
      if grant == Granted {
        AddsCovers(before, backing.pages, from, to);
        GrantedKeepsNothing(before.Keys, t, frames, from, to, paging);
        if old(Neat()) { TidyGranted(t, before.Keys, backing.others, from, to); }
      } else {
        LeavesCovers(before, backing.pages, from, to, paging.unmapRefuses);
        if old(Neat()) { TidyTrace(before.Keys, t, backing.others, frames, from, to, paging); }
      }
    }

    /** Extend the committed region until its last block holds size bytes. */
    method GrowFor(size: nat, paging: Paging)
      returns (status: Status)
      requires Valid() && 0 < size && Trailing(State().table) < size
      modifies this`blockCount, this`committed, blocks, backing
      ensures Valid()
      ensures var a := old(AskedNow(size, paging));
        && Reply(State(), status, 0) == Grow(old(State()), size, a.grant)
        && (Unmaps(0, HEAP_SIZE / PAGE, paging.unmapRefuses) && status != Ok ==>
              (backing.freeFrames == old(backing.freeFrames) <==> (Asks(old(State()), size) ==> old(NoTraceOf(a)))))
        && (Unmaps(0, HEAP_SIZE / PAGE, paging.unmapRefuses) && old(Neat()) ==>
              (Neat() <==> (Asks(old(State()), size) ==> a.kept == {})))
      ensures backing.Owned() == old(backing.Owned())
      ensures old(Exactly()) && Unmaps(0, HEAP_SIZE / PAGE, paging.unmapRefuses) ==> Exactly()
    {
      hide ValidTable, AlignUp, Covered, Exact, Unmaps, Extended, Try, Traceless, Tidy,
           backing.Owned, backing.Consistent;
      ghost var h := State();
      var extendLast := blockCount > 0 && !blocks[blockCount - 1].used;
      var trailing := if extendLast then blocks[blockCount - 1].size else 0;
      var growth := AlignUp(size - trailing, PAGE);
      AlignUpBounds(size - trailing, PAGE);
      if growth > HEAP_SIZE - committed {
        return OutOfMemory;
      }
      if !extendLast && blockCount == MAX_BLOCKS {
        return OutOfBlocks;
      }
      ExtendedKeeps(h, growth);
      ExtendedCommits(h, growth);
      var g := CommitGrowth(growth, paging);
      if g == NoFrame {
        return OutOfMemory;
      }
      if g == MapRefused {
        return MappingFailure;
      }
      assert State() == h;
      ExtendTable(growth);
      return Ok;
    }

    /** Split block index and publish the new statistics. */
    method CarveBlock(index: nat, requested: nat) returns (status: Status, pointer: nat)
      requires Shaped() && index < blockCount && requested <= blocks[index].size
      modifies this`blockCount, this`stats, blocks
      ensures Shaped()
      ensures Reply(State(), status, pointer) == Carve(old(State()), index, requested) && status in {Ok, OutOfBlocks}
      ensures stats == if status == Ok then StatsOf(State().table) else old(stats)
    {
      hide StatsOf;
      ghost var t := State().table;
      var address := HEAP_BASE + blocks[index].offset;
      var ok, after := SplitBlock(blocks, blockCount, index, requested);
      blockCount := after;
      if !ok {
        return OutOfBlocks, 0;
      }
      RefreshState();
      return Ok, address;
    }

    method Allocate(size: nat, paging: Paging)
      returns (status: Status, pointer: nat)
      requires Valid()
      modifies this`blockCount, this`committed, this`stats, blocks, backing
      ensures Valid()
      ensures !active ==> Reply(State(), status, pointer) == Reply(old(State()), NotInitialized, 0)
      ensures active ==> Reply(State(), status, pointer) == HeapTable.Allocate(old(State()), size,
        old(AskedNow(AlignUp(size, ALIGNMENT), paging)).grant)
      ensures stats == if status == Ok then StatsOf(State().table) else old(stats)
      ensures backing.Owned() == old(backing.Owned())
      ensures old(Exactly()) && Unmaps(0, HEAP_SIZE / PAGE, paging.unmapRefuses) ==> Exactly()
      ensures var a := old(AskedNow(AlignUp(size, ALIGNMENT), paging));
        && (Unmaps(0, HEAP_SIZE / PAGE, paging.unmapRefuses) && status in {OutOfMemory, MappingFailure} ==>
              (backing.freeFrames == old(backing.freeFrames) <==> (AsksFor(old(State()), size) ==> old(NoTraceOf(a)))))
        && (active && Unmaps(0, HEAP_SIZE / PAGE, paging.unmapRefuses) && old(Neat()) ==>
              (Neat() <==> (AsksFor(old(State()), size) ==> a.kept == {})))
    {
      hide StatsOf, backing.Owned, Unmaps, Exact, Covered, ValidTable, Grow, Carve, FirstFit, Asked, Asks,
           Traceless, Tidy, backing.Consistent;
      ghost var h := State();
      if !active {
        return NotInitialized, 0;
      }
      if size == 0 {
        return ZeroSize, 0;
      }
      if size > HEAP_SIZE || AlignUp(size, ALIGNMENT) > HEAP_SIZE {
        return TooLarge, 0;
      }
      var requested := AlignUp(size, ALIGNMENT);
      ghost var grant := AskedNow(requested, paging).grant;
      AlignUpBounds(size, ALIGNMENT);
      FitInRange(h.table, requested, 0);
      var index;
      var fit := FindFit(blocks, blockCount, requested);
      if fit.Some? {
        index := fit.value;
      } else {
        status := GrowFor(requested, paging);
        if status != Ok {
          return status, 0;
        }
        GrowKeeps(h, requested, grant);
        index := blockCount - 1;
      }
      AllocateKeeps(h, size, grant);
      status, pointer := CarveBlock(index, requested);
    }

    method Free(pointer: nat) returns (status: Status)
      requires Valid()
      modifies this`blockCount, this`stats, blocks
      ensures Valid()
      ensures !active ==> Reply(State(), status, 0) == Reply(old(State()), NotInitialized, 0)
      ensures active ==> Reply(State(), status, 0) == HeapTable.Free(old(State()), pointer)
      ensures stats == if status == Ok then StatsOf(State().table) else old(stats)
    {
      hide StatsOf, Covered, ValidTable, FindOffset, MergeForward, MergeBackward, backing.Consistent;
      ghost var h := State();
      if !active {
        return NotInitialized;
      }
      if pointer == 0 {
        return NullArgument;
      }
      if pointer < HEAP_BASE || pointer >= HEAP_BASE + committed {
        return BadPointer;
      }
      var found := BlockIndexForOffset(blocks, blockCount, pointer - HEAP_BASE);
      if found.None? {
        return BadPointer;
      }
      FoundInRange(h.table, pointer - HEAP_BASE, 0);
      var index := found.value;
      if !blocks[index].used {
        return DoubleFree;
      }
      FreeKeepsHeap(h, pointer);
      blocks[index] := blocks[index].(used := false);
      assert blocks[..blockCount] == h.table[index := h.table[index].(used := false)];
      var after := MergeFreeNeighbours(blocks, blockCount, index);
      blockCount := after;
      RefreshState();
      return Ok;
    }

    /** What the audit re-derives, in its own 64-bit arithmetic, agrees with what the heap
        believes. */
    ghost predicate Audited()
      requires Shaped()
      reads this, blocks, backing
    {
      && active && Accepts(State().table, committed) && committed <= HEAP_SIZE
      && backing.mappedPages * PAGE == committed && Covered(backing.pages, committed / PAGE)
      && stats == StatsOf(State().table)
    }

    /** And the same with the tiling itself. */
    ghost predicate Agrees()
      requires Shaped()
      reads this, blocks, backing
    {
      && active && ValidHeap(State())
      && backing.mappedPages * PAGE == committed && Covered(backing.pages, committed / PAGE)
      && stats == StatsOf(State().table)
    }

    /** The audit sees a heap that disagrees, of any state at all, exactly unless its block
        sizes add up to 2^64 or more. */
    lemma AuditExactly()
      requires Shaped()
      ensures Agrees() <==> Audited() && TotalSize(State().table) < WORD
    {
      hide Covered, StatsOf, Accepts, ValidTable, TotalSize;
      if committed < WORD { AcceptsExactly(State().table, committed); }
    }

    /** The audit, of any state at all. */
    method Verify(guardsMapped: bool) returns (status: Status)
      requires Shaped()
      ensures status == NotInitialized <==> !active
      ensures status == Ok <==> Audited() && !guardsMapped
      ensures status in {Ok, NotInitialized, ValidationFailure, GuardMapped}
      ensures status == GuardMapped ==> guardsMapped
    {
      hide Accepts;
      if !active {
        return NotInitialized;
      }
      if committed > HEAP_SIZE || committed % PAGE != 0 || backing.mappedPages != committed / PAGE {
        return ValidationFailure;
      }
      var tiled := ValidateTable(blocks, blockCount, committed);
      if !tiled {
        return ValidationFailure;
      }
      if guardsMapped {
        return GuardMapped;
      }
      var p := 0;
      while p < committed / PAGE
        invariant p <= committed / PAGE
        invariant Covered(backing.pages, p)
      {
        if p !in backing.pages {
          return ValidationFailure;
        }
        p := p + 1;
      }
      var bytes, live := CountUsed();
      if Stats(blockCount, bytes, live) != stats {
        return ValidationFailure;
      }
      return Ok;
    }

    /** Two blocks of 2^63 bytes in a heap that committed nothing pass the audit. */
    lemma WrapIsAudited()
      requires Shaped() && active && blockCount == 2 && committed == 0 && backing.mappedPages == 0
      requires blocks[0] == Block(0, WORD / 2, true) && blocks[1] == Block(WORD / 2, WORD / 2, true)
      requires stats == Stats(2, 0, 2)
      ensures Audited() && !Agrees()
    {
      hide ValidTable, Accepts;
      var t := State().table;
      assert t == [Block(0, WORD / 2, true), Block(WORD / 2, WORD / 2, true)];
      WrapIsAccepted(t);
      assert t[..2] == t && t[..1] == [t[0]] && t[..1][..0] == [];
      assert UsedBytes([]) == 0 && UsedCount([]) == 0;
      assert UsedBytes([t[0]]) == WORD / 2 && UsedCount([t[0]]) == 1;
      assert UsedBytes(t) == WORD && UsedCount(t) == 2;
    }

    /** After an allocation from an audited heap the audit passes, except exactly
        when a refused request had already appended a block. */
    lemma AuditAfterAllocate(before: Heap, size: nat, grant: Grant)
      requires Valid() && Exactly() && active && ValidHeap(before)
      requires var r := HeapTable.Allocate(before, size, grant);
        State() == r.heap && stats == if r.status == Ok then StatsOf(r.heap.table) else StatsOf(before.table)
      ensures Audited() <==> !RefusalAppends(before, size, grant)
    {
      hide HeapTable.Allocate, StatsOf, RefusalAppends, ValidTable, Accepts, Covered, Exact;
      ExactCount(backing.pages, committed / PAGE);
      AcceptsExactly(State().table, committed);
      StaleExactlyThen(before, size, grant);
      RefusalIsRefused(before, size, grant);
    }

    /** With fresh statistics, as every successful call leaves them, it always passes. */
    lemma AuditWhenFresh()
      requires Valid() && Exactly() && active && stats == StatsOf(State().table)
      ensures Audited() && Agrees()
    {
      ExactCount(backing.pages, committed / PAGE);
      AcceptsExactly(State().table, committed);
    }

    /** Unless an unmap is refused, the count of mapped pages is the committed region's. */
    lemma PagesCounted()
      requires Valid() && Exactly()
      ensures backing.mappedPages * PAGE == committed
    {
      ExactCount(backing.pages, committed / PAGE);
    }

    /** One call, as the step of a run that the pages' answer makes it. */
    method ServeOne(request: Request) returns (ghost op: Op)
      requires Valid() && active
      modifies this`blockCount, this`committed, this`stats, blocks, backing
      ensures Valid() && Answers(request, op) && backing.Owned() == old(backing.Owned())
      ensures var w := Watch(Watched(old(State()), old(stats), true), op); State() == w.heap && stats == w.stats
      ensures old(Exactly()) && Gentle(request) ==> Exactly()
    {
      hide StatsOf, HeapTable.Allocate, HeapTable.Free, backing.Owned, backing.Consistent, Covered, Exact, ValidTable,
           Asked, Unmaps, Tidy, Traceless;
      match request
      case Ask(size, paging) =>
        op := Alloc(size, AskedNow(AlignUp(size, ALIGNMENT), paging).grant);
        var status, pointer := Allocate(size, paging);
      case GiveBack(pointer) =>
        op := Release(pointer);
        var status := Free(pointer);
    }

    /** Any sequence of calls is a run of the heap value, with the statistics it deserves. */
    method Serve(requests: seq<Request>, ghost past: seq<Op>) returns (ghost ops: seq<Op>)
      requires Valid() && active && State() == RunOps(past).heap
      modifies this`blockCount, this`committed, this`stats, blocks, backing
      ensures Valid() && backing.Owned() == old(backing.Owned())
      ensures |ops| == |requests| && forall i :: 0 <= i < |requests| ==> Answers(requests[i], ops[i])
      ensures State() == RunOps(past + ops).heap
      ensures var w := WatchAll(Watched(old(State()), old(stats), true), ops); State() == w.heap && stats == w.stats
      ensures old(Exactly()) && (forall i :: 0 <= i < |requests| ==> Gentle(requests[i])) ==>
        Exactly() && backing.mappedPages * PAGE == committed
    {
      hide RunOps, WatchAll, Watch, ValidHeap, Exact, Covered, Answers, Gentle, backing.Consistent, backing.Owned;
      ops := [];
      assert past + ops == past;
      ghost var start := Watched(State(), stats, true);
      WatchNone(start);
      var k := 0;
      while k < |requests|
        invariant k <= |requests| && |ops| == k
        invariant Valid() && active && backing.Owned() == old(backing.Owned())
        invariant forall i :: 0 <= i < k ==> Answers(requests[i], ops[i])
        invariant State() == RunOps(past + ops).heap
        invariant State() == WatchAll(start, ops).heap && stats == WatchAll(start, ops).stats
        invariant old(Exactly()) && (forall i :: 0 <= i < k ==> Gentle(requests[i])) ==> Exactly()
      {
        ghost var w := Watched(State(), stats, true);
        ghost var op := ServeOne(requests[k]);
        WatchNext(start, ops, op);
        WatchIsStep(past + ops, w, WatchAll(start, ops), op);
        assert past + (ops + [op]) == (past + ops) + [op];
        ops := ops + [op];
        k := k + 1;
      }
      if Exactly() { PagesCounted(); }
    }
  }

  datatype Request = Ask(size: nat, paging: Paging) | GiveBack(pointer: nat)

  ghost predicate Answers(r: Request, op: Op) {
    match r
    case Ask(size, _) => op.Alloc? && op.size == size
    case GiveBack(pointer) => op == Release(pointer)
  }

  /** No unmap that the request leads to is refused. */
  ghost predicate Gentle(r: Request) {
    r.Ask? ==> Unmaps(0, HEAP_SIZE / PAGE, r.paging.unmapRefuses)
  }

  lemma WatchNone(w: Watched)
    ensures WatchAll(w, []) == w
  {
  }

  lemma WatchNext(w: Watched, ops: seq<Op>, op: Op)
    ensures WatchAll(w, ops + [op]) == Watch(WatchAll(w, ops), op)
  {
    hide Watch;
    assert (ops + [op])[..|ops|] == ops;
  }

  /** What the statistics see of a call depends on heap and statistics only, and is the step
      that the run takes. */
  lemma WatchIsStep(ops: seq<Op>, v: Watched, w: Watched, op: Op)
    requires v.heap == w.heap == RunOps(ops).heap && v.stats == w.stats
    ensures Watch(v, op).heap == Watch(w, op).heap == RunOps(ops + [op]).heap
    ensures Watch(v, op).stats == Watch(w, op).stats
  {
    hide HeapTable.Allocate, HeapTable.Free, StatsOf;
    assert (ops + [op])[..|ops|] == ops;
  }

  /** One call of the heap as its statistics see it: refreshed by success, kept by refusal. */
  datatype Watched = Watched(heap: Heap, stats: Stats, renewed: bool)

  function Watch(w: Watched, op: Op): Watched {
    var r := match op
      case Alloc(size, grant) => HeapTable.Allocate(w.heap, size, grant)
      case Release(pointer) => HeapTable.Free(w.heap, pointer);
    if r.status == Ok then Watched(r.heap, StatsOf(r.heap.table), true) else Watched(r.heap, w.stats, false)
  }

  function WatchAll(w: Watched, ops: seq<Op>): Watched
    decreases |ops|
  {
    if ops == [] then w else Watch(WatchAll(w, ops[..|ops| - 1]), ops[|ops| - 1])
  }

  /** A refused call never makes the table shorter. */
  lemma RefusalNeverShrinks(h: Heap, op: Op)
    requires ValidHeap(h)
    ensures var r := match op
        case Alloc(size, grant) => HeapTable.Allocate(h, size, grant)
        case Release(pointer) => HeapTable.Free(h, pointer);
      ValidHeap(r.heap) && (r.status != Ok ==> |h.table| <= |r.heap.table|)
  {
    hide HeapTable.Allocate, HeapTable.Free, ValidTable, GrowsThenRefuses;
    match op
    case Alloc(size, grant) =>
      AllocateKeeps(h, size, grant);
      RefusalTrace(h, size, grant);
      RefusalShape(h, size, grant);
      if GrowsThenRefuses(h, size, grant) {
        RefusalTrailing(h, size, grant);
        StatsExtended(h, Growth(h.table, AlignUp(size, ALIGNMENT)));
      }
    case Release(pointer) => FreeKeepsHeap(h, pointer);
  }

  predicate AllRefused(w: Watched, ops: seq<Op>)
    decreases |ops|
  {
    ops == [] || (AllRefused(w, ops[..|ops| - 1]) && !WatchAll(w, ops).renewed)
  }

  /** A count that lags behind stays behind through any further refused calls, and the next
      successful one sets it right. */
  lemma {:induction false} StaleUntilSuccess(w: Watched, ops: seq<Op>, next: Op)
    requires ValidHeap(w.heap) && w.stats.blocks < |w.heap.table| && AllRefused(w, ops)
    ensures var now := WatchAll(w, ops);
      ValidHeap(now.heap) && now.stats == w.stats && now.stats.blocks < |now.heap.table|
    ensures var after := Watch(WatchAll(w, ops), next);
      after.renewed ==> after.stats == StatsOf(after.heap.table)
    decreases |ops|
  {
    hide HeapTable.Allocate, HeapTable.Free, ValidHeap, StatsOf;
    if ops != [] {
      var n := |ops| - 1;
      StaleUntilSuccess(w, ops[..n], next);
      RefusalNeverShrinks(WatchAll(w, ops[..n]).heap, ops[n]);
    }
  }

  /** The refusal that appends a block starts such a stretch. */
  lemma RefusalLags(h: Heap, size: nat, grant: Grant)
    requires ValidHeap(h) && RefusalAppends(h, size, grant)
    ensures StatsOf(h.table).blocks < |HeapTable.Allocate(h, size, grant).heap.table|
  {
    hide HeapTable.Allocate;
    RefusalShape(h, size, grant);
    RefusalTrailing(h, size, grant);
    StatsExtended(h, Growth(h.table, AlignUp(size, ALIGNMENT)));
  }

  lemma RefusalIsRefused(h: Heap, size: nat, grant: Grant)
    requires ValidHeap(h)
    ensures RefusalAppends(h, size, grant) ==> HeapTable.Allocate(h, size, grant).status != Ok
  {
    RefusalTrace(h, size, grant);
  }

  lemma GrantedKeepsNothing(pages: set<nat>, t: set<Node>, frames: nat, lo: nat, hi: nat, paging: Paging)
    requires lo <= hi
    ensures var a := Try(pages, t, frames, lo, hi, paging); a.grant == Granted ==> a.kept == {}
    decreases hi - lo
  {
  }

  lemma ExtendedCommits(h: Heap, growth: nat)
    ensures Extended(h, growth).committed == h.committed + growth
  {
  }
}
