/** When each heap operation answers what, said of the blocks of the table alone. */
module HeapAnswers {
  import opened Architecture
  import opened Seqs
  import opened HeapTable
  import opened HeapRuns

  /** k is the least multiple of unit that is not below size. */
  predicate RoundsTo(size: int, unit: nat, k: int)
    requires unit > 0
  {
    k % unit == 0 && size <= k < size + unit
  }

  /** Block i is the first free one that holds size bytes. */
  ghost predicate FirstFits(t: seq<Block>, size: nat, i: nat) {
    && i < |t| && !t[i].used && t[i].size >= size
    && forall j :: 0 <= j < i ==> t[j].used || t[j].size < size
  }

  ghost predicate NothingFits(t: seq<Block>, size: nat) {
    forall j :: 0 <= j < |t| ==> t[j].used || t[j].size < size
  }

  /** The free bytes at the end of the committed region. */
  function FreeEnd(t: seq<Block>): nat {
    if t != [] && !t[|t| - 1].used then t[|t| - 1].size else 0
  }

  /** k bytes at the offset are now one used block, of a heap that committed so much. */
  ghost predicate Hands(r: Reply, offset: nat, k: nat, committed: nat) {
    && r.status == Ok && r.pointer == 0x4_0000_0000 + offset && r.heap.committed == committed
    && Block(offset, k, true) in r.heap.table
  }

  ghost predicate RefusedWith(r: Reply, h: Heap, status: Status) {
    r == Reply(h, status, 0)
  }

  /** An allocation served from the table: the first block that fits is used up, or split
      if there is a slot for the rest. */
  ghost predicate AnswersFit(h: Heap, i: nat, k: nat, r: Reply)
    requires i < |h.table|
  {
    if h.table[i].size == k || |h.table| < 256 then Hands(r, h.table[i].offset, k, h.committed)
    else RefusedWith(r, h, OutOfBlocks)
  }

  /** An allocation that needs g more bytes: what is refused, in order, and where it is served. */
  ghost predicate AnswersGrowth(h: Heap, k: nat, g: nat, grant: Grant, r: Reply) {
    var end := FreeEnd(h.table);
    var slots := |h.table| + if end > 0 then 0 else 1;
    if h.committed + g > 0x100_0000 then RefusedWith(r, h, OutOfMemory)
    else if slots > 256 then RefusedWith(r, h, OutOfBlocks)
    else if grant == NoFrame then RefusedWith(r, h, OutOfMemory)
    else if grant == MapRefused then RefusedWith(r, h, MappingFailure)
    else if end + g == k || slots < 256 then end <= h.committed && Hands(r, h.committed - end, k, h.committed + g)
    else r.status == OutOfBlocks && r.pointer == 0 && r.heap.committed == h.committed + g
  }

  // ----- rounding -----

  lemma Rounded(size: nat, unit: nat, k: nat)
    requires unit == ALIGNMENT || unit == PAGE
    requires RoundsTo(size, unit, k)
    ensures AlignUp(size, unit) == k
  {
    AlignUpBounds(size, unit);
    hide AlignUp;
    SameMultiple(AlignUp(size, unit), k, unit);
  }

  lemma SameMultiple(a: nat, b: nat, unit: nat)
    requires (unit == 16 || unit == 4096) && a % unit == 0 && b % unit == 0 && a < b + unit && b < a + unit
    ensures a == b
  {
    if unit == 16 { assert a / 16 == b / 16; } else { assert a / 4096 == b / 4096; }
  }

  /** A block of whole units holds size bytes exactly when it holds them rounded up. */
  lemma FitsRounded(have: nat, size: nat, k: nat)
    requires have % 16 == 0 && RoundsTo(size, 16, k)
    ensures have >= size <==> have >= k
    ensures have >= k && have - k < 16 ==> have == k
  {
  }

  lemma BlockUnits(h: Heap, i: nat)
    requires ValidHeap(h) && i < |h.table|
    ensures h.table[i].size > 0 && h.table[i].size % 16 == 0
    ensures h.table[i].offset + h.table[i].size <= h.committed
  {
    hide Chain;
    BlockInside(h.table, 0, h.committed, i);
  }

  // ----- where a request is served -----

  lemma CarveHands(h: Heap, i: nat, k: nat)
    requires i < |h.table| && k <= h.table[i].size && h.table[i].size % 16 == 0 && k % 16 == 0
    requires |h.table| <= MAX_BLOCKS
    ensures AnswersFit(h, i, k, Carve(h, i, k))
  {
    var r := Carve(h, i, k);
    if r.status == Ok {
      assert r.heap.table[i] == Block(h.table[i].offset, k, true);
    }
  }

  lemma TableAnswers(h: Heap, size: nat, grant: Grant, k: nat, i: nat)
    requires ValidHeap(h) && 0 < size <= HEAP_SIZE && RoundsTo(size, 16, k) && FirstFits(h.table, size, i)
    ensures AnswersFit(h, i, k, Allocate(h, size, grant))
  {
    hide Chain, Coalesced, Carve, AnswersFit, AlignUp;
    Rounded(size, ALIGNMENT, k);
    BlockUnits(h, i);
    FitsRounded(h.table[i].size, size, k);
    FitInRange(h.table, k, 0);
    forall j: nat | j < |h.table| ensures h.table[j].size >= size <==> h.table[j].size >= k {
      BlockUnits(h, j);
      FitsRounded(h.table[j].size, size, k);
    }
    assert !RequestRefused(size);
    CarveHands(h, i, k);
  }

  lemma GrowthAnswers(h: Heap, size: nat, grant: Grant, k: nat, g: nat)
    requires ValidHeap(h) && 0 < size <= HEAP_SIZE && RoundsTo(size, 16, k) && NothingFits(h.table, size)
    requires RoundsTo(k - FreeEnd(h.table), 4096, g)
    ensures AnswersGrowth(h, k, g, grant, Allocate(h, size, grant))
  {
    hide Chain, Coalesced, AlignUp;
    Rounded(size, ALIGNMENT, k);
    FitInRange(h.table, k, 0);
    forall j: nat | j < |h.table| ensures h.table[j].size >= size <==> h.table[j].size >= k {
      BlockUnits(h, j);
      FitsRounded(h.table[j].size, size, k);
    }
    assert !RequestRefused(size);
    NoFitTrailing(h.table, k);
    assert Trailing(h.table) == FreeEnd(h.table);
    Rounded(k - FreeEnd(h.table), PAGE, g);
    GrownAnswers(h, k, g, grant);
  }

  /** The last block ends where the committed region does. */
  lemma LastEnds(h: Heap)
    requires ValidHeap(h) && h.table != []
    ensures var b := h.table[|h.table| - 1]; b.offset + b.size == h.committed && b.size > 0 && b.size % 16 == 0
  {
    hide Coalesced;
    var n := |h.table| - 1;
    var at := ChainCut(h.table, 0, h.committed, n);
    assert h.table[n..] == [h.table[n]];
    assert h.table[n..][1..] == [];
  }

  /** Growth leaves its bytes at the end, together with what was free there. */
  lemma GrownEnd(h: Heap, g: nat)
    requires ValidHeap(h)
    ensures var e := Extended(h, g); var end := FreeEnd(h.table);
      && e.committed == h.committed + g && end <= h.committed && end % 16 == 0
      && |e.table| == |h.table| + (if end > 0 then 0 else 1)
      && e.table[|e.table| - 1] == Block(h.committed - end, end + g, false)
      && (end > 0 <==> ExtendsLast(h.table)) && end == Trailing(h.table)
  {
    hide ValidHeap;
    if h.table != [] { LastEnds(h); }
  }

  lemma GrownAnswers(h: Heap, k: nat, g: nat, grant: Grant)
    requires ValidHeap(h) && k % 16 == 0 && Trailing(h.table) <= k && Growth(h.table, k) == g && g % 4096 == 0
    ensures var grown := Grow(h, k, grant);
      AnswersGrowth(h, k, g, grant,
        if grown.status != Ok then grown else GrownFits(h, k); Carve(grown.heap, |grown.heap.table| - 1, k))
  {
    hide Chain, Coalesced, AlignUp, Extended, Carve, Growth, FreeEnd, ExtendsLast, Trailing;
    GrownEnd(h, g);
    GrownFits(h, k);
    var grown := Grow(h, k, grant);
    if grown.status == Ok {
      var e := Extended(h, g);
      assert (FreeEnd(h.table) + g) % 16 == 0;
      CarveHands(e, |e.table| - 1, k);
      CarveRefuses(e, |e.table| - 1, k);
    }
  }

  lemma CarveRefuses(h: Heap, i: nat, k: nat)
    requires i < |h.table| && k <= h.table[i].size
    ensures Carve(h, i, k).status != Ok ==> Carve(h, i, k) == Reply(h, OutOfBlocks, 0)
  {
  }

  // ----- the answers -----

  /** heap_allocate, of any valid heap and request: refused outright exactly when empty or larger
      than the window; otherwise served from the first block that fits, or from growth when none
      does, as a block of the least whole number of units that holds the request. */
  lemma AllocateExactly(h: Heap, size: nat, grant: Grant, k: nat)
    requires ValidHeap(h) && RoundsTo(size, 16, k)
    ensures var r := Allocate(h, size, grant);
      && (r.status == ZeroSize <==> size == 0) && (r.status == TooLarge <==> size > 0x100_0000)
      && (size == 0 || size > 0x100_0000 ==> r.heap == h && r.pointer == 0)
      && (0 < size <= 0x100_0000 ==>
            && (forall i: nat :: FirstFits(h.table, size, i) ==> AnswersFit(h, i, k, r))
            && (NothingFits(h.table, size) ==>
                  forall g: nat :: RoundsTo(k - FreeEnd(h.table), 4096, g) ==> AnswersGrowth(h, k, g, grant, r)))
  {
    hide Chain, Coalesced, Allocate, AnswersFit, AnswersGrowth, AlignUp, NothingFits;
    OutrightAnswers(h, size, grant, k);
    if 0 < size <= HEAP_SIZE {
      forall i: nat | FirstFits(h.table, size, i) ensures AnswersFit(h, i, k, Allocate(h, size, grant)) {
        TableAnswers(h, size, grant, k, i);
      }
      if NothingFits(h.table, size) {
        forall g: nat | RoundsTo(k - FreeEnd(h.table), 4096, g)
          ensures AnswersGrowth(h, k, g, grant, Allocate(h, size, grant))
        {
          GrowthAnswers(h, size, grant, k, g);
        }
      }
    }
  }

  /** One of the two always applies. */
  lemma {:induction false} SomeFitsOrNone(t: seq<Block>, size: nat)
    ensures NothingFits(t, size) <==> !exists i: nat :: FirstFits(t, size, i)
  {
    FitInRange(t, size, 0);
    hide FirstFit;
    match FirstFit(t, size, 0)
    case Some(i) => assert FirstFits(t, size, i);
    case None =>
  }

  lemma OutrightAnswers(h: Heap, size: nat, grant: Grant, k: nat)
    requires RoundsTo(size, 16, k)
    ensures var r := Allocate(h, size, grant);
      && (r.status == ZeroSize <==> size == 0) && (r.status == TooLarge <==> size > 0x100_0000)
      && (size == 0 || size > 0x100_0000 ==> r.heap == h && r.pointer == 0)
  {
    hide AlignUp, FirstFit, Extended;
    Rounded(size, ALIGNMENT, k);
  }

  ghost predicate StartsBlock(t: seq<Block>, pointer: nat, used: bool) {
    exists i :: 0 <= i < |t| && 0x4_0000_0000 + t[i].offset == pointer && t[i].used == used
  }

  /** heap_free, of any valid heap and pointer: the four answers apart, by what starts there. */
  lemma FreeExactly(h: Heap, pointer: nat)
    requires ValidHeap(h)
    ensures var r := Free(h, pointer);
      && (r.status == NullArgument <==> pointer == 0)
      && (r.status == Ok <==> StartsBlock(h.table, pointer, true))
      && (r.status == DoubleFree <==> StartsBlock(h.table, pointer, false))
      && (r.status == BadPointer <==>
            pointer != 0 && !StartsBlock(h.table, pointer, true) && !StartsBlock(h.table, pointer, false))
      && (r.status != Ok ==> r.heap == h) && r.pointer == 0
  {
    hide Chain, Coalesced, FreeBlock, FindOffset;
    forall i: nat | i < |h.table|
      ensures h.table[i].offset < h.committed && FindOffset(h.table, h.table[i].offset, 0) == Some(i)
    {
      BlockUnits(h, i);
      FindsBlock(h.table, h.committed, i);
    }
    if pointer >= HEAP_BASE { FoundInRange(h.table, pointer - HEAP_BASE, 0); }
  }
}
