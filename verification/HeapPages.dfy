/** The pages behind the heap window and the page tables over them. The frame allocator
    hands out any free frame, to the heap and to the page tables alike. */
module HeapPages {
  import opened HeapTable
  import opened PageTables

  /** What the rest of paging answers during one call: which maps it refuses outright, which
      unmaps it refuses, and which maps it takes back because the book of supervisor
      mappings is full. */
  datatype Paging = Paging(mapRefuses: nat -> bool, unmapRefuses: nat -> bool, bookFull: nat -> bool)

  ghost function Frames<K(!new)>(m: map<K, nat>): set<nat> {
    set x | x in m :: m[x]
  }

  /** Every frame behind the map or in the set. */
  ghost function AllFrames<K(!new)>(m: map<K, nat>, spare: set<nat>): set<nat> {
    spare + Frames(m)
  }

  /** No frame is used twice, and none is both used and spare. */
  ghost predicate Exclusive<K(!new)>(m: map<K, nat>, spare: set<nat>) {
    && (forall x, y :: x in m && y in m && x != y ==> m[x] != m[y])
    && (forall x :: x in m ==> m[x] !in spare)
  }

  /** What stays mapped when lo..hi is released. */
  ghost function Kept(pages: map<nat, nat>, lo: nat, hi: nat, unmapRefuses: nat -> bool): map<nat, nat> {
    map p | p in pages && (lo <= p < hi ==> unmapRefuses(p)) :: pages[p]
  }

  ghost function Dropped(pages: map<nat, nat>, lo: nat, hi: nat, unmapRefuses: nat -> bool): set<nat> {
    set p | p in pages && lo <= p < hi && !unmapRefuses(p)
  }

  /** How a request for pages went: its answer, the page it got to, having mapped every page
      before that one, and the tables made for a page it then could not map. */
  datatype Attempt = Attempt(grant: Grant, end: nat, kept: set<Node>)

  /** Pages lo..hi with tables t there and so many frames free, page by page: a frame for the
      page, then the map and the tables that takes, then its entry in the book. */
  function Try(pages: set<nat>, t: set<Node>, frames: nat, lo: nat, hi: nat, paging: Paging): Attempt
    requires lo <= hi
    decreases hi - lo
  {
    if lo == hi then Attempt(Granted, lo, {})
    else if frames == 0 then Attempt(NoFrame, lo, {})
    else if lo in pages || paging.mapRefuses(lo) then Attempt(MapRefused, lo, {})
    else if frames - 1 < Missing(t, lo) then Attempt(MapRefused, lo, Make(t, lo, 3, frames - 1) - t)
    else if paging.bookFull(lo) then Attempt(MapRefused, lo + 1, {})
    else Try(pages, t + Path(lo), frames - 1 - Missing(t, lo), lo + 1, hi, paging)
  }

  /** Frames for the pages lo..hi themselves and for the tables they lack. */
  function Needed(t: set<Node>, lo: nat, hi: nat): nat
    requires lo <= hi
  {
    hi - lo + |Paths(Range(lo, hi)) - t|
  }

  lemma NeededNext(t: set<Node>, lo: nat, hi: nat)
    requires lo < hi
    ensures Needed(t, lo, hi) == 1 + Missing(t, lo) + Needed(t + Path(lo), lo + 1, hi)
  {
    hide Path, Paths, Missing;
    PathsNext(Range(lo + 1, hi), lo);
    assert Range(lo + 1, hi) + {lo} == Range(lo, hi);
    var rest := Paths(Range(lo + 1, hi));
    MakeAll(t, lo, 0);
    assert t + Path(lo) == t + (Path(lo) - t);
    assert Paths(Range(lo, hi)) - t == (Path(lo) - t) + (rest - (t + Path(lo)));
  }

  /** Granted exactly when there are frames for the pages and for the tables they lack, and
      no page of the range is refused. */
  lemma {:induction false} GrantedExactly(
    pages: set<nat>, t: set<Node>, frames: nat, lo: nat, hi: nat, paging: Paging)
    requires lo <= hi
    ensures Try(pages, t, frames, lo, hi, paging).grant == Granted <==>
      && Needed(t, lo, hi) <= frames
      && forall q: nat :: lo <= q < hi ==> q !in pages && !paging.mapRefuses(q) && !paging.bookFull(q)
    decreases hi - lo
  {
    hide Path, Paths, Missing, Needed, Make;
    if lo < hi {
      NeededNext(t, lo, hi);
      if Missing(t, lo) < frames {
        GrantedExactly(pages, t + Path(lo), frames - 1 - Missing(t, lo), lo + 1, hi, paging);
      }
    } else {
      NeededNone(t, lo);
    }
  }

  lemma NeededNone(t: set<Node>, lo: nat)
    ensures Needed(t, lo, lo) == 0
  {
    PathsOfNone();
    assert Range(lo, lo) == {};
  }

  /** Page q is reached and not refused, but what is left once it has its own frame makes
      some of the tables it lacks and not all. */
  ghost predicate RunsShort(
    pages: set<nat>, t: set<Node>, frames: nat, lo: nat, hi: nat, paging: Paging, q: nat)
  {
    && lo <= q < hi && q !in pages && !paging.mapRefuses(q)
    && (forall r: nat :: lo <= r < q ==> r !in pages && !paging.mapRefuses(r) && !paging.bookFull(r))
    && Needed(t, lo, q) + 2 <= frames <= Needed(t, lo, q) + Missing(t + Paths(Range(lo, q)), q)
  }

  /** Exactly then are tables kept: all the frames that were left but the page's own. */
  lemma {:induction false} KeptExactly(
    pages: set<nat>, t: set<Node>, frames: nat, lo: nat, hi: nat, paging: Paging, q: nat)
    requires lo <= hi
    ensures var a := Try(pages, t, frames, lo, hi, paging);
      && (RunsShort(pages, t, frames, lo, hi, paging, q) ==>
            a.kept != {} && a.end == q && |a.kept| == frames - Needed(t, lo, q) - 1)
      && (a.kept != {} ==> RunsShort(pages, t, frames, lo, hi, paging, a.end))
    decreases hi - lo
  {
    hide Path, Paths, Missing, Make, Needed;
    NeededNone(t, lo);
    PathsSoFar(t, lo);
    if lo < hi && 0 < frames && lo !in pages && !paging.mapRefuses(lo) {
      if frames <= Missing(t, lo) {
        MadeCount(t, lo, frames - 1);
        if lo < q { LaterNeedsMore(t, lo, q); }
      } else if !paging.bookFull(lo) {
        var rest := frames - 1 - Missing(t, lo);
        KeptExactly(pages, t + Path(lo), rest, lo + 1, hi, paging, q);
        if lo < q { NeededNext(t, lo, q); }
        ShortLater(pages, t, frames, lo, hi, paging, q);
        ShortLater(pages, t, frames, lo, hi, paging, Try(pages, t, frames, lo, hi, paging).end);
      }
    }
  }

  lemma MadeCount(t: set<Node>, p: nat, k: nat)
    requires k < Missing(t, p)
    ensures |Make(t, p, 3, k) - t| == k
  {
    MakeCounts(t, p, 3, k);
    MakeWithin(t, p, 3, k);
    hide Make;
    var made := Make(t, p, 3, k);
    assert made == t + (made - t);
  }

  lemma LaterNeedsMore(t: set<Node>, lo: nat, q: nat)
    requires lo < q
    ensures Needed(t, lo, q) >= 1 + Missing(t, lo)
  {
    NeededNext(t, lo, q);
  }

  /** Running short at a later page is the same once page lo has been mapped. */
  lemma ShortLater(pages: set<nat>, t: set<Node>, frames: nat, lo: nat, hi: nat, paging: Paging, q: nat)
    requires lo < hi && lo !in pages && !paging.mapRefuses(lo) && !paging.bookFull(lo) && Missing(t, lo) < frames
    ensures lo < q ==>
      (RunsShort(pages, t, frames, lo, hi, paging, q) <==>
       RunsShort(pages, t + Path(lo), frames - 1 - Missing(t, lo), lo + 1, hi, paging, q))
    ensures !RunsShort(pages, t, frames, lo, hi, paging, lo)
  {
    hide Path, Paths, Missing, Needed;
    NeededNone(t, lo);
    PathsSoFar(t, lo);
    if lo < q {
      NeededNext(t, lo, q);
      PathsNext(Range(lo + 1, q), lo);
      assert Range(lo, q) == Range(lo + 1, q) + {lo};
      assert t + Paths(Range(lo, q)) == (t + Path(lo)) + Paths(Range(lo + 1, q));
    }
  }

  /** One frame a page exactly when the tables are there already. */
  lemma NeededWithoutTables(t: set<Node>, lo: nat, hi: nat)
    requires lo <= hi
    ensures Needed(t, lo, hi) == hi - lo <==> Paths(Range(lo, hi)) <= t
  {
    hide Paths;
    var lacking := Paths(Range(lo, hi)) - t;
    forall n | n in Paths(Range(lo, hi)) ensures n in t || n in lacking {}
  }

  lemma TryDone(pages: set<nat>, t: set<Node>, frames: nat, p: nat, paging: Paging)
    ensures Try(pages, t, frames, p, p, paging) == Attempt(Granted, p, {})
  {
  }

  lemma TryOne(pages: set<nat>, t: set<Node>, frames: nat, p: nat, paging: Paging)
    ensures Try(pages, t, frames, p, p + 1, paging) ==
      if frames == 0 then Attempt(NoFrame, p, {})
      else if p in pages || paging.mapRefuses(p) then Attempt(MapRefused, p, {})
      else if frames <= Missing(t, p) then Attempt(MapRefused, p, Make(t, p, 3, frames - 1) - t)
      else if paging.bookFull(p) then Attempt(MapRefused, p + 1, {})
      else Attempt(Granted, p + 1, {})
  {
    hide Missing, Make, Path;
    if frames > Missing(t, p) { TryDone(pages, t + Path(p), frames - 1 - Missing(t, p), p + 1, paging); }
  }

  /** The next page decides, and what has been added so far does not matter to it. */
  lemma TryStep(before: map<nat, nat>, now: map<nat, nat>, t: set<Node>, frames: nat,
                lo: nat, p: nat, hi: nat, paging: Paging)
    requires lo <= p < hi && Adds(before, now, lo, p)
    ensures var a := Try(now.Keys, t, frames, p, p + 1, paging);
      Try(before.Keys, t, frames, p, hi, paging) ==
        if a.grant != Granted then a
        else Try(before.Keys, t + Path(p), frames - 1 - Missing(t, p), p + 1, hi, paging)
    ensures p <= Try(now.Keys, t, frames, p, p + 1, paging).end <= p + 1
    ensures Try(now.Keys, t, frames, p, p + 1, paging).grant == Granted ==> Missing(t, p) < frames
  {
    hide Path, Missing, Make;
    if frames > Missing(t, p) {
      TryDone(now.Keys, t + Path(p), frames - 1 - Missing(t, p), p + 1, paging);
    }
  }

  /** The free frames after a refused page: as before when it was refused outright, one when its
      tables ran out. */
  ghost predicate RefusedBooks(
    pages: set<nat>, t: set<Node>, free: set<nat>, p: nat, paging: Paging, after: set<nat>)
  {
    if free == {} || p in pages || paging.mapRefuses(p) then after == free
    else |free| <= Missing(t, p) ==> |after| == 1
  }

  lemma RefusedPage(pages: set<nat>, t: set<Node>, free: set<nat>, p: nat, paging: Paging)
    ensures free == {} || p in pages || paging.mapRefuses(p) ==> RefusedBooks(pages, t, free, p, paging, free)
    ensures free != {} && p !in pages && !paging.mapRefuses(p) ==>
      forall after: set<nat> :: |after| == 1 || Missing(t, p) < |free| ==>
        RefusedBooks(pages, t, free, p, paging, after)
  {
  }

  /** Tables that stayed keep their frames, and new ones have frames that were free. */
  ghost predicate Renewed(before: map<Node, nat>, free: set<nat>, now: map<Node, nat>) {
    forall n :: n in now ==> if n in before then now[n] == before[n] else now[n] in free
  }

  lemma RenewedNone(tables: map<Node, nat>, free: set<nat>)
    ensures Renewed(tables, free, tables)
  {
  }

  lemma RenewedJoin(a: map<Node, nat>, free: set<nat>, b: map<Node, nat>, still: set<nat>, c: map<Node, nat>)
    requires Renewed(a, free, b) && Renewed(b, still, c) && still <= free && a.Keys <= b.Keys
    ensures Renewed(a, free, c)
  {
  }

  class Backing {
    const others: set<Node>        // tables with entries that are not the heap's
    var pages: map<nat, nat>       // page number in the window to physical frame
    var tables: map<Node, nat>     // interior table to physical frame
    var freeFrames: set<nat>       // what the frame allocator can still hand out
    var mappedPages: nat           // the heap's own count

    /** Every frame that is free or a page table. */
    ghost function Spare(): set<nat>
      reads this
    {
      AllFrames(tables, freeFrames)
    }

    ghost predicate Consistent()
      reads this
    {
      && Exclusive(tables, freeFrames) && Exclusive(pages, Spare())
      && mappedPages == |pages|
      && Closed(tables.Keys, pages.Keys) && others <= tables.Keys
    }

    /** Every frame that is free, a page table or behind a heap page. */
    ghost function Owned(): set<nat>
      reads this
    {
      AllFrames(pages, Spare())
    }

    constructor (frames: set<nat>, kernel: map<Node, nat>)
      requires Exclusive(kernel, frames) && Closed(kernel.Keys, {})
      ensures pages == map[] && freeFrames == frames && tables == kernel && mappedPages == 0
      ensures others == kernel.Keys && Consistent()
    {
      others, pages, tables, freeFrames, mappedPages := kernel.Keys, map[], kernel, frames, 0;
    }

    lemma Counted()
      requires Consistent()
      ensures mappedPages == |pages| && Exclusive(pages, Spare()) && Exclusive(tables, freeFrames)
      ensures Owned() == AllFrames(pages, Spare()) && Spare() == AllFrames(tables, freeFrames)
      ensures Closed(tables.Keys, pages.Keys) && others <= tables.Keys
    {
    }

    /** Each frame is one of free, a table or behind a page. */
    lemma OwnedCount()
      requires Consistent()
      ensures |Owned()| == |freeFrames| + |tables| + |pages|
    {
      hide Exclusive, AllFrames, Closed;
      FramesCount(tables, freeFrames);
      FramesCount(pages, Spare());
    }

    /** A free frame becomes table n. */
    method AddTable(n: Node)
      requires Consistent() && n !in tables && freeFrames != {}
      requires 1 <= n.level <= 3 && (n.level < 3 ==> Up(n) in tables)
      modifies this`freeFrames, this`tables
      ensures Consistent() && Owned() == old(Owned()) && Spare() == old(Spare())
      ensures tables.Keys == old(tables.Keys) + {n} && Renewed(old(tables), old(freeFrames), tables)
      ensures |freeFrames| == |old(freeFrames)| - 1 && freeFrames <= old(freeFrames)
    {
      hide AllFrames, Exclusive;
      var frame :| frame in freeFrames;
      Mapped(tables, freeFrames, n, frame);
      freeFrames, tables := freeFrames - {frame}, tables[n := frame];
    }

    /** The tables page p lacks, from the top down, with one frame set aside for the page. */
    method MakeTables(p: nat) returns (ok: bool)
      requires Consistent() && freeFrames != {}
      modifies this`freeFrames, this`tables
      ensures Consistent() && Owned() == old(Owned()) && Spare() == old(Spare())
      ensures tables.Keys == Make(old(tables.Keys), p, 3, |old(freeFrames)| - 1)
      ensures ok <==> Missing(old(tables.Keys), p) < |old(freeFrames)|
      ensures |freeFrames| == (if ok then |old(freeFrames)| - Missing(old(tables.Keys), p) else 1)
      ensures freeFrames != {}
      ensures Renewed(old(tables), old(freeFrames), tables) && freeFrames <= old(freeFrames)
    {
      hide Exclusive, AllFrames, Closed, Path, Consistent, Owned, Spare, Renewed;
      RenewedNone(tables, freeFrames);
      var l := 3;
      while l > 0
        invariant l <= 3 && freeFrames != {}
        invariant Consistent() && Owned() == old(Owned()) && Spare() == old(Spare())
        invariant l < 3 ==> Over(p, l + 1) in tables
        invariant Make(old(tables.Keys), p, 3, |old(freeFrames)| - 1) == Make(tables.Keys, p, l, |freeFrames| - 1)
        invariant Missing(old(tables.Keys), p) - |old(freeFrames)| == Lacks(tables.Keys, p, l) - |freeFrames|
        invariant Renewed(old(tables), old(freeFrames), tables) && freeFrames <= old(freeFrames)
        invariant old(tables.Keys) <= tables.Keys
      {
        ghost var before, free := tables, freeFrames;
        var n := Over(p, l);
        if n !in tables {
          if |freeFrames| == 1 {
            return false;
          }
          LacksHigher(tables.Keys, n, p, l - 1);
          AddTable(n);
          RenewedJoin(old(tables), old(freeFrames), before, free, tables);
        }
        l := l - 1;
      }
      return true;
    }

    /** The frame of table n becomes free. */
    method DropTable(n: Node)
      requires Consistent() && n in tables && n !in others
      requires Empty(tables.Keys, pages.Keys, others, n)
      modifies this`freeFrames, this`tables
      ensures Consistent() && Owned() == old(Owned()) && Spare() == old(Spare())
      ensures tables == old(tables) - {n}
    {
      hide AllFrames, Exclusive, Closed, Empty;
      Unmapped(tables, freeFrames, n);
      ClosedWithout(tables, pages.Keys, others, n);
      var frame := tables[n];
      freeFrames, tables := freeFrames + {frame}, tables - {n};
    }

    /** Give back the tables that the unmapping of p emptied, from the bottom up. */
    method ReclaimTables(p: nat)
      requires Consistent() && Path(p) <= tables.Keys
      modifies this`freeFrames, this`tables
      ensures Consistent() && Owned() == old(Owned()) && Spare() == old(Spare())
      ensures tables.Keys == Reclaim(old(tables.Keys), pages.Keys, others, p, 1)
      ensures forall n :: n in tables ==> n in old(tables) && tables[n] == old(tables)[n]
    {
      hide Exclusive, AllFrames, Closed, Consistent, Owned, Spare;
      var l := 1;
      while l < 4 && Empty(tables.Keys, pages.Keys, others, Over(p, l))
        invariant 1 <= l <= 4
        invariant Consistent() && Owned() == old(Owned()) && Spare() == old(Spare())
        invariant forall j :: l <= j <= 3 ==> Over(p, j) in tables
        invariant Reclaim(old(tables.Keys), pages.Keys, others, p, 1) ==
          Reclaim(tables.Keys, pages.Keys, others, p, l)
        invariant forall n :: n in tables ==> n in old(tables) && tables[n] == old(tables)[n]
      {
        var n := Over(p, l);
        DropTable(n);
        assert tables.Keys == old(tables.Keys) - (old(tables.Keys) - tables.Keys);
        l := l + 1;
      }
    }

    /** Unmap page p, give back the tables that empties, and release its frame. */
    method UnmapPage(p: nat)
      requires Consistent() && p in pages
      modifies this
      ensures Consistent() && Owned() == old(Owned()) && pages == old(pages) - {p}
      ensures tables.Keys == Reclaim(old(tables.Keys), pages.Keys, others, p, 1)
      ensures forall n :: n in tables ==> n in old(tables) && tables[n] == old(tables)[n]
    {
      hide *;
      Counted();
      PathPresent(tables.Keys, pages.Keys, p);
      FreeFrame(p);
      ReclaimTables(p);
    }

    /** The frame behind page p becomes free. */
    method FreeFrame(p: nat)
      requires Consistent() && p in pages
      modifies this`pages, this`freeFrames, this`mappedPages
      ensures Consistent() && Owned() == old(Owned()) && pages == old(pages) - {p}
    {
      hide AllFrames, Exclusive, Closed;
      Unmapped(pages, Spare(), p);
      NotSpare(pages, Spare(), p);
      SpareGrows(tables, freeFrames, pages[p]);
      ClosedFewer(tables.Keys, pages.Keys, p);
      KeysWithout(pages, p);
      var frame := pages[p];
      pages, freeFrames, mappedPages := pages - {p}, freeFrames + {frame}, mappedPages - 1;
    }

    /** Give back every page of the range whose mapping goes. Whatever tables b there had
        been before an earlier sweep, the result is one sweep. */
    method ReleasePages(from: nat, to: nat, paging: Paging, ghost b: set<Node>, ghost s: set<Node>)
      requires Consistent() && from <= to
      requires Closed(b, pages.Keys) && tables.Keys == Swept(b, pages.Keys, others, s)
      modifies this
      ensures Consistent() && Owned() == old(Owned())
      ensures pages == Kept(old(pages), from, to, paging.unmapRefuses)
      ensures tables.Keys ==
        Swept(b, pages.Keys, others, s + Paths(Dropped(old(pages), from, to, paging.unmapRefuses)))
      ensures forall n :: n in tables ==> n in old(tables) && tables[n] == old(tables)[n]
    {
      hide *;
      var p := from;
      KeptNone(pages, from, paging.unmapRefuses);
      DroppedNone(pages, from, paging.unmapRefuses, s);
      while p < to
        invariant from <= p <= to
        invariant Consistent() && Owned() == old(Owned())
        invariant pages == Kept(old(pages), from, p, paging.unmapRefuses)
        invariant Closed(b, pages.Keys)
        invariant tables.Keys ==
          Swept(b, pages.Keys, others, s + Paths(Dropped(old(pages), from, p, paging.unmapRefuses)))
        invariant forall n :: n in tables ==> n in old(tables) && tables[n] == old(tables)[n]
      {
        KeptNext(old(pages), from, p, paging.unmapRefuses);
        DroppedNext(old(pages), from, p, paging.unmapRefuses, s);
        if p in pages && !paging.unmapRefuses(p) {
          ghost var swept := s + Paths(Dropped(old(pages), from, p, paging.unmapRefuses));
          SweepNext(b, pages.Keys, others, swept, p);
          ClosedFewer(b, pages.Keys, p);
          KeysWithout(pages, p);
          UnmapPage(p);
        }
        p := p + 1;
      }
    }

    /** Map any free frame at p. */
    method MapFrame(p: nat)
      requires Consistent() && freeFrames != {} && p !in pages && Path(p) <= tables.Keys
      modifies this`pages, this`freeFrames, this`mappedPages
      ensures Consistent() && Owned() == old(Owned())
      ensures Adds(old(pages), pages, p, p + 1) && |freeFrames| == |old(freeFrames)| - 1
      ensures freeFrames <= old(freeFrames)
    {
      hide AllFrames, Exclusive, Closed, Path;
      var frame :| frame in freeFrames;
      ClosedMore(tables.Keys, pages, p, frame);
      SpareShrinks(tables, freeFrames, frame);
      Mapped(pages, Spare(), p, frame);
      freeFrames, pages, mappedPages := freeFrames - {frame}, pages[p := frame], mappedPages + 1;
    }

    /** Take a frame for page p, map it and enter it in the book. A map that runs out of
        table frames keeps the tables it had made; the page's own frame is released. */
    method CommitPage(p: nat, paging: Paging) returns (grant: Grant)
      requires Consistent()
      modifies this
      ensures Consistent() && Owned() == old(Owned()) && Renewed(old(tables), old(freeFrames), tables)
      ensures grant == Try(old(pages.Keys), old(tables.Keys), |old(freeFrames)|, p, p + 1, paging).grant
      ensures grant == Granted ==>
        && Adds(old(pages), pages, p, p + 1) && tables.Keys == old(tables.Keys) + Path(p)
        && freeFrames <= old(freeFrames)
        && |freeFrames| == |old(freeFrames)| - 1 - Missing(old(tables.Keys), p)
      ensures grant != Granted ==>
        var a := Try(old(pages.Keys), old(tables.Keys), |old(freeFrames)|, p, p + 1, paging);
        && pages == old(pages) && Closed(Peak(old(tables.Keys), p, a.end, a.kept), pages.Keys)
        && tables.Keys == Left(old(tables.Keys), pages.Keys, others, p, a.end, a.kept)
      ensures grant != Granted ==>
        RefusedBooks(old(pages.Keys), old(tables.Keys), old(freeFrames), p, paging, freeFrames)
    {
      hide *;
      ghost var t, frames := tables.Keys, |freeFrames|;
      Counted();
      RefusedPage(pages.Keys, t, freeFrames, p, paging);
      RenewedNone(tables, freeFrames);
      TryOne(pages.Keys, t, frames, p, paging);
      UnsweptLeft(t, pages.Keys, others, p, {});
      if freeFrames == {} {
        return NoFrame;
      }
      if p in pages || paging.mapRefuses(p) {
        return MapRefused;
      }
      var ok := MakeTables(p);
      if !ok {
        Counted();
        MadeLeft(t, pages.Keys, others, p, frames - 1);
        return MapRefused;
      }
      TablesMade(t, p, frames - 1, tables.Keys);
      ghost var made := tables;
      grant := EnterPage(p, paging.bookFull(p), t);
      RenewedFewer(old(tables), old(freeFrames), made, tables);
    }

    /** Map page p, whose tables are there, and take that back when the book is full. */
    method EnterPage(p: nat, full: bool, ghost t: set<Node>) returns (grant: Grant)
      requires Consistent() && freeFrames != {} && p !in pages && tables.Keys == t + Path(p)
      modifies this
      ensures Consistent() && Owned() == old(Owned())
      ensures grant == if full then MapRefused else Granted
      ensures !full ==> Adds(old(pages), pages, p, p + 1) && tables == old(tables)
      ensures !full ==> freeFrames <= old(freeFrames) && |freeFrames| == |old(freeFrames)| - 1
      ensures full ==> pages == old(pages) && Closed(Peak(t, p, p + 1, {}), pages.Keys)
      ensures full ==> tables.Keys == Left(t, pages.Keys, others, p, p + 1, {})
      ensures forall n :: n in tables ==> n in old(tables) && tables[n] == old(tables)[n]
    {
      hide *;
      ghost var before := pages;
      MapFrame(p);
      if !full {
        return Granted;
      }
      Counted();
      TakenBack(t, before, pages, others, p);
      UnmapPage(p);
      return MapRefused;
    }

    /** Map fresh frames over the range, or unmap what this call had mapped. */
    method CommitPages(from: nat, to: nat, paging: Paging) returns (grant: Grant)
      requires Consistent() && from <= to
      modifies this
      ensures Consistent() && Owned() == old(Owned())
      ensures grant == Try(old(pages.Keys), old(tables.Keys), |old(freeFrames)|, from, to, paging).grant
      ensures grant == Granted ==>
        Adds(old(pages), pages, from, to) && tables.Keys == old(tables.Keys) + Paths(Range(from, to))
      ensures grant != Granted ==> Leaves(old(pages), pages, from, to, paging.unmapRefuses)
      ensures grant != Granted && Unmaps(from, to, paging.unmapRefuses) ==>
        var a := Try(old(pages.Keys), old(tables.Keys), |old(freeFrames)|, from, to, paging);
        && pages == old(pages) && mappedPages == old(mappedPages) && Spare() == old(Spare())
        && tables.Keys == Left(old(tables.Keys), pages.Keys, others, from, a.end, a.kept)
        && |freeFrames| + |tables| == |old(freeFrames)| + |old(tables)|
        && (freeFrames == old(freeFrames) <==> Traceless(old(tables.Keys), pages.Keys, others, from, a))
    {
      hide *;
      var p := from;
      ghost var spare := Spare();
      Counted();
      AddsNone(pages, from);
      RenewedNone(tables, freeFrames);
      PathsSoFar(tables.Keys, from);
      while p < to
        invariant from <= p <= to
        invariant Consistent() && Owned() == old(Owned())
        invariant Adds(old(pages), pages, from, p)
        invariant tables.Keys == old(tables.Keys) + Paths(Range(from, p))
        invariant Renewed(old(tables), old(freeFrames), tables) && freeFrames <= old(freeFrames)
        invariant Try(old(pages.Keys), old(tables.Keys), |old(freeFrames)|, from, to, paging)
          == Try(old(pages.Keys), tables.Keys, |freeFrames|, p, to, paging)
      {
        ghost var before, made, free := pages, tables, freeFrames;
        TryStep(old(pages), before, made.Keys, |free|, from, p, to, paging);
        var g := CommitPage(p, paging);
        RenewedJoin(old(tables), old(freeFrames), made, free, tables);
        if g != Granted {
          ghost var a := Try(before.Keys, made.Keys, |free|, p, p + 1, paging);
          ghost var peak := tables;
          Unwind(from, p, to, paging, old(pages), old(tables.Keys), a);
          RenewedFewer(old(tables), old(freeFrames), peak, tables);
          Counted();
          if Unmaps(from, to, paging.unmapRefuses) {
            SpareRestored(pages, spare, Spare());
            TryShape(old(pages.Keys), old(tables.Keys), others, |old(freeFrames)|, from, to, paging);
            NoTrace(old(tables), old(freeFrames), tables, freeFrames, pages.Keys, others, from, a);
          }
          return g;
        }
        AddsJoin(old(pages), before, pages, from, p);
        PathsOneMore(old(tables.Keys), from, p);
        p := p + 1;
      }
      TryDone(old(pages.Keys), tables.Keys, |freeFrames|, p, paging);
      return Granted;
    }

    /** Give back pages from..p, mapped by a call that found the given pages and tables t and
        was refused with a at page p. */
    method Unwind(from: nat, p: nat, to: nat, paging: Paging,
                  ghost found: map<nat, nat>, ghost t: set<Node>, ghost a: Attempt)
      requires Consistent() && from <= p < to && Adds(found, pages, from, p) && p <= a.end <= p + 1
      requires Closed(Peak(t + Paths(Range(from, p)), p, a.end, a.kept), pages.Keys)
      requires tables.Keys == Left(t + Paths(Range(from, p)), pages.Keys, others, p, a.end, a.kept)
      modifies this
      ensures Consistent() && Owned() == old(Owned())
      ensures Leaves(found, pages, from, to, paging.unmapRefuses)
      ensures Unmaps(from, to, paging.unmapRefuses) ==>
        pages == found && tables.Keys == Left(t, found.Keys, others, from, a.end, a.kept)
      ensures forall n :: n in tables ==> n in old(tables) && tables[n] == old(tables)[n]
    {
      hide *;
      ghost var during := pages;
      LeftJoin(t, pages, others, found, from, p, to, a.end, a.kept, paging.unmapRefuses);
      ReleasePages(from, p, paging, Peak(t, from, a.end, a.kept), Paths(Range(p, a.end)));
      Undone(found, during, from, p, to, paging.unmapRefuses);
      NothingLeft(found, pages, from, to, paging.unmapRefuses);
    }
  }

  /** The trace itself: one table of the kernel's above the window, two frames free, two tables
      to make. The map gives up after the first and keeps it, and its frame is gone. */
  method TableKept() returns (backing: Backing, grant: Grant)
    ensures fresh(backing) && grant == MapRefused && backing.pages == map[]
    ensures |backing.freeFrames| == 1 && backing.tables.Keys == {Over(0, 3), Over(0, 2)}
  {
    hide *;
    var kernel := map[Over(0, 3) := 0];
    OneKernelTable(kernel);
    backing := new Backing({1, 2}, kernel);
    var paging := Paging(_ => false, _ => false, _ => false);
    SecondTableShort(kernel.Keys, kernel.Keys, paging);
    grant := backing.CommitPages(0, 1, paging);
  }

  lemma OneKernelTable(kernel: map<Node, nat>)
    requires kernel == map[Over(0, 3) := 0]
    ensures Exclusive(kernel, {1, 2}) && Closed(kernel.Keys, {}) && kernel.Keys == {Over(0, 3)}
  {
    hide Over;
  }

  lemma SecondTableShort(t: set<Node>, others: set<Node>, paging: Paging)
    requires t == {Over(0, 3)} && !paging.mapRefuses(0) && !paging.unmapRefuses(0)
    ensures Try({}, t, 2, 0, 1, paging) == Attempt(MapRefused, 0, {Over(0, 2)})
    ensures Left(t, {}, others, 0, 0, {Over(0, 2)}) == {Over(0, 3), Over(0, 2)}
    ensures |{1, 2}| == 2 && |t| == 1 && |{Over(0, 3), Over(0, 2)}| == 2
    ensures Unmaps(0, 1, paging.unmapRefuses)
  {
    hide Over, Swept, Paths;
    assert Lacks(t, 0, 0) == 0;
    assert Missing(t, 0) == 2;
    assert Make(t, 0, 3, 1) == Make(t, 0, 2, 1) == Make(t + {Over(0, 2)}, 0, 1, 0) == t + {Over(0, 2)};
    assert t + {Over(0, 2)} - t == {Over(0, 2)};
    TryOne({}, t, 2, 0, paging);
    UnsweptLeft(t, {}, others, 0, {Over(0, 2)});
  }

  /** The other trace: a table left empty like that is swept by a later refused request that
      got further, whose frames are then more than before. */
  lemma EmptyTableSwept(t: set<Node>, others: set<Node>, paging: Paging)
    requires t == {Over(0, 3), Over(0, 2)} && others == {Over(0, 3)}
    requires !paging.mapRefuses(0) && !paging.bookFull(0)
    ensures Try({}, t, 2, 0, 2, paging) == Attempt(NoFrame, 1, {})
    ensures Left(t, {}, others, 0, 1, {}) == {Over(0, 3)}
  {
    hide Over;
    assert Lacks(t, 0, 0) == 0 && Lacks(t, 0, 1) == 1;
    assert Missing(t, 0) == 1;
    assert Range(0, 1) == {} + {0};
    PathsOfNone();
    PathsNext({}, 0);
    TryOne({}, t + Path(0), 0, 1, paging);
    var b := Peak(t, 0, 1, {});
    assert b == Path(0) && Paths(Range(0, 1)) == Path(0);
    assert Bare(b, {}, others, Path(0), Over(0, 1));
    assert Bare(b, {}, others, Path(0), Over(0, 2));
  }

  /** The tables at the height of an attempt that mapped lo..end and made k besides, and what
      unmapping those pages leaves. */
  ghost function Peak(t: set<Node>, lo: nat, end: nat, k: set<Node>): set<Node> {
    t + Paths(Range(lo, end)) + k
  }

  ghost function Left(t: set<Node>, pages: set<nat>, others: set<Node>, lo: nat, end: nat, k: set<Node>): set<Node> {
    Swept(Peak(t, lo, end, k), pages, others, Paths(Range(lo, end)))
  }

  /** A page refused before anything of it was mapped. */
  lemma UnsweptLeft(t: set<Node>, pages: set<nat>, others: set<Node>, p: nat, k: set<Node>)
    ensures Left(t, pages, others, p, p, k) == Peak(t, p, p, k) == t + k
    ensures t + {} == t
  {
    hide Swept, Paths;
    assert Range(p, p) == {};
    PathsOfNone();
    assert t + {} + k == t + k;
    SweptNothing(t + k, pages, others);
  }

  lemma MadeLeft(t: set<Node>, pages: set<nat>, others: set<Node>, p: nat, k: nat)
    ensures Left(t, pages, others, p, p, Make(t, p, 3, k) - t) == Make(t, p, 3, k)
    ensures Peak(t, p, p, Make(t, p, 3, k) - t) == Make(t, p, 3, k)
  {
    hide Swept, Paths, Make, Path;
    MakeWithin(t, p, 3, k);
    UnsweptLeft(t, pages, others, p, Make(t, p, 3, k) - t);
    assert t + (Make(t, p, 3, k) - t) == Make(t, p, 3, k);
  }

  lemma TablesMade(t: set<Node>, p: nat, k: nat, now: set<Node>)
    requires Missing(t, p) <= k && now == Make(t, p, 3, k)
    ensures now == t + Path(p)
  {
    MakeAll(t, p, k);
  }

  /** A page mapped and taken back is a page swept. */
  lemma TakenBack(t: set<Node>, before: map<nat, nat>, now: map<nat, nat>, others: set<Node>, p: nat)
    requires Adds(before, now, p, p + 1) && Closed(t + Path(p), now.Keys)
    ensures p in now && now - {p} == before && Closed(t + Path(p), before.Keys)
    ensures Left(t, before.Keys, others, p, p + 1, {}) == Reclaim(t + Path(p), before.Keys, others, p, 1)
    ensures Peak(t, p, p + 1, {}) == t + Path(p)
  {
    hide Swept, Paths, Path, Reclaim;
    assert now - {p} == before;
    assert now.Keys - {p} == before.Keys;
    assert Range(p, p + 1) == {} + {p};
    PathsOfNone();
    PathsNext({}, p);
    SweptNothing(t + Path(p), now.Keys, others);
    SweepNext(t + Path(p), now.Keys, others, {}, p);
    assert {} + Path(p) == Path(p) && t + Path(p) + {} == t + Path(p);
  }

  lemma PathsSoFar(t: set<Node>, lo: nat)
    ensures t + Paths(Range(lo, lo)) == t
  {
    PathsOfNone();
    assert Range(lo, lo) == {};
  }

  lemma PathsOneMore(t: set<Node>, lo: nat, p: nat)
    requires lo <= p
    ensures t + Paths(Range(lo, p)) + Path(p) == t + Paths(Range(lo, p + 1))
  {
    hide Paths, Path;
    PathsNext(Range(lo, p), p);
    assert Range(lo, p + 1) == Range(lo, p) + {p};
  }

  /** The sweep of the refused page and that of the pages before it are one. */
  lemma LeftJoin(t: set<Node>, during: map<nat, nat>, others: set<Node>, found: map<nat, nat>,
                 lo: nat, p: nat, hi: nat, end: nat, k: set<Node>, unmapRefuses: nat -> bool)
    requires lo <= p < hi && p <= end <= p + 1 && Adds(found, during, lo, p)
    ensures Peak(t + Paths(Range(lo, p)), p, end, k) == Peak(t, lo, end, k)
    ensures Left(t + Paths(Range(lo, p)), during.Keys, others, p, end, k) ==
      Swept(Peak(t, lo, end, k), during.Keys, others, Paths(Range(p, end)))
    ensures Unmaps(lo, hi, unmapRefuses) ==>
      Paths(Range(p, end)) + Paths(Dropped(during, lo, p, unmapRefuses)) == Paths(Range(lo, end))
    ensures Left(t, found.Keys, others, lo, end, k) ==
      Swept(Peak(t, lo, end, k), found.Keys, others, Paths(Range(lo, end)))
  {
    hide Paths, Path, Swept;
    PathsJoin(lo, p, end);
    if Unmaps(lo, hi, unmapRefuses) {
      assert Dropped(during, lo, p, unmapRefuses) == Range(lo, p);
    }
  }

  lemma PathsJoin(lo: nat, p: nat, end: nat)
    requires lo <= p <= end <= p + 1
    ensures Paths(Range(lo, end)) == Paths(Range(lo, p)) + Paths(Range(p, end))
  {
    hide Paths, Path;
    PathsOfNone();
    if end == p {
      assert Range(p, end) == {};
    } else {
      assert Range(lo, end) == Range(lo, p) + {p} && Range(p, end) == {} + {p};
      PathsNext(Range(lo, p), p);
      PathsNext({}, p);
    }
  }

  lemma NothingLeft(before: map<nat, nat>, after: map<nat, nat>, lo: nat, hi: nat, unmapRefuses: nat -> bool)
    requires Leaves(before, after, lo, hi, unmapRefuses)
    ensures Unmaps(lo, hi, unmapRefuses) ==> after == before
  {
    if Unmaps(lo, hi, unmapRefuses) { assert forall p :: p in after ==> p in before; }
  }

  lemma RenewedFewer(a: map<Node, nat>, free: set<nat>, b: map<Node, nat>, c: map<Node, nat>)
    requires Renewed(a, free, b) && forall n :: n in c ==> n in b && c[n] == b[n]
    ensures Renewed(a, free, c)
  {
  }

  lemma NotSpare<K(!new)>(m: map<K, nat>, spare: set<nat>, x: K)
    requires x in m && Exclusive(m, spare)
    ensures m[x] !in spare
  {
  }

  lemma SpareGrows<K(!new)>(m: map<K, nat>, free: set<nat>, frame: nat)
    requires Exclusive(m, free) && frame !in AllFrames(m, free)
    ensures Exclusive(m, free + {frame}) && AllFrames(m, free + {frame}) == AllFrames(m, free) + {frame}
  {
    forall x | x in m ensures m[x] != frame { assert m[x] in Frames(m); }
  }

  lemma SpareShrinks<K(!new)>(m: map<K, nat>, free: set<nat>, frame: nat)
    requires Exclusive(m, free) && frame in free
    ensures Exclusive(m, free - {frame}) && AllFrames(m, free - {frame}) == AllFrames(m, free) - {frame}
    ensures frame in AllFrames(m, free)
  {
    assert frame !in Frames(m);
  }

  lemma KeysWithout(pages: map<nat, nat>, p: nat)
    ensures (pages - {p}).Keys == pages.Keys - {p}
  {
  }

  lemma ClosedWithout(tables: map<Node, nat>, pages: set<nat>, others: set<Node>, n: Node)
    requires Closed(tables.Keys, pages) && Empty(tables.Keys, pages, others, n)
    ensures Closed((tables - {n}).Keys, pages) && (tables - {n}).Keys == tables.Keys - {n} && n !in others
  {
  }

  lemma ClosedMore(t: set<Node>, pages: map<nat, nat>, p: nat, frame: nat)
    requires Closed(t, pages.Keys) && Path(p) <= t
    ensures Closed(t, pages[p := frame].Keys)
  {
  }

  lemma ClosedFewer(t: set<Node>, pages: set<nat>, p: nat)
    requires Closed(t, pages)
    ensures Closed(t, pages - {p})
  {
  }

  lemma DroppedNone(pages: map<nat, nat>, lo: nat, unmapRefuses: nat -> bool, s: set<Node>)
    ensures s + Paths(Dropped(pages, lo, lo, unmapRefuses)) == s
  {
    PathsOfNone();
    assert Dropped(pages, lo, lo, unmapRefuses) == {};
  }

  lemma DroppedNext(pages: map<nat, nat>, lo: nat, p: nat, unmapRefuses: nat -> bool, s: set<Node>)
    requires lo <= p
    ensures s + Paths(Dropped(pages, lo, p + 1, unmapRefuses)) ==
      if p in Kept(pages, lo, p, unmapRefuses) && !unmapRefuses(p)
      then s + Paths(Dropped(pages, lo, p, unmapRefuses)) + Path(p)
      else s + Paths(Dropped(pages, lo, p, unmapRefuses))
  {
    hide Path, Paths;
    var next := Dropped(pages, lo, p + 1, unmapRefuses);
    if p in pages && !unmapRefuses(p) {
      PathsNext(Dropped(pages, lo, p, unmapRefuses), p);
      assert next == Dropped(pages, lo, p, unmapRefuses) + {p};
    } else {
      assert next == Dropped(pages, lo, p, unmapRefuses);
    }
  }

  /** New mappings over exactly lo..hi, none there before, and nothing else. */
  ghost predicate Adds(before: map<nat, nat>, after: map<nat, nat>, lo: nat, hi: nat) {
    && (forall p :: p in before ==> p in after && after[p] == before[p] && !(lo <= p < hi))
    && (forall p :: p in after <==> p in before || lo <= p < hi)
  }

  /** A failed commit leaves only pages whose unmap was refused. */
  ghost predicate Leaves(before: map<nat, nat>, after: map<nat, nat>, lo: nat, hi: nat, unmapRefuses: nat -> bool) {
    && (forall p :: p in before ==> p in after && after[p] == before[p])
    && (forall p :: p in after && p !in before ==> lo <= p < hi && unmapRefuses(p))
  }

  ghost predicate Unmaps(lo: nat, hi: nat, unmapRefuses: nat -> bool) {
    forall p: nat :: lo <= p < hi ==> !unmapRefuses(p)
  }

  /** A refused attempt from page lo on leaves no trace among the frames: it made no table for
      a page it could not map, and unmapped no page below a table that held nothing else. */
  ghost predicate Traceless(t: set<Node>, pages: set<nat>, others: set<Node>, lo: nat, a: Attempt) {
    a.kept == {} && forall n :: n in t ==> !Bare(t, pages, others, Paths(Range(lo, a.end)), n)
  }

  /** Once the pages are unmapped, exactly then are the free frames what they were. */
  lemma NoTrace(before: map<Node, nat>, free: set<nat>, now: map<Node, nat>, free': set<nat>,
                pages: set<nat>, others: set<Node>, lo: nat, a: Attempt)
    requires Exclusive(before, free) && Exclusive(now, free') && AllFrames(before, free) == AllFrames(now, free')
    requires Renewed(before, free, now) && now.Keys == Left(before.Keys, pages, others, lo, a.end, a.kept)
    requires Refused(before.Keys, pages, others, Paths(Range(lo, a.end)), a.end, a.kept)
    ensures |free'| + |now| == |free| + |before|
    ensures free' == free <==> Traceless(before.Keys, pages, others, lo, a)
  {
    hide Swept, Bare, Paths, Refused, Exclusive, AllFrames, Renewed;
    FramesCount(before, free);
    FramesCount(now, free');
    TracelessExactly(before.Keys, pages, others, Paths(Range(lo, a.end)), a.end, a.kept);
    FreeByTables(before, free, now, free');
  }

  /** Where every table held something, nothing is left but what was made for the refused page
      and the tables above that; so no trace is left exactly when no table was kept. */
  lemma TidyTrace(pages: set<nat>, t: set<Node>, others: set<Node>, frames: nat, lo: nat, hi: nat, paging: Paging)
    requires lo <= hi && Closed(t, pages) && others <= t && Tidy(t, pages, others)
    ensures var a := Try(pages, t, frames, lo, hi, paging);
      && Left(t, pages, others, lo, a.end, a.kept) == t + Trail(a.end, a.kept)
      && (Traceless(t, pages, others, lo, a) <==> a.kept == {})
      && (Tidy(Left(t, pages, others, lo, a.end, a.kept), pages, others) <==> a.kept == {})
  {
    hide Swept, Bare, Held, Paths, Make, Lacks, Try, Closed;
    var a := Try(pages, t, frames, lo, hi, paging);
    var s := Paths(Range(lo, a.end));
    TryShape(pages, t, others, frames, lo, hi, paging);
    TidyLeaves(t, pages, others, s, a.end, a.kept);
    KeptIsUntidy(t, pages, others, s, a.end, a.kept);
    forall n | n in t ensures !Bare(t, pages, others, s, n) { HeldNotBare(t, t, pages, others, s, n); }
  }

  /** A granted request keeps every table holding something. */
  lemma {:induction false} TidyGranted(t: set<Node>, pages: set<nat>, others: set<Node>, lo: nat, hi: nat)
    requires lo <= hi && Closed(t, pages) && Tidy(t, pages, others)
    ensures Tidy(t + Paths(Range(lo, hi)), pages + Range(lo, hi), others)
    ensures Closed(t + Paths(Range(lo, hi)), pages + Range(lo, hi))
    decreases hi
  {
    hide Paths, Path, Tidy, Closed;
    PathsSoFar(t, lo);
    if lo == hi {
      assert pages + Range(lo, hi) == pages;
    } else {
      TidyGranted(t, pages, others, lo, hi - 1);
      var b, d := t + Paths(Range(lo, hi - 1)), pages + Range(lo, hi - 1);
      TidyGrows(b, d, others, hi - 1);
      ClosedGrows(b, d, hi - 1);
      PathsOneMore(t, lo, hi - 1);
      assert pages + Range(lo, hi) == d + {hi - 1};
    }
  }

  lemma ClosedGrows(t: set<Node>, pages: set<nat>, p: nat)
    requires Closed(t, pages)
    ensures Closed(t + Path(p), pages + {p})
  {
    ClosedPath(t, pages, p);
    OnPath(p, 1);
  }

  /** The free frames are the same exactly when the tables are. */
  lemma FreeByTables(before: map<Node, nat>, free: set<nat>, now: map<Node, nat>, free': set<nat>)
    requires Exclusive(before, free) && Exclusive(now, free') && AllFrames(before, free) == AllFrames(now, free')
    requires Renewed(before, free, now)
    ensures free' == free <==> now.Keys == before.Keys
  {
    if now.Keys == before.Keys {
      assert now == before;
      assert free == AllFrames(before, free) - Frames(before);
      assert free' == AllFrames(now, free') - Frames(now);
    }
    if free' == free {
      assert now.Keys <= before.Keys;
      forall n | n in before ensures n in now {
        assert before[n] in AllFrames(now, free');
        var m :| m in now && now[m] == before[n];
        assert now[m] == before[m];
      }
    }
  }

  lemma {:induction false} FramesCount<K(!new)>(m: map<K, nat>, spare: set<nat>)
    requires Exclusive(m, spare)
    ensures |AllFrames(m, spare)| == |m| + |spare|
    decreases |m|
  {
    if m == map[] {
      assert Frames(m) == {};
    } else {
      var x :| x in m;
      Unmapped(m, spare, x);
      NotSpare(m, spare, x);
      hide AllFrames, Exclusive;
      FramesCount(m - {x}, spare + {m[x]});
    }
  }

  lemma SpareRestored(pages: map<nat, nat>, f: set<nat>, g: set<nat>)
    requires Exclusive(pages, f) && Exclusive(pages, g) && AllFrames(pages, f) == AllFrames(pages, g)
    ensures f == g
  {
    assert f == AllFrames(pages, f) - Frames(pages);
    assert g == AllFrames(pages, g) - Frames(pages);
  }

  /** Where an attempt from page lo on ended, and what it can have kept. */
  lemma {:induction false} TryShape(
    pages: set<nat>, t: set<Node>, others: set<Node>, frames: nat, lo: nat, hi: nat, paging: Paging)
    requires lo <= hi && Closed(t, pages) && others <= t
    ensures var a := Try(pages, t, frames, lo, hi, paging);
      lo <= a.end <= hi && Refused(t, pages, others, Paths(Range(lo, a.end)), a.end, a.kept)
    decreases hi - lo
  {
    hide Path, Paths, Make, Lacks, Closed;
    var a := Try(pages, t, frames, lo, hi, paging);
    PathsSoFar(t, lo);
    if lo == hi || frames == 0 || lo in pages || paging.mapRefuses(lo) {
      RefusedPlain(t, pages, others, lo);
    } else if frames - 1 < Missing(t, lo) {
      RefusedShort(t, pages, others, lo, frames - 1);
    } else {
      ClosedPath(t, pages, lo);
      if paging.bookFull(lo) {
        PathsJoin(lo, lo, lo + 1);
        RefusedPlain(t + Path(lo), pages, others, lo + 1);
        RefusedNext(t, pages, others, lo, lo + 1, {});
      } else {
        TryShape(pages, t + Path(lo), others, frames - 1 - Missing(t, lo), lo + 1, hi, paging);
        RefusedNext(t, pages, others, lo, a.end, a.kept);
      }
    }
  }

  lemma RefusedPlain(t: set<Node>, pages: set<nat>, others: set<Node>, p: nat)
    requires Closed(t, pages) && others <= t
    ensures Refused(t, pages, others, Paths(Range(p, p)), p, {})
  {
    assert Range(p, p) == {};
    PathsOfNone();
    assert t + {} + {} == t;
  }

  lemma RefusedShort(t: set<Node>, pages: set<nat>, others: set<Node>, p: nat, k: nat)
    requires Closed(t, pages) && others <= t
    ensures Refused(t, pages, others, Paths(Range(p, p)), p, Make(t, p, 3, k) - t)
  {
    hide Make, Path;
    assert Range(p, p) == {};
    PathsOfNone();
    MakeWithin(t, p, 3, k);
    MakeCloses(t, pages, p, 3, k);
    assert t + {} + (Make(t, p, 3, k) - t) == Make(t, p, 3, k);
  }

  lemma ClosedPath(t: set<Node>, pages: set<nat>, p: nat)
    requires Closed(t, pages)
    ensures Closed(t + Path(p), pages)
  {
    MakeCloses(t, pages, p, 3, Missing(t, p));
    MakeAll(t, p, Missing(t, p));
  }

  lemma RefusedNext(t: set<Node>, pages: set<nat>, others: set<Node>, lo: nat, end: nat, k: set<Node>)
    requires lo < end && Closed(t, pages) && others <= t
    requires Refused(t + Path(lo), pages, others, Paths(Range(lo + 1, end)), end, k)
    ensures Refused(t, pages, others, Paths(Range(lo, end)), end, k)
  {
    hide Path, Paths, Closed;
    PathsNext(Range(lo + 1, end), lo);
    assert Range(lo, end) == Range(lo + 1, end) + {lo};
    assert t + Paths(Range(lo, end)) == (t + Path(lo)) + Paths(Range(lo + 1, end));
  }

  lemma AddsNone(pages: map<nat, nat>, lo: nat)
    ensures Adds(pages, pages, lo, lo)
  {
  }

  lemma AddsJoin(a: map<nat, nat>, b: map<nat, nat>, c: map<nat, nat>, lo: nat, p: nat)
    requires lo <= p && Adds(a, b, lo, p) && Adds(b, c, p, p + 1)
    ensures Adds(a, c, lo, p + 1)
  {
  }

  lemma KeptNone(pages: map<nat, nat>, lo: nat, unmapRefuses: nat -> bool)
    ensures pages == Kept(pages, lo, lo, unmapRefuses)
  {
  }

  lemma KeptNext(pages: map<nat, nat>, lo: nat, p: nat, unmapRefuses: nat -> bool)
    requires lo <= p
    ensures Kept(pages, lo, p + 1, unmapRefuses) ==
      if unmapRefuses(p) then Kept(pages, lo, p, unmapRefuses) else Kept(pages, lo, p, unmapRefuses) - {p}
  {
  }

  lemma Undone(before: map<nat, nat>, during: map<nat, nat>, lo: nat, p: nat, hi: nat, unmapRefuses: nat -> bool)
    requires lo <= p <= hi && Adds(before, during, lo, p)
    ensures Leaves(before, Kept(during, lo, p, unmapRefuses), lo, hi, unmapRefuses)
  {
  }

  lemma FramesWithout<K(!new)>(m: map<K, nat>, x: K)
    requires x in m
    ensures Frames(m) == Frames(m - {x}) + {m[x]}
    ensures |m| == |m - {x}| + 1
  {
    var rest := m - {x};
    assert rest[x := m[x]] == m;
    forall f | f in Frames(m) ensures f in Frames(rest) + {m[x]} {
      var y :| y in m && m[y] == f;
      if y != x { assert y in rest; }
    }
    forall f | f in Frames(rest) ensures f in Frames(m) {
      var y :| y in rest && rest[y] == f;
      assert y in m;
    }
  }

  lemma Unmapped<K(!new)>(m: map<K, nat>, spare: set<nat>, x: K)
    requires x in m && Exclusive(m, spare)
    ensures Exclusive(m - {x}, spare + {m[x]})
    ensures |m| == |m - {x}| + 1
    ensures AllFrames(m - {x}, spare + {m[x]}) == AllFrames(m, spare)
  {
    FramesWithout(m, x);
    hide Frames;
  }

  lemma Mapped<K(!new)>(m: map<K, nat>, spare: set<nat>, x: K, frame: nat)
    requires x !in m && frame in spare && Exclusive(m, spare)
    ensures Exclusive(m[x := frame], spare - {frame})
    ensures |m[x := frame]| == |m| + 1
    ensures AllFrames(m[x := frame], spare - {frame}) == AllFrames(m, spare)
  {
    var after := m[x := frame];
    assert after - {x} == m;
    FramesWithout(after, x);
  }
}
