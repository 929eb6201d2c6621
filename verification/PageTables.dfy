/** The interior page tables over the heap window, as the set of those that exist. A table
    is known by its level and the address bits above it: level 1 holds pages, level 3 hangs
    off the root, which is always there. */
module PageTables {
  import opened Architecture
  import opened HeapTable

  const ENTRIES: nat := 512

  datatype Node = Node(level: nat, index: nat)

  /** The table that holds the entry for n. */
  function Up(n: Node): Node {
    Node(n.level + 1, n.index / ENTRIES)
  }

  /** The node of a level on the way down to page p of the window; level 0 is the page. */
  function Over(p: nat, level: nat): (n: Node)
    ensures n.level == level
  {
    if level == 0 then Node(0, HEAP_BASE / PAGE + p) else Up(Over(p, level - 1))
  }

  /** A table and its slot are the address bits that the walk indexes by. */
  lemma SlotsFollowAddress(p: nat)
    ensures var address := HEAP_BASE + p * PAGE;
      && Over(p, 0).index % ENTRIES == address / 0x1000 % ENTRIES
      && Over(p, 1).index % ENTRIES == address / 0x20_0000 % ENTRIES
      && Over(p, 2).index % ENTRIES == address / 0x4000_0000 % ENTRIES
      && Over(p, 3).index == address / 0x80_0000_0000
  {
    var address := HEAP_BASE + p * PAGE;
    assert Over(p, 0).index == address / 0x1000;
    assert Over(p, 1).index == address / 0x1000 / 512;
    assert Over(p, 2).index == address / 0x1000 / 512 / 512;
    assert Over(p, 3).index == address / 0x1000 / 512 / 512 / 512;
  }

  function Path(p: nat): set<Node> {
    {Over(p, 1), Over(p, 2), Over(p, 3)}
  }

  /** The tables above any of the pages d. */
  function Paths(d: set<nat>): set<Node> {
    set p, l | p in d && l in {1, 2, 3} :: Over(p, l)
  }

  /** The pages lo..hi. */
  function Range(lo: nat, hi: nat): (r: set<nat>)
    ensures forall p :: p in r <==> lo <= p < hi
    decreases hi
  {
    if hi <= lo then {} else Range(lo, hi - 1) + {hi - 1}
  }

  /** Every table but the top ones hangs in a table, and every page does. */
  ghost predicate Closed(t: set<Node>, pages: set<nat>) {
    && (forall n :: n in t ==> 1 <= n.level <= 3)
    && (forall n :: n in t && n.level < 3 ==> Up(n) in t)
    && (forall p :: p in pages ==> Over(p, 1) in t)
  }

  lemma PathPresent(t: set<Node>, pages: set<nat>, p: nat)
    requires Closed(t, pages) && p in pages
    ensures Path(p) <= t
  {
    assert Over(p, 2) == Up(Over(p, 1)) && Over(p, 3) == Up(Over(p, 2));
  }

  lemma PathsNext(d: set<nat>, p: nat)
    ensures Paths(d + {p}) == Paths(d) + Path(p)
  {
    assert 1 in {1, 2, 3} && 2 in {1, 2, 3} && 3 in {1, 2, 3};
    forall n | n in Path(p) ensures n in Paths(d + {p}) {
      var l :| l in {1, 2, 3} && Over(p, l) == n;
      assert p in d + {p};
    }
    forall n | n in Paths(d) ensures n in Paths(d + {p}) {
      var q, l :| q in d && l in {1, 2, 3} && Over(q, l) == n;
      assert q in d + {p};
    }
  }

  lemma PathsOfNone()
    ensures Paths({}) == {}
  {
  }

  // Making the tables of a page, from the top down.

  /** The tables once those of p from level l down are made with k frames. */
  function Make(t: set<Node>, p: nat, l: nat, k: nat): set<Node>
    decreases l
  {
    if l == 0 then t
    else if Over(p, l) in t then Make(t, p, l - 1, k)
    else if k == 0 then t
    else Make(t + {Over(p, l)}, p, l - 1, k - 1)
  }

  /** How many tables p lacks from level l down. */
  function Lacks(t: set<Node>, p: nat, l: nat): nat
    decreases l
  {
    if l == 0 then 0 else Lacks(t, p, l - 1) + if Over(p, l) in t then 0 else 1
  }

  function Missing(t: set<Node>, p: nat): nat {
    Lacks(t, p, 3)
  }

  /** Tables of other levels do not matter. */
  lemma {:induction false} LacksHigher(t: set<Node>, n: Node, p: nat, l: nat)
    requires l < n.level
    ensures Lacks(t + {n}, p, l) == Lacks(t, p, l)
    decreases l
  {
    if l > 0 { LacksHigher(t, n, p, l - 1); }
  }

  /** Made tables lie on the path. */
  lemma {:induction false} MakeWithin(t: set<Node>, p: nat, l: nat, k: nat)
    requires l <= 3
    ensures t <= Make(t, p, l, k) <= t + Path(p)
    decreases l
  {
    if l > 0 {
      OnPath(p, l);
      var n := Over(p, l);
      hide Over, Path;
      if n in t {
        MakeWithin(t, p, l - 1, k);
      } else if k > 0 {
        MakeWithin(t + {n}, p, l - 1, k - 1);
        assert (t + {n}) + Path(p) == t + Path(p);
      }
    }
  }

  /** And they are as many as there were frames for. */
  lemma {:induction false} MakeCounts(t: set<Node>, p: nat, l: nat, k: nat)
    ensures |Make(t, p, l, k)| == |t| + if Lacks(t, p, l) <= k then Lacks(t, p, l) else k
    decreases l
  {
    hide Make, Lacks, Over;
    MakeNext(t, p, l, k);
    if l > 0 {
      var n := Over(p, l);
      if n in t {
        MakeCounts(t, p, l - 1, k);
      } else if k > 0 {
        MakeCounts(t + {n}, p, l - 1, k - 1);
      }
    }
  }

  /** One level down. */
  lemma MakeNext(t: set<Node>, p: nat, l: nat, k: nat)
    ensures l == 0 ==> Make(t, p, l, k) == t && Lacks(t, p, l) == 0
    ensures l > 0 && Over(p, l) in t ==>
      Make(t, p, l, k) == Make(t, p, l - 1, k) && Lacks(t, p, l) == Lacks(t, p, l - 1)
    ensures l > 0 && Over(p, l) !in t ==> var u := t + {Over(p, l)};
      && |u| == |t| + 1 && Lacks(t, p, l) == Lacks(u, p, l - 1) + 1
      && Make(t, p, l, k) == if k == 0 then t else Make(u, p, l - 1, k - 1)
  {
    if l > 0 { LacksHigher(t, Over(p, l), p, l - 1); }
  }

  lemma OnPath(p: nat, l: nat)
    requires 1 <= l <= 3
    ensures Over(p, l) in Path(p) && (l < 3 ==> Up(Over(p, l)) in Path(p))
  {
  }

  lemma {:induction false} MakeReaches(t: set<Node>, p: nat, l: nat, k: nat, j: nat)
    requires 1 <= j <= l <= 3 && Lacks(t, p, l) <= k
    ensures Over(p, j) in Make(t, p, l, k)
    decreases l
  {
    hide Over;
    var n := Over(p, l);
    var k' := if n in t then k else k - 1;
    if n !in t { LacksHigher(t, n, p, l - 1); }
    if j < l { MakeReaches(t + {n}, p, l - 1, k', j); } else { MakeWithin(t + {n}, p, l - 1, k'); }
    if n in t { assert t + {n} == t; }
  }

  /** With frames enough the whole path is there. */
  lemma MakeAll(t: set<Node>, p: nat, k: nat)
    ensures Missing(t, p) <= k ==> Make(t, p, 3, k) == t + Path(p)
    ensures |t + Path(p)| == |t| + Missing(t, p)
  {
    WholePath(t, p, Missing(t, p));
    if Missing(t, p) <= k { WholePath(t, p, k); }
    MakeCounts(t, p, 3, Missing(t, p));
  }

  lemma WholePath(t: set<Node>, p: nat, k: nat)
    requires Missing(t, p) <= k
    ensures Make(t, p, 3, k) == t + Path(p)
  {
    hide Over, Make, Lacks;
    MakeWithin(t, p, 3, k);
    MakeReaches(t, p, 3, k, 1);
    MakeReaches(t, p, 3, k, 2);
    MakeReaches(t, p, 3, k, 3);
  }

  /** Each made table hangs in one that is there. */
  lemma {:induction false} MakeCloses(t: set<Node>, pages: set<nat>, p: nat, l: nat, k: nat)
    requires l <= 3 && Closed(t, pages) && (l < 3 ==> Over(p, l + 1) in t)
    ensures Closed(Make(t, p, l, k), pages)
    decreases l
  {
    if l > 0 {
      var n := Over(p, l);
      assert Up(n) == Over(p, l + 1);
      if n in t {
        MakeCloses(t, pages, p, l - 1, k);
      } else if k > 0 {
        MakeCloses(t + {n}, pages, p, l - 1, k - 1);
      }
    }
  }

  // Reclaiming tables, from the bottom up, once page p is unmapped.

  /** Nothing hangs in table n, neither a page of the heap nor a table nor anything else. */
  predicate Empty(t: set<Node>, pages: set<nat>, others: set<Node>, n: Node) {
    && n !in others
    && (forall p | p in pages :: Over(p, 1) != n)
    && (forall m | m in t :: Up(m) != n)
  }

  function Reclaim(t: set<Node>, pages: set<nat>, others: set<Node>, p: nat, l: nat): set<Node>
    requires l <= 4
    decreases 4 - l
  {
    if l == 4 || !Empty(t, pages, others, Over(p, l)) then t
    else Reclaim(t - {Over(p, l)}, pages, others, p, l + 1)
  }

  /** Among the tables b, everything below n lies on swept paths s and holds nothing. */
  ghost predicate Bare(b: set<Node>, pages: set<nat>, others: set<Node>, s: set<Node>, n: Node)
    decreases n.level
  {
    && n in s && n !in others
    && (forall p :: p in pages ==> Over(p, 1) != n)
    && (forall m :: m in b && Up(m) == n ==> Bare(b, pages, others, s, m))
  }

  /** What is left of b once the pages on paths s have been unmapped, in any order. */
  ghost function Swept(b: set<Node>, pages: set<nat>, others: set<Node>, s: set<Node>): set<Node> {
    set n | n in b && !Bare(b, pages, others, s, n)
  }

  lemma SweptNothing(b: set<Node>, pages: set<nat>, others: set<Node>)
    ensures Swept(b, pages, others, {}) == b
  {
  }

  /** Off the path of p, unmapping it makes no table bare. */
  lemma {:induction false} BareOffPath(
    b: set<Node>, pages: set<nat>, others: set<Node>, s: set<Node>, p: nat, n: Node)
    requires 1 <= n.level <= 3 && n !in Path(p)
    requires forall m :: m in b ==> m.level >= 1
    ensures Bare(b, pages - {p}, others, s + Path(p), n) <==> Bare(b, pages, others, s, n)
    decreases n.level
  {
    forall m | m in b && Up(m) == n
      ensures Bare(b, pages - {p}, others, s + Path(p), m) <==> Bare(b, pages, others, s, m)
    {
      assert m !in Path(p);
      BareOffPath(b, pages, others, s, p, m);
    }
  }

  /** On the path of a mapped page no table is bare. */
  lemma {:induction false} PathNotBare(
    b: set<Node>, pages: set<nat>, others: set<Node>, s: set<Node>, p: nat, l: nat)
    requires p in pages && Path(p) <= b && 1 <= l <= 3
    ensures !Bare(b, pages, others, s, Over(p, l))
    decreases l
  {
    if l > 1 {
      PathNotBare(b, pages, others, s, p, l - 1);
      assert Over(p, l - 1) in Path(p) && Up(Over(p, l - 1)) == Over(p, l);
    }
  }

  /** A table holding one that is not bare is not bare. */
  lemma {:induction false} BareDown(
    b: set<Node>, pages: set<nat>, others: set<Node>, s: set<Node>, p: nat, l: nat, j: nat)
    requires Path(p) <= b && 1 <= l <= j <= 3 && !Bare(b, pages, others, s, Over(p, l))
    ensures !Bare(b, pages, others, s, Over(p, j))
    decreases j
  {
    if l < j {
      BareDown(b, pages, others, s, p, l, j - 1);
      assert Over(p, j - 1) in Path(p) && Up(Over(p, j - 1)) == Over(p, j);
    }
  }

  /** Where the climb stands after giving back the tables of p below level l. */
  ghost predicate Climbing(
    b: set<Node>, pages: set<nat>, others: set<Node>, s: set<Node>, p: nat, l: nat, r: set<Node>)
  {
    && (forall n :: n in r <==> n in Swept(b, pages, others, s) && !(n in Path(p) && n.level < l))
    && (forall n :: n in Path(p) && n.level < l ==> Bare(b, pages - {p}, others, s + Path(p), n))
  }

  /** The next table up is empty exactly when it is bare. */
  lemma EmptyIsBare(
    b: set<Node>, pages: set<nat>, others: set<Node>, s: set<Node>, p: nat, l: nat, r: set<Node>)
    requires Closed(b, pages) && p in pages && 1 <= l <= 3
    requires Climbing(b, pages, others, s, p, l, r)
    ensures Empty(r, pages - {p}, others, Over(p, l)) <==> Bare(b, pages - {p}, others, s + Path(p), Over(p, l))
  {
    var n := Over(p, l);
    PathPresent(b, pages, p);
    assert n in s + Path(p);
    forall m | m in b && Up(m) == n
      ensures m !in r <==> Bare(b, pages - {p}, others, s + Path(p), m)
    {
      if m in Path(p) {
        assert m.level < l;
      } else {
        BareOffPath(b, pages, others, s, p, m);
      }
    }
    assert r <= b;
  }

  /** The climb ends with what sweeping p as well leaves. */
  lemma {:induction false} ReclaimClimbs(
    b: set<Node>, pages: set<nat>, others: set<Node>, s: set<Node>, p: nat, l: nat, r: set<Node>)
    requires Closed(b, pages) && p in pages && 1 <= l <= 4
    requires Climbing(b, pages, others, s, p, l, r)
    ensures Reclaim(r, pages - {p}, others, p, l) == Swept(b, pages - {p}, others, s + Path(p))
    decreases 4 - l
  {
    hide Bare, Empty;
    if l < 4 { EmptyIsBare(b, pages, others, s, p, l, r); }
    if l < 4 && Empty(r, pages - {p}, others, Over(p, l)) {
      ReclaimClimbs(b, pages, others, s, p, l + 1, r - {Over(p, l)});
    } else {
      ClimbEnds(b, pages, others, s, p, l, r);
    }
  }

  lemma ClimbEnds(
    b: set<Node>, pages: set<nat>, others: set<Node>, s: set<Node>, p: nat, l: nat, r: set<Node>)
    requires Closed(b, pages) && p in pages && 1 <= l <= 4
    requires Climbing(b, pages, others, s, p, l, r)
    requires l < 4 ==> !Bare(b, pages - {p}, others, s + Path(p), Over(p, l))
    ensures r == Swept(b, pages - {p}, others, s + Path(p))
  {
    PathPresent(b, pages, p);
    hide Bare;
    forall n | n in b
      ensures n in r <==> !Bare(b, pages - {p}, others, s + Path(p), n)
    {
      if n !in Path(p) {
        BareOffPath(b, pages, others, s, p, n);
      } else {
        PathNotBare(b, pages, others, s, p, n.level);
        if l <= n.level { BareDown(b, pages - {p}, others, s + Path(p), p, l, n.level); }
      }
    }
  }

  /** Unmapping one more page and reclaiming its path is sweeping one more path: the order
      of the pages does not matter. */
  lemma SweepNext(b: set<Node>, pages: set<nat>, others: set<Node>, s: set<Node>, p: nat)
    requires Closed(b, pages) && p in pages
    ensures Reclaim(Swept(b, pages, others, s), pages - {p}, others, p, 1) ==
      Swept(b, pages - {p}, others, s + Path(p))
  {
    ReclaimClimbs(b, pages, others, s, p, 1, Swept(b, pages, others, s));
  }

  /** Sweeping keeps what hangs below hanging. */
  lemma {:induction false} ReclaimCloses(t: set<Node>, pages: set<nat>, others: set<Node>, p: nat, l: nat)
    requires Closed(t, pages) && 1 <= l <= 4 && others <= t
    ensures Closed(Reclaim(t, pages, others, p, l), pages)
    ensures others <= Reclaim(t, pages, others, p, l) <= t
    decreases 4 - l
  {
    if l < 4 && Empty(t, pages, others, Over(p, l)) {
      ReclaimCloses(t - {Over(p, l)}, pages, others, p, l + 1);
    }
  }

  // What a refused request leaves behind: tables t before it, the paths s of the pages it
  // had mapped and now unmaps, and the tables k it made for a page it could not map.

  /** Something hangs below n, by way of the tables t. */
  ghost predicate Held(t: set<Node>, pages: set<nat>, others: set<Node>, n: Node)
    decreases n.level
  {
    || n in others
    || (exists p :: p in pages && Over(p, 1) == n)
    || (exists m :: m in t && Up(m) == n && Held(t, pages, others, m))
  }

  /** No table is there for nothing. */
  ghost predicate Tidy(t: set<Node>, pages: set<nat>, others: set<Node>) {
    forall n :: n in t ==> Held(t, pages, others, n)
  }

  /** The tables of p from the lowest of k up. */
  ghost function Trail(p: nat, k: set<Node>): set<Node> {
    set n | n in Path(p) && exists m :: m in k && m.level <= n.level
  }

  ghost predicate Refused(t: set<Node>, pages: set<nat>, others: set<Node>, s: set<Node>, p: nat, k: set<Node>) {
    && Closed(t, pages) && others <= t && Closed(t + s + k, {})
    && k <= Path(p) && k !! t + s
  }

  lemma {:induction false} HeldNotBare(
    t: set<Node>, b: set<Node>, pages: set<nat>, others: set<Node>, s: set<Node>, n: Node)
    requires t <= b && Held(t, pages, others, n)
    ensures !Bare(b, pages, others, s, n)
    decreases n.level
  {
    if n !in others && !(exists p :: p in pages && Over(p, 1) == n) {
      var m :| m in t && Up(m) == n && Held(t, pages, others, m);
      HeldNotBare(t, b, pages, others, s, m);
    }
  }

  /** A table that was not there before, and is not above one of k, is bare. */
  lemma {:induction false} NewIsBare(
    t: set<Node>, pages: set<nat>, others: set<Node>, s: set<Node>, p: nat, k: set<Node>, n: Node)
    requires Refused(t, pages, others, s, p, k) && n in s && n !in t && n !in Trail(p, k)
    ensures Bare(t + s + k, pages, others, s, n)
    decreases n.level
  {
    var b := t + s + k;
    assert n in b;
    forall m | m in b && Up(m) == n ensures Bare(b, pages, others, s, m) {
      assert m !in t;
      assert m !in Trail(p, k) && m !in k;
      NewIsBare(t, pages, others, s, p, k, m);
    }
  }

  /** With nothing kept, an old table is bare among the new ones exactly when it was. */
  lemma {:induction false} OldIsBare(
    t: set<Node>, pages: set<nat>, others: set<Node>, s: set<Node>, p: nat, n: Node)
    requires Refused(t, pages, others, s, p, {}) && n in t
    ensures Bare(t + s + {}, pages, others, s, n) <==> Bare(t, pages, others, s, n)
    decreases n.level
  {
    var b := t + s + {};
    forall m | m in b && Up(m) == n
      ensures if m in t then Bare(b, pages, others, s, m) <==> Bare(t, pages, others, s, m)
              else Bare(b, pages, others, s, m)
    {
      if m in t { OldIsBare(t, pages, others, s, p, m); } else { NewIsBare(t, pages, others, s, p, {}, m); }
    }
  }

  /** A refused request leaves the tables exactly as they were if and only if it made none
      for a page it could not map, and no table that already held nothing was swept. */
  lemma TracelessExactly(
    t: set<Node>, pages: set<nat>, others: set<Node>, s: set<Node>, p: nat, k: set<Node>)
    requires Refused(t, pages, others, s, p, k)
    ensures Swept(t + s + k, pages, others, s) == t <==>
      k == {} && forall n :: n in t ==> !Bare(t, pages, others, s, n)
  {
    var b := t + s + k;
    if k == {} {
      forall n | n in b ensures n in t || Bare(b, pages, others, s, n) {
        if n !in t { NewIsBare(t, pages, others, s, p, {}, n); }
      }
      forall n | n in t ensures Bare(b, pages, others, s, n) <==> Bare(t, pages, others, s, n) {
        OldIsBare(t, pages, others, s, p, n);
      }
    } else {
      var n :| n in k;
      assert n in Swept(b, pages, others, s);
    }
  }

  /** The tables above one that is kept are kept. */
  lemma {:induction false} TrailNotBare(
    t: set<Node>, pages: set<nat>, others: set<Node>, s: set<Node>, p: nat, k: set<Node>, l: nat)
    requires Refused(t, pages, others, s, p, k) && 1 <= l <= 3 && Over(p, l) in Trail(p, k)
    ensures Over(p, l) in t + s + k && !Bare(t + s + k, pages, others, s, Over(p, l))
    decreases l
  {
    if Over(p, l) !in k {
      var m :| m in k && m.level <= l;
      assert m.level < l && m == Over(p, m.level);
      assert Over(p, l - 1) in Path(p);
      TrailNotBare(t, pages, others, s, p, k, l - 1);
      assert Up(Over(p, l - 1)) == Over(p, l);
    }
  }

  /** From a tidy state, it leaves the tables it made for the page and those above them. */
  lemma TidyLeaves(
    t: set<Node>, pages: set<nat>, others: set<Node>, s: set<Node>, p: nat, k: set<Node>)
    requires Refused(t, pages, others, s, p, k) && Tidy(t, pages, others)
    ensures Swept(t + s + k, pages, others, s) == t + Trail(p, k)
  {
    var b := t + s + k;
    forall n | n in t ensures !Bare(b, pages, others, s, n) { HeldNotBare(t, b, pages, others, s, n); }
    forall n | n in Trail(p, k) ensures n in b && !Bare(b, pages, others, s, n) {
      assert n == Over(p, n.level);
      TrailNotBare(t, pages, others, s, p, k, n.level);
    }
    forall n | n in b && n !in t && n !in Trail(p, k) ensures Bare(b, pages, others, s, n) {
      assert n !in k;
      NewIsBare(t, pages, others, s, p, k, n);
    }
  }

  /** Tables made for pages that stay mapped hold them. */
  lemma TidyGrows(t: set<Node>, pages: set<nat>, others: set<Node>, p: nat)
    requires Tidy(t, pages, others) && Closed(t, pages)
    ensures Tidy(t + Path(p), pages + {p}, others)
  {
    hide Held;
    forall n | n in t + Path(p) ensures Held(t + Path(p), pages + {p}, others, n) {
      if n in t {
        HeldStays(t, t + Path(p), pages, pages + {p}, others, n);
      } else {
        PathHeld(t + Path(p), pages + {p}, others, p, n.level);
      }
    }
  }

  lemma {:induction false} HeldStays(
    t: set<Node>, b: set<Node>, pages: set<nat>, more: set<nat>, others: set<Node>, n: Node)
    requires t <= b && pages <= more && Held(t, pages, others, n)
    ensures Held(b, more, others, n)
    decreases n.level
  {
    if n !in others && !(exists p :: p in pages && Over(p, 1) == n) {
      var m :| m in t && Up(m) == n && Held(t, pages, others, m);
      HeldStays(t, b, pages, more, others, m);
    }
  }

  lemma {:induction false} PathHeld(t: set<Node>, pages: set<nat>, others: set<Node>, p: nat, l: nat)
    requires p in pages && Path(p) <= t && 1 <= l <= 3
    ensures Held(t, pages, others, Over(p, l))
    decreases l
  {
    if l > 1 {
      PathHeld(t, pages, others, p, l - 1);
      OnPath(p, l - 1);
      assert Up(Over(p, l - 1)) == Over(p, l);
    }
  }

  /** A kept table holds nothing: the state is tidy again exactly when nothing was kept. */
  lemma KeptIsUntidy(
    t: set<Node>, pages: set<nat>, others: set<Node>, s: set<Node>, p: nat, k: set<Node>)
    requires Refused(t, pages, others, s, p, k) && Tidy(t, pages, others)
    ensures Tidy(t + Trail(p, k), pages, others) <==> k == {}
  {
    if k == {} {
      assert t + Trail(p, k) == t;
    } else {
      var n := Lowest(k);
      assert n in Trail(p, k);
      assert !Held(t + Trail(p, k), pages, others, n);
    }
  }

  lemma {:induction false} Lowest(k: set<Node>) returns (n: Node)
    requires k != {}
    ensures n in k && forall m :: m in k ==> n.level <= m.level
    decreases |k|
  {
    n :| n in k;
    if k != {n} {
      var m := Lowest(k - {n});
      if m.level < n.level { n := m; }
    }
  }
}
