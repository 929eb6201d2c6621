/** The ordering theory behind the boot plan: a finite dependency graph whose
    nodes carry a (phase, stable id) key, the greedy selection of the least ready
    node, and what that selection means. Nothing here mentions descriptors. */
module Scheduling {
  import opened Seqs

  datatype Key = Key(phase: nat, id: nat)

  /** The planner's preference: lower phase, then lower stable id. */
  predicate Before(a: Key, b: Key) {
    a.phase < b.phase || (a.phase == b.phase && a.id < b.id)
  }

  /** needs[i] is the set of nodes that must come before node i. */
  datatype Graph = Graph(needs: seq<set<nat>>, keys: seq<Key>)

  ghost predicate WellFormed(g: Graph) {
    && |g.needs| == |g.keys|
    && (forall i, j :: 0 <= i < |g.needs| && j in g.needs[i] ==> j < |g.needs|)
    && Distinct(g.keys)
  }

  ghost predicate Ready(g: Graph, done: seq<nat>, i: nat) {
    && i < |g.needs|
    && i !in done
    && forall j :: j in g.needs[i] ==> j in done
  }

  /** A partial schedule: no node twice, each after everything it needs. */
  ghost predicate Legal(g: Graph, o: seq<nat>) {
    && Distinct(o)
    && (forall k :: 0 <= k < |o| ==> o[k] < |g.needs|)
    && (forall k, j :: 0 <= k < |o| && j in g.needs[o[k]] ==> j in o[..k])
  }

  /** A schedule: every node exactly once, each after everything it needs. */
  ghost predicate Schedule(g: Graph, o: seq<nat>) {
    Legal(g, o) && |o| == |g.needs|
  }

  /** Node i is the least ready node once `done` has been placed. */
  ghost predicate Chosen(g: Graph, done: seq<nat>, i: nat)
    requires WellFormed(g)
  {
    && Ready(g, done, i)
    && forall j: nat :: Ready(g, done, j) && j != i ==> Before(g.keys[i], g.keys[j])
  }

  /** o was produced by always taking the least ready node. */
  ghost predicate Greedy(g: Graph, o: seq<nat>)
    requires WellFormed(g)
  {
    forall k :: 0 <= k < |o| ==> Chosen(g, o[..k], o[k])
  }

  ghost predicate Stuck(g: Graph, o: seq<nat>) {
    forall i: nat :: !Ready(g, o, i)
  }

  /** A chain of dependencies: each node needs the next. */
  ghost predicate Walk(g: Graph, w: seq<nat>) {
    && |w| > 0
    && (forall k :: 0 <= k < |w| ==> w[k] < |g.needs|)
    && (forall k :: 0 <= k < |w| - 1 ==> w[k + 1] in g.needs[w[k]])
  }

  ghost predicate Cycle(g: Graph, w: seq<nat>) {
    Walk(g, w) && |w| >= 2 && w[0] == w[|w| - 1]
  }

  ghost predicate Cyclic(g: Graph) {
    exists w :: Cycle(g, w)
  }

  ghost predicate LeadsIntoCycle(g: Graph, i: nat, w: seq<nat>) {
    Walk(g, w) && w[0] == i && !Distinct(w)
  }

  /** Node i depends, directly or not, on a cycle (possibly through itself). */
  ghost predicate Doomed(g: Graph, i: nat) {
    exists w :: LeadsIntoCycle(g, i, w)
  }

  // ----- greedy orders are schedules, and the least ones -----

  lemma ExtendGreedy(g: Graph, o: seq<nat>, i: nat)
    requires WellFormed(g) && Greedy(g, o) && Chosen(g, o, i)
    ensures Greedy(g, o + [i])
  {
    var e := o + [i];
    forall k | 0 <= k < |e| ensures Chosen(g, e[..k], e[k]) {
      assert e[..k] == o[..k];
      if k == |o| { assert o[..k] == o; }
    }
  }

  lemma GreedyShape(g: Graph, o: seq<nat>)
    requires WellFormed(g) && Greedy(g, o)
    ensures Legal(g, o) && |o| <= |g.needs|
  {
    forall k | 0 <= k < |o|
      ensures o[k] < |g.needs| && forall j :: j in g.needs[o[k]] ==> j in o[..k]
    {
      assert Chosen(g, o[..k], o[k]);
    }
    forall i, j | 0 <= i < j < |o| ensures o[i] != o[j] {
      assert Chosen(g, o[..j], o[j]);
      assert o[i] in o[..j];
    }
    DistinctBound(o, |g.needs|);
  }

  /** Position k is the first place where two orders differ, and a has the lesser key there. */
  ghost predicate LessAt(g: Graph, a: seq<nat>, b: seq<nat>, k: nat)
    requires WellFormed(g)
  {
    && k < |a| && k < |b|
    && a[..k] == b[..k]
    && a[k] < |g.keys| && b[k] < |g.keys|
    && Before(g.keys[a[k]], g.keys[b[k]])
  }

  /** Canonical order optimality: the complete greedy order is a schedule, and
      every other schedule is lexicographically greater under (phase, id). */
  lemma GreedyIsLeast(g: Graph, o: seq<nat>, t: seq<nat>)
    requires WellFormed(g) && Greedy(g, o) && |o| == |g.needs|
    requires Schedule(g, t)
    ensures Schedule(g, o)
    ensures t != o ==> exists k :: LessAt(g, o, t, k)
  {
    GreedyShape(g, o);
    if t != o {
      var k := FirstDifference(o, t);
      assert Chosen(g, o[..k], o[k]);
      assert t[k] !in t[..k];
      assert Ready(g, o[..k], t[k]);
      assert LessAt(g, o, t, k);
    }
  }

  lemma {:induction false} FirstDifference(a: seq<nat>, b: seq<nat>) returns (k: nat)
    requires |a| == |b| && a != b
    ensures k < |a| && a[..k] == b[..k] && a[k] != b[k]
  {
    k := 0;
    while k < |a| && a[k] == b[k]
      invariant k <= |a| && a[..k] == b[..k]
    {
      k := k + 1;
    }
    assert a[..|a|] == a && b[..|b|] == b;
  }

  lemma GreedyPrefix(g: Graph, o: seq<nat>, n: nat)
    requires WellFormed(g) && Greedy(g, o) && n <= |o|
    ensures Greedy(g, o[..n])
  {
    forall k | 0 <= k < n ensures Chosen(g, o[..n][..k], o[..n][k]) {
      assert o[..n][..k] == o[..k];
    }
  }

  /** There is only one greedy order of a given length. */
  lemma {:induction false} GreedyUnique(g: Graph, a: seq<nat>, b: seq<nat>)
    requires WellFormed(g) && Greedy(g, a) && Greedy(g, b) && |a| == |b|
    ensures a == b
    decreases |a|
  {
    if |a| > 0 {
      var n := |a| - 1;
      GreedyPrefix(g, a, n);
      GreedyPrefix(g, b, n);
      GreedyUnique(g, a[..n], b[..n]);
      assert Chosen(g, a[..n], a[n]);
      assert Chosen(g, b[..n], b[n]);
      assert a == a[..n] + [a[n]] && b == b[..n] + [b[n]];
    }
  }

  // ----- cycles -----

  /** Dependencies of a placed node only lead further back, so they never repeat. */
  lemma {:induction false} PlacedWalkDescends(g: Graph, o: seq<nat>, k: nat, w: seq<nat>)
    requires Legal(g, o) && k < |o|
    requires Walk(g, w) && w[0] == o[k]
    ensures Distinct(w)
    ensures forall m :: 0 <= m < |w| ==> w[m] in o[..k + 1]
    decreases |w|
  {
    if |w| > 1 {
      assert w[1] in o[..k];
      var l :| 0 <= l < k && o[l] == w[1];
      PlacedWalkDescends(g, o, l, w[1..]);
      forall m | 1 <= m < |w| ensures w[m] in o[..k] && w[m] != w[0] {
        assert w[1..][m - 1] in o[..l + 1];
      }
      forall a, b | 1 <= a < b < |w| ensures w[a] != w[b] {
        assert w[1..][a - 1] == w[a] && w[1..][b - 1] == w[b];
      }
    }
  }

  /** When nothing is ready, an unplaced node starts dependency chains of any length. */
  lemma {:induction false} UnplacedWalk(g: Graph, o: seq<nat>, i: nat, m: nat) returns (w: seq<nat>)
    requires WellFormed(g) && Stuck(g, o)
    requires i < |g.needs| && i !in o
    ensures Walk(g, w) && |w| == m + 1 && w[0] == i
    decreases m
  {
    if m == 0 {
      w := [i];
    } else {
      assert !Ready(g, o, i);
      var j :| j in g.needs[i] && j !in o;
      var tail := UnplacedWalk(g, o, j, m - 1);
      w := [i] + tail;
      assert forall k :: 0 <= k < |w| - 1 ==> w[k + 1] == tail[k];
    }
  }

  /** The nodes greedy selection can never place are exactly those that depend on a cycle. */
  lemma StuckMeansDoomed(g: Graph, o: seq<nat>, i: nat)
    requires WellFormed(g) && Legal(g, o) && Stuck(g, o)
    requires i < |g.needs|
    ensures i !in o <==> Doomed(g, i)
  {
    if i in o {
      var k :| 0 <= k < |o| && o[k] == i;
      forall w | LeadsIntoCycle(g, i, w) ensures false {
        PlacedWalkDescends(g, o, k, w);
      }
    } else {
      var w := UnplacedWalk(g, o, i, |g.needs|);
      if Distinct(w) {
        DistinctBound(w, |g.needs|);
      }
      assert LeadsIntoCycle(g, i, w);
    }
  }

  lemma DoomedNeedsCycle(g: Graph)
    ensures Cyclic(g) <==> exists i: nat :: Doomed(g, i)
  {
    if Cyclic(g) {
      var w :| Cycle(g, w);
      assert w[0] == w[|w| - 1];
      assert LeadsIntoCycle(g, w[0], w);
      assert Doomed(g, w[0]);
    }
    if exists i: nat :: Doomed(g, i) {
      var i :| Doomed(g, i);
      var w :| LeadsIntoCycle(g, i, w);
      var a, b :| 0 <= a < b < |w| && w[a] == w[b];
      assert Cycle(g, w[a..b + 1]);
    }
  }

  /** Cycle detection is complete and sound: selection stops short exactly on cyclic graphs. */
  lemma StuckShortIffCyclic(g: Graph, o: seq<nat>)
    requires WellFormed(g) && Legal(g, o) && Stuck(g, o)
    ensures |o| <= |g.needs|
    ensures |o| < |g.needs| <==> Cyclic(g)
  {
    DistinctBound(o, |g.needs|);
    DoomedNeedsCycle(g);
    if |o| == |g.needs| {
      forall i: nat | Doomed(g, i) ensures false {
        var w :| LeadsIntoCycle(g, i, w);
        DistinctOnto(o, i);
        StuckMeansDoomed(g, o, i);
      }
    } else {
      if forall i :: 0 <= i < |g.needs| ==> i in o {
        CoverLength(o, |g.needs|);
      }
      var i :| 0 <= i < |g.needs| && i !in o;
      StuckMeansDoomed(g, o, i);
    }
  }

  /** Greedy selection can always be carried on until nothing is ready. */
  lemma {:induction false} CompleteGreedy(g: Graph, o: seq<nat>) returns (full: seq<nat>)
    requires WellFormed(g) && Greedy(g, o)
    ensures Greedy(g, full) && Stuck(g, full)
    decreases |g.needs| - |o|
  {
    if Stuck(g, o) {
      full := o;
    } else {
      var i := LeastReady(g, o, |g.needs|);
      ExtendGreedy(g, o, i);
      GreedyShape(g, o + [i]);
      full := CompleteGreedy(g, o + [i]);
    }
  }

  lemma {:induction false} LeastReady(g: Graph, o: seq<nat>, n: nat) returns (i: nat)
    requires WellFormed(g) && n <= |g.needs|
    requires exists j: nat :: j < n && Ready(g, o, j)
    ensures i < n && Ready(g, o, i)
    ensures forall j: nat :: j < n && Ready(g, o, j) && j != i ==> Before(g.keys[i], g.keys[j])
    decreases n
  {
    if exists j: nat :: j < n - 1 && Ready(g, o, j) {
      i := LeastReady(g, o, n - 1);
      if Ready(g, o, n - 1) && Before(g.keys[n - 1], g.keys[i]) {
        i := n - 1;
      }
    } else {
      i := n - 1;
    }
  }

  /** A schedule exists exactly when the graph has no cycle. */
  lemma ScheduleIffAcyclic(g: Graph)
    requires WellFormed(g)
    ensures (exists o :: Schedule(g, o)) <==> !Cyclic(g)
  {
    var full := CompleteGreedy(g, []);
    GreedyShape(g, full);
    StuckShortIffCyclic(g, full);
    if !Cyclic(g) {
      assert Schedule(g, full);
    }
    forall o | Schedule(g, o) ensures !Cyclic(g) {
      forall i: nat ensures !Ready(g, o, i) {
        if i < |g.needs| { DistinctOnto(o, i); }
      }
      StuckShortIffCyclic(g, o);
    }
  }

  // ----- phases -----

  /** No node needs one of a later phase. */
  ghost predicate PhasesAscend(g: Graph)
    requires WellFormed(g)
  {
    forall i, j :: 0 <= i < |g.needs| && j in g.needs[i] ==> g.keys[j].phase <= g.keys[i].phase
  }

  lemma NextPhase(g: Graph, o: seq<nat>, k: nat)
    requires WellFormed(g) && Greedy(g, o) && PhasesAscend(g)
    requires k + 1 < |o| && o[k] < |g.keys| && o[k + 1] < |g.keys|
    ensures g.keys[o[k]].phase <= g.keys[o[k + 1]].phase
  {
    assert Chosen(g, o[..k], o[k]);
    assert Chosen(g, o[..k + 1], o[k + 1]);
    assert o[..k + 1] == o[..k] + [o[k]];
    if !Ready(g, o[..k], o[k + 1]) {
      assert o[k] in g.needs[o[k + 1]];
    }
  }

  /** Although only single edges are checked, the whole greedy order is sorted by phase. */
  lemma {:induction false} GreedySortsPhases(g: Graph, o: seq<nat>, a: nat, b: nat)
    requires WellFormed(g) && Greedy(g, o) && PhasesAscend(g)
    requires a <= b < |o|
    ensures o[a] < |g.keys| && o[b] < |g.keys|
    ensures g.keys[o[a]].phase <= g.keys[o[b]].phase
    decreases b - a
  {
    hide Greedy, PhasesAscend;
    GreedyShape(g, o);
    if a < b {
      GreedySortsPhases(g, o, a, b - 1);
      NextPhase(g, o, b - 1);
    }
  }

  // ----- renaming the nodes -----

  /** h is g with its nodes listed in another order: node k of h is node p[k] of g. */
  ghost predicate Relisted(g: Graph, h: Graph, p: seq<nat>) {
    && |p| == |g.needs| == |h.needs| == |g.keys| == |h.keys|
    && Distinct(p)
    && (forall k :: 0 <= k < |p| ==> p[k] < |p| && h.keys[k] == g.keys[p[k]])
    && (forall k, l :: 0 <= k < |p| && 0 <= l < |p| ==> (l in h.needs[k] <==> p[l] in g.needs[p[k]]))
  }

  function Renamed(p: seq<nat>, o: seq<nat>): (r: seq<nat>)
    requires forall k :: 0 <= k < |o| ==> o[k] < |p|
  {
    seq(|o|, k requires 0 <= k < |o| => p[o[k]])
  }

  lemma RenamedMember(p: seq<nat>, o: seq<nat>, i: nat)
    requires Distinct(p) && i < |p|
    requires forall k :: 0 <= k < |o| ==> o[k] < |p|
    ensures i in o <==> p[i] in Renamed(p, o)
  {
    var r := Renamed(p, o);
    if i in o {
      var k :| 0 <= k < |o| && o[k] == i;
      assert r[k] == p[i];
    }
    if p[i] in r {
      var k :| 0 <= k < |r| && r[k] == p[i];
      assert p[o[k]] == p[i];
    }
  }

  lemma RelistedReady(g: Graph, h: Graph, p: seq<nat>, o: seq<nat>, i: nat)
    requires WellFormed(g) && WellFormed(h) && Relisted(g, h, p)
    requires i < |p| && forall k :: 0 <= k < |o| ==> o[k] < |p|
    ensures Ready(h, o, i) <==> Ready(g, Renamed(p, o), p[i])
  {
    RenamedMember(p, o, i);
    forall l: nat | l < |p| ensures l in o <==> p[l] in Renamed(p, o) {
      RenamedMember(p, o, l);
    }
    if Ready(h, o, i) {
      forall j | j in g.needs[p[i]] ensures j in Renamed(p, o) {
        DistinctOnto(p, j);
        var l :| 0 <= l < |p| && p[l] == j;
      }
    }
  }

  /** Relisting the nodes relists the greedy order with them. */
  lemma RelistedGreedy(g: Graph, h: Graph, p: seq<nat>, o: seq<nat>)
    requires WellFormed(g) && WellFormed(h) && Relisted(g, h, p)
    requires Greedy(h, o)
    requires forall k :: 0 <= k < |o| ==> o[k] < |p|
    ensures Greedy(g, Renamed(p, o))
  {
    var r := Renamed(p, o);
    forall k | 0 <= k < |r| ensures Chosen(g, r[..k], r[k]) {
      assert r[..k] == Renamed(p, o[..k]);
      assert Chosen(h, o[..k], o[k]);
      RelistedReady(g, h, p, o[..k], o[k]);
      forall j: nat | Ready(g, r[..k], j) && j != r[k] ensures Before(g.keys[r[k]], g.keys[j]) {
        DistinctOnto(p, j);
        var l :| 0 <= l < |p| && p[l] == j;
        RelistedReady(g, h, p, o[..k], l);
      }
    }
  }

  /** Relisting keeps cycles. */
  lemma RelistedCyclic(g: Graph, h: Graph, p: seq<nat>)
    requires WellFormed(g) && WellFormed(h) && Relisted(g, h, p)
    ensures Cyclic(h) <==> Cyclic(g)
  {
    var full := CompleteGreedy(h, []);
    GreedyShape(h, full);
    RelistedGreedy(g, h, p, full);
    var r := Renamed(p, full);
    GreedyShape(g, r);
    forall j: nat ensures !Ready(g, r, j) {
      if j < |p| {
        DistinctOnto(p, j);
        var l :| 0 <= l < |p| && p[l] == j;
        RelistedReady(g, h, p, full, l);
      }
    }
    StuckShortIffCyclic(g, r);
    StuckShortIffCyclic(h, full);
  }
}
