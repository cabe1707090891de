/** F1 finality: forward cone, k-core peeling, breadth-first depth, and the finality tests. */
module KCore {
  import opened Common
  import opened Dag
  import Ultrametric

  // ----- the k-core as a fixed point

  /** Neighbours of `x`, parents and children alike, inside `nodes`. */
  function Degree(g: Graph, nodes: set<MessageId>, x: MessageId): nat {
    CountIn(g.ParentsOf(x), nodes) + CountIn(g.ChildrenOf(x), nodes)
  }

  ghost predicate IsCore(g: Graph, k: nat, nodes: set<MessageId>) {
    forall x :: x in nodes ==> Degree(g, nodes, x) >= k
  }

  /** Peel all low-degree nodes at once until none is left. */
  ghost function MaximalCore(g: Graph, k: nat, nodes: set<MessageId>): set<MessageId>
    decreases nodes
  {
    var kept := set x | x in nodes && Degree(g, nodes, x) >= k;
    if kept == nodes then nodes else MaximalCore(g, k, kept)
  }

  lemma DegreeMonotone(g: Graph, fewer: set<MessageId>, more: set<MessageId>, x: MessageId)
    requires fewer <= more
    ensures Degree(g, fewer, x) <= Degree(g, more, x)
  {
    CountInMonotone(g.ParentsOf(x), fewer, more);
    CountInMonotone(g.ChildrenOf(x), fewer, more);
  }

  /** The fixed point is a k-core and contains every k-core of the start set. */
  lemma {:induction false} MaximalCoreIsGreatest(g: Graph, k: nat, nodes: set<MessageId>)
    ensures MaximalCore(g, k, nodes) <= nodes
    ensures IsCore(g, k, MaximalCore(g, k, nodes))
    ensures forall s :: s <= nodes && IsCore(g, k, s) ==> s <= MaximalCore(g, k, nodes)
    decreases nodes
  {
    var kept := set x | x in nodes && Degree(g, nodes, x) >= k;
    if kept != nodes {
      MaximalCoreIsGreatest(g, k, kept);
      forall s | s <= nodes && IsCore(g, k, s)
        ensures s <= MaximalCore(g, k, nodes)
      {
        forall x | x in s ensures x in kept {
          DegreeMonotone(g, s, nodes, x);
        }
        assert s <= kept;
      }
    }
  }

  /** There is only one greatest k-core, so any peeling order must end in it. */
  lemma MaximalCoreUnique(g: Graph, k: nat, nodes: set<MessageId>, core: set<MessageId>)
    requires MaximalCore(g, k, nodes) <= core <= nodes && IsCore(g, k, core)
    ensures core == MaximalCore(g, k, nodes)
  {
    MaximalCoreIsGreatest(g, k, nodes);
  }

  ghost function Inside(s: seq<MessageId>, nodes: set<MessageId>): set<MessageId> {
    set y | y in nodes && y in s
  }

  lemma InsideAppend(init: seq<MessageId>, last: MessageId, nodes: set<MessageId>)
    ensures Inside(init + [last], nodes) == Inside(init, nodes) + if last in nodes then {last} else {}
  {
  }

  lemma {:induction false} CountInIsSize(s: seq<MessageId>, nodes: set<MessageId>)
    requires NoDuplicates(s)
    ensures CountIn(s, nodes) == |Inside(s, nodes)|
  {
    if s == [] {
      assert Inside(s, nodes) == {};
    } else {
      var init, last := s[..|s| - 1], s[|s| - 1];
      CountInIsSize(init, nodes);
      assert last !in init;
      assert s == init + [last];
      InsideAppend(init, last, nodes);
    }
  }

  /** With duplicate-free, disjoint parent and child lists the degree counts distinct neighbours. */
  lemma DegreeCountsNeighbours(g: Graph, nodes: set<MessageId>, x: MessageId)
    requires NoDuplicates(g.ParentsOf(x)) && NoDuplicates(g.ChildrenOf(x))
    requires forall y :: y in g.ParentsOf(x) ==> y !in g.ChildrenOf(x)
    ensures Degree(g, nodes, x) == |set y | y in nodes && (y in g.ParentsOf(x) || y in g.ChildrenOf(x))|
  {
    CountInIsSize(g.ParentsOf(x), nodes);
    CountInIsSize(g.ChildrenOf(x), nodes);
    hide NoDuplicates;
    assert (set y | y in nodes && (y in g.ParentsOf(x) || y in g.ChildrenOf(x)))
        == Inside(g.ParentsOf(x), nodes) + Inside(g.ChildrenOf(x), nodes);
  }

  // ----- the peeling loop's bookkeeping

  /** The incremental degree map is exact for every analysed node, removed ones included. */
  ghost predicate DegreesExact(g: Graph, nodes: set<MessageId>, core: set<MessageId>, degrees: map<MessageId, nat>) {
    degrees.Keys == nodes && forall x :: x in nodes ==> degrees[x] == Degree(g, core, x)
  }

  lemma DegreeWithout(g: Graph, core: set<MessageId>, n: MessageId, x: MessageId)
    requires Consistent(g) && n in core
    ensures Degree(g, core, x) == Degree(g, core - {n}, x) + Count(g.ParentsOf(n), x) + Count(g.ChildrenOf(n), x)
  {
    CountInWithout(g.ParentsOf(x), core, n);
    CountInWithout(g.ChildrenOf(x), core, n);
    assert Count(g.ChildrenOf(n), x) == Count(g.ParentsOf(x), n);
    assert Count(g.ChildrenOf(x), n) == Count(g.ParentsOf(n), x);
  }

  function SaturatingSub(a: nat, b: nat): nat {
    if a < b then 0 else a - b
  }

  /** One pass over a neighbour list; the subtraction saturates only where an entry was already too low. */
  method DecrementEach(degrees: map<MessageId, nat>, list: seq<MessageId>) returns (r: map<MessageId, nat>)
    requires forall x :: x in degrees ==> degrees[x] >= Count(list, x)
    ensures r.Keys == degrees.Keys
    ensures forall x :: x in degrees ==> r[x] == degrees[x] - Count(list, x)
  {
    r := degrees;
    for i := 0 to |list|
      invariant r.Keys == degrees.Keys
      invariant forall x :: x in degrees ==> r[x] == degrees[x] - Count(list[..i], x)
    {
      assert list[..i + 1] == list[..i] + [list[i]];
      forall x ensures Count(list[..i + 1], x) == Count(list[..i], x) + if list[i] == x then 1 else 0 {
        CountAppend(list[..i], list[i], x);
      }
      CountPrefix(list, i + 1, list[i]);
      if list[i] in r {
        r := r[list[i] := SaturatingSub(r[list[i]], 1)];
      }
    }
    assert list[..|list|] == list;
  }

  /** Takes `n` out of the core and keeps the degree map exact. */
  method Detach(g: Graph, ghost nodes: set<MessageId>, core: set<MessageId>, degrees: map<MessageId, nat>, n: MessageId)
      returns (r: map<MessageId, nat>)
    requires Consistent(g) && n in core && core <= nodes && DegreesExact(g, nodes, core, degrees)
    ensures DegreesExact(g, nodes, core - {n}, r)
  {
    forall x ensures Degree(g, core, x)
      == Degree(g, core - {n}, x) + Count(g.ParentsOf(n), x) + Count(g.ChildrenOf(n), x) {
      DegreeWithout(g, core, n, x);
    }
    hide Degree;
    r := DecrementEach(degrees, g.ParentsOf(n));
    r := DecrementEach(r, g.ChildrenOf(n));
  }

  /** Lists the core nodes below `k`, in whatever order the map hands them out. */
  method LowDegree(core: set<MessageId>, degrees: map<MessageId, nat>, k: nat) returns (low: seq<MessageId>)
    ensures NoDuplicates(low)
    ensures forall x :: x in low <==> x in degrees && x in core && degrees[x] < k
  {
    low := [];
    var todo := degrees.Keys;
    while todo != {}
      invariant todo <= degrees.Keys && NoDuplicates(low)
      invariant forall x :: x in low <==> x in degrees.Keys - todo && x in core && degrees[x] < k
      decreases |todo|
    {
      var id :| id in todo;
      if id in core && degrees[id] < k {
        low := low + [id];
      }
      todo := todo - {id};
    }
  }

  // ----- walks along child edges

  /** A walk of `n` child edges from `root` to `x` whose later nodes all lie in `within`. */
  ghost predicate Walk(g: Graph, within: set<MessageId>, root: MessageId, x: MessageId, n: nat)
    decreases n
  {
    if n == 0 then x == root
    else x in within && exists u :: Walk(g, within, root, u, n - 1) && x in g.ChildrenOf(u)
  }

  ghost predicate Reachable(g: Graph, within: set<MessageId>, root: MessageId, x: MessageId) {
    exists n: nat :: Walk(g, within, root, x, n)
  }

  ghost predicate IsDistance(g: Graph, within: set<MessageId>, root: MessageId, x: MessageId, n: nat) {
    Walk(g, within, root, x, n) && forall m: nat :: Walk(g, within, root, x, m) ==> n <= m
  }

  /** The largest shortest-path distance over the reachable nodes. */
  ghost predicate IsDepth(g: Graph, within: set<MessageId>, root: MessageId, d: nat) {
    && (exists x :: IsDistance(g, within, root, x, d))
    && (forall x: MessageId, n: nat :: IsDistance(g, within, root, x, n) ==> n <= d)
  }

  /** Walks, and so depths, depend on the child lists only. */
  lemma {:induction false} SameChildrenSameWalks(g: Graph, g': Graph, within: set<MessageId>, root: MessageId,
                                                 x: MessageId, n: nat)
    requires forall y: MessageId :: g.ChildrenOf(y) == g'.ChildrenOf(y)
    ensures Walk(g, within, root, x, n) <==> Walk(g', within, root, x, n)
    decreases n
  {
    hide Graph.ChildrenOf;
    if n > 0 {
      var m: nat := n - 1;
      forall u: MessageId ensures Walk(g, within, root, u, m) <==> Walk(g', within, root, u, m) {
        SameChildrenSameWalks(g, g', within, root, u, m);
      }
    }
  }

  lemma SameChildrenSameDepth(g: Graph, g': Graph, within: set<MessageId>, root: MessageId, d: nat)
    requires forall y: MessageId :: g.ChildrenOf(y) == g'.ChildrenOf(y)
    ensures IsDepth(g, within, root, d) <==> IsDepth(g', within, root, d)
  {
    hide Walk;
    forall x: MessageId, n: nat {
      SameChildrenSameWalks(g, g', within, root, x, n);
    }
    assert forall x: MessageId, n: nat :: IsDistance(g, within, root, x, n) <==> IsDistance(g', within, root, x, n);
  }

  lemma DepthUnique(g: Graph, within: set<MessageId>, root: MessageId, d: nat, e: nat)
    requires IsDepth(g, within, root, d) && IsDepth(g, within, root, e)
    ensures d == e
  {
    hide IsDistance;
    var x :| IsDistance(g, within, root, x, d);
    var y :| IsDistance(g, within, root, y, e);
  }

  lemma WalkStep(g: Graph, within: set<MessageId>, root: MessageId, u: MessageId, x: MessageId, n: nat)
    requires Walk(g, within, root, u, n) && x in within && x in g.ChildrenOf(u)
    ensures Walk(g, within, root, x, n + 1)
  {
  }

  /** Ids that occur in some child list; walks inside this set are walks without restriction. */
  function AllChildren(g: Graph): set<MessageId> {
    set a, i | a in g.children && 0 <= i < |g.children[a]| :: g.children[a][i]
  }

  lemma ChildrenAreChildren(g: Graph, u: MessageId)
    ensures forall c :: c in g.ChildrenOf(u) ==> c in AllChildren(g)
  {
  }

  ghost predicate Descendant(g: Graph, root: MessageId, x: MessageId) {
    Reachable(g, AllChildren(g), root, x)
  }

  lemma ReachableStep(g: Graph, within: set<MessageId>, root: MessageId, u: MessageId, x: MessageId)
    requires Reachable(g, within, root, u) && x in within && x in g.ChildrenOf(u)
    ensures Reachable(g, within, root, x)
  {
    var n: nat :| Walk(g, within, root, u, n);
    WalkStep(g, within, root, u, x, n);
  }

  /** A set closed under the allowed edges holds every reachable node. */
  lemma {:induction false} ClosedHoldsWalks(g: Graph, within: set<MessageId>, closed: set<MessageId>,
                                            root: MessageId, x: MessageId, n: nat)
    requires root in closed && Walk(g, within, root, x, n)
    requires forall u, c :: u in closed && c in g.ChildrenOf(u) && c in within ==> c in closed
    ensures x in closed
    decreases n
  {
    if n > 0 {
      var u :| Walk(g, within, root, u, n - 1) && x in g.ChildrenOf(u);
      ClosedHoldsWalks(g, within, closed, root, u, n - 1);
    }
  }

  // ----- what a finished breadth-first search knows

  /** Every edge out of a processed node leads to a labelled node at most one step further. */
  ghost predicate Relaxed(g: Graph, within: set<MessageId>, done: set<MessageId>, dist: map<MessageId, nat>) {
    forall u, c :: u in done && u in dist && c in g.ChildrenOf(u) && c in within ==> c in dist && dist[c] <= dist[u] + 1
  }

  ghost predicate Labelled(g: Graph, within: set<MessageId>, root: MessageId, dist: map<MessageId, nat>) {
    root in dist && dist[root] == 0 && forall x :: x in dist ==> Walk(g, within, root, x, dist[x])
  }

  lemma {:induction false} LabelsBoundWalks(g: Graph, within: set<MessageId>, root: MessageId,
                                            dist: map<MessageId, nat>, x: MessageId, n: nat)
    requires Labelled(g, within, root, dist) && Relaxed(g, within, dist.Keys, dist)
    requires Walk(g, within, root, x, n)
    ensures x in dist && dist[x] <= n
    decreases n
  {
    if n > 0 {
      var u :| Walk(g, within, root, u, n - 1) && x in g.ChildrenOf(u);
      LabelsBoundWalks(g, within, root, dist, u, n - 1);
    }
  }

  lemma LabelsAreDistances(g: Graph, within: set<MessageId>, root: MessageId, dist: map<MessageId, nat>, x: MessageId,
                           n: nat)
    requires Labelled(g, within, root, dist) && Relaxed(g, within, dist.Keys, dist)
    ensures IsDistance(g, within, root, x, n) <==> x in dist && dist[x] == n
  {
    if IsDistance(g, within, root, x, n) {
      LabelsBoundWalks(g, within, root, dist, x, n);
      assert Walk(g, within, root, x, dist[x]);
    } else if x in dist && dist[x] == n {
      var m: nat :| Walk(g, within, root, x, m) && m < n;
      LabelsBoundWalks(g, within, root, dist, x, m);
    }
  }

  lemma LabelsGiveDepth(g: Graph, within: set<MessageId>, root: MessageId, dist: map<MessageId, nat>, d: nat)
    requires Labelled(g, within, root, dist) && Relaxed(g, within, dist.Keys, dist)
    requires forall x :: x in dist ==> dist[x] <= d
    requires exists x :: x in dist && dist[x] == d
    ensures IsDepth(g, within, root, d)
  {
    var far :| far in dist && dist[far] == d;
    LabelsAreDistances(g, within, root, dist, far, d);
    forall x, n: nat | IsDistance(g, within, root, x, n)
      ensures n <= d
    {
      LabelsAreDistances(g, within, root, dist, x, n);
    }
  }

  /** Inner loop of both searches: the children not seen before, each once, in order. */
  method Discover(visited: set<MessageId>, children: seq<MessageId>, keep: MessageId -> bool)
      returns (visited': set<MessageId>, newFound: seq<MessageId>)
    ensures visited' == visited + set c | c in children && keep(c)
    ensures forall x :: x in newFound <==> x in visited' && x !in visited
    ensures newFound == [] <==> visited' == visited
  {
    visited', newFound := visited, [];
    for i := 0 to |children|
      invariant visited <= visited'
      invariant forall x :: x in visited' <==> x in visited || (x in children[..i] && keep(x))
      invariant forall x :: x in newFound <==> x in visited' && x !in visited
      invariant newFound == [] <==> visited' == visited
    {
      assert children[..i + 1] == children[..i] + [children[i]];
      if keep(children[i]) && children[i] !in visited' {
        visited' := visited' + {children[i]};
        newFound := newFound + [children[i]];
      }
    }
    assert children[..|children|] == children;
  }

  lemma {:induction false} SubsetSize<T>(a: set<T>, b: set<T>)
    requires a <= b
    ensures |a| <= |b|
  {
    if a != {} {
      var x :| x in a;
      SubsetSize(a - {x}, b - {x});
    }
  }

  lemma {:induction false} StrictSubsetSmaller(a: set<MessageId>, b: set<MessageId>)
    requires a < b
    ensures |a| < |b|
  {
    var x :| x in b && x !in a;
    SubsetSize(a, b - {x});
  }

  lemma SearchProgress(universe: set<MessageId>, visited: set<MessageId>, visited': set<MessageId>)
    requires visited <= visited' && visited' <= universe
    ensures visited' == visited || |universe - visited'| < |universe - visited|
  {
    if visited' != visited {
      StrictSubsetSmaller(universe - visited', universe - visited);
    }
  }

  // ----- the breadth-first queue

  type Queue = seq<(MessageId, nat)>

  function Tag(ids: seq<MessageId>, depth: nat): (tagged: Queue)
    ensures |tagged| == |ids|
  {
    seq(|ids|, i requires 0 <= i < |ids| => (ids[i], depth))
  }

  ghost predicate Queued(queue: Queue, x: MessageId) {
    exists i :: 0 <= i < |queue| && queue[i].0 == x
  }

  /** Queue entries carry their label, in ascending order, and no label is more than one past the first. */
  ghost predicate Ordered(queue: Queue, dist: map<MessageId, nat>) {
    && (forall i :: 0 <= i < |queue| ==> queue[i].0 in dist && dist[queue[i].0] == queue[i].1)
    && (forall i, j :: 0 <= i < j < |queue| ==> queue[i].1 <= queue[j].1)
    && (queue != [] ==> forall x :: x in dist ==> dist[x] <= queue[0].1 + 1)
  }

  ghost predicate Frontier(queue: Queue, dist: map<MessageId, nat>, done: set<MessageId>) {
    done <= dist.Keys && forall x :: x in dist ==> x in done || Queued(queue, x)
  }

  ghost function Label(dist: map<MessageId, nat>, ids: seq<MessageId>, d: nat): map<MessageId, nat> {
    dist + map c | c in ids :: d
  }

  lemma OrderedAdvances(queue: Queue, dist: map<MessageId, nat>, ids: seq<MessageId>)
    requires queue != [] && Ordered(queue, dist)
    requires forall c :: c in ids ==> c !in dist
    ensures Ordered(queue[1..] + Tag(ids, queue[0].1 + 1), Label(dist, ids, queue[0].1 + 1))
  {
  }

  lemma FrontierAdvances(queue: Queue, dist: map<MessageId, nat>, done: set<MessageId>, ids: seq<MessageId>, d: nat)
    requires queue != [] && queue[0].0 in dist && Frontier(queue, dist, done)
    ensures Frontier(queue[1..] + Tag(ids, d), Label(dist, ids, d), done + {queue[0].0})
  {
    var q := queue[1..] + Tag(ids, d);
    forall x | x in Label(dist, ids, d) && x != queue[0].0 && x !in done
      ensures Queued(q, x)
    {
      if x in ids {
        var i :| 0 <= i < |ids| && ids[i] == x;
        assert q[|queue| - 1 + i].0 == x;
      } else {
        var i :| 0 <= i < |queue| && queue[i].0 == x;
        assert q[i - 1].0 == x;
      }
    }
  }

  lemma LabelsAdvance(g: Graph, within: set<MessageId>, root: MessageId, dist: map<MessageId, nat>,
                      done: set<MessageId>, u: MessageId, ids: seq<MessageId>)
    requires Labelled(g, within, root, dist) && Relaxed(g, within, done, dist) && u in dist && done <= dist.Keys
    requires forall x :: x in dist ==> dist[x] <= dist[u] + 1
    requires forall c :: c in ids <==> c in g.ChildrenOf(u) && c in within && c !in dist
    ensures Labelled(g, within, root, Label(dist, ids, dist[u] + 1))
    ensures Relaxed(g, within, done + {u}, Label(dist, ids, dist[u] + 1))
  {
    forall c | c in ids ensures Walk(g, within, root, c, dist[u] + 1) {
      WalkStep(g, within, root, u, c, dist[u]);
    }
  }

  ghost function Cone(g: Graph, root: MessageId): set<MessageId> {
    set x | x in AllChildren(g) + {root} && Descendant(g, root, x)
  }

  lemma ConeMembers(g: Graph, root: MessageId, x: MessageId)
    ensures x in Cone(g, root) <==> Descendant(g, root, x)
  {
    if Descendant(g, root, x) {
      var n: nat :| Walk(g, AllChildren(g), root, x, n);
      assert n == 0 || x in AllChildren(g);
    }
  }

  lemma ClosedIsCone(g: Graph, root: MessageId, cone: set<MessageId>)
    requires root in cone && forall u, c :: u in cone && c in g.ChildrenOf(u) ==> c in cone
    requires forall x :: x in cone ==> Reachable(g, AllChildren(g), root, x)
    ensures cone == Cone(g, root)
  {
    hide Walk;
    forall x | Reachable(g, AllChildren(g), root, x)
      ensures x in cone
    {
      var n: nat :| Walk(g, AllChildren(g), root, x, n);
      ClosedHoldsWalks(g, AllChildren(g), cone, root, x, n);
    }
    forall x ensures x in cone <==> x in Cone(g, root) {
      ConeMembers(g, root, x);
    }
  }

  /** `build_forward_cone`: the root and exactly its descendants. */
  method BuildForwardCone(root: MessageId, g: Graph) returns (cone: set<MessageId>)
    ensures cone == Cone(g, root)
  {
    var universe := AllChildren(g) + {root};
    cone := {root};
    var queue := [root];
    assert Walk(g, AllChildren(g), root, root, 0);
    assert Reachable(g, AllChildren(g), root, root);
    hide Walk, Reachable, Cone, Graph.ChildrenOf;
    ghost var done := {};
    while queue != []
      invariant root in cone && cone <= universe
      invariant forall x :: x in queue ==> x in cone
      invariant forall x :: x in cone ==> x in done || x in queue
      invariant forall x :: x in cone ==> Reachable(g, AllChildren(g), root, x)
      invariant forall u, c :: u in done && c in g.ChildrenOf(u) ==> c in cone
      decreases |universe - cone|, |queue|
    {
      var current := queue[0];
      ghost var before := cone;
      assert queue == [current] + queue[1..];
      ChildrenAreChildren(g, current);
      var newFound;
      cone, newFound := Discover(cone, g.ChildrenOf(current), _ => true);
      queue := queue[1..] + newFound;
      done := done + {current};
      forall x | x in cone && x !in before ensures Reachable(g, AllChildren(g), root, x) {
        ReachableStep(g, AllChildren(g), root, current, x);
      }
      SearchProgress(universe, before, cone);
    }
    ClosedIsCone(g, root, cone);
  }

  // ----- reputation and diversity of a set of nodes

  type Messages = map<MessageId, Message>

  function NodeReputation(messages: Messages, reputation: nat -> real, x: MessageId): real {
    if x in messages then reputation(messages[x].proposer) else 0.0
  }

  ghost function TotalReputation(messages: Messages, reputation: nat -> real, nodes: set<MessageId>): real {
    if nodes == {} then 0.0
    else
      var x :| x in nodes;
      NodeReputation(messages, reputation, x) + TotalReputation(messages, reputation, nodes - {x})
  }

  /** The sum does not depend on the order in which nodes are taken. */
  lemma {:induction false} TotalWithout(messages: Messages, reputation: nat -> real, nodes: set<MessageId>,
                                        y: MessageId)
    requires y in nodes
    ensures TotalReputation(messages, reputation, nodes)
         == NodeReputation(messages, reputation, y) + TotalReputation(messages, reputation, nodes - {y})
  {
    var x :| x in nodes && TotalReputation(messages, reputation, nodes)
          == NodeReputation(messages, reputation, x) + TotalReputation(messages, reputation, nodes - {x});
    if x != y {
      TotalWithout(messages, reputation, nodes - {x}, y);
      TotalWithout(messages, reputation, nodes - {y}, x);
      assert nodes - {x} - {y} == nodes - {y} - {x};
    }
  }

  function Times(c: real, x: real): real {
    c * x
  }

  lemma TimesSum(c: real, x: real, y: real)
    ensures Times(c, x + y) == Times(c, x) + Times(c, y) && Times(c, 0.0) == 0.0
  {
  }

  /** The sum is linear in the table of reputations. */
  lemma {:induction false} TotalIsLinear(messages: Messages, table: nat -> real, other: nat -> real,
                                         mixed: nat -> real, c: real, nodes: set<MessageId>)
    requires forall pk :: mixed(pk) == Times(c, table(pk)) + other(pk)
    ensures TotalReputation(messages, mixed, nodes)
         == Times(c, TotalReputation(messages, table, nodes)) + TotalReputation(messages, other, nodes)
    decreases nodes
  {
    hide Times;
    TimesSum(c, 0.0, 0.0);
    if nodes != {} {
      var y :| y in nodes;
      TotalIsLinear(messages, table, other, mixed, c, nodes - {y});
      TotalWithout(messages, mixed, nodes, y);
      TotalWithout(messages, table, nodes, y);
      TotalWithout(messages, other, nodes, y);
      hide TotalReputation;
      TimesSum(c, NodeReputation(messages, table, y), TotalReputation(messages, table, nodes - {y}));
    }
  }

  ghost function ProposedBy(messages: Messages, nodes: set<MessageId>, proposer: nat): set<MessageId> {
    set x | x in nodes && x in messages && messages[x].proposer == proposer
  }

  /** A table that is one for a single proposer and zero elsewhere counts that proposer's stored messages. */
  lemma {:induction false} TotalCounts(messages: Messages, proposer: nat, nodes: set<MessageId>)
    ensures TotalReputation(messages, (pk: nat) => if pk == proposer then 1.0 else 0.0, nodes)
         == |ProposedBy(messages, nodes, proposer)| as real
    decreases nodes
  {
    var table: nat -> real := (pk: nat) => if pk == proposer then 1.0 else 0.0;
    if nodes == {} {
      assert ProposedBy(messages, nodes, proposer) == {};
    } else {
      var y :| y in nodes;
      TotalCounts(messages, proposer, nodes - {y});
      TotalWithout(messages, table, nodes, y);
      var rest := ProposedBy(messages, nodes - {y}, proposer);
      if y in messages && messages[y].proposer == proposer {
        assert ProposedBy(messages, nodes, proposer) == rest + {y};
      } else {
        assert ProposedBy(messages, nodes, proposer) == rest;
      }
    }
  }

  function Radius(rho: seq<nat>, axis: nat): nat {
    if axis < |rho| then rho[axis] else 2
  }

  ghost function AxesOf(phi: seq<AxisPhi>): set<nat> {
    set i | 0 <= i < |phi| :: phi[i].axis
  }

  ghost function BallsOf(phi: seq<AxisPhi>, rho: seq<nat>, axis: nat): set<seq<Byte>> {
    set i | 0 <= i < |phi| && phi[i].axis == axis :: Ultrametric.BallId(phi[i].digits, Radius(rho, axis))
  }

  ghost function Phi(messages: Messages, x: MessageId): seq<AxisPhi> {
    if x in messages then messages[x].phi else []
  }

  ghost function Axes(messages: Messages, nodes: set<MessageId>): set<nat> {
    set x, a | x in nodes && a in AxesOf(Phi(messages, x)) :: a
  }

  ghost function Balls(messages: Messages, rho: seq<nat>, nodes: set<MessageId>, axis: nat): set<seq<Byte>> {
    set x, b | x in nodes && b in BallsOf(Phi(messages, x), rho, axis) :: b
  }

  ghost function DistinctBalls(messages: Messages, rho: seq<nat>, nodes: set<MessageId>): map<nat, nat> {
    map a | a in Axes(messages, nodes) :: |Balls(messages, rho, nodes, a)|
  }

  /** Some stored message among the nodes carries the vector `v` on the axis. */
  ghost predicate Carried(messages: Messages, nodes: set<MessageId>, axis: nat, v: seq<Byte>) {
    exists x, i :: x in nodes && x in messages && 0 <= i < |messages[x].phi| && messages[x].phi[i] == AxisPhi(axis, v)
  }

  lemma BallsAreCarried(messages: Messages, rho: seq<nat>, nodes: set<MessageId>, axis: nat, b: seq<Byte>)
    ensures b in Balls(messages, rho, nodes, axis) <==>
              exists v :: Carried(messages, nodes, axis, v)
                          && b == Ultrametric.BallId(v, if axis < |rho| then rho[axis] else 2)
  {
    var r := if axis < |rho| then rho[axis] else 2;
    if b in Balls(messages, rho, nodes, axis) {
      var x :| x in nodes && b in BallsOf(Phi(messages, x), rho, axis);
      var phi := Phi(messages, x);
      var i :| 0 <= i < |phi| && phi[i].axis == axis && b == Ultrametric.BallId(phi[i].digits, r);
      assert messages[x].phi[i] == AxisPhi(axis, phi[i].digits);
    }
    if v :| Carried(messages, nodes, axis, v) && b == Ultrametric.BallId(v, r) {
      var x, i :| x in nodes && x in messages && 0 <= i < |messages[x].phi|
                  && messages[x].phi[i] == AxisPhi(axis, v);
      assert Phi(messages, x)[i].axis == axis && b in BallsOf(Phi(messages, x), rho, axis);
    }
  }

  /** Vectors carried on the axis, no two of them close: of different length within the radius, or of a difference whose
      valuation does not reach it. */
  ghost predicate Apart(messages: Messages, nodes: set<MessageId>, axis: nat, r: nat, vs: seq<seq<Byte>>) {
    && (forall i :: 0 <= i < |vs| ==> Carried(messages, nodes, axis, vs[i]))
    && forall i, j :: 0 <= i < j < |vs| ==>
         Ultrametric.Min(r, |vs[i]|) != Ultrametric.Min(r, |vs[j]|)
         || Ultrametric.VpDiff(vs[i], vs[j]) < Ultrametric.Min(r, |vs[i]|)
  }

  lemma ApartPrefix(messages: Messages, nodes: set<MessageId>, axis: nat, r: nat, vs: seq<seq<Byte>>, n: nat)
    requires n <= |vs| && Apart(messages, nodes, axis, r, vs)
    ensures Apart(messages, nodes, axis, r, vs[..n])
  {
    hide Carried, Ultrametric.VpDiff;
  }

  lemma {:induction false} ApartFill(messages: Messages, rho: seq<nat>, nodes: set<MessageId>, axis: nat, r: nat,
                                     vs: seq<seq<Byte>>)
      returns (balls: set<seq<Byte>>)
    requires r == (if axis < |rho| then rho[axis] else 2) && Apart(messages, nodes, axis, r, vs)
    ensures balls <= Balls(messages, rho, nodes, axis) && |balls| == |vs|
    ensures forall b :: b in balls <==> exists i :: 0 <= i < |vs| && b == Ultrametric.BallId(vs[i], r)
  {
    hide Balls, Carried, Ultrametric.VpDiff, Ultrametric.BallId;
    balls := {};
    if vs != [] {
      var n := |vs| - 1;
      ApartPrefix(messages, nodes, axis, r, vs, n);
      var rest := ApartFill(messages, rho, nodes, axis, r, vs[..n]);
      var b := Ultrametric.BallId(vs[n], r);
      BallsAreCarried(messages, rho, nodes, axis, b);
      if b in rest {
        var i :| 0 <= i < n && b == Ultrametric.BallId(vs[..n][i], r);
        Ultrametric.BallExactly(vs[i], vs[n], r);
        assert false;
      }
      balls := rest + {b};
      forall c ensures c in balls <==> exists i :: 0 <= i < |vs| && c == Ultrametric.BallId(vs[i], r) {
        if c in rest {
          var i :| 0 <= i < n && c == Ultrametric.BallId(vs[..n][i], r);
          assert c == Ultrametric.BallId(vs[i], r);
        }
        if i :| 0 <= i < |vs| && c == Ultrametric.BallId(vs[i], r) && i < n {
          assert c == Ultrametric.BallId(vs[..n][i], r);
        }
      }
    }
  }

  lemma {:induction false} BallsHoldApart(messages: Messages, rho: seq<nat>, nodes: set<MessageId>, axis: nat, r: nat,
                                          balls: set<seq<Byte>>, q: nat)
      returns (vs: seq<seq<Byte>>)
    requires r == (if axis < |rho| then rho[axis] else 2)
    requires balls <= Balls(messages, rho, nodes, axis) && |balls| >= q
    ensures Apart(messages, nodes, axis, r, vs) && |vs| == q
    ensures forall i :: 0 <= i < |vs| ==> Ultrametric.BallId(vs[i], r) in balls
    decreases q
  {
    hide Balls, Carried, Ultrametric.VpDiff, Ultrametric.BallId;
    vs := [];
    if q > 0 {
      var b :| b in balls;
      BallsAreCarried(messages, rho, nodes, axis, b);
      var v :| Carried(messages, nodes, axis, v) && b == Ultrametric.BallId(v, r);
      var rest := BallsHoldApart(messages, rho, nodes, axis, r, balls - {b}, q - 1);
      vs := rest + [v];
      forall i | 0 <= i < |rest|
        ensures Ultrametric.Min(r, |vs[i]|) != Ultrametric.Min(r, |v|)
                || Ultrametric.VpDiff(vs[i], v) < Ultrametric.Min(r, |vs[i]|)
      {
        assert Ultrametric.BallId(rest[i], r) in balls - {b};
        Ultrametric.BallExactly(rest[i], v, r);
      }
    }
  }

  /** On an axis the nodes show at least `q` balls exactly when they carry `q` vectors no two of which are close, at the
      axis's radius or, past the configured axes, at 2. */
  lemma BallsExactly(messages: Messages, rho: seq<nat>, nodes: set<MessageId>, axis: nat, q: nat)
    ensures |Balls(messages, rho, nodes, axis)| >= q <==>
              exists vs :: |vs| == q && Apart(messages, nodes, axis, if axis < |rho| then rho[axis] else 2, vs)
  {
    hide Balls, Apart;
    var r := if axis < |rho| then rho[axis] else 2;
    if |Balls(messages, rho, nodes, axis)| >= q {
      var vs := BallsHoldApart(messages, rho, nodes, axis, r, Balls(messages, rho, nodes, axis), q);
    }
    if vs :| |vs| == q && Apart(messages, nodes, axis, r, vs) {
      var balls := ApartFill(messages, rho, nodes, axis, r, vs);
      SubsetSize(balls, Balls(messages, rho, nodes, axis));
    }
  }

  type BallIndex = map<nat, set<seq<Byte>>>

  function Look(index: BallIndex, axis: nat): set<seq<Byte>> {
    if axis in index then index[axis] else {}
  }

  ghost predicate IndexExact(messages: Messages, rho: seq<nat>, nodes: set<MessageId>, index: BallIndex) {
    index.Keys == Axes(messages, nodes) && forall a :: Look(index, a) == Balls(messages, rho, nodes, a)
  }

  lemma NoPhi(rho: seq<nat>)
    ensures AxesOf([]) == {} && forall a :: BallsOf([], rho, a) == {}
  {
  }

  lemma PhiAppend(phi: seq<AxisPhi>, i: nat, rho: seq<nat>)
    requires i < |phi|
    ensures AxesOf(phi[..i + 1]) == AxesOf(phi[..i]) + {phi[i].axis}
    ensures forall a :: BallsOf(phi[..i + 1], rho, a) == BallsOf(phi[..i], rho, a)
                     + if a == phi[i].axis then {Ultrametric.BallId(phi[i].digits, Radius(rho, a))} else {}
  {
  }

  method AddBalls(index: BallIndex, phi: seq<AxisPhi>, rho: seq<nat>) returns (index': BallIndex)
    ensures index'.Keys == index.Keys + AxesOf(phi)
    ensures forall a :: Look(index', a) == Look(index, a) + BallsOf(phi, rho, a)
  {
    hide AxesOf, BallsOf;
    index' := index;
    NoPhi(rho);
    assert phi[..0] == [];
    for i := 0 to |phi|
      invariant index'.Keys == index.Keys + AxesOf(phi[..i])
      invariant forall a :: Look(index', a) == Look(index, a) + BallsOf(phi[..i], rho, a)
    {
      PhiAppend(phi, i, rho);
      var axis := phi[i].axis;
      index' := index'[axis := Look(index', axis) + {Ultrametric.BallId(phi[i].digits, Radius(rho, axis))}];
    }
    assert phi[..|phi|] == phi;
  }

  lemma NodeAppend(messages: Messages, rho: seq<nat>, nodes: set<MessageId>, x: MessageId)
    ensures Axes(messages, nodes + {x}) == Axes(messages, nodes) + AxesOf(Phi(messages, x))
    ensures forall a ::
              Balls(messages, rho, nodes + {x}, a) == Balls(messages, rho, nodes, a) + BallsOf(Phi(messages, x), rho, a)
  {
    hide AxesOf, BallsOf, Phi;
  }

  // ----- the analyzer

  datatype KCoreResult = KCoreResult(isFinal: bool, coreSize: nat, depth: nat, totalReputation: real,
                                     distinctBalls: map<nat, nat>, kcoreRoot: Option<MessageId>)

  const NOT_FINAL := KCoreResult(false, 0, 0, 0.0, map[], None)

  /** The search invariant: the labelling is sound, relaxed behind the queue, and ordered in it. */
  ghost predicate SearchLabels(g: Graph, within: set<MessageId>, root: MessageId, queue: Queue, done: set<MessageId>,
                               dist: map<MessageId, nat>)
  {
    && Labelled(g, within, root, dist) && Relaxed(g, within, done, dist)
    && Ordered(queue, dist) && Frontier(queue, dist, done)
  }

  /** `best` is the largest label behind the queue. */
  ghost predicate BestLabel(done: set<MessageId>, dist: map<MessageId, nat>, best: nat) {
    && (forall x :: x in done ==> x in dist && dist[x] <= best)
    && (exists x :: x in dist && dist[x] == best)
  }

  ghost predicate SearchWith(g: Graph, within: set<MessageId>, root: MessageId, visited: set<MessageId>, queue: Queue,
                             done: set<MessageId>, best: nat, dist: map<MessageId, nat>)
  {
    dist.Keys == visited && SearchLabels(g, within, root, queue, done, dist) && BestLabel(done, dist, best)
  }

  ghost predicate Searching(g: Graph, within: set<MessageId>, root: MessageId, visited: set<MessageId>, queue: Queue,
                            done: set<MessageId>, best: nat)
  {
    exists dist: map<MessageId, nat> :: SearchWith(g, within, root, visited, queue, done, best, dist)
  }

  lemma SearchStarts(g: Graph, within: set<MessageId>, root: MessageId)
    ensures Searching(g, within, root, {root}, [(root, 0)], {}, 0)
  {
    var dist: map<MessageId, nat> := map[root := 0];
    assert Walk(g, within, root, root, 0);
    assert [(root, 0)][0].0 == root;
    assert Labelled(g, within, root, dist) && Relaxed(g, within, {}, dist);
    assert Ordered([(root, 0)], dist) && Frontier([(root, 0)], dist, {});
    assert SearchWith(g, within, root, {root}, [(root, 0)], {}, 0, dist);
  }

  lemma HeadFacts(queue: Queue, dist: map<MessageId, nat>, done: set<MessageId>)
    requires queue != [] && Ordered(queue, dist) && Frontier(queue, dist, done)
    ensures done <= dist.Keys && queue[0].0 in dist && dist[queue[0].0] == queue[0].1
    ensures forall x :: x in dist ==> dist[x] <= queue[0].1 + 1
  {
  }

  lemma LabelsSearchAdvances(g: Graph, within: set<MessageId>, root: MessageId, queue: Queue, done: set<MessageId>,
                             dist: map<MessageId, nat>, ids: seq<MessageId>, u: MessageId, d: nat)
    requires queue != [] && queue[0] == (u, d) && SearchLabels(g, within, root, queue, done, dist)
    requires forall c :: c in ids <==> c in g.ChildrenOf(u) && c in within && c !in dist
    ensures u in dist && dist[u] == d
    ensures SearchLabels(g, within, root, queue[1..] + Tag(ids, d + 1), done + {u}, Label(dist, ids, d + 1))
  {
    hide Labelled, Relaxed, Label, Ordered, Frontier, Tag;
    HeadFacts(queue, dist, done);
    OrderedAdvances(queue, dist, ids);
    FrontierAdvances(queue, dist, done, ids, d + 1);
    LabelsAdvance(g, within, root, dist, done, u, ids);
  }

  lemma BestAdvances(done: set<MessageId>, dist: map<MessageId, nat>, best: nat, u: MessageId, ids: seq<MessageId>,
                     best': nat)
    requires BestLabel(done, dist, best) && u in dist && best' == Ultrametric.Max(best, dist[u])
    requires forall c :: c in ids ==> c !in dist
    ensures BestLabel(done + {u}, Label(dist, ids, dist[u] + 1), best')
  {
    var far :| far in dist && dist[far] == best;
    assert Label(dist, ids, dist[u] + 1)[far] == best && Label(dist, ids, dist[u] + 1)[u] == dist[u];
  }

  lemma LabelKeys(dist: map<MessageId, nat>, ids: seq<MessageId>, d: nat)
    ensures Label(dist, ids, d).Keys == dist.Keys + Elements(ids)
  {
  }

  lemma SearchWithAdvances(g: Graph, within: set<MessageId>, root: MessageId, visited: set<MessageId>, queue: Queue,
                           done: set<MessageId>, best: nat, dist: map<MessageId, nat>, ids: seq<MessageId>,
                           u: MessageId, d: nat, best': nat)
    requires queue != [] && queue[0] == (u, d) && best' == Ultrametric.Max(best, d)
    requires SearchWith(g, within, root, visited, queue, done, best, dist)
    requires forall c :: c in ids <==> c in g.ChildrenOf(u) && c in within && c !in visited
    ensures SearchWith(g, within, root, visited + Elements(ids), queue[1..] + Tag(ids, d + 1), done + {u}, best',
                       Label(dist, ids, d + 1))
  {
    hide SearchLabels, BestLabel, Label, Tag;
    LabelsSearchAdvances(g, within, root, queue, done, dist, ids, u, d);
    BestAdvances(done, dist, best, u, ids, best');
    LabelKeys(dist, ids, d + 1);
  }

  lemma SearchAdvances(g: Graph, within: set<MessageId>, root: MessageId, visited: set<MessageId>, queue: Queue,
                       done: set<MessageId>, best: nat, ids: seq<MessageId>, u: MessageId, d: nat, best': nat)
    requires queue != [] && queue[0] == (u, d) && best' == Ultrametric.Max(best, d)
    requires Searching(g, within, root, visited, queue, done, best)
    requires forall c :: c in ids <==> c in g.ChildrenOf(u) && c in within && c !in visited
    ensures Searching(g, within, root, visited + Elements(ids), queue[1..] + Tag(ids, d + 1), done + {u}, best')
  {
    hide SearchWith, Label, Tag;
    var dist: map<MessageId, nat> :| SearchWith(g, within, root, visited, queue, done, best, dist);
    SearchWithAdvances(g, within, root, visited, queue, done, best, dist, ids, u, d, best');
  }

  /** What a search from `root` inside `within` comes to. */
  ghost function ReachedIn(g: Graph, within: set<MessageId>, root: MessageId): set<MessageId> {
    set x | x in within + {root} && Reachable(g, within, root, x)
  }

  lemma LabelsReach(g: Graph, within: set<MessageId>, root: MessageId, dist: map<MessageId, nat>)
    requires Labelled(g, within, root, dist) && Relaxed(g, within, dist.Keys, dist)
    ensures dist.Keys == ReachedIn(g, within, root)
  {
    forall x | Reachable(g, within, root, x) ensures x in dist {
      var n: nat :| Walk(g, within, root, x, n);
      LabelsBoundWalks(g, within, root, dist, x, n);
    }
    forall x | x in dist ensures x in ReachedIn(g, within, root) {
      assert Walk(g, within, root, x, dist[x]);
    }
  }

  type ChildrenCache = map<MessageId, seq<MessageId>>

  /** The children cache after the lists of `ids` were fetched from `g`: old entries stay, new ones are the lists of
      now. */
  ghost predicate Fetched(g: Graph, ids: set<MessageId>, before: ChildrenCache, after: ChildrenCache) {
    && after.Keys == before.Keys + ids
    && forall x :: x in after ==> after[x] == if x in before then before[x] else g.ChildrenOf(x)
  }

  lemma FetchedNone(g: Graph, cache: ChildrenCache)
    ensures Fetched(g, {}, cache, cache)
  {
  }

  lemma FetchedMore(g: Graph, ids: set<MessageId>, id: MessageId, start: ChildrenCache, before: ChildrenCache,
                    after: ChildrenCache)
    requires Fetched(g, ids, start, before) && Fetched(g, {id}, before, after)
    ensures Fetched(g, ids + {id}, start, after)
  {
  }

  lemma SearchFinished(g: Graph, within: set<MessageId>, root: MessageId, visited: set<MessageId>, done: set<MessageId>,
                       d: nat)
    requires Searching(g, within, root, visited, [], done, d)
    ensures IsDepth(g, within, root, d)
    ensures done == ReachedIn(g, within, root)
  {
    hide Labelled, Relaxed;
    var dist: map<MessageId, nat> :| SearchWith(g, within, root, visited, [], done, d, dist);
    assert done == dist.Keys;
    LabelsGiveDepth(g, within, root, dist, d);
    LabelsReach(g, within, root, dist);
  }

  lemma EmptyCore(g: Graph, k: nat)
    ensures MaximalCore(g, k, {}) == {}
  {
    MaximalCoreIsGreatest(g, k, {});
  }

  lemma NoNodes(messages: Messages, reputation: nat -> real, rho: seq<nat>)
    ensures IndexExact(messages, rho, {}, map[])
    ensures TotalReputation(messages, reputation, {}) == 0.0
  {
  }

  lemma IndexAdvances(messages: Messages, rho: seq<nat>, nodes: set<MessageId>, x: MessageId, index: BallIndex,
                      index': BallIndex)
    requires IndexExact(messages, rho, nodes, index)
    requires index'.Keys == index.Keys + AxesOf(Phi(messages, x))
    requires forall a :: Look(index', a) == Look(index, a) + BallsOf(Phi(messages, x), rho, a)
    ensures IndexExact(messages, rho, nodes + {x}, index')
  {
    hide Axes, Balls, AxesOf, BallsOf, Phi, Look;
    NodeAppend(messages, rho, nodes, x);
  }

  /** A node below `k` in a superset of the greatest core is not in the greatest core. */
  lemma LowIsOutside(g: Graph, k: nat, nodes: set<MessageId>, core: set<MessageId>, n: MessageId)
    requires MaximalCore(g, k, nodes) <= core && Degree(g, core, n) < k
    ensures n !in MaximalCore(g, k, nodes)
  {
    MaximalCoreIsGreatest(g, k, nodes);
    DegreeMonotone(g, MaximalCore(g, k, nodes), core, n);
  }

  /** A round either finds a k-core or removes only nodes outside the greatest one. */
  lemma LowRound(g: Graph, k: nat, nodes: set<MessageId>, core: set<MessageId>, degrees: map<MessageId, nat>,
                 low: seq<MessageId>)
    requires DegreesExact(g, nodes, core, degrees) && MaximalCore(g, k, nodes) <= core && core <= nodes
    requires forall x :: x in low <==> x in degrees && x in core && degrees[x] < k
    ensures forall x :: x in low ==> x !in MaximalCore(g, k, nodes)
    ensures low == [] ==> IsCore(g, k, core)
  {
    forall x | x in low ensures x !in MaximalCore(g, k, nodes) {
      LowIsOutside(g, k, nodes, core, x);
    }
  }

  /** The depth an analysis works with: a cached one as it is, otherwise the true one in the cached view of the
      graph. */
  ghost predicate UsesDepth(cache: map<MessageId, nat>, view: Graph, core: set<MessageId>, root: MessageId, d: nat) {
    if root in cache then d == cache[root] else IsDepth(view, core, root, d)
  }

  class KCoreAnalyzer {
    const k: nat
    const minDepth: nat
    const minDiversity: nat
    const minReputation: real
    const rho: seq<nat>
    var depthCache: map<MessageId, nat>
    var childrenCache: ChildrenCache

    /** Cached answers are still those of `g`. */
    ghost predicate Fresh(g: Graph)
      reads this
    {
      && (forall x :: x in childrenCache ==> childrenCache[x] == g.ChildrenOf(x))
      && (forall r :: r in depthCache ==> IsDepth(g, MaximalCore(g, k, Cone(g, r)), r, depthCache[r]))
    }

    constructor (k: nat, minDepth: nat, minDiversity: nat, minReputation: real, rho: seq<nat>)
      ensures this.k == k && this.minDepth == minDepth && this.minDiversity == minDiversity
      ensures this.minReputation == minReputation && this.rho == rho
      ensures depthCache == map[] && childrenCache == map[] && forall g :: Fresh(g)
    {
      this.k, this.minDepth, this.minDiversity := k, minDepth, minDiversity;
      this.minReputation, this.rho := minReputation, rho;
      depthCache, childrenCache := map[], map[];
    }

    method ClearCaches()
      modifies this
      ensures depthCache == map[] && childrenCache == map[] && forall g :: Fresh(g)
    {
      depthCache, childrenCache := map[], map[];
    }

    method InitDegrees(nodes: set<MessageId>, g: Graph) returns (degrees: map<MessageId, nat>)
      ensures DegreesExact(g, nodes, nodes, degrees)
    {
      degrees := map[];
      var todo := nodes;
      while todo != {}
        invariant todo <= nodes && degrees.Keys == nodes - todo
        invariant forall x :: x in degrees ==> degrees[x] == Degree(g, nodes, x)
        decreases |todo|
      {
        var node :| node in todo;
        degrees := degrees[node := CountIn(g.ParentsOf(node), nodes) + CountIn(g.ChildrenOf(node), nodes)];
        todo := todo - {node};
      }
    }

    /** One round of the peeling loop: removes a batch and updates the neighbours' degrees node by node. */
    method RemoveAll(g: Graph, ghost nodes: set<MessageId>, core: set<MessageId>, degrees: map<MessageId, nat>,
                     toRemove: seq<MessageId>)
        returns (core': set<MessageId>, degrees': map<MessageId, nat>, changed: bool)
      requires Consistent(g) && core <= nodes && DegreesExact(g, nodes, core, degrees)
      requires NoDuplicates(toRemove) && forall x :: x in toRemove ==> x in core
      ensures core' <= core && forall x :: x in core' <==> x in core && x !in toRemove
      ensures DegreesExact(g, nodes, core', degrees')
      ensures changed <==> toRemove != []
      ensures if changed then core' < core else core' == core
    {
      hide DegreesExact;
      core', degrees', changed := core, degrees, false;
      for i := 0 to |toRemove|
        invariant changed <==> i > 0
        invariant forall x :: x in core' <==> x in core && x !in toRemove[..i]
        invariant DegreesExact(g, nodes, core', degrees')
      {
        assert toRemove[..i + 1] == toRemove[..i] + [toRemove[i]];
        degrees' := Detach(g, nodes, core', degrees', toRemove[i]);
        core' := core' - {toRemove[i]};
        changed := true;
      }
      assert toRemove[..|toRemove|] == toRemove;
      assert changed ==> toRemove[0] in toRemove;
    }

    /** `compute_kcore`: the peeling loop reaches the greatest k-core, whatever order it removes nodes in. */
    method ComputeKCore(nodes: set<MessageId>, g: Graph) returns (core: set<MessageId>)
      requires Consistent(g)
      ensures core == MaximalCore(g, k, nodes)
    {
      hide Degree, MaximalCore, IsCore, DegreesExact;
      core := nodes;
      var degrees := InitDegrees(nodes, g);
      MaximalCoreIsGreatest(g, k, nodes);
      var changed := true;
      while changed
        invariant MaximalCore(g, k, nodes) <= core && core <= nodes
        invariant DegreesExact(g, nodes, core, degrees)
        invariant !changed ==> IsCore(g, k, core)
        decreases |core|, changed
      {
        var toRemove := LowDegree(core, degrees, k);
        ghost var before := core;
        LowRound(g, k, nodes, core, degrees, toRemove);
        core, degrees, changed := RemoveAll(g, nodes, core, degrees, toRemove);
        if changed {
          StrictSubsetSmaller(core, before);
        }
      }
      MaximalCoreUnique(g, k, nodes, core);
    }

    /** The graph as the analyzer sees it: cached child lists hide the stored ones. */
    ghost function View(g: Graph): Graph
      reads this
    {
      g.(children := g.children + childrenCache)
    }

    lemma FreshView(g: Graph)
      ensures (forall x :: View(g).ChildrenOf(x) == g.ChildrenOf(x)) <==>
                (forall x :: x in childrenCache ==> childrenCache[x] == g.ChildrenOf(x))
    {
      forall x ensures View(g).ChildrenOf(x) == if x in childrenCache then childrenCache[x] else g.ChildrenOf(x) {
      }
      if forall x :: View(g).ChildrenOf(x) == g.ChildrenOf(x) {
        forall x | x in childrenCache ensures childrenCache[x] == g.ChildrenOf(x) {
          assert View(g).ChildrenOf(x) == childrenCache[x];
        }
      }
    }

    method FetchChildren(id: MessageId, g: Graph) returns (children: seq<MessageId>)
      modifies this`childrenCache
      ensures children == old(View(g)).ChildrenOf(id)
      ensures forall x :: View(g).ChildrenOf(x) == old(View(g)).ChildrenOf(x)
      ensures Fetched(g, {id}, old(childrenCache), childrenCache)
    {
      if id in childrenCache {
        children := childrenCache[id];
      } else {
        children := g.ChildrenOf(id);
        childrenCache := childrenCache[id := children];
      }
    }

    /** The children of one node that are in the k-core and were not seen before. */
    method Expand(current: MessageId, visited: set<MessageId>, kcore: set<MessageId>, g: Graph)
        returns (visited': set<MessageId>, newFound: seq<MessageId>)
      modifies this`childrenCache
      ensures forall c :: c in newFound <==> c in old(View(g)).ChildrenOf(current) && c in kcore && c !in visited
      ensures visited' == visited + Elements(newFound) && (newFound == [] <==> visited' == visited)
      ensures forall x :: View(g).ChildrenOf(x) == old(View(g)).ChildrenOf(x)
      ensures Fetched(g, {current}, old(childrenCache), childrenCache)
    {
      hide Fetched, Graph.ChildrenOf, KCoreAnalyzer.View;
      var children := FetchChildren(current, g);
      visited', newFound := Discover(visited, children, c => c in kcore);
    }

    method Search(kcore: set<MessageId>, root: MessageId, g: Graph) returns (maxDepth: nat)
      modifies this`childrenCache
      ensures IsDepth(old(View(g)), kcore, root, maxDepth)
      ensures forall x :: View(g).ChildrenOf(x) == old(View(g)).ChildrenOf(x)
      ensures Fetched(g, ReachedIn(old(View(g)), kcore, root), old(childrenCache), childrenCache)
    {
      hide Walk, Searching, IsDepth, Tag, ReachedIn, Fetched, Graph.ChildrenOf, KCoreAnalyzer.View;
      FetchedNone(g, childrenCache);
      ghost var view := View(g);
      var universe := kcore + {root};
      maxDepth := 0;
      var visited := {root};
      var queue: Queue := [(root, 0)];
      ghost var done: set<MessageId> := {};
      SearchStarts(view, kcore, root);
      while queue != []
        invariant forall x :: View(g).ChildrenOf(x) == view.ChildrenOf(x)
        invariant visited <= universe
        invariant Searching(view, kcore, root, visited, queue, done, maxDepth)
        invariant Fetched(g, done, old(childrenCache), childrenCache)
        decreases |universe - visited|, |queue|
      {
        var (current, depth) := queue[0];
        ghost var earlier, seen, best := queue, visited, maxDepth;
        maxDepth := Ultrametric.Max(maxDepth, depth);
        ghost var cache := childrenCache;
        var newFound;
        visited, newFound := Expand(current, visited, kcore, g);
        FetchedMore(g, done, current, old(childrenCache), cache, childrenCache);
        queue := queue[1..] + Tag(newFound, depth + 1);
        SearchAdvances(view, kcore, root, seen, earlier, done, best, newFound, current, depth, maxDepth);
        SearchProgress(universe, seen, visited);
        done := done + {current};
      }
      SearchFinished(view, kcore, root, visited, done, maxDepth);
    }

    /** `compute_depth`: a cached answer is returned as it is; otherwise the search finds the largest distance. */
    method ComputeDepth(kcore: set<MessageId>, root: MessageId, g: Graph) returns (depth: nat)
      modifies this
      ensures root in old(depthCache) ==>
                depth == old(depthCache)[root] && depthCache == old(depthCache) && childrenCache == old(childrenCache)
      ensures root !in old(depthCache) ==>
                IsDepth(old(View(g)), kcore, root, depth) && depthCache == old(depthCache)[root := depth]
                && Fetched(g, ReachedIn(old(View(g)), kcore, root), old(childrenCache), childrenCache)
      ensures forall x :: View(g).ChildrenOf(x) == old(View(g)).ChildrenOf(x)
    {
      if root in depthCache {
        return depthCache[root];
      }
      hide IsDepth, ReachedIn, Fetched;
      depth := Search(kcore, root, g);
      depthCache := depthCache[root := depth];
    }

    method VisitNode(messages: Messages, reputation: nat -> real, node: MessageId, index: BallIndex,
                     ghost seen: set<MessageId>)
        returns (r: real, index': BallIndex)
      requires IndexExact(messages, rho, seen, index)
      ensures r == NodeReputation(messages, reputation, node)
      ensures IndexExact(messages, rho, seen + {node}, index')
    {
      hide IndexExact, Balls, Axes, BallsOf, AxesOf, Look;
      r, index' := 0.0, index;
      if node in messages {
        r := reputation(messages[node].proposer);
        index' := AddBalls(index, messages[node].phi, rho);
      } else {
        NoPhi(rho);
      }
      IndexAdvances(messages, rho, seen, node, index, index');
    }

    method CountBalls(ghost messages: Messages, ghost kcore: set<MessageId>, index: BallIndex)
        returns (r: map<nat, nat>)
      requires IndexExact(messages, rho, kcore, index)
      ensures r == DistinctBalls(messages, rho, kcore)
    {
      r := map a | a in index :: |index[a]|;
    }

    /** `compute_metrics`: reputation sum and distinct balls per axis, in any iteration order. */
    method ComputeMetrics(kcore: set<MessageId>, messages: Messages, reputation: nat -> real)
        returns (total: real, distinctBalls: map<nat, nat>)
      ensures total == TotalReputation(messages, reputation, kcore)
      ensures distinctBalls == DistinctBalls(messages, rho, kcore)
    {
      hide IndexExact, TotalReputation, DistinctBalls, NodeReputation;
      total := 0.0;
      var index: BallIndex := map[];
      var todo := kcore;
      NoNodes(messages, reputation, rho);
      assert kcore - todo == {};
      while todo != {}
        invariant todo <= kcore
        invariant total + TotalReputation(messages, reputation, todo) == TotalReputation(messages, reputation, kcore)
        invariant IndexExact(messages, rho, kcore - todo, index)
        decreases |todo|
      {
        var node :| node in todo;
        TotalWithout(messages, reputation, todo, node);
        assert kcore - (todo - {node}) == kcore - todo + {node};
        var r;
        r, index := VisitNode(messages, reputation, node, index, kcore - todo);
        total := total + r;
        todo := todo - {node};
      }
      assert kcore - todo == kcore;
      distinctBalls := CountBalls(messages, kcore, index);
    }

    /** `analyze`: the verdict, and the evidence it rests on. */
    method Analyze(root: MessageId, storage: MessageStore, reputation: nat -> real) returns (result: KCoreResult)
      requires storage.Valid()
      modifies this
      ensures var core := MaximalCore(storage.graph, k, Cone(storage.graph, root));
              if core == {} then result == NOT_FINAL
              else
                && result.coreSize == |core| && result.kcoreRoot == Some(root)
                && result.totalReputation == TotalReputation(storage.messages, reputation, core)
                && result.distinctBalls == DistinctBalls(storage.messages, rho, core)
                && (result.isFinal <==>
                     && |core| >= k && result.depth >= minDepth && result.totalReputation >= minReputation
                     && forall a :: a in result.distinctBalls ==> result.distinctBalls[a] >= minDiversity)
                && UsesDepth(old(depthCache), old(View(storage.graph)), core, root, result.depth)
                && depthCache == old(depthCache)[root := result.depth]
      ensures var core := MaximalCore(storage.graph, k, Cone(storage.graph, root));
              if core == {} || root in old(depthCache) then childrenCache == old(childrenCache)
              else
                Fetched(storage.graph, ReachedIn(old(View(storage.graph)), core, root), old(childrenCache),
                        childrenCache)
      ensures MaximalCore(storage.graph, k, Cone(storage.graph, root)) == {} ==> depthCache == old(depthCache)
      ensures forall x :: View(storage.graph).ChildrenOf(x) == old(View(storage.graph)).ChildrenOf(x)
      ensures old(Fresh(storage.graph)) ==> Fresh(storage.graph)
    {
      hide MaximalCore, Cone, IsDepth, TotalReputation, DistinctBalls, Fetched, ReachedIn;
      var cone := BuildForwardCone(root, storage.graph);
      if cone == {} {
        EmptyCore(storage.graph, k);
        return NOT_FINAL;
      }
      var core := ComputeKCore(cone, storage.graph);
      if core == {} {
        return NOT_FINAL;
      }
      ghost var view := View(storage.graph);
      FreshView(storage.graph);
      var depth := ComputeDepth(core, root, storage.graph);
      FreshView(storage.graph);
      if forall x :: view.ChildrenOf(x) == storage.graph.ChildrenOf(x) {
        SameChildrenSameDepth(view, storage.graph, core, root, depth);
      }
      var total, distinctBalls := ComputeMetrics(core, storage.messages, reputation);
      var diverse := forall a :: a in distinctBalls ==> distinctBalls[a] >= minDiversity;
      var isFinal := |core| >= k && depth >= minDepth && diverse && total >= minReputation;
      result := KCoreResult(isFinal, |core|, depth, total, distinctBalls, Some(root));
    }
  }
}
