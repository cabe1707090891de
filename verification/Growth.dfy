/** What F1 evidence survives when the DAG grows by appended messages. */
module Growth {
  import opened Common
  import opened Dag
  import opened KCore

  /** The graph after storing a run of messages. */
  ghost function StoreAll(g: Graph, run: seq<Message>): Graph {
    if run == [] then g
    else LinkAll(StoreAll(g, run[..|run| - 1]), run[|run| - 1].parents, run[|run| - 1].id)
  }

  lemma {:induction false} StoreAllGrows(g: Graph, run: seq<Message>)
    requires Consistent(g)
    ensures Consistent(StoreAll(g, run)) && Grows(g, StoreAll(g, run))
  {
    if run == [] {
      GrowsReflexive(g);
    } else {
      var init, last := run[..|run| - 1], run[|run| - 1];
      StoreAllGrows(g, init);
      LinkAllKeeps(StoreAll(g, init), last.parents, last.id);
      GrowsTransitive(g, StoreAll(g, init), StoreAll(g, run));
    }
  }

  lemma ChildrenGrow(g: Graph, g': Graph)
    requires Grows(g, g')
    ensures AllChildren(g) <= AllChildren(g')
  {
    forall c | c in AllChildren(g) ensures c in AllChildren(g') {
      var a, i :| a in g.children && 0 <= i < |g.children[a]| && c == g.children[a][i];
      assert g.ChildrenOf(a) <= g'.ChildrenOf(a);
      assert g'.ChildrenOf(a)[i] == c;
      ChildrenAreChildren(g', a);
    }
  }

  lemma {:induction false} WalkGrows(g: Graph, g': Graph, within: set<MessageId>, within': set<MessageId>,
                                     root: MessageId, x: MessageId, n: nat)
    requires Grows(g, g') && within <= within' && Walk(g, within, root, x, n)
    ensures Walk(g', within', root, x, n)
    decreases n
  {
    if n > 0 {
      var u :| Walk(g, within, root, u, n - 1) && x in g.ChildrenOf(u);
      WalkGrows(g, g', within, within', root, u, n - 1);
      assert x in g'.ChildrenOf(u);
    }
  }

  /** The forward cone of a root only gains messages. */
  lemma ConeGrows(g: Graph, g': Graph, root: MessageId)
    requires Grows(g, g')
    ensures Cone(g, root) <= Cone(g', root)
  {
    ChildrenGrow(g, g');
    forall x | x in Cone(g, root) ensures x in Cone(g', root) {
      var n: nat :| Walk(g, AllChildren(g), root, x, n);
      WalkGrows(g, g', AllChildren(g), AllChildren(g'), root, x, n);
      ConeMembers(g', root, x);
    }
  }

  ghost function CoreOf(g: Graph, k: nat, root: MessageId): set<MessageId> {
    MaximalCore(g, k, Cone(g, root))
  }

  /** The k-core of a root only gains messages. */
  lemma CoreGrows(g: Graph, g': Graph, k: nat, root: MessageId)
    requires Grows(g, g')
    ensures CoreOf(g, k, root) <= CoreOf(g', k, root)
  {
    var core := CoreOf(g, k, root);
    ConeGrows(g, g', root);
    MaximalCoreIsGreatest(g, k, Cone(g, root));
    MaximalCoreIsGreatest(g', k, Cone(g', root));
    hide MaximalCore, Cone;
    forall x | x in core ensures Degree(g', core, x) >= k {
      CountInGrows(g.ParentsOf(x), g'.ParentsOf(x), core);
      CountInGrows(g.ChildrenOf(x), g'.ChildrenOf(x), core);
    }
    assert IsCore(g', k, core);
  }

  ghost predicate Extends(messages: Messages, messages': Messages) {
    forall x :: x in messages ==> x in messages' && messages'[x] == messages[x]
  }

  lemma BallsGrow(messages: Messages, messages': Messages, rho: seq<nat>, nodes: set<MessageId>, nodes': set<MessageId>,
                  axis: nat)
    requires Extends(messages, messages') && nodes <= nodes'
    ensures Balls(messages, rho, nodes, axis) <= Balls(messages', rho, nodes', axis)
    ensures |Balls(messages, rho, nodes, axis)| <= |Balls(messages', rho, nodes', axis)|
  {
    forall b | b in Balls(messages, rho, nodes, axis) ensures b in Balls(messages', rho, nodes', axis) {
      var x :| x in nodes && b in BallsOf(Phi(messages, x), rho, axis);
      assert Phi(messages', x) == Phi(messages, x);
    }
    SubsetSize(Balls(messages, rho, nodes, axis), Balls(messages', rho, nodes', axis));
  }

  lemma {:induction false} ReputationGrows(messages: Messages, messages': Messages, reputation: nat -> real,
                                           nodes: set<MessageId>, nodes': set<MessageId>)
    requires Extends(messages, messages') && nodes <= nodes' && forall pk :: reputation(pk) >= 0.0
    ensures 0.0 <= TotalReputation(messages, reputation, nodes) <= TotalReputation(messages', reputation, nodes')
    decreases nodes'
  {
    if nodes' != {} {
      var y :| y in nodes';
      ReputationGrows(messages, messages', reputation, nodes - {y}, nodes' - {y});
      TotalWithout(messages', reputation, nodes', y);
      if y in nodes {
        TotalWithout(messages, reputation, nodes, y);
      } else {
        assert nodes - {y} == nodes;
      }
    }
  }

  lemma {:induction false} ReputationRises(messages: Messages, reputation: nat -> real, reputation': nat -> real,
                                           nodes: set<MessageId>)
    requires forall pk :: reputation(pk) <= reputation'(pk)
    ensures TotalReputation(messages, reputation, nodes) <= TotalReputation(messages, reputation', nodes)
    decreases nodes
  {
    if nodes != {} {
      var y :| y in nodes;
      ReputationRises(messages, reputation, reputation', nodes - {y});
      TotalWithout(messages, reputation, nodes, y);
      TotalWithout(messages, reputation', nodes, y);
    }
  }

  /** Growth never lowers the core size, any axis's distinct-ball count, or the reputation sum. */
  lemma EvidenceGrows(g: Graph, g': Graph, messages: Messages, messages': Messages, k: nat, rho: seq<nat>,
                      reputation: nat -> real, root: MessageId)
    requires Grows(g, g') && Extends(messages, messages') && forall pk :: reputation(pk) >= 0.0
    ensures |CoreOf(g, k, root)| <= |CoreOf(g', k, root)|
    ensures forall a: nat ::
              |Balls(messages, rho, CoreOf(g, k, root), a)| <= |Balls(messages', rho, CoreOf(g', k, root), a)|
    ensures TotalReputation(messages, reputation, CoreOf(g, k, root))
         <= TotalReputation(messages', reputation, CoreOf(g', k, root))
  {
    CoreGrows(g, g', k, root);
    hide CoreOf, Balls, TotalReputation, Grows, Extends;
    var core, core' := CoreOf(g, k, root), CoreOf(g', k, root);
    SubsetSize(core, core');
    forall a: nat ensures |Balls(messages, rho, core, a)| <= |Balls(messages', rho, core', a)| {
      BallsGrow(messages, messages', rho, core, core', a);
    }
    ReputationGrows(messages, messages', reputation, core, core');
  }

  ghost predicate Diverse(messages: Messages, rho: seq<nat>, nodes: set<MessageId>, q: nat) {
    forall a :: a in Axes(messages, nodes) ==> |Balls(messages, rho, nodes, a)| >= q
  }

  ghost predicate SameAxes(messages: Messages, axes: set<nat>) {
    forall x :: x in messages ==> AxesOf(messages[x].phi) == axes
  }

  /** The size, diversity and reputation tests of finality: everything but the depth. */
  ghost predicate EvidencePasses(g: Graph, messages: Messages, k: nat, rho: seq<nat>, reputation: nat -> real,
                                 q: nat, minReputation: real, root: MessageId)
  {
    var core := CoreOf(g, k, root);
    |core| >= k && Diverse(messages, rho, core, q) && TotalReputation(messages, reputation, core) >= minReputation
  }

  lemma DiversityGrows(messages: Messages, messages': Messages, rho: seq<nat>, nodes: set<MessageId>,
                       nodes': set<MessageId>, q: nat, axes: set<nat>)
    requires Extends(messages, messages') && nodes <= nodes' && Diverse(messages, rho, nodes, q)
    requires SameAxes(messages', axes) && exists x :: x in nodes && x in messages
    ensures Diverse(messages', rho, nodes', q)
  {
    forall a | a in Axes(messages', nodes') ensures |Balls(messages', rho, nodes', a)| >= q {
      assert a in axes;
      var x :| x in nodes && x in messages;
      assert a in AxesOf(Phi(messages, x));
      BallsGrow(messages, messages', rho, nodes, nodes', a);
    }
  }

  /** Every axis that only the later messages carry shows enough balls. */
  ghost predicate NewAxesDiverse(messages: Messages, messages': Messages, rho: seq<nat>, nodes: set<MessageId>,
                                 nodes': set<MessageId>, q: nat)
  {
    forall a :: a in Axes(messages', nodes') && a !in Axes(messages, nodes) ==> |Balls(messages', rho, nodes', a)| >= q
  }

  /** On an axis that was there before, growth cannot lose balls: diversity can only fail on a new one. */
  lemma DiversityExactly(messages: Messages, messages': Messages, rho: seq<nat>, nodes: set<MessageId>,
                         nodes': set<MessageId>, q: nat)
    requires Extends(messages, messages') && nodes <= nodes' && Diverse(messages, rho, nodes, q)
    ensures Diverse(messages', rho, nodes', q) <==> NewAxesDiverse(messages, messages', rho, nodes, nodes', q)
  {
    hide Balls, Axes;
    forall a | a in Axes(messages', nodes') && a in Axes(messages, nodes)
      ensures |Balls(messages', rho, nodes', a)| >= q {
      BallsGrow(messages, messages', rho, nodes, nodes', a);
    }
  }

  /** Passed tests stay passed exactly when the axes that joined the k-core are diverse. */
  lemma EvidenceStaysExactly(g: Graph, g': Graph, messages: Messages, messages': Messages, k: nat, rho: seq<nat>,
                             reputation: nat -> real, q: nat, minReputation: real, root: MessageId)
    requires Grows(g, g') && Extends(messages, messages') && forall pk :: reputation(pk) >= 0.0
    requires EvidencePasses(g, messages, k, rho, reputation, q, minReputation, root)
    ensures EvidencePasses(g', messages', k, rho, reputation, q, minReputation, root)
            <==> NewAxesDiverse(messages, messages', rho, CoreOf(g, k, root), CoreOf(g', k, root), q)
  {
    EvidenceGrows(g, g', messages, messages', k, rho, reputation, root);
    CoreGrows(g, g', k, root);
    hide CoreOf, Diverse, TotalReputation, Grows, Extends, NewAxesDiverse;
    DiversityExactly(messages, messages', rho, CoreOf(g, k, root), CoreOf(g', k, root), q);
  }

  lemma RootInCone(g: Graph, root: MessageId)
    ensures root in Cone(g, root)
  {
    assert Walk(g, AllChildren(g), root, root, 0);
    ConeMembers(g, root, root);
  }

  lemma EverythingIsZeroCore(g: Graph, nodes: set<MessageId>)
    ensures MaximalCore(g, 0, nodes) == nodes
  {
    MaximalCoreIsGreatest(g, 0, nodes);
    assert IsCore(g, 0, nodes);
  }

  lemma {:induction false} CountInMember(s: seq<MessageId>, nodes: set<MessageId>)
    requires CountIn(s, nodes) >= 1
    ensures exists x :: x in s && x in nodes
  {
    var init, last := s[..|s| - 1], s[|s| - 1];
    assert s == init + [last];
    if last !in nodes {
      CountInMember(init, nodes);
    }
  }

  /** A non-empty k-core holds a stored message: one with a neighbour, or that neighbour. */
  lemma CoreIsStored(g: Graph, messages: Messages, k: nat, root: MessageId)
    requires WellStored(g, messages) && (k >= 1 || root in messages) && CoreOf(g, k, root) != {}
    ensures exists x :: x in CoreOf(g, k, root) && x in messages
  {
    var core := CoreOf(g, k, root);
    MaximalCoreIsGreatest(g, k, Cone(g, root));
    hide MaximalCore;
    if k >= 1 {
      var x :| x in core;
      assert Degree(g, core, x) >= 1;
      if x !in messages {
        CountInMember(g.ChildrenOf(x), core);
        var c :| c in g.ChildrenOf(x) && c in core;
        ConsistentMembership(g, x, c);
        assert g.ParentsOf(c) != [];
      }
    } else {
      RootInCone(g, root);
      EverythingIsZeroCore(g, Cone(g, root));
    }
  }

  /** If all messages carry the same axes, the three tests stay passed once passed. */
  lemma EvidenceStaysPassed(g: Graph, g': Graph, messages: Messages, messages': Messages, k: nat, rho: seq<nat>,
                            reputation: nat -> real, q: nat, minReputation: real, root: MessageId, axes: set<nat>)
    requires Grows(g, g') && Extends(messages, messages') && forall pk :: reputation(pk) >= 0.0
    requires WellStored(g, messages) && (k >= 1 || root in messages) && SameAxes(messages', axes)
    requires EvidencePasses(g, messages, k, rho, reputation, q, minReputation, root)
    ensures EvidencePasses(g', messages', k, rho, reputation, q, minReputation, root)
  {
    if k == 0 {
      RootInCone(g, root);
      EverythingIsZeroCore(g, Cone(g, root));
    }
    CoreIsStored(g, messages, k, root);
    EvidenceGrows(g, g', messages, messages', k, rho, reputation, root);
    CoreGrows(g, g', k, root);
    hide CoreOf, Diverse, TotalReputation, Grows, Extends, SameAxes;
    DiversityGrows(messages, messages', rho, CoreOf(g, k, root), CoreOf(g', k, root), q, axes);
  }

  /** Storing any run of messages that carry the shared axes keeps every message's passed tests passed. */
  method StoreRun(storage: MessageStore, run: seq<Message>, ghost k: nat, ghost rho: seq<nat>,
                  ghost reputation: nat -> real, ghost q: nat, ghost minReputation: real, ghost axes: set<nat>)
    requires storage.Valid() && k >= 1 && forall pk :: reputation(pk) >= 0.0
    requires SameAxes(storage.messages, axes) && forall i :: 0 <= i < |run| ==> AxesOf(run[i].phi) == axes
    modifies storage
    ensures storage.Valid() && Grows(old(storage.graph), storage.graph)
            && Extends(old(storage.messages), storage.messages)
    ensures forall x :: x in storage.messages <==>
                        x in old(storage.messages) || exists i :: 0 <= i < |run| && run[i].id == x
    ensures forall root ::
              EvidencePasses(old(storage.graph), old(storage.messages), k, rho, reputation, q, minReputation, root) ==>
              EvidencePasses(storage.graph, storage.messages, k, rho, reputation, q, minReputation, root)
  {
    hide Grows, EvidencePasses, WellStored, AxesOf;
    ghost var g, messages := storage.graph, storage.messages;
    GrowsReflexive(g);
    for i := 0 to |run|
      invariant storage.Valid() && Grows(g, storage.graph) && Extends(messages, storage.messages)
                && SameAxes(storage.messages, axes)
      invariant forall x :: x in storage.messages <==> x in messages || exists j :: 0 <= j < i && run[j].id == x
    {
      ghost var before := storage.graph;
      var _ := storage.StoreMessage(run[i]);
      GrowsTransitive(g, before, storage.graph);
    }
    forall root | EvidencePasses(g, messages, k, rho, reputation, q, minReputation, root)
      ensures EvidencePasses(storage.graph, storage.messages, k, rho, reputation, q, minReputation, root)
    {
      EvidenceStaysPassed(g, storage.graph, messages, storage.messages, k, rho, reputation, q, minReputation, root,
                          axes);
    }
  }

  // ----- the depth cache

  lemma DiverseIsCounts(messages: Messages, rho: seq<nat>, core: set<MessageId>, q: nat)
    ensures Diverse(messages, rho, core, q) <==>
              forall a :: a in DistinctBalls(messages, rho, core) ==> DistinctBalls(messages, rho, core)[a] >= q
  {
    hide Balls, Axes;
    var counts := DistinctBalls(messages, rho, core);
    if forall a :: a in counts ==> counts[a] >= q {
      forall a | a in Axes(messages, core) ensures |Balls(messages, rho, core, a)| >= q {
        assert a in counts && counts[a] == |Balls(messages, rho, core, a)|;
      }
    }
  }

  datatype CacheStep = Growing(message: Message) | Looking(id: MessageId, reputation: nat -> real)

  /** Once a root's depth is cached, that number stands in for its depth in every later analysis, however the DAG grows
      and whatever else is analysed in between. */
  method CachedDepthDecides(analyzer: KCoreAnalyzer, storage: MessageStore, root: MessageId, steps: seq<CacheStep>,
                            reputation: nat -> real) returns (result: KCoreResult)
    requires storage.Valid() && root in analyzer.depthCache
    modifies analyzer, storage
    ensures storage.Valid()
    ensures result.isFinal <==>
              CoreOf(storage.graph, analyzer.k, root) != {}
              && EvidencePasses(storage.graph, storage.messages, analyzer.k, analyzer.rho, reputation,
                                analyzer.minDiversity, analyzer.minReputation, root)
              && old(analyzer.depthCache)[root] >= analyzer.minDepth
  {
    hide MessageStore.Valid, MaximalCore, Cone, TotalReputation, DistinctBalls, KCoreAnalyzer.Fresh, Diverse;
    for i := 0 to |steps|
      invariant storage.Valid() && root in analyzer.depthCache
      invariant analyzer.depthCache[root] == old(analyzer.depthCache)[root]
    {
      match steps[i]
      case Growing(message) => var _ := storage.StoreMessage(message);
      case Looking(id, table) => var _ := analyzer.Analyze(id, storage, table);
    }
    result := analyzer.Analyze(root, storage, reputation);
    DiverseIsCounts(storage.messages, analyzer.rho, CoreOf(storage.graph, analyzer.k, root), analyzer.minDiversity);
  }

  // ----- a concrete DAG of two-parent messages, with `k` and the diversity threshold at 2

  ghost predicate FourIds(x: MessageId, a: MessageId, b: MessageId, c: MessageId) {
    x != a && x != b && x != c && a != b && a != c && b != c
  }

  /** Genesis messages `x` and `a`, then `b` below both and `c` below `a` and `b`; the triangle is the 2-core of `a`. */
  function FourMessages(x: MessageId, a: MessageId, b: MessageId, c: MessageId): seq<Message> {
    [Message(x, [], 0, [AxisPhi(0, [0])]), Message(a, [], 0, [AxisPhi(0, [0])]),
     Message(b, [a, x], 0, [AxisPhi(0, [1])]), Message(c, [a, b], 0, [AxisPhi(0, [0])])]
  }

  ghost function TriangleMessages(x: MessageId, a: MessageId, b: MessageId, c: MessageId): Messages {
    var ms := FourMessages(x, a, b, c);
    map[x := ms[0]][a := ms[1]][b := ms[2]][c := ms[3]]
  }

  ghost function TriangleGraph(x: MessageId, a: MessageId, b: MessageId, c: MessageId): Graph {
    LinkAll(LinkAll(LinkAll(LinkAll(Graph(map[], map[]), [], x), [], a), [a, x], b), [a, b], c)
  }

  /** A message below `b` and `c`, in the second ball of axis 0 and possibly on axis 1. */
  ghost function Newcomer(b: MessageId, c: MessageId, n: MessageId, onAxisOne: bool): Message {
    Message(n, [b, c], 0, [AxisPhi(0, [1])] + if onAxisOne then [AxisPhi(1, [0])] else [])
  }

  ghost function GrownGraph(x: MessageId, a: MessageId, b: MessageId, c: MessageId, n: MessageId): Graph {
    LinkAll(TriangleGraph(x, a, b, c), [b, c], n)
  }

  ghost function GrownMessages(x: MessageId, a: MessageId, b: MessageId, c: MessageId, n: MessageId,
                               onAxisOne: bool): Messages {
    TriangleMessages(x, a, b, c)[n := Newcomer(b, c, n, onAxisOne)]
  }

  lemma LinkTwo(g: Graph, p: MessageId, q: MessageId, child: MessageId)
    ensures LinkAll(g, [], child) == g
    ensures LinkAll(g, [p, q], child) == g.AddEdge(p, child).AddEdge(q, child)
  {
    assert [p, q][..1] == [p] && [p][..0] == [];
    assert LinkAll(g, [p], child) == LinkAll(g, [], child).AddEdge(p, child);
  }

  lemma EdgeLists(g: Graph, p: MessageId, child: MessageId)
    ensures var g' := g.AddEdge(p, child);
            && g'.ChildrenOf(p) == g.ChildrenOf(p) + [child] && g'.ParentsOf(child) == g.ParentsOf(child) + [p]
            && (forall y :: y != p ==> g'.ChildrenOf(y) == g.ChildrenOf(y))
            && (forall y :: y != child ==> g'.ParentsOf(y) == g.ParentsOf(y))
  {
  }

  lemma NoEdges()
    ensures forall y :: Graph(map[], map[]).ChildrenOf(y) == [] && Graph(map[], map[]).ParentsOf(y) == []
  {
  }

  lemma TriangleLists(x: MessageId, a: MessageId, b: MessageId, c: MessageId)
    requires FourIds(x, a, b, c)
    ensures var g := TriangleGraph(x, a, b, c);
            && g.ChildrenOf(a) == [b, c] && g.ChildrenOf(b) == [c] && g.ChildrenOf(x) == [b]
            && (forall y :: y != a && y != b && y != x ==> g.ChildrenOf(y) == [])
            && g.ParentsOf(b) == [a, x] && g.ParentsOf(c) == [a, b]
            && (forall y :: y != b && y != c ==> g.ParentsOf(y) == [])
  {
    hide LinkAll, Graph.AddEdge, Graph.ChildrenOf, Graph.ParentsOf;
    var g0 := Graph(map[], map[]);
    NoEdges();
    LinkTwo(g0, a, x, x);
    LinkTwo(g0, a, x, a);
    LinkTwo(g0, a, x, b);
    var g1 := g0.AddEdge(a, b);
    var g2 := g1.AddEdge(x, b);
    LinkTwo(g2, a, b, c);
    var g3 := g2.AddEdge(a, c);
    EdgeLists(g0, a, b);
    EdgeLists(g1, x, b);
    EdgeLists(g2, a, c);
    EdgeLists(g3, b, c);
  }

  lemma GrownLists(x: MessageId, a: MessageId, b: MessageId, c: MessageId, n: MessageId)
    requires FourIds(x, a, b, c) && n !in {x, a, b, c}
    ensures var g := GrownGraph(x, a, b, c, n);
            && g.ChildrenOf(a) == [b, c] && g.ChildrenOf(b) == [c, n] && g.ChildrenOf(c) == [n] && g.ChildrenOf(n) == []
            && g.ParentsOf(a) == [] && g.ParentsOf(b) == [a, x] && g.ParentsOf(c) == [a, b] && g.ParentsOf(n) == [b, c]
  {
    hide TriangleGraph, LinkAll, Graph.AddEdge, Graph.ChildrenOf, Graph.ParentsOf;
    var g := TriangleGraph(x, a, b, c);
    TriangleLists(x, a, b, c);
    LinkTwo(g, b, c, n);
    EdgeLists(g, b, n);
    EdgeLists(g.AddEdge(b, n), c, n);
  }

  lemma PairCount(p: MessageId, q: MessageId, nodes: set<MessageId>)
    ensures CountIn([p, q], nodes) == (if p in nodes then 1 else 0) + if q in nodes then 1 else 0
    ensures CountIn([p], nodes) == if p in nodes then 1 else 0
    ensures CountIn([], nodes) == 0
  {
    assert [p, q][..1] == [p] && [p][..0] == [];
    assert CountIn([p], nodes) == CountIn([], nodes) + if p in nodes then 1 else 0;
    assert CountIn([p, q], nodes) == CountIn([p], nodes) + if q in nodes then 1 else 0;
  }

  lemma ChildOfSomeone(g: Graph, c: MessageId) returns (u: MessageId)
    requires c in AllChildren(g)
    ensures c in g.ChildrenOf(u)
  {
    u :| u in g.children && c in g.children[u];
  }

  /** The cone is closed under child edges. */
  lemma EdgeInCone(g: Graph, root: MessageId, u: MessageId, x: MessageId)
    requires x in g.ChildrenOf(u) && (u == root || u in Cone(g, root))
    ensures root in Cone(g, root) && x in Cone(g, root)
  {
    RootInCone(g, root);
    ConeMembers(g, root, u);
    ChildrenAreChildren(g, u);
    ReachableStep(g, AllChildren(g), root, u, x);
    ConeMembers(g, root, x);
  }

  lemma TriangleCone(g: Graph, x: MessageId, a: MessageId, b: MessageId, c: MessageId)
    requires g.ChildrenOf(a) == [b, c] && g.ChildrenOf(b) == [c] && g.ChildrenOf(x) == [b]
    requires forall y :: y != a && y != b && y != x ==> g.ChildrenOf(y) == []
    ensures Cone(g, a) == {a, b, c}
  {
    hide Graph.ChildrenOf, AllChildren, Descendant;
    EdgeInCone(g, a, a, b);
    EdgeInCone(g, a, a, c);
    forall y | y in AllChildren(g) ensures y == b || y == c {
      var u := ChildOfSomeone(g, y);
    }
  }

  lemma TriangleIsCore(g: Graph, x: MessageId, a: MessageId, b: MessageId, c: MessageId)
    requires FourIds(x, a, b, c)
    requires g.ChildrenOf(a) == [b, c] && g.ChildrenOf(b) == [c] && g.ParentsOf(b) == [a, x] && g.ParentsOf(c) == [a, b]
    ensures IsCore(g, 2, {a, b, c})
  {
    hide Graph.ChildrenOf, Graph.ParentsOf, CountIn;
    PairCount(b, c, {a, b, c});
    PairCount(c, c, {a, b, c});
    PairCount(a, x, {a, b, c});
    PairCount(a, b, {a, b, c});
  }

  lemma TriangleCore(x: MessageId, a: MessageId, b: MessageId, c: MessageId)
    requires FourIds(x, a, b, c)
    ensures CoreOf(TriangleGraph(x, a, b, c), 2, a) == {a, b, c}
  {
    hide TriangleGraph, Graph.ChildrenOf, Graph.ParentsOf, IsCore, Cone, MaximalCore;
    var g := TriangleGraph(x, a, b, c);
    TriangleLists(x, a, b, c);
    TriangleCone(g, x, a, b, c);
    TriangleIsCore(g, x, a, b, c);
    MaximalCoreIsGreatest(g, 2, {a, b, c});
  }

  lemma GrownIsCore(g: Graph, x: MessageId, a: MessageId, b: MessageId, c: MessageId, n: MessageId)
    requires FourIds(x, a, b, c) && n !in {x, a, b, c}
    requires g.ChildrenOf(a) == [b, c] && g.ChildrenOf(b) == [c, n] && g.ChildrenOf(c) == [n]
    requires g.ParentsOf(c) == [a, b] && g.ParentsOf(n) == [b, c]
    ensures IsCore(g, 2, {a, b, c, n}) && {a, b, c, n} <= Cone(g, a)
  {
    hide Graph.ChildrenOf, Graph.ParentsOf, CountIn, Cone;
    PairCount(b, c, {a, b, c, n});
    PairCount(c, n, {a, b, c, n});
    PairCount(a, b, {a, b, c, n});
    EdgeInCone(g, a, a, b);
    EdgeInCone(g, a, a, c);
    EdgeInCone(g, a, b, n);
  }

  lemma GrownCore(x: MessageId, a: MessageId, b: MessageId, c: MessageId, n: MessageId)
    requires FourIds(x, a, b, c) && n !in {x, a, b, c}
    ensures {a, b, c, n} <= CoreOf(GrownGraph(x, a, b, c, n), 2, a)
  {
    hide GrownGraph, Graph.ChildrenOf, Graph.ParentsOf, IsCore, Cone, MaximalCore;
    var g := GrownGraph(x, a, b, c, n);
    GrownLists(x, a, b, c, n);
    GrownIsCore(g, x, a, b, c, n);
    MaximalCoreIsGreatest(g, 2, Cone(g, a));
    assert {a, b, c, n} <= MaximalCore(g, 2, Cone(g, a));
  }

  lemma OneAxisBalls(digit: Byte)
    ensures AxesOf([AxisPhi(0, [digit])]) == {0} && BallsOf([AxisPhi(0, [digit])], [1], 0) == {[digit]}
  {
    var phi := [AxisPhi(0, [digit])];
    assert phi[0].axis == 0 && [digit][..1] == [digit];
  }

  lemma TwoBalls(balls: set<seq<Byte>>, x: seq<Byte>, y: seq<Byte>)
    requires x in balls && y in balls && x != y
    ensures |balls| >= 2
  {
    assert |balls - {x}| == |balls| - 1 && y in balls - {x};
  }

  /** Where all messages are on axis 0 and `a` and `b` are among the nodes, there are two balls. */
  lemma TwoBallsOnAxis(messages: Messages, a: MessageId, b: MessageId, nodes: set<MessageId>)
    requires a in nodes && b in nodes && Phi(messages, a) == [AxisPhi(0, [0])] && Phi(messages, b) == [AxisPhi(0, [1])]
    requires forall y :: y in messages ==> AxesOf(messages[y].phi) == {0}
    ensures Diverse(messages, [1], nodes, 2)
  {
    OneAxisBalls(0);
    OneAxisBalls(1);
    hide AxesOf, BallsOf;
    assert Axes(messages, nodes) <= {0} by {
      forall y, axis | y in nodes && axis in AxesOf(Phi(messages, y)) ensures axis == 0 {
        NoPhi([1]);
      }
    }
    var balls := Balls(messages, [1], nodes, 0);
    assert [0] in BallsOf(Phi(messages, a), [1], 0) && [1] in BallsOf(Phi(messages, b), [1], 0);
    assert [0] in balls && [1] in balls;
    assert [0][0] != [1][0];
    TwoBalls(balls, [0], [1]);
  }

  lemma TriangleDiverse(x: MessageId, a: MessageId, b: MessageId, c: MessageId)
    requires FourIds(x, a, b, c)
    ensures Diverse(TriangleMessages(x, a, b, c), [1], {a, b, c}, 2)
  {
    OneAxisBalls(0);
    OneAxisBalls(1);
    hide AxesOf, Diverse;
    TwoBallsOnAxis(TriangleMessages(x, a, b, c), a, b, {a, b, c});
  }

  lemma TotalNotNegative(messages: Messages, reputation: nat -> real, nodes: set<MessageId>)
    requires forall pk :: reputation(pk) >= 0.0
    ensures TotalReputation(messages, reputation, nodes) >= 0.0
  {
    ReputationGrows(messages, messages, reputation, nodes, nodes);
  }

  /** The triangle passes the size, diversity and reputation tests. */
  lemma TriangleEvidence(x: MessageId, a: MessageId, b: MessageId, c: MessageId, reputation: nat -> real)
    requires FourIds(x, a, b, c) && forall pk :: reputation(pk) >= 0.0
    ensures EvidencePasses(TriangleGraph(x, a, b, c), TriangleMessages(x, a, b, c), 2, [1], reputation, 2, 0.0, a)
  {
    hide TriangleGraph, TriangleMessages, CoreOf, Diverse, TotalReputation;
    TriangleCore(x, a, b, c);
    TriangleDiverse(x, a, b, c);
    TotalNotNegative(TriangleMessages(x, a, b, c), reputation, {a, b, c});
    assert |{a, b, c}| == 3;
  }

  lemma EmptyConsistent()
    ensures Consistent(Graph(map[], map[]))
  {
  }

  lemma TriangleConsistent(x: MessageId, a: MessageId, b: MessageId, c: MessageId)
    ensures Consistent(TriangleGraph(x, a, b, c))
  {
    hide LinkAll, Consistent, Graph.ParentsOf, Grows;
    EmptyConsistent();
    var g0 := Graph(map[], map[]);
    var g1 := LinkAll(g0, [], x);
    var g2 := LinkAll(g1, [], a);
    LinkAllKeeps(g0, [], x);
    LinkAllKeeps(g1, [], a);
    LinkAllKeeps(g2, [a, x], b);
    LinkAllKeeps(LinkAll(g2, [a, x], b), [a, b], c);
  }

  lemma TriangleStored(x: MessageId, a: MessageId, b: MessageId, c: MessageId)
    requires FourIds(x, a, b, c)
    ensures WellStored(TriangleGraph(x, a, b, c), TriangleMessages(x, a, b, c))
  {
    TriangleLists(x, a, b, c);
    TriangleConsistent(x, a, b, c);
    hide TriangleGraph, Consistent, Graph.ParentsOf;
  }

  lemma StoredIsConsistent(g: Graph, messages: Messages)
    requires WellStored(g, messages)
    ensures Consistent(g)
  {
  }

  lemma AtMostOneBall(balls: set<seq<Byte>>, ball: seq<Byte>)
    requires balls <= {ball}
    ensures |balls| <= 1
  {
    SubsetSize(balls, {ball});
  }

  lemma NewcomerAxis(x: MessageId, a: MessageId, b: MessageId, c: MessageId, n: MessageId, nodes: set<MessageId>)
    requires FourIds(x, a, b, c) && n !in {x, a, b, c} && n in nodes
    ensures !Diverse(GrownMessages(x, a, b, c, n, true), [1], nodes, 2)
  {
    var messages := GrownMessages(x, a, b, c, n, true);
    var phi := Newcomer(b, c, n, true).phi;
    assert phi[1] == AxisPhi(1, [0]) && 1 in AxesOf(phi) && Phi(messages, n) == phi;
    assert 1 in Axes(messages, nodes);
    forall y, ball | y in nodes && ball in BallsOf(Phi(messages, y), [1], 1) ensures ball == [0] {
      assert y in messages;
      assert [0][..1] == [0];
    }
    AtMostOneBall(Balls(messages, [1], nodes, 1), [0]);
  }

  lemma NewcomerFails(x: MessageId, a: MessageId, b: MessageId, c: MessageId, n: MessageId, reputation: nat -> real)
    requires FourIds(x, a, b, c) && n !in {x, a, b, c}
    ensures !EvidencePasses(GrownGraph(x, a, b, c, n), GrownMessages(x, a, b, c, n, true), 2, [1], reputation, 2, 0.0,
                            a)
  {
    hide GrownGraph, GrownMessages, CoreOf, Diverse, TotalReputation;
    GrownCore(x, a, b, c, n);
    NewcomerAxis(x, a, b, c, n, CoreOf(GrownGraph(x, a, b, c, n), 2, a));
  }

  lemma GrowthStep(x: MessageId, a: MessageId, b: MessageId, c: MessageId, n: MessageId, onAxisOne: bool)
    requires FourIds(x, a, b, c) && n !in {x, a, b, c}
    ensures WellStored(TriangleGraph(x, a, b, c), TriangleMessages(x, a, b, c))
    ensures GrownGraph(x, a, b, c, n) == LinkAll(TriangleGraph(x, a, b, c), Newcomer(b, c, n, onAxisOne).parents, n)
    ensures Grows(TriangleGraph(x, a, b, c), GrownGraph(x, a, b, c, n))
    ensures Extends(TriangleMessages(x, a, b, c), GrownMessages(x, a, b, c, n, onAxisOne))
  {
    hide TriangleGraph, WellStored, Consistent, Grows, LinkAll;
    TriangleStored(x, a, b, c);
    StoredIsConsistent(TriangleGraph(x, a, b, c), TriangleMessages(x, a, b, c));
    LinkAllKeeps(TriangleGraph(x, a, b, c), [b, c], n);
  }

  /** Without shared axes the tests can be lost: the triangle passes, and a newcomer that opens axis 1 is alone on
      it. */
  lemma NewAxisLosesEvidence(x: MessageId, a: MessageId, b: MessageId, c: MessageId, n: MessageId,
                             reputation: nat -> real)
    requires FourIds(x, a, b, c) && n !in {x, a, b, c} && forall pk :: reputation(pk) >= 0.0
    ensures var g, g' := TriangleGraph(x, a, b, c), GrownGraph(x, a, b, c, n);
            var messages, messages' := TriangleMessages(x, a, b, c), GrownMessages(x, a, b, c, n, true);
            && WellStored(g, messages) && g' == LinkAll(g, messages'[n].parents, n)
            && Grows(g, g') && Extends(messages, messages')
            && EvidencePasses(g, messages, 2, [1], reputation, 2, 0.0, a)
            && !EvidencePasses(g', messages', 2, [1], reputation, 2, 0.0, a)
  {
    hide TriangleGraph, TriangleMessages, GrownGraph, EvidencePasses, WellStored, Consistent, Grows, LinkAll, Extends;
    GrowthStep(x, a, b, c, n, true);
    TriangleEvidence(x, a, b, c, reputation);
    NewcomerFails(x, a, b, c, n, reputation);
  }

  lemma SameAxisMessages(x: MessageId, a: MessageId, b: MessageId, c: MessageId, n: MessageId)
    requires FourIds(x, a, b, c) && n !in {x, a, b, c}
    ensures SameAxes(GrownMessages(x, a, b, c, n, false), {0})
  {
    OneAxisBalls(0);
    OneAxisBalls(1);
    hide AxesOf;
    assert Newcomer(b, c, n, false).phi == [AxisPhi(0, [1])];
  }

  /** A newcomer on axis 0 leaves the tests passed. */
  lemma GrownEvidence(x: MessageId, a: MessageId, b: MessageId, c: MessageId, n: MessageId, reputation: nat -> real)
    requires FourIds(x, a, b, c) && n !in {x, a, b, c} && forall pk :: reputation(pk) >= 0.0
    ensures EvidencePasses(GrownGraph(x, a, b, c, n), GrownMessages(x, a, b, c, n, false), 2, [1], reputation, 2, 0.0,
                           a)
  {
    hide TriangleGraph, GrownGraph, EvidencePasses, WellStored, Grows, CoreOf;
    GrowthStep(x, a, b, c, n, false);
    TriangleEvidence(x, a, b, c, reputation);
    SameAxisMessages(x, a, b, c, n);
    EvidenceStaysPassed(TriangleGraph(x, a, b, c), GrownGraph(x, a, b, c, n), TriangleMessages(x, a, b, c),
                        GrownMessages(x, a, b, c, n, false), 2, [1], reputation, 2, 0.0, a, {0});
  }

  lemma TriangleWalks(g: Graph, a: MessageId, b: MessageId, c: MessageId, within: set<MessageId>)
    requires b in within && c in within && b in g.ChildrenOf(a) && c in g.ChildrenOf(a)
    ensures Walk(g, within, a, a, 0) && Walk(g, within, a, b, 1) && Walk(g, within, a, c, 1)
  {
    hide Graph.ChildrenOf;
    assert Walk(g, within, a, a, 0);
    WalkStep(g, within, a, a, b, 0);
    WalkStep(g, within, a, a, c, 0);
  }

  lemma TriangleRelaxed(g: Graph, a: MessageId, b: MessageId, c: MessageId, within: set<MessageId>,
                        dist: map<MessageId, nat>)
    requires a != b && a != c && b != c && dist == map[a := 0, b := 1, c := 1]
    requires g.ChildrenOf(a) == [b, c] && g.ChildrenOf(b) == [c] && g.ChildrenOf(c) == []
    ensures Relaxed(g, within, dist.Keys, dist)
  {
    hide Graph.ChildrenOf;
  }

  lemma TriangleDepth(x: MessageId, a: MessageId, b: MessageId, c: MessageId)
    requires FourIds(x, a, b, c)
    ensures IsDepth(TriangleGraph(x, a, b, c), {a, b, c}, a, 1)
  {
    hide TriangleGraph, Graph.ChildrenOf, IsDepth, Walk, Relaxed;
    var g, within := TriangleGraph(x, a, b, c), {a, b, c};
    TriangleLists(x, a, b, c);
    var dist: map<MessageId, nat> := map[a := 0, b := 1, c := 1];
    TriangleWalks(g, a, b, c, within);
    TriangleRelaxed(g, a, b, c, within, dist);
    assert dist[b] == 1;
    LabelsGiveDepth(g, within, a, dist, 1);
  }

  lemma GrownRelaxed(g: Graph, a: MessageId, b: MessageId, c: MessageId, n: MessageId, within: set<MessageId>,
                     dist: map<MessageId, nat>)
    requires a != b && a != c && b != c && n !in {a, b, c} && dist == map[a := 0, b := 1, c := 1, n := 2]
    requires g.ChildrenOf(a) == [b, c] && g.ChildrenOf(b) == [c, n] && g.ChildrenOf(c) == [n] && g.ChildrenOf(n) == []
    ensures Relaxed(g, within, dist.Keys, dist)
  {
    hide Graph.ChildrenOf;
  }

  lemma GrownDepth(x: MessageId, a: MessageId, b: MessageId, c: MessageId, n: MessageId, within: set<MessageId>)
    requires FourIds(x, a, b, c) && n !in {x, a, b, c} && {a, b, c, n} <= within
    ensures IsDepth(GrownGraph(x, a, b, c, n), within, a, 2)
  {
    hide GrownGraph, Graph.ChildrenOf, IsDepth, Walk, Relaxed;
    var g := GrownGraph(x, a, b, c, n);
    GrownLists(x, a, b, c, n);
    var dist: map<MessageId, nat> := map[a := 0, b := 1, c := 1, n := 2];
    TriangleWalks(g, a, b, c, within);
    WalkStep(g, within, a, b, n, 1);
    GrownRelaxed(g, a, b, c, n, within, dist);
    assert dist[n] == 2;
    LabelsGiveDepth(g, within, a, dist, 2);
  }
}
