/** The message DAG: messages, parent lists, and the child lists the storage keeps in step with them. */
module Dag {
  import opened Common

  datatype AxisPhi = AxisPhi(axis: nat, digits: seq<Byte>)

  datatype Message = Message(id: MessageId, parents: seq<MessageId>, proposer: nat, phi: seq<AxisPhi>)

  /** Adjacency lists; an id without an entry has an empty list. */
  datatype Graph = Graph(parents: map<MessageId, seq<MessageId>>, children: map<MessageId, seq<MessageId>>) {
    function ParentsOf(id: MessageId): seq<MessageId> {
      if id in parents then parents[id] else []
    }

    function ChildrenOf(id: MessageId): seq<MessageId> {
      if id in children then children[id] else []
    }

    function AddEdge(parent: MessageId, child: MessageId): Graph {
      Graph(parents[child := ParentsOf(child) + [parent]], children[parent := ChildrenOf(parent) + [child]])
    }
  }

  /** Occurrences of `x` in a list. */
  ghost function Count(s: seq<MessageId>, x: MessageId): nat {
    if s == [] then 0 else Count(s[..|s| - 1], x) + if s[|s| - 1] == x then 1 else 0
  }

  /** Entries of a list that lie in `nodes`. */
  function CountIn(s: seq<MessageId>, nodes: set<MessageId>): nat {
    if s == [] then 0 else CountIn(s[..|s| - 1], nodes) + if s[|s| - 1] in nodes then 1 else 0
  }

  lemma CountAppend(s: seq<MessageId>, y: MessageId, x: MessageId)
    ensures Count(s + [y], x) == Count(s, x) + if y == x then 1 else 0
  {
    assert (s + [y])[..|s|] == s;
  }

  lemma {:induction false} CountPrefix(s: seq<MessageId>, i: nat, x: MessageId)
    requires i <= |s|
    ensures Count(s[..i], x) <= Count(s, x)
  {
    if i < |s| {
      CountPrefix(s[..|s| - 1], i, x);
      assert s[..|s| - 1][..i] == s[..i];
    } else {
      assert s[..i] == s;
    }
  }

  lemma {:induction false} CountPositive(s: seq<MessageId>, x: MessageId)
    ensures Count(s, x) > 0 <==> x in s
  {
    if s != [] {
      CountPositive(s[..|s| - 1], x);
      assert s == s[..|s| - 1] + [s[|s| - 1]];
    }
  }

  lemma {:induction false} CountInWithout(s: seq<MessageId>, nodes: set<MessageId>, n: MessageId)
    requires n in nodes
    ensures CountIn(s, nodes) == CountIn(s, nodes - {n}) + Count(s, n)
  {
    if s != [] {
      CountInWithout(s[..|s| - 1], nodes, n);
    }
  }

  lemma {:induction false} CountInMonotone(s: seq<MessageId>, fewer: set<MessageId>, more: set<MessageId>)
    requires fewer <= more
    ensures CountIn(s, fewer) <= CountIn(s, more)
  {
    if s != [] {
      CountInMonotone(s[..|s| - 1], fewer, more);
    }
  }

  lemma {:induction false} CountInGrows(s: seq<MessageId>, t: seq<MessageId>, nodes: set<MessageId>)
    requires s <= t
    ensures CountIn(s, nodes) <= CountIn(t, nodes)
    decreases |t|
  {
    if s == t {
    } else {
      assert s <= t[..|t| - 1];
      CountInGrows(s, t[..|t| - 1], nodes);
    }
  }

  /** The child lists are the exact inverse of the parent lists, multiplicities included. */
  ghost predicate Consistent(g: Graph) {
    forall a: MessageId, b: MessageId :: Count(g.ChildrenOf(a), b) == Count(g.ParentsOf(b), a)
  }

  lemma AddEdgeConsistent(g: Graph, parent: MessageId, child: MessageId)
    requires Consistent(g)
    ensures Consistent(g.AddEdge(parent, child))
  {
    var g' := g.AddEdge(parent, child);
    forall a: MessageId, b: MessageId
      ensures Count(g'.ChildrenOf(a), b) == Count(g'.ParentsOf(b), a)
    {
      assert Count(g.ChildrenOf(a), b) == Count(g.ParentsOf(b), a);
      CountAppend(g.ChildrenOf(parent), child, b);
      CountAppend(g.ParentsOf(child), parent, a);
    }
  }

  /** In a consistent graph the two relations are inverse as sets. */
  lemma ConsistentMembership(g: Graph, a: MessageId, b: MessageId)
    requires Consistent(g)
    ensures b in g.ChildrenOf(a) <==> a in g.ParentsOf(b)
  {
    CountPositive(g.ChildrenOf(a), b);
    CountPositive(g.ParentsOf(b), a);
  }

  /** Growth of the DAG: lists are only appended to. */
  ghost predicate Grows(g: Graph, g': Graph) {
    && (forall x: MessageId :: g.ParentsOf(x) <= g'.ParentsOf(x))
    && (forall x: MessageId :: g.ChildrenOf(x) <= g'.ChildrenOf(x))
  }

  lemma GrowsReflexive(g: Graph)
    ensures Grows(g, g)
  {
  }

  lemma GrowsTransitive(g: Graph, g': Graph, g'': Graph)
    requires Grows(g, g') && Grows(g', g'')
    ensures Grows(g, g'')
  {
  }

  lemma AddEdgeGrows(g: Graph, parent: MessageId, child: MessageId)
    ensures Grows(g, g.AddEdge(parent, child))
  {
  }

  /** Links `child` below each of `parents`, in order. */
  ghost function LinkAll(g: Graph, parents: seq<MessageId>, child: MessageId): Graph {
    if parents == [] then g
    else LinkAll(g, parents[..|parents| - 1], child).AddEdge(parents[|parents| - 1], child)
  }

  lemma AddEdgeParents(g: Graph, parent: MessageId, child: MessageId)
    ensures g.AddEdge(parent, child).ParentsOf(child) == g.ParentsOf(child) + [parent]
    ensures forall x :: x != child ==> g.AddEdge(parent, child).ParentsOf(x) == g.ParentsOf(x)
  {
  }

  lemma AppendLast(before: seq<MessageId>, parents: seq<MessageId>)
    requires parents != []
    ensures before + parents == before + parents[..|parents| - 1] + [parents[|parents| - 1]]
  {
  }

  lemma {:induction false} LinkAllParents(g: Graph, parents: seq<MessageId>, child: MessageId)
    ensures LinkAll(g, parents, child).ParentsOf(child) == g.ParentsOf(child) + parents
    ensures forall x :: x != child ==> LinkAll(g, parents, child).ParentsOf(x) == g.ParentsOf(x)
  {
    hide Graph.ParentsOf, Graph.AddEdge;
    if parents == [] {
      assert g.ParentsOf(child) + parents == g.ParentsOf(child);
    } else {
      var init, last := parents[..|parents| - 1], parents[|parents| - 1];
      LinkAllParents(g, init, child);
      AddEdgeParents(LinkAll(g, init, child), last, child);
      AppendLast(g.ParentsOf(child), parents);
    }
  }

  /** Storing a message keeps the lists inverse to each other and only appends to them. */
  lemma {:induction false} LinkAllKeeps(g: Graph, parents: seq<MessageId>, child: MessageId)
    requires Consistent(g)
    ensures Consistent(LinkAll(g, parents, child)) && Grows(g, LinkAll(g, parents, child))
  {
    if parents == [] {
      GrowsReflexive(g);
    } else {
      hide Consistent, Grows;
      var init, last := parents[..|parents| - 1], parents[|parents| - 1];
      LinkAllKeeps(g, init, child);
      AddEdgeConsistent(LinkAll(g, init, child), last, child);
      AddEdgeGrows(LinkAll(g, init, child), last, child);
      GrowsTransitive(g, LinkAll(g, init, child), LinkAll(g, parents, child));
    }
  }

  datatype StoreError = AlreadyExists(id: MessageId)

  /** Stored messages carry exactly the parents the graph records; unknown ids have no parents. */
  ghost predicate WellStored(g: Graph, messages: map<MessageId, Message>) {
    && Consistent(g)
    && (forall x :: x in messages ==> messages[x].id == x && g.ParentsOf(x) == messages[x].parents)
    && (forall x :: x !in messages ==> g.ParentsOf(x) == [])
  }

  /** The in-memory backend behind `store_message`. */
  class MessageStore {
    var messages: map<MessageId, Message>
    var graph: Graph

    ghost predicate Valid()
      reads this
    {
      WellStored(graph, messages)
    }

    constructor ()
      ensures Valid() && messages == map[] && graph == Graph(map[], map[])
    {
      messages, graph := map[], Graph(map[], map[]);
    }

    /** Links a message below each of its parents, known or not, in order. */
    method LinkParents(message: Message)
      modifies this`graph
      ensures graph == LinkAll(old(graph), message.parents, message.id)
    {
      for i := 0 to |message.parents|
        invariant graph == LinkAll(old(graph), message.parents[..i], message.id)
      {
        assert message.parents[..i + 1][..i] == message.parents[..i];
        graph := graph.AddEdge(message.parents[i], message.id);
      }
      assert message.parents[..|message.parents|] == message.parents;
    }

    /** `store_message`: a new message is stored and linked below its parents; a known id is refused. */
    method StoreMessage(message: Message) returns (r: Result<(), StoreError>)
      requires Valid()
      modifies this
      ensures Valid() && Grows(old(graph), graph)
      ensures r.Ok? <==> message.id !in old(messages)
      ensures r.Ok? ==> messages == old(messages)[message.id := message]
      ensures r.Ok? ==> graph == LinkAll(old(graph), message.parents, message.id)
      ensures r.Err? ==> messages == old(messages) && graph == old(graph)
    {
      hide Consistent, Grows, Graph.ParentsOf, LinkAll;
      if message.id in messages {
        GrowsReflexive(graph);
        return Err(AlreadyExists(message.id));
      }
      LinkAllKeeps(graph, message.parents, message.id);
      LinkAllParents(graph, message.parents, message.id);
      messages := messages[message.id := message];
      LinkParents(message);
      assert [] + message.parents == message.parents;
      return Ok(());
    }
  }
}
