/** The finality engine: pending messages become artifacts, refunds and checkpoints. */
module Engine {
  import opened Common
  import opened Dag
  import opened KCore
  import opened Growth
  import opened Merkle
  import opened Deposits
  import opened Ledger
  import opened Balance
  import CP = Checkpoint
  import Ultrametric

  datatype FinalityGate = F1KCore | F2PersistentHomology | F1AndF2Composite

  datatype F2Evidence = F2Evidence(h3Stable: bool, bottleneck: real, confidence: real, numFinalized: nat)

  datatype FinalityWitness = FinalityWitness(kcoreRoot: Option<MessageId>, depth: nat, diversityOk: bool,
                                             reputationSum: real, distinctBalls: map<nat, nat>, coreSize: nat,
                                             f2: Option<F2Evidence>)

  datatype FinalityParams = FinalityParams(k: U64, q: nat, depthStar: nat, rSumMin: real)

  datatype FinalityArtifact = FinalityArtifact(intent: MessageId, gate: FinalityGate, params: FinalityParams,
                                               evidence: FinalityWitness)
  {
    predicate IsValid() {
      evidence.diversityOk && evidence.depth >= params.depthStar && evidence.reputationSum >= params.rSumMin
    }
  }

  datatype FinalityConfig = FinalityConfig(k: U64, minDepth: nat, minDiversity: nat, minReputation: real,
                                           windowSize: nat, f2Enabled: bool, f1Enabled: bool, checkpointInterval: U64)

  /** What the topological check reports when it succeeds. */
  datatype F2Outcome = F2Outcome(messages: seq<MessageId>, h3Stable: bool, bottleneck: real, confidence: real)

  type Artifacts = map<MessageId, FinalityArtifact>

  /** The artifact of an F2 finalisation: a fixed depth of 3, no reputation, no k-core. */
  function F2Artifact(config: FinalityConfig, id: MessageId, o: F2Outcome): FinalityArtifact {
    FinalityArtifact(
      id, F2PersistentHomology, FinalityParams(config.k, config.minDiversity, config.minDepth, config.minReputation),
      FinalityWitness(None, 3, true, 0.0, map[], 0,
                      Some(F2Evidence(o.h3Stable, o.bottleneck, o.confidence, |o.messages|))))
  }

  /** Unlike an F1 artifact it satisfies `is_valid` only for small parameters: with a positive reputation threshold,
      never. */
  lemma F2ArtifactValidity(config: FinalityConfig, id: MessageId, o: F2Outcome)
    ensures F2Artifact(config, id, o).IsValid() <==> config.minDepth <= 3 && config.minReputation <= 0.0
  {
  }

  /** What it reports: the check's own figures, the config's thresholds, and no k-core. */
  lemma F2ArtifactReports(config: FinalityConfig, id: MessageId, o: F2Outcome)
    ensures var a := F2Artifact(config, id, o);
            && a.intent == id && a.gate == F2PersistentHomology
            && a.params.k == config.k && a.params.q == config.minDiversity && a.params.depthStar == config.minDepth
            && a.params.rSumMin == config.minReputation
            && a.evidence.kcoreRoot.None? && a.evidence.coreSize == 0 && a.evidence.distinctBalls == map[]
            && a.evidence.depth == 3 && a.evidence.reputationSum == 0.0
            && a.evidence.f2 == Some(F2Evidence(o.h3Stable, o.bottleneck, o.confidence, |o.messages|))
  {
  }

  // ----- the queue of pending messages

  /** The entries of `pending` that are not in `gone`, in order. */
  function Remove(pending: seq<MessageId>, gone: seq<MessageId>): (r: seq<MessageId>)
    ensures forall x :: x in r <==> x in pending && x !in gone
  {
    if pending == [] then []
    else
      assert pending == pending[..|pending| - 1] + [pending[|pending| - 1]];
      Remove(pending[..|pending| - 1], gone)
      + if pending[|pending| - 1] in gone then [] else [pending[|pending| - 1]]
  }

  lemma RemoveLast(pending: seq<MessageId>, gone: seq<MessageId>)
    ensures Remove([], gone) == []
    ensures pending != [] ==>
              var n := |pending| - 1;
              Remove(pending, gone) == Remove(pending[..n], gone) + (if pending[n] in gone then [] else [pending[n]])
  {
  }

  lemma {:induction false} RemoveNothing(pending: seq<MessageId>)
    ensures Remove(pending, []) == pending
  {
    hide Remove;
    RemoveLast(pending, []);
    if pending != [] {
      RemoveNothing(pending[..|pending| - 1]);
      AppendLast([], pending);
      assert [] + pending == pending;
    }
  }

  // ----- the checkpoint books

  /** The F1 lists of all checkpoints, oldest first. */
  ghost function Flatten(cs: seq<CP.Checkpoint>): seq<MessageId> {
    if cs == [] then [] else Flatten(cs[..|cs| - 1]) + cs[|cs| - 1].f1.finalizedMessages
  }

  /** Chained checkpoints whose F1 lists, with the current buffer, spell the order of F1 finalisation. */
  ghost predicate Books(hash: HashFn, cs: seq<CP.Checkpoint>, buffer: seq<MessageId>, order: seq<MessageId>) {
    && CP.IsChain(hash, cs) && Flatten(cs) + buffer == order
    && forall i :: 0 <= i < |cs| ==> cs[i].messagesRoot == MerkleRoot(hash, IdLeaves(hash, cs[i].f1.finalizedMessages))
  }

  /** Each message is F1-finalised at most once, and stays recorded. */
  ghost predicate Recorded(order: seq<MessageId>, known: set<MessageId>) {
    NoDuplicates(order) && forall x :: x in order ==> x in known
  }

  lemma RecordedMore(order: seq<MessageId>, known: set<MessageId>, known': set<MessageId>)
    requires Recorded(order, known) && known <= known'
    ensures Recorded(order, known')
  {
  }

  lemma NoDuplicatesAppend(s: seq<MessageId>, x: MessageId)
    requires NoDuplicates(s) && x !in s
    ensures NoDuplicates(s + [x])
  {
  }

  lemma RecordedAppend(order: seq<MessageId>, known: set<MessageId>, id: MessageId)
    requires Recorded(order, known) && id !in known
    ensures Recorded(order + [id], known + {id})
  {
  }

  lemma BooksAppend(hash: HashFn, cs: seq<CP.Checkpoint>, buffer: seq<MessageId>, order: seq<MessageId>, id: MessageId)
    requires Books(hash, cs, buffer, order)
    ensures Books(hash, cs, buffer + [id], order + [id])
  {
    assert Flatten(cs) + (buffer + [id]) == Flatten(cs) + buffer + [id];
  }

  lemma BooksClose(hash: HashFn, cs: seq<CP.Checkpoint>, buffer: seq<MessageId>, order: seq<MessageId>,
                   c: CP.Checkpoint)
    requires Books(hash, cs, buffer, order)
    requires c.height == |cs| && c.CountsMatch() && c.f1.finalizedMessages == buffer
    requires c.prevHash == if cs == [] then None else Some(hash(CP.Encode(cs[|cs| - 1])))
    requires c.messagesRoot == MerkleRoot(hash, IdLeaves(hash, buffer))
    ensures Books(hash, cs + [c], [], order)
  {
    hide CP.Encode, MerkleRoot, IdLeaves;
    var cs' := cs + [c];
    assert cs'[..|cs|] == cs;
    assert Flatten(cs') + [] == Flatten(cs) + buffer;
    forall i | 0 <= i < |cs'| ensures CP.Linked(hash, cs', i) {
      if i < |cs| {
        assert CP.Linked(hash, cs, i);
      }
    }
  }

  lemma {:induction false} SameFieldsSameOrder(xs: seq<CP.Checkpoint>, ys: seq<CP.Checkpoint>)
    requires |xs| == |ys| && forall i :: 0 <= i < |xs| ==> CP.HashedFields(xs[i]) == CP.HashedFields(ys[i])
    ensures Flatten(xs) == Flatten(ys)
  {
    if xs != [] {
      var n := |xs| - 1;
      SameFieldsSameOrder(xs[..n], ys[..n]);
      assert CP.HashedFields(xs[n]) == CP.HashedFields(ys[n]);
    }
  }

  /** Two engines whose latest checkpoints have equal hashes have finalised the same messages in the same order up to
      there, if no two of their checkpoints' streams collide. */
  lemma TipPinsOrder(hash: HashFn, xs: seq<CP.Checkpoint>, ys: seq<CP.Checkpoint>, buffer: seq<MessageId>,
                     buffer': seq<MessageId>, order: seq<MessageId>, order': seq<MessageId>)
    requires xs != [] && Books(hash, xs, buffer, order) && ys != [] && Books(hash, ys, buffer', order')
    requires hash(CP.Encode(xs[|xs| - 1])) == hash(CP.Encode(ys[|ys| - 1]))
    requires CollisionFree(hash, CP.ChainInputs(xs) + CP.ChainInputs(ys))
    ensures |xs| == |ys| && Flatten(xs) == Flatten(ys)
    ensures buffer == [] || buffer' == [] ==> order <= order' || order' <= order
  {
    hide CP.Encode, CP.IsChain, CP.ChainInputs, CollisionFree, CP.HashedFields, MerkleRoot, IdLeaves;
    CP.TipPinsChain(hash, xs, ys);
    SameFieldsSameOrder(xs, ys);
  }

  // ----- witnesses: their bytes and their order are not fixed

  /** What serialising each artifact's witness yielded. A witness holds a hash map, which is written in an order of its
      own, so the bytes are not a function of the witness. */
  type Written = map<MessageId, Option<seq<Byte>>>

  ghost predicate Enumerates(ids: seq<MessageId>, keys: set<MessageId>) {
    NoDuplicates(ids) && forall x :: x in ids <==> x in keys
  }

  /** The leaves of the witness tree for one enumeration of the artifacts; unserialisable witnesses are skipped. */
  ghost function WitnessLeaves(hash: HashFn, written: Written, ids: seq<MessageId>): seq<Bytes32>
    requires forall x :: x in ids ==> x in written
  {
    if ids == [] then []
    else
      var bytes := written[ids[|ids| - 1]];
      WitnessLeaves(hash, written, ids[..|ids| - 1]) + if bytes.Some? then [hash(bytes.value)] else []
  }

  ghost predicate IsWitnessRoot(hash: HashFn, written: Written, root: Bytes32) {
    exists ids :: Enumerates(ids, written.Keys) && root == MerkleRoot(hash, WitnessLeaves(hash, written, ids))
  }

  lemma NoLeaves(hash: HashFn, written: Written)
    ensures WitnessLeaves(hash, written, []) == []
  {
  }

  lemma LeafStep(hash: HashFn, written: Written, ids: seq<MessageId>, id: MessageId)
    requires id in written && forall x :: x in ids ==> x in written
    ensures WitnessLeaves(hash, written, ids + [id])
         == WitnessLeaves(hash, written, ids) + if written[id].Some? then [hash(written[id].value)] else []
  {
    assert (ids + [id])[..|ids|] == ids;
  }

  lemma {:induction false} LeavesConcat(hash: HashFn, written: Written, xs: seq<MessageId>, ys: seq<MessageId>)
    requires forall x :: x in xs || x in ys ==> x in written
    ensures WitnessLeaves(hash, written, xs + ys) == WitnessLeaves(hash, written, xs) + WitnessLeaves(hash, written, ys)
  {
    if ys == [] {
      assert xs + ys == xs;
    } else {
      var init, last := ys[..|ys| - 1], ys[|ys| - 1];
      assert xs + ys == (xs + init) + [last] && ys == init + [last];
      LeavesConcat(hash, written, xs, init);
      LeafStep(hash, written, xs + init, last);
      LeafStep(hash, written, init, last);
    }
  }

  lemma {:induction false} LeavesAreWritten(hash: HashFn, written: Written, ids: seq<MessageId>, leaf: Bytes32)
    requires (forall x :: x in ids ==> x in written) && leaf in WitnessLeaves(hash, written, ids)
    ensures exists x :: x in ids && written[x].Some? && leaf == hash(written[x].value)
  {
    var init, last := ids[..|ids| - 1], ids[|ids| - 1];
    assert ids == init + [last];
    if leaf in WitnessLeaves(hash, written, init) {
      LeavesAreWritten(hash, written, init, leaf);
    }
  }

  ghost function Serialised(written: Written, ids: seq<MessageId>): set<MessageId> {
    set x | x in ids && x in written && written[x].Some?
  }

  /** As many leaves as serialisable artifacts, in every order. */
  lemma {:induction false} LeafCount(hash: HashFn, written: Written, ids: seq<MessageId>)
    requires NoDuplicates(ids) && forall x :: x in ids ==> x in written
    ensures |WitnessLeaves(hash, written, ids)| == |Serialised(written, ids)|
  {
    if ids != [] {
      var init, last := ids[..|ids| - 1], ids[|ids| - 1];
      LeafCount(hash, written, init);
      assert ids == init + [last] && last !in init;
      assert Serialised(written, ids) == Serialised(written, init) + if written[last].Some? then {last} else {};
    }
  }

  lemma SameLeafCount(hash: HashFn, written: Written, ids: seq<MessageId>, ids': seq<MessageId>)
    requires Enumerates(ids, written.Keys) && Enumerates(ids', written.Keys)
    ensures |WitnessLeaves(hash, written, ids)| == |WitnessLeaves(hash, written, ids')|
  {
    LeafCount(hash, written, ids);
    LeafCount(hash, written, ids');
    assert Serialised(written, ids) == Serialised(written, ids');
  }

  /** All serialisable witnesses have the same bytes. */
  ghost predicate SameBytes(written: Written) {
    forall x, y :: x in written && y in written && written[x].Some? && written[y].Some? ==> written[x] == written[y]
  }

  lemma SameBytesSameLeaves(hash: HashFn, written: Written, ids: seq<MessageId>, ids': seq<MessageId>)
    requires SameBytes(written) && Enumerates(ids, written.Keys) && Enumerates(ids', written.Keys)
    ensures WitnessLeaves(hash, written, ids) == WitnessLeaves(hash, written, ids')
  {
    var xs, ys := WitnessLeaves(hash, written, ids), WitnessLeaves(hash, written, ids');
    SameLeafCount(hash, written, ids, ids');
    hide WitnessLeaves;
    forall i | 0 <= i < |xs| ensures xs[i] == ys[i] {
      LeavesAreWritten(hash, written, ids, xs[i]);
      LeavesAreWritten(hash, written, ids', ys[i]);
    }
  }

  lemma {:induction false} EnumerationExists(keys: set<MessageId>) returns (ids: seq<MessageId>)
    ensures Enumerates(ids, keys)
    decreases keys
  {
    if keys == {} {
      ids := [];
    } else {
      var x :| x in keys;
      var rest := EnumerationExists(keys - {x});
      NoDuplicatesAppend(rest, x);
      ids := rest + [x];
    }
  }

  /** None of the byte strings hashed for any two orders of the witnesses collide. */
  ghost predicate WitnessesCollisionFree(hash: HashFn, written: Written) {
    && CollisionFree(hash, set x | x in written && written[x].Some? :: written[x].value)
    && forall ids, ids' :: Enumerates(ids, written.Keys) && Enumerates(ids', written.Keys) ==>
         CollisionFree(hash, RootInputs(hash, WitnessLeaves(hash, written, ids))
                             + RootInputs(hash, WitnessLeaves(hash, written, ids')))
  }

  lemma PairFirst(x: MessageId, y: MessageId, rest: seq<MessageId>, keys: set<MessageId>)
    requires x in keys && y in keys && x != y && Enumerates(rest, keys - {x} - {y})
    ensures Enumerates([x, y] + rest, keys)
  {
    var ids := [x, y] + rest;
    forall i, j | 0 <= i < j < |ids| ensures ids[i] != ids[j] {
      assert j >= 2 ==> ids[j] == rest[j - 2] && rest[j - 2] in rest;
    }
    forall z ensures z in ids <==> z in keys {
      assert z in ids <==> z == x || z == y || z in rest;
    }
  }

  lemma PairLeaves(hash: HashFn, written: Written, x: MessageId, y: MessageId)
    requires x in written && y in written && written[x].Some? && written[y].Some?
    ensures WitnessLeaves(hash, written, [x, y]) == [hash(written[x].value), hash(written[y].value)]
  {
    assert [x, y][..1] == [x] && [x][..0] == [];
    assert WitnessLeaves(hash, written, [x]) == [hash(written[x].value)];
  }

  /** Two orders that swap the first two artifacts, when these were written differently. */
  lemma SwappedOrders(hash: HashFn, written: Written, x: MessageId, y: MessageId)
      returns (ids: seq<MessageId>, ids': seq<MessageId>)
    requires x in written && y in written && written[x].Some? && written[y].Some?
    requires hash(written[x].value) != hash(written[y].value)
    ensures Enumerates(ids, written.Keys) && Enumerates(ids', written.Keys)
    ensures WitnessLeaves(hash, written, ids) != WitnessLeaves(hash, written, ids')
  {
    var rest := EnumerationExists(written.Keys - {x} - {y});
    ids, ids' := [x, y] + rest, [y, x] + rest;
    PairFirst(x, y, rest, written.Keys);
    PairFirst(y, x, rest, written.Keys);
    PairLeaves(hash, written, x, y);
    PairLeaves(hash, written, y, x);
    LeavesConcat(hash, written, [x, y], rest);
    LeavesConcat(hash, written, [y, x], rest);
    hide WitnessLeaves;
    assert WitnessLeaves(hash, written, ids)[0] != WitnessLeaves(hash, written, ids')[0];
  }

  lemma TwoWitnessRoots(hash: HashFn, written: Written) returns (r: Bytes32, r': Bytes32)
    requires WitnessesCollisionFree(hash, written) && !SameBytes(written)
    ensures IsWitnessRoot(hash, written, r) && IsWitnessRoot(hash, written, r') && r != r'
  {
    hide MerkleRoot, WitnessLeaves, RootInputs;
    var x, y :| x in written && y in written && written[x].Some? && written[y].Some? && written[x] != written[y];
    assert hash(written[x].value) != hash(written[y].value);
    var ids, ids' := SwappedOrders(hash, written, x, y);
    SameLeafCount(hash, written, ids, ids');
    var xs, ys := WitnessLeaves(hash, written, ids), WitnessLeaves(hash, written, ids');
    r, r' := MerkleRoot(hash, xs), MerkleRoot(hash, ys);
    if r == r' {
      RootBinding(hash, xs, ys);
    }
  }

  /** The witness root is the same in every order exactly when all serialisable witnesses have the same bytes. */
  lemma WitnessRootExactly(hash: HashFn, written: Written)
    requires WitnessesCollisionFree(hash, written)
    ensures (forall r, r' :: IsWitnessRoot(hash, written, r) && IsWitnessRoot(hash, written, r') ==> r == r')
            <==> SameBytes(written)
  {
    hide MerkleRoot, WitnessLeaves, RootInputs;
    if SameBytes(written) {
      forall r, r' | IsWitnessRoot(hash, written, r) && IsWitnessRoot(hash, written, r') ensures r == r' {
        var ids :| Enumerates(ids, written.Keys) && r == MerkleRoot(hash, WitnessLeaves(hash, written, ids));
        var ids' :| Enumerates(ids', written.Keys) && r' == MerkleRoot(hash, WitnessLeaves(hash, written, ids'));
        SameBytesSameLeaves(hash, written, ids, ids');
      }
    } else {
      var r, r' := TwoWitnessRoots(hash, written);
    }
  }

  /** So of two nodes with the same artifacts, one can hold a checkpoint that the other sees as diverging. */
  lemma WitnessOrderMatters(hash: HashFn, written: Written, c: CP.Checkpoint)
    requires WitnessesCollisionFree(hash, written) && !SameBytes(written)
             && IsWitnessRoot(hash, written, c.witnessesRoot)
    ensures exists r :: IsWitnessRoot(hash, written, r) && c.DivergesFrom(c.(witnessesRoot := r))
  {
    hide IsWitnessRoot, SameBytes, WitnessesCollisionFree;
    var r, r' := TwoWitnessRoots(hash, written);
    var other := if r != c.witnessesRoot then r else r';
    assert c.DivergesFrom(c.(witnessesRoot := other));
  }

  /** Two artifacts suffice: their witnesses written as `x` and `y` have the root of either order. */
  lemma TwoArtifactsTwoRoots(hash: HashFn, a: MessageId, b: MessageId, x: seq<Byte>, y: seq<Byte>)
    requires a != b && x != y && CollisionFree(hash, {x, y})
    requires CollisionFree(hash, {[] + hash(x) + hash(y), [] + hash(y) + hash(x)})
    ensures var written := map[a := Some(x), b := Some(y)];
            var r, r' := hash([] + hash(x) + hash(y)), hash([] + hash(y) + hash(x));
            IsWitnessRoot(hash, written, r) && IsWitnessRoot(hash, written, r') && r != r'
  {
    var written: Written := map[a := Some(x), b := Some(y)];
    PairLeaves(hash, written, a, b);
    PairLeaves(hash, written, b, a);
    RootOfTwo(hash, hash(x), hash(y));
    RootOfTwo(hash, hash(y), hash(x));
    hide MerkleRoot, WitnessLeaves;
    assert Enumerates([a, b], written.Keys) && Enumerates([b, a], written.Keys);
    if [] + hash(x) + hash(y) == [] + hash(y) + hash(x) {
      assert Joined(hash(x), hash(y)) == [] + hash(x) + hash(y) && Joined(hash(y), hash(x)) == [] + hash(y) + hash(x);
      JoinedInjective(hash(x), hash(y), hash(y), hash(x));
    }
  }

  /** The largest `k` among the artifacts, or zero. */
  ghost predicate IsMaxK(artifacts: Artifacts, m: U64) {
    && (forall x :: x in artifacts ==> artifacts[x].params.k <= m)
    && (m == 0 || exists x :: x in artifacts && artifacts[x].params.k == m)
  }

  // ----- what F1 decides

  /** The whole F1 verdict on a message: evidence and depth of its k-core. */
  ghost predicate Finalizes(config: FinalityConfig, rho: seq<nat>, g: Graph, messages: Messages,
                            reputation: nat -> real, root: MessageId) {
    && CoreOf(g, config.k, root) != {}
    && EvidencePasses(g, messages, config.k, rho, reputation, config.minDiversity, config.minReputation, root)
    && exists d: nat :: IsDepth(g, CoreOf(g, config.k, root), root, d) && d >= config.minDepth
  }

  /** What an analyzer goes by: the depths it remembers, and the graph as it sees it. */
  datatype Memory = Memory(depths: map<MessageId, nat>, view: Graph)

  /** The verdict as the engine reaches it: in place of the depth of the k-core it may use a remembered one. */
  ghost predicate Judges(config: FinalityConfig, rho: seq<nat>, g: Graph, messages: Messages, memory: Memory,
                         reputation: nat -> real, root: MessageId) {
    && CoreOf(g, config.k, root) != {}
    && EvidencePasses(g, messages, config.k, rho, reputation, config.minDiversity, config.minReputation, root)
    && exists d: nat ::
         UsesDepth(memory.depths, memory.view, CoreOf(g, config.k, root), root, d) && d >= config.minDepth
  }

  lemma UsedDepthUnique(memory: Memory, core: set<MessageId>, root: MessageId, d: nat, e: nat)
    requires UsesDepth(memory.depths, memory.view, core, root, d)
    requires UsesDepth(memory.depths, memory.view, core, root, e)
    ensures d == e
  {
    hide IsDepth;
    if root !in memory.depths {
      DepthUnique(memory.view, core, root, d, e);
    }
  }

  /** The verdict is the right one exactly when the used depth and the true one are on the same side of the threshold,
      or the other tests fail anyway. */
  lemma VerdictRightExactly(config: FinalityConfig, rho: seq<nat>, g: Graph, messages: Messages, memory: Memory,
                            reputation: nat -> real, root: MessageId, used: nat, depth: nat)
    requires var core := CoreOf(g, config.k, root);
             core != {} && UsesDepth(memory.depths, memory.view, core, root, used) && IsDepth(g, core, root, depth)
    ensures (Judges(config, rho, g, messages, memory, reputation, root)
             <==> Finalizes(config, rho, g, messages, reputation, root))
            <==>
              !EvidencePasses(g, messages, config.k, rho, reputation, config.minDiversity, config.minReputation, root)
              || (used >= config.minDepth <==> depth >= config.minDepth)
  {
    hide CoreOf, EvidencePasses, IsDepth, UsesDepth;
    var core := CoreOf(g, config.k, root);
    forall d: nat | UsesDepth(memory.depths, memory.view, core, root, d) ensures d == used {
      UsedDepthUnique(memory, core, root, d, used);
    }
    forall d: nat | IsDepth(g, core, root, d) ensures d == depth {
      DepthUnique(g, core, root, d, depth);
    }
  }

  lemma FreshDepth(analyzer: KCoreAnalyzer, g: Graph, root: MessageId, d: nat)
    requires analyzer.Fresh(g)
    ensures UsesDepth(analyzer.depthCache, analyzer.View(g), CoreOf(g, analyzer.k, root), root, d)
            <==> IsDepth(g, CoreOf(g, analyzer.k, root), root, d)
  {
    hide IsDepth, MaximalCore, Cone, Graph.ChildrenOf;
    analyzer.FreshView(g);
    if root in analyzer.depthCache {
      if IsDepth(g, CoreOf(g, analyzer.k, root), root, d) {
        DepthUnique(g, CoreOf(g, analyzer.k, root), root, d, analyzer.depthCache[root]);
      }
    } else {
      SameChildrenSameDepth(analyzer.View(g), g, CoreOf(g, analyzer.k, root), root, d);
    }
  }

  /** With caches that match the DAG every verdict is right. */
  lemma FreshJudges(analyzer: KCoreAnalyzer, config: FinalityConfig, g: Graph, messages: Messages,
                    reputation: nat -> real, root: MessageId)
    requires analyzer.Fresh(g) && analyzer.k == config.k
    ensures Judges(config, analyzer.rho, g, messages, Memory(analyzer.depthCache, analyzer.View(g)), reputation, root)
            <==> Finalizes(config, analyzer.rho, g, messages, reputation, root)
  {
    hide CoreOf, EvidencePasses, IsDepth, UsesDepth, KCoreAnalyzer.Fresh, KCoreAnalyzer.View;
    forall d: nat ensures UsesDepth(analyzer.depthCache, analyzer.View(g), CoreOf(g, analyzer.k, root), root, d)
                          <==> IsDepth(g, CoreOf(g, analyzer.k, root), root, d) {
      FreshDepth(analyzer, g, root, d);
    }
  }

  /** What is remembered later over the same DAG: the same, and depths found in the lists remembered before. */
  ghost predicate Remembers(start: Memory, g: Graph, k: nat, now: Memory) {
    && (forall x: MessageId :: now.view.ChildrenOf(x) == start.view.ChildrenOf(x))
    && (forall x :: x in start.depths ==> x in now.depths && now.depths[x] == start.depths[x])
    && (forall x :: x in now.depths && x !in start.depths ==> IsDepth(start.view, CoreOf(g, k, x), x, now.depths[x]))
  }

  /** The messages of the list that were not known and have a k-core: the roots whose depth gets looked up. */
  ghost function Looked(g: Graph, k: nat, known: set<MessageId>, list: seq<MessageId>): set<MessageId> {
    set x | x in list && x !in known && CoreOf(g, k, x) != {}
  }

  lemma LookedStep(g: Graph, k: nat, known: set<MessageId>, list: seq<MessageId>, i: nat)
    requires i < |list|
    ensures Looked(g, k, known, list[..i + 1])
         == Looked(g, k, known, list[..i])
            + if list[i] !in known && CoreOf(g, k, list[i]) != {} then {list[i]} else {}
  {
    hide CoreOf;
    assert list[..i + 1] == list[..i] + [list[i]];
  }

  lemma LookedBefore(g: Graph, k: nat, known: set<MessageId>, list: seq<MessageId>, i: nat)
    requires i <= |list|
    ensures Looked(g, k, known, list[..i]) <= Looked(g, k, known, list)
  {
    hide CoreOf;
  }

  lemma RemembersSelf(memory: Memory, g: Graph, k: nat)
    ensures Remembers(memory, g, k, memory)
  {
  }

  lemma SameListsRemember(before: Memory, g: Graph, k: nat, after: Memory)
    requires after.depths == before.depths
    requires forall x: MessageId :: after.view.ChildrenOf(x) == before.view.ChildrenOf(x)
    ensures Remembers(before, g, k, after)
  {
  }

  lemma RemembersOne(before: Memory, g: Graph, k: nat, after: Memory, root: MessageId, d: nat)
    requires forall x: MessageId :: after.view.ChildrenOf(x) == before.view.ChildrenOf(x)
    requires UsesDepth(before.depths, before.view, CoreOf(g, k, root), root, d)
    requires after.depths == before.depths[root := d]
    ensures Remembers(before, g, k, after)
  {
    hide IsDepth, CoreOf, Graph.ChildrenOf;
  }

  lemma RemembersTransitive(start: Memory, g: Graph, k: nat, before: Memory, now: Memory)
    requires Remembers(start, g, k, before) && Remembers(before, g, k, now)
    ensures Remembers(start, g, k, now)
  {
    hide IsDepth, CoreOf, Graph.ChildrenOf;
    forall x | x in now.depths && x !in start.depths ensures IsDepth(start.view, CoreOf(g, k, x), x, now.depths[x]) {
      if x !in before.depths {
        SameChildrenSameDepth(before.view, start.view, CoreOf(g, k, x), x, now.depths[x]);
      }
    }
  }

  /** What was remembered meanwhile changes no verdict. */
  lemma SameJudgement(config: FinalityConfig, rho: seq<nat>, g: Graph, messages: Messages, start: Memory, now: Memory,
                      reputation: nat -> real, root: MessageId)
    requires Remembers(start, g, config.k, now)
    ensures Judges(config, rho, g, messages, now, reputation, root)
            <==> Judges(config, rho, g, messages, start, reputation, root)
  {
    hide CoreOf, EvidencePasses, IsDepth, Graph.ChildrenOf;
    var core := CoreOf(g, config.k, root);
    forall d: nat ensures UsesDepth(now.depths, now.view, core, root, d)
                          <==> UsesDepth(start.depths, start.view, core, root, d) {
      SameChildrenSameDepth(now.view, start.view, core, root, d);
      if root in now.depths && root !in start.depths && IsDepth(start.view, core, root, d) {
        DepthUnique(start.view, core, root, d, now.depths[root]);
      }
    }
  }

  /** The depth the engine works with for message `x`. */
  ghost predicate Uses(memory: Memory, g: Graph, k: nat, x: MessageId, d: nat) {
    UsesDepth(memory.depths, memory.view, CoreOf(g, k, x), x, d)
  }

  lemma UsesUnique(memory: Memory, g: Graph, k: nat, x: MessageId, d: nat, e: nat)
    requires Uses(memory, g, k, x, d) && Uses(memory, g, k, x, e)
    ensures d == e
  {
    UsedDepthUnique(memory, CoreOf(g, k, x), x, d, e);
  }

  /** What was remembered meanwhile changes no depth. */
  lemma SameDepthUsed(start: Memory, g: Graph, k: nat, now: Memory, x: MessageId, d: nat)
    requires Remembers(start, g, k, now)
    ensures Uses(now, g, k, x, d) <==> Uses(start, g, k, x, d)
  {
    hide CoreOf, IsDepth, Graph.ChildrenOf;
    var core := CoreOf(g, k, x);
    SameChildrenSameDepth(now.view, start.view, core, x, d);
    if x in now.depths && x !in start.depths && IsDepth(start.view, core, x, d) {
      DepthUnique(start.view, core, x, d, now.depths[x]);
    }
  }

  /** The artifact's figures are those of the message's k-core, its depth the one the engine worked with. */
  ghost predicate Truthful(config: FinalityConfig, rho: seq<nat>, g: Graph, messages: Messages, memory: Memory,
                           reputation: nat -> real, a: FinalityArtifact) {
    var core := CoreOf(g, config.k, a.intent);
    && a.gate == F1KCore && a.IsValid()
    && a.params == FinalityParams(config.k, config.minDiversity, config.minDepth, config.minReputation)
    && a.evidence.kcoreRoot == Some(a.intent) && a.evidence.f2.None?
    && a.evidence.coreSize == |core| >= config.k && a.evidence.distinctBalls == DistinctBalls(messages, rho, core)
    && a.evidence.reputationSum == TotalReputation(messages, reputation, core)
    && Uses(memory, g, config.k, a.intent, a.evidence.depth)
  }

  lemma TruthfulEarlier(config: FinalityConfig, rho: seq<nat>, g: Graph, messages: Messages, start: Memory, now: Memory,
                        reputation: nat -> real, a: FinalityArtifact)
    requires Remembers(start, g, config.k, now) && Truthful(config, rho, g, messages, now, reputation, a)
    ensures Truthful(config, rho, g, messages, start, reputation, a)
  {
    hide Uses, Remembers, CoreOf, TotalReputation, DistinctBalls;
    SameDepthUsed(start, g, config.k, now, a.intent, a.evidence.depth);
  }

  /** An artifact that reports the figures of a k-core of at least `k` messages is valid exactly when its message passes
      F1. */
  lemma ArtifactValidity(config: FinalityConfig, rho: seq<nat>, g: Graph, messages: Messages, memory: Memory,
                         reputation: nat -> real, a: FinalityArtifact)
    requires var core := CoreOf(g, config.k, a.intent);
             && core != {} && |core| >= config.k
             && a.params == FinalityParams(config.k, config.minDiversity, config.minDepth, config.minReputation)
             && a.evidence.diversityOk == Diverse(messages, rho, core, config.minDiversity)
             && a.evidence.reputationSum == TotalReputation(messages, reputation, core)
             && Uses(memory, g, config.k, a.intent, a.evidence.depth)
    ensures a.IsValid() <==> Judges(config, rho, g, messages, memory, reputation, a.intent)
  {
    hide CoreOf, Diverse, TotalReputation, UsesDepth;
    forall d: nat | UsesDepth(memory.depths, memory.view, CoreOf(g, config.k, a.intent), a.intent, d)
      ensures d == a.evidence.depth
    {
      UsesUnique(memory, g, config.k, a.intent, d, a.evidence.depth);
    }
  }

  /** What an analysis that says "final" has established. */
  ghost predicate Passed(config: FinalityConfig, rho: seq<nat>, g: Graph, messages: Messages, memory: Memory,
                         reputation: nat -> real, id: MessageId, r: KCoreResult) {
    && r.isFinal && r.kcoreRoot == Some(id) && r.coreSize == |CoreOf(g, config.k, id)| >= config.k
    && r.distinctBalls == DistinctBalls(messages, rho, CoreOf(g, config.k, id))
    && (forall a :: a in r.distinctBalls ==> r.distinctBalls[a] >= config.minDiversity)
    && r.depth >= config.minDepth && r.totalReputation >= config.minReputation
    && r.totalReputation == TotalReputation(messages, reputation, CoreOf(g, config.k, id))
    && Uses(memory, g, config.k, id, r.depth)
  }

  lemma PassedUses(config: FinalityConfig, rho: seq<nat>, g: Graph, messages: Messages, memory: Memory,
                   reputation: nat -> real, id: MessageId, r: KCoreResult)
    requires Passed(config, rho, g, messages, memory, reputation, id, r)
    ensures Uses(memory, g, config.k, id, r.depth)
  {
  }

  ghost function Judgements(config: FinalityConfig, rho: seq<nat>, g: Graph, messages: Messages, memory: Memory,
                            reputations: nat -> nat -> real, list: seq<MessageId>): (verdicts: seq<bool>)
    ensures |verdicts| == |list|
  {
    seq(|list|, i requires 0 <= i < |list| => Judges(config, rho, g, messages, memory, reputations(i), list[i]))
  }

  lemma JudgementAt(config: FinalityConfig, rho: seq<nat>, g: Graph, messages: Messages, memory: Memory,
                    reputations: nat -> nat -> real, list: seq<MessageId>, i: nat)
    requires i < |list|
    ensures Judgements(config, rho, g, messages, memory, reputations, list)[i]
            <==> Judges(config, rho, g, messages, memory, reputations(i), list[i])
  {
  }

  ghost function PicksOneMore(before: seq<MessageId>, id: MessageId, verdict: bool,
                              known: set<MessageId>): seq<MessageId> {
    if verdict && id !in known && id !in before then before + [id] else before
  }

  /** The messages that pass, each once, leaving out those already known, in list order. */
  ghost function Picks(list: seq<MessageId>, verdicts: seq<bool>, known: set<MessageId>): seq<MessageId>
    requires |list| == |verdicts|
  {
    if list == [] then []
    else
      var n := |list| - 1;
      PicksOneMore(Picks(list[..n], verdicts[..n], known), list[n], verdicts[n], known)
  }

  lemma PicksStep(list: seq<MessageId>, verdicts: seq<bool>, known: set<MessageId>, i: nat)
    requires i < |list| == |verdicts|
    ensures Picks(list[..i + 1], verdicts[..i + 1], known)
         == PicksOneMore(Picks(list[..i], verdicts[..i], known), list[i], verdicts[i], known)
  {
    assert list[..i + 1][..i] == list[..i] && verdicts[..i + 1][..i] == verdicts[..i];
  }

  /** Picked are exactly the unknown messages that pass at some position, and each only once. */
  lemma {:induction false} PicksAre(list: seq<MessageId>, verdicts: seq<bool>, known: set<MessageId>)
    requires |list| == |verdicts|
    ensures NoDuplicates(Picks(list, verdicts, known))
    ensures forall x :: x in Picks(list, verdicts, known) <==>
              x !in known && exists i :: 0 <= i < |list| && list[i] == x && verdicts[i]
  {
    if list != [] {
      var n := |list| - 1;
      PicksAre(list[..n], verdicts[..n], known);
      assert Picks(list, verdicts, known)
          == PicksOneMore(Picks(list[..n], verdicts[..n], known), list[n], verdicts[n], known);
      hide Picks;
      forall x ensures x in Picks(list, verdicts, known) <==>
          x !in known && exists i :: 0 <= i < |list| && list[i] == x && verdicts[i]
      {
        if i :| 0 <= i < |list| && list[i] == x && verdicts[i] && i < n {
          assert list[..n][i] == x && verdicts[..n][i];
        }
      }
    }
  }

  /** A refund the deposit manager will refuse. */
  predicate Blocked(deposits: DepositMap, id: MessageId) {
    id in deposits && deposits[id].status != Escrowed
  }

  ghost predicate NoneBlocked(deposits: DepositMap, ids: seq<MessageId>) {
    forall x :: x in ids ==> !Blocked(deposits, x)
  }

  /** The messages before the first whose refund will be refused. */
  ghost function Unblocked(deposits: DepositMap, ids: seq<MessageId>): (r: seq<MessageId>)
    ensures r <= ids && NoneBlocked(deposits, r)
    ensures r == ids <==> NoneBlocked(deposits, ids)
    ensures |r| < |ids| ==> Blocked(deposits, ids[|r|])
  {
    if ids == [] || Blocked(deposits, ids[0]) then []
    else
      assert ids == [ids[0]] + ids[1..];
      [ids[0]] + Unblocked(deposits, ids[1..])
  }

  /** An unblocked prefix followed by a blocked message is what precedes the first blocked one. */
  lemma {:induction false} UnblockedIs(deposits: DepositMap, ids: seq<MessageId>, n: nat)
    requires n < |ids| && NoneBlocked(deposits, ids[..n]) && Blocked(deposits, ids[n])
    ensures Unblocked(deposits, ids) == ids[..n] && !NoneBlocked(deposits, ids)
  {
    assert ids[n] in ids;
    if n > 0 {
      assert ids[..n][0] == ids[0] && ids[..n][0] in ids[..n];
      assert ids[1..][..n - 1] == ids[..n][1..];
      UnblockedIs(deposits, ids[1..], n - 1);
      assert ids[..n] == [ids[0]] + ids[1..][..n - 1];
    }
  }

  lemma {:induction false} PicksPrefix(list: seq<MessageId>, verdicts: seq<bool>, known: set<MessageId>, i: nat)
    requires i <= |list| == |verdicts|
    ensures Picks(list[..i], verdicts[..i], known) <= Picks(list, verdicts, known)
    decreases |list| - i
  {
    if i == |list| {
      assert list[..i] == list && verdicts[..i] == verdicts;
    } else {
      PicksStep(list, verdicts, known, i);
      PicksPrefix(list, verdicts, known, i + 1);
    }
  }

  /** The messages an attempt is made for: those before the first blocked one, and that one. */
  ghost function Attempted(deposits: DepositMap, ids: seq<MessageId>): seq<MessageId> {
    var done := Unblocked(deposits, ids);
    if |done| < |ids| then done + [ids[|done|]] else done
  }

  lemma AllAttempted(deposits: DepositMap, ids: seq<MessageId>)
    requires NoneBlocked(deposits, ids)
    ensures Attempted(deposits, ids) == ids
  {
  }

  /** Where the run over the list ends: behind everything that passes, or at the first refused refund. */
  lemma StoppedAt(list: seq<MessageId>, verdicts: seq<bool>, known: set<MessageId>, deposits: DepositMap, i: nat)
    requires i < |list| == |verdicts| && verdicts[i] && list[i] !in known
    requires var before := Picks(list[..i], verdicts[..i], known);
             list[i] !in before && NoneBlocked(deposits, before) && Blocked(deposits, list[i])
    ensures var picks, before := Picks(list, verdicts, known), Picks(list[..i], verdicts[..i], known);
            before == Unblocked(deposits, picks) && !NoneBlocked(deposits, picks)
            && Attempted(deposits, picks) == before + [list[i]]
  {
    PicksStep(list, verdicts, known, i);
    PicksPrefix(list, verdicts, known, i + 1);
    hide Picks, Unblocked, NoneBlocked, Blocked;
    var picks, before := Picks(list, verdicts, known), Picks(list[..i], verdicts[..i], known);
    assert before + [list[i]] <= picks;
    assert picks[..|before|] == before && picks[|before|] == list[i];
    UnblockedIs(deposits, picks, |before|);
  }

  lemma StopsAtBlocked(deposits: DepositMap, picks: seq<MessageId>, before: seq<MessageId>, x: MessageId)
    requires Blocked(deposits, x) && before <= picks && (x in before || before + [x] <= picks)
    ensures Unblocked(deposits, picks) <= before && !NoneBlocked(deposits, picks)
  {
    hide Unblocked, Blocked;
    var done := Unblocked(deposits, picks);
    var i :| 0 <= i <= |before| && i < |picks| && picks[i] == x;
    assert x in picks;
    assert |done| <= i;
  }

  /** A message that passes but cannot be refunded: the run is refused and picks only from what is queued before it. */
  lemma StopsBefore(list: seq<MessageId>, verdicts: seq<bool>, known: set<MessageId>, deposits: DepositMap, k: nat)
    requires k < |list| == |verdicts| && verdicts[k] && list[k] !in known && Blocked(deposits, list[k])
    ensures var picks := Picks(list, verdicts, known);
            !NoneBlocked(deposits, picks) && Unblocked(deposits, picks) <= Picks(list[..k], verdicts[..k], known)
  {
    PicksStep(list, verdicts, known, k);
    PicksPrefix(list, verdicts, known, k);
    PicksPrefix(list, verdicts, known, k + 1);
    hide Picks, Unblocked, Blocked, NoneBlocked;
    StopsAtBlocked(deposits, Picks(list, verdicts, known), Picks(list[..k], verdicts[..k], known), list[k]);
  }

  /** So only messages queued before it are picked, and it stays as it is. */
  lemma NothingBehind(list: seq<MessageId>, verdicts: seq<bool>, known: set<MessageId>, deposits: DepositMap, k: nat)
    requires k < |list| == |verdicts| && verdicts[k] && list[k] !in known && Blocked(deposits, list[k])
    ensures var done := Unblocked(deposits, Picks(list, verdicts, known));
            list[k] !in done && forall x :: x in done ==> x in list[..k]
  {
    StopsBefore(list, verdicts, known, deposits, k);
    PicksAre(list[..k], verdicts[..k], known);
    hide Picks, Blocked, Unblocked;
    var done := Unblocked(deposits, Picks(list, verdicts, known));
    assert forall x :: x in done ==> x in Picks(list[..k], verdicts[..k], known);
  }

  lemma VerdictMeans(config: FinalityConfig, rho: seq<nat>, g: Graph, messages: Messages, memory: Memory,
                     reputation: nat -> real, root: MessageId, r: KCoreResult)
    requires var core := CoreOf(g, config.k, root);
             if core == {} then r == NOT_FINAL
             else
               && r.coreSize == |core| && r.kcoreRoot == Some(root)
               && r.totalReputation == TotalReputation(messages, reputation, core)
               && r.distinctBalls == DistinctBalls(messages, rho, core)
               && (r.isFinal <==>
                     && |core| >= config.k && r.depth >= config.minDepth && r.totalReputation >= config.minReputation
                     && forall a :: a in r.distinctBalls ==> r.distinctBalls[a] >= config.minDiversity)
               && UsesDepth(memory.depths, memory.view, core, root, r.depth)
    ensures r.isFinal ==> Passed(config, rho, g, messages, memory, reputation, root, r)
    ensures r.isFinal <==> Judges(config, rho, g, messages, memory, reputation, root)
  {
    var core := CoreOf(g, config.k, root);
    hide CoreOf, TotalReputation, UsesDepth, Balls, Axes;
    if core != {} {
      DiverseIsCounts(messages, rho, core, config.minDiversity);
      forall d: nat | UsesDepth(memory.depths, memory.view, core, root, d) ensures d == r.depth {
        UsedDepthUnique(memory, core, root, d, r.depth);
      }
    }
  }

  lemma MaxTwice(a: nat, b: nat)
    ensures a <= Ultrametric.Max(a, b) == Ultrametric.Max(Ultrametric.Max(a, b), b)
  {
  }

  /** The deposits after refunding those of `ids`. */
  ghost function AfterRefunds(deposits: DepositMap, ids: seq<MessageId>): DepositMap {
    map x | x in deposits :: if x in ids then deposits[x].(status := Refunded) else deposits[x]
  }

  /** The refund for the `i`-th reported message will be refused: its deposit was settled before, or by an earlier
      report of the same message. */
  ghost predicate Refusable(deposits: DepositMap, ids: seq<MessageId>, i: nat)
    requires i < |ids|
  {
    ids[i] in deposits && (deposits[ids[i]].status != Escrowed || ids[i] in ids[..i])
  }

  /** The run over `ids` ends at the first refusable report, or behind all of them. */
  ghost predicate StopsAt(deposits: DepositMap, ids: seq<MessageId>, stop: nat) {
    && stop <= |ids| && (forall i :: 0 <= i < stop ==> !Refusable(deposits, ids, i))
    && (stop < |ids| ==> Refusable(deposits, ids, stop))
  }

  /** The F2 artifacts of `ids` were added, and nothing else touched. */
  ghost predicate F2Adds(config: FinalityConfig, o: F2Outcome, before: Artifacts, after: Artifacts,
                         ids: seq<MessageId>) {
    && after.Keys == before.Keys + Elements(ids)
    && (forall x :: x in ids ==> after[x] == F2Artifact(config, x, o))
    && (forall x :: x in before && x !in ids ==> after[x] == before[x])
  }

  lemma F2AddsNone(config: FinalityConfig, o: F2Outcome, artifacts: Artifacts)
    ensures F2Adds(config, o, artifacts, artifacts, [])
  {
  }

  lemma ElementsStep(s: seq<MessageId>, i: nat)
    requires i < |s|
    ensures Elements(s[..i + 1]) == Elements(s[..i]) + {s[i]} <= Elements(s)
    ensures s[..i + 1] == s[..i] + [s[i]]
  {
  }

  lemma F2AddsStep(config: FinalityConfig, o: F2Outcome, start: Artifacts, before: Artifacts, ids: seq<MessageId>,
                   i: nat)
    requires i < |ids| && F2Adds(config, o, start, before, ids[..i])
    ensures F2Adds(config, o, start, before[ids[i] := F2Artifact(config, ids[i], o)], ids[..i + 1])
    ensures ids[..i + 1] == ids[..i] + [ids[i]]
  {
    hide F2Artifact;
    ElementsStep(ids, i);
  }

  lemma F2AddsMeans(config: FinalityConfig, o: F2Outcome, before: Artifacts, after: Artifacts, ids: seq<MessageId>)
    requires F2Adds(config, o, before, after, ids)
    ensures after.Keys == before.Keys + Elements(ids)
  {
  }

  /** The same deposits by the same proposers. */
  ghost predicate SameOwners(before: DepositMap, after: DepositMap) {
    after.Keys == before.Keys && forall x :: x in before ==> after[x].proposer == before[x].proposer
  }

  lemma RefundedOwners(deposits: DepositMap, ids: seq<MessageId>)
    ensures SameOwners(deposits, AfterRefunds(deposits, ids))
  {
  }

  lemma RefundedNone(deposits: DepositMap)
    ensures AfterRefunds(deposits, []) == deposits
  {
  }

  lemma RefundedStep(deposits: DepositMap, ids: seq<MessageId>, i: nat)
    requires i < |ids|
    ensures Blocked(AfterRefunds(deposits, ids[..i]), ids[i]) <==> Refusable(deposits, ids, i)
    ensures AfterRefunds(AfterRefunds(deposits, ids[..i]), [ids[i]]) == AfterRefunds(deposits, ids[..i + 1])
  {
    assert ids[..i + 1] == ids[..i] + [ids[i]];
  }

  lemma RefundedMore(deposits: DepositMap, ids: seq<MessageId>, id: MessageId)
    requires id !in ids
    ensures Blocked(AfterRefunds(deposits, ids), id) <==> Blocked(deposits, id)
    ensures AfterRefunds(AfterRefunds(deposits, ids), [id]) == AfterRefunds(deposits, ids + [id])
  {
  }

  lemma RefundedOne(deposits: DepositMap, id: MessageId)
    ensures AfterRefunds(deposits, [id])
         == if id in deposits then deposits[id := deposits[id].(status := Refunded)] else deposits
  {
  }

  lemma NoneBlockedStart(deposits: DepositMap)
    ensures NoneBlocked(deposits, [])
  {
  }

  lemma NoneBlockedStep(deposits: DepositMap, ids: seq<MessageId>, id: MessageId)
    requires NoneBlocked(deposits, ids) && !Blocked(deposits, id)
    ensures NoneBlocked(deposits, ids + [id])
  {
  }

  lemma AllUnblocked(deposits: DepositMap, ids: seq<MessageId>)
    requires NoneBlocked(deposits, ids)
    ensures Unblocked(deposits, ids) == ids
  {
  }

  /** Exactly `newly` was added to the artifacts, and nothing else touched. */
  ghost predicate Adds(before: Artifacts, after: Artifacts, newly: seq<MessageId>) {
    && after.Keys == before.Keys + Elements(newly)
    && forall x :: x in before && x !in newly ==> after[x] == before[x]
  }

  lemma KnownNotPicked(newly: seq<MessageId>, id: MessageId, verdict: bool, known: set<MessageId>)
    requires id in known || id in newly
    ensures PicksOneMore(newly, id, verdict, known) == newly
  {
  }

  lemma NewPicked(newly: seq<MessageId>, id: MessageId, verdict: bool, known: set<MessageId>)
    requires id !in known && id !in newly
    ensures PicksOneMore(newly, id, verdict, known) == if verdict then newly + [id] else newly
  {
  }

  lemma AddsNone(artifacts: Artifacts)
    ensures Adds(artifacts, artifacts, [])
  {
  }

  /** Position `i` is the first at which its message passes. */
  ghost predicate FirstPass(list: seq<MessageId>, verdicts: seq<bool>, i: nat)
    requires |list| == |verdicts|
  {
    i < |list| && verdicts[i] && forall j :: 0 <= j < i && list[j] == list[i] ==> !verdicts[j]
  }

  /** The artifacts of `ids` are truthful F1 artifacts, each made where its message first passed. */
  ghost predicate AllTruthful(config: FinalityConfig, rho: seq<nat>, g: Graph, messages: Messages, memory: Memory,
                              reputations: nat -> nat -> real, list: seq<MessageId>, artifacts: Artifacts,
                              ids: seq<MessageId>)
  {
    forall x :: x in ids ==>
                  x in artifacts && artifacts[x].intent == x
                  && exists i: nat :: FirstPass(list, Judgements(config, rho, g, messages, memory, reputations, list),
                                                i)
                                 && list[i] == x
                                 && Truthful(config, rho, g, messages, memory, reputations(i), artifacts[x])
  }

  lemma NoneToTell(config: FinalityConfig, rho: seq<nat>, g: Graph, messages: Messages, memory: Memory,
                   reputations: nat -> nat -> real, list: seq<MessageId>, artifacts: Artifacts)
    ensures AllTruthful(config, rho, g, messages, memory, reputations, list, artifacts, [])
  {
  }

  lemma PassesFirst(list: seq<MessageId>, verdicts: seq<bool>, known: set<MessageId>, i: nat)
    requires i < |list| == |verdicts| && verdicts[i] && list[i] !in known
    requires list[i] !in Picks(list[..i], verdicts[..i], known)
    ensures FirstPass(list, verdicts, i)
  {
    PicksAre(list[..i], verdicts[..i], known);
    hide Picks;
    forall j | 0 <= j < i && list[j] == list[i] ensures !verdicts[j] {
      assert list[..i][j] == list[i] && verdicts[..i][j] == verdicts[j];
    }
  }

  lemma TruthfulStep(config: FinalityConfig, rho: seq<nat>, g: Graph, messages: Messages, memory: Memory,
                     reputations: nat -> nat -> real, list: seq<MessageId>, before: Artifacts, after: Artifacts,
                     ids: seq<MessageId>, i: nat)
    requires AllTruthful(config, rho, g, messages, memory, reputations, list, before, ids)
    requires FirstPass(list, Judgements(config, rho, g, messages, memory, reputations, list), i)
    requires list[i] in after && after == before[list[i] := after[list[i]]] && after[list[i]].intent == list[i]
    requires Truthful(config, rho, g, messages, memory, reputations(i), after[list[i]])
    ensures AllTruthful(config, rho, g, messages, memory, reputations, list, after, ids + [list[i]])
  {
    hide Truthful, Judgements, FirstPass;
  }

  // ----- what happens to the depth

  /** The finalised depth is the maximum of where it started and of the depths used for `ids`. */
  ghost predicate Raised(memory: Memory, g: Graph, k: nat, start: nat, ids: seq<MessageId>, now: nat) {
    && start <= now && (forall x, d: nat :: x in ids && Uses(memory, g, k, x, d) ==> d <= now)
    && (now == start || exists x :: x in ids && Uses(memory, g, k, x, now))
  }

  lemma RaisedNone(memory: Memory, g: Graph, k: nat, start: nat)
    ensures Raised(memory, g, k, start, [], start)
  {
  }

  lemma RaisedUp(memory: Memory, g: Graph, k: nat, start: nat, ids: seq<MessageId>, now: nat)
    requires Raised(memory, g, k, start, ids, now)
    ensures start <= now
  {
  }

  lemma RaisedStep(memory: Memory, g: Graph, k: nat, start: nat, ids: seq<MessageId>, before: nat, x: MessageId, d: nat)
    requires Raised(memory, g, k, start, ids, before) && Uses(memory, g, k, x, d)
    ensures Raised(memory, g, k, start, ids + [x], Ultrametric.Max(before, d))
  {
    hide Uses;
    forall y, e: nat | y in ids + [x] && Uses(memory, g, k, y, e) ensures e <= Ultrametric.Max(before, d) {
      if y !in ids {
        UsesUnique(memory, g, k, x, d, e);
      }
    }
    assert x in ids + [x];
  }

  // ----- what happens to the checkpoints

  datatype Log = Log(checkpoints: seq<CP.Checkpoint>, f1: seq<MessageId>, f2: seq<MessageId>)

  type Serializer = (nat, MessageId, FinalityWitness) -> Option<seq<Byte>>

  /** What serialising the witnesses yields when checkpoint `height` is made. */
  ghost function WrittenFrom(serialize: Serializer, artifacts: Artifacts, height: nat): Written {
    map id | id in artifacts :: serialize(height, id, artifacts[id].evidence)
  }

  /** A checkpoint made at `now` over these artifacts and buffers. */
  ghost predicate Closes(hash: HashFn, serialize: Serializer, artifacts: Artifacts, now: I64, c: CP.Checkpoint,
                         f1: seq<MessageId>, f2: seq<MessageId>)
  {
    && c.timestamp == now && c.f1.finalizedMessages == f1 && c.f2.stabilizedMessages == f2 && c.f2.homologyRank.None?
    && c.CountsMatch() && IsMaxK(artifacts, c.f1.maxKCore)
    && IsWitnessRoot(hash, WrittenFrom(serialize, artifacts, c.height), c.witnessesRoot)
  }

  /** One more F1 id: buffered, or the last one of a checkpoint over both buffers. */
  ghost predicate Logs(hash: HashFn, serialize: Serializer, interval: U64, now: I64, artifacts: Artifacts, before: Log,
                       id: MessageId, after: Log)
  {
    if |before.f1| + 1 < interval then after == before.(f1 := before.f1 + [id])
    else
      var n := |before.checkpoints|;
      && |after.checkpoints| == n + 1 && after.checkpoints[..n] == before.checkpoints
      && after.f1 == [] && after.f2 == []
      && Closes(hash, serialize, artifacts, now, after.checkpoints[n], before.f1 + [id], before.f2)
  }

  ghost function Only(artifacts: Artifacts, keys: set<MessageId>): Artifacts {
    map x | x in artifacts && x in keys :: artifacts[x]
  }

  /** The ids one after the other, each over the artifacts there were when it was logged. */
  ghost predicate LogsAll(hash: HashFn, serialize: Serializer, interval: U64, now: I64, artifacts: Artifacts,
                          known: set<MessageId>, before: Log, ids: seq<MessageId>, after: Log)
  {
    if ids == [] then after == before
    else
      var init, last := ids[..|ids| - 1], ids[|ids| - 1];
      exists middle ::
        && LogsAll(hash, serialize, interval, now, artifacts, known, before, init, middle)
        && Logs(hash, serialize, interval, now, Only(artifacts, known + Elements(ids)), middle, last, after)
  }

  lemma LogsNone(hash: HashFn, serialize: Serializer, interval: U64, now: I64, artifacts: Artifacts,
                 known: set<MessageId>, log: Log)
    ensures LogsAll(hash, serialize, interval, now, artifacts, known, log, [], log)
  {
  }

  lemma OnlyOlder(before: Artifacts, after: Artifacts, keys: set<MessageId>, id: MessageId)
    requires id in after && after == before[id := after[id]] && id !in keys
    ensures Only(after, keys) == Only(before, keys)
  {
  }

  lemma {:induction false} LogsOlder(hash: HashFn, serialize: Serializer, interval: U64, now: I64, artifacts: Artifacts,
                                     artifacts': Artifacts, known: set<MessageId>, before: Log, ids: seq<MessageId>,
                                     after: Log, id: MessageId)
    requires LogsAll(hash, serialize, interval, now, artifacts, known, before, ids, after)
    requires id in artifacts' && artifacts' == artifacts[id := artifacts'[id]] && id !in known && id !in ids
    ensures LogsAll(hash, serialize, interval, now, artifacts', known, before, ids, after)
  {
    hide Logs, Only;
    if ids != [] {
      var init, last := ids[..|ids| - 1], ids[|ids| - 1];
      var middle :| LogsAll(hash, serialize, interval, now, artifacts, known, before, init, middle)
        && Logs(hash, serialize, interval, now, Only(artifacts, known + Elements(ids)), middle, last, after);
      LogsOlder(hash, serialize, interval, now, artifacts, artifacts', known, before, init, middle, id);
      OnlyOlder(artifacts, artifacts', known + Elements(ids), id);
    }
  }

  lemma OnlyAll(artifacts: Artifacts, keys: set<MessageId>)
    requires artifacts.Keys <= keys
    ensures Only(artifacts, keys) == artifacts
  {
  }

  lemma LogsStep(hash: HashFn, serialize: Serializer, interval: U64, now: I64, start: Artifacts, artifacts: Artifacts,
                 artifacts': Artifacts, before: Log, ids: seq<MessageId>, middle: Log, id: MessageId, after: Log)
    requires LogsAll(hash, serialize, interval, now, artifacts, start.Keys, before, ids, middle)
    requires id in artifacts' && artifacts' == artifacts[id := artifacts'[id]] && id !in start.Keys && id !in ids
    requires Adds(start, artifacts', ids + [id]) && Logs(hash, serialize, interval, now, artifacts', middle, id, after)
    ensures LogsAll(hash, serialize, interval, now, artifacts', start.Keys, before, ids + [id], after)
  {
    LogsOlder(hash, serialize, interval, now, artifacts, artifacts', start.Keys, before, ids, middle, id);
    OnlyAll(artifacts', start.Keys + Elements(ids + [id]));
    hide Logs, Only;
    assert (ids + [id])[..|ids|] == ids;
  }

  lemma LogGrows(hash: HashFn, serialize: Serializer, interval: U64, now: I64, artifacts: Artifacts, before: Log,
                 id: MessageId, after: Log)
    requires Logs(hash, serialize, interval, now, artifacts, before, id, after)
    ensures before.checkpoints <= after.checkpoints && |after.checkpoints| <= |before.checkpoints| + 1
    ensures |after.f1| <= |before.f1| + 1 && |after.f2| <= |before.f2|
  {
    hide Closes;
  }

  /** The least positive number of ids that closes a checkpoint. */
  function PerCheckpoint(interval: U64): nat {
    if interval == 0 then 1 else interval
  }

  /** Once the buffer is shorter than the interval it stays so, and every new checkpoint holds exactly that many. */
  lemma {:induction false} IntervalKept(hash: HashFn, serialize: Serializer, interval: U64, now: I64,
                                        artifacts: Artifacts, known: set<MessageId>, before: Log,
                                        ids: seq<MessageId>, after: Log)
    requires LogsAll(hash, serialize, interval, now, artifacts, known, before, ids, after)
    requires |before.f1| < PerCheckpoint(interval)
    ensures |after.f1| < PerCheckpoint(interval) && before.checkpoints <= after.checkpoints
    ensures forall i :: |before.checkpoints| <= i < |after.checkpoints| ==>
              |after.checkpoints[i].f1.finalizedMessages| == PerCheckpoint(interval)
  {
    hide IsMaxK, IsWitnessRoot, WrittenFrom, Only;
    if ids != [] {
      var init, last := ids[..|ids| - 1], ids[|ids| - 1];
      var middle :| LogsAll(hash, serialize, interval, now, artifacts, known, before, init, middle)
        && Logs(hash, serialize, interval, now, Only(artifacts, known + Elements(ids)), middle, last, after);
      IntervalKept(hash, serialize, interval, now, artifacts, known, before, init, middle);
      var n := |middle.checkpoints|;
      assert after.checkpoints[..n] == middle.checkpoints;
    }
  }

  lemma AddsStep(start: Artifacts, before: Artifacts, after: Artifacts, newly: seq<MessageId>, id: MessageId)
    requires Adds(start, before, newly) && id in after && after == before[id := after[id]] && id !in before
    ensures Adds(start, after, newly + [id])
  {
    assert after.Keys == before.Keys + {id};
    assert Elements(newly + [id]) == Elements(newly) + {id};
  }

  lemma NotInAdds(before: Artifacts, after: Artifacts, newly: seq<MessageId>, id: MessageId)
    requires Adds(before, after, newly) && id !in after
    ensures id !in newly && id !in before
  {
  }

  lemma PickedFrom(list: seq<MessageId>, verdicts: seq<bool>, known: set<MessageId>, i: nat)
    requires i <= |list| == |verdicts|
    ensures forall x :: x in Picks(list[..i], verdicts[..i], known) ==> x in list && x !in known
  {
    PicksAre(list[..i], verdicts[..i], known);
  }

  lemma NoneLooked(g: Graph, k: nat, known: set<MessageId>, list: seq<MessageId>)
    ensures Looked(g, k, known, list[..0]) == {}
  {
  }

  /** A picked message was looked at, so meeting it again adds nothing. */
  lemma AddedWasLooked(config: FinalityConfig, rho: seq<nat>, g: Graph, messages: Messages, memory: Memory,
                       reputations: nat -> nat -> real, list: seq<MessageId>, known: set<MessageId>, i: nat)
    requires i < |list|
    requires var verdicts := Judgements(config, rho, g, messages, memory, reputations, list);
             list[i] in known || list[i] in Picks(list[..i], verdicts[..i], known)
    ensures Looked(g, config.k, known, list[..i + 1]) == Looked(g, config.k, known, list[..i])
  {
    var verdicts := Judgements(config, rho, g, messages, memory, reputations, list);
    PicksAre(list[..i], verdicts[..i], known);
    LookedStep(g, config.k, known, list, i);
    hide Picks, CoreOf, Judges;
    if list[i] !in known {
      var j :| 0 <= j < i && list[..i][j] == list[i] && verdicts[..i][j];
      assert list[..i][j] in list[..i];
    }
  }

  lemma KnownOrNew(before: Artifacts, after: Artifacts, newly: seq<MessageId>, id: MessageId)
    requires Adds(before, after, newly) && id in after
    ensures id in before || id in newly
  {
  }

  lemma NoPicks(known: set<MessageId>)
    ensures Picks([], [], known) == []
  {
  }

  lemma WholeList(list: seq<MessageId>, verdicts: seq<bool>)
    requires |list| == |verdicts|
    ensures list[..|list|] == list && verdicts[..|list|] == verdicts
  {
  }

  lemma AddsKeys(before: Artifacts, after: Artifacts, newly: seq<MessageId>)
    requires Adds(before, after, newly)
    ensures after.Keys == before.Keys + Elements(newly)
    ensures newly == [] ==> after.Keys == before.Keys
  {
  }

  // ----- one F1 run

  /** Where an F1 run over `list` starts. */
  datatype Scene = Scene(config: FinalityConfig, rho: seq<nat>, g: Graph, messages: Messages, memory: Memory,
                         reputations: nat -> nat -> real, list: seq<MessageId>, hash: HashFn, serialize: Serializer,
                         now: I64, artifacts: Artifacts, deposits: DepositMap, log: Log)

  ghost function SceneVerdicts(s: Scene): (verdicts: seq<bool>)
    ensures |verdicts| == |s.list|
  {
    Judgements(s.config, s.rho, s.g, s.messages, s.memory, s.reputations, s.list)
  }

  /** The state of the run when `newly` were finalised. */
  ghost predicate Progress(s: Scene, artifacts: Artifacts, deposits: DepositMap, log: Log, newly: seq<MessageId>) {
    && Adds(s.artifacts, artifacts, newly) && NoneBlocked(s.deposits, newly)
    && AllTruthful(s.config, s.rho, s.g, s.messages, s.memory, s.reputations, s.list, artifacts, newly)
    && deposits == AfterRefunds(s.deposits, newly)
    && LogsAll(s.hash, s.serialize, s.config.checkpointInterval, s.now, artifacts, s.artifacts.Keys, s.log, newly, log)
  }

  lemma ProgressStarts(s: Scene)
    ensures Progress(s, s.artifacts, s.deposits, s.log, [])
  {
    AddsNone(s.artifacts);
    NoneBlockedStart(s.deposits);
    NoneToTell(s.config, s.rho, s.g, s.messages, s.memory, s.reputations, s.list, s.artifacts);
    RefundedNone(s.deposits);
    LogsNone(s.hash, s.serialize, s.config.checkpointInterval, s.now, s.artifacts, s.artifacts.Keys, s.log);
  }

  lemma ProgressNext(s: Scene, artifacts: Artifacts, deposits: DepositMap, log: Log, newly: seq<MessageId>,
                     id: MessageId)
    requires Progress(s, artifacts, deposits, log, newly)
    ensures id in artifacts ==> id in s.artifacts || id in newly
    ensures id !in artifacts ==> id !in s.artifacts && id !in newly
    ensures id !in artifacts ==> (Blocked(deposits, id) <==> Blocked(s.deposits, id))
    ensures NoneBlocked(s.deposits, newly)
  {
    hide AllTruthful, LogsAll, NoneBlocked;
    if id in artifacts {
      KnownOrNew(s.artifacts, artifacts, newly, id);
    } else {
      NotInAdds(s.artifacts, artifacts, newly, id);
      RefundedMore(s.deposits, newly, id);
    }
  }

  /** Position `i` was finalised by an analyzer that went by `mind`. */
  lemma ProgressStep(s: Scene, before: Artifacts, after: Artifacts, deposits: DepositMap, log: Log, log': Log,
                     newly: seq<MessageId>, i: nat, mind: Memory)
    requires i < |s.list| && s.list[i] !in before && Progress(s, before, deposits, log, newly)
    requires SceneVerdicts(s)[i]
             && newly == Picks(s.list[..i], SceneVerdicts(s)[..i], s.artifacts.Keys)
    requires s.list[i] in after && after == before[s.list[i] := after[s.list[i]]]
             && after[s.list[i]].intent == s.list[i] && !Blocked(deposits, s.list[i])
    requires Remembers(s.memory, s.g, s.config.k, mind)
             && Truthful(s.config, s.rho, s.g, s.messages, mind, s.reputations(i), after[s.list[i]])
    requires Logs(s.hash, s.serialize, s.config.checkpointInterval, s.now, after, log, s.list[i], log')
    ensures Progress(s, after, AfterRefunds(deposits, [s.list[i]]), log', newly + [s.list[i]])
  {
    ProgressNext(s, before, deposits, log, newly, s.list[i]);
    hide Adds, AllTruthful, LogsAll, Logs, NoneBlocked, AfterRefunds, Remembers, Truthful, Picks, Judgements, FirstPass;
    var id := s.list[i];
    PassesFirst(s.list, SceneVerdicts(s), s.artifacts.Keys, i);
    TruthfulEarlier(s.config, s.rho, s.g, s.messages, s.memory, mind, s.reputations(i), after[id]);
    AddsStep(s.artifacts, before, after, newly, id);
    TruthfulStep(s.config, s.rho, s.g, s.messages, s.memory, s.reputations, s.list, before, after, newly, i);
    NoneBlockedStep(s.deposits, newly, id);
    RefundedMore(s.deposits, newly, id);
    LogsStep(s.hash, s.serialize, s.config.checkpointInterval, s.now, s.artifacts, before, after, s.log, newly, log, id,
             log');
  }

  lemma ProgressMeans(s: Scene, artifacts: Artifacts, deposits: DepositMap, log: Log, newly: seq<MessageId>)
    requires Progress(s, artifacts, deposits, log, newly)
    ensures Adds(s.artifacts, artifacts, newly) && NoneBlocked(s.deposits, newly)
    ensures AllTruthful(s.config, s.rho, s.g, s.messages, s.memory, s.reputations, s.list, artifacts, newly)
    ensures deposits == AfterRefunds(s.deposits, newly)
    ensures LogsAll(s.hash, s.serialize, s.config.checkpointInterval, s.now, artifacts, s.artifacts.Keys, s.log, newly,
                    log)
  {
  }

  class FinalityEngine {
    const hash: HashFn
    const serialize: Serializer
    const storage: MessageStore
    const deposits: DepositManager
    var config: FinalityConfig
    var analyzer: KCoreAnalyzer
    var finalized: Artifacts
    var pending: seq<MessageId>
    var checkpoints: seq<CP.Checkpoint>
    var f1Finalized: seq<MessageId>
    var f2Stabilized: seq<MessageId>
    var checkpointHeight: nat
    var maxFinalizedDepth: nat
    ghost var order: seq<MessageId>

    ghost predicate Agrees()
      reads this
    {
      && analyzer.k == config.k && analyzer.minDepth == config.minDepth
      && analyzer.minDiversity == config.minDiversity && analyzer.minReputation == config.minReputation
    }

    /** Config and analyzer agree; the books spell the order of F1 finalisation; nothing finalised is lost. */
    ghost predicate Valid()
      reads this, storage
    {
      && storage.Valid() && Agrees()
      && Books(hash, checkpoints, f1Finalized, order) && checkpointHeight == |checkpoints|
      && Recorded(order, finalized.Keys)
    }

    /** What the analyzer goes by at the moment. */
    ghost function Mind(): Memory
      reads this, analyzer, storage
    {
      Memory(analyzer.depthCache, analyzer.View(storage.graph))
    }

    ghost function LogNow(): Log
      reads this
    {
      Log(checkpoints, f1Finalized, f2Stabilized)
    }

    ghost predicate Funded()
      reads deposits, deposits.balances, deposits.balances.storage
    {
      deposits.Valid() && deposits.Balanced()
    }

    /** The 64-bit counters have room for `n` more entries. */
    predicate Room(n: nat)
      reads this
    {
      |checkpoints| + n < U64_LIMIT && |f1Finalized| + n < U64_LIMIT && |f2Stabilized| + n < U64_LIMIT
    }

    /** The buffers grew by at most `n` entries each. */
    predicate Grown(checkpoints0: nat, f10: nat, f20: nat, n: nat)
      reads this
    {
      |checkpoints| <= checkpoints0 + n && |f1Finalized| <= f10 + n && |f2Stabilized| <= f20
    }

    constructor (config: FinalityConfig, rho: seq<nat>, hash: HashFn,
                 serialize: Serializer, storage: MessageStore,
                     deposits: DepositManager)
      requires storage.Valid()
      ensures Valid() && this.config == config && analyzer.rho == rho && fresh(analyzer)
              && forall g :: analyzer.Fresh(g)
      ensures this.hash == hash && this.serialize == serialize && this.storage == storage && this.deposits == deposits
      ensures finalized == map[] && pending == [] && checkpoints == [] && order == [] && maxFinalizedDepth == 0
      ensures f1Finalized == [] && f2Stabilized == []
    {
      this.config, this.hash, this.serialize, this.storage, this.deposits := config, hash, serialize, storage, deposits;
      analyzer := new KCoreAnalyzer(config.k, config.minDepth, config.minDiversity, config.minReputation, rho);
      finalized, pending, checkpoints, f1Finalized, f2Stabilized := map[], [], [], [], [];
      checkpointHeight, maxFinalizedDepth, order := 0, 0, [];
    }

    /** `update_params`: new `k` and depth in both the config and a fresh analyzer. */
    method UpdateParams(k: U64, depthStar: nat, rho: seq<nat>)
      requires Valid()
      modifies this`config, this`analyzer
      ensures Valid() && fresh(analyzer) && forall g :: analyzer.Fresh(g)
      ensures config == old(config).(k := k, minDepth := depthStar) && analyzer.rho == rho
    {
      hide Books, Recorded;
      config := config.(k := k, minDepth := depthStar);
      analyzer := new KCoreAnalyzer(k, depthStar, config.minDiversity, config.minReputation, rho);
    }

    /** `add_message`: the newest `windowSize` ids stay pending. */
    method AddMessage(id: MessageId)
      requires Valid()
      modifies this`pending
      ensures Valid()
      ensures var all := old(pending) + [id];
              pending == if |all| <= config.windowSize then all else all[|all| - config.windowSize..]
    {
      hide Books, Recorded;
      ghost var all := pending + [id];
      pending := pending + [id];
      while |pending| > config.windowSize
        invariant |pending| <= |all| && pending == all[|all| - |pending|..]
        invariant |pending| == |all| || |pending| >= config.windowSize
      {
        pending := pending[1..];
      }
    }

    /** `store_artifact`: takes over an artifact from the network as it is. */
    method StoreArtifact(artifact: FinalityArtifact)
      requires Valid()
      modifies this`finalized
      ensures Valid() && finalized == old(finalized)[artifact.intent := artifact]
    {
      RecordedMore(order, finalized.Keys, finalized.Keys + {artifact.intent});
      hide Books, Recorded;
      finalized := finalized[artifact.intent := artifact];
    }

    method UpdateFinalizedDepth(depth: nat)
      modifies this`maxFinalizedDepth
      ensures maxFinalizedDepth == Ultrametric.Max(old(maxFinalizedDepth), depth)
    {
      if depth > maxFinalizedDepth {
        maxFinalizedDepth := depth;
      }
    }

    /** `create_artifact`: an F1 artifact made from a final result is valid when created. */
    method CreateArtifact(id: MessageId, result: KCoreResult, ghost memory: Memory, ghost reputation: nat -> real)
        returns (a: FinalityArtifact)
      requires Valid()
      requires Passed(config, analyzer.rho, storage.graph, storage.messages, memory, reputation, id, result)
      ensures a.intent == id
              && Truthful(config, analyzer.rho, storage.graph, storage.messages, memory, reputation, a)
    {
      hide Books, Recorded, CoreOf, DistinctBalls, Uses, TotalReputation;
      var params := FinalityParams(config.k, config.minDiversity, config.minDepth, config.minReputation);
      var diversityOk := forall axis :: axis in result.distinctBalls ==>
          result.distinctBalls[axis] >= config.minDiversity;
      var evidence := FinalityWitness(result.kcoreRoot, result.depth, diversityOk, result.totalReputation,
                                      result.distinctBalls, result.coreSize, None);
      a := FinalityArtifact(id, F1KCore, params, evidence);
    }

    /** Refunds the deposit behind a finalised message, if there is one. */
    method Settle(id: MessageId) returns (r: Result<(), DepositError>)
      requires Funded()
      modifies deposits`deposits, deposits.balances`cache, deposits.balances.storage`lockedBalances
      ensures Funded()
      ensures r.Err? <==> Blocked(old(deposits.deposits), id)
      ensures r.Err? ==> r.error == NotEscrowed
      ensures deposits.deposits == if r.Ok? then AfterRefunds(old(deposits.deposits), [id]) else old(deposits.deposits)
    {
      RefundedOne(deposits.deposits, id);
      hide AfterRefunds;
      var proposer := deposits.GetProposer(id);
      if proposer.None? {
        return Ok(());
      }
      r := deposits.Refund(id);
    }

    method MessagesRoot(ids: seq<MessageId>) returns (root: Bytes32)
      ensures root == MerkleRoot(hash, IdLeaves(hash, ids))
    {
      hide MerkleRoot;
      var tree := new MerkleTreeBuilder(hash);
      for i := 0 to |ids|
        invariant tree.hash == hash && tree.leaves == IdLeaves(hash, ids)[..i]
      {
        tree.AddMessage(ids[i]);
        assert IdLeaves(hash, ids)[..i + 1] == IdLeaves(hash, ids)[..i] + [IdLeaf(hash, ids[i])];
      }
      assert IdLeaves(hash, ids)[..|ids|] == IdLeaves(hash, ids);
      root := tree.ComputeRoot();
    }

    method WitnessesRoot(height: nat) returns (root: Bytes32)
      ensures IsWitnessRoot(hash, WrittenFrom(serialize, finalized, height), root)
    {
      hide MerkleRoot, WitnessLeaves;
      ghost var written := WrittenFrom(serialize, finalized, height);
      NoLeaves(hash, written);
      var tree := new MerkleTreeBuilder(hash);
      var todo := finalized.Keys;
      ghost var ids: seq<MessageId> := [];
      while todo != {}
        invariant tree.hash == hash && todo <= finalized.Keys
        invariant NoDuplicates(ids) && forall x :: x in ids <==> x in finalized.Keys - todo
        invariant tree.leaves == WitnessLeaves(hash, written, ids)
        decreases |todo|
      {
        var id :| id in todo;
        var bytes := serialize(height, id, finalized[id].evidence);
        LeafStep(hash, written, ids, id);
        NoDuplicatesAppend(ids, id);
        if bytes.Some? {
          tree.AddWitness(bytes.value);
        }
        todo := todo - {id};
        ids := ids + [id];
      }
      root := tree.ComputeRoot();
      assert Enumerates(ids, written.Keys);
    }

    method MaxKCore() returns (m: U64)
      ensures IsMaxK(finalized, m)
    {
      m := 0;
      var todo := finalized.Keys;
      while todo != {}
        invariant todo <= finalized.Keys
        invariant forall x :: x in finalized && x !in todo ==> finalized[x].params.k <= m
        invariant m == 0 || exists x :: x in finalized && finalized[x].params.k == m
        decreases |todo|
      {
        var id :| id in todo;
        if finalized[id].params.k > m {
          m := finalized[id].params.k;
        }
        todo := todo - {id};
      }
    }

    /** `create_checkpoint`: closes the current buffers into the next link of the chain. */
    method CreateCheckpoint(now: I64) returns (c: CP.Checkpoint)
      requires Valid() && Room(1)
      modifies this`checkpointHeight, this`checkpoints, this`f1Finalized, this`f2Stabilized
      ensures Valid()
      ensures checkpoints == old(checkpoints) + [c] && f1Finalized == [] && f2Stabilized == []
      ensures c.height == |old(checkpoints)|
      ensures Closes(hash, serialize, finalized, now, c, old(f1Finalized), old(f2Stabilized))
    {
      hide Recorded, MerkleRoot, IdLeaves, IsMaxK, IsWitnessRoot, CP.Encode, Books, WrittenFrom;
      ghost var before := checkpoints;
      var height := checkpointHeight;
      checkpointHeight := checkpointHeight + 1;
      var messagesRoot := MessagesRoot(f1Finalized);
      var witnessesRoot := WitnessesRoot(height);
      var maxK := MaxKCore();
      var prevHash: Option<Bytes32> := None;
      if checkpoints != [] {
        var digest := CP.ComputeHash(hash, checkpoints[|checkpoints| - 1]);
        prevHash := Some(digest);
      }
      c := CP.Checkpoint(height, now, messagesRoot, witnessesRoot, CP.NewF1Metadata(maxK, f1Finalized),
                         CP.NewF2Metadata(f2Stabilized, None), prevHash);
      BooksClose(hash, checkpoints, f1Finalized, order, c);
      checkpoints := checkpoints + [c];
      f1Finalized, f2Stabilized := [], [];
    }

    /** `track_f1_finalized`: buffers the id and closes a checkpoint when the interval is reached. */
    method TrackF1(id: MessageId, now: I64)
      requires storage.Valid() && Agrees() && Room(2)
      requires Books(hash, checkpoints, f1Finalized, order) && checkpointHeight == |checkpoints|
      requires Recorded(order + [id], finalized.Keys)
      modifies this`checkpointHeight, this`checkpoints, this`f1Finalized, this`f2Stabilized, this`order
      ensures Valid() && order == old(order) + [id]
      ensures Logs(hash, serialize, config.checkpointInterval, now, finalized, old(LogNow()), id, LogNow())
    {
      BooksAppend(hash, checkpoints, f1Finalized, order, id);
      hide Books, Recorded, Closes;
      f1Finalized := f1Finalized + [id];
      order := order + [id];
      if |f1Finalized| >= config.checkpointInterval {
        var _ := CreateCheckpoint(now);
      }
    }

    /** What a final F1 verdict sets in motion. A refused refund stops it after the depth was raised. */
    method FinalizeF1(id: MessageId, result: KCoreResult, now: I64, ghost memory: Memory,
                      ghost reputation: nat -> real)
        returns (r: Result<(), DepositError>)
      requires Valid() && Funded() && Room(2) && id !in finalized
      requires Passed(config, analyzer.rho, storage.graph, storage.messages, memory, reputation, id, result)
      modifies this`finalized, this`maxFinalizedDepth, this`order
      modifies this`checkpointHeight, this`checkpoints, this`f1Finalized, this`f2Stabilized
      modifies deposits`deposits, deposits.balances`cache, deposits.balances.storage`lockedBalances
      ensures Valid() && Funded()
      ensures maxFinalizedDepth == Ultrametric.Max(old(maxFinalizedDepth), result.depth)
      ensures r.Err? <==> Blocked(old(deposits.deposits), id)
      ensures r.Err? ==> r.error == NotEscrowed
      ensures order == if r.Ok? then old(order) + [id] else old(order)
      ensures deposits.deposits == if r.Ok? then AfterRefunds(old(deposits.deposits), [id]) else old(deposits.deposits)
      ensures if r.Ok?
              then id in finalized && finalized == old(finalized)[id := finalized[id]] && finalized[id].intent == id
                   && Truthful(config, analyzer.rho, storage.graph, storage.messages, memory, reputation,
                               finalized[id])
                   && Logs(hash, serialize, config.checkpointInterval, now, finalized, old(LogNow()), id, LogNow())
              else finalized == old(finalized) && LogNow() == old(LogNow())
    {
      hide Books, Recorded, Truthful, Passed, DepositManager.Valid, DepositManager.Balanced, AfterRefunds, Logs,
        Blocked;
      var artifact := CreateArtifact(id, result, memory, reputation);
      UpdateFinalizedDepth(result.depth);
      assert Valid();
      var settled := Settle(id);
      if settled.Err? {
        return settled;
      }
      RecordedAppend(order, finalized.Keys, id);
      finalized := finalized[id := artifact];
      assert finalized.Keys == old(finalized).Keys + {id};
      TrackF1(id, now);
      return Ok(());
    }

    /** One analysis against the analyzer's own parameters, which are the config's. */
    method Examine(id: MessageId, reputation: nat -> real) returns (result: KCoreResult)
      requires Valid()
      modifies analyzer
      ensures Valid()
      ensures result.isFinal ==>
                Passed(config, analyzer.rho, storage.graph, storage.messages, old(Mind()), reputation, id, result)
      ensures result.isFinal <==>
                Judges(config, analyzer.rho, storage.graph, storage.messages, old(Mind()), reputation, id)
      ensures Remembers(old(Mind()), storage.graph, config.k, Mind())
      ensures analyzer.depthCache.Keys
           == old(analyzer.depthCache).Keys + if CoreOf(storage.graph, config.k, id) != {} then {id} else {}
      ensures old(analyzer.Fresh(storage.graph)) ==> analyzer.Fresh(storage.graph)
    {
      hide Books, Recorded, KCoreAnalyzer.Fresh, UsesDepth, TotalReputation, DistinctBalls, MaximalCore, Cone, Judges,
        Passed, KCoreAnalyzer.View, Remembers, Graph.ChildrenOf;
      ghost var memory := Mind();
      result := analyzer.Analyze(id, storage, reputation);
      VerdictMeans(config, analyzer.rho, storage.graph, storage.messages, memory, reputation, id, result);
      if CoreOf(storage.graph, config.k, id) != {} {
        RemembersOne(memory, storage.graph, config.k, Mind(), id, result.depth);
      } else {
        SameListsRemember(memory, storage.graph, config.k, Mind());
      }
    }

    /** One pending message of the F1 branch: analysed and, when final, finalised. */
    method Consider(id: MessageId, reputation: nat -> real, now: I64)
        returns (r: Result<(), DepositError>, isFinal: bool)
      requires Valid() && Funded() && Room(2) && id !in finalized
      modifies this`finalized, this`maxFinalizedDepth, this`order, analyzer
      modifies this`checkpointHeight, this`checkpoints, this`f1Finalized, this`f2Stabilized
      modifies deposits`deposits, deposits.balances`cache, deposits.balances.storage`lockedBalances
      ensures Valid() && Funded()
      ensures isFinal <==> Judges(config, analyzer.rho, storage.graph, storage.messages, old(Mind()), reputation, id)
      ensures Remembers(old(Mind()), storage.graph, config.k, Mind())
      ensures analyzer.depthCache.Keys
           == old(analyzer.depthCache).Keys + if CoreOf(storage.graph, config.k, id) != {} then {id} else {}
      ensures old(analyzer.Fresh(storage.graph)) ==> analyzer.Fresh(storage.graph)
      ensures r.Err? <==> isFinal && Blocked(old(deposits.deposits), id)
      ensures r.Err? ==> r.error == NotEscrowed
      ensures if isFinal && r.Ok?
              then id in finalized && finalized == old(finalized)[id := finalized[id]] && order == old(order) + [id]
                   && finalized[id].intent == id
                   && Truthful(config, analyzer.rho, storage.graph, storage.messages, old(Mind()), reputation,
                               finalized[id])
                   && deposits.deposits == AfterRefunds(old(deposits.deposits), [id])
                   && Logs(hash, serialize, config.checkpointInterval, now, finalized, old(LogNow()), id, LogNow())
              else finalized == old(finalized) && order == old(order) && LogNow() == old(LogNow())
                   && deposits.deposits == old(deposits.deposits)
      ensures if isFinal
              then exists d: nat :: Uses(old(Mind()), storage.graph, config.k, id, d)
                                    && maxFinalizedDepth == Ultrametric.Max(old(maxFinalizedDepth), d)
              else maxFinalizedDepth == old(maxFinalizedDepth)
    {
      hide Books, Recorded, KCoreAnalyzer.Fresh, DepositManager.Valid, DepositManager.Balanced, Truthful, Passed,
        Judges, Blocked, Remembers, KCoreAnalyzer.View, Logs, AfterRefunds, Uses, Ultrametric.Max;
      ghost var memory := Mind();
      var result := Examine(id, reputation);
      if !result.isFinal {
        return Ok(()), false;
      }
      PassedUses(config, analyzer.rho, storage.graph, storage.messages, memory, reputation, id, result);
      r := FinalizeF1(id, result, now, memory, reputation);
      isFinal := true;
    }

    /** The F1 branch of `check_finality`: it finalises exactly the pending messages that pass, each once and in order,
        up to the first whose refund is refused. */
    method RunF1(list: seq<MessageId>, reputations: nat -> nat -> real, now: I64)
        returns (r: Result<(), DepositError>, newly: seq<MessageId>)
      requires Valid() && Funded() && Room(|list| + 1)
      modifies this`finalized, this`maxFinalizedDepth, this`order, analyzer
      modifies this`checkpointHeight, this`checkpoints, this`f1Finalized, this`f2Stabilized
      modifies deposits`deposits, deposits.balances`cache, deposits.balances.storage`lockedBalances
      ensures Valid() && Funded()
      ensures order == old(order) + newly && Adds(old(finalized), finalized, newly)
      ensures var verdicts := Judgements(config, analyzer.rho, storage.graph, storage.messages, old(Mind()),
                                         reputations, list);
              var picks := Picks(list, verdicts, old(finalized).Keys);
              && newly == Unblocked(old(deposits.deposits), picks)
              && (r.Ok? <==> NoneBlocked(old(deposits.deposits), picks))
              && Raised(old(Mind()), storage.graph, config.k, old(maxFinalizedDepth),
                        Attempted(old(deposits.deposits), picks), maxFinalizedDepth)
      ensures AllTruthful(config, analyzer.rho, storage.graph, storage.messages, old(Mind()), reputations, list,
                          finalized, newly)
      ensures deposits.deposits == AfterRefunds(old(deposits.deposits), newly)
      ensures LogsAll(hash, serialize, config.checkpointInterval, now, finalized, old(finalized).Keys, old(LogNow()),
                      newly, LogNow())
      ensures forall x :: x in newly ==> x in list && x !in old(finalized)
      ensures r.Err? ==> r.error == NotEscrowed
      ensures r.Err? ==> exists x :: x in list && x !in finalized && Blocked(old(deposits.deposits), x)
      ensures old(checkpoints) <= checkpoints
      ensures Grown(old(|checkpoints|), old(|f1Finalized|), old(|f2Stabilized|), |newly|)
      ensures var looked := Looked(storage.graph, config.k, old(finalized).Keys, list);
              if r.Ok? then analyzer.depthCache.Keys == old(analyzer.depthCache).Keys + looked
              else analyzer.depthCache.Keys <= old(analyzer.depthCache).Keys + looked
      ensures Remembers(old(Mind()), storage.graph, config.k, Mind())
      ensures old(analyzer.Fresh(storage.graph)) ==> analyzer.Fresh(storage.graph)
    {
      hide Books, Recorded, KCoreAnalyzer.Fresh, DepositManager.Valid, DepositManager.Balanced, Truthful, Passed,
        Judges, Picks, Judgements, Blocked, NoneBlocked, Unblocked, Ultrametric.Max, FinalityEngine.Valid,
        FinalityEngine.Funded, FinalityEngine.Agrees, FinalityEngine.Mind, PicksOneMore, MessageStore.Valid,
        AllTruthful, Adds, Remembers, Raised, Logs, LogsAll, AfterRefunds, Uses, FirstPass, Attempted, Looked, CoreOf,
        Progress, Elements, NoDuplicates, Remove, Flatten, KCoreAnalyzer.View, UsesDepth, IsDepth;
      newly := [];
      ghost var memory := Mind();
      ghost var scene := Scene(config, analyzer.rho, storage.graph, storage.messages, memory, reputations, list, hash,
                               serialize, now, finalized, deposits.deposits, LogNow());
      ghost var verdicts, known, depth0 := SceneVerdicts(scene), finalized.Keys, maxFinalizedDepth;
      NoneLooked(storage.graph, config.k, known, list);
      RemembersSelf(memory, storage.graph, config.k);
      NoPicks(known);
      RaisedNone(memory, storage.graph, config.k, depth0);
      ProgressStarts(scene);
      assert list[..0] == [] && verdicts[..0] == [];
      for i := 0 to |list|
        invariant Valid() && Funded() && Room(|list| - i + 1)
        invariant order == old(order) + newly && old(checkpoints) <= checkpoints
        invariant Progress(scene, finalized, deposits.deposits, LogNow(), newly)
        invariant Raised(memory, storage.graph, config.k, depth0, newly, maxFinalizedDepth)
        invariant Grown(old(|checkpoints|), old(|f1Finalized|), old(|f2Stabilized|), |newly|)
        invariant newly == Picks(list[..i], verdicts[..i], known)
        invariant analyzer.depthCache.Keys
               == old(analyzer.depthCache).Keys + Looked(storage.graph, config.k, known, list[..i])
        invariant Remembers(memory, storage.graph, config.k, Mind())
        invariant old(analyzer.Fresh(storage.graph)) ==> analyzer.Fresh(storage.graph)
      {
        PicksStep(list, verdicts, known, i);
        LookedStep(storage.graph, config.k, known, list, i);
        LookedBefore(storage.graph, config.k, known, list, i + 1);
        ProgressNext(scene, finalized, deposits.deposits, LogNow(), newly, list[i]);
        if list[i] in finalized {
          AddedWasLooked(config, analyzer.rho, storage.graph, storage.messages, memory, reputations, list, known, i);
          KnownNotPicked(newly, list[i], verdicts[i], known);
          continue;
        }
        JudgementAt(config, analyzer.rho, storage.graph, storage.messages, memory, reputations, list, i);
        SameJudgement(config, analyzer.rho, storage.graph, storage.messages, memory, Mind(), reputations(i), list[i]);
        NewPicked(newly, list[i], verdicts[i], known);
        ghost var before, refunded, mind, log, depth := finalized, deposits.deposits, Mind(), LogNow(),
          maxFinalizedDepth;
        var isFinal;
        r, isFinal := Consider(list[i], reputations(i), now);
        RemembersTransitive(memory, storage.graph, config.k, mind, Mind());
        if isFinal {
          ghost var d: nat :| Uses(mind, storage.graph, config.k, list[i], d)
                              && maxFinalizedDepth == Ultrametric.Max(depth, d);
          SameDepthUsed(memory, storage.graph, config.k, mind, list[i], d);
          RaisedStep(memory, storage.graph, config.k, depth0, newly, depth, list[i], d);
        }
        if r.Err? {
          assert list[i] in list;
          StoppedAt(list, verdicts, known, scene.deposits, i);
          PickedFrom(list, verdicts, known, i);
          ProgressMeans(scene, finalized, deposits.deposits, LogNow(), newly);
          return;
        }
        if isFinal {
          ProgressStep(scene, before, finalized, refunded, log, LogNow(), newly, i, mind);
          LogGrows(hash, serialize, config.checkpointInterval, now, finalized, log, list[i], LogNow());
          newly := newly + [list[i]];
        }
      }
      WholeList(list, verdicts);
      ProgressMeans(scene, finalized, deposits.deposits, LogNow(), newly);
      AllUnblocked(scene.deposits, newly);
      AllAttempted(scene.deposits, newly);
      PickedFrom(list, verdicts, known, |list|);
      return Ok(()), newly;
    }

    /** `finalize_message_f2`: depth counts as the configured minimum; the id goes to the F2 buffer. */
    method FinalizeF2(id: MessageId, o: F2Outcome) returns (r: Result<(), DepositError>)
      requires Valid() && Funded()
      modifies this`finalized, this`maxFinalizedDepth, this`f2Stabilized
      modifies deposits`deposits, deposits.balances`cache, deposits.balances.storage`lockedBalances
      ensures Valid() && Funded()
      ensures maxFinalizedDepth == Ultrametric.Max(old(maxFinalizedDepth), config.minDepth)
      ensures r.Err? <==> Blocked(old(deposits.deposits), id)
      ensures r.Err? ==> r.error == NotEscrowed
      ensures r.Ok? ==> finalized == old(finalized)[id := F2Artifact(config, id, o)]
      ensures f2Stabilized == if r.Ok? then old(f2Stabilized) + [id] else old(f2Stabilized)
      ensures r.Err? ==> finalized == old(finalized)
      ensures deposits.deposits == if r.Ok? then AfterRefunds(old(deposits.deposits), [id]) else old(deposits.deposits)
    {
      hide Books, Recorded, DepositManager.Valid, DepositManager.Balanced;
      RecordedMore(order, finalized.Keys, finalized.Keys + {id});
      var artifact := F2Artifact(config, id, o);
      UpdateFinalizedDepth(config.minDepth);
      var settled := Settle(id);
      if settled.Err? {
        return settled;
      }
      finalized := finalized[id := artifact];
      assert finalized.Keys == old(finalized).Keys + {id};
      f2Stabilized := f2Stabilized + [id];
      return Ok(());
    }

    /** The F2 branch of `check_finality`: every reported message, up to the first whose refund is refused. */
    method RunF2(o: F2Outcome) returns (r: Result<(), DepositError>, ghost stop: nat)
      requires Valid() && Funded()
      modifies this`finalized, this`maxFinalizedDepth, this`f2Stabilized
      modifies deposits`deposits, deposits.balances`cache, deposits.balances.storage`lockedBalances
      ensures Valid() && Funded()
      ensures maxFinalizedDepth == if o.messages == [] then old(maxFinalizedDepth)
                                   else Ultrametric.Max(old(maxFinalizedDepth), config.minDepth)
      ensures StopsAt(old(deposits.deposits), o.messages, stop) && (r.Ok? <==> stop == |o.messages|)
      ensures r.Err? ==> r.error == NotEscrowed
      ensures F2Adds(config, o, old(finalized), finalized, o.messages[..stop])
      ensures deposits.deposits == AfterRefunds(old(deposits.deposits), o.messages[..stop])
      ensures f2Stabilized == old(f2Stabilized) + o.messages[..stop]
    {
      hide Books, Recorded, DepositManager.Valid, DepositManager.Balanced, Ultrametric.Max, FinalityEngine.Valid,
        FinalityEngine.Funded, F2Artifact, F2Adds, Refusable, AfterRefunds, Blocked;
      ghost var deposits0 := deposits.deposits;
      F2AddsNone(config, o, finalized);
      RefundedNone(deposits0);
      assert o.messages[..0] == [];
      for i := 0 to |o.messages|
        invariant Valid() && Funded()
        invariant forall k :: 0 <= k < i ==> !Refusable(deposits0, o.messages, k)
        invariant deposits.deposits == AfterRefunds(deposits0, o.messages[..i])
        invariant F2Adds(config, o, old(finalized), finalized, o.messages[..i])
        invariant maxFinalizedDepth == if i == 0 then old(maxFinalizedDepth)
                                       else Ultrametric.Max(old(maxFinalizedDepth), config.minDepth)
        invariant f2Stabilized == old(f2Stabilized) + o.messages[..i]
      {
        F2AddsStep(config, o, old(finalized), finalized, o.messages, i);
        RefundedStep(deposits0, o.messages, i);
        MaxTwice(old(maxFinalizedDepth), config.minDepth);
        stop := i;
        r := FinalizeF2(o.messages[i], o);
        if r.Err? {
          return;
        }
      }
      assert o.messages[..|o.messages|] == o.messages;
      return Ok(()), |o.messages|;
    }

    /** Whether a check is decided by the topological branch. */
    predicate TakesF2(f2: Option<F2Outcome>)
      reads this
    {
      config.f2Enabled && pending != [] && f2.Some?
    }

    /** `check_finality`: F2 first, otherwise F1; what was finalised leaves the queue, unless a refund is refused: then
        the whole queue stays. */
    method CheckFinality(f2: Option<F2Outcome>, reputations: nat -> nat -> real, now: I64)
        returns (r: Result<seq<MessageId>, DepositError>, ghost stop: nat)
      requires Valid() && Funded() && Room(|pending| + 1)
      modifies this`finalized, this`maxFinalizedDepth, this`order, this`pending, analyzer
      modifies this`checkpointHeight, this`checkpoints, this`f1Finalized, this`f2Stabilized
      modifies deposits`deposits, deposits.balances`cache, deposits.balances.storage`lockedBalances
      ensures Valid() && Funded()
      ensures old(order) <= order && old(checkpoints) <= checkpoints
      ensures old(finalized).Keys <= finalized.Keys && old(maxFinalizedDepth) <= maxFinalizedDepth
      ensures pending == if r.Ok? then Remove(old(pending), r.value) else old(pending)
      ensures r.Err? ==> r.error == NotEscrowed
      ensures SameOwners(old(deposits.deposits), deposits.deposits)
      ensures old(config.f2Enabled && pending != [] && f2.Some?) ==>
                && order == old(order) && checkpoints == old(checkpoints) && f1Finalized == old(f1Finalized)
                && maxFinalizedDepth == (if f2.value.messages == [] then old(maxFinalizedDepth)
                                         else Ultrametric.Max(old(maxFinalizedDepth), config.minDepth))
                && StopsAt(old(deposits.deposits), f2.value.messages, stop) && (r.Ok? <==> stop == |f2.value.messages|)
                && (r.Ok? ==> r.value == f2.value.messages)
                && F2Adds(config, f2.value, old(finalized), finalized, f2.value.messages[..stop])
                && deposits.deposits == AfterRefunds(old(deposits.deposits), f2.value.messages[..stop])
                && f2Stabilized == old(f2Stabilized) + f2.value.messages[..stop]
      ensures !old(config.f2Enabled && pending != [] && f2.Some?) ==>
                var newly := order[|old(order)|..];
                && Adds(old(finalized), finalized, newly) && (r.Ok? ==> r.value == newly)
                && (forall x :: x in newly ==> x !in old(finalized))
                && AllTruthful(config, analyzer.rho, storage.graph, storage.messages, old(Mind()), reputations,
                               old(pending), finalized, newly)
                && deposits.deposits == AfterRefunds(old(deposits.deposits), newly)
                && LogsAll(hash, serialize, config.checkpointInterval, now, finalized, old(finalized).Keys,
                           old(LogNow()), newly, LogNow())
                && Grown(old(|checkpoints|), old(|f1Finalized|), old(|f2Stabilized|), |newly|)
                && (!config.f1Enabled ==> r == Ok([]) && maxFinalizedDepth == old(maxFinalizedDepth))
                && (r.Err? ==> exists x :: x in pending && x !in finalized && Blocked(old(deposits.deposits), x))
      ensures !old(config.f2Enabled && pending != [] && f2.Some?) && config.f1Enabled ==>
                var verdicts := Judgements(config, analyzer.rho, storage.graph, storage.messages, old(Mind()),
                                           reputations, old(pending));
                var picks := Picks(old(pending), verdicts, old(finalized).Keys);
                && order == old(order) + Unblocked(old(deposits.deposits), picks)
                && (r.Ok? <==> NoneBlocked(old(deposits.deposits), picks))
                && Raised(old(Mind()), storage.graph, config.k, old(maxFinalizedDepth),
                          Attempted(old(deposits.deposits), picks), maxFinalizedDepth)
                && (r.Ok? ==> analyzer.depthCache.Keys
                              == old(analyzer.depthCache).Keys
                                 + Looked(storage.graph, config.k, old(finalized).Keys, old(pending)))
      ensures Remembers(old(Mind()), storage.graph, config.k, Mind())
      ensures old(analyzer.Fresh(storage.graph)) ==> analyzer.Fresh(storage.graph)
    {
      hide Books, Recorded, KCoreAnalyzer.Fresh, DepositManager.Valid, DepositManager.Balanced, Truthful,
        Judges, Picks, Judgements, Remove, Unblocked, NoneBlocked, Blocked, Refusable, AfterRefunds, Ultrametric.Max,
        F2Adds, SameOwners, AllTruthful, Adds, Remembers, Raised, Attempted, LogsAll, KCoreAnalyzer.View, Looked;
      RemembersSelf(Mind(), storage.graph, config.k);
      MaxTwice(maxFinalizedDepth, config.minDepth);
      LogsNone(hash, serialize, config.checkpointInterval, now, finalized, finalized.Keys, LogNow());
      RefundedNone(deposits.deposits);
      ghost var deposits0 := deposits.deposits;
      RemoveNothing(pending);
      NoneToTell(config, analyzer.rho, storage.graph, storage.messages, Mind(), reputations, pending, finalized);
      AddsNone(finalized);
      var list := pending;
      if TakesF2(f2) {
        var done;
        done, stop := RunF2(f2.value);
        F2AddsMeans(config, f2.value, old(finalized), finalized, f2.value.messages[..stop]);
        RefundedOwners(deposits0, f2.value.messages[..stop]);
        if done.Err? {
          return Err(done.error), stop;
        }
        if f2.value.messages != [] {
          pending := Remove(pending, f2.value.messages);
        }
        return Ok(f2.value.messages), stop;
      }
      var newly: seq<MessageId> := [];
      stop := 0;
      RefundedOwners(deposits0, []);
      if config.f1Enabled {
        var done;
        done, newly := RunF1(list, reputations, now);
        AddsKeys(old(finalized), finalized, newly);
        RefundedOwners(deposits0, newly);
        RaisedUp(old(Mind()), storage.graph, config.k, old(maxFinalizedDepth),
                 Attempted(deposits0, Picks(list, Judgements(config, analyzer.rho, storage.graph, storage.messages,
                                                             old(Mind()), reputations, list), old(finalized).Keys)),
                 maxFinalizedDepth);
        assert order[|old(order)|..] == newly;
        if done.Err? {
          return Err(done.error), stop;
        }
      }
      assert order[|old(order)|..] == newly;
      if newly != [] {
        pending := Remove(pending, newly);
      }
      return Ok(newly), stop;
    }

    /** `get_checkpoint`: the search by height finds the checkpoint at that position. */
    method GetCheckpoint(height: U64) returns (c: Option<CP.Checkpoint>)
      requires Valid()
      ensures c == if height < |checkpoints| then Some(checkpoints[height]) else None
    {
      hide Recorded, CP.Encode, MerkleRoot, IdLeaves;
      for i := 0 to |checkpoints|
        invariant forall j :: 0 <= j < i ==> checkpoints[j].height != height
      {
        assert CP.Linked(hash, checkpoints, i);
        if checkpoints[i].height == height {
          return Some(checkpoints[i]);
        }
      }
      assert height < |checkpoints| ==> CP.Linked(hash, checkpoints, height);
      return None;
    }
  }

  lemma SameOwnersTreasury(before: DepositMap, after: DepositMap)
    requires SameOwners(before, after) && TreasuryOwnsNone(before)
    ensures TreasuryOwnsNone(after)
  {
  }

  // ----- a refused refund, again and again

  lemma AppendedPart(order: seq<MessageId>, newly: seq<MessageId>)
    ensures (order + newly)[|order|..] == newly
  {
  }

  lemma {:induction false} DistinctFit(xs: seq<MessageId>, ys: seq<MessageId>)
    requires NoDuplicates(xs) && forall x :: x in xs ==> x in ys
    ensures |xs| <= |ys|
  {
    if xs != [] {
      var n := |xs| - 1;
      assert xs[n] in ys;
      var i :| 0 <= i < |ys| && ys[i] == xs[n];
      var rest := ys[..i] + ys[i + 1..];
      forall x | x in xs[..n] ensures x in rest {
        assert x in ys && x != xs[n];
        var j :| 0 <= j < |ys| && ys[j] == x;
        assert x == if j < i then rest[j] else rest[j - 1];
      }
      DistinctFit(xs[..n], rest);
    }
  }

  lemma OrderFits(engine: FinalityEngine, start: seq<MessageId>, ids: seq<MessageId>)
    requires engine.Valid() && start <= engine.order && forall x :: x in engine.order[|start|..] ==> x in ids
    ensures |engine.order| <= |start| + |ids|
  {
    hide Books;
    DistinctFit(engine.order[|start|..], ids);
  }

  lemma AppendedTwice(start: seq<MessageId>, before: seq<MessageId>, newly: seq<MessageId>, ids: seq<MessageId>)
    requires start <= before && (forall x :: x in before[|start|..] ==> x in ids) && forall x :: x in newly ==> x in ids
    ensures start <= before + newly && forall x :: x in (before + newly)[|start|..] ==> x in ids
  {
    assert (before + newly)[|start|..] == before[|start|..] + newly;
  }

  /** A check of an engine in which the `k`-th pending message passes, is not final yet and cannot be refunded: it is
      refused, and finalises only messages queued before that one. */
  method RefusedCheck(engine: FinalityEngine, reputations: nat -> nat -> real, now: I64, ghost k: nat)
      returns (r: Result<seq<MessageId>, DepositError>)
    requires engine.Valid() && engine.Funded() && engine.Room(|engine.pending| + 1) && engine.config.f1Enabled
    requires k < |engine.pending| && engine.pending[k] !in engine.finalized
             && Blocked(engine.deposits.deposits, engine.pending[k])
    requires Judges(engine.config, engine.analyzer.rho, engine.storage.graph, engine.storage.messages, engine.Mind(),
                    reputations(k), engine.pending[k])
    modifies engine`finalized, engine`maxFinalizedDepth, engine`order, engine`pending, engine.analyzer
    modifies engine`checkpointHeight, engine`checkpoints, engine`f1Finalized, engine`f2Stabilized
    modifies engine.deposits`deposits, engine.deposits.balances`cache, engine.deposits.balances.storage`lockedBalances
    ensures engine.Valid() && engine.Funded() && r.Err? && engine.pending == old(engine.pending)
    ensures engine.pending[k] !in engine.finalized && Blocked(engine.deposits.deposits, engine.pending[k])
    ensures old(engine.order) <= engine.order
            && forall x :: x in engine.order[|old(engine.order)|..] ==> x in engine.pending[..k]
    ensures engine.Grown(old(|engine.checkpoints|), old(|engine.f1Finalized|), old(|engine.f2Stabilized|),
                         |engine.order| - |old(engine.order)|)
    ensures Remembers(old(engine.Mind()), engine.storage.graph, engine.config.k, engine.Mind())
  {
    hide Books, Recorded, DepositManager.Valid, DepositManager.Balanced, Truthful, Judges, Picks, Judgements, Remove,
      Unblocked, NoneBlocked, Blocked, FinalityEngine.Valid, FinalityEngine.Funded, MessageStore.Valid, Remembers,
      FinalityEngine.Mind, AfterRefunds, KCoreAnalyzer.Fresh;
    ghost var verdicts := Judgements(engine.config, engine.analyzer.rho, engine.storage.graph, engine.storage.messages,
                                     engine.Mind(), reputations, engine.pending);
    JudgementAt(engine.config, engine.analyzer.rho, engine.storage.graph, engine.storage.messages, engine.Mind(),
                reputations, engine.pending, k);
    StopsBefore(engine.pending, verdicts, engine.finalized.Keys, engine.deposits.deposits, k);
    NothingBehind(engine.pending, verdicts, engine.finalized.Keys, engine.deposits.deposits, k);
    ghost var before, deposits0, order0 := engine.finalized, engine.deposits.deposits, engine.order;
    ghost var stop;
    r, stop := engine.CheckFinality(None, reputations, now);
    ghost var newly := engine.order[|order0|..];
    AppendedPart(order0, newly);
    AddsKeys(before, engine.finalized, newly);
    RefundedMore(deposits0, newly, engine.pending[k]);
  }

  /** A check that was refused and is repeated, each time with the reputations of the moment: as long as the message at
      which it was refused still passes, every repetition is refused, the queue stays whole, and nothing at or behind
      that message is finalised. */
  method RetryCheck(engine: FinalityEngine, tables: nat -> nat -> nat -> real, now: I64, times: nat, ghost k: nat)
      returns (results: seq<Result<seq<MessageId>, DepositError>>)
    requires engine.Valid() && engine.Funded() && engine.Room(2 * |engine.pending| + 1) && engine.config.f1Enabled
    requires k < |engine.pending| && engine.pending[k] !in engine.finalized
             && Blocked(engine.deposits.deposits, engine.pending[k])
    requires forall i :: 0 <= i < times ==>
                           Judges(engine.config, engine.analyzer.rho, engine.storage.graph, engine.storage.messages,
                                  engine.Mind(), tables(i)(k), engine.pending[k])
    modifies engine`finalized, engine`maxFinalizedDepth, engine`order, engine`pending, engine.analyzer
    modifies engine`checkpointHeight, engine`checkpoints, engine`f1Finalized, engine`f2Stabilized
    modifies engine.deposits`deposits, engine.deposits.balances`cache, engine.deposits.balances.storage`lockedBalances
    ensures engine.Valid() && engine.Funded() && engine.pending == old(engine.pending)
    ensures |results| == times && forall r :: r in results ==> r.Err?
    ensures engine.pending[k] !in engine.finalized && old(engine.order) <= engine.order
            && forall x :: x in engine.order[|old(engine.order)|..] ==> x in engine.pending[..k]
  {
    hide Books, Recorded, DepositManager.Valid, DepositManager.Balanced, Judges, Blocked, FinalityEngine.Valid,
      FinalityEngine.Funded, MessageStore.Valid, Remembers, FinalityEngine.Mind;
    ghost var list, memory, order0 := engine.pending, engine.Mind(), engine.order;
    RemembersSelf(memory, engine.storage.graph, engine.config.k);
    results := [];
    for i := 0 to times
      invariant engine.Valid() && engine.Funded() && engine.pending == list
      invariant |results| == i && forall r :: r in results ==> r.Err?
      invariant list[k] !in engine.finalized && Blocked(engine.deposits.deposits, list[k])
      invariant order0 <= engine.order && forall x :: x in engine.order[|order0|..] ==> x in list[..k]
      invariant Remembers(memory, engine.storage.graph, engine.config.k, engine.Mind())
      invariant engine.Grown(old(|engine.checkpoints|), old(|engine.f1Finalized|), old(|engine.f2Stabilized|),
                             |engine.order| - |order0|)
    {
      OrderFits(engine, order0, list[..k]);
      SameJudgement(engine.config, engine.analyzer.rho, engine.storage.graph, engine.storage.messages, memory,
                    engine.Mind(), tables(i)(k), list[k]);
      ghost var before, mind := engine.order, engine.Mind();
      var r := RefusedCheck(engine, tables(i), now, k);
      AppendedPart(before, engine.order[|before|..]);
      AppendedTwice(order0, before, engine.order[|before|..], list[..k]);
      RemembersTransitive(memory, engine.storage.graph, engine.config.k, mind, engine.Mind());
      results := results + [r];
    }
  }

  /** A message that passes keeps passing when no reputation drops. */
  lemma JudgesMonotone(config: FinalityConfig, rho: seq<nat>, g: Graph, messages: Messages, memory: Memory,
                       reputation: nat -> real, reputation': nat -> real, root: MessageId)
    requires Judges(config, rho, g, messages, memory, reputation, root)
    requires forall pk :: reputation(pk) <= reputation'(pk)
    ensures Judges(config, rho, g, messages, memory, reputation', root)
  {
    hide CoreOf, Diverse, UsesDepth, TotalReputation;
    ReputationRises(messages, reputation, reputation', CoreOf(g, config.k, root));
  }

  /** What finalising a message is worth to its proposer. */
  function GoodScore(diversity: real, depth: nat): real {
    1.0 + diversity / (1.0 + depth as real)
  }

  /** `good_update`: the reputation of a proposer whose message was finalised and refunded. */
  function GoodUpdate(gamma: real, value: real, diversity: real, depth: nat): (r: real)
    ensures r <= 10.0
  {
    var mixed := gamma * value + (1.0 - gamma) * GoodScore(diversity, depth);
    if mixed <= 10.0 then mixed else 10.0
  }

  lemma SignOfProduct(a: real, b: real)
    requires a > 0.0
    ensures a * b >= 0.0 <==> b >= 0.0
  {
    if b >= 0.0 {
      assert a * b >= 0.0;
    } else {
      assert a * b < 0.0;
    }
  }

  /** Up to the cap, a good update brings the reputation `gamma` times as close to the score; so it does not lower it
      exactly when it was not above the score, nor above the cap. */
  lemma GoodUpdateExactly(gamma: real, value: real, diversity: real, depth: nat)
    requires 0.0 <= gamma < 1.0
    ensures var score, r := 1.0 + diversity / (1.0 + depth as real), GoodUpdate(gamma, value, diversity, depth);
            && r <= 10.0 && (r < 10.0 ==> r - score == gamma * (value - score))
            && (r >= value <==> value <= score && value <= 10.0)
  {
    var score := GoodScore(diversity, depth);
    assert score == 1.0 + diversity / (1.0 + depth as real);
    hide GoodScore;
    assert gamma * value + (1.0 - gamma) * score - value == (1.0 - gamma) * (score - value);
    SignOfProduct(1.0 - gamma, score - value);
  }

  /** So a message keeps passing after another one's refund, unless that one's proposer was above its score. */
  lemma PassesAfterRefund(config: FinalityConfig, rho: seq<nat>, g: Graph, messages: Messages, memory: Memory,
                          reputation: nat -> real, reputation': nat -> real, root: MessageId, proposer: nat,
                          gamma: real, diversity: real, depth: nat)
    requires Judges(config, rho, g, messages, memory, reputation, root) && 0.0 <= gamma < 1.0
    requires forall pk :: reputation'(pk) == if pk == proposer then GoodUpdate(gamma, reputation(pk), diversity, depth)
                                             else reputation(pk)
    requires reputation(proposer) <= GoodScore(diversity, depth) && reputation(proposer) <= 10.0
    ensures Judges(config, rho, g, messages, memory, reputation', root)
  {
    hide Judges, GoodUpdate;
    GoodUpdateExactly(gamma, reputation(proposer), diversity, depth);
    JudgesMonotone(config, rho, g, messages, memory, reputation, reputation', root);
  }

  lemma PicksOfThree(a: MessageId, b: MessageId, c: MessageId, va: bool, vb: bool, vc: bool, known: set<MessageId>)
    requires a != b && a != c && b != c
    ensures Picks([a, b, c], [va, vb, vc], known)
         == (if va && a !in known then [a] else []) + (if vb && b !in known then [b] else [])
            + if vc && c !in known then [c] else []
  {
    var list, verdicts := [a, b, c], [va, vb, vc];
    NoPicks(known);
    assert list[..0] == [] && verdicts[..0] == [];
    PicksStep(list, verdicts, known, 0);
    PicksStep(list, verdicts, known, 1);
    PicksStep(list, verdicts, known, 2);
    WholeList(list, verdicts);
  }

  /** A repetition can still finalise something queued before: here `m0` passes only once the refund of `m1` has raised
      its reputation; and with a lower one `s` no longer passes and no longer stops the check. */
  lemma ReputationMoves(m0: MessageId, m1: MessageId, s: MessageId, deposits: DepositMap)
    requires m0 != m1 && m0 != s && m1 != s && Blocked(deposits, s) && !Blocked(deposits, m0) && !Blocked(deposits, m1)
    ensures Unblocked(deposits, Picks([m0, m1, s], [false, true, true], {})) == [m1]
    ensures var again := Picks([m0, m1, s], [true, true, true], {m1});
            Unblocked(AfterRefunds(deposits, [m1]), again) == [m0]
            && !NoneBlocked(AfterRefunds(deposits, [m1]), again)
    ensures var lower := Picks([m0, m1, s], [true, true, false], {m1});
            Unblocked(AfterRefunds(deposits, [m1]), lower) == [m0]
            && NoneBlocked(AfterRefunds(deposits, [m1]), lower)
  {
    var deposits' := AfterRefunds(deposits, [m1]);
    PicksOfThree(m0, m1, s, false, true, true, {});
    PicksOfThree(m0, m1, s, true, true, true, {m1});
    PicksOfThree(m0, m1, s, true, true, false, {m1});
    assert [m1, s][..1] == [m1] && [m0, s][..1] == [m0];
    UnblockedIs(deposits, [m1, s], 1);
    UnblockedIs(deposits', [m0, s], 1);
    AllUnblocked(deposits', [m0]);
  }

  // ----- examples

  const EXAMPLE_CONFIG := FinalityConfig(2, 1, 2, 0.0, 10, false, true, 100)

  /** The first message of the triangle passes F1. */
  lemma TriangleFinalizes(x: MessageId, a: MessageId, b: MessageId, c: MessageId, reputation: nat -> real)
    requires FourIds(x, a, b, c) && forall pk :: reputation(pk) >= 0.0
    ensures Finalizes(EXAMPLE_CONFIG, [1], TriangleGraph(x, a, b, c), TriangleMessages(x, a, b, c), reputation, a)
  {
    hide TriangleGraph, TriangleMessages, CoreOf, IsDepth, EvidencePasses;
    TriangleEvidence(x, a, b, c, reputation);
    TriangleCore(x, a, b, c);
    TriangleDepth(x, a, b, c);
  }

  /** With a newcomer on the same axis it passes at depth 2. */
  lemma GrownFinalizes(x: MessageId, a: MessageId, b: MessageId, c: MessageId, n: MessageId, reputation: nat -> real)
    requires FourIds(x, a, b, c) && n !in {x, a, b, c} && forall pk :: reputation(pk) >= 0.0
    ensures Finalizes(EXAMPLE_CONFIG.(minDepth := 2), [1], GrownGraph(x, a, b, c, n),
                      GrownMessages(x, a, b, c, n, false), reputation, a)
    ensures CoreOf(GrownGraph(x, a, b, c, n), 2, a) != {}
  {
    hide GrownGraph, GrownMessages, CoreOf, IsDepth, EvidencePasses;
    GrownEvidence(x, a, b, c, n, reputation);
    GrownCore(x, a, b, c, n);
    GrownDepth(x, a, b, c, n, CoreOf(GrownGraph(x, a, b, c, n), 2, a));
  }

  method TriangleStore(x: MessageId, a: MessageId, b: MessageId, c: MessageId) returns (storage: MessageStore)
    requires FourIds(x, a, b, c)
    ensures fresh(storage) && storage.Valid() && storage.graph == TriangleGraph(x, a, b, c)
            && storage.messages == TriangleMessages(x, a, b, c)
  {
    hide WellStored, LinkAll;
    var run := FourMessages(x, a, b, c);
    storage := new MessageStore();
    var _ := storage.StoreMessage(run[0]);
    var _ := storage.StoreMessage(run[1]);
    var _ := storage.StoreMessage(run[2]);
    var _ := storage.StoreMessage(run[3]);
  }

  lemma EmptyCachesUseDepth(view: Graph, g: Graph, core: set<MessageId>, root: MessageId, d: nat, t: nat)
    requires UsesDepth(map[], view, core, root, d) && IsDepth(g, core, root, t)
    requires forall y: MessageId :: view.ChildrenOf(y) == g.ChildrenOf(y)
    ensures d == t
  {
    hide IsDepth, Graph.ChildrenOf;
    SameChildrenSameDepth(view, g, core, root, d);
    DepthUnique(g, core, root, d, t);
  }

  lemma NewcomerUnknown(x: MessageId, a: MessageId, b: MessageId, c: MessageId, n: MessageId)
    requires n !in {x, a, b, c}
    ensures n !in TriangleMessages(x, a, b, c)
  {
  }

  lemma NewcomerIs(b: MessageId, c: MessageId, n: MessageId)
    ensures Newcomer(b, c, n, false) == Message(n, [b, c], 0, [AxisPhi(0, [1])])
  {
  }

  /** A wrong verdict: the triangle is too shallow for a threshold of 2, and after the newcomer it is deep enough, but
      the analyzer goes on refusing its first message. */
  method StaleVerdict(x: MessageId, a: MessageId, b: MessageId, c: MessageId, n: MessageId, reputation: nat -> real)
      returns (storage: MessageStore, analyzer: KCoreAnalyzer, early: KCoreResult, late: KCoreResult)
    requires FourIds(x, a, b, c) && n !in {x, a, b, c} && forall pk :: reputation(pk) >= 0.0
    ensures analyzer.k == 2 && analyzer.minDepth == 2 && analyzer.minDiversity == 2 && analyzer.minReputation == 0.0
            && analyzer.rho == [1]
    ensures !early.isFinal && !late.isFinal
    ensures Finalizes(EXAMPLE_CONFIG.(minDepth := 2), [1], storage.graph, storage.messages, reputation, a)
  {
    hide TriangleGraph, TriangleMessages, IsDepth, EvidencePasses, WellStored, MaximalCore, Cone, TotalReputation,
      DistinctBalls, LinkAll, Finalizes, Graph.ChildrenOf, KCoreAnalyzer.View, Newcomer, KCoreAnalyzer.Fresh;
    storage := TriangleStore(x, a, b, c);
    analyzer := new KCoreAnalyzer(2, 2, 2, 0.0, [1]);
    TriangleCore(x, a, b, c);
    TriangleDepth(x, a, b, c);
    analyzer.FreshView(storage.graph);
    ghost var view := analyzer.View(storage.graph);
    early := analyzer.Analyze(a, storage, reputation);
    EmptyCachesUseDepth(view, storage.graph, {a, b, c}, a, early.depth, 1);
    NewcomerUnknown(x, a, b, c, n);
    NewcomerIs(b, c, n);
    var _ := storage.StoreMessage(Message(n, [b, c], 0, [AxisPhi(0, [1])]));
    GrownFinalizes(x, a, b, c, n, reputation);
    late := analyzer.Analyze(a, storage, reputation);
  }

  lemma EmptyBooks(l: Ledger)
    requires l == Ledger(map[], map[], map[])
    ensures Covered(l) && Accounts(map[], l)
  {
    forall a: Address ensures l.Of(a).locked == EscrowedBy(map[], a) {
      assert EscrowsOf(map[], a) == map[];
    }
  }

  /** A deposit of zero that was already refunded. */
  method RefundedDeposit(id: MessageId, hash: HashFn, key: PublicKey) returns (deposits: DepositManager)
    ensures fresh(deposits) && fresh(deposits.balances) && fresh(deposits.balances.storage)
    ensures deposits.Valid() && deposits.Balanced() && Blocked(deposits.deposits, id)
  {
    var storage := new MemoryStorage();
    var balances := new BalanceManager(storage);
    deposits := new DepositManager(balances, hash, 0);
    EmptyBooks(storage.Contents());
    hide Covered, Accounts, AddressOf;
    var escrowed := deposits.Escrow(id, key, 0);
    var refunded := deposits.Refund(id);
  }

  lemma ParametersAgree(engine: FinalityEngine)
    requires engine.Valid()
    ensures engine.analyzer.k == engine.config.k
  {
  }

  /** An engine in which the first message of the triangle is pending, passes F1 with any reputations, and cannot be
      refunded. */
  method StuckEngine(hash: HashFn, serialize: Serializer, x: MessageId,
                     a: MessageId, b: MessageId, c: MessageId, key: PublicKey)
      returns (engine: FinalityEngine)
    requires FourIds(x, a, b, c)
    ensures fresh(engine) && fresh(engine.analyzer) && fresh(engine.deposits) && fresh(engine.deposits.balances)
            && fresh(engine.deposits.balances.storage)
    ensures engine.Valid() && engine.Funded() && engine.Room(3) && engine.config == EXAMPLE_CONFIG
    ensures engine.pending == [a] && engine.finalized == map[] && engine.order == []
            && Blocked(engine.deposits.deposits, a)
    ensures forall reputation: nat -> real :: (forall pk :: reputation(pk) >= 0.0) ==>
              Finalizes(engine.config, engine.analyzer.rho, engine.storage.graph, engine.storage.messages, reputation,
                        a)
              && Judges(engine.config, engine.analyzer.rho, engine.storage.graph, engine.storage.messages,
                        engine.Mind(), reputation, a)
  {
    hide Books, Recorded, WellStored, Blocked, Finalizes, Judges, Covered, Accounts, Known, TriangleGraph,
      TriangleMessages, FinalityEngine.Valid, DepositManager.Valid, DepositManager.Balanced, KCoreAnalyzer.Fresh,
      KCoreAnalyzer.View;
    var storage := TriangleStore(x, a, b, c);
    var deposits := RefundedDeposit(a, hash, key);
    engine := new FinalityEngine(EXAMPLE_CONFIG, [1], hash, serialize, storage, deposits);
    ParametersAgree(engine);
    engine.AddMessage(a);
    forall reputation: nat -> real | forall pk :: reputation(pk) >= 0.0
      ensures Finalizes(engine.config, [1], storage.graph, storage.messages, reputation, a)
              && Judges(engine.config, [1], storage.graph, storage.messages, engine.Mind(), reputation, a)
    {
      TriangleFinalizes(x, a, b, c, reputation);
      FreshJudges(engine.analyzer, engine.config, storage.graph, storage.messages, reputation, a);
    }
  }

  /** A passing message that is never finalised: however often its check is repeated, and whatever the reputations are
      by then, its refund is refused again. */
  method StuckExample(hash: HashFn, serialize: Serializer, x: MessageId,
                      a: MessageId, b: MessageId, c: MessageId, key: PublicKey, tables: nat -> nat -> nat -> real,
                      times: nat)
      returns (results: seq<Result<seq<MessageId>, DepositError>>, engine: FinalityEngine)
    requires FourIds(x, a, b, c) && forall i, position, pk :: tables(i)(position)(pk) >= 0.0
    ensures |results| == times && (forall r :: r in results ==> r.Err?)
    ensures engine.pending == [a] && engine.order == []
    ensures forall i, position :: Finalizes(engine.config, engine.analyzer.rho, engine.storage.graph,
                                            engine.storage.messages, tables(i)(position), a)
  {
    hide Finalizes, Judges, FinalityEngine.Valid, FinalityEngine.Funded, FinalityEngine.Mind, Blocked;
    engine := StuckEngine(hash, serialize, x, a, b, c, key);
    results := RetryCheck(engine, tables, 0, times, 0);
    OrderFits(engine, [], engine.pending[..0]);
  }

  // ----- whole runs

  datatype Event =
    | Storing(message: Message)
    | Arriving(id: MessageId)
    | Adopting(artifact: FinalityArtifact)
    | Tuning(k: U64, depthStar: nat, rho: seq<nat>)
    | Checking(f2: Option<F2Outcome>, reputations: nat -> nat -> real, now: I64)
    | Closing(now: I64)
    | Depositing(event: Deposits.Event)

  /** Deposits are made once per message; payments are transfers. */
  predicate Allowed(deposits: DepositManager, e: Deposits.Event)
    reads deposits
  {
    (e.Escrowing? ==> e.id !in deposits.deposits) && (e.Paying? ==> IsPayment(e.op))
  }

  /** A deposit settled from outside the engine. */
  predicate Disputes(e: Event) {
    e.Depositing? && (e.event.Refunding? || e.event.Slashing?)
  }

  ghost predicate SafeKey(hash: HashFn, e: Event) {
    e.Depositing? && e.event.Escrowing? ==> AddressOf(hash, e.event.key) != Treasury()
  }

  ghost function KeysUsed(events: seq<Event>): set<PublicKey> {
    set i | 0 <= i < |events| && events[i].Depositing? && events[i].event.Escrowing? :: events[i].event.key
  }

  lemma UsedKeyIsSafe(hash: HashFn, events: seq<Event>, known: set<PublicKey>, i: nat)
    requires i < |events| && NoTreasuryKey(hash, known + KeysUsed(events))
    ensures SafeKey(hash, events[i])
  {
    if events[i].Depositing? && events[i].event.Escrowing? {
      assert events[i].event.key in KeysUsed(events);
    }
  }

  /** Only final messages have a settled deposit. */
  ghost predicate SettledAreFinal(deposits: DepositMap, known: set<MessageId>) {
    forall x :: Blocked(deposits, x) ==> x in known
  }

  lemma StillFinal(before: DepositMap, after: DepositMap, known: set<MessageId>, known': set<MessageId>)
    requires SettledAreFinal(before, known) && known <= known' && (after == before || NoneNewlySettled(before, after))
    ensures SettledAreFinal(after, known')
  {
  }

  lemma FinalAfterF1(before: DepositMap, after: DepositMap, known: set<MessageId>, known': set<MessageId>,
                     newly: seq<MessageId>)
    requires SettledAreFinal(before, known) && after == AfterRefunds(before, newly)
             && known' == known + Elements(newly)
    ensures SettledAreFinal(after, known')
  {
  }

  lemma FinalAfterF2(before: DepositMap, ids: seq<MessageId>, known: set<MessageId>, known': set<MessageId>)
    requires SettledAreFinal(before, known) && known' == known + Elements(ids)
    ensures SettledAreFinal(AfterRefunds(before, ids), known')
  {
  }

  lemma NothingRefused(deposits: DepositMap, known: set<MessageId>, x: MessageId)
    requires SettledAreFinal(deposits, known) && x !in known
    ensures !Blocked(deposits, x)
  {
  }

  method HandleDeposit(deposits: DepositManager, e: Deposits.Event)
    requires deposits.Valid() && deposits.Balanced() && TreasuryOwnsNone(deposits.deposits)
    requires e.Escrowing? ==> AddressOf(deposits.hash, e.key) != Treasury()
    modifies deposits, deposits.balances`cache, deposits.balances.storage
    ensures deposits.Valid() && deposits.Balanced() && TreasuryOwnsNone(deposits.deposits)
    ensures !e.Refunding? && !e.Slashing? ==>
              deposits.deposits == old(deposits.deposits)
              || NoneNewlySettled(old(deposits.deposits), deposits.deposits)
  {
    hide DepositManager.Valid, DepositManager.Balanced, TreasuryOwnsNone, AddressOf, Treasury, NoneNewlySettled;
    if Allowed(deposits, e) {
      Deposits.Handle(deposits, e);
    }
  }

  /** One check in a run; the result says whether the F1 branch was refused. */
  method HandleCheck(engine: FinalityEngine, f2: Option<F2Outcome>, reputations: nat -> nat -> real, now: I64)
      returns (refused: bool)
    requires engine.Valid() && engine.Funded() && engine.Room(|engine.pending| + 1)
    requires TreasuryOwnsNone(engine.deposits.deposits)
    modifies engine`finalized, engine`maxFinalizedDepth, engine`order, engine`pending, engine.analyzer
    modifies engine`checkpointHeight, engine`checkpoints, engine`f1Finalized, engine`f2Stabilized
    modifies engine.deposits`deposits, engine.deposits.balances`cache, engine.deposits.balances.storage`lockedBalances
    ensures engine.Valid() && engine.Funded() && TreasuryOwnsNone(engine.deposits.deposits)
    ensures old(engine.order) <= engine.order && old(engine.checkpoints) <= engine.checkpoints
    ensures old(engine.finalized).Keys <= engine.finalized.Keys
            && old(engine.maxFinalizedDepth) <= engine.maxFinalizedDepth
    ensures old(SettledAreFinal(engine.deposits.deposits, engine.finalized.Keys)) ==>
              SettledAreFinal(engine.deposits.deposits, engine.finalized.Keys) && !refused
    ensures var verdicts := Judgements(engine.config, engine.analyzer.rho, engine.storage.graph,
                                       engine.storage.messages, old(engine.Mind()), reputations, old(engine.pending));
            refused <==>
              !old(engine.config.f2Enabled && engine.pending != [] && f2.Some?) && engine.config.f1Enabled
              && !NoneBlocked(old(engine.deposits.deposits),
                              Picks(old(engine.pending), verdicts, old(engine.finalized).Keys))
  {
    hide Books, Recorded, DepositManager.Valid, DepositManager.Balanced, MessageStore.Valid, TreasuryOwnsNone, Truthful,
      Judgements, Picks, Unblocked, NoneBlocked, Refusable, SameOwners, F2Adds, Raised, LogsAll, Adds, Remove,
          AfterRefunds, FinalityEngine.Valid, FinalityEngine.Funded, SettledAreFinal, Blocked, Remembers,
          FinalityEngine.Mind;
    var viaF2 := engine.TakesF2(f2);
    ghost var deposits0, known, order0 := engine.deposits.deposits, engine.finalized, engine.order;
    var r, stop := engine.CheckFinality(f2, reputations, now);
    SameOwnersTreasury(deposits0, engine.deposits.deposits);
    refused := r.Err? && !viaF2;
    if SettledAreFinal(deposits0, known.Keys) {
      if viaF2 {
        F2AddsMeans(engine.config, f2.value, known, engine.finalized, f2.value.messages[..stop]);
        FinalAfterF2(deposits0, f2.value.messages[..stop], known.Keys, engine.finalized.Keys);
      } else {
        AddsKeys(known, engine.finalized, engine.order[|order0|..]);
        FinalAfterF1(deposits0, engine.deposits.deposits, known.Keys, engine.finalized.Keys, engine.order[|order0|..]);
        if r.Err? {
          ghost var x :| x in engine.pending && x !in engine.finalized && Blocked(deposits0, x);
          NothingRefused(deposits0, known.Keys, x);
        }
      }
    }
  }

  /** One event; the result says whether it was an F1 check that was refused. */
  method Handle(engine: FinalityEngine, e: Event) returns (refused: bool)
    requires engine.Valid() && engine.Funded() && engine.Room(|engine.pending| + 1)
    requires TreasuryOwnsNone(engine.deposits.deposits) && SafeKey(engine.deposits.hash, e)
    modifies engine, engine.analyzer, engine.storage, engine.deposits, engine.deposits.balances`cache
    modifies engine.deposits.balances.storage
    ensures engine.Valid() && engine.Funded() && TreasuryOwnsNone(engine.deposits.deposits)
    ensures engine.analyzer == old(engine.analyzer) || fresh(engine.analyzer)
    ensures old(engine.order) <= engine.order && old(engine.checkpoints) <= engine.checkpoints
    ensures old(engine.finalized).Keys <= engine.finalized.Keys
            && old(engine.maxFinalizedDepth) <= engine.maxFinalizedDepth
    ensures old(SettledAreFinal(engine.deposits.deposits, engine.finalized.Keys)) && !Disputes(e) ==>
              SettledAreFinal(engine.deposits.deposits, engine.finalized.Keys) && !refused
  {
    hide Books, Recorded, DepositManager.Valid, DepositManager.Balanced, MessageStore.Valid, TreasuryOwnsNone, IsMaxK,
      IsWitnessRoot, SettledAreFinal, AddressOf, Treasury, NoneNewlySettled;
    ghost var deposits0, known := engine.deposits.deposits, engine.finalized.Keys;
    refused := false;
    match e {
      case Storing(message) => var _ := engine.storage.StoreMessage(message);
      case Arriving(id) => engine.AddMessage(id);
      case Adopting(artifact) => engine.StoreArtifact(artifact);
      case Tuning(k, depthStar, rho) => engine.UpdateParams(k, depthStar, rho);
      case Checking(f2, reputations, now) => refused := HandleCheck(engine, f2, reputations, now);
      case Closing(now) => var _ := engine.CreateCheckpoint(now);
      case Depositing(event) => HandleDeposit(engine.deposits, event);
    }
    if !e.Checking? && !Disputes(e) && SettledAreFinal(deposits0, known) {
      StillFinal(deposits0, engine.deposits.deposits, known, engine.finalized.Keys);
    }
  }

  lemma StartsSafe(engine: FinalityEngine, more: set<PublicKey>)
    requires engine.Funded() && NoTreasuryKey(engine.deposits.hash, KeysOf(engine.deposits.deposits) + more)
    ensures TreasuryOwnsNone(engine.deposits.deposits)
  {
    SafeStart(engine.deposits, more);
  }

  lemma ValidMeans(engine: FinalityEngine)
    requires engine.Valid()
    ensures Flatten(engine.checkpoints) + engine.f1Finalized == engine.order && NoDuplicates(engine.order)
    ensures forall i :: 0 <= i < |engine.checkpoints| ==> engine.checkpoints[i].height == i
    ensures forall x :: x in engine.order ==> x in engine.finalized
  {
    hide CP.Encode, MerkleRoot, IdLeaves;
    forall i | 0 <= i < |engine.checkpoints| ensures engine.checkpoints[i].height == i {
      assert CP.Linked(engine.hash, engine.checkpoints, i);
    }
  }

  /** In every run, for as long as the 64-bit counters have room: what is finalised stays finalised, the finalised depth
      never drops, checkpoints are only appended, checkpoint `i` has height `i`, and the checkpoints' F1 lists with the
      buffer spell the F1 order, each message once. Where nobody but the engine settles deposits, only final messages
      have settled ones, and no F1 check is ever refused. */
  method RunEngine(engine: FinalityEngine, events: seq<Event>) returns (refused: bool)
    requires engine.Valid() && engine.Funded()
    requires NoTreasuryKey(engine.deposits.hash, KeysOf(engine.deposits.deposits) + KeysUsed(events))
    modifies engine, engine.analyzer, engine.storage, engine.deposits, engine.deposits.balances`cache
    modifies engine.deposits.balances.storage
    ensures engine.Valid() && engine.Funded()
    ensures old(engine.order) <= engine.order && old(engine.checkpoints) <= engine.checkpoints
    ensures old(engine.finalized).Keys <= engine.finalized.Keys
            && old(engine.maxFinalizedDepth) <= engine.maxFinalizedDepth
    ensures Flatten(engine.checkpoints) + engine.f1Finalized == engine.order && NoDuplicates(engine.order)
    ensures forall i :: 0 <= i < |engine.checkpoints| ==> engine.checkpoints[i].height == i
    ensures forall x :: x in engine.order ==> x in engine.finalized
    ensures old(SettledAreFinal(engine.deposits.deposits, engine.finalized.Keys))
            && (forall i :: 0 <= i < |events| ==> !Disputes(events[i])) ==>
              SettledAreFinal(engine.deposits.deposits, engine.finalized.Keys) && !refused
  {
    hide Books, Recorded, DepositManager.Valid, DepositManager.Balanced, MessageStore.Valid, FinalityEngine.Valid,
      FinalityEngine.Funded, SettledAreFinal, NoTreasuryKey, KeysUsed, SafeKey, TreasuryOwnsNone, Disputes;
    ghost var keys := KeysOf(engine.deposits.deposits);
    StartsSafe(engine, KeysUsed(events));
    refused := false;
    for i := 0 to |events|
      invariant engine.Valid() && engine.Funded() && TreasuryOwnsNone(engine.deposits.deposits)
      invariant engine.analyzer == old(engine.analyzer) || fresh(engine.analyzer)
      invariant old(engine.order) <= engine.order && old(engine.checkpoints) <= engine.checkpoints
      invariant old(engine.finalized).Keys <= engine.finalized.Keys
                && old(engine.maxFinalizedDepth) <= engine.maxFinalizedDepth
      invariant old(SettledAreFinal(engine.deposits.deposits, engine.finalized.Keys))
                && (forall j :: 0 <= j < |events| ==> !Disputes(events[j])) ==>
                  SettledAreFinal(engine.deposits.deposits, engine.finalized.Keys) && !refused
    {
      if !engine.Room(|engine.pending| + 1) {
        ValidMeans(engine);
        return;
      }
      UsedKeyIsSafe(engine.deposits.hash, events, keys, i);
      var refusedNow := Handle(engine, events[i]);
      refused := refused || refusedNow;
    }
    ValidMeans(engine);
  }
}
