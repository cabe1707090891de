/** Governance conflicts: the tie-breaking comparator, pairwise detection, and the two-way index of the resolver. */
module Conflicts {
  import opened Common

  type Hash = Bytes32

  datatype ConflictType = OverlappingParameters | OverlappingAxes | OverlappingEnactment

  datatype ResolutionStatus = Pending | Resolving | Resolved | AllRejected

  datatype ProposalClass = Constitutional | Operational

  datatype ProposalStatus = Voting | Tallying | Succeeded | Enacting | Rejected | Enacted | Failed

  datatype Proposal = Proposal(id: Hash, cls: ProposalClass, paramKeys: seq<string>, axis: Option<Byte>,
                               enactEpoch: U64, created: int, status: ProposalStatus, tallyYes: real, tallyNo: real)

  datatype ConflictSet = ConflictSet(id: Hash, proposals: seq<Hash>, kind: ConflictType, status: ResolutionStatus,
                                     winner: Option<Hash>)

  datatype ConflictError = ConflictNotFound | ProposalNotFound(id: Hash)

  // ----- the comparator

  datatype Ordering = Less | Equal | Greater {
    function Flip(): Ordering {
      match this
      case Less => Greater
      case Equal => Equal
      case Greater => Less
    }
  }

  function CompareInt(a: int, b: int): Ordering {
    if a < b then Less else if a > b then Greater else Equal
  }

  /** Byte strings of one length, lexicographically. */
  function CompareBytes(a: seq<Byte>, b: seq<Byte>): Ordering
    requires |a| == |b|
  {
    if a == [] then Equal
    else if a[0] != b[0] then CompareInt(a[0], b[0])
    else CompareBytes(a[1..], b[1..])
  }

  lemma {:induction false} BytesAntisymmetric(a: seq<Byte>, b: seq<Byte>)
    requires |a| == |b|
    ensures CompareBytes(a, b) == CompareBytes(b, a).Flip()
    ensures CompareBytes(a, b) == Equal <==> a == b
  {
    if a != [] {
      BytesAntisymmetric(a[1..], b[1..]);
      assert a == [a[0]] + a[1..] && b == [b[0]] + b[1..];
    }
  }

  lemma {:induction false} BytesTransitive(a: seq<Byte>, b: seq<Byte>, c: seq<Byte>)
    requires |a| == |b| == |c| && CompareBytes(a, b) == Greater && CompareBytes(b, c) == Greater
    ensures CompareBytes(a, c) == Greater
  {
    if a != [] && a[0] == b[0] == c[0] {
      BytesTransitive(a[1..], b[1..], c[1..]);
    }
  }

  /** The first unequal byte decides. */
  lemma {:induction false} BytesLexicographic(a: seq<Byte>, b: seq<Byte>, k: nat)
    requires k < |a| == |b| && a[..k] == b[..k] && a[k] < b[k]
    ensures CompareBytes(a, b) == Less
  {
    if k > 0 {
      assert a[..k][0] == b[..k][0];
      assert a[1..][..k - 1] == a[..k][1..] == b[..k][1..] == b[1..][..k - 1];
      BytesLexicographic(a[1..], b[1..], k - 1);
    }
  }

  function Distance(x: real, y: real): real {
    if x < y then y - x else x - y
  }

  datatype PriorityScore = PriorityScore(id: Hash, classPriority: nat, finalityTime: int, margin: real) {
    /** Class, then earlier finality time, then margin outside a band of 0.0001, then the id. */
    function Compare(other: PriorityScore): Ordering {
      if classPriority != other.classPriority then CompareInt(classPriority, other.classPriority)
      else if finalityTime != other.finalityTime then CompareInt(finalityTime, other.finalityTime).Flip()
      else if Distance(margin, other.margin) > 0.0001 then (if margin > other.margin then Greater else Less)
      else CompareBytes(id, other.id)
    }
  }

  /** The comparator is antisymmetric, and only scores with one id can tie. */
  lemma CompareAntisymmetric(a: PriorityScore, b: PriorityScore)
    ensures a.Compare(b) == b.Compare(a).Flip()
    ensures a.Compare(b) == Equal ==> a.id == b.id
    ensures a.Compare(a) == Equal
  {
    BytesAntisymmetric(a.id, b.id);
    BytesAntisymmetric(a.id, a.id);
  }

  /** `a` beats `b` and `b` beats `c` by id inside the band, while `c` beats `a` by margin across it. */
  predicate BandCycle(a: PriorityScore, b: PriorityScore, c: PriorityScore) {
    && a.classPriority == b.classPriority == c.classPriority && a.finalityTime == b.finalityTime == c.finalityTime
    && Distance(a.margin, b.margin) <= 0.0001 && Distance(b.margin, c.margin) <= 0.0001 && c.margin - a.margin > 0.0001
    && CompareBytes(a.id, b.id) == Greater && CompareBytes(b.id, c.id) == Greater
  }

  predicate Circle(a: PriorityScore, b: PriorityScore, c: PriorityScore) {
    a.Compare(b) == Greater && b.Compare(c) == Greater && c.Compare(a) == Greater
  }

  /** Three scores beat each other in a circle exactly when two steps of it stay inside the band and the third crosses
      it. */
  lemma CircleExactly(a: PriorityScore, b: PriorityScore, c: PriorityScore)
    ensures Circle(a, b, c) <==> BandCycle(a, b, c) || BandCycle(b, c, a) || BandCycle(c, a, b)
  {
    var ab, bc, ca := CompareBytes(a.id, b.id), CompareBytes(b.id, c.id), CompareBytes(c.id, a.id);
    BytesAntisymmetric(a.id, c.id);
    if ab == Greater && bc == Greater {
      BytesTransitive(a.id, b.id, c.id);
    }
  }

  /** Winning is transitive between different proposals except around such a circle. */
  lemma TransitiveExactly(a: PriorityScore, b: PriorityScore, c: PriorityScore)
    requires a.Compare(b) == Greater && b.Compare(c) == Greater && a.id != c.id
    ensures a.Compare(c) == Greater <==> !(BandCycle(a, b, c) || BandCycle(b, c, a) || BandCycle(c, a, b))
  {
    CompareAntisymmetric(a, c);
    CircleExactly(a, b, c);
    hide PriorityScore.Compare, BandCycle;
  }

  ghost predicate Separated(a: PriorityScore, b: PriorityScore) {
    a.margin == b.margin || Distance(a.margin, b.margin) > 0.0001
  }

  /** Where margins are equal or outside each other's band, winning is transitive. */
  lemma CompareTransitive(a: PriorityScore, b: PriorityScore, c: PriorityScore)
    requires Separated(a, b) && Separated(b, c) && Separated(a, c)
    requires a.Compare(b) == Greater && b.Compare(c) == Greater
    ensures a.Compare(c) == Greater
  {
    if CompareBytes(a.id, b.id) == Greater && CompareBytes(b.id, c.id) == Greater {
      BytesTransitive(a.id, b.id, c.id);
    }
  }

  /** Inside the band it is not: each of these three beats the next one around. */
  lemma BandMakesCycle()
    ensures var a := PriorityScore(seq(32, _ => 3), 1, 0, 0.0);
            var b := PriorityScore(seq(32, _ => 2), 1, 0, 0.00008);
            var c := PriorityScore(seq(32, _ => 1), 1, 0, 0.00016);
            a.Compare(b) == Greater && b.Compare(c) == Greater && c.Compare(a) == Greater
  {
  }

  // ----- sorting by priority

  function InsertScore(sorted: seq<PriorityScore>, s: PriorityScore): (r: seq<PriorityScore>)
    ensures |r| == |sorted| + 1
  {
    if sorted == [] then [s]
    else if s.Compare(sorted[0]) == Greater then [s] + sorted
    else [sorted[0]] + InsertScore(sorted[1..], s)
  }

  /** A stable sort, highest priority first. */
  function SortScores(scores: seq<PriorityScore>): (r: seq<PriorityScore>)
    ensures |r| == |scores|
  {
    if scores == [] then [] else InsertScore(SortScores(scores[..|scores| - 1]), scores[|scores| - 1])
  }

  function Winner(scores: seq<PriorityScore>): PriorityScore
    requires scores != []
  {
    SortScores(scores)[0]
  }

  lemma WinnerStep(scores: seq<PriorityScore>)
    requires |scores| >= 2
    ensures var before, last := Winner(scores[..|scores| - 1]), scores[|scores| - 1];
            Winner(scores) == if last.Compare(before) == Greater then last else before
  {
  }

  ghost predicate AllSeparated(scores: seq<PriorityScore>) {
    forall a, b :: a in scores && b in scores ==> Separated(a, b)
  }

  /** A score that ties with the loser loses too. */
  lemma TiesShareIds(before: PriorityScore, s: PriorityScore, last: PriorityScore)
    requires Separated(before, s) && Separated(last, before) && Separated(last, s)
    requires before.Compare(s) == Equal && last.Compare(before) == Greater
    ensures last.Compare(s) == Greater
  {
    CompareAntisymmetric(before, s);
  }

  /** Among separated margins the winner loses to nobody, whatever the order of the list. */
  lemma {:induction false} WinnerLosesToNone(scores: seq<PriorityScore>)
    requires scores != [] && AllSeparated(scores)
    ensures Winner(scores) in scores && forall s :: s in scores ==> Winner(scores).Compare(s) != Less
  {
    var init, last := scores[..|scores| - 1], scores[|scores| - 1];
    assert scores == init + [last];
    if init == [] {
      assert SortScores([]) == [] && SortScores(scores) == [last];
      CompareAntisymmetric(last, last);
    } else {
      WinnerLosesToNone(init);
      WinnerStep(scores);
      hide Winner, PriorityScore.Compare, Separated;
      var before := Winner(init);
      CompareAntisymmetric(last, before);
      CompareAntisymmetric(last, last);
      forall s | s in scores ensures Winner(scores).Compare(s) != Less {
        if s in init && last.Compare(before) == Greater && before.Compare(s) == Greater {
          CompareTransitive(last, before, s);
        } else if s in init && last.Compare(before) == Greater {
          TiesShareIds(before, s, last);
        }
      }
    }
  }

  /** So the same separated proposals in any order have one winning id. */
  lemma WinnerIgnoresOrder(xs: seq<PriorityScore>, ys: seq<PriorityScore>)
    requires xs != [] && AllSeparated(xs) && (forall s :: s in xs <==> s in ys)
    ensures ys != [] && Winner(xs).id == Winner(ys).id
  {
    hide Winner, Separated, PriorityScore.Compare;
    assert xs[0] in ys;
    WinnerLosesToNone(xs);
    WinnerLosesToNone(ys);
    CompareAntisymmetric(Winner(xs), Winner(ys));
  }

  lemma PairWinner(a: PriorityScore, b: PriorityScore)
    ensures Winner([a, b]) == if b.Compare(a) == Greater then b else a
  {
    assert [a, b][..1] == [a] && [a][..0] == [];
    assert SortScores([a]) == [a];
  }

  /** For two members no condition on margins is needed. */
  lemma PairWinnerIgnoresOrder(a: PriorityScore, b: PriorityScore)
    ensures Winner([a, b]).id == Winner([b, a]).id
    ensures Winner([a, b]) in [a, b] && Winner([a, b]).Compare(a) != Less && Winner([a, b]).Compare(b) != Less
  {
    PairWinner(a, b);
    PairWinner(b, a);
    hide Winner, PriorityScore.Compare;
    CompareAntisymmetric(a, b);
    CompareAntisymmetric(a, a);
    CompareAntisymmetric(b, b);
  }

  /** `w` beats every other score of the list. */
  ghost predicate BeatsAll(scores: seq<PriorityScore>, w: PriorityScore) {
    w in scores && forall s :: s in scores && s != w ==> w.Compare(s) == Greater
  }

  lemma PairFirst(s: PriorityScore)
    ensures Winner([s]) == s
  {
    assert SortScores([s][..0]) == [];
  }

  lemma {:induction false} WinnerIsMember(scores: seq<PriorityScore>)
    requires scores != []
    ensures Winner(scores) in scores
  {
    if |scores| == 1 {
      PairFirst(scores[0]);
    } else {
      WinnerIsMember(scores[..|scores| - 1]);
      WinnerStep(scores);
    }
  }

  /** A member that beats every other one wins, whatever the margins and the order. */
  lemma {:induction false} BeatingAllWins(scores: seq<PriorityScore>, w: PriorityScore)
    requires BeatsAll(scores, w)
    ensures Winner(scores) == w
  {
    hide Winner, PriorityScore.Compare;
    var init, last := scores[..|scores| - 1], scores[|scores| - 1];
    assert scores == init + [last];
    if init == [] {
      PairFirst(last);
    } else {
      WinnerStep(scores);
      WinnerIsMember(init);
      CompareAntisymmetric(w, last);
      CompareAntisymmetric(w, w);
      if w in init {
        BeatingAllWins(init, w);
      } else {
        assert Winner(init) != w;
      }
    }
  }

  /** No two different scores share an id. */
  ghost predicate DistinctIds(scores: seq<PriorityScore>) {
    forall a, b :: a in scores && b in scores && a.id == b.id ==> a == b
  }

  ghost predicate SameInAnyOrder(scores: seq<PriorityScore>)
    requires scores != []
  {
    forall other: seq<PriorityScore> :: multiset(other) == multiset(scores) ==>
      other != [] && Winner(other) == Winner(scores)
  }

  lemma SameMembers(xs: seq<PriorityScore>, ys: seq<PriorityScore>)
    requires multiset(xs) == multiset(ys)
    ensures forall s :: s in xs <==> s in ys
    ensures xs == [] <==> ys == []
  {
    assert forall s :: s in xs <==> s in multiset(xs);
    assert forall s :: s in ys <==> s in multiset(ys);
    assert |xs| == |multiset(xs)| == |multiset(ys)| == |ys|;
  }

  lemma StillBeatsAll(scores: seq<PriorityScore>, other: seq<PriorityScore>, w: PriorityScore)
    requires scores != [] && BeatsAll(scores, w) && multiset(other) == multiset(scores)
    ensures other != [] && BeatsAll(other, w)
  {
    SameMembers(other, scores);
  }

  lemma SameWinner(scores: seq<PriorityScore>, other: seq<PriorityScore>, w: PriorityScore)
    requires scores != [] && BeatsAll(scores, w) && multiset(other) == multiset(scores)
    ensures other != [] && Winner(other) == Winner(scores)
  {
    hide Winner, PriorityScore.Compare, BeatsAll;
    BeatingAllWins(scores, w);
    StillBeatsAll(scores, other, w);
    BeatingAllWins(other, w);
  }

  lemma BeatingAllIsStable(scores: seq<PriorityScore>, w: PriorityScore)
    requires scores != [] && BeatsAll(scores, w)
    ensures SameInAnyOrder(scores)
  {
    hide Winner, PriorityScore.Compare, BeatsAll;
    if !SameInAnyOrder(scores) {
      var other: seq<PriorityScore> :|
        multiset(other) == multiset(scores) && !(other != [] && Winner(other) == Winner(scores));
      SameWinner(scores, other, w);
    }
  }

  lemma MoveLast<T>(s: seq<T>, k: nat) returns (init: seq<T>)
    requires k < |s|
    ensures multiset(init + [s[k]]) == multiset(s) && (init + [s[k]])[..|init|] == init && |init| == |s| - 1
  {
    init := s[..k] + s[k + 1..];
    assert s == s[..k] + [s[k]] + s[k + 1..];
  }

  lemma SingleWinner(scores: seq<PriorityScore>, x: PriorityScore)
    requires |scores| == 1 && x in scores
    ensures Winner(scores) == x
  {
    PairFirst(x);
    assert scores == [x];
  }

  /** A member that does not win even when it comes last is beaten by the winner. */
  lemma ChallengerLast(scores: seq<PriorityScore>, x: PriorityScore)
    requires scores != [] && DistinctIds(scores) && SameInAnyOrder(scores) && x in scores && x != Winner(scores)
    ensures Winner(scores).Compare(x) == Greater
  {
    hide Winner, PriorityScore.Compare;
    WinnerIsMember(scores);
    CompareAntisymmetric(x, Winner(scores));
    if |scores| == 1 {
      SingleWinner(scores, x);
    } else {
      var k :| 0 <= k < |scores| && scores[k] == x;
      var init := MoveLast(scores, k);
      WinnerStep(init + [x]);
    }
  }

  /** The winner is the same in every order exactly when one member beats all others. */
  lemma OrderIrrelevantExactly(scores: seq<PriorityScore>)
    requires scores != [] && DistinctIds(scores)
    ensures SameInAnyOrder(scores) <==> exists w :: BeatsAll(scores, w)
  {
    hide Winner, PriorityScore.Compare;
    if w :| BeatsAll(scores, w) {
      BeatingAllIsStable(scores, w);
    }
    if SameInAnyOrder(scores) {
      WinnerIsMember(scores);
      forall x | x in scores && x != Winner(scores) ensures Winner(scores).Compare(x) == Greater {
        ChallengerLast(scores, x);
      }
      assert BeatsAll(scores, Winner(scores));
    }
  }

  // ----- detection

  predicate IsActive(p: Proposal) {
    p.status == Succeeded || p.status == Enacting
  }

  function Active(proposals: seq<Proposal>): (active: seq<Proposal>)
    ensures forall p :: p in active <==> p in proposals && IsActive(p)
  {
    if proposals == [] then []
    else
      var last := proposals[|proposals| - 1];
      assert proposals == proposals[..|proposals| - 1] + [last];
      Active(proposals[..|proposals| - 1]) + if IsActive(last) then [last] else []
  }

  /** Exactly the succeeded and the enacting proposals stay, in the order they came. */
  lemma ActiveStep(ps: seq<Proposal>, p: Proposal)
    ensures Active([]) == []
    ensures Active(ps + [p]) == Active(ps) + if p.status == Succeeded || p.status == Enacting then [p] else []
  {
    assert (ps + [p])[..|ps|] == ps;
  }

  const EPOCH_WINDOW := 100

  function PairConflict(p: Proposal, q: Proposal): Option<ConflictType> {
    if exists k :: k in p.paramKeys && k in q.paramKeys then Some(OverlappingParameters)
    else if p.axis.Some? && p.axis == q.axis then Some(OverlappingAxes)
    else if q.enactEpoch - EPOCH_WINDOW < p.enactEpoch < q.enactEpoch + EPOCH_WINDOW then Some(OverlappingEnactment)
    else None
  }

  lemma PairConflictSymmetric(p: Proposal, q: Proposal)
    ensures PairConflict(p, q) == PairConflict(q, p)
  {
  }

  /** Two proposals conflict over a parameter both change, else over one axis, else over enactments less than 100 epochs
      apart. */
  lemma PairConflictExactly(p: Proposal, q: Proposal)
    ensures var shared := exists k :: k in p.paramKeys && k in q.paramKeys;
            var sameAxis := p.axis.Some? && q.axis.Some? && p.axis.value == q.axis.value;
            var near := p.enactEpoch < q.enactEpoch + 100 && q.enactEpoch < p.enactEpoch + 100;
            && (PairConflict(p, q) == Some(OverlappingParameters) <==> shared)
            && (PairConflict(p, q) == Some(OverlappingAxes) <==> !shared && sameAxis)
            && (PairConflict(p, q) == Some(OverlappingEnactment) <==> !shared && !sameAxis && near)
            && (PairConflict(p, q) == None <==> !shared && !sameAxis && !near)
  {
  }

  /** The bytes hashed into a conflict id: the two proposal ids in order. */
  function PairKey(a: Hash, b: Hash): (key: seq<Byte>)
    ensures |key| == 64
  {
    if CompareBytes(b, a) == Less then b + a else a + b
  }

  lemma SplitKey(a: Hash, b: Hash)
    ensures var key := PairKey(a, b);
            (key[..32] == a && key[32..] == b) || (key[..32] == b && key[32..] == a)
  {
    assert (a + b)[..32] == a && (a + b)[32..] == b && (b + a)[..32] == b && (b + a)[32..] == a;
  }

  lemma PairKeyPinsMembers(a: Hash, b: Hash, c: Hash, d: Hash)
    ensures PairKey(a, b) == PairKey(c, d) <==> (a == c && b == d) || (a == d && b == c)
  {
    BytesAntisymmetric(a, b);
    if PairKey(a, b) == PairKey(c, d) {
      assert PairKey(a, b)[..32] == PairKey(c, d)[..32] && PairKey(a, b)[32..] == PairKey(c, d)[32..];
      SplitKey(a, b);
      SplitKey(c, d);
    }
  }

  function NewSet(hash: HashFn, p: Proposal, q: Proposal): (s: seq<ConflictSet>)
    ensures |s| <= 1
  {
    if PairConflict(p, q).None? then []
    else [ConflictSet(hash(PairKey(p.id, q.id)), [p.id, q.id], PairConflict(p, q).value, Pending, None)]
  }

  /** The conflicts of member `i` with members `i + 1` to `j - 1`. */
  function Row(hash: HashFn, active: seq<Proposal>, i: nat, j: nat): seq<ConflictSet>
    requires i < j <= |active|
  {
    if j == i + 1 then [] else Row(hash, active, i, j - 1) + NewSet(hash, active[i], active[j - 1])
  }

  /** The conflicts of the first `i` members with everyone after them. */
  function Rows(hash: HashFn, active: seq<Proposal>, i: nat): seq<ConflictSet>
    requires i <= |active|
  {
    if i == 0 then [] else Rows(hash, active, i - 1) + Row(hash, active, i - 1, |active|)
  }

  lemma RowNext(hash: HashFn, active: seq<Proposal>, i: nat, j: nat)
    requires i < j < |active|
    ensures Row(hash, active, i, j + 1) == Row(hash, active, i, j) + NewSet(hash, active[i], active[j])
  {
  }

  lemma RowsNext(hash: HashFn, active: seq<Proposal>, i: nat)
    requires i < |active|
    ensures Rows(hash, active, i + 1) == Rows(hash, active, i) + Row(hash, active, i, |active|)
  {
  }

  lemma NoRows(hash: HashFn, active: seq<Proposal>)
    ensures Rows(hash, active, 0) == []
  {
  }

  /** `c` is the conflict found between members `m` and `k`. */
  ghost predicate FoundAt(hash: HashFn, active: seq<Proposal>, m: nat, k: nat, c: ConflictSet)
    requires m < |active| && k < |active|
  {
    c in NewSet(hash, active[m], active[k])
  }

  lemma RowStep(hash: HashFn, active: seq<Proposal>, i: nat, j: nat, c: ConflictSet)
    requires i < j < |active|
    ensures c in Row(hash, active, i, j + 1) <==> c in Row(hash, active, i, j) || FoundAt(hash, active, i, j, c)
  {
  }

  lemma RowEmpty(hash: HashFn, active: seq<Proposal>, i: nat)
    requires i < |active|
    ensures Row(hash, active, i, i + 1) == []
  {
  }

  lemma {:induction false} RowMembers(hash: HashFn, active: seq<Proposal>, i: nat, j: nat, c: ConflictSet)
    requires i < j <= |active|
    ensures c in Row(hash, active, i, j) <==> exists k :: i < k < j && FoundAt(hash, active, i, k, c)
  {
    hide *;
    if j > i + 1 {
      RowMembers(hash, active, i, j - 1, c);
      RowStep(hash, active, i, j - 1, c);
      if c in Row(hash, active, i, j - 1) {
        var k :| i < k < j - 1 && FoundAt(hash, active, i, k, c);
        assert i < k < j && FoundAt(hash, active, i, k, c);
      }
    } else {
      RowEmpty(hash, active, i);
    }
  }

  lemma RowsStep(hash: HashFn, active: seq<Proposal>, i: nat, c: ConflictSet)
    requires i < |active|
    ensures c in Rows(hash, active, i + 1) <==> c in Rows(hash, active, i) || c in Row(hash, active, i, |active|)
  {
  }

  /** The pair `m`, `k` has its first member below `i` and yields `c`. */
  ghost predicate FoundBelow(hash: HashFn, active: seq<Proposal>, i: nat, c: ConflictSet) {
    exists m, k :: 0 <= m < i && m < k < |active| && FoundAt(hash, active, m, k, c)
  }

  lemma FoundBelowStep(hash: HashFn, active: seq<Proposal>, i: nat, c: ConflictSet)
    requires i < |active|
    ensures FoundBelow(hash, active, i + 1, c)
        <==> FoundBelow(hash, active, i, c) || exists k :: i < k < |active| && FoundAt(hash, active, i, k, c)
  {
    hide FoundAt;
    if m, k :| 0 <= m < i + 1 && m < k < |active| && FoundAt(hash, active, m, k, c) && m < i {
      assert FoundBelow(hash, active, i, c);
    }
  }

  lemma RowsNone(hash: HashFn, active: seq<Proposal>, c: ConflictSet)
    ensures Rows(hash, active, 0) == [] && !FoundBelow(hash, active, 0, c)
  {
  }

  /** Detection finds exactly the conflicting pairs of active proposals. */
  lemma {:induction false} RowsMembers(hash: HashFn, active: seq<Proposal>, i: nat, c: ConflictSet)
    requires i <= |active|
    ensures c in Rows(hash, active, i) <==> FoundBelow(hash, active, i, c)
  {
    hide *;
    if i == 0 {
      RowsNone(hash, active, c);
    } else {
      RowsMembers(hash, active, i - 1, c);
      RowsStep(hash, active, i - 1, c);
      RowMembers(hash, active, i - 1, |active|, c);
      FoundBelowStep(hash, active, i - 1, c);
    }
  }

  type ConflictMap = map<Hash, ConflictSet>
  type Index = map<Hash, seq<Hash>>

  function Overlay(conflicts: ConflictMap, sets: seq<ConflictSet>): ConflictMap {
    if sets == [] then conflicts
    else
      var last := sets[|sets| - 1];
      Overlay(conflicts, sets[..|sets| - 1])[last.id := last]
  }

  lemma {:induction false} OverlayAppend(conflicts: ConflictMap, xs: seq<ConflictSet>, ys: seq<ConflictSet>)
    ensures Overlay(conflicts, xs + ys) == Overlay(Overlay(conflicts, xs), ys)
  {
    if ys == [] {
      assert xs + ys == xs;
    } else {
      var init, last := ys[..|ys| - 1], ys[|ys| - 1];
      OverlayAppend(conflicts, xs, init);
      assert (xs + ys)[..|xs + ys| - 1] == xs + init;
    }
  }

  // ----- the two-way index

  function Look(index: Index, p: Hash): seq<Hash> {
    if p in index then index[p] else []
  }

  ghost predicate Inverse(conflicts: ConflictMap, index: Index) {
    forall p: Hash, c: Hash :: c in Look(index, p) <==> c in conflicts && p in conflicts[c].proposals
  }

  /** Every conflict is a pair stored under the hash of its two members. */
  ghost predicate WellFormed(hash: HashFn, conflicts: ConflictMap) {
    forall c :: c in conflicts ==>
                  var s := conflicts[c];
                  s.id == c && |s.proposals| == 2 && c == hash(PairKey(s.proposals[0], s.proposals[1]))
  }

  ghost function KeyOf(s: ConflictSet): seq<Byte> {
    if |s.proposals| == 2 then PairKey(s.proposals[0], s.proposals[1]) else []
  }

  /** The keys behind the stored conflicts. */
  ghost function StoredKeys(conflicts: ConflictMap): set<seq<Byte>> {
    set c | c in conflicts :: KeyOf(conflicts[c])
  }

  ghost function PairKeys(proposals: seq<Proposal>): set<seq<Byte>> {
    set i, j | 0 <= i < |proposals| && 0 <= j < |proposals| :: PairKey(proposals[i].id, proposals[j].id)
  }

  function Track(index: Index, p: Hash, c: Hash): Index {
    index[p := Look(index, p) + [c]]
  }

  /** Registering a pair keeps the index inverse, even when the pair was registered before, provided its id is not
      already taken by another pair. */
  lemma RegisterKeeps(hash: HashFn, conflicts: ConflictMap, index: Index, s: ConflictSet)
    requires WellFormed(hash, conflicts) && Inverse(conflicts, index)
    requires |s.proposals| == 2 && s.id == hash(KeyOf(s))
    requires s.id in conflicts ==> KeyOf(conflicts[s.id]) == KeyOf(s)
    ensures WellFormed(hash, conflicts[s.id := s])
    ensures Inverse(conflicts[s.id := s], Track(Track(index, s.proposals[0], s.id), s.proposals[1], s.id))
  {
    var p, q := s.proposals[0], s.proposals[1];
    var index' := Track(Track(index, p, s.id), q, s.id);
    if s.id in conflicts {
      var t := conflicts[s.id];
      PairKeyPinsMembers(p, q, t.proposals[0], t.proposals[1]);
      assert forall x :: x in t.proposals <==> x in s.proposals;
    }
    forall x: Hash, c: Hash ensures c in Look(index', x)
      <==> c in conflicts[s.id := s] && x in conflicts[s.id := s][c].proposals {
      assert c in Look(index, x) <==> c in conflicts && x in conflicts[c].proposals;
      assert c in Look(index', x) <==> c in Look(index, x) || (c == s.id && (x == p || x == q));
    }
  }

  function Without(ids: seq<Hash>, id: Hash): (r: seq<Hash>)
    ensures forall x :: x in r <==> x in ids && x != id
  {
    if ids == [] then []
    else
      assert ids == ids[..|ids| - 1] + [ids[|ids| - 1]];
      Without(ids[..|ids| - 1], id) + if ids[|ids| - 1] != id then [ids[|ids| - 1]] else []
  }

  /** The index with `id` struck from the lists of `members`. */
  ghost function Cleaned(index: Index, members: seq<Hash>, id: Hash): Index {
    if members == [] then index
    else
      var rest, p := Cleaned(index, members[..|members| - 1], id), members[|members| - 1];
      if p in rest then rest[p := Without(rest[p], id)] else rest
  }

  lemma {:induction false} CleanedLooks(index: Index, members: seq<Hash>, id: Hash)
    ensures forall p, c ::
              c in Look(Cleaned(index, members, id), p) <==> c in Look(index, p) && (p in members ==> c != id)
  {
    if members != [] {
      CleanedLooks(index, members[..|members| - 1], id);
      assert members == members[..|members| - 1] + [members[|members| - 1]];
    }
  }

  lemma WellFormedWithout(hash: HashFn, conflicts: ConflictMap, id: Hash)
    requires WellFormed(hash, conflicts)
    ensures WellFormed(hash, conflicts - {id})
  {
  }

  lemma RemoveKeeps(hash: HashFn, conflicts: ConflictMap, index: Index, id: Hash, index': Index)
    requires WellFormed(hash, conflicts) && Inverse(conflicts, index) && id in conflicts
    requires index' == Cleaned(index, conflicts[id].proposals, id)
    ensures WellFormed(hash, conflicts - {id}) && Inverse(conflicts - {id}, index')
    ensures forall p :: id !in Look(index', p)
  {
    hide Look, Cleaned, WellFormed;
    CleanedLooks(index, conflicts[id].proposals, id);
    WellFormedWithout(hash, conflicts, id);
    assert forall p, c :: c in Look(index, p) <==> c in conflicts && p in conflicts[c].proposals;
  }

  function Margin(yes: real, no: real): real {
    if yes + no > 0.0 then yes / (yes + no) else 0.0
  }

  function ScoreOf(proposals: map<Hash, Proposal>, id: Hash): PriorityScore
    requires id in proposals
  {
    var p := proposals[id];
    PriorityScore(id, if p.cls == Constitutional then 2 else 1, p.created,
                  Margin(p.tallyYes, p.tallyNo))
  }

  lemma OverlayNone(conflicts: ConflictMap)
    ensures Overlay(conflicts, []) == conflicts
  {
  }

  lemma KeyListed(proposals: seq<Proposal>, p: Proposal, q: Proposal)
    requires p in proposals && q in proposals
    ensures PairKey(p.id, q.id) in PairKeys(proposals)
  {
  }

  lemma SameKey(hash: HashFn, conflicts: ConflictMap, keys: set<seq<Byte>>, s: ConflictSet)
    requires WellFormed(hash, conflicts) && CollisionFree(hash, keys) && StoredKeys(conflicts) <= keys
    requires |s.proposals| == 2 && s.id == hash(KeyOf(s)) && KeyOf(s) in keys
    ensures s.id in conflicts ==> KeyOf(conflicts[s.id]) == KeyOf(s)
    ensures StoredKeys(conflicts[s.id := s]) <= keys
  {
    if s.id in conflicts {
      assert KeyOf(conflicts[s.id]) in StoredKeys(conflicts);
    }
    var after := conflicts[s.id := s];
    forall c | c in after ensures KeyOf(after[c]) in keys {
      if c != s.id {
        assert KeyOf(conflicts[c]) in StoredKeys(conflicts);
      }
    }
  }

  /** Status and winner are not part of what the index mirrors. */
  lemma RestatusKeeps(hash: HashFn, conflicts: ConflictMap, index: Index, id: Hash, s: ConflictSet)
    requires WellFormed(hash, conflicts) && Inverse(conflicts, index)
    requires id in conflicts && s.id == id && s.proposals == conflicts[id].proposals
    ensures WellFormed(hash, conflicts[id := s]) && Inverse(conflicts[id := s], index)
  {
  }

  class ConflictResolver {
    const hash: HashFn
    var conflicts: ConflictMap
    var index: Index

    ghost predicate Valid()
      reads this
    {
      WellFormed(hash, conflicts) && Inverse(conflicts, index)
    }

    constructor (hash: HashFn)
      ensures Valid() && this.hash == hash && conflicts == map[]
    {
      this.hash, conflicts, index := hash, map[], map[];
    }

    /** One pair of `detect_conflicts`. */
    method DetectPair(p: Proposal, q: Proposal, ghost keys: set<seq<Byte>>) returns (found: seq<ConflictSet>)
      requires Valid() && CollisionFree(hash, keys) && StoredKeys(conflicts) <= keys && PairKey(p.id, q.id) in keys
      modifies this
      ensures Valid() && StoredKeys(conflicts) <= keys
      ensures found == NewSet(hash, p, q) && conflicts == Overlay(old(conflicts), found)
    {
      var kind := PairConflict(p, q);
      if kind.None? {
        return [];
      }
      hide WellFormed, Inverse, CollisionFree;
      var id := hash(PairKey(p.id, q.id));
      var s := ConflictSet(id, [p.id, q.id], kind.value, Pending, None);
      SameKey(hash, conflicts, keys, s);
      RegisterKeeps(hash, conflicts, index, s);
      conflicts := conflicts[id := s];
      index := Track(index, p.id, id);
      index := Track(index, q.id, id);
      found := [s];
      assert found[..0] == [];
    }

    /** `detect_conflicts`: registers every conflicting pair of active proposals; a pair seen before starts over as
        pending. The index stays the inverse of the conflicts, given collision-free conflict ids. */
    method DetectConflicts(proposals: seq<Proposal>) returns (found: seq<ConflictSet>)
      requires Valid() && CollisionFree(hash, StoredKeys(conflicts) + PairKeys(proposals))
      modifies this
      ensures Valid()
      ensures found == Rows(hash, Active(proposals), |Active(proposals)|)
      ensures conflicts == Overlay(old(conflicts), found)
    {
      hide WellFormed, Inverse, CollisionFree, NewSet, Overlay, StoredKeys, PairKeys, Row, Rows;
      ghost var keys, before := StoredKeys(conflicts) + PairKeys(proposals), conflicts;
      OverlayNone(before);
      var active := Active(proposals);
      NoRows(hash, active);
      found := [];
      for i := 0 to |active|
        invariant Valid() && StoredKeys(conflicts) <= keys
        invariant found == Rows(hash, active, i) && conflicts == Overlay(before, found)
      {
        RowEmpty(hash, active, i);
        RowsNext(hash, active, i);
        for j := i + 1 to |active|
          invariant Valid() && StoredKeys(conflicts) <= keys
          invariant found == Rows(hash, active, i) + Row(hash, active, i, j) && conflicts == Overlay(before, found)
        {
          assert active[i] in active && active[j] in active;
          KeyListed(proposals, active[i], active[j]);
          RowNext(hash, active, i, j);
          var more := DetectPair(active[i], active[j], keys);
          OverlayAppend(before, found, more);
          found := found + more;
        }
      }
    }

    /** `resolve_conflict_set`: the better of the two members wins. A missing proposal leaves the set resolving. */
    method ResolveConflictSet(id: Hash, proposals: map<Hash, Proposal>) returns (r: Result<Hash, ConflictError>)
      requires Valid()
      modifies this`conflicts
      ensures Valid()
      ensures id !in old(conflicts) ==> r == Err(ConflictNotFound) && conflicts == old(conflicts)
      ensures id in old(conflicts) ==>
                var s := old(conflicts)[id];
                match r
                case Ok(w) =>
                  && s.proposals[0] in proposals && s.proposals[1] in proposals
                  && w == Winner([ScoreOf(proposals, s.proposals[0]), ScoreOf(proposals, s.proposals[1])]).id
                  && conflicts == old(conflicts)[id := s.(status := Resolved, winner := Some(w))]
                case Err(e) =>
                  && e.ProposalNotFound? && e.id in s.proposals && e.id !in proposals
                  && (s.proposals[0] !in proposals ==> e.id == s.proposals[0])
                  && conflicts == old(conflicts)[id := s.(status := Resolving)]
    {
      hide Winner, PriorityScore.Compare;
      if id !in conflicts {
        return Err(ConflictNotFound);
      }
      ghost var before := conflicts;
      var s := conflicts[id];
      conflicts := conflicts[id := s.(status := Resolving)];
      RestatusKeeps(hash, before, index, id, conflicts[id]);
      var scores := [];
      for i := 0 to |s.proposals|
        invariant conflicts == before[id := s.(status := Resolving)] && Valid()
        invariant |scores| == i
        invariant forall k :: 0 <= k < i ==>
                    s.proposals[k] in proposals && scores[k] == ScoreOf(proposals, s.proposals[k])
      {
        if s.proposals[i] !in proposals {
          return Err(ProposalNotFound(s.proposals[i]));
        }
        scores := scores + [ScoreOf(proposals, s.proposals[i])];
      }
      assert scores == [ScoreOf(proposals, s.proposals[0]), ScoreOf(proposals, s.proposals[1])];
      var winner := Winner(scores).id;
      RestatusKeeps(hash, before, index, id, s.(status := Resolved, winner := Some(winner)));
      conflicts := conflicts[id := s.(status := Resolved, winner := Some(winner))];
      assert conflicts == before[id := s.(status := Resolved, winner := Some(winner))];
      return Ok(winner);
    }

    method CleanMappings(members: seq<Hash>, id: Hash)
      modifies this`index
      ensures index == Cleaned(old(index), members, id)
    {
      hide Without;
      for i := 0 to |members|
        invariant index == Cleaned(old(index), members[..i], id)
      {
        assert members[..i + 1][..i] == members[..i];
        if members[i] in index {
          index := index[members[i] := Without(index[members[i]], id)];
        }
      }
      assert members[..|members|] == members;
    }

    /** `remove_conflict`: the set goes, and so does every index entry for it. */
    method RemoveConflict(id: Hash)
      requires Valid()
      modifies this
      ensures Valid() && conflicts == old(conflicts) - {id}
      ensures forall p :: id !in Look(index, p)
    {
      if id !in conflicts {
        return;
      }
      var s := conflicts[id];
      RemoveKeeps(hash, conflicts, index, id, Cleaned(index, s.proposals, id));
      hide WellFormed, Inverse, Look;
      conflicts := conflicts - {id};
      CleanMappings(s.proposals, id);
    }
  }

  lemma ShareOfWhole(part: real, whole: real)
    requires 0.0 <= part <= whole && whole > 0.0
    ensures 0.0 <= part / whole <= 1.0
  {
  }

  /** Constitutional before operational; within a class the older; at one second the clearer vote. */
  lemma PriorityRules(proposals: map<Hash, Proposal>, a: Hash, b: Hash)
    requires a in proposals && b in proposals
    ensures var p, q := proposals[a], proposals[b];
            var x, y := ScoreOf(proposals, a), ScoreOf(proposals, b);
            && (p.cls == Constitutional && q.cls == Operational ==> x.Compare(y) == Greater)
            && (p.cls == q.cls && p.created < q.created ==> x.Compare(y) == Greater)
            && (p.cls == q.cls && p.created == q.created && x.margin - y.margin > 0.0001 ==> x.Compare(y) == Greater)
    ensures proposals[a].tallyYes >= 0.0 && proposals[a].tallyNo >= 0.0 ==> 0.0 <= ScoreOf(proposals, a).margin <= 1.0
  {
    var yes, no := proposals[a].tallyYes, proposals[a].tallyNo;
    if yes >= 0.0 && no >= 0.0 && yes + no > 0.0 {
      ShareOfWhole(yes, yes + no);
    }
  }

  lemma Scaled(d: real, w: real, c: real)
    requires w > 0.0
    ensures d > c <==> d * w > c * w
  {
    if d > c {
      assert (d - c) * w > 0.0;
    } else {
      assert (c - d) * w >= 0.0;
    }
  }

  lemma Quotient(x: real, t: real)
    requires t > 0.0
    ensures (x / t) * t == x
  {
  }

  lemma ShareGap(yes: real, no: real, yes': real, no': real, c: real)
    requires yes + no > 0.0 && yes' + no' > 0.0
    ensures yes / (yes + no) - yes' / (yes' + no') > c <==>
              yes * no' - yes' * no > c * (yes + no) * (yes' + no')
  {
    var t, u := yes + no, yes' + no';
    var x, y := yes / t, yes' / u;
    Quotient(yes, t);
    Quotient(yes', u);
    assert (x - y) * (t * u) == (x * t) * u - (y * u) * t;
    assert yes * u - yes' * t == yes * no' - yes' * no;
    assert t * u > 0.0;
    Scaled(x - y, t * u, c);
  }

  lemma ShareAbove(yes: real, t: real, c: real)
    requires t > 0.0
    ensures yes / t > c <==> yes > c * t
  {
    Quotient(yes, t);
    Scaled(yes / t, t, c);
  }

  /** The vote `yes` to `no` is clearly better than the other one, told from the tallies alone. */
  predicate ClearlyAhead(yes: real, no: real, yes': real, no': real) {
    if yes + no > 0.0 && yes' + no' > 0.0 then yes * no' - yes' * no > 0.0001 * (yes + no) * (yes' + no')
    else yes + no > 0.0 && yes > 0.0001 * (yes + no)
  }

  lemma AheadIsMargin(yes: real, no: real, yes': real, no': real)
    requires yes >= 0.0 && no >= 0.0 && yes' >= 0.0 && no' >= 0.0
    ensures ClearlyAhead(yes, no, yes', no') <==> Margin(yes, no) - Margin(yes', no') > 0.0001
  {
    if yes + no > 0.0 && yes' + no' > 0.0 {
      ShareGap(yes, no, yes', no', 0.0001);
    } else if yes + no > 0.0 {
      ShareAbove(yes, yes + no, 0.0001);
    } else if yes' + no' > 0.0 {
      ShareOfWhole(yes', yes' + no');
    }
  }

  ghost predicate IsTally(p: Proposal) {
    p.tallyYes >= 0.0 && p.tallyNo >= 0.0
  }

  /** Which of two proposals wins, told from their classes, times, tallies and ids: inside the band the greater id. */
  lemma WinnerExactly(proposals: map<Hash, Proposal>, a: Hash, b: Hash)
    requires a in proposals && b in proposals && a != b && IsTally(proposals[a]) && IsTally(proposals[b])
    ensures var p, q := proposals[a], proposals[b];
            Winner([ScoreOf(proposals, a), ScoreOf(proposals, b)]).id == a <==>
              || (p.cls == Constitutional && q.cls == Operational)
              || (p.cls == q.cls && p.created < q.created)
              || (p.cls == q.cls && p.created == q.created
                  && ClearlyAhead(p.tallyYes, p.tallyNo, q.tallyYes, q.tallyNo))
              || (p.cls == q.cls && p.created == q.created
                  && !ClearlyAhead(q.tallyYes, q.tallyNo, p.tallyYes, p.tallyNo) && CompareBytes(b, a) == Less)
  {
    var p, q := proposals[a], proposals[b];
    AheadIsMargin(p.tallyYes, p.tallyNo, q.tallyYes, q.tallyNo);
    AheadIsMargin(q.tallyYes, q.tallyNo, p.tallyYes, p.tallyNo);
    PairWinner(ScoreOf(proposals, a), ScoreOf(proposals, b));
    BytesAntisymmetric(a, b);
    hide Winner, CompareBytes, ClearlyAhead, Margin;
  }
}
