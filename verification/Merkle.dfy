/** Merkle roots: the level-by-level loop, the tree it computes, and what a root pins down. */
module Merkle {
  import opened Common
  import opened Arithmetic

  function Joined(left: Bytes32, right: Bytes32): seq<Byte> {
    left + right
  }

  /** How two nodes are joined: the hash of their 64 bytes. */
  function PairHash(hash: HashFn): (Bytes32, Bytes32) -> Bytes32 {
    (left: Bytes32, right: Bytes32) => hash(Joined(left, right))
  }

  /** One level up: neighbours are joined, an odd last node with itself. */
  ghost function NextLevel<T>(join: (T, T) -> T, level: seq<T>): (next: seq<T>)
    ensures |next| == (|level| + 1) / 2
  {
    if level == [] then []
    else if |level| == 1 then [join(level[0], level[0])]
    else [join(level[0], level[1])] + NextLevel(join, level[2..])
  }

  /** The least height whose perfect tree has room for `n` leaves. */
  ghost function LeastHeight(n: nat): nat {
    if n <= 1 then 0 else 1 + LeastHeight((n + 1) / 2)
  }

  lemma {:induction false} LeastHeightFits(n: nat)
    ensures n <= Pow(2, LeastHeight(n))
    ensures n >= 2 ==> Pow(2, LeastHeight(n) - 1) < n
  {
    if n >= 2 {
      LeastHeightFits((n + 1) / 2);
    }
  }

  /** The recursive tree of a given height: a missing right half repeats the left one. */
  ghost function Tree<T>(join: (T, T) -> T, leaves: seq<T>, height: nat): T
    requires 1 <= |leaves| <= Pow(2, height)
    decreases height
  {
    if height == 0 then leaves[0]
    else
      PowPositive(2, height - 1);
      var half := Pow(2, height - 1);
      if |leaves| <= half then join(Tree(join, leaves, height - 1), Tree(join, leaves, height - 1))
      else join(Tree(join, leaves[..half], height - 1), Tree(join, leaves[half..], height - 1))
  }

  ghost function MerkleRoot(hash: HashFn, leaves: seq<Bytes32>): Bytes32 {
    if leaves == [] then seq(32, _ => 0)
    else
      LeastHeightFits(|leaves|);
      Tree(PairHash(hash), leaves, LeastHeight(|leaves|))
  }

  lemma NextLevelStep<T>(join: (T, T) -> T, level: seq<T>)
    requires |level| >= 2
    ensures NextLevel(join, level) == [join(level[0], level[1])] + NextLevel(join, level[2..])
  {
  }

  lemma NextLevelNone<T>(join: (T, T) -> T)
    ensures NextLevel(join, []) == []
  {
  }

  lemma Reassociate<T>(a: seq<T>, b: seq<T>, c: seq<T>)
    ensures a + (b + c) == (a + b) + c
  {
  }

  lemma {:induction false} NextLevelSplit<T>(join: (T, T) -> T, a: seq<T>, b: seq<T>)
    requires |a| % 2 == 0
    ensures NextLevel(join, a + b) == NextLevel(join, a) + NextLevel(join, b)
  {
    hide NextLevel;
    if a == [] {
      assert a + b == b;
      NextLevelNone(join);
    } else {
      NextLevelSplit(join, a[2..], b);
      NextLevelStep(join, a);
      NextLevelStep(join, a + b);
      assert (a + b)[2..] == a[2..] + b;
      Reassociate([join(a[0], a[1])], NextLevel(join, a[2..]), NextLevel(join, b));
    }
  }

  lemma TreeRepeats<T>(join: (T, T) -> T, leaves: seq<T>, h: nat)
    requires 1 <= |leaves| <= Pow(2, h)
    ensures |leaves| <= Pow(2, h + 1)
    ensures Tree(join, leaves, h + 1) == join(Tree(join, leaves, h), Tree(join, leaves, h))
  {
  }

  lemma TreeJoins<T>(join: (T, T) -> T, left: seq<T>, right: seq<T>, h: nat)
    requires |left| == Pow(2, h) && 1 <= |right| <= Pow(2, h)
    ensures |left + right| <= Pow(2, h + 1)
    ensures Tree(join, left + right, h + 1) == join(Tree(join, left, h), Tree(join, right, h))
  {
    PowPositive(2, h);
    assert (left + right)[..|left|] == left && (left + right)[|left|..] == right;
  }

  lemma {:induction false} TreeOfLongLevel<T>(join: (T, T) -> T, left: seq<T>, right: seq<T>, h: nat)
    requires h >= 1 && |left| == Pow(2, h) && 1 <= |right| <= Pow(2, h)
    ensures |left + right| <= Pow(2, h + 1) && 1 <= |NextLevel(join, left + right)| <= Pow(2, h)
    ensures Tree(join, left + right, h + 1) == Tree(join, NextLevel(join, left + right), h)
    decreases h, 0
  {
    hide Tree, NextLevel, Pow;
    PowStep(2, h + 1);
    PowStep(2, h);
    TreeOfNextLevel(join, left, h - 1);
    TreeOfNextLevel(join, right, h - 1);
    NextLevelSplit(join, left, right);
    TreeJoins(join, left, right, h);
    TreeJoins(join, NextLevel(join, left), NextLevel(join, right), h - 1);
  }

  /** Folding the leaves once removes the lowest layer of the tree. */
  lemma {:induction false} TreeOfNextLevel<T>(join: (T, T) -> T, leaves: seq<T>, h: nat)
    requires 1 <= |leaves| <= Pow(2, h + 1)
    ensures 1 <= |NextLevel(join, leaves)| <= Pow(2, h)
    ensures Tree(join, leaves, h + 1) == Tree(join, NextLevel(join, leaves), h)
    decreases h
  {
    PowStep(2, h + 1);
    if h == 0 {
      assert Pow(2, 0) == 1;
      if |leaves| == 2 {
        assert leaves[..1] == [leaves[0]] && leaves[1..] == [leaves[1]] && leaves[2..] == [];
      }
    } else {
      PowStep(2, h);
      hide Tree, NextLevel, Pow;
      var half := Pow(2, h);
      if |leaves| <= half {
        TreeOfNextLevel(join, leaves, h - 1);
        TreeRepeats(join, leaves, h);
        TreeRepeats(join, NextLevel(join, leaves), h - 1);
      } else {
        TreeOfLongLevel(join, leaves[..half], leaves[half..], h);
        assert leaves == leaves[..half] + leaves[half..];
      }
    }
  }

  lemma RootIsTree(hash: HashFn, leaves: seq<Bytes32>)
    requires leaves != []
    ensures |leaves| <= Pow(2, LeastHeight(|leaves|))
    ensures MerkleRoot(hash, leaves) == Tree(PairHash(hash), leaves, LeastHeight(|leaves|))
  {
    LeastHeightFits(|leaves|);
  }

  lemma RootOfNextLevel(hash: HashFn, leaves: seq<Bytes32>)
    requires |leaves| >= 2
    ensures MerkleRoot(hash, leaves) == MerkleRoot(hash, NextLevel(PairHash(hash), leaves))
  {
    hide Tree, NextLevel, Pow, MerkleRoot, PairHash;
    RootIsTree(hash, leaves);
    RootIsTree(hash, NextLevel(PairHash(hash), leaves));
    TreeOfNextLevel(PairHash(hash), leaves, LeastHeight(|leaves|) - 1);
  }

  ghost function LeftHalf<T>(leaves: seq<T>, half: nat): seq<T> {
    if |leaves| <= half then leaves else leaves[..half]
  }

  ghost function RightHalf<T>(leaves: seq<T>, half: nat): seq<T> {
    if |leaves| <= half then leaves else leaves[half..]
  }

  /** Every pair of nodes joined while a tree is computed. */
  ghost function TreePairs<T(!new)>(join: (T, T) -> T, leaves: seq<T>, height: nat): set<(T, T)>
    requires 1 <= |leaves| <= Pow(2, height)
    decreases height
  {
    if height == 0 then {}
    else
      PowPositive(2, height - 1);
      var half := Pow(2, height - 1);
      var left, right := LeftHalf(leaves, half), RightHalf(leaves, half);
      TreePairs(join, left, height - 1) + TreePairs(join, right, height - 1)
      + {(Tree(join, left, height - 1), Tree(join, right, height - 1))}
  }

  ghost predicate InjectiveOn<T(!new)>(join: (T, T) -> T, pairs: set<(T, T)>) {
    forall p, q :: p in pairs && q in pairs && join(p.0, p.1) == join(q.0, q.1) ==> p == q
  }

  /** The leaves below the two children of a top node at height `h + 1`. */
  ghost predicate Halves<T>(leaves: seq<T>, half: nat, left: seq<T>, right: seq<T>) {
    && 1 <= |left| <= half && 1 <= |right| <= half
    && if |leaves| <= half then leaves == left == right else left == leaves[..half] && right == leaves[half..]
  }

  lemma TopNode<T(!new)>(join: (T, T) -> T, leaves: seq<T>, h: nat, left: seq<T>, right: seq<T>)
    requires 1 <= |leaves| <= Pow(2, h + 1) && Halves(leaves, Pow(2, h), left, right)
    ensures Tree(join, leaves, h + 1) == join(Tree(join, left, h), Tree(join, right, h))
    ensures TreePairs(join, leaves, h + 1)
         == TreePairs(join, left, h) + TreePairs(join, right, h) + {(Tree(join, left, h), Tree(join, right, h))}
  {
  }

  lemma SamePair<T(!new)>(join: (T, T) -> T, pairs: set<(T, T)>, p: (T, T), q: (T, T))
    requires InjectiveOn(join, pairs) && p in pairs && q in pairs && join(p.0, p.1) == join(q.0, q.1)
    ensures p == q
  {
  }

  lemma ChildrenAgree<T(!new)>(join: (T, T) -> T, pairs: set<(T, T)>, xs: seq<T>, ys: seq<T>, h: nat,
                               xl: seq<T>, xr: seq<T>, yl: seq<T>, yr: seq<T>)
    requires 1 <= |xs| <= Pow(2, h + 1) && Halves(xs, Pow(2, h), xl, xr)
    requires 1 <= |ys| <= Pow(2, h + 1) && Halves(ys, Pow(2, h), yl, yr)
    requires InjectiveOn(join, pairs) && TreePairs(join, xs, h + 1) <= pairs && TreePairs(join, ys, h + 1) <= pairs
    requires Tree(join, xs, h + 1) == Tree(join, ys, h + 1)
    ensures Tree(join, xl, h) == Tree(join, yl, h) && Tree(join, xr, h) == Tree(join, yr, h)
    ensures TreePairs(join, xl, h) + TreePairs(join, xr, h) + TreePairs(join, yl, h) + TreePairs(join, yr, h) <= pairs
  {
    hide Tree, TreePairs, Pow, InjectiveOn;
    TopNode(join, xs, h, xl, xr);
    TopNode(join, ys, h, yl, yr);
    SamePair(join, pairs, (Tree(join, xl, h), Tree(join, xr, h)), (Tree(join, yl, h), Tree(join, yr, h)));
  }

  lemma SingleLeaf<T>(join: (T, T) -> T, leaves: seq<T>)
    requires 1 <= |leaves| <= Pow(2, 0)
    ensures leaves == [Tree(join, leaves, 0)]
  {
  }

  /** Two trees over equally many leaves with one root have equal leaves, unless two of the joined pairs collide. */
  lemma {:induction false} TreeBinding<T(!new)>(join: (T, T) -> T, pairs: set<(T, T)>, xs: seq<T>, ys: seq<T>, h: nat)
    requires 1 <= |xs| == |ys| && |xs| <= Pow(2, h)
    requires InjectiveOn(join, pairs) && TreePairs(join, xs, h) <= pairs && TreePairs(join, ys, h) <= pairs
    requires Tree(join, xs, h) == Tree(join, ys, h)
    ensures xs == ys
    decreases h
  {
    hide Tree, TreePairs, Pow, InjectiveOn;
    if h == 0 {
      SingleLeaf(join, xs);
      SingleLeaf(join, ys);
    } else {
      PowStep(2, h);
      PowPositive(2, h - 1);
      var half := Pow(2, h - 1);
      if |xs| <= half {
        ChildrenAgree(join, pairs, xs, ys, h - 1, xs, xs, ys, ys);
        TreeBinding(join, pairs, xs, ys, h - 1);
      } else {
        ChildrenAgree(join, pairs, xs, ys, h - 1, xs[..half], xs[half..], ys[..half], ys[half..]);
        TreeBinding(join, pairs, xs[..half], ys[..half], h - 1);
        TreeBinding(join, pairs, xs[half..], ys[half..], h - 1);
        assert xs == xs[..half] + xs[half..] && ys == ys[..half] + ys[half..];
      }
    }
  }

  ghost function RootPairs(hash: HashFn, leaves: seq<Bytes32>): set<(Bytes32, Bytes32)> {
    if leaves == [] then {}
    else
      LeastHeightFits(|leaves|);
      TreePairs(PairHash(hash), leaves, LeastHeight(|leaves|))
  }

  /** Every byte string hashed while a root is computed. */
  ghost function RootInputs(hash: HashFn, leaves: seq<Bytes32>): set<seq<Byte>> {
    set p | p in RootPairs(hash, leaves) :: Joined(p.0, p.1)
  }

  lemma JoinedInjective(a: Bytes32, b: Bytes32, c: Bytes32, d: Bytes32)
    requires Joined(a, b) == Joined(c, d)
    ensures a == c && b == d
  {
    assert a == (a + b)[..32] == (c + d)[..32] == c;
    assert b == (a + b)[32..] == (c + d)[32..] == d;
  }

  lemma PairsInjective(hash: HashFn, xs: seq<Bytes32>, ys: seq<Bytes32>)
    requires CollisionFree(hash, RootInputs(hash, xs) + RootInputs(hash, ys))
    ensures InjectiveOn(PairHash(hash), RootPairs(hash, xs) + RootPairs(hash, ys))
  {
    hide RootPairs, Joined;
    var pairs := RootPairs(hash, xs) + RootPairs(hash, ys);
    forall p, q | p in pairs && q in pairs && PairHash(hash)(p.0, p.1) == PairHash(hash)(q.0, q.1) ensures p == q {
      assert Joined(p.0, p.1) in RootInputs(hash, xs) + RootInputs(hash, ys);
      assert Joined(q.0, q.1) in RootInputs(hash, xs) + RootInputs(hash, ys);
      JoinedInjective(p.0, p.1, q.0, q.1);
    }
  }

  /** Equally many leaves and equal roots: the same leaves in the same order. */
  lemma RootBinding(hash: HashFn, xs: seq<Bytes32>, ys: seq<Bytes32>)
    requires |xs| == |ys| && MerkleRoot(hash, xs) == MerkleRoot(hash, ys)
    requires CollisionFree(hash, RootInputs(hash, xs) + RootInputs(hash, ys))
    ensures xs == ys
  {
    hide CollisionFree, RootInputs, TreePairs, Tree, InjectiveOn;
    if xs != [] {
      PairsInjective(hash, xs, ys);
      LeastHeightFits(|xs|);
      TreeBinding(PairHash(hash), RootPairs(hash, xs) + RootPairs(hash, ys), xs, ys, LeastHeight(|xs|));
    }
  }

  lemma LastPair<T>(join: (T, T) -> T, last: T)
    ensures NextLevel(join, [last, last]) == NextLevel(join, [last])
  {
    assert [last, last][2..] == [];
    assert NextLevel(join, [last, last]) == [join(last, last)] + NextLevel(join, []);
  }

  /** The leaf count matters: repeating the last of an odd number of leaves leaves the root as it was. */
  lemma RootIgnoresRepeatedLast(hash: HashFn, xs: seq<Bytes32>)
    requires |xs| >= 3 && |xs| % 2 == 1
    ensures MerkleRoot(hash, xs + [xs[|xs| - 1]]) == MerkleRoot(hash, xs)
  {
    hide NextLevel, MerkleRoot, PairHash;
    var init, last := xs[..|xs| - 1], xs[|xs| - 1];
    var ys := xs + [last];
    RootOfNextLevel(hash, xs);
    RootOfNextLevel(hash, ys);
    LastPair(PairHash(hash), last);
    assert xs == init + [last] && ys == init + [last, last];
    NextLevelSplit(PairHash(hash), init, [last]);
    NextLevelSplit(PairHash(hash), init, [last, last]);
  }

  function IdLeaf(hash: HashFn, id: MessageId): Bytes32 {
    hash(id.bytes)
  }

  ghost function IdLeaves(hash: HashFn, ids: seq<MessageId>): seq<Bytes32> {
    seq(|ids|, i requires 0 <= i < |ids| => IdLeaf(hash, ids[i]))
  }

  ghost function IdInputs(ids: seq<MessageId>): set<seq<Byte>> {
    set i | 0 <= i < |ids| :: ids[i].bytes
  }

  /** Two builders fed equally many message ids agree on the root only for the same ids in the same order. */
  lemma MessageRootBinding(hash: HashFn, xs: seq<MessageId>, ys: seq<MessageId>)
    requires |xs| == |ys| && MerkleRoot(hash, IdLeaves(hash, xs)) == MerkleRoot(hash, IdLeaves(hash, ys))
    requires CollisionFree(hash, RootInputs(hash, IdLeaves(hash, xs)) + RootInputs(hash, IdLeaves(hash, ys)))
    requires CollisionFree(hash, IdInputs(xs) + IdInputs(ys))
    ensures xs == ys
  {
    hide RootInputs, MerkleRoot;
    RootBinding(hash, IdLeaves(hash, xs), IdLeaves(hash, ys));
    forall i | 0 <= i < |xs| ensures xs[i] == ys[i] {
      assert IdLeaves(hash, xs)[i] == IdLeaves(hash, ys)[i];
      assert xs[i].bytes in IdInputs(xs) && ys[i].bytes in IdInputs(ys);
    }
  }

  // ----- when two roots are equal

  /** The leaves of the full tree: a missing right half repeats the left one. */
  ghost function Pad<T(!new)>(leaves: seq<T>, height: nat): (full: seq<T>)
    requires 1 <= |leaves| <= Pow(2, height)
    ensures |full| == Pow(2, height)
    ensures forall x :: x in full <==> x in leaves
    decreases height
  {
    if height == 0 then leaves
    else
      PowPositive(2, height - 1);
      var half := Pow(2, height - 1);
      if |leaves| <= half then Pad(leaves, height - 1) + Pad(leaves, height - 1)
      else
        assert leaves == leaves[..half] + leaves[half..];
        Pad(leaves[..half], height - 1) + Pad(leaves[half..], height - 1)
  }

  lemma PadHalves<T(!new)>(leaves: seq<T>, h: nat, left: seq<T>, right: seq<T>)
    requires 1 <= |leaves| <= Pow(2, h + 1) && Halves(leaves, Pow(2, h), left, right)
    ensures Pad(leaves, h + 1) == Pad(left, h) + Pad(right, h)
  {
  }

  lemma HalvesExist<T(!new)>(leaves: seq<T>, h: nat)
    requires 1 <= |leaves| <= Pow(2, h + 1)
    ensures Halves(leaves, Pow(2, h), LeftHalf(leaves, Pow(2, h)), RightHalf(leaves, Pow(2, h)))
    ensures forall x :: x in LeftHalf(leaves, Pow(2, h)) || x in RightHalf(leaves, Pow(2, h)) ==> x in leaves
  {
    PowStep(2, h + 1);
    PowPositive(2, h);
  }

  lemma AppendInjective<T>(a: seq<T>, b: seq<T>, c: seq<T>, d: seq<T>)
    requires |a| == |c|
    ensures a + b == c + d <==> a == c && b == d
  {
    if a + b == c + d {
      assert a == (a + b)[..|a|] == (c + d)[..|a|] == c;
      assert b == (a + b)[|a|..] == (c + d)[|a|..] == d;
    }
  }

  lemma PadSingle<T(!new)>(leaves: seq<T>)
    requires 1 <= |leaves| <= Pow(2, 0)
    ensures Pad(leaves, 0) == leaves
  {
  }

  lemma HalvesFit<T>(leaves: seq<T>, half: nat, left: seq<T>, right: seq<T>)
    requires Halves(leaves, half, left, right)
    ensures 1 <= |left| <= half && 1 <= |right| <= half
  {
  }

  lemma {:induction false} TreeEqualStep<T(!new)>(join: (T, T) -> T, pairs: set<(T, T)>, xs: seq<T>, ys: seq<T>, h: nat,
                                                  xl: seq<T>, xr: seq<T>, yl: seq<T>, yr: seq<T>)
    requires 1 <= |xs| <= Pow(2, h + 1) && Halves(xs, Pow(2, h), xl, xr)
    requires 1 <= |ys| <= Pow(2, h + 1) && Halves(ys, Pow(2, h), yl, yr)
    requires InjectiveOn(join, pairs) && TreePairs(join, xs, h + 1) <= pairs && TreePairs(join, ys, h + 1) <= pairs
    ensures Tree(join, xs, h + 1) == Tree(join, ys, h + 1) <==> Pad(xs, h + 1) == Pad(ys, h + 1)
    decreases h, 1
  {
    hide Tree, TreePairs, Pow, InjectiveOn, Pad, Halves;
    PowPositive(2, h);
    HalvesFit(xs, Pow(2, h), xl, xr);
    HalvesFit(ys, Pow(2, h), yl, yr);
    TopNode(join, xs, h, xl, xr);
    TopNode(join, ys, h, yl, yr);
    PadHalves(xs, h, xl, xr);
    PadHalves(ys, h, yl, yr);
    TreeEqualExactly(join, pairs, xl, yl, h);
    TreeEqualExactly(join, pairs, xr, yr, h);
    AppendInjective(Pad(xl, h), Pad(xr, h), Pad(yl, h), Pad(yr, h));
    if Tree(join, xs, h + 1) == Tree(join, ys, h + 1) {
      SamePair(join, pairs, (Tree(join, xl, h), Tree(join, xr, h)), (Tree(join, yl, h), Tree(join, yr, h)));
    }
  }

  /** At one height, two trees are equal exactly when their full leaf lists are, unless two joined pairs collide. */
  lemma {:induction false} TreeEqualExactly<T(!new)>(join: (T, T) -> T, pairs: set<(T, T)>, xs: seq<T>, ys: seq<T>,
                                                     h: nat)
    requires 1 <= |xs| <= Pow(2, h) && 1 <= |ys| <= Pow(2, h)
    requires InjectiveOn(join, pairs) && TreePairs(join, xs, h) <= pairs && TreePairs(join, ys, h) <= pairs
    ensures Tree(join, xs, h) == Tree(join, ys, h) <==> Pad(xs, h) == Pad(ys, h)
    decreases h, 0
  {
    hide Tree, TreePairs, Pow, InjectiveOn, Pad, Halves, LeftHalf, RightHalf;
    if h == 0 {
      SingleLeaf(join, xs);
      SingleLeaf(join, ys);
      PadSingle(xs);
      PadSingle(ys);
    } else {
      PowPositive(2, h - 1);
      HalvesExist(xs, h - 1);
      HalvesExist(ys, h - 1);
      var half := Pow(2, h - 1);
      TreeEqualStep(join, pairs, xs, ys, h - 1,
                    LeftHalf(xs, half), RightHalf(xs, half), LeftHalf(ys, half), RightHalf(ys, half));
    }
  }

  /** No leaf is itself the join of a pair. */
  ghost predicate LeavesAreFresh<T(!new)>(join: (T, T) -> T, pairs: set<(T, T)>, leaves: seq<T>) {
    forall p, x :: p in pairs && x in leaves ==> join(p.0, p.1) != x
  }

  lemma FreshParts<T(!new)>(join: (T, T) -> T, pairs: set<(T, T)>, xs: seq<T>, ys: seq<T>)
    requires LeavesAreFresh(join, pairs, xs + ys)
    ensures LeavesAreFresh(join, pairs, xs) && LeavesAreFresh(join, pairs, ys)
  {
    assert forall x :: x in xs || x in ys ==> x in xs + ys;
  }

  /** Trees of different heights differ, when a leaf cannot be an inner node. */
  lemma {:induction false} HeightsDiffer<T(!new)>(join: (T, T) -> T, pairs: set<(T, T)>, xs: seq<T>, h: nat, ys: seq<T>,
                                                  h': nat)
    requires h < h' && 1 <= |xs| <= Pow(2, h) && 1 <= |ys| <= Pow(2, h')
    requires InjectiveOn(join, pairs) && TreePairs(join, xs, h) <= pairs && TreePairs(join, ys, h') <= pairs
    requires LeavesAreFresh(join, pairs, xs)
    ensures Tree(join, xs, h) != Tree(join, ys, h')
    decreases h
  {
    hide Tree, TreePairs, Pow, InjectiveOn, Halves, LeftHalf, RightHalf;
    PowPositive(2, h' - 1);
    var yl, yr := LeftHalf(ys, Pow(2, h' - 1)), RightHalf(ys, Pow(2, h' - 1));
    HalvesExist(ys, h' - 1);
    HalvesFit(ys, Pow(2, h' - 1), yl, yr);
    TopNode(join, ys, h' - 1, yl, yr);
    var top' := (Tree(join, yl, h' - 1), Tree(join, yr, h' - 1));
    assert top' in pairs;
    if h == 0 {
      SingleLeaf(join, xs);
      assert xs[0] in xs;
    } else {
      PowPositive(2, h - 1);
      var xl, xr := LeftHalf(xs, Pow(2, h - 1)), RightHalf(xs, Pow(2, h - 1));
      HalvesExist(xs, h - 1);
      HalvesFit(xs, Pow(2, h - 1), xl, xr);
      TopNode(join, xs, h - 1, xl, xr);
      var top := (Tree(join, xl, h - 1), Tree(join, xr, h - 1));
      assert top in pairs;
      HeightsDiffer(join, pairs, xl, h - 1, yl, h' - 1);
      if join(top.0, top.1) == join(top'.0, top'.1) {
        SamePair(join, pairs, top, top');
      }
    }
  }

  /** The leaf list of the full tree a root is computed from. */
  ghost function FullLeaves<T(!new)>(leaves: seq<T>): seq<T>
    requires leaves != []
  {
    LeastHeightFits(|leaves|);
    Pad(leaves, LeastHeight(|leaves|))
  }

  /** A root and its full leaf list at the height the leaf count asks for. */
  lemma RootAndLeaves(hash: HashFn, leaves: seq<Bytes32>) returns (h: nat)
    requires leaves != []
    ensures |leaves| <= Pow(2, h) && MerkleRoot(hash, leaves) == Tree(PairHash(hash), leaves, h)
    ensures FullLeaves(leaves) == Pad(leaves, h) && RootPairs(hash, leaves) == TreePairs(PairHash(hash), leaves, h)
    ensures |FullLeaves(leaves)| == Pow(2, h)
  {
    h := LeastHeight(|leaves|);
    LeastHeightFits(|leaves|);
  }

  /** Two roots are equal exactly when the full leaf lists are, if the hashed pairs do not collide and no leaf is the
      hash of a pair. */
  lemma RootEqualExactly(hash: HashFn, xs: seq<Bytes32>, ys: seq<Bytes32>)
    requires xs != [] && ys != [] && CollisionFree(hash, RootInputs(hash, xs) + RootInputs(hash, ys))
    requires LeavesAreFresh(PairHash(hash), RootPairs(hash, xs) + RootPairs(hash, ys), xs + ys)
    ensures MerkleRoot(hash, xs) == MerkleRoot(hash, ys) <==> FullLeaves(xs) == FullLeaves(ys)
  {
    hide MerkleRoot, Tree, TreePairs, InjectiveOn, CollisionFree, RootInputs, RootPairs, FullLeaves, Pow, PairHash, Pad;
    var h := RootAndLeaves(hash, xs);
    var h' := RootAndLeaves(hash, ys);
    PairsInjective(hash, xs, ys);
    var join, pairs := PairHash(hash), RootPairs(hash, xs) + RootPairs(hash, ys);
    FreshParts(join, pairs, xs, ys);
    if h == h' {
      TreeEqualExactly(join, pairs, xs, ys, h);
    } else if h < h' {
      HeightsDiffer(join, pairs, xs, h, ys, h');
      PowStrict(2, h, h');
    } else {
      HeightsDiffer(join, pairs, ys, h', xs, h);
      PowStrict(2, h', h);
    }
  }

  ghost predicate IsIdLeaves(hash: HashFn, ids: seq<MessageId>, leaves: seq<Bytes32>) {
    |leaves| == |ids| && forall i :: 0 <= i < |ids| ==> leaves[i] == IdLeaf(hash, ids[i])
  }

  /** Hashing commutes with filling up the tree. */
  lemma {:induction false} PadOfIds(hash: HashFn, ids: seq<MessageId>, h: nat)
    requires 1 <= |ids| <= Pow(2, h)
    ensures IsIdLeaves(hash, Pad(ids, h), Pad(IdLeaves(hash, ids), h))
    decreases h
  {
    if h > 0 {
      PowStep(2, h);
      PowPositive(2, h - 1);
      var half := Pow(2, h - 1);
      if |ids| <= half {
        PadOfIds(hash, ids, h - 1);
      } else {
        PadOfIds(hash, ids[..half], h - 1);
        PadOfIds(hash, ids[half..], h - 1);
        assert IdLeaves(hash, ids)[..half] == IdLeaves(hash, ids[..half]);
        assert IdLeaves(hash, ids)[half..] == IdLeaves(hash, ids[half..]);
      }
    }
  }

  /** Everything hashed on the way from ids to a root. */
  ghost function MessageInputs(hash: HashFn, ids: seq<MessageId>): set<seq<Byte>> {
    RootInputs(hash, IdLeaves(hash, ids)) + IdInputs(ids)
  }

  lemma LeafInput(hash: HashFn, ids: seq<MessageId>, x: Bytes32) returns (input: seq<Byte>)
    requires x in IdLeaves(hash, ids)
    ensures input in IdInputs(ids) && |input| == 32 && x == hash(input)
  {
    var i :| 0 <= i < |ids| && IdLeaves(hash, ids)[i] == x;
    input := ids[i].bytes;
  }

  lemma PairInput(hash: HashFn, leaves: seq<Bytes32>, p: (Bytes32, Bytes32))
    requires p in RootPairs(hash, leaves)
    ensures Joined(p.0, p.1) in RootInputs(hash, leaves) && |Joined(p.0, p.1)| == 64
  {
    hide RootPairs;
  }

  /** Ids are 32 bytes and pairs 64, so no id leaf is an inner node. */
  lemma IdLeavesAreFresh(hash: HashFn, xs: seq<MessageId>, ys: seq<MessageId>)
    requires CollisionFree(hash, MessageInputs(hash, xs) + MessageInputs(hash, ys))
    ensures var lx, ly := IdLeaves(hash, xs), IdLeaves(hash, ys);
            LeavesAreFresh(PairHash(hash), RootPairs(hash, lx) + RootPairs(hash, ly), lx + ly)
  {
    hide RootPairs, RootInputs, IdInputs, Joined, IdLeaves;
    var lx, ly := IdLeaves(hash, xs), IdLeaves(hash, ys);
    forall p, x | p in RootPairs(hash, lx) + RootPairs(hash, ly) && x in lx + ly ensures PairHash(hash)(p.0, p.1) != x {
      var input := LeafInput(hash, if x in lx then xs else ys, x);
      PairInput(hash, if p in RootPairs(hash, lx) then lx else ly, p);
    }
  }

  lemma SameFullIds(hash: HashFn, xs: seq<MessageId>, ys: seq<MessageId>)
    requires xs != [] && ys != [] && CollisionFree(hash, IdInputs(xs) + IdInputs(ys))
    ensures FullLeaves(IdLeaves(hash, xs)) == FullLeaves(IdLeaves(hash, ys)) <==> FullLeaves(xs) == FullLeaves(ys)
  {
    var fx, fy := FullLeaves(xs), FullLeaves(ys);
    var lx, ly := FullLeaves(IdLeaves(hash, xs)), FullLeaves(IdLeaves(hash, ys));
    LeastHeightFits(|xs|);
    LeastHeightFits(|ys|);
    PadOfIds(hash, xs, LeastHeight(|xs|));
    PadOfIds(hash, ys, LeastHeight(|ys|));
    hide Pad, LeastHeight, IdLeaves;
    if lx == ly {
      forall i | 0 <= i < |fx| ensures fx[i] == fy[i] {
        assert lx[i] == ly[i] && fx[i] in xs && fy[i] in ys;
        assert fx[i].bytes in IdInputs(xs) && fy[i].bytes in IdInputs(ys);
      }
    }
  }

  /** Two non-empty message lists have one root exactly when they fill up to the same list, whatever their lengths, if
      none of the hashed byte strings collide. */
  lemma MessageRootExactly(hash: HashFn, xs: seq<MessageId>, ys: seq<MessageId>)
    requires xs != [] && ys != [] && CollisionFree(hash, MessageInputs(hash, xs) + MessageInputs(hash, ys))
    ensures MerkleRoot(hash, IdLeaves(hash, xs)) == MerkleRoot(hash, IdLeaves(hash, ys))
            <==> FullLeaves(xs) == FullLeaves(ys)
  {
    IdLeavesAreFresh(hash, xs, ys);
    hide MerkleRoot, RootPairs, RootInputs, FullLeaves, PairHash, LeavesAreFresh, IdInputs;
    RootEqualExactly(hash, IdLeaves(hash, xs), IdLeaves(hash, ys));
    SameFullIds(hash, xs, ys);
  }

  lemma TreeTop<T(!new)>(join: (T, T) -> T, leaves: seq<T>, h: nat) returns (top: (T, T))
    requires h >= 1 && 1 <= |leaves| <= Pow(2, h)
    ensures Tree(join, leaves, h) == join(top.0, top.1) && top in TreePairs(join, leaves, h)
  {
    var half := Pow(2, h - 1);
    PowPositive(2, h - 1);
    HalvesExist(leaves, h - 1);
    TopNode(join, leaves, h - 1, LeftHalf(leaves, half), RightHalf(leaves, half));
    top := (Tree(join, LeftHalf(leaves, half), h - 1), Tree(join, RightHalf(leaves, half), h - 1));
  }

  /** The root over at least one message is itself a hash of something hashed. */
  lemma RootIsHashed(hash: HashFn, ids: seq<MessageId>) returns (input: seq<Byte>)
    requires ids != []
    ensures input in MessageInputs(hash, ids) && MerkleRoot(hash, IdLeaves(hash, ids)) == hash(input)
  {
    hide MerkleRoot, Tree, TreePairs, RootPairs, FullLeaves, Pow, Pad, Joined;
    var leaves := IdLeaves(hash, ids);
    var h := RootAndLeaves(hash, leaves);
    if h == 0 {
      SingleLeaf(PairHash(hash), leaves);
      input := ids[0].bytes;
      assert leaves[0] == hash(ids[0].bytes);
    } else {
      var top := TreeTop(PairHash(hash), leaves, h);
      input := Joined(top.0, top.1);
    }
  }

  /** So the root of no messages is told apart too, unless something hashes to zeros. */
  lemma EmptyRootApart(hash: HashFn, ids: seq<MessageId>)
    requires ids != [] && forall i :: i in MessageInputs(hash, ids) ==> hash(i) != MerkleRoot(hash, [])
    ensures MerkleRoot(hash, IdLeaves(hash, ids)) != MerkleRoot(hash, [])
  {
    hide MerkleRoot, MessageInputs;
    var input := RootIsHashed(hash, ids);
  }

  lemma RootOfOne(hash: HashFn, x: Bytes32)
    ensures MerkleRoot(hash, [x]) == x
  {
  }

  lemma RootOfTwo(hash: HashFn, x: Bytes32, y: Bytes32)
    ensures MerkleRoot(hash, [x, y]) == hash([] + x + y)
  {
    RootOfNextLevel(hash, [x, y]);
    assert [x, y][2..] == [];
    assert NextLevel(PairHash(hash), [x, y]) == [PairHash(hash)(x, y)] + NextLevel(PairHash(hash), []);
    assert [] + x + y == Joined(x, y);
    RootOfOne(hash, hash(Joined(x, y)));
  }

  /** The roots of one, two and three messages, hash by hash. */
  lemma FewMessages(hash: HashFn, a: MessageId, b: MessageId, c: MessageId)
    ensures var x, y, z := hash(a.bytes), hash(b.bytes), hash(c.bytes);
            && MerkleRoot(hash, IdLeaves(hash, [a])) == x
            && MerkleRoot(hash, IdLeaves(hash, [a, b])) == hash([] + x + y)
            && MerkleRoot(hash, IdLeaves(hash, [a, b, c])) == hash([] + hash([] + x + y) + hash([] + z + z))
  {
    var x, y, z := hash(a.bytes), hash(b.bytes), hash(c.bytes);
    assert IdLeaves(hash, [a]) == [x] && IdLeaves(hash, [a, b]) == [x, y] && IdLeaves(hash, [a, b, c]) == [x, y, z];
    RootOfOne(hash, x);
    RootOfTwo(hash, x, y);
    RootOfTwo(hash, hash([] + x + y), hash([] + z + z));
    RootOfNextLevel(hash, [x, y, z]);
    assert [x, y, z][2..] == [z];
    NextLevelStep(PairHash(hash), [x, y, z]);
    assert [] + x + y == Joined(x, y) && [] + z + z == Joined(z, z);
    assert NextLevel(PairHash(hash), [z]) == [hash(Joined(z, z))];
  }

  class MerkleTreeBuilder {
    const hash: HashFn
    var leaves: seq<Bytes32>

    constructor (hash: HashFn)
      ensures this.hash == hash && leaves == []
    {
      this.hash, leaves := hash, [];
    }

    method AddMessage(id: MessageId)
      modifies this
      ensures leaves == old(leaves) + [IdLeaf(hash, id)]
    {
      leaves := leaves + [IdLeaf(hash, id)];
    }

    method AddWitness(witnessData: seq<Byte>)
      modifies this
      ensures leaves == old(leaves) + [hash(witnessData)]
    {
      leaves := leaves + [hash(witnessData)];
    }

    /** Inner loop of `compute_root`: hashes the chunks of one level. */
    method FoldLevel(level: seq<Bytes32>) returns (next: seq<Bytes32>)
      ensures next == NextLevel(PairHash(hash), level)
    {
      next := [];
      var i := 0;
      assert level[0..] == level;
      while i < |level|
        invariant 0 <= i <= |level|
        invariant NextLevel(PairHash(hash), level) == next + NextLevel(PairHash(hash), level[i..])
      {
        if i + 1 < |level| {
          assert level[i..][2..] == level[i + 2..];
          next := next + [PairHash(hash)(level[i], level[i + 1])];
          i := i + 2;
        } else {
          next := next + [PairHash(hash)(level[i], level[i])];
          i := i + 1;
        }
      }
    }

    /** `compute_root`: the loop over levels computes the recursive tree, and zeros for no leaves. */
    method ComputeRoot() returns (root: Bytes32)
      ensures root == MerkleRoot(hash, leaves)
    {
      if leaves == [] {
        return seq(32, _ => 0);
      }
      var level := leaves;
      LeastHeightFits(|level|);
      ghost var goal := Tree(PairHash(hash), leaves, LeastHeight(|leaves|));
      while |level| > 1
        invariant 1 <= |level| <= Pow(2, LeastHeight(|level|))
        invariant Tree(PairHash(hash), level, LeastHeight(|level|)) == goal
        decreases |level|
      {
        TreeOfNextLevel(PairHash(hash), level, LeastHeight(|level|) - 1);
        level := FoldLevel(level);
      }
      return level[0];
    }
  }
}
