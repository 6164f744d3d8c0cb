/** The bottom-up checker accepts exactly the old root and the proof that the top-down producer gives. */
module ConsistencyTheorems {
  import opened Wrappers
  import opened Bits
  import opened Merkle
  import opened Inclusion
  import opened MerkleTrees
  import opened Consistency

  /** The path of a consistency proof, bottom up: the last full node of the old tree, then the
      siblings on its way to the root of the new tree. */
  function GenuinePath(m: nat, nodes: seq<Digest>): (path: seq<Digest>)
    requires 1 <= m <= |nodes|
    ensures path != []
    decreases m
  {
    if m % 2 == 0 then GenuinePath(m / 2, Next(nodes))
    else [nodes[m - 1]] + Siblings(Path(nodes, m - 1))
  }

  // ----- one step of the climb

  function StepSiblings(nodes: seq<Digest>, f: nat): seq<Digest>
    requires f < |nodes|
  {
    Siblings(StepAt(nodes, f))
  }

  lemma SiblingsStep(nodes: seq<Digest>, f: nat)
    requires f < |nodes|
    ensures Siblings(Path(nodes, f)) == StepSiblings(nodes, f) + Siblings(Path(Next(nodes), f / 2))
  {
    PathStep(nodes, f);
  }

  lemma StepSiblingsCases(nodes: seq<Digest>, f: nat)
    requires f < |nodes|
    ensures f % 2 == 1 ==> StepSiblings(nodes, f) == [nodes[f - 1]]
    ensures f % 2 == 0 && f + 1 < |nodes| ==> StepSiblings(nodes, f) == [nodes[f + 1]]
    ensures f % 2 == 0 && f + 1 == |nodes| ==> StepSiblings(nodes, f) == []
  {
  }

  /** The node above node `f`. */
  lemma NextAt(nodes: seq<Digest>, f: nat)
    requires f < |nodes|
    ensures f % 2 == 1 ==> Next(nodes)[f / 2] == NodeHash(nodes[f - 1], nodes[f])
    ensures f % 2 == 0 && f + 1 < |nodes| ==> Next(nodes)[f / 2] == NodeHash(nodes[f], nodes[f + 1])
    ensures f % 2 == 0 && f + 1 == |nodes| ==> Next(nodes)[f / 2] == nodes[f]
  {
  }

  /** The old root when node `f` of the old level is `fr` and the nodes before it are those of the new level. */
  function OldRoot(nodes: seq<Digest>, f: nat, fr: Digest): Digest
    requires f < |nodes|
  {
    Root(nodes[..f] + [fr])
  }

  lemma OldRootStep(nodes: seq<Digest>, f: nat, fr: Digest)
    requires f < |nodes|
    ensures OldRoot(nodes, f, fr) ==
            OldRoot(Next(nodes), f / 2, if f % 2 == 1 then NodeHash(nodes[f - 1], fr) else fr)
  {
    hide Root;
    var short := nodes[..f] + [fr];
    RootNext(short);
    var up := if f % 2 == 1 then NodeHash(nodes[f - 1], fr) else fr;
    assert Next(short) == Next(nodes)[..f / 2] + [up];
  }

  lemma OldRootOfSingle(nodes: seq<Digest>, fr: Digest)
    requires |nodes| == 1
    ensures OldRoot(nodes, 0, fr) == fr && Root(nodes) == nodes[0] && Siblings(Path(nodes, 0)) == []
  {
    assert nodes[..0] + [fr] == [fr];
  }

  // ----- the climb over a true new tree

  /** If the climb ends at the true new root, then the path is genuine, the node it started from is the
      true one, and the old root it computes is that of the true nodes before it. */
  lemma {:induction false} ClimbForces(f: nat, nodes: seq<Digest>, fr: Digest, sr: Digest,
                                       path: seq<Digest>, oldRoot: Digest)
    requires f < |nodes| && Climb(f, |nodes| - 1, fr, sr, path) == Some((oldRoot, Root(nodes)))
    ensures sr == nodes[f] && path == Siblings(Path(nodes, f)) && oldRoot == OldRoot(nodes, f, fr)
    decreases |nodes|
  {
    hide Root, Path, Next, OldRoot, StepSiblings, Siblings;
    if |nodes| == 1 {
      OldRootOfSingle(nodes, fr);
    } else {
      RootNext(nodes);
      OldRootStep(nodes, f, fr);
      NextAt(nodes, f);
      SiblingsStep(nodes, f);
      StepSiblingsCases(nodes, f);
      if f % 2 == 1 {
        ClimbForces(f / 2, Next(nodes), NodeHash(path[0], fr), NodeHash(path[0], sr), path[1..], oldRoot);
      } else if f + 1 == |nodes| {
        ClimbForces(f / 2, Next(nodes), fr, sr, path, oldRoot);
      } else {
        ClimbForces(f / 2, Next(nodes), fr, NodeHash(sr, path[0]), path[1..], oldRoot);
      }
    }
  }

  /** The genuine path leads to the true roots. */
  lemma {:induction false} ClimbReaches(f: nat, nodes: seq<Digest>, fr: Digest)
    requires f < |nodes|
    ensures Climb(f, |nodes| - 1, fr, nodes[f], Siblings(Path(nodes, f))) == Some((OldRoot(nodes, f, fr), Root(nodes)))
    decreases |nodes|
  {
    hide Root, Path, Next, OldRoot, StepSiblings, Siblings;
    if |nodes| == 1 {
      OldRootOfSingle(nodes, fr);
    } else {
      RootNext(nodes);
      OldRootStep(nodes, f, fr);
      NextAt(nodes, f);
      SiblingsStep(nodes, f);
      StepSiblingsCases(nodes, f);
      ClimbReaches(f / 2, Next(nodes), if f % 2 == 1 then NodeHash(nodes[f - 1], fr) else fr);
      var rest := Siblings(Path(Next(nodes), f / 2));
      if f % 2 == 1 {
        assert ([nodes[f - 1]] + rest)[1..] == rest;
      } else if f + 1 < |nodes| {
        assert ([nodes[f + 1]] + rest)[1..] == rest;
      } else {
        assert [] + rest == rest;
      }
    }
  }

  lemma {:induction false} ClimbFromExact(m: nat, nodes: seq<Digest>, path: seq<Digest>, oldRoot: Digest)
    requires 1 <= m <= |nodes| && path != []
    ensures ClimbFrom(m, |nodes|, path) == Some((oldRoot, Root(nodes))) <==>
            path == GenuinePath(m, nodes) && oldRoot == Root(nodes[..m])
    decreases m
  {
    hide Root, Path, Next, Climb, Siblings;
    if m % 2 == 0 {
      ClimbFromExact(m / 2, Next(nodes), path, oldRoot);
      RootNext(nodes);
      RootNext(nodes[..m]);
      NextSplit(nodes, m);
    } else {
      ClimbExact(m - 1, nodes, path, oldRoot);
    }
  }

  lemma {:induction false} ClimbExact(f: nat, nodes: seq<Digest>, path: seq<Digest>, oldRoot: Digest)
    requires f < |nodes| && path != []
    ensures Climb(f, |nodes| - 1, path[0], path[0], path[1..]) == Some((oldRoot, Root(nodes))) <==>
            path == [nodes[f]] + Siblings(Path(nodes, f)) && oldRoot == Root(nodes[..f + 1])
  {
    hide Root, Path, Next, Climb, Siblings;
    assert nodes[..f] + [nodes[f]] == nodes[..f + 1];
    if Climb(f, |nodes| - 1, path[0], path[0], path[1..]) == Some((oldRoot, Root(nodes))) {
      ClimbForces(f, nodes, path[0], path[0], path[1..], oldRoot);
      assert path == [path[0]] + path[1..];
    }
    if path == [nodes[f]] + Siblings(Path(nodes, f)) {
      assert path[1..] == Siblings(Path(nodes, f));
      ClimbReaches(f, nodes, nodes[f]);
    }
  }

  // ----- top down and bottom up

  /** SUBPROOF over nodes that are already hashed. */
  function NodeSubProof(m: nat, nodes: seq<Digest>, complete: bool): seq<Digest>
    requires 1 <= m <= |nodes|
    decreases |nodes|
  {
    if m == |nodes| then
      if complete then [] else [Root(nodes)]
    else
      var k := SplitPoint(|nodes|);
      if m <= k then NodeSubProof(m, nodes[..k], complete) + [Root(nodes[k..])]
      else NodeSubProof(m - k, nodes[k..], false) + [Root(nodes[..k])]
  }

  lemma {:induction false} RfcSubProofIsNodeSubProof(m: nat, leaves: seq<Digest>, complete: bool)
    requires 1 <= m <= |leaves|
    ensures RfcSubProof(m, leaves, complete) == NodeSubProof(m, HashLeaves(leaves), complete)
    decreases |leaves|
  {
    hide Mth, Root, HashLeaves;
    if m == |leaves| {
      MthIsRoot(leaves);
    } else {
      MthHalves(leaves);
      var k := SplitPoint(|leaves|);
      if m <= k {
        RfcSubProofIsNodeSubProof(m, leaves[..k], complete);
      } else {
        RfcSubProofIsNodeSubProof(m - k, leaves[k..], false);
      }
    }
  }

  /** SUBPROOF unrolled once. */
  lemma NodeSubProofCases(m: nat, nodes: seq<Digest>, complete: bool)
    requires 1 <= m <= |nodes|
    ensures m == |nodes| ==> NodeSubProof(m, nodes, complete) == if complete then [] else [Root(nodes)]
    ensures m < |nodes| ==> var k := SplitPoint(|nodes|);
      NodeSubProof(m, nodes, complete) ==
      if m <= k then NodeSubProof(m, nodes[..k], complete) + [Root(nodes[k..])]
      else NodeSubProof(m - k, nodes[k..], false) + [Root(nodes[..k])]
  {
  }

  /** The split of a tree and of an even size in it, one level up. */
  lemma EvenSizeSplits(m: nat, n: nat)
    requires 1 <= m < n && m % 2 == 0
    ensures var k := SplitPoint(n);
      && k % 2 == 0 && SplitPoint((n + 1) / 2) == k / 2 && (m <= k <==> m / 2 <= k / 2) && m / 2 < (n + 1) / 2
      && (m > k ==> (m - k) % 2 == 0 && (m - k) / 2 == m / 2 - k / 2)
  {
    SplitPointHalves(n);
  }

  /** An even old size: the proof is the one on the level above. */
  lemma {:induction false} SubProofEven(m: nat, nodes: seq<Digest>, complete: bool)
    requires 1 <= m <= |nodes| && m % 2 == 0
    ensures NodeSubProof(m, nodes, complete) == NodeSubProof(m / 2, Next(nodes), complete)
    decreases |nodes|
  {
    hide *;
    NodeSubProofCases(m, nodes, complete);
    NodeSubProofCases(m / 2, Next(nodes), complete);
    if m == |nodes| {
      RootNext(nodes);
    } else {
      var k := SplitPoint(|nodes|);
      EvenSizeSplits(m, |nodes|);
      NextSplit(nodes, k);
      RootNext(nodes[..k]);
      RootNext(nodes[k..]);
      if m <= k {
        SubProofEven(m, nodes[..k], complete);
      } else {
        SubProofEven(m - k, nodes[k..], false);
      }
    }
  }

  /** An odd size cut at the split point leaves an odd size on the side it ends in. */
  lemma OddSizeSplits(m: nat, n: nat)
    requires 1 <= m < n && m % 2 == 1
    ensures var k := SplitPoint(n); if m <= k then m == k ==> m == 1 else k >= 2 && (m - k) % 2 == 1
  {
  }

  /** The proof for an odd old size: the last old node, unless it is the whole old tree, and its siblings upwards. */
  function OddProof(m: nat, nodes: seq<Digest>, complete: bool): seq<Digest>
    requires 1 <= m <= |nodes|
  {
    (if complete && m == 1 then [] else [nodes[m - 1]]) + Siblings(Path(nodes, m - 1))
  }

  /** The proof in a part of the tree, with the root of the rest after it, is the proof in the whole tree. */
  lemma OddProofExtends(m: nat, nodes: seq<Digest>, complete: bool,
                        j: nat, part: seq<Digest>, partComplete: bool, rest: Digest)
    requires 1 <= m <= |nodes| && 1 <= j <= |part| && nodes[m - 1] == part[j - 1]
    requires (complete && m == 1) == (partComplete && j == 1)
    requires Siblings(Path(nodes, m - 1)) == Siblings(Path(part, j - 1)) + [rest]
    ensures OddProof(m, nodes, complete) == OddProof(j, part, partComplete) + [rest]
  {
    hide Path, Siblings;
  }

  lemma {:induction false} SubProofOdd(m: nat, nodes: seq<Digest>, complete: bool)
    requires 1 <= m <= |nodes| && m % 2 == 1 && (m == |nodes| ==> m == 1)
    ensures NodeSubProof(m, nodes, complete) == OddProof(m, nodes, complete)
    decreases |nodes|
  {
    hide *;
    NodeSubProofCases(m, nodes, complete);
    if m == |nodes| {
      OddProofOfSingle(nodes, complete);
    } else {
      var k := SplitPoint(|nodes|);
      OddSizeSplits(m, |nodes|);
      SiblingsSplit(nodes, m - 1);
      if m <= k {
        SubProofOdd(m, nodes[..k], complete);
        OddProofExtends(m, nodes, complete, m, nodes[..k], complete, Root(nodes[k..]));
      } else {
        SubProofOdd(m - k, nodes[k..], false);
        OddProofExtends(m, nodes, complete, m - k, nodes[k..], false, Root(nodes[..k]));
      }
    }
  }

  lemma OddProofOfSingle(nodes: seq<Digest>, complete: bool)
    requires |nodes| == 1
    ensures OddProof(1, nodes, complete) == if complete then [] else [Root(nodes)]
  {
    OldRootOfSingle(nodes, nodes[0]);
  }

  lemma {:induction false} SiblingsSplit(nodes: seq<Digest>, i: nat)
    requires |nodes| >= 2 && i < |nodes|
    ensures var k := SplitPoint(|nodes|);
      Siblings(Path(nodes, i)) ==
      if i < k then Siblings(Path(nodes[..k], i)) + [Root(nodes[k..])]
      else Siblings(Path(nodes[k..], i - k)) + [Root(nodes[..k])]
  {
    hide Root, Path, Siblings;
    var k := SplitPoint(|nodes|);
    PathSplit(nodes, i);
    if i < k {
      SiblingsLast(Path(nodes[..k], i), ProofStep(Root(nodes[k..]), false));
    } else {
      SiblingsLast(Path(nodes[k..], i - k), ProofStep(Root(nodes[..k]), true));
    }
  }

  /** The producer's proof, with the old root in front when it is a node of the new tree, is the genuine path. */
  lemma {:induction false} ProducedIsGenuine(m: nat, nodes: seq<Digest>)
    requires 1 <= m < |nodes|
    ensures GenuinePath(m, nodes) == FullPath(m, Root(nodes[..m]), NodeSubProof(m, nodes, true))
    decreases m
  {
    hide Root, Next, Path, Siblings, NodeSubProof;
    if m % 2 == 0 {
      ProducedIsGenuine(m / 2, Next(nodes));
      SubProofEven(m, nodes, true);
      NextSplit(nodes, m);
      RootNext(nodes[..m]);
    } else {
      SubProofOdd(m, nodes, true);
      if m == 1 {
        OldRootOfSingle(nodes[..1], nodes[0]);
      }
    }
  }

  // ----- the main results

  /** The checker accepts a new root that is the true root of D' exactly when the old root is the true root
      of the first m leaves of D' and the proof is PROOF(m, D'). */
  lemma ConsistencyExact(m: int, oldRoot: Digest, leaves: seq<Digest>, proof: seq<Digest>)
    requires leaves != []
    ensures Accepts(m, |leaves|, oldRoot, Mth(leaves), proof) <==>
            1 <= m <= |leaves| && oldRoot == Mth(leaves[..m]) && proof == RfcSubProof(m, leaves, true)
  {
    hide Mth, Root, HashLeaves, ClimbFrom, IsPowerOfTwo;
    if 1 <= m < |leaves| {
      var nodes := HashLeaves(leaves);
      RfcSubProofIsNodeSubProof(m, leaves, true);
      MthIsRoot(leaves);
      MthIsRoot(leaves[..m]);
      HashLeavesSplit(leaves, m);
      ProducedIsGenuine(m, nodes);
      if proof != [] {
        ClimbFromExact(m, nodes, FullPath(m, oldRoot, proof), oldRoot);
        FullPathInjective(m, oldRoot, proof, NodeSubProof(m, nodes, true));
      }
    } else if m == |leaves| {
      assert leaves[..m] == leaves;
    }
  }

  lemma FullPathInjective(m: nat, root: Digest, a: seq<Digest>, b: seq<Digest>)
    ensures FullPath(m, root, a) == FullPath(m, root, b) ==> a == b
  {
    if FullPath(m, root, a) == FullPath(m, root, b) && IsPowerOfTwo(m) {
      assert a == FullPath(m, root, a)[1..] && b == FullPath(m, root, b)[1..];
    }
  }

  /** Completeness: the proof made by the tree for `oldSize` is accepted with the roots of the two sizes. */
  lemma ConsistencyComplete(tree: MerkleTree, oldSize: int)
    requires tree.Valid() && 1 <= oldSize <= |tree.leaves|
    ensures var proof := tree.ConsistencyProof(oldSize);
      proof.Ok? && Accepts(oldSize, |tree.leaves|, Mth(tree.leaves[..oldSize]), tree.TreeRoot(), proof.value)
  {
    hide *;
    ConsistencyExact(oldSize, Mth(tree.leaves[..oldSize]), tree.leaves, tree.ConsistencyProof(oldSize).value);
  }

  /** Soundness: whatever the proof, acceptance of the true roots of two lists makes one a prefix of the other. */
  lemma {:induction false} ConsistencySound(older: seq<Digest>, newer: seq<Digest>, proof: seq<Digest>)
    requires older != [] && newer != []
    requires Accepts(|older|, |newer|, Mth(older), Mth(newer), proof)
    ensures |older| <= |newer| && older == newer[..|older|]
  {
    hide *;
    ConsistencyExact(|older|, Mth(older), newer, proof);
    MthInjective(older, newer[..|older|]);
  }

  /** Acceptance says nothing about the new size itself: a proof for three leaves also passes for four. */
  lemma NewSizeIsNotAuthenticated(a: Digest, b: Digest, c: Digest)
    ensures Accepts(2, 3, Mth([a, b]), Mth([a, b, c]), [LeafHash(c)])
    ensures Accepts(2, 4, Mth([a, b]), Mth([a, b, c]), [LeafHash(c)])
  {
    var root2 := Mth([a, b]);
    assert [a, b, c][..2] == [a, b] && [a, b, c][2..] == [c];
    assert Mth([a, b, c]) == NodeHash(root2, LeafHash(c));
    assert [root2, LeafHash(c)][1..] == [LeafHash(c)] && [LeafHash(c)][1..] == [];
    assert Climb(0, 1, root2, root2, [LeafHash(c)]) == Some((root2, NodeHash(root2, LeafHash(c))));
    assert FullPath(2, root2, [LeafHash(c)]) == [root2, LeafHash(c)];
  }
}
