/** Inclusion proofs: what they are, and that acceptance means membership. */
module Inclusion {
  import opened Bits
  import opened Merkle

  datatype ProofStep = ProofStep(sibling: Digest, isLeft: bool)

  /** The step taken from node `i` to the level above: none for a lone last node. */
  function StepAt(nodes: seq<Digest>, i: nat): seq<ProofStep>
    requires i < |nodes|
  {
    if i % 2 == 1 then [ProofStep(nodes[i - 1], true)]
    else if i + 1 < |nodes| then [ProofStep(nodes[i + 1], false)]
    else []
  }

  /** The steps from node `i` of a level up to the root. */
  function Path(nodes: seq<Digest>, i: nat): seq<ProofStep>
    requires i < |nodes|
    decreases |nodes|
  {
    if |nodes| == 1 then [] else StepAt(nodes, i) + Path(Next(nodes), i / 2)
  }

  function Siblings(proof: seq<ProofStep>): (digests: seq<Digest>)
    ensures |digests| == |proof|
    ensures forall i :: 0 <= i < |proof| ==> digests[i] == proof[i].sibling
  {
    seq(|proof|, i requires 0 <= i < |proof| => proof[i].sibling)
  }

  /** PATH(m, D) of section 2.1.1 of RFC 6962. */
  function RfcPath(m: nat, leaves: seq<Digest>): seq<Digest>
    requires m < |leaves|
    decreases |leaves|
  {
    if |leaves| == 1 then []
    else
      var k := SplitPoint(|leaves|);
      if m < k then RfcPath(m, leaves[..k]) + [Mth(leaves[k..])]
      else RfcPath(m - k, leaves[k..]) + [Mth(leaves[..k])]
  }

  function Combine(digest: Digest, step: ProofStep): Digest {
    if step.isLeft then NodeHash(step.sibling, digest) else NodeHash(digest, step.sibling)
  }

  /** The value computed from `digest` by applying the steps in order. */
  function Fold(digest: Digest, proof: seq<ProofStep>): Digest
    decreases |proof|
  {
    if proof == [] then digest else Fold(Combine(digest, proof[0]), proof[1..])
  }

  lemma CombineCases(digest: Digest, step: ProofStep)
    ensures step.isLeft ==> Combine(digest, step) == NodeHash(step.sibling, digest)
    ensures !step.isLeft ==> Combine(digest, step) == NodeHash(digest, step.sibling)
  {
  }

  lemma {:induction false} FoldLast(digest: Digest, proof: seq<ProofStep>, last: ProofStep)
    ensures Fold(digest, proof + [last]) == Combine(Fold(digest, proof), last)
    decreases |proof|
  {
    if proof != [] {
      assert (proof + [last])[1..] == proof[1..] + [last];
      FoldLast(Combine(digest, proof[0]), proof[1..], last);
    }
  }

  /** `verify_proof` and `verify_merkle_proof`. */
  method VerifyProof(leaf: Digest, proof: seq<ProofStep>, root: Digest) returns (accepted: bool)
    ensures accepted == (Fold(LeafHash(leaf), proof) == root)
  {
    var computed := LeafHash(leaf);
    for i := 0 to |proof|
      invariant Fold(computed, proof[i..]) == Fold(LeafHash(leaf), proof)
    {
      var step := proof[i];
      assert proof[i..][0] == step && proof[i..][1..] == proof[i + 1..];
      if step.isLeft {
        computed := NodeHash(step.sibling, computed);
      } else {
        computed := NodeHash(computed, step.sibling);
      }
    }
    return computed == root;
  }

  /** A path unrolled by one step. Also right for a single node, which is its own level above. */
  lemma PathStep(nodes: seq<Digest>, i: nat)
    requires i < |nodes|
    ensures Path(nodes, i) == StepAt(nodes, i) + Path(Next(nodes), i / 2)
  {
    if |nodes| == 1 {
      assert Next(nodes) == nodes;
    }
  }

  /** Below an even cut, and above it, the step is the one taken in the part alone. */
  lemma StepSplit(nodes: seq<Digest>, i: nat, k: nat)
    requires i < |nodes| && k <= |nodes| && k % 2 == 0
    ensures i < k ==> StepAt(nodes, i) == StepAt(nodes[..k], i)
    ensures i >= k ==> StepAt(nodes, i) == StepAt(nodes[k..], i - k)
  {
    if i >= k {
      assert (i - k) % 2 == i % 2;
      assert i % 2 == 1 ==> nodes[k..][i - k - 1] == nodes[i - 1];
      assert i + 1 < |nodes| ==> nodes[k..][i - k + 1] == nodes[i + 1];
    }
  }

  /** A path that ends with `last` still does after one more step at the bottom. */
  lemma PathExtends(nodes: seq<Digest>, i: nat, part: seq<Digest>, j: nat, last: ProofStep)
    requires i < |nodes| && j < |part| && StepAt(nodes, i) == StepAt(part, j)
    requires Path(Next(nodes), i / 2) == Path(Next(part), j / 2) + [last]
    ensures Path(nodes, i) == Path(part, j) + [last]
  {
    PathStep(nodes, i);
    PathStep(part, j);
  }

  /** Bottom-up and top-down construction of a path agree. */
  lemma {:induction false} PathSplit(nodes: seq<Digest>, i: nat)
    requires |nodes| >= 2 && i < |nodes|
    ensures var k := SplitPoint(|nodes|);
      Path(nodes, i) ==
      if i < k then Path(nodes[..k], i) + [ProofStep(Root(nodes[k..]), false)]
      else Path(nodes[k..], i - k) + [ProofStep(Root(nodes[..k]), true)]
    decreases |nodes|
  {
    hide Root, Path;
    var k := SplitPoint(|nodes|);
    if |nodes| == 2 {
      PathSplitPair(nodes, i);
    } else {
      NextSplit(nodes, k);
      PathSplit(Next(nodes), i / 2);
      StepSplit(nodes, i, k);
      RootNext(nodes[..k]);
      RootNext(nodes[k..]);
      if i < k {
        PathExtends(nodes, i, nodes[..k], i, ProofStep(Root(nodes[k..]), false));
      } else {
        PathExtends(nodes, i, nodes[k..], i - k, ProofStep(Root(nodes[..k]), true));
      }
    }
  }

  lemma PathSplitPair(nodes: seq<Digest>, i: nat)
    requires |nodes| == 2 && i < 2
    ensures Path(nodes, i) == if i < 1 then Path(nodes[..1], i) + [ProofStep(Root(nodes[1..]), false)]
                              else Path(nodes[1..], i - 1) + [ProofStep(Root(nodes[..1]), true)]
  {
    assert Path(Next(nodes), i / 2) == [];
  }

  /** `get_proof` gives the digests of PATH(m, D). */
  lemma {:induction false} PathIsRfcPath(leaves: seq<Digest>, m: nat)
    requires m < |leaves|
    ensures Siblings(Path(HashLeaves(leaves), m)) == RfcPath(m, leaves)
    decreases |leaves|
  {
    hide Mth, Root;
    if |leaves| > 1 {
      hide Path;
      var k, nodes := SplitPoint(|leaves|), HashLeaves(leaves);
      PathSplit(nodes, m);
      MthHalves(leaves);
      if m < k {
        PathIsRfcPath(leaves[..k], m);
        SiblingsLast(Path(nodes[..k], m), ProofStep(Mth(leaves[k..]), false));
      } else {
        PathIsRfcPath(leaves[k..], m - k);
        SiblingsLast(Path(nodes[k..], m - k), ProofStep(Mth(leaves[..k]), true));
      }
    }
  }

  lemma SiblingsLast(proof: seq<ProofStep>, last: ProofStep)
    ensures Siblings(proof + [last]) == Siblings(proof) + [last.sibling]
  {
  }

  /** One step leads from a node to the node above it. */
  lemma FoldStep(nodes: seq<Digest>, i: nat, rest: seq<ProofStep>)
    requires i < |nodes|
    ensures Fold(nodes[i], StepAt(nodes, i) + rest) == Fold(Next(nodes)[i / 2], rest)
  {
    var proof := StepAt(nodes, i) + rest;
    if StepAt(nodes, i) == [] {
      assert proof == rest;
    } else {
      assert proof[1..] == rest;
    }
  }

  /** Every genuine path leads to the root. */
  lemma {:induction false} PathLeadsToRoot(nodes: seq<Digest>, i: nat)
    requires i < |nodes|
    ensures Fold(nodes[i], Path(nodes, i)) == Root(nodes)
    decreases |nodes|
  {
    if |nodes| > 1 {
      RootNext(nodes);
      PathLeadsToRoot(Next(nodes), i / 2);
      FoldStep(nodes, i, Path(Next(nodes), i / 2));
    }
  }

  /** Any steps that lead from a leaf to the root of D are the genuine path of a place where D holds the leaf. */
  lemma {:induction false} AcceptedPathIsGenuine(leaf: Digest, proof: seq<ProofStep>, leaves: seq<Digest>)
    returns (i: nat)
    requires leaves != [] && Fold(LeafHash(leaf), proof) == Mth(leaves)
    ensures i < |leaves| && leaves[i] == leaf && proof == Path(HashLeaves(leaves), i)
    decreases |leaves|
  {
    hide *;
    if |leaves| == 1 || proof == [] {
      AcceptedSingle(leaf, proof, leaves);
      i := 0;
    } else {
      var rest, last := proof[..|proof| - 1], proof[|proof| - 1];
      assert proof == rest + [last];
      FoldLast(LeafHash(leaf), rest, last);
      CombineCases(Fold(LeafHash(leaf), rest), last);
      MthNode(leaves);
      var k := SplitPoint(|leaves|);
      if last.isLeft {
        var j := AcceptedPathIsGenuine(leaf, rest, leaves[k..]);
        i := k + j;
      } else {
        i := AcceptedPathIsGenuine(leaf, rest, leaves[..k]);
      }
      GenuineExtends(leaves, i, rest, last);
    }
  }

  lemma {:induction false} GenuineExtends(leaves: seq<Digest>, i: nat, rest: seq<ProofStep>, last: ProofStep)
    requires |leaves| >= 2 && i < |leaves|
    requires var k := SplitPoint(|leaves|);
      if i < k then rest == Path(HashLeaves(leaves[..k]), i) && last == ProofStep(Mth(leaves[k..]), false)
      else rest == Path(HashLeaves(leaves[k..]), i - k) && last == ProofStep(Mth(leaves[..k]), true)
    ensures rest + [last] == Path(HashLeaves(leaves), i)
  {
    hide Mth, Root, Path;
    MthHalves(leaves);
    PathSplit(HashLeaves(leaves), i);
  }

  lemma AcceptedSingle(leaf: Digest, proof: seq<ProofStep>, leaves: seq<Digest>)
    requires leaves != [] && Fold(LeafHash(leaf), proof) == Mth(leaves)
    requires |leaves| == 1 || proof == []
    ensures leaves == [leaf] && proof == [] && Path(HashLeaves(leaves), 0) == []
  {
    if proof != [] {
      assert proof == proof[..|proof| - 1] + [proof[|proof| - 1]];
      FoldLast(LeafHash(leaf), proof[..|proof| - 1], proof[|proof| - 1]);
    }
  }

  /** Acceptance against the root of a tree, exactly: the leaf is in the tree and the steps are its path.
      Neither the index nor the size is given to the verifier. */
  lemma InclusionExact(leaf: Digest, proof: seq<ProofStep>, leaves: seq<Digest>)
    requires leaves != []
    ensures Fold(LeafHash(leaf), proof) == Mth(leaves) <==>
            exists i :: 0 <= i < |leaves| && leaves[i] == leaf && proof == Path(HashLeaves(leaves), i)
  {
    if Fold(LeafHash(leaf), proof) == Mth(leaves) {
      var i := AcceptedPathIsGenuine(leaf, proof, leaves);
    }
    forall i | 0 <= i < |leaves| && leaves[i] == leaf && proof == Path(HashLeaves(leaves), i)
      ensures Fold(LeafHash(leaf), proof) == Mth(leaves)
    {
      PathLeadsToRoot(HashLeaves(leaves), i);
      MthIsRoot(leaves);
    }
  }
}
