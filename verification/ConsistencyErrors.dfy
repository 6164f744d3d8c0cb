/** Which elements of a consistency proof the checker looks at, and so when it raises. */
module ConsistencyErrors {
  import opened Wrappers
  import opened Bits
  import opened Merkle
  import opened Inclusion
  import opened MerkleTrees
  import opened Consistency
  import opened ConsistencyTheorems

  function FirstOf(items: seq<ProofItem>, n: nat): seq<ProofItem> {
    items[..if n < |items| then n else |items|]
  }

  lemma FirstOfLonger(item: ProofItem, items: seq<ProofItem>, n: nat)
    ensures FirstOf([item] + items, n + 1) == [item] + FirstOf(items, n)
  {
  }

  lemma FirstSplit(path: seq<ProofItem>)
    requires path != []
    ensures path == [path[0]] + path[1..]
  {
  }

  /** The climb looks at the elements in their order, as many as the place has siblings on the way up. */
  lemma {:induction false} ClimbLooksAt(f: nat, nodes: seq<Digest>, path: seq<ProofItem>)
    requires f < |nodes|
    ensures ClimbItems(f, |nodes| - 1, path) == FirstOf(path, |Siblings(Path(nodes, f))|)
    decreases |nodes|
  {
    hide Path, Next, StepSiblings, Siblings, FirstOf;
    if |nodes| == 1 {
      OldRootOfSingle(nodes, nodes[0]);
      FirstOfNone(path);
    } else if path == [] {
      FirstOfEmpty(|Siblings(Path(nodes, f))|);
    } else {
      SiblingsStep(nodes, f);
      StepSiblingsCases(nodes, f);
      if f % 2 == 0 && f + 1 == |nodes| {
        ClimbLooksAt(f / 2, Next(nodes), path);
      } else {
        ClimbLooksAt(f / 2, Next(nodes), path[1..]);
        FirstSplit(path);
        FirstOfLonger(path[0], path[1..], |Siblings(Path(Next(nodes), f / 2))|);
      }
    }
  }

  lemma FirstOfNone(path: seq<ProofItem>)
    ensures FirstOf(path, 0) == []
  {
  }

  lemma FirstOfEmpty(n: nat)
    ensures FirstOf([], n) == []
  {
  }

  /** So does the check, from the two sizes: nothing of a path of one element, and otherwise its elements in their
      order, as many as the genuine path has. */
  lemma {:induction false} CheckLooksAt(m: nat, nodes: seq<Digest>, path: seq<ProofItem>)
    requires 1 <= m < |nodes| && path != []
    ensures HashedItems(m, |nodes|, path) == if |path| == 1 then [] else FirstOf(path, |GenuinePath(m, nodes)|)
    decreases m
  {
    hide Path, Next, Siblings, StartItems, FirstOf;
    if m % 2 == 0 {
      CheckLooksAt(m / 2, Next(nodes), path);
    } else {
      StartLooksAt(m - 1, nodes, path);
    }
  }

  lemma StartLooksAt(f: nat, nodes: seq<Digest>, path: seq<ProofItem>)
    requires f % 2 == 0 && f + 1 < |nodes| && path != []
    ensures StartItems(f, |nodes| - 1, path) ==
            if |path| == 1 then [] else FirstOf(path, 1 + |Siblings(Path(nodes, f))|)
  {
    hide Path, Next, StepSiblings, Siblings;
    ClimbLooksAt(f, nodes, path[1..]);
    SiblingsStep(nodes, f);
    StepSiblingsCases(nodes, f);
    FirstSplit(path);
    FirstOfLonger(path[0], path[1..], |Siblings(Path(nodes, f))|);
  }

  /** The element at `i` is no text, and all before it are hex. */
  predicate FirstBad(items: seq<ProofItem>, i: nat) {
    i < |items| && items[i].NotText? && forall j :: 0 <= j < i ==> items[j].Hex?
  }

  lemma {:induction false} NotTextFirstExactly(items: seq<ProofItem>)
    ensures NotTextFirst(items) <==> exists i: nat :: FirstBad(items, i)
  {
    if items != [] {
      NotTextFirstExactly(items[1..]);
      if items[0].Hex? {
        forall i: nat ensures FirstBad(items[1..], i) <==> FirstBad(items, i + 1) {
          FirstBadLater(items, i);
        }
        if i: nat :| FirstBad(items, i) { assert FirstBad(items[1..], i - 1); }
      } else if items[0].NotText? {
        assert FirstBad(items, 0);
      }
    }
  }

  lemma FirstBadLater(items: seq<ProofItem>, i: nat)
    requires items != [] && items[0].Hex?
    ensures FirstBad(items[1..], i) <==> FirstBad(items, i + 1)
  {
    if FirstBad(items[1..], i) {
      forall j | 0 <= j < i + 1 ensures items[j].Hex? {
        if j > 0 { assert items[j] == items[1..][j - 1]; }
      }
    } else if FirstBad(items, i + 1) {
      forall j | 0 <= j < i ensures items[1..][j].Hex? {
        assert items[1..][j] == items[j + 1];
      }
    }
  }

  lemma FirstBadOfFirst(items: seq<ProofItem>, n: nat, i: nat)
    ensures FirstBad(FirstOf(items, n), i) <==> i < n && FirstBad(items, i)
  {
  }

  /** When the checker raises, for any proof: the first of its elements that is not hex text is no text at all and comes
      within the length of PROOF(m, D'); and if the old root does not start the path, the proof has a second element. */
  lemma RaisesExactly(m: int, oldRoot: Digest, leaves: seq<Digest>, proof: seq<ProofItem>)
    requires leaves != []
    ensures Raises(m, |leaves|, oldRoot, proof) <==>
            && 1 <= m < |leaves| && (IsPowerOfTwo(m) || |proof| >= 2)
            && exists i: nat :: FirstBad(proof, i) && i < |RfcSubProof(m, leaves, true)|
  {
    hide HashedItems, NotTextFirst, FirstOf, GenuinePath, FullPath, FirstBad, RfcSubProof, NodeSubProof;
    hide IsPowerOfTwo, HashLeaves, Root;
    if 1 <= m < |leaves| {
      var nodes, path := HashLeaves(leaves), WithOldRoot(m, oldRoot, proof);
      RfcSubProofIsNodeSubProof(m, leaves, true);
      ProducedIsGenuine(m, nodes);
      var length := |GenuinePath(m, nodes)|;
      LengthOfFull(m, Root(nodes[..m]), NodeSubProof(m, nodes, true));
      if proof != [] {
        CheckLooksAt(m, nodes, path);
        NotTextFirstExactly(HashedItems(m, |leaves|, path));
        forall i: nat ensures FirstBad(FirstOf(path, length), i) <==> i < length && FirstBad(path, i) {
          FirstBadOfFirst(path, length, i);
        }
        forall i: nat ensures FirstBad([], i) <==> false { NoneBad(i); }
        FirstBadAfterRoot(m, oldRoot, proof);
      } else {
        forall i: nat ensures FirstBad([], i) <==> false { NoneBad(i); }
      }
    }
  }

  lemma NoneBad(i: nat)
    ensures !FirstBad([], i)
  {
  }

  lemma LengthOfFull(m: nat, root: Digest, proof: seq<Digest>)
    ensures |FullPath(m, root, proof)| == |proof| + if IsPowerOfTwo(m) then 1 else 0
  {
  }

  lemma FirstBadAfterRoot(m: nat, oldRoot: Digest, proof: seq<ProofItem>)
    ensures IsPowerOfTwo(m) ==>
              forall i: nat :: FirstBad(WithOldRoot(m, oldRoot, proof), i) ==> i > 0 && FirstBad(proof, i - 1)
    ensures IsPowerOfTwo(m) ==>
              forall i: nat :: FirstBad(proof, i) ==> FirstBad(WithOldRoot(m, oldRoot, proof), i + 1)
    ensures IsPowerOfTwo(m) ==> |WithOldRoot(m, oldRoot, proof)| == |proof| + 1
    ensures !IsPowerOfTwo(m) ==> WithOldRoot(m, oldRoot, proof) == proof
  {
    hide FirstBad, IsPowerOfTwo;
    if IsPowerOfTwo(m) {
      var path := [Hex(oldRoot)] + proof;
      assert path[1..] == proof;
      forall i: nat ensures FirstBad(path, i) ==> i > 0 && FirstBad(proof, i - 1) {
        if i > 0 { FirstBadLater(path, i - 1); } else { FirstIsHex(path); }
      }
      forall i: nat ensures FirstBad(proof, i) ==> FirstBad(path, i + 1) {
        FirstBadLater(path, i);
      }
    }
  }

  lemma FirstIsHex(path: seq<ProofItem>)
    requires path != [] && path[0].Hex?
    ensures !FirstBad(path, 0)
  {
  }
}
