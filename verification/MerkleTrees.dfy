/** `MerkleTree`: the stored levels, and the lookups and loops over them. */
module MerkleTrees {
  import opened Wrappers
  import opened Bits
  import opened Merkle
  import opened Inclusion

  /** All levels from `nodes` up to the root. */
  function Levels(nodes: seq<Digest>): (levels: seq<seq<Digest>>)
    requires nodes != []
    ensures levels != [] && levels[0] == nodes && |levels[|levels| - 1]| == 1
    ensures forall h :: 0 <= h < |levels| ==> levels[h] != []
    decreases |nodes|
  {
    if |nodes| == 1 then [nodes] else [nodes] + Levels(Next(nodes))
  }

  /** The level above, built as `_build_levels` and `merkle_root` do. */
  method NextLevel(current: seq<Digest>) returns (nextLevel: seq<Digest>)
    ensures nextLevel == Next(current)
  {
    nextLevel := [];
    var i := 0;
    while i < |current| - 1
      invariant i == 2 * |nextLevel| <= |current|
      invariant forall j :: 0 <= j < |nextLevel| ==> nextLevel[j] == Next(current)[j]
    {
      nextLevel := nextLevel + [NodeHash(current[i], current[i + 1])];
      i := i + 2;
    }
    if |current| % 2 == 1 {
      nextLevel := nextLevel + [current[|current| - 1]];
    }
  }

  /** `MerkleTree._build_levels` */
  method BuildLevels(leaves: seq<Digest>) returns (levels: seq<seq<Digest>>)
    requires leaves != []
    ensures levels == Levels(HashLeaves(leaves))
  {
    var current := HashLeaves(leaves);
    ghost var below := [];
    levels := [current];
    while |current| > 1
      invariant current != [] && levels == below + [current]
      invariant below + Levels(current) == Levels(HashLeaves(leaves))
      decreases |current|
    {
      LevelsGrow(below, current);
      below := levels;
      current := NextLevel(current);
      levels := levels + [current];
    }
  }

  lemma LevelsGrow(below: seq<seq<Digest>>, current: seq<Digest>)
    requires |current| > 1
    ensures below + Levels(current) == below + [current] + Levels(Next(current))
  {
  }

  /** `verifier.merkle_root` */
  method MerkleRoot(leaves: seq<Digest>) returns (r: Result<Digest>)
    ensures r == if leaves == [] then Err(ValueError) else Ok(Mth(leaves))
  {
    if leaves == [] {
      return Err(ValueError);
    }
    MthIsRoot(leaves);
    var level := HashLeaves(leaves);
    while |level| > 1
      invariant level != [] && Root(level) == Mth(leaves)
      decreases |level|
    {
      RootNext(level);
      level := NextLevel(level);
    }
    return Ok(level[0]);
  }

  datatype MerkleTree = MerkleTree(leaves: seq<Digest>, levels: seq<seq<Digest>>) {
    ghost predicate Valid() {
      leaves != [] && levels == Levels(HashLeaves(leaves))
    }

    /** The tree hash of all leaves. */
    function TreeRoot(): (root: Digest)
      requires Valid()
      ensures root == Mth(leaves)
    {
      MthIsRoot(leaves);
      TopOfLevels(HashLeaves(leaves));
      levels[|levels| - 1][0]
    }

    /** The stored node over leaves lo..hi. */
    function Node(lo: nat, hi: nat): (node: Digest)
      requires Valid() && IsSubtree(lo, hi, |leaves|)
      ensures node == Mth(leaves[lo..hi])
    {
      NodeLookup(HashLeaves(leaves), lo, hi);
      HashLeavesSlice(leaves, lo, hi);
      MthIsRoot(leaves[lo..hi]);
      var height := BitLength(hi - lo - 1);
      levels[height][ShiftRight(lo, height)]
    }

    /** `sub` inside `consistency_proof`. */
    function SubProof(m: nat, lo: nat, hi: nat, complete: bool): seq<Digest>
      requires Valid() && IsSubtree(lo, hi, |leaves|) && 1 <= m <= hi - lo
      decreases hi - lo
    {
      if m == hi - lo then
        if complete then [] else [Node(lo, hi)]
      else
        hide Levels, HashLeaves, IsSubtree, BitLength, Pow2;
        ShiftSplits(lo, hi, |leaves|);
        var k := Pow2(BitLength(hi - lo - 1) - 1);
        if m <= k then SubProof(m, lo, lo + k, complete) + [Node(lo + k, hi)]
        else SubProof(m - k, lo + k, hi, false) + [Node(lo, lo + k)]
    }

    /** `SubProof` unrolled once, with the split point and the tree hashes it looks up. */
    lemma SubProofUnrolled(m: nat, lo: nat, hi: nat, complete: bool)
      requires Valid() && IsSubtree(lo, hi, |leaves|) && 1 <= m < hi - lo
      ensures var k := SplitPoint(hi - lo);
        && IsSubtree(lo, lo + k, |leaves|) && IsSubtree(lo + k, hi, |leaves|)
        && SubProof(m, lo, hi, complete) ==
           if m <= k then SubProof(m, lo, lo + k, complete) + [Mth(leaves[lo + k..hi])]
           else SubProof(m - k, lo + k, hi, false) + [Mth(leaves[lo..lo + k])]
    {
      hide Node, Mth, IsSubtree, BitLength, Pow2, SplitPoint;
      ShiftSplits(lo, hi, |leaves|);
    }

    lemma SubProofOfAll(lo: nat, hi: nat, complete: bool)
      requires Valid() && lo < hi <= |leaves| && IsSubtree(lo, hi, |leaves|)
      ensures SubProof(hi - lo, lo, hi, complete) == RfcSubProof(hi - lo, leaves[lo..hi], complete)
    {
      hide Node, Mth, IsSubtree;
    }

    /** The recursion over stored nodes gives SUBPROOF over the leaves of the range. */
    lemma {:induction false} SubProofIsRfc(m: nat, lo: nat, hi: nat, complete: bool)
      requires Valid() && lo < hi <= |leaves| && IsSubtree(lo, hi, |leaves|) && 1 <= m <= hi - lo
      ensures SubProof(m, lo, hi, complete) == RfcSubProof(m, leaves[lo..hi], complete)
      decreases hi - lo
    {
      hide *;
      if m == hi - lo {
        SubProofOfAll(lo, hi, complete);
      } else {
        SubProofUnrolled(m, lo, hi, complete);
        RfcSubProofOfRange(m, leaves, lo, hi, complete);
        var k := SplitPoint(hi - lo);
        if m <= k {
          SubProofIsRfc(m, lo, lo + k, complete);
        } else {
          SubProofIsRfc(m - k, lo + k, hi, false);
        }
      }
    }

    /** `consistency_proof` is PROOF(m, D) of section 2.1.2 of RFC 6962. */
    function ConsistencyProof(oldSize: int): (r: Result<seq<Digest>>)
      requires Valid()
      ensures r == if 1 <= oldSize <= |leaves| then Ok(RfcSubProof(oldSize, leaves, true)) else Err(ValueError)
    {
      if !(1 <= oldSize <= |leaves|) then Err(ValueError)
      else
        WholeIsSubtree(|leaves|);
        SubProofIsRfc(oldSize, 0, |leaves|, true);
        assert leaves[0..|leaves|] == leaves;
        Ok(SubProof(oldSize, 0, |leaves|, true))
    }

    /** `get_proof` */
    method GetProof(leafIndex: int) returns (r: Result<seq<ProofStep>>)
      requires Valid()
      ensures r == if 0 <= leafIndex < |leaves| then Ok(Path(HashLeaves(leaves), leafIndex)) else Err(IndexError)
    {
      if !(0 <= leafIndex < |leaves|) {
        return Err(IndexError);
      }
      hide Levels, HashLeaves, Path, Next, StepAt;
      ghost var nodes := HashLeaves(leaves);
      var proof: seq<ProofStep>, index: nat := [], leafIndex;
      for h := 0 to |levels| - 1
        invariant index < |levels[h]|
        invariant proof + Path(levels[h], index) == Path(nodes, leafIndex)
      {
        LevelsStep(nodes, h);
        proof := AddStep(proof, levels[h], index);
        index := index / 2;
      }
      NoPathAbove(levels[|levels| - 1]);
      assert proof + [] == proof;
      return Ok(proof);
    }

    /** `root_at`: the root this tree had when it held only its first `size` leaves. */
    method RootAt(size: int) returns (r: Result<Digest>)
      requires Valid()
      ensures r == if 1 <= size <= |leaves| then Ok(Mth(leaves[..size])) else Err(ValueError)
    {
      if !(1 <= size <= |leaves|) {
        return Err(ValueError);
      }
      hide *;
      NoRest(leaves, size);
      var carry: Option<Digest>, end: nat := None, size;
      while end > 0
        invariant end <= size
        invariant end > 0 ==> size - end < LowBit(end)
        invariant carry == RootOfRest(leaves, end, size)
      {
        carry, end := AddBlock(carry, end, size);
      }
      RestIsPrefix(leaves, size);
      return Ok(carry.value);
    }

    /** One round of it: the lowest block of the first `end` leaves is folded in. */
    method AddBlock(carry: Option<Digest>, end: nat, size: nat) returns (folded: Option<Digest>, start: nat)
      requires Valid() && 0 < end <= size <= |leaves| && size - end < LowBit(end)
      requires carry == RootOfRest(leaves, end, size)
      ensures start < end && (start > 0 ==> size - start < LowBit(start))
      ensures folded == RootOfRest(leaves, start, size)
    {
      hide *;
      PrefixStep(end, size, |leaves|);
      RestGrows(leaves, end, size);
      var block := AndMinus(end);
      var node := Node(end - block, end);
      folded := Some(if carry.None? then node else NodeHash(node, carry.value));
      start := end - block;
    }
  }

  /** The step from one node to the level above, after the steps so far. */
  method AddStep(proof: seq<ProofStep>, level: seq<Digest>, index: nat) returns (longer: seq<ProofStep>)
    requires index < |level|
    ensures longer + Path(Next(level), index / 2) == proof + Path(level, index)
  {
    hide Path, Next, StepAt;
    var isRightNode := index % 2 == 1;
    var siblingIndex := if isRightNode then index - 1 else index + 1;
    PathStepAfter(proof, level, index);
    longer := proof;
    if siblingIndex < |level| {
      longer := proof + [ProofStep(level[siblingIndex], isRightNode)];
    }
  }

  /** `MerkleTree(leaves)` */
  method NewTree(leaves: seq<Digest>) returns (r: Result<MerkleTree>)
    ensures leaves == [] ==> r == Err(ValueError)
    ensures leaves != [] ==> r.Ok? && r.value.Valid() && r.value.leaves == leaves
  {
    if leaves == [] {
      return Err(ValueError);
    }
    var levels := BuildLevels(leaves);
    return Ok(MerkleTree(leaves, levels));
  }

  lemma NoPathAbove(nodes: seq<Digest>)
    requires |nodes| == 1
    ensures Path(nodes, 0) == []
  {
  }

  lemma PathStepAfter(proof: seq<ProofStep>, level: seq<Digest>, i: nat)
    requires i < |level|
    ensures var isRight := i % 2 == 1; var sibling := if isRight then i - 1 else i + 1;
      proof + Path(level, i) ==
      (if sibling < |level| then proof + [ProofStep(level[sibling], isRight)] else proof) + Path(Next(level), i / 2)
  {
    hide Path, Next;
    PathStep(level, i);
    var step, rest := StepAt(level, i), Path(Next(level), i / 2);
    assert proof + (step + rest) == (proof + step) + rest;
    assert step == [] ==> proof + step == proof;
  }

  lemma SliceSplit<T>(s: seq<T>, lo: nat, hi: nat, k: nat)
    requires lo <= lo + k <= hi <= |s|
    ensures s[lo..hi][..k] == s[lo..lo + k] && s[lo..hi][k..] == s[lo + k..hi]
  {
  }

  /** Each stored level is the one above the level before it. */
  lemma {:induction false} LevelsStep(nodes: seq<Digest>, h: nat)
    requires nodes != [] && h + 1 < |Levels(nodes)|
    ensures Levels(nodes)[h + 1] == Next(Levels(nodes)[h])
    decreases h
  {
    if h > 0 { LevelsStep(Next(nodes), h - 1); }
  }

  lemma {:induction false} TopOfLevels(nodes: seq<Digest>)
    requires nodes != []
    ensures var levels := Levels(nodes); levels[|levels| - 1][0] == Root(nodes)
    decreases |nodes|
  {
    if |nodes| > 1 {
      RootNext(nodes);
      TopOfLevels(Next(nodes));
    }
  }

  lemma HashLeavesSlice(leaves: seq<Digest>, lo: nat, hi: nat)
    requires lo <= hi <= |leaves|
    ensures HashLeaves(leaves)[lo..hi] == HashLeaves(leaves[lo..hi])
  {
  }

  /** The ranges that are one node of a tree of n leaves: single leaves, and ranges that start at an even
      place, end at an even place or at the end, and are one node of the level above. */
  predicate IsSubtree(lo: nat, hi: nat, n: nat)
    decreases n
  {
    && lo < hi <= n
    && (hi - lo == 1 ||
        (lo % 2 == 0 && (hi % 2 == 0 || hi == n) && IsSubtree(lo / 2, (hi + 1) / 2, (n + 1) / 2)))
  }

  lemma {:induction false} NodeLookup(nodes: seq<Digest>, lo: nat, hi: nat)
    requires IsSubtree(lo, hi, |nodes|)
    ensures var height, levels := BitLength(hi - lo - 1), Levels(nodes);
      && height < |levels| && ShiftRight(lo, height) < |levels[height]|
      && levels[height][ShiftRight(lo, height)] == Root(nodes[lo..hi])
    decreases |nodes|
  {
    hide Root, Next;
    if hi - lo == 1 {
      NodeLookupSingle(nodes, lo);
    } else {
      NodeLookup(Next(nodes), lo / 2, (hi + 1) / 2);
      assert (hi + 1) / 2 - lo / 2 - 1 == (hi - lo - 1) / 2;
      RootOfRange(nodes, lo, hi);
    }
  }

  lemma NodeLookupSingle(nodes: seq<Digest>, lo: nat)
    requires lo < |nodes|
    ensures Levels(nodes)[0][lo] == Root(nodes[lo..lo + 1])
  {
    assert nodes[lo..lo + 1] == [nodes[lo]];
  }

  /** The root over a range is found over the matching range one level up. */
  lemma RootOfRange(nodes: seq<Digest>, lo: nat, hi: nat)
    requires lo < hi <= |nodes| && lo % 2 == 0 && (hi % 2 == 0 || hi == |nodes|)
    ensures Root(Next(nodes)[lo / 2..(hi + 1) / 2]) == Root(nodes[lo..hi])
  {
    hide Root;
    NextSlice(nodes, lo, hi);
    RootNext(nodes[lo..hi]);
  }

  lemma NextSlice(nodes: seq<Digest>, lo: nat, hi: nat)
    requires lo <= hi <= |nodes| && lo % 2 == 0 && (hi % 2 == 0 || hi == |nodes|)
    ensures Next(nodes)[lo / 2..(hi + 1) / 2] == Next(nodes[lo..hi])
  {
    var k, n := lo / 2, (hi + 1) / 2 - lo / 2;
    var part, above := nodes[lo..hi], Next(nodes);
    assert n == (|part| + 1) / 2;
    forall j | 0 <= j < n ensures above[k + j] == Next(part)[j] {
      assert 2 * (k + j) == lo + 2 * j && part[2 * j] == nodes[lo + 2 * j];
      assert 2 * j + 1 < |part| <==> lo + 2 * j + 1 < |nodes|;
      assert 2 * j + 1 < |part| ==> part[2 * j + 1] == nodes[lo + 2 * j + 1];
    }
  }

  lemma {:induction false} WholeIsSubtree(n: nat)
    requires n > 0
    ensures IsSubtree(0, n, n)
  {
    if n > 1 { WholeIsSubtree((n + 1) / 2); }
  }

  lemma SubtreeAbove(lo: nat, hi: nat, n: nat)
    requires lo < hi <= n && hi - lo >= 2
    ensures IsSubtree(lo, hi, n) <==>
            lo % 2 == 0 && (hi % 2 == 0 || hi == n) && IsSubtree(lo / 2, (hi + 1) / 2, (n + 1) / 2)
  {
  }

  lemma SubtreeSingle(i: nat, n: nat)
    requires i < n
    ensures IsSubtree(i, i + 1, n)
  {
  }

  lemma SubtreeBounds(lo: nat, hi: nat, n: nat)
    requires IsSubtree(lo, hi, n)
    ensures lo < hi <= n
  {
  }

  lemma EvenSum(a: nat, b: nat)
    ensures (2 * a + 2 * b) % 2 == 0 && (2 * a + 2 * b) / 2 == a + b && (2 * a + 2 * b + 1) / 2 == a + b
  {
  }

  /** A node splits at the split point of its size into two nodes. */
  lemma {:induction false} SubtreeSplit(lo: nat, hi: nat, n: nat)
    requires IsSubtree(lo, hi, n) && hi - lo >= 2
    ensures var k := SplitPoint(hi - lo); IsSubtree(lo, lo + k, n) && IsSubtree(lo + k, hi, n)
    decreases n
  {
    hide *;
    SubtreeBounds(lo, hi, n);
    SubtreeAbove(lo, hi, n);
    if hi - lo == 2 {
      SplitPointOfTwo();
      SubtreeSingle(lo, n);
      SubtreeSingle(lo + 1, n);
    } else {
      var c := SplitPoint((hi - lo + 1) / 2);
      SplitPointHalves(hi - lo);
      assert (hi + 1) / 2 - lo / 2 == (hi - lo + 1) / 2;
      SubtreeSplit(lo / 2, (hi + 1) / 2, (n + 1) / 2);
      EvenSum(lo / 2, c);
      SubtreeAbove(lo, lo + 2 * c, n);
      if hi - lo - 2 * c == 1 {
        SubtreeSingle(lo + 2 * c, n);
      } else {
        SubtreeAbove(lo + 2 * c, hi, n);
      }
    }
  }

  /** The split that `consistency_proof` computes by shifting. */
  lemma ShiftSplits(lo: nat, hi: nat, n: nat)
    requires IsSubtree(lo, hi, n) && hi - lo >= 2
    ensures BitLength(hi - lo - 1) >= 1
    ensures var k := Pow2(BitLength(hi - lo - 1) - 1);
      k == SplitPoint(hi - lo) < hi - lo <= n - lo && IsSubtree(lo, lo + k, n) && IsSubtree(lo + k, hi, n)
  {
    hide *;
    SubtreeBounds(lo, hi, n);
    SplitPointByShift(hi - lo);
    SubtreeSplit(lo, hi, n);
  }

  /** One step of `root_at`: what it looks up is a node, and the rest stays smaller than the next block. */
  lemma PrefixStep(end: nat, size: nat, n: nat)
    requires 0 < end <= size <= n && size - end < LowBit(end)
    ensures AndMinus(end) == LowBit(end) && IsSubtree(end - LowBit(end), end, n)
    ensures end - LowBit(end) > 0 ==> size - (end - LowBit(end)) < LowBit(end - LowBit(end))
  {
    hide *;
    AndMinusIsLowBit(end);
    BlockIsSubtree(end, n);
    LowBitDoubles(end);
  }

  /** The lowest block of a prefix is a node. */
  lemma {:induction false} BlockIsSubtree(end: nat, n: nat)
    requires 0 < end <= n
    ensures IsSubtree(end - LowBit(end), end, n)
  {
    if end % 2 == 0 { BlockIsSubtree(end / 2, (n + 1) / 2); }
  }

  /** The root of the leaves from `end` to `size`, None when there are none. */
  function RootOfRest(leaves: seq<Digest>, end: nat, size: nat): Option<Digest>
    requires end <= size <= |leaves|
  {
    if end == size then None else Some(Mth(leaves[end..size]))
  }

  lemma NoRest(leaves: seq<Digest>, size: nat)
    requires size <= |leaves|
    ensures RootOfRest(leaves, size, size) == None
  {
  }

  lemma RestIsPrefix(leaves: seq<Digest>, size: nat)
    requires 0 < size <= |leaves|
    ensures RootOfRest(leaves, 0, size) == Some(Mth(leaves[..size]))
  {
    assert leaves[0..size] == leaves[..size];
  }

  lemma RestGrows(leaves: seq<Digest>, end: nat, size: nat)
    requires 0 < end <= size <= |leaves| && size - end < LowBit(end)
    ensures var node, rest := Mth(leaves[end - LowBit(end)..end]), RootOfRest(leaves, end, size);
      RootOfRest(leaves, end - LowBit(end), size) == Some(if rest.None? then node else NodeHash(node, rest.value))
  {
    hide Mth, LowBit;
    if end < size { BlockJoins(leaves, end, size); }
  }

  /** A block and a smaller rest to its right are the two halves of one tree. */
  lemma BlockJoins(leaves: seq<Digest>, end: nat, size: nat)
    requires 0 < end < size <= |leaves| && size - end < LowBit(end)
    ensures var lo := end - LowBit(end);
      Mth(leaves[lo..size]) == NodeHash(Mth(leaves[lo..end]), Mth(leaves[end..size]))
  {
    hide Mth, SplitPoint;
    var lo, k := end - LowBit(end), LowBit(end);
    LowBitIsPowerOfTwo(end);
    SplitPointUnique(size - lo, k);
    SliceSplit(leaves, lo, size, k);
    MthNode(leaves[lo..size]);
  }

  /** SUBPROOF(m, D, b) of section 2.1.2 of RFC 6962. */
  function RfcSubProof(m: nat, leaves: seq<Digest>, complete: bool): seq<Digest>
    requires 1 <= m <= |leaves|
    decreases |leaves|
  {
    if m == |leaves| then
      if complete then [] else [Mth(leaves)]
    else
      var k := SplitPoint(|leaves|);
      if m <= k then RfcSubProof(m, leaves[..k], complete) + [Mth(leaves[k..])]
      else RfcSubProof(m - k, leaves[k..], false) + [Mth(leaves[..k])]
  }

  /** SUBPROOF over a range of a longer list, unrolled once. */
  lemma RfcSubProofOfRange(m: nat, leaves: seq<Digest>, lo: nat, hi: nat, complete: bool)
    requires 1 <= m < hi - lo && hi <= |leaves|
    ensures var k := SplitPoint(hi - lo);
      RfcSubProof(m, leaves[lo..hi], complete) ==
      if m <= k then RfcSubProof(m, leaves[lo..lo + k], complete) + [Mth(leaves[lo + k..hi])]
      else RfcSubProof(m - k, leaves[lo + k..hi], false) + [Mth(leaves[lo..lo + k])]
  {
    hide Mth;
    SliceSplit(leaves, lo, hi, SplitPoint(hi - lo));
  }
}
