/** `MerkleRootBuilder`: a binary counter with one pending subtree per set bit of the leaf count. */
module RootBuilders {
  import opened Wrappers
  import opened Bits
  import opened Merkle

  /** The complete pairs of a level, hashed; a lone last node is left out. */
  function Pairs(nodes: seq<Digest>): (up: seq<Digest>)
    ensures |up| == |nodes| / 2
  {
    seq(|nodes| / 2, j requires 0 <= j < |nodes| / 2 => NodeHash(nodes[2 * j], nodes[2 * j + 1]))
  }

  /** The pending nodes after adding `nodes`, lowest level first. */
  function Pending(nodes: seq<Digest>): seq<Option<Digest>>
    decreases |nodes|
  {
    if nodes == [] then []
    else [if |nodes| % 2 == 1 then Some(nodes[|nodes| - 1]) else None] + Pending(Pairs(nodes))
  }

  /** Carrying a node into the counter. */
  function Carry(pending: seq<Option<Digest>>, node: Digest): seq<Option<Digest>> {
    if pending == [] then [Some(node)]
    else if pending[0].None? then [Some(node)] + pending[1..]
    else [None] + Carry(pending[1..], NodeHash(pending[0].value, node))
  }

  /** The fold of `root`: from the smallest open subtree to the largest. */
  function FoldOpen(pending: seq<Option<Digest>>, carry: Option<Digest>): Option<Digest> {
    if pending == [] then carry else FoldOpen(pending[1..], Join(pending[0], carry))
  }

  function Join(left: Option<Digest>, carry: Option<Digest>): Option<Digest> {
    if left.None? then carry else if carry.None? then left else Some(NodeHash(left.value, carry.value))
  }

  lemma CarryStep(pending: seq<Option<Digest>>, level: nat, node: Digest)
    requires level < |pending| && pending[level].Some?
    ensures var cleared, up := pending[level := None], NodeHash(pending[level].value, node);
      cleared[..level + 1] + Carry(cleared[level + 1..], up) == pending[..level] + Carry(pending[level..], node)
  {
    var cleared := pending[level := None];
    assert cleared[..level + 1] == pending[..level] + [None];
    assert cleared[level + 1..] == pending[level..][1..];
  }

  lemma CarryStops(pending: seq<Option<Digest>>, level: nat, node: Digest)
    requires level <= |pending| && (level < |pending| ==> pending[level].None?)
    ensures var longer := if level == |pending| then pending + [None] else pending;
      pending[..level] + Carry(pending[level..], node) == longer[level := Some(node)]
  {
    if level < |pending| {
      assert pending[level..][1..] == pending[level + 1..];
    }
  }

  lemma PairsOfLonger(nodes: seq<Digest>, node: Digest)
    ensures |nodes| % 2 == 0 ==> Pairs(nodes + [node]) == Pairs(nodes)
    ensures |nodes| % 2 == 1 ==> Pairs(nodes + [node]) == Pairs(nodes) + [NodeHash(nodes[|nodes| - 1], node)]
  {
  }

  /** Adding a leaf is a carry. */
  lemma {:induction false} PendingCarries(nodes: seq<Digest>, node: Digest)
    ensures Pending(nodes + [node]) == Carry(Pending(nodes), node)
    decreases |nodes|
  {
    hide Pairs;
    PairsOfLonger(nodes, node);
    if |nodes| % 2 == 1 {
      PendingCarries(Pairs(nodes), NodeHash(nodes[|nodes| - 1], node));
    }
  }

  lemma NextOfLonger(nodes: seq<Digest>, node: Digest)
    ensures |nodes| % 2 == 0 ==> Next(nodes) == Pairs(nodes) && Next(nodes + [node]) == Pairs(nodes) + [node]
    ensures |nodes| % 2 == 1 ==> Next(nodes) == Pairs(nodes) + [nodes[|nodes| - 1]]
    ensures |nodes| % 2 == 1 ==> Next(nodes + [node]) == Pairs(nodes) + [NodeHash(nodes[|nodes| - 1], node)]
  {
  }

  /** Folding the open subtrees with a node to their right gives the root of the nodes and that node. */
  lemma {:induction false} FoldWithCarry(nodes: seq<Digest>, carry: Digest)
    ensures FoldOpen(Pending(nodes), Some(carry)) == Some(Root(nodes + [carry]))
    decreases |nodes|
  {
    hide Pairs, Next, Root;
    if nodes == [] {
      RootOfOne(carry);
      assert [] + [carry] == [carry];
    } else {
      NextOfLonger(nodes, carry);
      RootNext(nodes + [carry]);
      FoldWithCarry(Pairs(nodes), if |nodes| % 2 == 1 then NodeHash(nodes[|nodes| - 1], carry) else carry);
    }
  }

  lemma RootOfOne(node: Digest)
    ensures Root([node]) == node
  {
  }

  /** Folding the open subtrees gives the root. */
  lemma {:induction false} FoldIsRoot(nodes: seq<Digest>)
    requires nodes != []
    ensures FoldOpen(Pending(nodes), None) == Some(Root(nodes))
    decreases |nodes|
  {
    hide Pairs, Next, Root;
    NextOfLonger(nodes, nodes[0]);
    RootNext(nodes);
    if |nodes| % 2 == 1 {
      FoldWithCarry(Pairs(nodes), nodes[|nodes| - 1]);
    } else {
      FoldIsRoot(Pairs(nodes));
    }
  }

  /** The number of set bits. */
  function BitCount(n: nat): nat {
    if n == 0 then 0 else n % 2 + BitCount(n / 2)
  }

  function OpenCount(pending: seq<Option<Digest>>): nat {
    if pending == [] then 0 else (if pending[0].Some? then 1 else 0) + OpenCount(pending[1..])
  }

  /** Memory: as many levels as the count has bits, and one open subtree per set bit. */
  lemma {:induction false} PendingIsSmall(nodes: seq<Digest>)
    ensures |Pending(nodes)| == BitLength(|nodes|) && OpenCount(Pending(nodes)) == BitCount(|nodes|)
    decreases |nodes|
  {
    hide Pairs;
    if nodes != [] { PendingIsSmall(Pairs(nodes)); }
  }

  class MerkleRootBuilder {
    ghost var leaves: seq<Digest>
    var pending: seq<Option<Digest>>
    var count: nat

    ghost predicate Valid()
      reads this
    {
      count == |leaves| && pending == Pending(HashLeaves(leaves))
    }

    constructor ()
      ensures Valid() && leaves == []
    {
      leaves, pending, count := [], [], 0;
    }

    method Add(leaf: Digest)
      requires Valid()
      modifies this
      ensures Valid() && leaves == old(leaves) + [leaf] && count == old(count) + 1
    {
      hide Pending, Carry;
      PendingCarries(HashLeaves(leaves), LeafHash(leaf));
      assert HashLeaves(leaves + [leaf]) == HashLeaves(leaves) + [LeafHash(leaf)];
      count := count + 1;
      CarryIn(LeafHash(leaf));
      leaves := leaves + [leaf];
    }

    /** The loop of `add`: a carry chain through the occupied levels. */
    method CarryIn(leafNode: Digest)
      modifies this`pending
      ensures pending == Carry(old(pending), leafNode)
    {
      var node, level := leafNode, 0;
      while level < |pending| && pending[level].Some?
        invariant level <= |pending|
        invariant pending[..level] + Carry(pending[level..], node) == Carry(old(pending), leafNode)
        decreases |pending| - level
      {
        CarryStep(pending, level, node);
        node := NodeHash(pending[level].value, node);
        pending := pending[level := None];
        level := level + 1;
      }
      CarryStops(pending, level, node);
      if level == |pending| {
        pending := pending + [None];
      }
      pending := pending[level := Some(node)];
    }

    method RootValue() returns (r: Result<Digest>)
      requires Valid()
      ensures r == if leaves == [] then Err(ValueError) else Ok(Mth(leaves))
    {
      if count == 0 {
        return Err(ValueError);
      }
      FoldIsRoot(HashLeaves(leaves));
      MthIsRoot(leaves);
      var carry: Option<Digest> := None;
      for i := 0 to |pending|
        invariant FoldOpen(pending[i..], carry) == Some(Mth(leaves))
      {
        var left := pending[i];
        assert pending[i..][0] == left && pending[i..][1..] == pending[i + 1..];
        if left.Some? {
          carry := Some(if carry.None? then left.value else NodeHash(left.value, carry.value));
        }
      }
      return Ok(carry.value);
    }
  }
}
