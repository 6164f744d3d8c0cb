/** Digests and the Merkle tree hash of section 2.1 of RFC 6962. */
module Merkle {
  import opened Bits
  import opened Texts

  /** A SHA-256 value. The two tree hashes are free constructors, so the prefixes that keep leaves and
      nodes apart, and the absence of collisions, hold by construction. */
  datatype Digest =
    | Raw(hex: Text)
    | LeafHash(digest: Digest)
    | NodeHash(left: Digest, right: Digest)

  lemma MthNode(leaves: seq<Digest>)
    requires |leaves| >= 2
    ensures Mth(leaves) == NodeHash(Mth(leaves[..SplitPoint(|leaves|)]), Mth(leaves[SplitPoint(|leaves|)..]))
  {
  }

  function HashLeaves(leaves: seq<Digest>): (nodes: seq<Digest>)
    ensures |nodes| == |leaves|
    ensures forall i :: 0 <= i < |leaves| ==> nodes[i] == LeafHash(leaves[i])
  {
    seq(|leaves|, i requires 0 <= i < |leaves| => LeafHash(leaves[i]))
  }

  /** MTH(D) of section 2.1 of RFC 6962. */
  function Mth(leaves: seq<Digest>): Digest
    requires leaves != []
    decreases |leaves|
  {
    if |leaves| == 1 then LeafHash(leaves[0])
    else
      var k := SplitPoint(|leaves|);
      NodeHash(Mth(leaves[..k]), Mth(leaves[k..]))
  }

  /** The same tree over nodes that are already hashed. */
  function Root(nodes: seq<Digest>): Digest
    requires nodes != []
    decreases |nodes|
  {
    if |nodes| == 1 then nodes[0]
    else
      var k := SplitPoint(|nodes|);
      NodeHash(Root(nodes[..k]), Root(nodes[k..]))
  }

  /** The level above `nodes`: neighbours are paired, and a lone last node moves up as it is. */
  function Next(nodes: seq<Digest>): (up: seq<Digest>)
    ensures |up| == (|nodes| + 1) / 2
  {
    seq((|nodes| + 1) / 2, j requires 0 <= j < (|nodes| + 1) / 2 =>
      if 2 * j + 1 < |nodes| then NodeHash(nodes[2 * j], nodes[2 * j + 1]) else nodes[2 * j])
  }

  lemma HashLeavesSplit(leaves: seq<Digest>, k: nat)
    requires k <= |leaves|
    ensures HashLeaves(leaves)[..k] == HashLeaves(leaves[..k])
    ensures HashLeaves(leaves)[k..] == HashLeaves(leaves[k..])
  {
  }

  lemma {:induction false} MthIsRoot(leaves: seq<Digest>)
    requires leaves != []
    ensures Mth(leaves) == Root(HashLeaves(leaves))
    decreases |leaves|
  {
    if |leaves| > 1 {
      var k := SplitPoint(|leaves|);
      MthIsRoot(leaves[..k]);
      MthIsRoot(leaves[k..]);
      HashLeavesSplit(leaves, k);
    }
  }

  /** The two subtrees of a tree of more than one leaf, as tree hashes and as roots of nodes. */
  lemma {:induction false} MthHalves(leaves: seq<Digest>)
    requires |leaves| >= 2
    ensures var k, nodes := SplitPoint(|leaves|), HashLeaves(leaves);
      && Mth(leaves) == NodeHash(Mth(leaves[..k]), Mth(leaves[k..]))
      && nodes[..k] == HashLeaves(leaves[..k]) && nodes[k..] == HashLeaves(leaves[k..])
      && Mth(leaves[..k]) == Root(nodes[..k]) && Mth(leaves[k..]) == Root(nodes[k..])
  {
    hide Root;
    var k := SplitPoint(|leaves|);
    HashLeavesSplit(leaves, k);
    MthIsRoot(leaves[..k]);
    MthIsRoot(leaves[k..]);
  }

  /** A level cut at an even place goes up as two levels. */
  lemma NextSplit(nodes: seq<Digest>, k: nat)
    requires k <= |nodes| && k % 2 == 0
    ensures Next(nodes)[..k / 2] == Next(nodes[..k])
    ensures Next(nodes)[k / 2..] == Next(nodes[k..])
  {
  }

  lemma RootFromHalves(nodes: seq<Digest>, k: nat, left: Digest, right: Digest)
    requires |nodes| >= 2 && k == SplitPoint(|nodes|)
    requires left == Root(nodes[..k]) && right == Root(nodes[k..])
    ensures Root(nodes) == NodeHash(left, right)
  {
  }

  /** Moving up one level keeps the root. */
  lemma {:induction false} RootNext(nodes: seq<Digest>)
    requires nodes != []
    ensures Root(Next(nodes)) == Root(nodes)
    decreases |nodes|
  {
    hide Root;
    if |nodes| <= 2 {
      RootNextOfSmall(nodes);
    } else {
      var k := SplitPoint(|nodes|);
      RootNext(nodes[..k]);
      RootNext(nodes[k..]);
      NextSplit(nodes, k);
      RootFromHalves(nodes, k, Root(nodes[..k]), Root(nodes[k..]));
      RootFromHalves(Next(nodes), k / 2, Root(nodes[..k]), Root(nodes[k..]));
    }
  }

  lemma RootNextOfSmall(nodes: seq<Digest>)
    requires 1 <= |nodes| <= 2
    ensures Root(Next(nodes)) == Root(nodes)
  {
    if |nodes| == 2 {
      assert nodes[..1] == [nodes[0]] && nodes[1..] == [nodes[1]];
    }
  }

  /** A root determines the whole list of leaves, and with it the size of the tree. */
  lemma {:induction false} MthInjective(a: seq<Digest>, b: seq<Digest>)
    requires a != [] && b != [] && Mth(a) == Mth(b)
    ensures a == b
    decreases |a|
  {
    if |a| == 1 || |b| == 1 {
      assert a == [a[0]] && b == [b[0]];
    } else {
      var k, m := SplitPoint(|a|), SplitPoint(|b|);
      MthInjective(a[..k], b[..m]);
      MthInjective(a[k..], b[m..]);
      assert a == a[..k] + a[k..] && b == b[..m] + b[m..];
    }
  }
}
