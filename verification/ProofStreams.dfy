/** `merkle_proof_stream`: one pass over (key, leaf) pairs that holds a single level. */
module ProofStreams {
  import opened Wrappers
  import opened Texts
  import opened Merkle
  import opened Inclusion
  import opened MerkleTrees
  import opened RootBuilders

  datatype Item = Item(key: Text, leaf: Digest)

  datatype StreamedProof = StreamedProof(index: nat, leaf: Digest, proof: seq<ProofStep>, root: Digest)

  function Leaves(items: seq<Item>): (leaves: seq<Digest>)
    ensures |leaves| == |items|
    ensures forall i :: 0 <= i < |items| ==> leaves[i] == items[i].leaf
  {
    seq(|items|, i requires 0 <= i < |items| => items[i].leaf)
  }

  /** The place of the first item with this key, None when there is none. */
  function FirstWithKey(items: seq<Item>, key: Text): (index: Option<nat>)
    ensures index.Some? ==> index.value < |items| && items[index.value].key == key
    ensures index.Some? ==> forall i :: 0 <= i < index.value ==> items[i].key != key
    ensures index.None? ==> forall i :: 0 <= i < |items| ==> items[i].key != key
  {
    if items == [] then None
    else if items[0].key == key then Some(0)
    else
      match FirstWithKey(items[1..], key)
      case None => None
      case Some(i) =>
        assert forall j :: 0 < j < i + 1 ==> items[j] == items[1..][j - 1];
        Some(i + 1)
  }

  /** What the stream returns, by building the whole tree. */
  function ByTree(items: seq<Item>, key: Text): Result<StreamedProof> {
    if items == [] then Err(ValueError)
    else
      match FirstWithKey(items, key)
      case None => Err(KeyError)
      case Some(index) =>
        var leaves := Leaves(items);
        Ok(StreamedProof(index, leaves[index], Path(HashLeaves(leaves), index), Mth(leaves)))
  }

  /** What that is, without the search: the empty stream and the missing key are refused in this order, and otherwise it
      is the first pair with the key, its sibling path and the root over all leaves. */
  lemma ByTreeExactly(items: seq<Item>, key: Text)
    ensures var r := ByTree(items, key);
      && (r == Err(ValueError) <==> items == [])
      && (r == Err(KeyError) <==> items != [] && forall i :: 0 <= i < |items| ==> items[i].key != key)
    ensures forall i :: 0 <= i < |items| && items[i].key == key && (forall j :: 0 <= j < i ==> items[j].key != key) ==>
      var leaves := Leaves(items);
      ByTree(items, key) == Ok(StreamedProof(i, items[i].leaf, Path(HashLeaves(leaves), i), Mth(leaves)))
  {
    hide Path, Mth, HashLeaves, FirstWithKey;
  }

  /** What the first pass remembers after reading some items: the target's place, its hashed sibling, and
      whether the next leaf will be that sibling. */
  ghost predicate Remembers(items: seq<Item>, key: Text, index: Option<nat>, leaf: Option<Digest>,
                            sibling: Option<Digest>, wantNext: bool)
  {
    && index == FirstWithKey(items, key)
    && (index.None? ==> leaf == None && sibling == None && !wantNext)
    && (index.Some? ==>
          && leaf == Some(items[index.value].leaf)
          && wantNext == (index.value % 2 == 0 && index.value + 1 == |items|)
          && sibling == if index.value % 2 == 1 then Some(LeafHash(items[index.value - 1].leaf))
                        else if index.value + 1 < |items| then Some(LeafHash(items[index.value + 1].leaf))
                        else None)
  }

  lemma {:induction false} FirstWithKeyOfLonger(items: seq<Item>, item: Item, key: Text)
    ensures FirstWithKey(items + [item], key) ==
            if FirstWithKey(items, key).Some? then FirstWithKey(items, key)
            else if item.key == key then Some(|items|) else None
  {
    if items != [] {
      assert (items + [item])[1..] == items[1..] + [item];
      FirstWithKeyOfLonger(items[1..], item, key);
    }
  }

  lemma LeavesOfLonger(items: seq<Item>, item: Item)
    ensures HashLeaves(Leaves(items + [item])) == HashLeaves(Leaves(items)) + [LeafHash(item.leaf)]
  {
  }

  /** Reading one more item: a first match notes its left neighbour if it is a right leaf, and otherwise
      waits for its right one. */
  lemma RemembersStep(items: seq<Item>, item: Item, key: Text, index: Option<nat>, leaf: Option<Digest>,
                      sibling: Option<Digest>, wantNext: bool, previous: Option<Digest>)
    requires Remembers(items, key, index, leaf, sibling, wantNext)
    requires |items| % 2 == 1 ==> previous == Some(LeafHash(items[|items| - 1].leaf))
    ensures var n, raw := |items|, LeafHash(item.leaf);
      if index.None? && item.key == key then
        Remembers(items + [item], key, Some(n), Some(item.leaf), if n % 2 == 1 then previous else None, n % 2 == 0)
      else if wantNext then Remembers(items + [item], key, index, leaf, Some(raw), false)
      else Remembers(items + [item], key, index, leaf, sibling, false)
  {
    hide FirstWithKey, Leaves;
    FirstWithKeyOfLonger(items, item, key);
  }

  /** The nodes of level 1 read so far, and the left leaf of a pair that is still open. */
  method ReadItems(items: seq<Item>, key: Text)
    returns (level: seq<Digest>, previous: Option<Digest>, index: Option<nat>, leaf: Option<Digest>,
             sibling: Option<Digest>, ghost wantNext: bool)
    ensures level == Pairs(HashLeaves(Leaves(items)))
    ensures |items| % 2 == 1 ==> previous == Some(LeafHash(items[|items| - 1].leaf))
    ensures Remembers(items, key, index, leaf, sibling, wantNext)
  {
    hide FirstWithKey, Leaves, HashLeaves, Pairs, Remembers;
    NothingRead(key);
    level, previous, index, leaf, sibling := [], None, None, None, None;
    var waiting := false;
    assert items[..0] == [];
    for n := 0 to |items|
      invariant level == Pairs(HashLeaves(Leaves(items[..n])))
      invariant n % 2 == 1 ==> previous == Some(LeafHash(items[..n][n - 1].leaf))
      invariant Remembers(items[..n], key, index, leaf, sibling, waiting)
    {
      var item := items[n];
      assert items[..n + 1] == items[..n] + [item];
      RemembersStep(items[..n], item, key, index, leaf, sibling, waiting, previous);
      PairsStep(items[..n], item);
      var raw := LeafHash(item.leaf);
      if index.None? && item.key == key {
        index, leaf := Some(n), Some(item.leaf);
        if n % 2 == 1 {
          sibling, waiting := previous, false;
        } else {
          sibling, waiting := None, true;
        }
      } else if waiting {
        sibling, waiting := Some(raw), false;
      }
      if n % 2 == 1 {
        level := level + [NodeHash(previous.value, raw)];
      } else {
        previous := Some(raw);
      }
    }
    assert items[..|items|] == items;
    wantNext := waiting;
  }

  lemma NothingRead(key: Text)
    ensures Remembers([], key, None, None, None, false)
    ensures Pairs(HashLeaves(Leaves([]))) == []
  {
  }

  lemma PairsStep(items: seq<Item>, item: Item)
    ensures var pairs := Pairs(HashLeaves(Leaves(items)));
      Pairs(HashLeaves(Leaves(items + [item]))) ==
      if |items| % 2 == 0 then pairs
      else pairs + [NodeHash(LeafHash(items[|items| - 1].leaf), LeafHash(item.leaf))]
  {
    LeavesOfLonger(items, item);
    PairsOfLonger(HashLeaves(Leaves(items)), LeafHash(item.leaf));
  }

  /** The second phase: from the level above the leaves up to the root. */
  method ClimbLevels(start: seq<Digest>, at: nat, below: seq<ProofStep>)
    returns (proof: seq<ProofStep>, root: Digest)
    requires at < |start|
    ensures proof == below + Path(start, at) && root == Root(start)
  {
    hide Path, Root, Next;
    var level, position: nat := start, at;
    proof := below;
    while |level| > 1
      invariant position < |level|
      invariant proof + Path(level, position) == below + Path(start, at)
      invariant Root(level) == Root(start)
      decreases |level|
    {
      PathStepAfter(proof, level, position);
      RootNext(level);
      var isRight := position % 2 == 1;
      var siblingAt := if isRight then position - 1 else position + 1;
      if siblingAt < |level| {
        proof := proof + [ProofStep(level[siblingAt], isRight)];
      }
      level := NextLevel(level);
      position := position / 2;
    }
    NoPathAbove(level);
    assert level == [level[0]] && proof + [] == proof;
    RootOfOne(level[0]);
    root := level[0];
  }

  /** `merkle_proof_stream` gives exactly what building the whole tree gives. */
  method MerkleProofStream(items: seq<Item>, key: Text) returns (r: Result<StreamedProof>)
    ensures r == ByTree(items, key)
  {
    hide Path, Root, Next, Mth, Pairs, HashLeaves;
    var level, previous, index, leaf, sibling, _ := ReadItems(items, key);
    if |items| == 0 {
      return Err(ValueError);
    }
    if index.None? {
      return Err(KeyError);
    }
    ghost var nodes := HashLeaves(Leaves(items));
    if |items| % 2 == 1 {
      level := level + [previous.value];
    }
    NextOfLonger(nodes, nodes[0]);
    assert level == Next(nodes);
    MthIsRoot(Leaves(items));
    RootNext(nodes);
    if |items| == 1 {
      NoPathAbove(nodes);
      RootOfOne(level[0]);
      assert level == [level[0]];
      return Ok(StreamedProof(0, leaf.value, [], level[0]));
    }
    var proof := [];
    if sibling.Some? {
      proof := [ProofStep(sibling.value, index.value % 2 == 1)];
    }
    PathStep(nodes, index.value);
    assert proof == StepAt(nodes, index.value);
    var root;
    proof, root := ClimbLevels(level, index.value / 2, proof);
    return Ok(StreamedProof(index.value, leaf.value, proof, root));
  }
}
