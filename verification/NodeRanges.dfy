/** Which ranges `_node` may be asked for. */
module NodeRanges {
  import opened Bits
  import opened Merkle
  import opened MerkleTrees

  lemma HalvesOfRange(lo: nat, hi: nat)
    requires hi - lo >= 2 && lo % 2 == 0
    ensures BitLength(hi - lo - 1) == 1 + BitLength((hi + 1) / 2 - lo / 2 - 1)
  {
    assert (hi + 1) / 2 - lo / 2 - 1 == (hi - lo - 1) / 2;
  }

  lemma DividesTwice(lo: nat, p: nat)
    requires p > 0
    ensures lo % (2 * p) == 0 <==> lo % 2 == 0 && lo / 2 % p == 0
  {
    var half, q, r := lo / 2, lo / 2 / p, lo / 2 % p;
    assert half == p * q + r;
    TwiceProduct(p, q);
    Remainder(lo, 2 * p, q, 2 * r + lo % 2);
  }

  lemma TwiceProduct(p: nat, q: nat)
    ensures 2 * p * q == 2 * (p * q)
  {
  }

  lemma Remainder(x: nat, m: nat, q: nat, r: nat)
    requires m > 0 && x == m * q + r && r < m
    ensures x % m == r && x / m == q
  {
    var d := x / m - q;
    assert x == m * (x / m) + x % m;
    Distributes(m, x / m, q);
    assert m * d == r - x % m;
    SmallMultiple(m, d);
  }

  lemma Distributes(m: int, a: int, b: int)
    ensures m * (a - b) == m * a - m * b
  {
  }

  lemma SmallMultiple(m: int, d: int)
    requires m > 0 && -m < m * d < m
    ensures d == 0
  {
    if d > 0 {
      AtLeast(m, d);
    } else if d < 0 {
      AtLeast(m, -d);
      Distributes(m, 0, -d);
    }
  }

  lemma {:induction false} AtLeast(m: int, d: int)
    requires m > 0 && d > 0
    ensures m * d >= m
    decreases d
  {
    if d > 1 {
      AtLeast(m, d - 1);
      Distributes(m, d, 1);
    }
  }

  /** The nodes of a tree of n leaves are the ranges that start at a multiple of the block size their length calls for,
      and fill that block or end at the last leaf. */
  lemma {:induction false} SubtreesAreAligned(lo: nat, hi: nat, n: nat)
    requires lo < hi <= n
    ensures var block := Pow2(BitLength(hi - lo - 1));
      IsSubtree(lo, hi, n) <==> lo % block == 0 && (hi == lo + block || hi == n)
    decreases n
  {
    hide BitLength, IsSubtree, Pow2;
    if hi - lo == 1 {
      SingleIsAligned(lo, n);
    } else {
      SubtreeAbove(lo, hi, n);
      var e := BitLength(hi - lo - 1);
      NotEmpty(hi - lo - 1);
      DoubledPower(e);
      var p := Pow2(e - 1);
      DividesTwice(lo, p);
      if lo % 2 == 0 {
        HalvesOfRange(lo, hi);
        SubtreesAreAligned(lo / 2, (hi + 1) / 2, (n + 1) / 2);
        EndsHalve(lo, hi, n, p);
      }
    }
  }

  lemma EndsHalve(lo: nat, hi: nat, n: nat, p: nat)
    requires lo % 2 == 0 && hi <= n
    ensures hi == lo + 2 * p || hi == n <==>
            (hi % 2 == 0 || hi == n) && ((hi + 1) / 2 == lo / 2 + p || (hi + 1) / 2 == (n + 1) / 2)
  {
  }

  lemma NotEmpty(x: nat)
    requires x > 0
    ensures BitLength(x) > 0
  {
  }

  lemma SingleIsAligned(lo: nat, n: nat)
    requires lo < n
    ensures Pow2(BitLength(0)) == 1 && IsSubtree(lo, lo + 1, n)
  {
  }

  /** Ending at the last leaf is not enough: over the last two of three different leaves the lookup finds the node over
      the first two. */
  lemma LastTwoOfThree(a: Digest, b: Digest, c: Digest)
    requires a != b
    ensures var leaves := [a, b, c]; var levels := Levels(HashLeaves(leaves));
      var height := BitLength(3 - 1 - 1);
      && height < |levels| && ShiftRight(1, height) < |levels[height]|
      && levels[height][ShiftRight(1, height)] == Mth(leaves[0..2]) != Mth(leaves[1..3])
  {
    var leaves := [a, b, c];
    assert IsSubtree(0, 2, 3) by { assert IsSubtree(0, 1, 2); }
    NodeLookup(HashLeaves(leaves), 0, 2);
    HashLeavesSlice(leaves, 0, 2);
    MthIsRoot(leaves[0..2]);
    assert BitLength(1) == 1 && ShiftRight(1, 1) == ShiftRight(0, 1) == 0;
    assert leaves[0..2][0] != leaves[1..3][0];
    if Mth(leaves[0..2]) == Mth(leaves[1..3]) {
      MthInjective(leaves[0..2], leaves[1..3]);
    }
  }

  // ----- on leaves that are all different, the lookup is right for no other range

  lemma QuotientOfHalf(x: nat, p: nat)
    requires p > 0
    ensures x / 2 / p == x / (2 * p)
  {
    var q, r := x / 2 / p, x / 2 % p;
    assert x / 2 == p * q + r;
    TwiceProduct(p, q);
    Remainder(x, 2 * p, q, 2 * r + x % 2);
  }

  lemma {:induction false} ShiftDivides(x: nat, b: nat)
    ensures ShiftRight(x, b) == x / Pow2(b)
    decreases b
  {
    if b > 0 {
      ShiftDivides(x / 2, b - 1);
      QuotientOfHalf(x, Pow2(b - 1));
    }
  }

  /** The place after the block of a node. */
  function BlockEnd(j: nat, h: nat, n: nat): nat {
    if (j + 1) * Pow2(h) < n then (j + 1) * Pow2(h) else n
  }

  /** Every stored node is the root over its block, cut at the last leaf. */
  lemma {:induction false} StoredNode(nodes: seq<Digest>, h: nat, j: nat)
    requires nodes != [] && h < |Levels(nodes)| && j < |Levels(nodes)[h]|
    ensures j * Pow2(h) < BlockEnd(j, h, |nodes|) <= |nodes|
    ensures Levels(nodes)[h][j] == Root(nodes[j * Pow2(h)..BlockEnd(j, h, |nodes|)])
    decreases h
  {
    hide Root, Next, Levels, BlockEnd, Pow2;
    if h == 0 {
      BottomBlock(nodes, j);
    } else {
      LevelAbove(nodes, h);
      StoredNode(Next(nodes), h - 1, j);
      BlockHalves(j, h, |nodes|);
      RootOfRange(nodes, j * Pow2(h), BlockEnd(j, h, |nodes|));
    }
  }

  lemma LevelAbove(nodes: seq<Digest>, h: nat)
    requires nodes != [] && 0 < h < |Levels(nodes)|
    ensures Next(nodes) != [] && h - 1 < |Levels(Next(nodes))| && Levels(nodes)[h] == Levels(Next(nodes))[h - 1]
  {
  }

  lemma BottomLevel(nodes: seq<Digest>, j: nat)
    requires nodes != []
    ensures j * Pow2(0) == j && Levels(nodes)[0] == nodes
  {
  }

  lemma BottomBlock(nodes: seq<Digest>, j: nat)
    requires j < |nodes|
    ensures Pow2(0) == 1 && BlockEnd(j, 0, |nodes|) == j + 1
    ensures Levels(nodes)[0][j] == Root(nodes[j..j + 1])
  {
    NodeLookupSingle(nodes, j);
  }

  lemma BlockHalves(j: nat, h: nat, n: nat)
    requires h > 0 && j * Pow2(h - 1) < BlockEnd(j, h - 1, (n + 1) / 2) <= (n + 1) / 2
    ensures var lo, hi := j * Pow2(h), BlockEnd(j, h, n);
      && lo < hi <= n && lo % 2 == 0 && lo / 2 == j * Pow2(h - 1)
      && (hi % 2 == 0 || hi == n) && (hi + 1) / 2 == BlockEnd(j, h - 1, (n + 1) / 2)
  {
    hide Pow2;
    DoubledBlock(j, h);
    DoubledBlock(j + 1, h);
    EvenBlock(j * Pow2(h - 1), (j + 1) * Pow2(h - 1), n);
  }

  lemma DoubledBlock(j: nat, h: nat)
    requires h > 0
    ensures j * Pow2(h) == 2 * (j * Pow2(h - 1))
  {
    hide Pow2;
    DoubledPower(h);
    DoubledProduct(j, Pow2(h - 1));
  }

  lemma DoubledProduct(j: nat, p: nat)
    ensures j * (2 * p) == 2 * (j * p)
  {
  }

  lemma DoubledPower(h: nat)
    requires h > 0
    ensures Pow2(h) == 2 * Pow2(h - 1)
  {
  }

  lemma EvenBlock(a: nat, b: nat, n: nat)
    requires var above := if b < (n + 1) / 2 then b else (n + 1) / 2; a < above
    ensures var hi := if 2 * b < n then 2 * b else n;
      && 2 * a < hi && (2 * a) % 2 == 0 && (2 * a) / 2 == a && (hi % 2 == 0 || hi == n)
      && (hi + 1) / 2 == if b < (n + 1) / 2 then b else (n + 1) / 2
  {
  }

  lemma {:induction false} LevelCount(nodes: seq<Digest>)
    requires nodes != []
    ensures |Levels(nodes)| == BitLength(|nodes| - 1) + 1
    decreases |nodes|
  {
    if |nodes| > 1 {
      LevelCount(Next(nodes));
      assert (|nodes| + 1) / 2 - 1 == (|nodes| - 1) / 2;
    }
  }

  lemma {:induction false} BitLengthGrows(x: nat, y: nat)
    requires x <= y
    ensures BitLength(x) <= BitLength(y)
  {
    if x > 0 { BitLengthGrows(x / 2, y / 2); }
  }

  lemma {:induction false} BelowPower(x: nat)
    ensures x < Pow2(BitLength(x))
  {
    if x > 0 { BelowPower(x / 2); }
  }

  lemma {:induction false} LevelLength(nodes: seq<Digest>, h: nat, j: nat)
    requires nodes != [] && h < |Levels(nodes)| && j * Pow2(h) < |nodes|
    ensures j < |Levels(nodes)[h]|
    decreases h
  {
    hide Pow2, Next;
    if h > 0 {
      DoubledBlock(j, h);
      LevelAbove(nodes, h);
      LevelLength(Next(nodes), h - 1, j);
    } else {
      BottomLevel(nodes, j);
    }
  }

  ghost predicate AllDifferent(leaves: seq<Digest>) {
    forall i, j :: 0 <= i < j < |leaves| ==> leaves[i] != leaves[j]
  }

  lemma SameRange(leaves: seq<Digest>, lo: nat, hi: nat, from: nat, to: nat)
    requires AllDifferent(leaves) && lo < hi <= |leaves| && from < to <= |leaves|
    ensures Mth(leaves[lo..hi]) == Mth(leaves[from..to]) <==> lo == from && hi == to
  {
    hide Mth;
    if Mth(leaves[lo..hi]) == Mth(leaves[from..to]) {
      MthInjective(leaves[lo..hi], leaves[from..to]);
      assert leaves[lo] == leaves[lo..hi][0] == leaves[from..to][0] == leaves[from];
      assert |leaves[lo..hi]| == |leaves[from..to]|;
    }
  }

  /** What `_node` looks up for any range. */
  lemma LookedUp(leaves: seq<Digest>, lo: nat, hi: nat)
    requires lo < hi <= |leaves|
    ensures var height, levels := BitLength(hi - lo - 1), Levels(HashLeaves(leaves)); var j := ShiftRight(lo, height);
      && height < |levels| && j < |levels[height]|
      && j * Pow2(height) < BlockEnd(j, height, |leaves|) <= |leaves|
      && levels[height][j] == Mth(leaves[j * Pow2(height)..BlockEnd(j, height, |leaves|)])
  {
    hide Mth, Root, Levels, BitLength, ShiftRight, BlockEnd;
    var nodes, h := HashLeaves(leaves), BitLength(hi - lo - 1);
    LevelCount(nodes);
    BitLengthGrows(hi - lo - 1, |leaves| - 1);
    ShiftDivides(lo, h);
    var j := ShiftRight(lo, h);
    BlockStart(lo, j, Pow2(h));
    LevelLength(nodes, h, j);
    StoredNode(nodes, h, j);
    var from, to := j * Pow2(h), BlockEnd(j, h, |leaves|);
    HashLeavesSlice(leaves, from, to);
    MthIsRoot(leaves[from..to]);
  }

  lemma BlockStart(lo: nat, j: nat, block: nat)
    requires block > 0 && j == lo / block
    ensures j * block <= lo && (j * block == lo <==> lo % block == 0) && (j + 1) * block == j * block + block
  {
    assert lo == block * j + lo % block;
  }

  /** The block is the range exactly if the range is aligned. */
  lemma BlockIsRange(lo: nat, hi: nat, n: nat)
    requires lo < hi <= n
    ensures var h := BitLength(hi - lo - 1); var j := ShiftRight(lo, h);
      j * Pow2(h) == lo && BlockEnd(j, h, n) == hi <==> IsSubtree(lo, hi, n)
  {
    hide BitLength, ShiftRight, IsSubtree;
    var h := BitLength(hi - lo - 1);
    ShiftDivides(lo, h);
    BlockStart(lo, ShiftRight(lo, h), Pow2(h));
    SubtreesAreAligned(lo, hi, n);
    BelowPower(hi - lo - 1);
  }

  /** `_node` for any range of leaves that are all different: it never fails, and it finds the node over the range
      exactly if the range is a node of the tree. */
  lemma {:induction false} NodeIsRightExactly(leaves: seq<Digest>, lo: nat, hi: nat)
    requires AllDifferent(leaves) && lo < hi <= |leaves|
    ensures var height, levels := BitLength(hi - lo - 1), Levels(HashLeaves(leaves));
      && height < |levels| && ShiftRight(lo, height) < |levels[height]|
      && (levels[height][ShiftRight(lo, height)] == Mth(leaves[lo..hi]) <==> IsSubtree(lo, hi, |leaves|))
  {
    hide *;
    LookedUp(leaves, lo, hi);
    BlockIsRange(lo, hi, |leaves|);
    var h := BitLength(hi - lo - 1);
    var j := ShiftRight(lo, h);
    SameRange(leaves, lo, hi, j * Pow2(h), BlockEnd(j, h, |leaves|));
  }
}
