/** What an accepted consistency proof says about the claimed new size. */
module ClaimedSizes {
  import opened Wrappers
  import opened Bits
  import opened Merkle
  import opened MerkleTrees
  import opened Consistency
  import opened ConsistencyTheorems

  /** On which side the siblings of node f are on the way up, in a tree of s + 1 nodes: true for the left. */
  function Sides(f: nat, s: nat): seq<bool>
    requires f <= s
    decreases s
  {
    if s == 0 then []
    else if f % 2 == 0 && f == s then Sides(f / 2, s / 2)
    else [f % 2 == 1] + Sides(f / 2, s / 2)
  }

  /** The sides for the last full node of an old tree of m leaves in a new tree of n. */
  function SidesFrom(m: nat, n: nat): seq<bool>
    requires 1 <= m <= n
    decreases m
  {
    if m % 2 == 0 then SidesFrom(m / 2, (n + 1) / 2) else Sides(m - 1, n - 1)
  }

  /** The climb along given sides. */
  function Follow(sides: seq<bool>, fr: Digest, sr: Digest, path: seq<Digest>): Option<(Digest, Digest)>
    decreases |sides|
  {
    if sides == [] then
      if path == [] then Some((fr, sr)) else None
    else if path == [] then None
    else if sides[0] then Follow(sides[1..], NodeHash(path[0], fr), NodeHash(path[0], sr), path[1..])
    else Follow(sides[1..], fr, NodeHash(sr, path[0]), path[1..])
  }

  lemma {:induction false} ClimbFollows(f: nat, s: nat, fr: Digest, sr: Digest, path: seq<Digest>)
    requires f <= s
    ensures Climb(f, s, fr, sr, path) == Follow(Sides(f, s), fr, sr, path)
    decreases s
  {
    if s == 0 {
    } else if f % 2 == 0 && f == s {
      ClimbFollows(f / 2, s / 2, fr, sr, path);
    } else if path != [] {
      var sides := Sides(f, s);
      assert sides[0] == (f % 2 == 1) && sides[1..] == Sides(f / 2, s / 2);
      if f % 2 == 1 {
        ClimbFollows(f / 2, s / 2, NodeHash(path[0], fr), NodeHash(path[0], sr), path[1..]);
      } else {
        ClimbFollows(f / 2, s / 2, fr, NodeHash(sr, path[0]), path[1..]);
      }
    }
  }

  lemma {:induction false} ClimbFromFollows(m: nat, n: nat, path: seq<Digest>)
    requires 1 <= m <= n && path != []
    ensures ClimbFrom(m, n, path) == Follow(SidesFrom(m, n), path[0], path[0], path[1..])
    decreases m
  {
    hide Climb, Follow, Sides;
    if m % 2 == 0 {
      ClimbFromFollows(m / 2, (n + 1) / 2, path);
    } else {
      ClimbFollows(m - 1, n - 1, path[0], path[0], path[1..]);
    }
  }

  /** One more step, at the top. */
  function StepUp(side: bool, at: (Digest, Digest), sibling: Digest): (Digest, Digest) {
    if side then (NodeHash(sibling, at.0), NodeHash(sibling, at.1)) else (at.0, NodeHash(at.1, sibling))
  }

  lemma {:induction false} FollowLast(sides: seq<bool>, last: bool, fr: Digest, sr: Digest, path: seq<Digest>,
                                      top: Digest)
    ensures var below := Follow(sides, fr, sr, path);
      Follow(sides + [last], fr, sr, path + [top]) == if below.None? then None else Some(StepUp(last, below.value, top))
    decreases |sides|
  {
    var longer, more := sides + [last], path + [top];
    if sides == [] {
      assert longer[0] == last && longer[1..] == [];
      if path != [] { assert more[1..] != []; } else { assert more[0] == top && more[1..] == []; }
    } else {
      assert longer[0] == sides[0] && longer[1..] == sides[1..] + [last];
      if path == [] {
        assert more[0] == top && more[1..] == [];
        FollowNothing(longer[1..], if sides[0] then NodeHash(top, fr) else fr,
                      if sides[0] then NodeHash(top, sr) else NodeHash(sr, top));
      } else {
        assert more[0] == path[0] && more[1..] == path[1..] + [top];
        if sides[0] {
          FollowLast(sides[1..], last, NodeHash(path[0], fr), NodeHash(path[0], sr), path[1..], top);
        } else {
          FollowLast(sides[1..], last, fr, NodeHash(sr, path[0]), path[1..], top);
        }
      }
    }
  }

  lemma FollowNothing(sides: seq<bool>, fr: Digest, sr: Digest)
    requires sides != []
    ensures Follow(sides, fr, sr, []) == None
  {
  }

  function Size(d: Digest): nat {
    match d
    case Raw(_) => 1
    case LeafHash(e) => 1 + Size(e)
    case NodeHash(l, r) => 1 + Size(l) + Size(r)
  }

  /** As many siblings as sides, and the old node never outgrows the new one. */
  lemma {:induction false} FollowFits(sides: seq<bool>, fr: Digest, sr: Digest, path: seq<Digest>)
    requires Size(fr) <= Size(sr) && Follow(sides, fr, sr, path).Some?
    ensures |sides| == |path|
    ensures var at := Follow(sides, fr, sr, path).value; Size(at.0) <= Size(at.1)
    decreases |sides|
  {
    if sides != [] {
      if sides[0] {
        FollowFits(sides[1..], NodeHash(path[0], fr), NodeHash(path[0], sr), path[1..]);
      } else {
        FollowFits(sides[1..], fr, NodeHash(sr, path[0]), path[1..]);
      }
    }
  }

  lemma StepUpTellsSides(a: bool, b: bool, at: (Digest, Digest), at': (Digest, Digest), top: Digest)
    requires StepUp(a, at, top) == StepUp(b, at', top) && Size(at.0) <= Size(at.1) && Size(at'.0) <= Size(at'.1)
    ensures a == b && at == at'
  {
  }

  /** The two roots reached from one start along one path determine the sides. */
  lemma {:induction false} RootsTellSides(a: seq<bool>, b: seq<bool>, start: Digest, path: seq<Digest>)
    requires Follow(a, start, start, path).Some? && Follow(a, start, start, path) == Follow(b, start, start, path)
    ensures a == b
    decreases |a|
  {
    hide Follow, StepUp;
    FollowFits(a, start, start, path);
    FollowFits(b, start, start, path);
    if a != [] {
      var a', b', path' := a[..|a| - 1], b[..|b| - 1], path[..|path| - 1];
      var x, y, top := a[|a| - 1], b[|b| - 1], path[|path| - 1];
      assert a == a' + [x] && b == b' + [y] && path == path' + [top];
      FollowLast(a', x, start, start, path', top);
      FollowLast(b', y, start, start, path', top);
      FollowFits(a', start, start, path');
      FollowFits(b', start, start, path');
      StepUpTellsSides(x, y, Follow(a', start, start, path').value, Follow(b', start, start, path').value, top);
      RootsTellSides(a', b', start, path');
    }
  }

  /** For which claimed new sizes an accepted proof also passes, exactly: those in which the old tree's last full node
      has its siblings on the same sides. No other size passes, whatever the roots are. */
  lemma ClaimedSizesExactly(m: nat, n: nat, oldRoot: Digest, newRoot: Digest, proof: seq<Digest>, claimed: int)
    requires Accepts(m, n, oldRoot, newRoot, proof)
    ensures Accepts(m, claimed, oldRoot, newRoot, proof) <==>
            if m == n then claimed == m else m < claimed && SidesFrom(m, claimed) == SidesFrom(m, n)
  {
    hide ClimbFrom, Follow, SidesFrom, FullPath;
    if m < n && m < claimed {
      var path := FullPath(m, oldRoot, proof);
      ClimbFromFollows(m, n, path);
      ClimbFromFollows(m, claimed, path);
      if Accepts(m, claimed, oldRoot, newRoot, proof) {
        RootsTellSides(SidesFrom(m, n), SidesFrom(m, claimed), path[0], path[1..]);
      }
    }
  }
}
