/** Consistency proofs: the bottom-up checker of section 2.1.4.2 of RFC 9162 against the top-down
    proof of section 2.1.2 of RFC 6962. */
module Consistency {
  import opened Wrappers
  import opened Bits
  import opened Merkle
  import opened Inclusion
  import opened MerkleTrees

  /** What the checker computes on the way up, one level at a time: node `f` of an old level of f + 1
      nodes is `fr`, node `f` of a new level of s + 1 nodes is `sr`. None: the path does not fit. */
  function Climb(f: nat, s: nat, fr: Digest, sr: Digest, path: seq<Digest>): Option<(Digest, Digest)>
    requires f <= s
    decreases s
  {
    if s == 0 then
      if path == [] then Some((fr, sr)) else None
    else if f % 2 == 0 && f == s then Climb(f / 2, s / 2, fr, sr, path)
    else if path == [] then None
    else if f % 2 == 1 then Climb(f / 2, s / 2, NodeHash(path[0], fr), NodeHash(path[0], sr), path[1..])
    else Climb(f / 2, s / 2, fr, NodeHash(sr, path[0]), path[1..])
  }

  /** The same from the two sizes: levels on which the old tree ends with a full pair are skipped. */
  function ClimbFrom(m: nat, n: nat, path: seq<Digest>): Option<(Digest, Digest)>
    requires 1 <= m <= n && path != []
    decreases m
  {
    if m % 2 == 0 then ClimbFrom(m / 2, (n + 1) / 2, path)
    else Climb(m - 1, n - 1, path[0], path[0], path[1..])
  }

  /** Acceptance, without the loops of the checker. */
  predicate Accepts(m: int, n: int, oldRoot: Digest, newRoot: Digest, proof: seq<Digest>) {
    && 1 <= m <= n
    && if m == n then proof == [] && oldRoot == newRoot
       else proof != [] && ClimbFrom(m, n, FullPath(m, oldRoot, proof)) == Some((oldRoot, newRoot))
  }

  /** The old root starts the path itself when it is a node of the new tree. */
  function FullPath(m: nat, oldRoot: Digest, proof: seq<Digest>): (path: seq<Digest>)
    ensures proof != [] ==> path != []
  {
    if IsPowerOfTwo(m) then [oldRoot] + proof else proof
  }

  /** An element of a proof read from a file: a digest, text that is not hex, or no text at all. */
  datatype ProofItem = Hex(digest: Digest) | NotHex | NotText

  predicate AllHex(items: seq<ProofItem>) {
    forall i :: 0 <= i < |items| ==> items[i].Hex?
  }

  function Digests(items: seq<ProofItem>): (digests: seq<Digest>)
    requires AllHex(items)
    ensures |digests| == |items|
    ensures forall i :: 0 <= i < |items| ==> digests[i] == items[i].digest
  {
    seq(|items|, i requires 0 <= i < |items| => items[i].digest)
  }

  // ----- which elements are hashed, and what an element that is not text does

  /** The elements that the climb hashes, in order: it stops at the end of the path or at a single new node. */
  function ClimbItems(f: nat, s: nat, path: seq<ProofItem>): seq<ProofItem>
    requires f <= s
    decreases s
  {
    if s == 0 || path == [] then []
    else if f % 2 == 0 && f == s then ClimbItems(f / 2, s / 2, path)
    else [path[0]] + ClimbItems(f / 2, s / 2, path[1..])
  }

  /** The same with the element the climb starts from, which is first hashed to the right of a left sibling and to
      the left of a right one. */
  function StartItems(f: nat, s: nat, path: seq<ProofItem>): seq<ProofItem>
    requires f <= s && path != []
  {
    var rest := ClimbItems(f, s, path[1..]);
    if rest == [] then []
    else if f % 2 == 1 || f == s then [rest[0], path[0]] + rest[1..]
    else [path[0]] + rest
  }

  /** The same from the two sizes. */
  function HashedItems(m: nat, n: nat, path: seq<ProofItem>): seq<ProofItem>
    requires 1 <= m <= n && path != []
    decreases m
  {
    if m % 2 == 0 then HashedItems(m / 2, (n + 1) / 2, path) else StartItems(m - 1, n - 1, path)
  }

  /** The first of these elements that is not hex text is no text at all. */
  predicate NotTextFirst(items: seq<ProofItem>) {
    items != [] && (items[0].NotText? || (items[0].Hex? && NotTextFirst(items[1..])))
  }

  /** When the checker raises a TypeError. */
  predicate Raises(m: int, n: int, oldRoot: Digest, proof: seq<ProofItem>) {
    1 <= m < n && proof != [] && NotTextFirst(HashedItems(m, n, WithOldRoot(m, oldRoot, proof)))
  }

  function WithOldRoot(m: nat, oldRoot: Digest, proof: seq<ProofItem>): (path: seq<ProofItem>)
    ensures proof != [] ==> path != []
  {
    if IsPowerOfTwo(m) then [Hex(oldRoot)] + proof else proof
  }

  /** A proof of text alone never raises. */
  lemma {:induction false} TextNeverRaises(items: seq<ProofItem>)
    requires NotText !in items
    ensures !NotTextFirst(items)
  {
    if items != [] {
      assert items[0] in items;
      TextNeverRaises(items[1..]);
    }
  }

  lemma {:induction false} ClimbItemsAreOfPath(f: nat, s: nat, path: seq<ProofItem>)
    requires f <= s
    ensures forall x :: x in ClimbItems(f, s, path) ==> x in path
    decreases s
  {
    if s == 0 || path == [] {
    } else if f % 2 == 0 && f == s {
      ClimbItemsAreOfPath(f / 2, s / 2, path);
    } else {
      ClimbItemsAreOfPath(f / 2, s / 2, path[1..]);
    }
  }

  lemma {:induction false} HashedItemsAreOfPath(m: nat, n: nat, path: seq<ProofItem>)
    requires 1 <= m <= n && path != []
    ensures forall x :: x in HashedItems(m, n, path) ==> x in path
    decreases m
  {
    hide StartItems;
    if m % 2 == 0 {
      HashedItemsAreOfPath(m / 2, (n + 1) / 2, path);
    } else {
      StartItemsAreOfPath(m - 1, n - 1, path);
    }
  }

  lemma StartItemsAreOfPath(f: nat, s: nat, path: seq<ProofItem>)
    requires f <= s && path != []
    ensures forall x :: x in StartItems(f, s, path) ==> x in path
  {
    hide ClimbItems;
    var rest, items := ClimbItems(f, s, path[1..]), StartItems(f, s, path);
    ClimbItemsAreOfPath(f, s, path[1..]);
    forall x | x in items ensures x in path {
      var k :| 0 <= k < |items| && items[k] == x;
      assert x == path[0] || x in rest by {
        assert k >= 2 ==> items[k] == rest[k - 1];
      }
      assert x in rest ==> x in path[1..];
    }
  }

  /** So it raises only if some element is not text. */
  lemma RaisesOnlyOnOtherThanText(m: int, n: int, oldRoot: Digest, proof: seq<ProofItem>)
    requires Raises(m, n, oldRoot, proof)
    ensures NotText in proof
  {
    hide HashedItems, NotTextFirst, IsPowerOfTwo;
    var path := WithOldRoot(m, oldRoot, proof);
    HashedItemsAreOfPath(m, n, path);
    if NotText !in path { TextNeverRaises(HashedItems(m, n, path)); }
  }

  /** One element that is no text, between sizes 1 and 2. */
  lemma NumberRaises(oldRoot: Digest)
    ensures Raises(1, 2, oldRoot, [NotText])
  {
    var path := [Hex(oldRoot), NotText];
    assert WithOldRoot(1, oldRoot, [NotText]) == path && path[1..] == [NotText];
    assert ClimbItems(0, 1, [NotText]) == [NotText] + ClimbItems(0, 0, []);
    assert HashedItems(1, 2, path) == path;
  }

  /** `node_hash` of two elements: `bytes.fromhex` of the left one comes first. */
  function HashPair(left: ProofItem, right: ProofItem): Result<ProofItem> {
    if left.NotText? then Err(TypeError)
    else if left.NotHex? then Err(ValueError)
    else if right.NotText? then Err(TypeError)
    else if right.NotHex? then Err(ValueError)
    else Ok(Hex(NodeHash(left.digest, right.digest)))
  }

  /** `verify_consistency`: a proof with an element that is not text may raise, any other is accepted or not. */
  method VerifyConsistency(oldSize: int, newSize: int, oldRoot: Digest, newRoot: Digest, proof: seq<ProofItem>)
    returns (r: Result<bool>)
    ensures r == if Raises(oldSize, newSize, oldRoot, proof) then Err(TypeError)
                 else Ok(AllHex(proof) && Accepts(oldSize, newSize, oldRoot, newRoot, Digests(proof)))
  {
    hide Climb, ClimbFrom, And, IsPowerOfTwo, HashedItems, NotTextFirst;
    if !(1 <= oldSize <= newSize) {
      return Ok(false);
    }
    if oldSize == newSize {
      return Ok(proof == [] && oldRoot == newRoot);
    }
    if proof == [] {
      return Ok(false);
    }
    var path := proof;
    AndPredecessor(oldSize);
    if And(oldSize, oldSize - 1) == 0 {
      path := [Hex(oldRoot)] + path;
    }
    HexFirst(oldRoot, proof);
    r := CheckPath(oldSize, newSize, oldRoot, newRoot, path);
  }

  lemma HexFirst(digest: Digest, items: seq<ProofItem>)
    ensures AllHex([Hex(digest)] + items) <==> AllHex(items)
    ensures AllHex(items) ==> Digests([Hex(digest)] + items) == [digest] + Digests(items)
  {
    var longer := [Hex(digest)] + items;
    if AllHex(items) {
      forall i | 0 <= i < |longer| ensures longer[i].Hex? && longer[i].digest == ([digest] + Digests(items))[i] {
        if i > 0 { assert longer[i] == items[i - 1]; }
      }
    } else {
      var j :| 0 <= j < |items| && !items[j].Hex?;
      assert longer[j + 1] == items[j];
    }
  }

  /** What is still to be hashed when element i of the path is at hand. */
  function Ahead(f: nat, s: nat, path: seq<ProofItem>, i: nat): seq<ProofItem>
    requires f <= s && 1 <= i <= |path|
  {
    if i == 1 then StartItems(f, s, path) else ClimbItems(f, s, path[i..])
  }

  /** The places above after one element is used: lone nodes of both levels move up with it. */
  function Up(f: nat, s: nat): (up: (nat, nat))
    requires f <= s && s > 0
    ensures up.0 <= up.1
    decreases s
  {
    if f % 2 == 0 && f == s then Up(f / 2, s / 2) else (f / 2, s / 2)
  }

  predicate OnTheRight(f: nat, s: nat) {
    f % 2 == 1 || f == s
  }

  /** The two loops of `verify_consistency`, over the path that includes the first node. */
  method CheckPath(oldSize: nat, newSize: nat, oldRoot: Digest, newRoot: Digest, path: seq<ProofItem>)
    returns (r: Result<bool>)
    requires 1 <= oldSize < newSize && path != []
    ensures r == if NotTextFirst(HashedItems(oldSize, newSize, path)) then Err(TypeError)
                 else Ok(AllHex(path) && ClimbFrom(oldSize, newSize, Digests(path)) == Some((oldRoot, newRoot)))
  {
    hide Climb, ClimbFrom, ClimbItems, Ahead, HashedItems, NotTextFirst;
    var fn: nat, sn: nat := oldSize - 1, newSize - 1;
    while fn % 2 == 1
      invariant fn < sn
      decreases fn
      invariant HashedItems(fn + 1, sn + 1, path) == HashedItems(oldSize, newSize, path)
      invariant AllHex(path) ==>
                ClimbFrom(fn + 1, sn + 1, Digests(path)) == ClimbFrom(oldSize, newSize, Digests(path))
    {
      HashedItemsSkip(fn + 1, sn + 1, path);
      if AllHex(path) { ClimbFromSkips(fn + 1, sn + 1, Digests(path)); }
      fn, sn := fn / 2, sn / 2;
    }
    var fr, sr := path[0], path[0];
    HashedItemsStart(fn + 1, sn + 1, path);
    if AllHex(path) { ClimbFromStarts(fn + 1, sn + 1, Digests(path)); }
    for i := 1 to |path|
      invariant fn <= sn && (i == 1 ==> sn > 0 && fr == sr == path[0])
      invariant i > 1 ==> fr.Hex? && sr.Hex? && forall j :: 0 <= j < i ==> path[j].Hex?
      invariant NotTextFirst(Ahead(fn, sn, path, i)) == NotTextFirst(HashedItems(oldSize, newSize, path))
      invariant AllHex(path) ==>
                && fr.Hex? && sr.Hex?
                && Climb(fn, sn, fr.digest, sr.digest, Digests(path)[i..]) ==
                   ClimbFrom(oldSize, newSize, Digests(path))
    {
      if sn == 0 {
        NothingAhead(fn, sn, path, i);
        if AllHex(path) { ClimbStops(fn, fr.digest, sr.digest, Digests(path), i); }
        return Ok(false);
      }
      var c := path[i];
      ghost var up := Up(fn, sn);
      AheadCases(fn, sn, path, i);
      if AllHex(path) { ClimbGoesUp(fn, sn, fr.digest, sr.digest, Digests(path), i); }
      if fn % 2 == 1 || fn == sn {
        var newFr, newSr := HashPair(c, fr), HashPair(c, sr);
        if newFr.Err? {
          return if newFr.error == TypeError then Err(TypeError) else Ok(false);
        }
        fr, sr := newFr.value, newSr.value;
        if fn % 2 == 0 {
          while fn % 2 == 0 && fn != 0
            invariant fn == sn > 0 && Up(fn, sn) == up
          {
            fn, sn := fn / 2, sn / 2;
          }
        }
      } else {
        var newSr := HashPair(sr, c);
        if newSr.Err? {
          return if newSr.error == TypeError then Err(TypeError) else Ok(false);
        }
        sr := newSr.value;
      }
      fn, sn := fn / 2, sn / 2;
    }
    NothingAhead(fn, sn, path, |path|);
    if AllHex(path) {
      assert Digests(path)[|path|..] == [];
      ClimbEnds(fn, sn, fr.digest, sr.digest);
    }
    return Ok(fr == Hex(oldRoot) && sr == Hex(newRoot) && sn == 0);
  }

  lemma HashedItemsSkip(m: nat, n: nat, path: seq<ProofItem>)
    requires 1 <= m <= n && path != [] && m % 2 == 0
    ensures HashedItems(m, n, path) == HashedItems((m - 1) / 2 + 1, (n - 1) / 2 + 1, path)
  {
    assert (m - 1) / 2 + 1 == m / 2 && (n - 1) / 2 + 1 == (n + 1) / 2;
  }

  lemma HashedItemsStart(m: nat, n: nat, path: seq<ProofItem>)
    requires 1 <= m <= n && path != [] && m % 2 == 1
    ensures HashedItems(m, n, path) == Ahead(m - 1, n - 1, path, 1)
  {
  }

  /** Nothing more is hashed at a single new node or at the end of the path. */
  lemma NothingAhead(f: nat, s: nat, path: seq<ProofItem>, i: nat)
    requires f <= s && 1 <= i <= |path| && (s == 0 || i == |path|)
    ensures !NotTextFirst(Ahead(f, s, path, i))
  {
    NothingToHash(f, s, path[i..]);
  }

  lemma {:induction false} NothingToHash(f: nat, s: nat, path: seq<ProofItem>)
    requires f <= s && (s == 0 || path == [])
    ensures ClimbItems(f, s, path) == []
  {
  }

  lemma {:induction false} ClimbItemsUp(f: nat, s: nat, path: seq<ProofItem>, i: nat)
    requires f <= s && s > 0 && i < |path|
    ensures ClimbItems(f, s, path[i..]) == [path[i]] + ClimbItems(Up(f, s).0, Up(f, s).1, path[i + 1..])
    decreases s
  {
    if f % 2 == 0 && f == s {
      ClimbItemsUp(f / 2, s / 2, path, i);
    } else {
      assert path[i..][1..] == path[i + 1..];
    }
  }

  lemma TwoFirst(x: ProofItem, y: ProofItem, rest: seq<ProofItem>)
    ensures NotTextFirst([x, y] + rest) <==> x.NotText? || (x.Hex? && (y.NotText? || (y.Hex? && NotTextFirst(rest))))
    ensures NotTextFirst([x] + rest) <==> x.NotText? || (x.Hex? && NotTextFirst(rest))
  {
    assert ([x] + rest)[1..] == rest;
    assert ([x, y] + rest)[1..] == [y] + rest && ([y] + rest)[1..] == rest;
  }

  /** The next element is hashed by itself, the first one together with the start. */
  lemma AheadCases(f: nat, s: nat, path: seq<ProofItem>, i: nat)
    requires f <= s && s > 0 && 1 <= i < |path|
    ensures var c, up := path[i], Up(f, s); var more := NotTextFirst(Ahead(up.0, up.1, path, i + 1));
      NotTextFirst(Ahead(f, s, path, i)) <==>
      if i > 1 then c.NotText? || (c.Hex? && more)
      else
        var (x, y) := if OnTheRight(f, s) then (c, path[0]) else (path[0], c);
        x.NotText? || (x.Hex? && (y.NotText? || (y.Hex? && more)))
  {
    hide ClimbItems, NotTextFirst, Up;
    var rest := ClimbItems(Up(f, s).0, Up(f, s).1, path[i + 1..]);
    ClimbItemsUp(f, s, path, i);
    TwoFirst(path[i], path[0], rest);
    TwoFirst(path[0], path[i], rest);
    if i == 1 {
      var both := [path[1]] + rest;
      assert both[0] == path[1] && both[1..] == rest;
      assert [path[0]] + both == [path[0], path[1]] + rest;
    }
  }

  lemma ClimbStops(f: nat, fr: Digest, sr: Digest, path: seq<Digest>, i: nat)
    requires f == 0 && i < |path|
    ensures Climb(f, 0, fr, sr, path[i..]) == None
  {
  }

  /** One element used by the climb. */
  lemma {:induction false} ClimbGoesUp(f: nat, s: nat, fr: Digest, sr: Digest, path: seq<Digest>, i: nat)
    requires f <= s && s > 0 && i < |path|
    ensures var up := Up(f, s);
      Climb(f, s, fr, sr, path[i..]) ==
      if OnTheRight(f, s) then Climb(up.0, up.1, NodeHash(path[i], fr), NodeHash(path[i], sr), path[i + 1..])
      else Climb(up.0, up.1, fr, NodeHash(sr, path[i]), path[i + 1..])
    decreases s
  {
    if f % 2 == 0 && f == s {
      ClimbGoesUp(f / 2, s / 2, fr, sr, path, i);
    } else {
      assert path[i..][1..] == path[i + 1..];
    }
  }

  lemma ClimbFromSkips(m: nat, n: nat, path: seq<Digest>)
    requires 1 <= m <= n && path != [] && m % 2 == 0
    ensures ClimbFrom(m, n, path) == ClimbFrom((m - 1) / 2 + 1, (n - 1) / 2 + 1, path)
  {
    assert (m - 1) / 2 + 1 == m / 2 && (n - 1) / 2 + 1 == (n + 1) / 2;
  }

  lemma ClimbFromStarts(m: nat, n: nat, path: seq<Digest>)
    requires 1 <= m <= n && path != [] && m % 2 == 1
    ensures ClimbFrom(m, n, path) == Climb(m - 1, n - 1, path[0], path[0], path[1..])
  {
  }

  /** At the end of the path only a single new node is left. */
  lemma {:induction false} ClimbEnds(f: nat, s: nat, fr: Digest, sr: Digest)
    requires f <= s
    ensures Climb(f, s, fr, sr, []) == if s == 0 then Some((fr, sr)) else None
    decreases s
  {
    if s > 0 && f == s && f % 2 == 0 {
      ClimbEnds(f / 2, s / 2, fr, sr);
    }
  }
}
