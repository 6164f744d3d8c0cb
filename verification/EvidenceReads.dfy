/** Reads of the evidence table that keep little in memory, against plain look-ups: keyset pages, the block cache of the
    check's results, and the members of a folder merged with one scan. */
module EvidenceReads {
  import opened Wrappers
  import opened Texts
  import opened Evidence

  const PAGE: nat := 1000

  lemma SlicesMeet(rows: seq<Row>, a: nat, b: nat)
    requires a <= b <= |rows|
    ensures rows[..a] + rows[a..b] == rows[..b]
    ensures a < b ==> rows[a..b] != [] && rows[a..b][b - a - 1] == rows[b - 1]
    ensures a == b ==> rows[a..b] == []
  {
  }

  /** `_evidence_rows`: the pages are the whole table, in id order. */
  method EvidenceRows(table: seq<Row>) returns (rows: seq<Row>)
    requires Sorted(table)
    ensures rows == table
  {
    hide Sorted, Matching, Forward;
    rows := [];
    var last: Option<Text> := None;
    MatchingEverything(table);
    while true
      invariant |rows| <= |table| && rows == table[..|rows|]
      invariant last == if rows == [] then None else Some(table[|rows| - 1].id)
      decreases |table| - |rows|
    {
      var page := Forward(table, [], last, last.None?, PAGE);
      if last.None? {
        ForwardFromStart(table, [], PAGE);
      } else {
        ForwardFromRow(table, [], |rows| - 1, false, PAGE);
      }
      ghost var to := Min(|rows| + PAGE, |table|);
      assert page == table[|rows|..to];
      SlicesMeet(table, |rows|, to);
      if page == [] {
        return;
      }
      rows := rows + page;
      last := Some(page[|page| - 1].id);
    }
  }

  // ----- the block cache

  const BLOCK: nat := 256
  const CACHED_BLOCKS: nat := 8

  function BlockOf(table: seq<Row>, b: nat): (rows: seq<Row>) {
    if b * BLOCK <= |table| then table[b * BLOCK..Min(b * BLOCK + BLOCK, |table|)] else []
  }

  /** The ids kept by the check: one for each block. */
  ghost predicate AreKeys(table: seq<Row>, keys: seq<Text>) {
    && (|table| == 0 ==> |keys| == 0)
    && (|table| > 0 ==> (|keys| - 1) * BLOCK < |table| <= |keys| * BLOCK)
    && forall b :: 0 <= b < |keys| && b * BLOCK < |table| ==> keys[b] == table[b * BLOCK].id
  }

  /** `_run_evidence_check`, which keeps the id of each row at a block's start. */
  method Keys(table: seq<Row>) returns (keys: seq<Text>)
    ensures AreKeys(table, keys)
  {
    keys := [];
    for i := 0 to |table|
      invariant i == 0 ==> keys == []
      invariant i > 0 ==> (|keys| - 1) * BLOCK < i <= |keys| * BLOCK
      invariant forall b :: 0 <= b < |keys| && b * BLOCK < |table| ==> keys[b] == table[b * BLOCK].id
    {
      if i % BLOCK == 0 {
        assert |keys| * BLOCK == i;
        keys := keys + [table[i].id];
      }
    }
  }

  /** `_EvidenceResults`: rows fetched a block at a time, of which the last few are kept. */
  class Blocks {
    const table: seq<Row>
    const keys: seq<Text>
    var blocks: map<nat, seq<Row>>
    /** The keys of the dictionary in the order they were put in. */
    var order: seq<nat>

    ghost predicate Valid()
      reads this
    {
      && Sorted(table) && AreKeys(table, keys) && |order| <= CACHED_BLOCKS
      && (forall b: nat :: b in blocks <==> b in order)
      && (forall i, j :: 0 <= i < j < |order| ==> order[i] != order[j])
      && (forall b: nat :: b in blocks ==> blocks[b] == BlockOf(table, b))
    }

    constructor (table: seq<Row>, keys: seq<Text>)
      requires Sorted(table) && AreKeys(table, keys)
      ensures Valid() && this.table == table
    {
      this.table, this.keys := table, keys;
      blocks, order := map[], [];
    }

    /** `_fetch`: the row at place i, whatever was fetched before. A block that is not kept is read and kept, and if
        eight were, the one read first goes. */
    method Fetch(i: nat) returns (row: Row)
      requires Valid() && i < |table|
      modifies this
      ensures Valid() && row == table[i]
      ensures i / 256 in old(order) ==> order == old(order)
      ensures i / 256 !in old(order) ==>
              order == (if |old(order)| < 8 then old(order) else old(order)[1..]) + [i / 256]
    {
      hide Sorted, AreKeys, BlockOf;
      var b: nat := i / BLOCK;
      InBlock(table, keys, i);
      if b !in blocks {
        var block := Forward(table, [], Some(keys[b]), true, BLOCK);
        ReadsBlock(table, keys, b);
        if |order| >= CACHED_BLOCKS {
          Drop();
        }
        Keep(b, block);
      }
      row := blocks[b][i - b * BLOCK];
    }

    /** The oldest block goes. */
    method Drop()
      requires Valid() && order != []
      modifies this
      ensures Valid() && order == old(order)[1..] && (forall b: nat :: b in blocks ==> b in old(blocks))
    {
      hide Sorted, AreKeys, BlockOf;
      blocks, order := blocks - {order[0]}, order[1..];
    }

    method Keep(b: nat, block: seq<Row>)
      requires Valid() && b !in blocks && |order| < CACHED_BLOCKS && block == BlockOf(table, b)
      modifies this
      ensures Valid() && b in blocks && blocks[b] == block && order == old(order) + [b]
    {
      hide Sorted, AreKeys, BlockOf;
      blocks, order := blocks[b := block], order + [b];
    }
  }

  /** Where the row at place i is kept. */
  lemma InBlock(table: seq<Row>, keys: seq<Text>, i: nat)
    requires i < |table| && AreKeys(table, keys)
    ensures var b := i / BLOCK;
      && b < |keys| && b * BLOCK < |table| && 0 <= i - b * BLOCK < |BlockOf(table, b)|
      && BlockOf(table, b)[i - b * BLOCK] == table[i] && keys[b] == table[b * BLOCK].id
  {
  }

  lemma ReadsBlock(table: seq<Row>, keys: seq<Text>, b: nat)
    requires Sorted(table) && b < |keys| && b * BLOCK < |table| && keys[b] == table[b * BLOCK].id
    ensures Forward(table, [], Some(keys[b]), true, BLOCK) == BlockOf(table, b)
  {
    hide Sorted, Matching, Forward;
    MatchingEverything(table);
    ForwardFromRow(table, [], b * BLOCK, true, BLOCK);
  }

  // ----- the members of a folder

  /** `SELECT sha256 ... WHERE evidence_id = ?` */
  function Lookup(table: seq<Row>, id: Text): (sha256: Option<Text>)
    ensures sha256.None? <==> forall r :: r in table ==> r.id != id
  {
    if table == [] then None else if table[0].id == id then Some(table[0].sha256) else Lookup(table[1..], id)
  }

  lemma {:induction false} LookupAt(table: seq<Row>, k: nat)
    requires Sorted(table) && k < |table|
    ensures Lookup(table, table[k].id) == Some(table[k].sha256)
    decreases |table|
  {
    if k > 0 {
      NotLess(table[0].id, table[k].id);
      assert Sorted(table[1..]);
      LookupAt(table[1..], k - 1);
    }
  }

  /** The members up to the first without a row, each with the hash on record. */
  ghost predicate AreMembers(table: seq<Row>, ids: seq<Text>, leaves: seq<(Text, Text)>) {
    && |leaves| <= |ids|
    && forall k :: 0 <= k < |leaves| ==> leaves[k].0 == ids[k] && Lookup(table, ids[k]) == Some(leaves[k].1)
  }

  lemma OneMoreMember(table: seq<Row>, ids: seq<Text>, leaves: seq<(Text, Text)>, sha256: Text)
    requires AreMembers(table, ids, leaves) && |leaves| < |ids| && Lookup(table, ids[|leaves|]) == Some(sha256)
    ensures AreMembers(table, ids, leaves + [(ids[|leaves|], sha256)])
  {
    hide Lookup;
  }

  /** `iter_member_leaves` on the ids read from the stored list: one ordered scan from the first member on, with single
      look-ups for what it does not meet, gives what looking up each member in turn gives, in any stored order and with
      rows of other folders in between, and the same KeyError. */
  method MemberLeaves(table: seq<Row>, ids: seq<Text>) returns (leaves: seq<(Text, Text)>, error: Option<Error>)
    requires Sorted(table)
    ensures AreMembers(table, ids, leaves)
    ensures if |leaves| == |ids| then error == None
            else error == Some(KeyError) && Lookup(table, ids[|leaves|]).None?
  {
    hide Sorted, Lookup, AreMembers, Less;
    leaves, error := [], None;
    NoMembers(table, ids);
    if ids == [] {
      return;
    }
    var scan := SelectFrom(table, [], Some(ids[0]), true);
    ScanIsPart(table, ids[0]);
    var cursor := 0;
    for k := 0 to |ids|
      invariant |leaves| == k && AreMembers(table, ids, leaves) && error == None && cursor <= |scan|
    {
      var member := ids[k];
      while cursor < |scan| && Less(scan[cursor].id, member)
        invariant cursor <= |scan|
        decreases |scan| - cursor
      {
        cursor := cursor + 1;
      }
      if cursor < |scan| && scan[cursor].id == member {
        ScannedRow(table, scan, cursor);
        OneMoreMember(table, ids, leaves, scan[cursor].sha256);
        leaves := leaves + [(member, scan[cursor].sha256)];
      } else {
        var found := Lookup(table, member);
        if found.None? {
          error := Some(KeyError);
          return;
        }
        OneMoreMember(table, ids, leaves, found.value);
        leaves := leaves + [(member, found.value)];
      }
    }
  }

  lemma NoMembers(table: seq<Row>, ids: seq<Text>)
    ensures AreMembers(table, ids, [])
  {
  }

  lemma {:induction false} ScanIsPart(table: seq<Row>, first: Text)
    ensures forall r :: r in SelectFrom(table, [], Some(first), true) ==> r in table
  {
    hide Matches, FromKey;
    if table != [] { ScanIsPart(table[1..], first); }
  }

  lemma ScannedRow(table: seq<Row>, scan: seq<Row>, at: nat)
    requires Sorted(table) && at < |scan| && forall r :: r in scan ==> r in table
    ensures Lookup(table, scan[at].id) == Some(scan[at].sha256)
  {
    hide Sorted, Lookup;
    assert scan[at] in scan;
    var k :| 0 <= k < |table| && table[k] == scan[at];
    LookupAt(table, k);
  }
}
