/** The evidence table as the search screens read it: keyset queries over rows sorted strictly by id. */
module Evidence {
  import opened Wrappers
  import opened Texts

  datatype Row = Row(id: Text, filename: Text, sha256: Text)

  ghost predicate Sorted(rows: seq<Row>) {
    forall i, j :: 0 <= i < j < |rows| ==> Less(rows[i].id, rows[j].id)
  }

  // ----- matching

  /** Lower case of ASCII letters; other characters are left alone, as SQLite's LIKE does. */
  function LowerCode(c: Code): Code {
    if 65 <= c <= 90 then c + 32 else c
  }

  function Lower(t: Text): (l: Text)
    ensures |l| == |t| && forall i :: 0 <= i < |t| ==> l[i] == LowerCode(t[i])
  {
    seq(|t|, i requires 0 <= i < |t| => LowerCode(t[i]))
  }

  const PERCENT: Code := 37
  const UNDERSCORE: Code := 95
  const BANG: Code := 33

  /** `text.replace` of one character. */
  function Replace(t: Text, c: Code, rep: Text): Text {
    if t == [] then [] else (if t[0] == c then rep else [t[0]]) + Replace(t[1..], c, rep)
  }

  /** `_like_escape` */
  function LikeEscape(t: Text): Text {
    Replace(Replace(Replace(t, BANG, [BANG, BANG]), PERCENT, [BANG, PERCENT]), UNDERSCORE, [BANG, UNDERSCORE])
  }

  /** SQL `text LIKE pattern ESCAPE '!'`. */
  predicate Like(text: Text, pattern: Text)
    decreases |pattern|, |text|
  {
    if pattern == [] then text == []
    else if pattern[0] == PERCENT then
      Like(text, pattern[1..]) || (text != [] && Like(text[1..], pattern))
    else if pattern[0] == BANG then
      |pattern| >= 2 && text != [] && LowerCode(text[0]) == LowerCode(pattern[1]) && Like(text[1..], pattern[2..])
    else if pattern[0] == UNDERSCORE then text != [] && Like(text[1..], pattern[1..])
    else text != [] && LowerCode(text[0]) == LowerCode(pattern[0]) && Like(text[1..], pattern[1..])
  }

  /** `part in whole` for Python strings. */
  predicate Contains(whole: Text, part: Text) {
    part <= whole || (whole != [] && Contains(whole[1..], part))
  }

  /** The SQL condition of `_match` for an ASCII query. */
  predicate Matches(row: Row, query: Text) {
    query == [] ||
    var pattern := [PERCENT] + LikeEscape(query) + [PERCENT];
    Like(row.id, pattern) || Like(row.filename, pattern)
  }

  /** The condition of the in-memory `search`. */
  predicate Found(row: Row, query: Text) {
    query == [] || Contains(Lower(row.id), Lower(query)) || Contains(Lower(row.filename), Lower(query))
  }

  /** One character as `_like_escape` writes it. */
  function EscapeCode(c: Code): Text {
    if c == BANG || c == PERCENT || c == UNDERSCORE then [BANG, c] else [c]
  }

  lemma {:induction false} ReplaceAppends(a: Text, b: Text, c: Code, rep: Text)
    ensures Replace(a + b, c, rep) == Replace(a, c, rep) + Replace(b, c, rep)
  {
    if a == [] {
      assert a + b == b;
    } else {
      assert (a + b)[1..] == a[1..] + b;
      ReplaceAppends(a[1..], b, c, rep);
    }
  }

  lemma ReplaceOne(c: Code, target: Code, rep: Text)
    ensures Replace([c], target, rep) == if c == target then rep else [c]
  {
    assert [c][1..] == [];
  }

  lemma EscapeOfOne(c: Code)
    ensures LikeEscape([c]) == EscapeCode(c)
  {
    hide Replace;
    var first := Replace([c], BANG, [BANG, BANG]);
    ReplaceOne(c, BANG, [BANG, BANG]);
    ReplaceOne(c, PERCENT, [BANG, PERCENT]);
    ReplaceOne(c, UNDERSCORE, [BANG, UNDERSCORE]);
    ReplaceOne(BANG, PERCENT, [BANG, PERCENT]);
    ReplaceOne(BANG, UNDERSCORE, [BANG, UNDERSCORE]);
    ReplaceOne(PERCENT, UNDERSCORE, [BANG, UNDERSCORE]);
    ReplaceAppends([BANG], [BANG], PERCENT, [BANG, PERCENT]);
    ReplaceAppends([BANG], [BANG], UNDERSCORE, [BANG, UNDERSCORE]);
    ReplaceAppends([BANG], [PERCENT], UNDERSCORE, [BANG, UNDERSCORE]);
    assert [BANG] + [BANG] == [BANG, BANG] && [BANG] + [PERCENT] == [BANG, PERCENT];
  }

  /** The three replacements escape each character by itself. */
  lemma EscapeFirst(t: Text)
    requires t != []
    ensures LikeEscape(t) == EscapeCode(t[0]) + LikeEscape(t[1..])
  {
    hide Replace;
    assert t == [t[0]] + t[1..];
    EscapeOfOne(t[0]);
    ReplaceAppends([t[0]], t[1..], BANG, [BANG, BANG]);
    var one, rest := Replace([t[0]], BANG, [BANG, BANG]), Replace(t[1..], BANG, [BANG, BANG]);
    ReplaceAppends(one, rest, PERCENT, [BANG, PERCENT]);
    ReplaceAppends(Replace(one, PERCENT, [BANG, PERCENT]), Replace(rest, PERCENT, [BANG, PERCENT]),
                   UNDERSCORE, [BANG, UNDERSCORE]);
  }

  lemma {:induction false} LikeAnything(text: Text)
    ensures Like(text, [PERCENT])
  {
    assert [PERCENT][1..] == [];
    if text != [] { LikeAnything(text[1..]); }
  }

  /** An escaped query with a wildcard after it matches the texts that start with the query, in any case. */
  lemma {:induction false} LikePrefix(text: Text, query: Text)
    ensures Like(text, LikeEscape(query) + [PERCENT]) <==> Lower(query) <= Lower(text)
    decreases |query|
  {
    hide LikeEscape;
    if query == [] {
      EscapeOfNothing();
      LikeAnything(text);
      assert [] + [PERCENT] == [PERCENT];
    } else {
      EscapeFirst(query);
      var rest := LikeEscape(query[1..]) + [PERCENT];
      assert LikeEscape(query) + [PERCENT] == EscapeCode(query[0]) + rest;
      assert (EscapeCode(query[0]) + rest)[|EscapeCode(query[0])|..] == rest;
      if text != [] {
        LikePrefix(text[1..], query[1..]);
        LowerFirst(query);
        LowerFirst(text);
      }
    }
  }

  lemma EscapeOfNothing()
    ensures LikeEscape([]) == []
  {
  }

  lemma LowerFirst(t: Text)
    requires t != []
    ensures Lower(t) == [LowerCode(t[0])] + Lower(t[1..])
    ensures Lower(t)[1..] == Lower(t[1..])
  {
  }

  /** With wildcards on both sides it matches the texts that contain the query. */
  lemma {:induction false} LikeContains(text: Text, query: Text)
    ensures Like(text, [PERCENT] + (LikeEscape(query) + [PERCENT])) <==> Contains(Lower(text), Lower(query))
    decreases |text|
  {
    hide LikeEscape, Lower;
    var rest := LikeEscape(query) + [PERCENT];
    assert ([PERCENT] + rest)[1..] == rest;
    LikePrefix(text, query);
    if text != [] {
      LikeContains(text[1..], query);
      LowerFirst(text);
    }
  }

  /** The SQL condition is the in-memory one. */
  lemma MatchesIsFound(row: Row, query: Text)
    ensures Matches(row, query) <==> Found(row, query)
  {
    hide Like, LikeEscape, Contains, Lower;
    if query != [] {
      assert [PERCENT] + LikeEscape(query) + [PERCENT] == [PERCENT] + (LikeEscape(query) + [PERCENT]);
      LikeContains(row.id, query);
      LikeContains(row.filename, query);
    }
  }

  /** One character, capital letters of ASCII being like small ones. */
  predicate SameLetter(a: Code, b: Code) {
    a == b || ('A' as int <= a <= 'Z' as int && b == a + 32) || ('A' as int <= b <= 'Z' as int && a == b + 32)
  }

  predicate OccursAt(part: Text, whole: Text, i: nat) {
    i + |part| <= |whole| && forall k :: 0 <= k < |part| ==> SameLetter(whole[i + k], part[k])
  }

  lemma OccursFirst(part: Text, whole: Text)
    ensures Lower(part) <= Lower(whole) <==> OccursAt(part, whole, 0)
  {
    if Lower(part) <= Lower(whole) {
      forall k | 0 <= k < |part| ensures SameLetter(whole[0 + k], part[k]) {
        assert Lower(whole)[k] == Lower(part)[k];
      }
    }
  }

  lemma OccursLater(part: Text, whole: Text, i: nat)
    requires whole != []
    ensures OccursAt(part, whole[1..], i) <==> OccursAt(part, whole, i + 1)
  {
    hide SameLetter;
    if i + 1 + |part| <= |whole| {
      forall k | 0 <= k < |part|
        ensures SameLetter(whole[1..][i + k], part[k]) == SameLetter(whole[i + 1 + k], part[k])
      {
        assert whole[1..][i + k] == whole[i + 1 + k];
      }
    }
  }

  lemma {:induction false} ContainsExactly(whole: Text, part: Text)
    ensures Contains(Lower(whole), Lower(part)) <==> exists i: nat :: OccursAt(part, whole, i)
  {
    hide Lower, OccursAt;
    OccursFirst(part, whole);
    if whole != [] {
      LowerFirst(whole);
      ContainsExactly(whole[1..], part);
      forall i: nat ensures OccursAt(part, whole[1..], i) <==> OccursAt(part, whole, i + 1) {
        OccursLater(part, whole, i);
      }
      if i: nat :| OccursAt(part, whole, i) && i > 0 { assert OccursAt(part, whole[1..], i - 1); }
    } else {
      OccursInNothing(part);
    }
  }

  lemma OccursInNothing(part: Text)
    ensures forall i: nat :: OccursAt(part, [], i) ==> i == 0
  {
  }

  /** The rows a query picks: those with the query somewhere in their id or in their filename, in any case, the
      wildcards of LIKE being ordinary characters; the empty query picks all. */
  lemma MatchesExactly(row: Row, query: Text)
    ensures Matches(row, query) <==>
      || query == []
      || (exists i: nat :: OccursAt(query, row.id, i))
      || (exists i: nat :: OccursAt(query, row.filename, i))
  {
    hide Matches, Contains, Lower, OccursAt;
    MatchesIsFound(row, query);
    ContainsExactly(row.id, query);
    ContainsExactly(row.filename, query);
  }

  lemma {:induction false} ContainsShorter(whole: Text, part: Text, shorter: Text)
    requires Contains(whole, part) && shorter <= part
    ensures Contains(whole, shorter)
  {
    if !(part <= whole) { ContainsShorter(whole[1..], part, shorter); }
  }

  /** A longer query can only match fewer rows. */
  lemma MatchesNarrows(row: Row, query: Text, shorter: Text)
    requires Matches(row, query) && shorter <= query
    ensures Matches(row, shorter)
  {
    hide Matches, Contains;
    MatchesIsFound(row, query);
    MatchesIsFound(row, shorter);
    assert Lower(shorter) <= Lower(query);
    if query != [] && shorter != [] {
      if Contains(Lower(row.id), Lower(query)) { ContainsShorter(Lower(row.id), Lower(query), Lower(shorter)); }
      if Contains(Lower(row.filename), Lower(query)) {
        ContainsShorter(Lower(row.filename), Lower(query), Lower(shorter));
      }
    }
  }

  // ----- queries

  /** All rows that match, in id order. */
  function Matching(table: seq<Row>, query: Text): (rows: seq<Row>)
    ensures forall r :: r in rows <==> r in table && Matches(r, query)
  {
    if table == [] then []
    else (if Matches(table[0], query) then [table[0]] else []) + Matching(table[1..], query)
  }

  lemma {:induction false} MatchingEverything(table: seq<Row>)
    ensures Matching(table, []) == table
  {
    if table != [] { MatchingEverything(table[1..]); }
  }

  /** `evidence_id >= key` or `> key`; no key keeps every row. */
  predicate FromKey(r: Row, key: Option<Text>, inclusive: bool) {
    key.None? || Less(key.value, r.id) || (inclusive && r.id == key.value)
  }

  /** `evidence_id <= key` or `< key`. */
  predicate UpToKey(r: Row, key: Option<Text>, inclusive: bool) {
    key.None? || Less(r.id, key.value) || (inclusive && r.id == key.value)
  }

  function SelectFrom(table: seq<Row>, query: Text, key: Option<Text>, inclusive: bool): seq<Row> {
    if table == [] then []
    else (if Matches(table[0], query) && FromKey(table[0], key, inclusive) then [table[0]] else []) +
         SelectFrom(table[1..], query, key, inclusive)
  }

  function SelectUpTo(table: seq<Row>, query: Text, key: Option<Text>, inclusive: bool): seq<Row> {
    if table == [] then []
    else (if Matches(table[0], query) && UpToKey(table[0], key, inclusive) then [table[0]] else []) +
         SelectUpTo(table[1..], query, key, inclusive)
  }

  function Min(a: int, b: int): int { if a < b then a else b }

  function Max(a: int, b: int): int { if a > b then a else b }

  /** `EvidenceSource.forward`: the first `limit` matching rows from the key on. */
  function Forward(table: seq<Row>, query: Text, key: Option<Text>, inclusive: bool, limit: nat): seq<Row> {
    var rows := SelectFrom(table, query, key, inclusive);
    rows[..Min(limit, |rows|)]
  }

  /** `EvidenceSource.backward`: the last `limit` matching rows up to the key, in ascending order. */
  function Backward(table: seq<Row>, query: Text, key: Option<Text>, inclusive: bool, limit: nat): seq<Row> {
    var rows := SelectUpTo(table, query, key, inclusive);
    rows[|rows| - Min(limit, |rows|)..]
  }

  /** `EvidenceSource.narrow`: of the rows with these ids, the ones that match, in id order. */
  function Narrow(table: seq<Row>, query: Text, ids: set<Text>): seq<Row> {
    if table == [] then []
    else (if table[0].id in ids && Matches(table[0], query) then [table[0]] else []) + Narrow(table[1..], query, ids)
  }

  lemma {:induction false} MatchingIsSorted(table: seq<Row>, query: Text)
    requires Sorted(table)
    ensures Sorted(Matching(table, query))
  {
    hide Matches;
    if table != [] {
      assert Sorted(table[1..]);
      MatchingIsSorted(table[1..], query);
      var rest := Matching(table[1..], query);
      forall i | 0 <= i < |rest| ensures Less(table[0].id, rest[i].id) {
        assert rest[i] in table[1..];
      }
    }
  }

  function KeepFrom(rows: seq<Row>, key: Option<Text>, inclusive: bool): seq<Row> {
    if rows == [] then []
    else (if FromKey(rows[0], key, inclusive) then [rows[0]] else []) + KeepFrom(rows[1..], key, inclusive)
  }

  function KeepUpTo(rows: seq<Row>, key: Option<Text>, inclusive: bool): seq<Row> {
    if rows == [] then []
    else (if UpToKey(rows[0], key, inclusive) then [rows[0]] else []) + KeepUpTo(rows[1..], key, inclusive)
  }

  lemma {:induction false} SelectIsKeep(table: seq<Row>, query: Text, key: Option<Text>, inclusive: bool)
    ensures SelectFrom(table, query, key, inclusive) == KeepFrom(Matching(table, query), key, inclusive)
    ensures SelectUpTo(table, query, key, inclusive) == KeepUpTo(Matching(table, query), key, inclusive)
  {
    hide Matches, FromKey, UpToKey;
    if table != [] {
      SelectIsKeep(table[1..], query, key, inclusive);
      if Matches(table[0], query) {
        assert Matching(table, query)[1..] == Matching(table[1..], query);
      } else {
        assert Matching(table, query) == Matching(table[1..], query);
      }
    }
  }

  /** From row `a` of a sorted result on. */
  lemma {:induction false} KeepFromRow(rows: seq<Row>, a: nat, inclusive: bool)
    requires Sorted(rows) && a < |rows|
    ensures KeepFrom(rows, Some(rows[a].id), inclusive) == rows[if inclusive then a else a + 1..]
    decreases |rows|
  {
    hide Less;
    assert Sorted(rows[1..]);
    if a == 0 {
      LessIrreflexive(rows[0].id);
      KeepAllAfter(rows[1..], rows[0].id, inclusive);
    } else {
      KeepFromRow(rows[1..], a - 1, inclusive);
      NotLess(rows[0].id, rows[a].id);
    }
  }

  lemma NotLess(a: Text, b: Text)
    requires Less(a, b)
    ensures !Less(b, a) && a != b
  {
    LessIrreflexive(a);
    if Less(b, a) { LessTransitive(a, b, a); }
  }

  lemma {:induction false} KeepAllAfter(rows: seq<Row>, key: Text, inclusive: bool)
    requires forall i :: 0 <= i < |rows| ==> Less(key, rows[i].id)
    ensures KeepFrom(rows, Some(key), inclusive) == rows
  {
    hide Less;
    if rows != [] { KeepAllAfter(rows[1..], key, inclusive); }
  }

  /** Up to row `a` of a sorted result. */
  lemma {:induction false} KeepUpToRow(rows: seq<Row>, a: nat, inclusive: bool)
    requires Sorted(rows) && a < |rows|
    ensures KeepUpTo(rows, Some(rows[a].id), inclusive) == rows[..if inclusive then a + 1 else a]
    decreases |rows|
  {
    hide Less;
    assert Sorted(rows[1..]);
    if a == 0 {
      LessIrreflexive(rows[0].id);
      KeepNoneAfter(rows[1..], rows[0].id, inclusive);
    } else {
      KeepUpToRow(rows[1..], a - 1, inclusive);
      assert rows[..a] == [rows[0]] + rows[1..][..a - 1];
      assert rows[..a + 1] == [rows[0]] + rows[1..][..a];
    }
  }

  lemma {:induction false} KeepNoneAfter(rows: seq<Row>, key: Text, inclusive: bool)
    requires forall i :: 0 <= i < |rows| ==> Less(key, rows[i].id)
    ensures KeepUpTo(rows, Some(key), inclusive) == []
  {
    hide Less;
    if rows != [] {
      NotLess(key, rows[0].id);
      KeepNoneAfter(rows[1..], key, inclusive);
    }
  }

  lemma {:induction false} KeepWithoutKey(rows: seq<Row>, inclusive: bool)
    ensures KeepFrom(rows, None, inclusive) == rows && KeepUpTo(rows, None, inclusive) == rows
  {
    if rows != [] { KeepWithoutKey(rows[1..], inclusive); }
  }

  // ----- what the queries return, in terms of places in the full result

  lemma ForwardFromStart(table: seq<Row>, query: Text, limit: nat)
    ensures var all := Matching(table, query);
      Forward(table, query, None, true, limit) == all[..Min(limit, |all|)]
  {
    hide Matching, SelectFrom, KeepFrom;
    SelectIsKeep(table, query, None, true);
    KeepWithoutKey(Matching(table, query), true);
  }

  lemma BackwardFromEnd(table: seq<Row>, query: Text, limit: nat)
    ensures var all := Matching(table, query);
      Backward(table, query, None, true, limit) == all[Max(|all| - limit, 0)..]
  {
    hide Matching, SelectUpTo, KeepUpTo;
    SelectIsKeep(table, query, None, true);
    KeepWithoutKey(Matching(table, query), true);
  }

  lemma ForwardFromRow(table: seq<Row>, query: Text, a: nat, inclusive: bool, limit: nat)
    requires Sorted(table) && a < |Matching(table, query)|
    ensures var all := Matching(table, query); var from := if inclusive then a else a + 1;
      Forward(table, query, Some(all[a].id), inclusive, limit) == all[from..Min(from + limit, |all|)]
  {
    hide Matching, SelectFrom, KeepFrom;
    var all := Matching(table, query);
    SelectIsKeep(table, query, Some(all[a].id), inclusive);
    MatchingIsSorted(table, query);
    KeepFromRow(all, a, inclusive);
  }

  lemma BackwardFromRow(table: seq<Row>, query: Text, a: nat, inclusive: bool, limit: nat)
    requires Sorted(table) && a < |Matching(table, query)|
    ensures var all := Matching(table, query); var to := if inclusive then a + 1 else a;
      Backward(table, query, Some(all[a].id), inclusive, limit) == all[Max(to - limit, 0)..to]
  {
    hide Matching, SelectUpTo, KeepUpTo;
    var all := Matching(table, query);
    SelectIsKeep(table, query, Some(all[a].id), inclusive);
    MatchingIsSorted(table, query);
    KeepUpToRow(all, a, inclusive);
  }

  /** Narrowing a complete result of a shorter query gives the complete result of the longer one. */
  lemma {:induction false} NarrowIsMatching(table: seq<Row>, query: Text, shorter: Text)
    requires shorter <= query
    ensures Narrow(table, query, set r | r in Matching(table, shorter) :: r.id) == Matching(table, query)
  {
    var ids := set r | r in Matching(table, shorter) :: r.id;
    NarrowKeeps(table, table, query, shorter, ids);
  }

  lemma {:induction false} NarrowKeeps(part: seq<Row>, table: seq<Row>, query: Text, shorter: Text, ids: set<Text>)
    requires shorter <= query && (forall r :: r in part ==> r in table)
    requires forall r :: r in Matching(table, shorter) ==> r.id in ids
    ensures Narrow(part, query, ids) == Matching(part, query)
  {
    hide Matches;
    if part != [] {
      NarrowKeeps(part[1..], table, query, shorter, ids);
      if Matches(part[0], query) { MatchesNarrows(part[0], query, shorter); }
    }
  }
}
