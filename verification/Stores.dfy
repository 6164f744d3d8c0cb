/** The custody log in its table, and several writers that load, append and save. */
module Stores {
  import opened Wrappers
  import opened Texts
  import opened Json
  import opened JsonArrays
  import opened Events
  import opened HashChains

  /** A row of `custody_log`. */
  datatype Row = Row(
    idx: int, evidenceId: Option<Text>, evidenceIds: Option<Text>, actor: Text, action: Text, timestamp: Text,
    prevHash: Text, caseNumber: Option<Text>, tag: Option<Text>, notes: Option<Text>, entryHash: Text, signature: Text)

  /** `event_to_row` */
  function EventToRow(e: Event): Row {
    Row(e.index, if e.evidenceIds.None? then Some(e.evidenceId) else None,
        if e.evidenceIds.None? then None else Some(DumpList(e.evidenceIds.value)),
        e.actor, e.action, e.timestamp, e.prevHash, e.caseNumber, e.tag, e.notes, e.entryHash, e.signature)
  }

  /** `row_to_event`. None: the list of ids is not the JSON of a list of strings. */
  function RowToEvent(r: Row): Option<Event> {
    if r.evidenceIds.None? then
      Some(Event(r.idx, OrEmpty(r.evidenceId), r.actor, r.action, r.timestamp, r.prevHash, None, None, None, None,
                 r.entryHash, r.signature))
    else
      var ids := LoadList(r.evidenceIds.value);
      if ids.None? then None
      else Some(Event(r.idx, [], r.actor, r.action, r.timestamp, r.prevHash, ids, r.caseNumber, r.tag, r.notes,
                      r.entryHash, r.signature))
  }

  /** What an event becomes by being stored and loaded: surrogate pairs in its ids are joined. */
  function Stored(e: Event): Event {
    if e.evidenceIds.None? then e else e.(evidenceIds := Some(MergeAll(e.evidenceIds.value)))
  }

  lemma StoredIsLoaded(e: Event)
    requires Proper(e)
    ensures RowToEvent(EventToRow(e)) == Some(Stored(e))
  {
    hide LoadList, DumpList;
    if e.evidenceIds.Some? { LoadsDumps(e.evidenceIds.value); }
  }

  // ----- storing does not change what is hashed

  lemma BodyFirst(pieces: seq<Text>)
    requires pieces != []
    ensures Body(pieces) == pieces[0] + Body(pieces[1..])
  {
  }

  lemma DumpPiecesFirst(v: Text)
    requires v != []
    ensures DumpPieces(v)[0] == DumpPiece(v[0]) && DumpPieces(v)[1..] == DumpPieces(v[1..])
  {
  }

  lemma DumpOfJoined(high: Code, low: Code)
    requires IsHigh(high) && IsLow(low)
    ensures DumpPiece(JoinSurrogates(high, low)) == DumpPiece(high) + DumpPiece(low)
  {
    hide DumpUnicode;
    var c := JoinSurrogates(high, low);
    assert HighOf(c) == high && LowOf(c) == low;
  }

  /** `json.dumps` writes a joined pair as it writes its two halves. */
  lemma {:induction false} DumpOfMerged(v: Text)
    ensures Body(DumpPieces(Merge(v))) == Body(DumpPieces(v))
    decreases |v|
  {
    hide Body, DumpPieces, DumpPiece;
    if v != [] {
      MergeCases(v);
      DumpPiecesFirst(v);
      DumpPiecesFirst(Merge(v));
      BodyFirst(DumpPieces(v));
      BodyFirst(DumpPieces(Merge(v)));
      if |v| >= 2 && IsHigh(v[0]) && IsLow(v[1]) {
        DumpOfMerged(v[2..]);
        DumpPiecesFirst(v[1..]);
        BodyFirst(DumpPieces(v[1..]));
        DumpOfJoined(v[0], v[1]);
        assert v[1..][1..] == v[2..];
        assert Merge(v)[1..] == Merge(v[2..]);
      } else {
        DumpOfMerged(v[1..]);
        assert Merge(v)[1..] == Merge(v[1..]);
      }
    }
  }

  lemma {:induction false} DumpItemsOfMerged(list: seq<Text>)
    ensures DumpItems(MergeAll(list)) == DumpItems(list)
  {
    hide Body, DumpPieces, Merge;
    if list != [] {
      DumpOfMerged(list[0]);
      DumpItemsOfMerged(list[1..]);
      assert MergeAll(list)[1..] == MergeAll(list[1..]);
    }
  }

  lemma StoredKeepsPayload(e: Event)
    ensures Payload(Stored(e)) == Payload(e) && EventToRow(Stored(e)) == EventToRow(e)
    ensures Proper(e) ==> Proper(Stored(e))
  {
    hide DumpItems, MergeAll;
    if e.evidenceIds.Some? { DumpItemsOfMerged(e.evidenceIds.value); }
  }

  // ----- the table

  /** Inserting one row into rows kept in order of their key. None: the key is taken. */
  function InsertRow(table: seq<Row>, row: Row): Option<seq<Row>> {
    if table == [] || row.idx < table[0].idx then Some([row] + table)
    else if row.idx == table[0].idx then None
    else
      match InsertRow(table[1..], row)
      case None => None
      case Some(rest) => Some([table[0]] + rest)
  }

  /** `insert_events`: one transaction, all rows or none. */
  function InsertRows(table: seq<Row>, rows: seq<Row>): Option<seq<Row>>
    decreases |rows|
  {
    if rows == [] then Some(table)
    else
      match InsertRow(table, rows[0])
      case None => None
      case Some(t) => InsertRows(t, rows[1..])
  }

  function Rows(events: seq<Event>): (rows: seq<Row>)
    ensures |rows| == |events|
    ensures forall i :: 0 <= i < |events| ==> rows[i] == EventToRow(events[i])
  {
    seq(|events|, i requires 0 <= i < |events| => EventToRow(events[i]))
  }

  /** `load_events`. None: some row cannot be read. */
  function LoadEvents(table: seq<Row>): Option<seq<Event>> {
    if table == [] then Some([])
    else
      match (RowToEvent(table[0]), LoadEvents(table[1..]))
      case (Some(e), Some(rest)) => Some([e] + rest)
      case _ => None
  }

  /** Rows with the keys 0, 1, 2, ... */
  predicate Numbered(table: seq<Row>) {
    forall i :: 0 <= i < |table| ==> table[i].idx == i
  }

  /** A row with the next key goes to the end, and a key that is already there is refused. */
  lemma {:induction false} InsertNumbered(table: seq<Row>, row: Row, from: int)
    requires forall i :: 0 <= i < |table| ==> table[i].idx == from + i
    ensures row.idx == from + |table| ==> InsertRow(table, row) == Some(table + [row])
    ensures from <= row.idx < from + |table| ==> InsertRow(table, row) == None
    decreases |table|
  {
    if table == [] {
      assert [row] + table == table + [row];
    } else if row.idx > table[0].idx {
      InsertNumbered(table[1..], row, from + 1);
      assert table + [row] == [table[0]] + (table[1..] + [row]);
    }
  }

  lemma {:induction false} InsertNext(table: seq<Row>, rows: seq<Row>)
    requires Numbered(table) && forall i :: 0 <= i < |rows| ==> rows[i].idx == |table| + i
    ensures InsertRows(table, rows) == Some(table + rows)
    decreases |rows|
  {
    if rows != [] {
      InsertNumbered(table, rows[0], 0);
      InsertNext(table + [rows[0]], rows[1..]);
      assert table + [rows[0]] + rows[1..] == table + rows;
    } else {
      assert table + rows == table;
    }
  }

  /** Loading reads every row, in order. */
  lemma {:induction false} LoadsEachRow(table: seq<Row>)
    ensures LoadEvents(table).Some? <==> forall r :: r in table ==> RowToEvent(r).Some?
    ensures LoadEvents(table).Some? ==>
      && |LoadEvents(table).value| == |table|
      && forall i :: 0 <= i < |table| ==> RowToEvent(table[i]) == Some(LoadEvents(table).value[i])
  {
    hide RowToEvent;
    if table != [] {
      LoadsEachRow(table[1..]);
      assert table[0] in table;
      assert forall r :: r in table <==> r == table[0] || r in table[1..];
    }
  }

  /** A row goes in once, and nothing else changes. */
  lemma {:induction false} InsertsOne(table: seq<Row>, row: Row)
    ensures InsertRow(table, row).Some? ==> multiset(InsertRow(table, row).value) == multiset(table) + multiset{row}
  {
    if table != [] {
      InsertsOne(table[1..], row);
      assert table == [table[0]] + table[1..];
    }
  }

  /** It is refused exactly if its key is there already. */
  lemma {:induction false} KeyIsTaken(table: seq<Row>, row: Row)
    requires forall i, j :: 0 <= i < j < |table| ==> table[i].idx < table[j].idx
    ensures InsertRow(table, row).None? <==> exists i :: 0 <= i < |table| && table[i].idx == row.idx
  {
    if table != [] && row.idx > table[0].idx {
      var rest := table[1..];
      KeyIsTaken(rest, row);
      if InsertRow(rest, row).None? {
        var i :| 0 <= i < |rest| && rest[i].idx == row.idx;
        assert table[i + 1].idx == row.idx;
      }
      if i :| 0 <= i < |table| && table[i].idx == row.idx {
        assert rest[i - 1] == table[i];
      }
    }
  }

  /** A transaction that goes through adds exactly its rows. */
  lemma {:induction false} InsertsAll(table: seq<Row>, rows: seq<Row>)
    ensures InsertRows(table, rows).Some? ==>
      multiset(InsertRows(table, rows).value) == multiset(table) + multiset(rows)
    decreases |rows|
  {
    hide InsertRow;
    if rows != [] {
      InsertsOne(table, rows[0]);
      assert rows == [rows[0]] + rows[1..];
      if InsertRow(table, rows[0]).Some? { InsertsAll(InsertRow(table, rows[0]).value, rows[1..]); }
    }
  }

  /** The columns of a row are the fields of its entry: an id or the JSON of a list of ids, never both. */
  lemma ColumnsAreFields(e: Event)
    ensures var r := EventToRow(e);
      && r.idx == e.index && r.actor == e.actor && r.action == e.action && r.timestamp == e.timestamp
      && r.prevHash == e.prevHash && r.entryHash == e.entryHash && r.signature == e.signature
      && r.caseNumber == e.caseNumber && r.tag == e.tag && r.notes == e.notes
      && (e.evidenceIds.None? ==> r.evidenceId == Some(e.evidenceId) && r.evidenceIds == None)
      && (e.evidenceIds.Some? ==>
            && r.evidenceId == None && r.evidenceIds.Some?
            && LoadList(r.evidenceIds.value) == Some(MergeAll(e.evidenceIds.value)))
  {
    hide LoadList, DumpList;
    if e.evidenceIds.Some? { LoadsDumps(e.evidenceIds.value); }
  }

  /** And back, for any row: without a list of ids the case number, tag and notes are not looked at. */
  lemma FieldsAreColumns(r: Row)
    ensures RowToEvent(r).None? <==> r.evidenceIds.Some? && LoadList(r.evidenceIds.value).None?
    ensures RowToEvent(r).Some? ==>
      var e := RowToEvent(r).value;
      && e.index == r.idx && e.actor == r.actor && e.action == r.action && e.timestamp == r.timestamp
      && e.prevHash == r.prevHash && e.entryHash == r.entryHash && e.signature == r.signature
      && (r.evidenceIds.None? ==>
            && e.evidenceIds.None? && e.evidenceId == (if r.evidenceId.Some? then r.evidenceId.value else [])
            && e.caseNumber.None? && e.tag.None? && e.notes.None?)
      && (r.evidenceIds.Some? ==>
            && e.evidenceIds == LoadList(r.evidenceIds.value) && e.evidenceId == []
            && e.caseNumber == r.caseNumber && e.tag == r.tag && e.notes == r.notes)
  {
    hide LoadList;
  }

  // ----- writers

  /** A writer's `HashChain`: its entries, and how many of them it knows to be in the table. */
  datatype Writer = Writer(entries: seq<Event>, persisted: nat)

  /** `load_db` */
  function Load(table: seq<Row>): Option<Writer> {
    match LoadEvents(table)
    case None => None
    case Some(events) => Some(Writer(events, |events|))
  }

  /** `add_event` */
  function Add(c: Crypto, w: Writer, d: Details): Writer {
    if NamesOneKind(d) then w.(entries := w.entries + [NextEvent(c, w.entries, d)]) else w
  }

  /** `save_db`: the new table, the writer, and whether the transaction went through. */
  function Save(table: seq<Row>, w: Writer): (seq<Row>, Writer, bool)
    requires w.persisted <= |w.entries|
  {
    match InsertRows(table, Rows(w.entries[w.persisted..]))
    case None => (table, w, false)
    case Some(t) => (t, Writer(w.entries, |w.entries|), true)
  }

  /** The table as the one object all writers share. */
  class Database {
    var table: seq<Row>

    constructor ()
      ensures table == []
    {
      table := [];
    }

    method InsertEvents(events: seq<Event>) returns (ok: bool)
      modifies this
      ensures ok <==> InsertRows(old(table), Rows(events)).Some?
      ensures table == if ok then InsertRows(old(table), Rows(events)).value else old(table)
    {
      var after := InsertRows(table, Rows(events));
      if after.None? {
        return false;
      }
      table := after.value;
      return true;
    }
  }

  /** `HashChain` */
  class HashChain {
    var entries: seq<Event>
    var persisted: nat

    ghost function State(): Writer
      reads this
    {
      Writer(entries, persisted)
    }

    constructor ()
      ensures State() == Writer([], 0)
    {
      entries, persisted := [], 0;
    }

    /** `load_db`, into this object. */
    method LoadDb(db: Database) returns (ok: bool)
      modifies this
      ensures ok <==> Load(db.table).Some?
      ensures State() == if ok then Load(db.table).value else old(State())
      ensures ok ==> persisted == |entries| == |db.table|
      ensures ok ==> forall i :: 0 <= i < |entries| ==> RowToEvent(db.table[i]) == Some(entries[i])
    {
      hide RowToEvent;
      LoadsEachRow(db.table);
      var events := LoadEvents(db.table);
      if events.None? {
        return false;
      }
      entries, persisted := events.value, |events.value|;
      return true;
    }

    /** `add_event`: one entry more, with exactly what was given, or a ValueError and no change. */
    method AddEvent(c: Crypto, d: Details) returns (r: Result<Event>)
      modifies this`entries
      ensures State() == Add(c, old(State()), d)
      ensures d.evidenceId.None? == d.evidenceIds.None? ==> r == Err(ValueError) && entries == old(entries)
      ensures d.evidenceId.None? != d.evidenceIds.None? ==>
        && r.Ok? && entries == old(entries) + [r.value]
        && r.value.index == |old(entries)|
        && r.value.prevHash == (if old(entries) == [] then GENESIS else old(entries[|entries| - 1].entryHash))
        && r.value.actor == d.actor && r.value.action == d.action && r.value.timestamp == d.timestamp
        && r.value.evidenceIds == d.evidenceIds
        && (d.evidenceId.Some? ==> r.value.evidenceId == d.evidenceId.value)
        && (d.evidenceIds.Some? ==>
              r.value.caseNumber == d.caseNumber && r.value.tag == d.tag && r.value.notes == d.notes)
        && r.value.entryHash == HashOf(c, Payload(r.value)) && r.value.signature == SignOf(c, r.value.entryHash)
    {
      hide Payload;
      if d.evidenceId.None? == d.evidenceIds.None? {
        return Err(ValueError);
      }
      var entry := NextEvent(c, entries, d);
      entries := entries + [entry];
      return Ok(entry);
    }

    method SaveDb(db: Database) returns (ok: bool)
      requires persisted <= |entries|
      modifies this`persisted, db
      ensures (db.table, State(), ok) == Save(old(db.table), old(State()))
      ensures persisted == if ok then |entries| else old(persisted)
      ensures !ok ==> db.table == old(db.table)
      ensures ok ==> multiset(db.table) == multiset(old(db.table)) + multiset(Rows(entries[old(persisted)..]))
    {
      hide EventToRow, InsertRow;
      InsertsAll(db.table, Rows(entries[persisted..]));
      ok := db.InsertEvents(entries[persisted..]);
      if ok {
        persisted := |entries|;
      }
    }
  }
}
