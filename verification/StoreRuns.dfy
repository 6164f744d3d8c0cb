/** Every interleaving of loads, appends and saves by any number of writers that share one signing key. */
module StoreRuns {
  import opened Wrappers
  import opened Events
  import opened JsonArrays
  import opened HashChains
  import opened Stores

  datatype Action = LoadBy(writer: nat) | AddBy(writer: nat, details: Details) | SaveBy(writer: nat)

  /** The table and the writers' chains; a writer that did nothing yet has an empty chain. */
  datatype World = World(table: seq<Row>, writers: map<nat, Writer>)

  function WriterOf(w: World, n: nat): Writer {
    if n in w.writers then w.writers[n] else Writer([], 0)
  }

  function Step(c: Crypto, w: World, a: Action): World {
    match a
    case LoadBy(n) =>
      var loaded := Load(w.table);
      if loaded.None? then w else w.(writers := w.writers[n := loaded.value])
    case AddBy(n, d) => w.(writers := w.writers[n := Add(c, WriterOf(w, n), d)])
    case SaveBy(n) =>
      if WriterOf(w, n).persisted > |WriterOf(w, n).entries| then w
      else
        var (table, writer, _) := Save(w.table, WriterOf(w, n));
        World(table, w.writers[n := writer])
  }

  function After(c: Crypto, w: World, actions: seq<Action>): World {
    if actions == [] then w else Step(c, After(c, w, actions[..|actions| - 1]), actions[|actions| - 1])
  }

  /** A log as `add_event` makes it: numbered from 0, well formed, and verifying. */
  ghost predicate GoodLog(c: Crypto, events: seq<Event>) {
    && (forall i :: 0 <= i < |events| ==> events[i].index == i && Proper(events[i]))
    && ChainOk(c, events)
  }

  /** The table holds a good log. */
  ghost predicate GoodTable(c: Crypto, table: seq<Row>) {
    && LoadEvents(table).Some? && GoodLog(c, LoadEvents(table).value) && Rows(LoadEvents(table).value) == table
  }

  /** A writer's chain is a good log that agrees with the table on what the writer knows to be there. */
  ghost predicate GoodWriter(c: Crypto, table: seq<Row>, w: Writer) {
    && w.persisted <= |w.entries| && w.persisted <= |table| && GoodLog(c, w.entries)
    && Rows(w.entries[..w.persisted]) == table[..w.persisted]
  }

  ghost predicate Good(c: Crypto, w: World) {
    && GoodTable(c, w.table) && forall n: nat :: GoodWriter(c, w.table, WriterOf(w, n))
  }

  lemma GoodWriterOfLonger(c: Crypto, table: seq<Row>, longer: seq<Row>, w: Writer)
    requires GoodWriter(c, table, w) && table <= longer
    ensures GoodWriter(c, longer, w)
  {
    assert table[..w.persisted] == longer[..w.persisted];
  }

  /** Loading what was stored gives the stored events. */
  lemma {:induction false} RowsLoad(events: seq<Event>)
    requires forall i :: 0 <= i < |events| ==> Proper(events[i])
    ensures LoadEvents(Rows(events)) == Some(AllStored(events))
  {
    hide RowToEvent, EventToRow, Stored, Proper;
    if events != [] {
      StoredIsLoaded(events[0]);
      RowsLoad(events[1..]);
      assert Rows(events)[1..] == Rows(events[1..]);
    }
  }

  function AllStored(events: seq<Event>): (stored: seq<Event>)
    ensures |stored| == |events| && forall i :: 0 <= i < |events| ==> stored[i] == Stored(events[i])
  {
    if events == [] then [] else [Stored(events[0])] + AllStored(events[1..])
  }

  /** Storing keeps a log good and its rows the same. */
  lemma {:induction false} StoredLogIsGood(c: Crypto, events: seq<Event>)
    requires GoodLog(c, events)
    ensures GoodLog(c, AllStored(events)) && Rows(AllStored(events)) == Rows(events)
  {
    hide Payload, EventToRow, AllStored;
    var stored := AllStored(events);
    forall i | 0 <= i < |events|
      ensures stored[i].index == i && Proper(stored[i]) && EventToRow(stored[i]) == EventToRow(events[i])
      ensures EntryOk(c, stored, i)
    {
      StoredKeepsPayload(events[i]);
      assert LastHash(stored[..i]) == LastHash(events[..i]);
      assert EntryOk(c, events, i);
    }
    assert Rows(stored) == Rows(events);
  }

  lemma {:induction false} GoodRows(c: Crypto, events: seq<Event>)
    requires GoodLog(c, events)
    ensures GoodTable(c, Rows(events))
  {
    hide ChainOk;
    RowsLoad(events);
    StoredLogIsGood(c, events);
  }

  lemma GoodTableIsNumbered(c: Crypto, table: seq<Row>)
    requires GoodTable(c, table)
    ensures Numbered(table)
  {
    forall i | 0 <= i < |table| ensures table[i].idx == i {
      assert Rows(LoadEvents(table).value)[i].idx == i;
    }
  }

  /** A save either extends the table by the writer's new entries, or is stale and changes nothing. */
  lemma {:induction false} SaveExtends(c: Crypto, table: seq<Row>, w: Writer)
    requires GoodTable(c, table) && GoodWriter(c, table, w)
    ensures var (after, writer, ok) := Save(table, w);
      && table <= after && GoodTable(c, after) && GoodWriter(c, after, writer)
      && (ok <==> w.persisted == |table| || w.persisted == |w.entries|)
      && (!ok ==> after == table && writer == w)
      && (ok ==> writer.entries == w.entries && writer.persisted == |w.entries|)
      && (ok && w.persisted < |w.entries| ==> after == Rows(w.entries))
  {
    hide ChainOk, LoadEvents, EventToRow, Payload, InsertRow, Proper;
    GoodTableIsNumbered(c, table);
    var new', rows := w.entries[w.persisted..], Rows(w.entries[w.persisted..]);
    RowKeys(w.entries, w.persisted);
    if new' == [] {
      assert rows == [];
      assert w.entries[..w.persisted] == w.entries;
    } else if w.persisted == |table| {
      InsertNext(table, rows);
      assert table + rows == Rows(w.entries) by {
        assert table[..|table|] == table;
        assert Rows(w.entries) == Rows(w.entries[..w.persisted]) + rows;
      }
      GoodRows(c, w.entries);
      assert w.entries[..|w.entries|] == w.entries;
    } else {
      InsertNumbered(table, rows[0], 0);
    }
  }

  lemma RowKeys(events: seq<Event>, from: nat)
    requires from <= |events| && forall i :: 0 <= i < |events| ==> events[i].index == i
    ensures forall i :: 0 <= i < |events| - from ==> Rows(events[from..])[i].idx == from + i
  {
  }

  lemma LoadIsGood(c: Crypto, table: seq<Row>)
    requires GoodTable(c, table)
    ensures Load(table).Some? && GoodWriter(c, table, Load(table).value)
  {
    hide ChainOk, LoadEvents, EventToRow;
    var events := LoadEvents(table).value;
    assert events[..|events|] == events && table[..|table|] == table;
  }

  lemma {:induction false} AddIsGood(c: Crypto, table: seq<Row>, w: Writer, d: Details)
    requires Sane(c) && GoodWriter(c, table, w)
    ensures GoodWriter(c, table, Add(c, w, d))
  {
    hide ChainOk, Payload, EventToRow, NextEvent;
    if NamesOneKind(d) {
      AppendKeepsChain(c, w.entries, d);
      assert Add(c, w, d).entries[..w.persisted] == w.entries[..w.persisted];
    }
  }

  /** One action keeps everything good, and the table only grows by extension. */
  lemma StepIsGood(c: Crypto, w: World, a: Action)
    requires Sane(c) && Good(c, w)
    ensures Good(c, Step(c, w, a)) && w.table <= Step(c, w, a).table
  {
    hide GoodTable, GoodWriter, Add, Save, Load;
    var after := Step(c, w, a);
    assert GoodWriter(c, w.table, WriterOf(w, a.writer));
    GoodWriterBounds(c, w.table, WriterOf(w, a.writer));
    match a {
      case LoadBy(n) => LoadIsGood(c, w.table);
      case AddBy(n, d) => AddIsGood(c, w.table, WriterOf(w, n), d);
      case SaveBy(n) => SaveExtends(c, w.table, WriterOf(w, n));
    }
    forall n: nat ensures GoodWriter(c, after.table, WriterOf(after, n)) {
      if n != a.writer {
        assert WriterOf(after, n) == WriterOf(w, n);
        GoodWriterOfLonger(c, w.table, after.table, WriterOf(w, n));
      }
    }
  }

  lemma GoodWriterBounds(c: Crypto, table: seq<Row>, w: Writer)
    requires GoodWriter(c, table, w)
    ensures w.persisted <= |w.entries|
  {
  }

  lemma EmptyIsGood(c: Crypto)
    ensures Good(c, World([], map[]))
  {
    assert Rows([]) == [];
  }

  /** Main result: after any interleaving the stored log is numbered from 0 and verifies, and whatever follows
      only extends it. */
  lemma {:induction false} StoreIsSafe(c: Crypto, actions: seq<Action>)
    requires Sane(c)
    ensures Good(c, After(c, World([], map[]), actions))
    decreases |actions|
  {
    hide Good, Step;
    EmptyIsGood(c);
    if actions != [] {
      StoreIsSafe(c, actions[..|actions| - 1]);
      StepIsGood(c, After(c, World([], map[]), actions[..|actions| - 1]), actions[|actions| - 1]);
    }
  }

  lemma {:induction false} StoreOnlyGrows(c: Crypto, actions: seq<Action>, more: seq<Action>)
    requires Sane(c)
    ensures After(c, World([], map[]), actions).table <= After(c, World([], map[]), actions + more).table
    decreases |more|
  {
    hide Good, Step;
    if more == [] {
      assert actions + more == actions;
    } else {
      var all, fewer := actions + more, more[..|more| - 1];
      assert all[..|all| - 1] == actions + fewer;
      StoreOnlyGrows(c, actions, fewer);
      StoreIsSafe(c, actions + fewer);
      StepIsGood(c, After(c, World([], map[]), actions + fewer), all[|all| - 1]);
    }
  }

  /** What a caller gives is what is stored and loaded: in any run, when a writer that is up to date appends an entry
      and saves, whoever loads next finds it at the end of the log, with exactly the details given (surrogate pairs in
      the ids joined). */
  lemma {:induction false} DetailsAreStored(c: Crypto, actions: seq<Action>, n: nat, d: Details, m: nat)
    requires Sane(c) && NamesOneKind(d)
    requires var w := After(c, World([], map[]), actions); WriterOf(w, n).persisted == |w.table|
    ensures var w := After(c, World([], map[]), actions);
      var loaded := WriterOf(Step(c, Step(c, Step(c, w, AddBy(n, d)), SaveBy(n)), LoadBy(m)), m);
      && loaded.persisted == |loaded.entries| == |WriterOf(w, n).entries| + 1
      && var e := loaded.entries[|loaded.entries| - 1];
         && e.actor == d.actor && e.action == d.action && e.timestamp == d.timestamp
         && e.evidenceIds == (if d.evidenceIds.Some? then Some(MergeAll(d.evidenceIds.value)) else None)
         && (d.evidenceId.Some? ==> e.evidenceId == d.evidenceId.value)
         && (d.evidenceIds.Some? ==> e.caseNumber == d.caseNumber && e.tag == d.tag && e.notes == d.notes)
  {
    hide ChainOk, Payload, EventToRow, NextEvent, RowToEvent, InsertRow, LoadEvents, GoodTable, Proper, MergeAll;
    var w := After(c, World([], map[]), actions);
    StoreIsSafe(c, actions);
    var before := WriterOf(w, n);
    var e := NextEvent(c, before.entries, d);
    assert GoodWriter(c, w.table, before);
    AddIsGood(c, w.table, before, d);
    SaveExtends(c, w.table, Add(c, before, d));
    AppendedLast(before.entries, e);
    LoadIsGood(c, Rows(before.entries + [e]));
    LoadsEachRow(Rows(before.entries + [e]));
    StoredIsLoaded(e);
  }

  lemma AppendedLast(entries: seq<Event>, e: Event)
    ensures var rows := Rows(entries + [e]); |rows| == |entries| + 1 && rows[|entries|] == EventToRow(e)
  {
  }

  /** A save by a writer that has new entries and is behind the table fails and changes nothing. */
  lemma StaleSaveChangesNothing(c: Crypto, actions: seq<Action>, n: nat)
    requires Sane(c)
    ensures var w := After(c, World([], map[]), actions);
      var writer := WriterOf(w, n);
      writer.persisted < |writer.entries| && writer.persisted < |w.table| ==>
        var after := Step(c, w, SaveBy(n));
        !Save(w.table, writer).2 && after.table == w.table && WriterOf(after, n) == writer
  {
    hide Save, GoodTable, GoodWriter;
    var w := After(c, World([], map[]), actions);
    StoreIsSafe(c, actions);
    assert GoodWriter(c, w.table, WriterOf(w, n));
    GoodWriterBounds(c, w.table, WriterOf(w, n));
    SaveExtends(c, w.table, WriterOf(w, n));
  }
}
