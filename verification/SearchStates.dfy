/** `SearchState`: what the search screen shows for what is typed, at a fixed height and on an unchanged table.

    Narrowing a complete result, resetting, and waiting for the worker's scan all show the same window. */
module SearchStates {
  import opened Wrappers
  import opened Texts
  import opened Evidence
  import opened Pagers
  import Searchers

  type Event = Searchers.Event

  /** The steps the worker takes by itself. */
  predicate OfWorker(steps: seq<Event>) {
    forall e :: e in steps ==> e.Start? || e.Aborted? || e.Finish?
  }

  lemma {:induction false} WorkKeeps(table: seq<Row>, s: Searchers.State, steps: seq<Event>)
    requires !s.closed && Searchers.Kept(table, s) && OfWorker(steps)
    ensures var t := Searchers.After(table, s, steps);
      && !t.closed && Searchers.Kept(table, t) && t.newest == s.newest && t.taken == s.taken
      && (s.pending.None? && s.running.None? ==> t == s)
    decreases |steps|
  {
    hide Searchers.Kept;
    if steps != [] {
      assert steps[0] in steps;
      Searchers.StepKeeps(table, s, steps[0]);
      WorkKeeps(table, Searchers.Step(table, s, steps[0]), steps[1..]);
    }
  }

  lemma {:induction false} AfterOneMore(table: seq<Row>, s: Searchers.State, steps: seq<Event>, e: Event)
    ensures Searchers.After(table, s, steps + [e]) == Searchers.Step(table, Searchers.After(table, s, steps), e)
    decreases |steps|
  {
    hide Searchers.Step;
    if steps == [] {
      assert [e][1..] == [];
    } else {
      assert (steps + [e])[1..] == steps[1..] + [e];
      AfterOneMore(table, Searchers.Step(table, s, steps[0]), steps[1..], e);
    }
  }

  lemma {:induction false} MatchingShrinks(table: seq<Row>, query: Text, shorter: Text)
    requires shorter <= query
    ensures |Matching(table, query)| <= |Matching(table, shorter)|
  {
    hide Matches;
    if table != [] {
      MatchingShrinks(table[1..], query, shorter);
      if Matches(table[0], query) { MatchesNarrows(table[0], query, shorter); }
    }
  }

  /** The ids of a window. */
  function Ids(rows: seq<Row>): set<Text> {
    set r | r in rows :: r.id
  }

  /** Narrowing a window that holds every match shows what a scan for the longer query would show. */
  lemma NarrowedWindow(table: seq<Row>, query: Text, shorter: Text, h: nat, v: View, rows: seq<Row>, sel: nat)
    requires h >= 1 && shorter <= query
    requires Frames(Matching(table, shorter), h, v, rows, sel, true, true)
    ensures var narrowed := Narrow(table, query, Ids(rows));
      && narrowed == Forward(table, query, None, true, h)
      && Frames(Matching(table, query), h, View(0, 0), narrowed, 0, true, true)
  {
    hide Matching, Narrow, Forward;
    var all := Matching(table, shorter);
    assert rows == all && |all| <= h by { FramesCount(all, h, v, rows, sel, true, true); }
    NarrowIsMatching(table, query, shorter);
    MatchingShrinks(table, query, shorter);
    ForwardFromStart(table, query, h);
  }

  /** The first window of a scan. */
  lemma ScannedWindow(table: seq<Row>, query: Text, h: nat)
    requires h >= 1
    ensures var rows := Forward(table, query, None, true, h);
      Frames(Matching(table, query), h, View(0, 0), rows, 0, true, |rows| < h)
  {
    hide Matching, Forward;
    ForwardFromStart(table, query, h);
  }

  /** What the screen hands on: keys, redraws, and the worker's own progress between them. */
  datatype Input =
    | Typed(text: Text)
    | Refreshed
    | Redrawn(between: seq<Event>)
    | Pressed(m: Move, between: seq<Event>, waiting: seq<Event>)
    | Worked(steps: seq<Event>)
  {
    predicate Valid() {
      match this
      case Typed(_) => true
      case Refreshed => true
      case Redrawn(between) => OfWorker(between)
      case Pressed(_, between, waiting) => OfWorker(between) && OfWorker(waiting)
      case Worked(steps) => OfWorker(steps)
    }
  }

  class SearchState {
    const table: seq<Row>
    const pager: Pager
    const searcher: Searchers.Searcher?
    var error: Option<Text>
    var wanted: Text
    var shown: Option<Text>
    var asked: Option<Text>
    /** The moves made since rows were last put on screen. */
    ghost var moves: seq<Move>

    /** The view that the moves since then lead to in the full result. */
    ghost function Place(h: nat): View
      reads this, pager
    {
      MovedBy(View(0, 0), moves, h, |Matching(table, pager.query)|)
    }

    ghost predicate Valid(h: nat)
      reads this, pager, if searcher == null then {} else {searcher}
    {
      && pager.table == table && pager.ShowsOrBlank(Place(h), h)
      && (shown.Some? ==> shown.value == pager.query && (error.None? ==> pager.Shows(Place(h), h)))
      && (searcher != null ==> WorkerValid(h))
    }

    ghost predicate WorkerValid(h: nat)
      requires searcher != null
      reads this, searcher
    {
      var s := searcher.state;
      && searcher.Valid() && searcher.table == table && !s.closed && Searchers.Kept(table, s)
      && (s.newest.Some? ==> s.newest.value.h == h)
      && (asked.Some? ==> s.newest.Some? && s.newest.value.query == asked.value)
    }

    predicate Busy()
      reads this
    {
      shown != Some(wanted)
    }

    /** What is typed extends a query whose every match is on screen. */
    predicate Narrowable()
      reads this, pager
    {
      shown.Some? && shown.value <= wanted && pager.Complete() && error.None?
    }

    /** The worker has an answer for what is typed. */
    predicate Ready()
      reads this, if searcher == null then {} else {searcher}
    {
      searcher != null && searcher.done.Some? && searcher.done.value.0 == wanted
    }

    constructor (table: seq<Row>, withWorker: bool, ghost h: nat)
      requires Sorted(table) && h >= 1
      ensures Valid(h) && this.table == table && (searcher != null <==> withWorker)
      ensures fresh(pager) && (searcher != null ==> fresh(searcher) && searcher.state == Searchers.IDLE)
      ensures error.None? && wanted == [] && shown.None? && asked.None?
    {
      this.table := table;
      pager := new Pager(table);
      if withWorker {
        var s := new Searchers.Searcher(table);
        searcher := s;
      } else {
        searcher := null;
      }
      error, wanted, shown, asked, moves := None, [], None, None, [];
    }

    /** `set_text` */
    method SetText(text: Text, ghost h: nat)
      requires Valid(h)
      modifies this`wanted
      ensures Valid(h) && wanted == text
    {
      hide MovedBy, Matching, Frames, Searchers.Kept, Sorted;
      if text != wanted {
        wanted := text;
      }
    }

    /** `refresh` */
    method Refresh(ghost h: nat)
      requires Valid(h)
      modifies this`shown, this`asked
      ensures Valid(h) && shown.None? && asked.None?
    {
      hide MovedBy, Matching, Frames, Searchers.Kept, Sorted;
      shown, asked := None, None;
    }

    /** The worker gets some time. */
    method Work(steps: seq<Event>, ghost h: nat)
      requires searcher != null && Valid(h) && OfWorker(steps)
      modifies searcher
      ensures Valid(h) && searcher.state == Searchers.After(table, old(searcher.state), steps)
    {
      hide MovedBy, Matching, Frames, Searchers.Kept, Sorted, Searchers.Step;
      var i := 0;
      ghost var start := searcher.state;
      while i < |steps|
        invariant i <= |steps| && searcher.Valid()
        invariant searcher.state == Searchers.After(table, start, steps[..i])
        decreases |steps| - i
      {
        assert steps[..i + 1] == steps[..i] + [steps[i]] && steps[i] in steps;
        AfterOneMore(table, start, steps[..i], steps[i]);
        match steps[i] {
          case Start => searcher.Start();
          case Aborted => searcher.Aborted();
          case Finish(e) => searcher.Finish(e);
        }
        i := i + 1;
      }
      assert steps[..i] == steps;
      WorkKeeps(table, start, steps);
    }

    /** An answer the worker has ready is shown if it is for what is typed, and dropped if it is not. */
    method TakeAnswer(h: nat)
      requires Valid(h) && searcher != null
      modifies this, pager, searcher
      ensures Valid(h) && wanted == old(wanted) && asked == old(asked)
      ensures searcher.state == Searchers.Step(table, old(searcher.state), Event.Take)
      ensures if old(Ready())
              then shown == Some(wanted) && error == old(searcher.done.value.2) && moves == []
                   && (error.None? ==> pager.rows == Forward(table, wanted, None, true, h) && pager.sel == 0)
              else shown == old(shown) && error == old(error) && moves == old(moves) && unchanged(pager)
    {
      hide Moved, Matching, Frames, Sorted, Forward;
      Searchers.StepKeeps(table, searcher.state, Event.Take);
      var done := searcher.Take();
      if done.Some? && done.value.0 == wanted {
        error := done.value.2;
        pager.Apply(done.value.0, done.value.1, h, false);
        shown, moves := Some(done.value.0), [];
        if error.None? { ScannedWindow(table, wanted, h); }
      }
    }

    /** The longer query is answered from the rows on screen. */
    method ApplyNarrowed(h: nat)
      requires Valid(h) && Narrowable()
      modifies this`shown, this`moves, pager
      ensures Valid(h) && shown == Some(wanted) && moves == []
      ensures pager.rows == Forward(table, wanted, None, true, h) && pager.sel == 0
    {
      hide Moved, Matching, Frames, Sorted, Forward, Narrow, Searchers.Kept;
      NarrowedWindow(table, wanted, shown.value, h, Place(h), pager.rows, pager.sel);
      pager.Apply(wanted, Narrow(table, wanted, Ids(pager.rows)), h, true);
      shown, moves := Some(wanted), [];
    }

    /** The query is scanned at once. */
    method ScanNow(h: nat)
      requires Valid(h)
      modifies this`shown, this`moves, this`error, pager
      ensures Valid(h) && shown == Some(wanted) && moves == [] && error.None?
      ensures pager.rows == Forward(table, wanted, None, true, h) && pager.sel == 0
    {
      hide Moved, Matching, Frames, Sorted, Forward, Searchers.Kept;
      error := None;
      pager.Reset(wanted, h);
      shown, moves := Some(wanted), [];
    }

    /** `_sync`, which is `ensure`. The worker may take steps between the two moments at which it looks at the
        searcher. It leaves the screen busy exactly if a worker is needed and its answer is not there yet; otherwise
        the window is what a full scan for the typed text shows, unless nothing was to be done or the scan failed. A
        request is made only if the screen stays busy: narrowing never scans. */
    method Ensure(h: nat, between: seq<Event>)
      requires Valid(h) && OfWorker(between)
      modifies this, pager, if searcher == null then {} else {searcher}
      ensures Valid(h) && wanted == old(wanted)
      ensures Busy() <==> old(Busy() && searcher != null && wanted != [] && !Ready() && !Narrowable())
      ensures Busy() ==> shown == old(shown) && error == old(error) && moves == old(moves) && unchanged(pager)
      ensures !Busy() && error.None? ==>
        if old(Busy() || Ready())
        then moves == [] && pager.rows == Forward(table, wanted, None, true, h) && pager.sel == 0
        else moves == old(moves) && unchanged(pager)
      ensures error == if old(Ready()) then old(searcher.done.value.2)
                       else if old(Busy() && !Narrowable()) && (searcher == null || wanted == []) then None
                       else old(error)
      ensures asked == if Busy() then Some(wanted) else old(asked)
      ensures searcher != null ==>
        var taken := Searchers.Step(table, old(searcher.state), Event.Take);
        searcher.state == if Busy() && old(asked) != Some(wanted)
                          then Searchers.Step(table, Searchers.After(table, taken, between), Event.Request(wanted, h))
                          else taken
    {
      hide MovedBy, Matching, Frames, Sorted, Forward, Searchers.Kept, Searchers.Step;
      if searcher != null {
        TakeAnswer(h);
      }
      if shown == Some(wanted) {
        return;
      }
      if shown.Some? && shown.value <= wanted && pager.Complete() && error.None? {
        ApplyNarrowed(h);
      } else if searcher == null || wanted == [] {
        ScanNow(h);
      } else if asked != Some(wanted) {
        Work(between, h);
        Ask(h);
      }
    }

    method Ask(h: nat)
      requires Valid(h) && searcher != null
      modifies this`asked, searcher
      ensures Valid(h) && asked == Some(wanted)
      ensures searcher.state == Searchers.Step(table, old(searcher.state), Event.Request(wanted, h))
    {
      hide MovedBy, Matching, Frames, Sorted, Forward, Searchers.Kept;
      Searchers.StepKeeps(table, searcher.state, Event.Request(wanted, h));
      searcher.Request(wanted, h);
      asked := Some(wanted);
    }

    /** What is typed was asked for before, and its answer has come and gone: the searcher holds nothing. */
    predicate Stuck()
      reads this, pager, if searcher == null then {} else {searcher}
    {
      && searcher != null && Busy() && wanted != [] && !Narrowable() && asked == Some(wanted)
      && searcher.pending.None? && searcher.running.None? && searcher.done.None?
    }

    /** `settle`: if the worker gets its scans done while it is waited for, the screen has the answer for what is
        typed, exactly if it was not stuck. */
    method Settle(h: nat, between: seq<Event>, waiting: seq<Event>) returns (idle: bool)
      requires Valid(h) && OfWorker(between) && OfWorker(waiting)
      modifies this, pager, if searcher == null then {} else {searcher}
      ensures Valid(h) && wanted == old(wanted)
      ensures idle ==> (Busy() <==> old(Stuck()))
      ensures old(Stuck()) ==> idle && Stuck()
      ensures Busy() ==> shown == old(shown) && error == old(error) && moves == old(moves) && unchanged(pager)
      ensures !Busy() && error.None? ==>
        if old(Busy() || Ready())
        then moves == [] && pager.rows == Forward(table, wanted, None, true, h) && pager.sel == 0
        else moves == old(moves) && unchanged(pager)
    {
      hide MovedBy, Matching, Frames, Sorted, Forward, Searchers.After;
      Ensure(h, between);
      idle := true;
      if Busy() && searcher != null {
        WorkKeeps(table, searcher.state, waiting);
        Work(waiting, h);
        idle := searcher.pending.None? && searcher.running.None?;
        Ensure(h, []);
      }
    }

    /** A movement key: settle, then move. */
    method Press(m: Move, h: nat, between: seq<Event>, waiting: seq<Event>)
      requires Valid(h) && OfWorker(between) && OfWorker(waiting)
      modifies this, pager, if searcher == null then {} else {searcher}
      ensures Valid(h) && wanted == old(wanted)
      ensures !Busy() && error.None? ==> moves == (if old(Busy() || Ready()) then [] else old(moves)) + [m]
      ensures Busy() && old(pager.Shows(Place(h), h)) ==>
              moves == old(moves) + [m] && pager.query == old(pager.query) && pager.Shows(Place(h), h)
    {
      hide MovedBy, Moved, Matching, Frames, Sorted, Forward, Searchers.Kept, Searchers.After;
      var idle := Settle(h, between, waiting);
      ghost var place := Place(h);
      ghost var moved := pager.Shows(place, h) || m.Home? || m.End?;
      pager.Press(m, h, place);
      if moved {
        MovedByOneMore(View(0, 0), moves, m, h, |Matching(table, pager.query)|);
        moves := moves + [m];
      }
    }

    /** The screen shows what the moves made since the text was applied lead to in the full result of the typed text,
        and right after it was applied, the first h rows. */
    ghost predicate ShowsTyped(h: nat)
      reads this, pager
    {
      var all := Matching(table, wanted);
      var v := MovedBy(View(0, 0), moves, h, |all|);
      && pager.query == wanted && pager.Shows(v, h) && |pager.rows| == Min(h, |all|)
      && (all != [] ==> v.at < |all| && pager.sel < |pager.rows| && pager.rows[pager.sel] == all[v.at])
      && (moves == [] ==> pager.rows == Forward(table, wanted, None, true, h))
    }

    lemma NotBusyShows(h: nat)
      requires Valid(h) && !Busy() && error.None?
      ensures ShowsTyped(h)
    {
      hide Moved, Matching, Frames, Sorted, Forward, Searchers.Kept;
      pager.Counts(h, Place(h));
      if moves == [] {
        ForwardFromStart(table, wanted, h);
        FirstWindow(Matching(table, wanted), h, pager.rows, pager.sel, pager.exhaustedBefore, pager.exhaustedAfter);
      }
    }

    /** A result that does not fit on the screen is not complete on it. */
    lemma NotNarrowable(h: nat)
      requires Valid(h) && !Busy() && error.None? && h < |Matching(table, wanted)|
      ensures !pager.Complete()
    {
      hide Moved, MovedBy, Matching, Sorted, Forward, Searchers.Kept;
    }

    /** Whatever was typed, moved, refreshed and scanned, in any order: when the screen is then not busy and no scan
        failed, it shows what is typed, although extensions of a complete result are never scanned. */
    method Run(inputs: seq<Input>, h: nat)
      requires Valid(h) && (forall i :: i in inputs ==> i.Valid())
      modifies this, pager, if searcher == null then {} else {searcher}
      ensures Valid(h) && (!Busy() && error.None? ==> ShowsTyped(h))
    {
      hide MovedBy, Moved, Matching, Frames, Sorted, Forward, Searchers.Kept, Searchers.After, Place, ShowsTyped;
      for k := 0 to |inputs|
        invariant Valid(h)
      {
        assert inputs[k] in inputs;
        match inputs[k] {
          case Typed(text) => SetText(text, h);
          case Refreshed => Refresh(h);
          case Redrawn(between) => Ensure(h, between);
          case Pressed(m, between, waiting) => Press(m, h, between, waiting);
          case Worked(steps) => if searcher != null { Work(steps, h); }
        }
      }
      if !Busy() && error.None? { NotBusyShows(h); }
    }
  }

  lemma FirstWindow(all: seq<Row>, h: nat, rows: seq<Row>, sel: nat, before: bool, after: bool)
    requires Frames(all, h, View(0, 0), rows, sel, before, after)
    ensures rows == all[..Min(h, |all|)]
  {
  }

  /** A screen with nothing typed, on a table that does not fit on it. */
  method Opened(table: seq<Row>, h: nat) returns (s: SearchState)
    requires Sorted(table) && 1 <= h < |table|
    ensures fresh(s) && fresh(s.pager) && s.searcher != null && fresh(s.searcher) && s.Valid(h)
    ensures s.table == table && !s.Busy() && s.wanted == [] && s.asked.None? && !s.pager.Complete()
    ensures s.error.None? && s.searcher.state == Searchers.IDLE
  {
    hide Moved, Matching, Frames, Sorted, Searchers.Kept;
    s := new SearchState(table, true, h);
    s.Ensure(h, []);
    MatchingEverything(table);
    s.NotNarrowable(h);
  }

  /** How a screen gets stuck, on any such table and for any text: type it, delete it before its scan ends, let the
      scan end, and type it again. From then on no waiting brings the answer. */
  method TypedAgain(table: seq<Row>, text: Text, h: nat) returns (s: SearchState)
    requires Sorted(table) && 1 <= h < |table| && text != []
    ensures fresh(s) && s.Valid(h) && s.wanted == text && s.Stuck()
  {
    hide Moved, Matching, Frames, Sorted, Searchers.Kept, SearchState.Place;
    s := Opened(table, h);
    s.SetText(text, h);
    s.Ensure(h, []);
    s.SetText([], h);
    s.Work([Event.Start, Event.Finish(None)], h);
    s.Ensure(h, []);
    s.SetText(text, h);
  }
}
