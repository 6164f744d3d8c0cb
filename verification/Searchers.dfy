/** `_Searcher`: scans on a worker thread, of which only the newest request matters.

    Every region the source runs under its condition variable is one step. The source's own interrupts and stray ones
    alike abort whatever scan is running, so a scan may be aborted at any time. */
module Searchers {
  import opened Wrappers
  import opened Texts
  import opened Evidence

  /** A request. Its number, counted from 1, tells equal requests apart; only proofs use it. */
  datatype Scan = Scan(number: nat, query: Text, h: nat)

  /** What a finished scan leaves to be taken. */
  datatype Answer = Answer(scan: Scan, rows: seq<Row>, error: Option<Text>)

  datatype State = State(
    pending: Option<Scan>,
    running: Option<Scan>,
    done: Option<Answer>,
    closed: bool,
    newest: Option<Scan>, // the last request made
    taken: bool           // whether its answer has been handed out
  )

  const IDLE := State(None, None, None, false, None, false)

  /** Calls from the screen, and the points at which the worker holds the lock. */
  datatype Event =
    | Request(query: Text, h: nat)
    | Take
    | Close
    | Start
    | Aborted
    | Finish(error: Option<Text>)

  function NextNumber(s: State): nat {
    if s.newest.Some? then s.newest.value.number + 1 else 1
  }

  /** The answer of a scan that was not aborted: the first h rows, or none and the error. */
  function AnswerOf(table: seq<Row>, scan: Scan, error: Option<Text>): Answer {
    Answer(scan, if error.None? then Forward(table, scan.query, None, true, scan.h) else [], error)
  }

  /** One step. A step the worker cannot take in this state changes nothing. */
  function Step(table: seq<Row>, s: State, e: Event): State {
    match e
    case Request(query, h) =>
      var scan := Scan(NextNumber(s), query, h);
      s.(pending := Some(scan), done := None, newest := Some(scan), taken := false)
    case Take => s.(done := None, taken := s.taken || (s.done.Some? && Some(s.done.value.scan) == s.newest))
    case Close => s.(closed := true, pending := None)
    case Start =>
      if s.pending.Some? && s.running.None? && !s.closed then s.(running := s.pending, pending := None) else s
    case Aborted =>
      if s.running.None? then s
      else s.(running := None, pending := if s.pending.None? && !s.closed then s.running else s.pending)
    case Finish(error) =>
      if s.running.None? then s
      else
        s.(running := None,
           done := if s.pending.None? then Some(AnswerOf(table, s.running.value, error)) else s.done)
  }

  function After(table: seq<Row>, s: State, events: seq<Event>): State
    decreases |events|
  {
    if events == [] then s else After(table, Step(table, s, events[0]), events[1..])
  }

  // ----- what every step keeps

  predicate IsNewest(s: State, scan: Scan) {
    Some(scan) == s.newest
  }

  /** Whatever waits or is done is the newest request, and a running scan is it too or is older with the newest
      waiting behind it. */
  predicate Fresh(table: seq<Row>, s: State) {
    && (s.newest.None? ==> s.pending.None? && s.running.None? && s.done.None?)
    && (s.pending.Some? ==> IsNewest(s, s.pending.value) && s.done.None?)
    && (s.running.Some? && s.pending.None? ==> IsNewest(s, s.running.value))
    && (s.running.Some? && s.pending.Some? ==> s.running.value.number < s.newest.value.number)
    && (s.running.Some? ==> s.done.None?)
    && (s.done.Some? ==> IsNewest(s, s.done.value.scan) && IsAnswer(table, s.done.value))
  }

  /** And the newest request is waiting, running, done or taken. */
  predicate Kept(table: seq<Row>, s: State) {
    && Fresh(table, s)
    && (s.newest.Some? ==> (s.pending.Some? || s.running.Some? || s.done.Some?) == !s.taken)
  }

  /** An answer without an error is the first window of its query's result. */
  predicate IsAnswer(table: seq<Row>, a: Answer) {
    if a.error.None? then a.rows == Forward(table, a.scan.query, None, true, a.scan.h) else a.rows == []
  }

  lemma StepKeeps(table: seq<Row>, s: State, e: Event)
    requires !s.closed && Kept(table, s) && e != Close
    ensures !Step(table, s, e).closed && Kept(table, Step(table, s, e))
  {
    hide Forward;
  }

  /** In every interleaving, until the searcher is closed, the newest request is waiting, running, finished or taken,
      and never lost, not even to a stray interrupt. */
  lemma {:induction false} NewestIsNeverLost(table: seq<Row>, s: State, events: seq<Event>)
    requires !s.closed && Kept(table, s) && Close !in events
    ensures !After(table, s, events).closed && Kept(table, After(table, s, events))
    decreases |events|
  {
    hide Step, Kept;
    if events != [] {
      StepKeeps(table, s, events[0]);
      NewestIsNeverLost(table, Step(table, s, events[0]), events[1..]);
    }
  }

  lemma RunsStartKept(table: seq<Row>)
    ensures Kept(table, IDLE) && !IDLE.closed
  {
  }

  /** `wait_idle` waits for this. */
  predicate Quiet(s: State) {
    s.pending.None? && s.running.None?
  }

  /** Once the worker is idle the newest request is answered: its answer is there, or was handed out. */
  lemma QuietIsAnswered(table: seq<Row>, events: seq<Event>)
    requires Close !in events
    ensures var s := After(table, IDLE, events);
      Quiet(s) && s.newest.Some? && !s.taken ==> s.done.Some? && IsNewest(s, s.done.value.scan)
  {
    hide After;
    RunsStartKept(table);
    NewestIsNeverLost(table, IDLE, events);
  }

  /** However far the worker has got, finishing its scan and one more answers the newest request. */
  lemma WorkerDelivers(table: seq<Row>, s: State, first: Option<Text>, error: Option<Text>)
    requires !s.closed && Kept(table, s) && s.newest.Some? && !s.taken
    ensures var t := Step(table, Step(table, Step(table, s, Finish(first)), Start), Finish(error));
      Quiet(t) && t.done.Some? && IsNewest(t, t.done.value.scan)
  {
    hide Forward;
  }

  // ----- what is handed out

  /** A close that comes while a request waits behind a running scan. */
  predicate ClosesOverWaiting(s: State, e: Event) {
    e == Close && s.pending.Some? && s.running.Some?
  }

  lemma StepKeepsFresh(table: seq<Row>, s: State, e: Event)
    requires Fresh(table, s) && !ClosesOverWaiting(s, e)
    ensures Fresh(table, Step(table, s, e))
  {
    hide Forward;
  }

  predicate NeverClosesOverWaiting(table: seq<Row>, s: State, events: seq<Event>)
    decreases |events|
  {
    events == [] ||
    (!ClosesOverWaiting(s, events[0]) && NeverClosesOverWaiting(table, Step(table, s, events[0]), events[1..]))
  }

  /** In every interleaving with no such close, whatever `take` hands out at the end of it is the answer to the
      newest request. */
  lemma {:induction false} HandsOutNewest(table: seq<Row>, s: State, events: seq<Event>)
    requires Fresh(table, s) && NeverClosesOverWaiting(table, s, events)
    ensures var t := After(table, s, events);
      Fresh(table, t) && (t.done.Some? ==> IsNewest(t, t.done.value.scan) && IsAnswer(table, t.done.value))
    decreases |events|
  {
    hide Step, ClosesOverWaiting;
    if events != [] {
      StepKeepsFresh(table, s, events[0]);
      HandsOutNewest(table, Step(table, s, events[0]), events[1..]);
    }
  }

  /** And such a close is what it takes: closed while a scan runs, the worker may still finish that scan, and `take`
      then hands out an answer to the newest request exactly if no request was waiting behind it. */
  lemma CloseOverWaitingIsStale(table: seq<Row>, s: State, error: Option<Text>)
    requires Fresh(table, s) && s.running.Some?
    ensures var t := Step(table, Step(table, s, Close), Finish(error));
      t.done.Some? && (IsNewest(t, t.done.value.scan) <==> !ClosesOverWaiting(s, Close))
  {
    hide Forward;
  }

  /** It is reached from the start: ask, let the scan begin, ask again, close, let the scan end. What is then handed out
      answers the first request. */
  lemma StaleIsReached(table: seq<Row>, first: Text, second: Text, h: nat, error: Option<Text>)
    ensures var waiting := After(table, IDLE, [Request(first, h), Start, Request(second, h)]);
      && Fresh(table, waiting) && ClosesOverWaiting(waiting, Close)
      && var end := After(table, waiting, [Close, Finish(error)]);
         end.done.Some? && end.done.value.scan == Scan(1, first, h) && end.newest == Some(Scan(2, second, h))
  {
    hide Forward, After;
    var s1 := Step(table, IDLE, Request(first, h));
    var s2 := Step(table, s1, Start);
    var s3 := Step(table, s2, Request(second, h));
    AfterThree(table, IDLE, Request(first, h), Start, Request(second, h));
    AfterTwo(table, s3, Close, Finish(error));
  }

  lemma AfterTwo(table: seq<Row>, s: State, a: Event, b: Event)
    ensures After(table, s, [a, b]) == Step(table, Step(table, s, a), b)
  {
    hide Step;
    assert [a, b][1..] == [b] && [b][1..] == [];
    assert After(table, Step(table, s, a), [b]) == Step(table, Step(table, s, a), b);
  }

  lemma AfterThree(table: seq<Row>, s: State, a: Event, b: Event, c: Event)
    ensures After(table, s, [a, b, c]) == Step(table, Step(table, Step(table, s, a), b), c)
  {
    hide Step;
    assert [a, b, c][1..] == [b, c];
    AfterTwo(table, Step(table, s, a), b, c);
  }

  // ----- the object

  datatype Query = Query(query: Text, h: nat)

  function Untagged(scan: Option<Scan>): Option<Query> {
    if scan.Some? then Some(Query(scan.value.query, scan.value.h)) else None
  }

  class Searcher {
    const table: seq<Row>
    var pending: Option<Query>
    var running: Option<Query>
    var done: Option<(Text, seq<Row>, Option<Text>)>
    var closed: bool
    ghost var state: State

    /** The fields are the state without the numbers of the requests. */
    ghost predicate Valid()
      reads this
    {
      && pending == Untagged(state.pending) && running == Untagged(state.running) && closed == state.closed
      && done == if state.done.Some?
                 then Some((state.done.value.scan.query, state.done.value.rows, state.done.value.error))
                 else None
    }

    constructor (table: seq<Row>)
      ensures Valid() && this.table == table && state == IDLE
    {
      this.table := table;
      pending, running, done, closed := None, None, None, false;
      state := IDLE;
    }

    /** `request` */
    method Request(query: Text, h: nat)
      requires Valid()
      modifies this
      ensures Valid() && state == Step(table, old(state), Event.Request(query, h))
      ensures pending == Some(Query(query, h)) && done == None && running == old(running) && closed == old(closed)
      ensures state.newest == Some(Scan(NextNumber(old(state)), query, h))
    {
      pending, done := Some(Query(query, h)), None;
      state := Step(table, state, Event.Request(query, h));
    }

    /** `take` */
    method Take() returns (answer: Option<(Text, seq<Row>, Option<Text>)>)
      requires Valid()
      modifies this
      ensures Valid() && state == Step(table, old(state), Event.Take)
      ensures answer == old(done) && done == None
      ensures pending == old(pending) && running == old(running) && closed == old(closed)
    {
      answer, done := done, None;
      state := Step(table, state, Event.Take);
    }

    /** `close` */
    method Close()
      requires Valid()
      modifies this
      ensures Valid() && state == Step(table, old(state), Event.Close)
      ensures closed && pending == None && running == old(running) && done == old(done)
    {
      closed, pending := true, None;
      state := Step(table, state, Event.Close);
    }

    /** The worker wakes up: `_loop` up to the scan. */
    method Start()
      requires Valid()
      modifies this
      ensures Valid() && state == Step(table, old(state), Event.Start)
      ensures old(pending.Some? && running.None? && !closed) ==> running == old(pending) && pending == None
      ensures !old(pending.Some? && running.None? && !closed) ==> running == old(running) && pending == old(pending)
      ensures done == old(done) && closed == old(closed)
    {
      if pending.Some? && running.None? && !closed {
        running, pending := pending, None;
      }
      state := Step(table, state, Event.Start);
    }

    /** The scan was interrupted: the `interrupt` branch of `_loop`. */
    method Aborted()
      requires Valid()
      modifies this
      ensures Valid() && state == Step(table, old(state), Event.Aborted)
      ensures running == None && done == old(done) && closed == old(closed)
      ensures pending == if old(running.Some? && pending.None? && !closed) then old(running) else old(pending)
    {
      if running.Some? {
        var request := running;
        running := None;
        if pending.None? && !closed {
          pending := request;
        }
      }
      state := Step(table, state, Event.Aborted);
    }

    /** The scan ended, with rows or an error: the rest of `_loop`. */
    method Finish(error: Option<Text>)
      requires Valid()
      modifies this
      ensures Valid() && state == Step(table, old(state), Event.Finish(error))
      ensures running == None && pending == old(pending) && closed == old(closed)
      ensures !old(running.Some? && pending.None?) ==> done == old(done)
      ensures old(running.Some? && pending.None?) ==> done.Some? && done.value.0 == old(running).value.query
      ensures old(running.Some? && pending.None?) ==> done.value.2 == error
      ensures old(running.Some? && pending.None?) && error.Some? ==> done.value.1 == []
      ensures old(running.Some? && pending.None?) && error.None? ==>
              done.value.1 == Forward(table, old(running).value.query, None, true, old(running).value.h)
    {
      hide Forward;
      if running.Some? {
        var request := running.value;
        var rows := if error.None? then Forward(table, request.query, None, true, request.h) else [];
        running := None;
        if pending.None? {
          done := Some((request.query, rows, error));
        }
      }
      state := Step(table, state, Event.Finish(error));
    }
  }
}
