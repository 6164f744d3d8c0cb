/** The bounded window of the pool pipelines, and the re-hash runs that read it. */
module PoolRuns {
  import opened Wrappers
  import opened Texts
  import opened Pools

  /** The process pool: batches handed in, and the results of those some worker has finished, in any order. */
  class Workers {
    const disk: Disk
    var submitted: seq<seq<Entry>>
    var finished: map<nat, seq<Answer>>

    ghost predicate Valid()
      reads this
    {
      forall id :: id in finished ==> id < |submitted| && finished[id] == Answers(disk, submitted[id])
    }

    constructor (disk: Disk)
      ensures Valid() && this.disk == disk && submitted == []
    {
      this.disk := disk;
      submitted, finished := [], map[];
    }

    method Submit(batch: seq<Entry>) returns (id: nat)
      requires Valid()
      modifies this
      ensures Valid() && id == |old(submitted)| && submitted == old(submitted) + [batch]
    {
      hide Answers;
      id, submitted := |submitted|, submitted + [batch];
    }

    /** `_hash_batch` and `_rehash_batch`: an error takes the place of the result. */
    method HashBatch(batch: seq<Entry>) returns (answers: seq<Answer>)
      ensures answers == Answers(disk, batch)
    {
      hide Read;
      answers := [];
      for k := 0 to |batch|
        invariant |answers| == k && forall i :: 0 <= i < k ==> answers[i] == Read(disk, batch[i])
      {
        answers := answers + [Read(disk, batch[k])];
      }
    }

    /** Some worker finishes a batch. */
    method Complete(id: nat)
      requires Valid()
      modifies this
      ensures Valid() && submitted == old(submitted) && (id < |submitted| ==> id in finished)
    {
      hide Answers;
      if id < |submitted| && id !in finished {
        var answers := HashBatch(submitted[id]);
        finished := finished[id := answers];
      }
    }

    method CompleteAll(order: seq<nat>)
      requires Valid()
      modifies this
      ensures Valid() && submitted == old(submitted)
    {
      for k := 0 to |order|
        invariant Valid() && submitted == old(submitted)
      {
        Complete(order[k]);
      }
    }

    /** `result()`, which waits for the batch if need be. */
    method Result(id: nat) returns (answers: seq<Answer>)
      requires Valid() && id < |submitted|
      modifies this
      ensures Valid() && submitted == old(submitted) && answers == Answers(disk, submitted[id])
    {
      Complete(id);
      answers := finished[id];
    }
  }

  // ----- the window

  /** A slot of the window and the entries it stands for: nothing for a big file, or a batch in the pool. */
  ghost predicate SlotFor(submitted: seq<seq<Entry>>, slot: Option<nat>, span: seq<Entry>) {
    match slot
    case None => |span| == 1 && Big(span[0])
    case Some(id) => id < |submitted| && submitted[id] == span && 1 <= |span| <= BATCH_FILES && NoneBig(span)
  }

  ghost predicate SlotsFor(submitted: seq<seq<Entry>>, window: seq<Option<nat>>, spans: seq<seq<Entry>>) {
    |window| == |spans| && forall k :: 0 <= k < |window| ==> SlotFor(submitted, window[k], spans[k])
  }

  ghost function Flatten(spans: seq<seq<Entry>>): (entries: seq<Entry>) {
    if spans == [] then [] else spans[0] + Flatten(spans[1..])
  }

  lemma {:induction false} FlattenOneMore(spans: seq<seq<Entry>>, span: seq<Entry>)
    ensures Flatten(spans + [span]) == Flatten(spans) + span
  {
    if spans == [] {
      assert [span][1..] == [];
    } else {
      assert (spans + [span])[1..] == spans[1..] + [span];
      FlattenOneMore(spans[1..], span);
    }
  }

  lemma {:induction false} FlattenIsBounded(submitted: seq<seq<Entry>>, window: seq<Option<nat>>,
                                            spans: seq<seq<Entry>>)
    requires SlotsFor(submitted, window, spans)
    ensures |Flatten(spans)| <= BATCH_FILES * |window|
    decreases |spans|
  {
    hide Big;
    if spans != [] {
      assert SlotFor(submitted, window[0], spans[0]);
      assert SlotsFor(submitted, window[1..], spans[1..]);
      FlattenIsBounded(submitted, window[1..], spans[1..]);
    }
  }

  lemma SlotsGrow(submitted: seq<seq<Entry>>, window: seq<Option<nat>>, spans: seq<seq<Entry>>,
                  more: seq<seq<Entry>>, slot: Option<nat>, span: seq<Entry>)
    requires SlotsFor(submitted, window, spans) && SlotFor(submitted + more, slot, span)
    ensures SlotsFor(submitted + more, window + [slot], spans + [span])
  {
    hide Big, NoneBig;
    forall k | 0 <= k < |window| ensures SlotFor(submitted + more, window[k], spans[k]) {
      assert SlotFor(submitted, window[k], spans[k]);
    }
  }

  lemma BigSlot(submitted: seq<seq<Entry>>, span: seq<Entry>)
    requires |span| == 1 && Big(span[0])
    ensures SlotFor(submitted + [], None, span)
  {
  }

  lemma BatchSlot(submitted: seq<seq<Entry>>, batch: seq<Entry>)
    requires 1 <= |batch| <= BATCH_FILES && NoneBig(batch)
    ensures SlotFor(submitted + [batch], Some(|submitted|), batch)
  {
  }

  lemma SlicesJoin<T>(s: seq<T>, a: nat, b: nat, c: nat)
    requires a <= b <= c <= |s|
    ensures s[a..b] + s[b..c] == s[a..c]
  {
  }

  lemma OldestNote(s: seq<Entry>, a: nat, b: nat)
    requires a < b <= |s|
    ensures s[a..b] != [] && s[a..b][0] == s[a] && s[a..b][1..] == s[a + 1..b]
  {
  }

  lemma NotesJoin(notes: seq<Entry>, s: seq<Entry>, a: nat, b: nat, c: nat)
    requires a <= b <= c <= |s|
    ensures (notes + s[a..b]) + s[b..c] == notes + s[a..c]
  {
    SlicesJoin(s, a, b, c);
    assert (notes + s[a..b]) + s[b..c] == notes + (s[a..b] + s[b..c]);
  }

  /** A new unit at the end of the window: its slot and its span. */
  lemma UnitJoins(entries: seq<Entry>, from: nat, done: nat, unit: Unit, to: nat, spans: seq<seq<Entry>>)
    requires from <= done && IsUnit(entries, done, unit, to) && Flatten(spans) == entries[from..done]
    ensures Flatten(spans + [entries[done..to]]) == entries[from..to]
    ensures match unit
      case BigFile => to == done + 1 && Big(entries[done])
      case Batch(b) => b == entries[done..to] && 1 <= |b| <= BATCH_FILES && NoneBig(b)
  {
    hide Big, Full, NoneBig, Flatten;
    if unit.Batch? { BatchIsBounded(entries, done, unit, to); }
    FlattenOneMore(spans, entries[done..to]);
    SlicesJoin(entries, from, done, to);
  }

  /** The answers being handed out are those of the entries that come next. */
  ghost predicate Handing(entries: seq<Entry>, disk: Disk, given: nat, current: seq<Answer>) {
    && given + |current| <= |entries|
    && forall k :: 0 <= k < |current| ==> IsNext(entries, disk, given + k, current[k])
  }

  ghost predicate IsNext(entries: seq<Entry>, disk: Disk, at: nat, answer: Answer) {
    at < |entries| && answer == Read(disk, entries[at]) && !Big(entries[at])
  }

  /** The generator `hash_files` and `_rehash_parallel`. */
  class Stream {
    const feed: Feed
    const units: Units
    const workers: Workers
    const jobs: nat
    var window: seq<Option<nat>>
    var current: seq<Answer>
    ghost var spans: seq<seq<Entry>>
    ghost var given: nat

    /** Results given, answers being handed out, slots in the window and entries not yet cut into units follow each
        other, and at most 2 * jobs units are in flight. */
    ghost predicate Valid()
      reads this, feed, units, workers
    {
      units.feed == feed && units.Valid() && Windowed(units.Done())
    }

    ghost predicate Windowed(done: nat)
      reads this, workers
    {
      && jobs >= 1 && workers.Valid() && |window| <= 2 * jobs && SlotsFor(workers.submitted, window, spans)
      && given + |current| <= done <= |feed.entries| && |current| <= BATCH_FILES
      && Handing(feed.entries, workers.disk, given, current)
      && Flatten(spans) == feed.entries[given + |current|..done]
    }

    constructor (disk: Disk, feed: Feed, jobs: nat)
      requires jobs >= 1 && feed.pos == 0
      ensures Valid() && fresh(units) && fresh(workers) && given == 0 && this.feed == feed && workers.disk == disk
    {
      this.feed := feed;
      var u := new Units(feed);
      var w := new Workers(disk);
      units, workers := u, w;
      this.jobs := jobs;
      window, current, spans, given := [], [], [], 0;
    }

    method Enqueue(unit: Unit, ghost done: nat, ghost to: nat)
      requires Windowed(done) && |window| < 2 * jobs && IsUnit(feed.entries, done, unit, to)
      modifies this`window, this`spans, workers
      ensures Windowed(to) && |window| == |old(window)| + 1
    {
      hide SlotsFor, SlotFor, Handing, Workers.Valid, Flatten, Full;
      ghost var span := feed.entries[done..to];
      ghost var submitted := workers.submitted;
      UnitJoins(feed.entries, given + |current|, done, unit, to, spans);
      if unit.BigFile? {
        assert submitted + [] == submitted;
        BigSlot(submitted, span);
        SlotsGrow(submitted, window, spans, [], None, span);
        window := window + [None];
      } else {
        var id := workers.Submit(unit.entries);
        BatchSlot(submitted, span);
        SlotsGrow(submitted, window, spans, [unit.entries], Some(id), span);
        window := window + [Some(id)];
      }
      spans := spans + [span];
    }

    /** One more unit, unless there is none. */
    method AddUnit() returns (added: bool)
      requires Valid() && |window| < 2 * jobs
      modifies this`window, this`spans, units, feed, workers
      ensures Valid() && old(feed.pos) <= feed.pos
      ensures if added then |window| == |old(window)| + 1 else units.Done() == |feed.entries|
      ensures feed.pending == old(feed.pending) + feed.entries[old(feed.pos)..feed.pos]
    {
      hide Windowed, IsUnit;
      ghost var done := units.Done();
      var unit := units.Next();
      added := unit.Some?;
      if added {
        Enqueue(unit.value, done, units.Done());
      }
    }

    method Fill()
      requires Valid()
      modifies this`window, this`spans, units, feed, workers
      ensures Valid() && (|window| == 2 * jobs || units.Done() == |feed.entries|)
      ensures old(feed.pos) <= feed.pos
      ensures feed.pending == old(feed.pending) + feed.entries[old(feed.pos)..feed.pos]
    {
      hide Windowed;
      WindowFits();
      NoNotes(feed.pending, feed.entries, feed.pos);
      while |window| < 2 * jobs
        invariant Valid() && |window| <= 2 * jobs && old(feed.pos) <= feed.pos
        invariant feed.pending == old(feed.pending) + feed.entries[old(feed.pos)..feed.pos]
        decreases 2 * jobs - |window|
      {
        ghost var pos := feed.pos;
        var added := AddUnit();
        NotesJoin(old(feed.pending), feed.entries, old(feed.pos), pos, feed.pos);
        if !added {
          break;
        }
      }
    }

    lemma WindowFits()
      requires Valid()
      ensures |window| <= 2 * jobs
    {
    }

    /** The oldest slot of the window: a big file's place, or a batch whose results can now be given. */
    method TakeSlot() returns (big: bool)
      requires Valid() && current == [] && window != []
      modifies this, workers
      ensures Valid() && old(given) < |feed.entries|
      ensures if big then Big(feed.entries[old(given)]) && given == old(given) + 1 && current == []
              else given == old(given) && current != []
    {
      hide SlotsFor, Handing, Flatten, Workers.Valid, Answers, Big;
      FirstSlot(feed.entries, workers.disk, workers.submitted, window, spans, given, units.Done());
      var first := window[0];
      window, spans := window[1..], spans[1..];
      big := first.None?;
      if big {
        given := given + 1;
      } else {
        current := workers.Result(first.value);
      }
    }

    /** The first of the results that can be given. */
    method Give() returns (answer: Answer)
      requires Valid() && current != []
      modifies this
      ensures Valid() && given == old(given) + 1 && old(given) < |feed.entries|
      ensures Outcome(workers.disk, feed.entries[old(given)]) == Some(answer)
    {
      hide SlotsFor, Handing, Flatten, Workers.Valid, Outcome;
      FirstAnswer(feed.entries, workers.disk, given, current);
      answer, current := current[0], current[1..];
      given := given + 1;
    }

    /** The next result: after some batches finished, in whatever order. */
    method Next(order: seq<nat>) returns (result: Option<Option<Answer>>)
      requires Valid()
      modifies this, units, feed, workers
      ensures Valid() && old(feed.pos) <= feed.pos
      ensures feed.pending == old(feed.pending) + feed.entries[old(feed.pos)..feed.pos]
      ensures if old(given) == |feed.entries| then result.None? && given == old(given)
              else result == Some(Outcome(workers.disk, feed.entries[old(given)])) && given == old(given) + 1
      ensures given <= feed.pos <= |feed.entries|
    {
      hide Windowed, Workers.Valid, Big, Read;
      NoNotes(feed.pending, feed.entries, feed.pos);
      LetRun(order);
      if current == [] {
        Fill();
        if window == [] {
          NothingLeft();
          GivenIsPulled();
          return None;
        }
        var big := TakeSlot();
        if big {
          GivenIsPulled();
          return Some(None);
        }
      }
      var answer := Give();
      GivenIsPulled();
      return Some(Some(answer));
    }

    method LetRun(order: seq<nat>)
      requires Valid()
      modifies workers
      ensures Valid()
    {
      hide SlotsFor, Handing, Flatten, Workers.Valid;
      workers.CompleteAll(order);
    }

    lemma GivenIsPulled()
      requires Valid()
      ensures given <= feed.pos <= |feed.entries|
    {
    }

    lemma NothingLeft()
      requires Valid() && window == [] && current == [] && (|window| == 2 * jobs || units.Done() == |feed.entries|)
      ensures given == |feed.entries|
    {
    }
  }

  /** The oldest slot of the window: a big file, or a batch of the entries that come next. */
  lemma FirstSlot(entries: seq<Entry>, disk: Disk, submitted: seq<seq<Entry>>, window: seq<Option<nat>>,
                  spans: seq<seq<Entry>>, given: nat, done: nat)
    requires window != [] && SlotsFor(submitted, window, spans)
    requires given <= done <= |entries| && Flatten(spans) == entries[given..done]
    ensures |spans| == |window| && SlotsFor(submitted, window[1..], spans[1..])
    ensures var n := |spans[0]|;
      && 1 <= n && given + n <= done && Flatten(spans[1..]) == entries[given + n..done]
      && match window[0]
         case None => n == 1 && Big(entries[given]) && Handing(entries, disk, given + 1, [])
         case Some(id) =>
           && id < |submitted| && |submitted[id]| == n <= BATCH_FILES
           && Handing(entries, disk, given, Answers(disk, submitted[id]))
  {
    hide Big, Read;
    assert SlotFor(submitted, window[0], spans[0]);
    var n := |spans[0]|;
    assert Flatten(spans)[..n] == spans[0] && Flatten(spans)[n..] == Flatten(spans[1..]);
    assert entries[given..done][..n] == entries[given..given + n];
    assert entries[given..done][n..] == entries[given + n..done];
    assert spans[0] == entries[given..given + n];
    forall k | 0 <= k < n ensures spans[0][k] == entries[given + k] && entries[given + k] in spans[0] {
      assert spans[0][k] in spans[0];
    }
  }

  lemma FirstAnswer(entries: seq<Entry>, disk: Disk, given: nat, current: seq<Answer>)
    requires Handing(entries, disk, given, current) && current != []
    ensures Outcome(disk, entries[given]) == Some(current[0]) && Handing(entries, disk, given + 1, current[1..])
  {
    hide Big, Read;
    assert IsNext(entries, disk, given + 0, current[0]);
    var rest := current[1..];
    forall k | 0 <= k < |rest| ensures IsNext(entries, disk, given + 1 + k, rest[k]) {
      assert rest[k] == current[k + 1] && IsNext(entries, disk, given + (k + 1), current[k + 1]);
    }
  }

  /** The look-ahead is bounded: the entries pulled but not yet answered fit the window, the batch being handed out and
      one big file. */
  lemma LookAheadIsBounded(s: Stream)
    requires s.Valid()
    ensures |s.window| <= 2 * s.jobs && s.feed.pos - s.given <= BATCH_FILES * (2 * s.jobs + 1) + 1
  {
    hide SlotsFor, Handing, Flatten, Workers.Valid, Big;
    FlattenIsBounded(s.workers.submitted, s.window, s.spans);
  }

  /** The k-th list of a schedule, or nothing. */
  function At(schedule: seq<seq<nat>>, k: nat): seq<nat> {
    if k < |schedule| then schedule[k] else []
  }

  /** `hash_files` read to its end: exactly one result for each entry, in input order, for any number of workers and in
      whatever order they finish. */
  method HashFiles(disk: Disk, entries: seq<Entry>, jobs: nat, schedule: seq<seq<nat>>)
    returns (results: seq<Option<Answer>>)
    requires jobs >= 1
    ensures results == Outcomes(disk, entries)
  {
    hide Outcome;
    var feed := new Feed(entries);
    var stream := new Stream(disk, feed, jobs);
    results := [];
    while true
      invariant stream.Valid() && fresh(stream) && fresh(stream.units) && fresh(stream.workers) && fresh(feed)
      invariant |results| == stream.given <= |entries|
      invariant forall k :: 0 <= k < |results| ==> results[k] == Outcome(disk, entries[k])
      decreases |entries| - |results|
    {
      var result := stream.Next(At(schedule, |results|));
      if result.None? {
        return;
      }
      results := results + [result.value];
    }
  }

  // ----- the re-hash of every row

  /** The number of rows before the first whose file cannot be read. */
  function Readable(disk: Disk, rows: seq<Entry>): (n: nat)
    ensures n <= |rows|
    ensures forall k :: 0 <= k < n ==> Read(disk, rows[k]).Status?
    ensures n < |rows| ==> Read(disk, rows[n]).OsError?
  {
    if rows == [] || Read(disk, rows[0]).OsError? then 0 else 1 + Readable(disk, rows[1..])
  }

  /** What a re-hash yields: each row with its position, from 1, and its own status, up to the first file that cannot be
      read, whose error ends it. */
  ghost predicate IsRehash(disk: Disk, rows: seq<Entry>, checked: seq<(nat, Entry, Text)>, error: Option<Text>) {
    && |checked| == Readable(disk, rows)
    && (forall k :: 0 <= k < |checked| ==> checked[k] == (k + 1, rows[k], Read(disk, rows[k]).text))
    && error == if |checked| < |rows| then Some(Read(disk, rows[|checked|]).message) else None
  }

  /** The rows yielded before the next one. */
  ghost predicate SoFar(disk: Disk, rows: seq<Entry>, checked: seq<(nat, Entry, Text)>) {
    && |checked| <= |rows|
    && forall k :: 0 <= k < |checked| ==>
         Read(disk, rows[k]).Status? && checked[k] == (k + 1, rows[k], Read(disk, rows[k]).text)
  }

  lemma OneMoreRow(disk: Disk, rows: seq<Entry>, checked: seq<(nat, Entry, Text)>)
    requires checked == [] || SoFar(disk, rows, checked)
    ensures SoFar(disk, rows, checked)
    ensures |checked| == |rows| ==> IsRehash(disk, rows, checked, None)
    ensures var k := |checked|;
      k < |rows| ==>
        match Read(disk, rows[k])
        case Status(text) => SoFar(disk, rows, checked + [(k + 1, rows[k], text)])
        case OsError(message) => IsRehash(disk, rows, checked, Some(message))
  {
    hide Read;
  }

  const PARALLEL_MIN_FILES: nat := 2000

  function PoolSize(jobs: int, total: int): int {
    if jobs > 1 && total >= PARALLEL_MIN_FILES then jobs else 1
  }

  /** `_rehashed` read to its end: a pool of any size yields what the serial loop yields. */
  method Rehashed(disk: Disk, rows: seq<Entry>, total: int, jobs: int, schedule: seq<seq<nat>>)
    returns (checked: seq<(nat, Entry, Text)>, error: Option<Text>)
    ensures IsRehash(disk, rows, checked, error)
    ensures |checked| == |rows| <==> error.None?
    ensures forall k :: 0 <= k < |checked| ==>
              && checked[k].0 == k + 1 && checked[k].1 == rows[k]
              && disk.read(rows[k].path, rows[k].recorded) == Status(checked[k].2)
    ensures |checked| < |rows| ==>
              disk.read(rows[|checked|].path, rows[|checked|].recorded) == OsError(error.value)
  {
    if PoolSize(jobs, total) == 1 {
      checked, error := RehashedSerially(disk, rows);
    } else {
      checked, error := RehashedInPool(disk, rows, jobs, schedule);
    }
  }

  method RehashedSerially(disk: Disk, rows: seq<Entry>) returns (checked: seq<(nat, Entry, Text)>, error: Option<Text>)
    ensures IsRehash(disk, rows, checked, error)
  {
    hide Read, IsRehash;
    checked, error := [], None;
    for k := 0 to |rows|
      invariant |checked| == k && error == None && SoFar(disk, rows, checked)
    {
      OneMoreRow(disk, rows, checked);
      match Read(disk, rows[k]) {
        case Status(text) =>
          checked := checked + [(k + 1, rows[k], text)];
        case OsError(message) =>
          error := Some(message);
          return;
      }
    }
    OneMoreRow(disk, rows, checked);
  }

  /** The notes of the feed are the rows pulled and not yet answered, so the next result belongs to the first. */
  method RehashedInPool(disk: Disk, rows: seq<Entry>, jobs: nat, schedule: seq<seq<nat>>)
    returns (checked: seq<(nat, Entry, Text)>, error: Option<Text>)
    requires jobs >= 1
    ensures IsRehash(disk, rows, checked, error)
  {
    hide Read, IsRehash, SoFar, Big, Stream.Windowed;
    checked, error := [], None;
    var feed := new Feed(rows);
    var stream := new Stream(disk, feed, jobs);
    OneMoreRow(disk, rows, []);
    while true
      invariant stream.Valid() && fresh(stream) && fresh(stream.units) && fresh(stream.workers) && fresh(feed)
      invariant |checked| == stream.given <= feed.pos <= |rows| && error == None && SoFar(disk, rows, checked)
      invariant feed.pending == rows[stream.given..feed.pos]
      decreases |rows| - |checked|
    {
      ghost var k, pos := |checked|, feed.pos;
      var result := stream.Next(At(schedule, |checked|));
      SlicesJoin(rows, k, pos, feed.pos);
      OneMoreRow(disk, rows, checked);
      if result.None? {
        return;
      }
      OldestNote(rows, k, feed.pos);
      var row := feed.pending[0];
      feed.pending := feed.pending[1..];
      var answer := if result.value.None? then Read(disk, row) else result.value.value;
      match answer {
        case Status(text) =>
          checked := checked + [(|checked| + 1, row, text)];
        case OsError(message) =>
          error := Some(message);
          return;
      }
    }
  }

  // ----- the same in `verify_evidence_index`, whose pool is handed only the records that have a path

  function WithPath(records: seq<Entry>): seq<Entry> {
    if records == [] then []
    else WithPath(records[..|records| - 1]) +
         (if records[|records| - 1].path != [] then [records[|records| - 1]] else [])
  }

  lemma {:induction false} WithPathPrefix(records: seq<Entry>, k: nat)
    requires k <= |records|
    ensures WithPath(records[..k]) <= WithPath(records)
    decreases |records|
  {
    if k < |records| {
      var shorter := records[..|records| - 1];
      assert shorter[..k] == records[..k];
      WithPathPrefix(shorter, k);
    } else {
      assert records[..k] == records;
    }
  }

  /** The records with a path are numbered in order. */
  lemma WithPathAt(records: seq<Entry>, k: nat)
    requires k < |records|
    ensures var n := |WithPath(records[..k])|;
      if records[k].path == [] then |WithPath(records[..k + 1])| == n
      else |WithPath(records[..k + 1])| == n + 1 && n < |WithPath(records)| && WithPath(records)[n] == records[k]
  {
    assert records[..k + 1][..k] == records[..k] && records[..k + 1][k] == records[k];
    WithPathPrefix(records, k + 1);
  }

  /** `_verify_records`: each record's own status, up to the first file that cannot be read, with or without a pool. */
  method VerifyRecords(disk: Disk, records: seq<Entry>, pre: Stream?, schedule: seq<seq<nat>>)
    returns (checked: seq<(nat, Entry, Text)>, error: Option<Text>)
    requires pre != null ==>
      pre.Valid() && pre.given == 0 && pre.feed.entries == WithPath(records) && pre.workers.disk == disk
    modifies if pre == null then {} else {pre, pre.units, pre.feed, pre.workers}
    ensures IsRehash(disk, records, checked, error)
  {
    hide Read, IsRehash, SoFar, Big, Stream.Valid, WithPath;
    checked, error := [], None;
    OneMoreRow(disk, records, []);
    NonePathed(records);
    for k := 0 to |records|
      invariant |checked| == k && error == None && SoFar(disk, records, checked)
      invariant pre != null ==> pre.Valid() && pre.given == |WithPath(records[..k])|
    {
      OneMoreRow(disk, records, checked);
      WithPathAt(records, k);
      var status: Option<Answer> := None;
      if pre != null && records[k].path != [] {
        var result := pre.Next(At(schedule, k));
        status := result.value;
      }
      var answer := if status.None? then Read(disk, records[k]) else status.value;
      match answer {
        case Status(text) =>
          checked := checked + [(k + 1, records[k], text)];
        case OsError(message) =>
          error := Some(message);
          return;
      }
    }
    OneMoreRow(disk, records, checked);
  }

  lemma NonePathed(records: seq<Entry>)
    ensures WithPath(records[..0]) == []
  {
  }

  /** `verify_evidence_index` */
  method VerifyEvidence(disk: Disk, records: seq<Entry>, jobs: int, schedule: seq<seq<nat>>)
    returns (checked: seq<(nat, Entry, Text)>, error: Option<Text>)
    ensures IsRehash(disk, records, checked, error)
    ensures |checked| == |records| <==> error.None?
    ensures forall k :: 0 <= k < |checked| ==>
              && checked[k].0 == k + 1 && checked[k].1 == records[k]
              && disk.read(records[k].path, records[k].recorded) == Status(checked[k].2)
    ensures |checked| < |records| ==>
              disk.read(records[|checked|].path, records[|checked|].recorded) == OsError(error.value)
  {
    var pre: Stream? := null;
    if jobs > 1 && |WithPath(records)| >= PARALLEL_MIN_FILES {
      var feed := new Feed(WithPath(records));
      pre := new Stream(disk, feed, jobs);
    }
    checked, error := VerifyRecords(disk, records, pre, schedule);
  }
}
