/** The pool pipelines: entries cut into units, hashed by worker processes that may finish in any order, answered in
    input order. `hash_files` and `_rehash_parallel` are the same code over different entries. */
module Pools {
  import opened Wrappers
  import opened Texts

  /** One file: the row's id, where it is, the hash on record and the size, if known. */
  datatype Entry = Entry(id: Text, path: Text, recorded: Text, size: Option<nat>)

  /** What hashing a file gives: a digest or a status, or the operating system's error. */
  datatype Answer = Status(text: Text) | OsError(message: Text)

  /** The files as they are while a run lasts. */
  datatype Disk = Disk(read: (Text, Text) -> Answer)

  function Read(disk: Disk, e: Entry): Answer {
    disk.read(e.path, e.recorded)
  }

  const BATCH_FILES: nat := 500
  const BATCH_BYTES: nat := 64 * 1024 * 1024
  const BIG_FILE: nat := 256 * 1024 * 1024

  function Size(e: Entry): nat {
    if e.size.Some? then e.size.value else 0
  }

  predicate Big(e: Entry) {
    Size(e) >= BIG_FILE
  }

  predicate NoneBig(entries: seq<Entry>) {
    forall e :: e in entries ==> !Big(e)
  }

  // ----- the simple form

  /** One entry's result; none for a big file, which the caller hashes itself. */
  function Outcome(disk: Disk, e: Entry): Option<Answer> {
    if Big(e) then None else Some(Read(disk, e))
  }

  /** The results of a run, in input order. */
  function Outcomes(disk: Disk, entries: seq<Entry>): (outcomes: seq<Option<Answer>>)
    ensures |outcomes| == |entries|
  {
    seq(|entries|, i requires 0 <= i < |entries| => Outcome(disk, entries[i]))
  }

  function Answers(disk: Disk, entries: seq<Entry>): (answers: seq<Answer>)
    ensures |answers| == |entries|
  {
    seq(|entries|, i requires 0 <= i < |entries| => Read(disk, entries[i]))
  }

  /** Each file is hashed from its own path against its own hash on record, except those of 256 MiB and more, which are
      left to the caller. */
  lemma OutcomesExactly(disk: Disk, entries: seq<Entry>, i: nat)
    requires i < |entries|
    ensures var e := entries[i];
      Outcomes(disk, entries)[i] ==
      if e.size.Some? && e.size.value >= 268435456 then None else Some(disk.read(e.path, e.recorded))
  {
  }

  // ----- units

  datatype Unit = Batch(entries: seq<Entry>) | BigFile

  function Bytes(batch: seq<Entry>): nat {
    if batch == [] then 0 else Bytes(batch[..|batch| - 1]) + Size(batch[|batch| - 1])
  }

  lemma {:induction false} BytesAdd(a: seq<Entry>, b: seq<Entry>)
    ensures Bytes(a + b) == Bytes(a) + Bytes(b)
    ensures |b| == 1 ==> Bytes(b) == if b[0].size.Some? then b[0].size.value else 0
    decreases |b|
  {
    if b == [] {
      assert a + b == a;
    } else {
      var last := |b| - 1;
      assert (a + b)[..|a| + last] == a + b[..last];
      BytesAdd(a, b[..last]);
      if |b| == 1 { assert b[..last] == []; }
    }
  }

  predicate Full(batch: seq<Entry>) {
    |batch| >= BATCH_FILES || Bytes(batch) >= BATCH_BYTES
  }

  /** The unit that stands for entries[from..to]: a big file by itself, or files up to the first that fills a batch,
      the next big file, or the end. */
  ghost predicate IsUnit(entries: seq<Entry>, from: nat, u: Unit, to: nat) {
    && from < to <= |entries|
    && match u
       case BigFile => to == from + 1 && Big(entries[from])
       case Batch(b) =>
         && b == entries[from..to] && NoneBig(b)
         && (forall k :: from < k < to ==> !Full(entries[from..k]))
         && (Full(b) || to == |entries| || Big(entries[to]))
  }

  /** Which leaves no choice: the cuts are determined by the entries. */
  lemma UnitsAreDetermined(entries: seq<Entry>, from: nat, u: Unit, to: nat, v: Unit, upTo: nat)
    requires IsUnit(entries, from, u, to) && IsUnit(entries, from, v, upTo)
    ensures u == v && to == upTo
  {
    hide Full, Big;
    if u.Batch? { assert u.entries[0] == entries[from] && u.entries[0] in u.entries; }
    if v.Batch? { assert v.entries[0] == entries[from] && v.entries[0] in v.entries; }
  }

  /** A batch is small. */
  lemma BatchIsBounded(entries: seq<Entry>, from: nat, u: Unit, to: nat)
    requires IsUnit(entries, from, u, to) && u.Batch?
    ensures 1 <= |u.entries| <= BATCH_FILES && Bytes(u.entries) < BATCH_BYTES + BIG_FILE
    ensures |u.entries| == 500 || Bytes(u.entries) >= 67108864 || to == |entries| || Size(entries[to]) >= 268435456
    ensures |u.entries| <= 500 && Bytes(u.entries) < 335544320
  {
    var b := u.entries;
    assert b[..|b| - 1] == entries[from..to - 1];
    assert b[|b| - 1] in b;
  }

  /** The entries as they are pulled: `entries()` of `_rehashed`, which notes each row it hands out. A plain list has
      nobody reading its notes. */
  class Feed {
    const entries: seq<Entry>
    var pos: nat
    var pending: seq<Entry>

    constructor (entries: seq<Entry>)
      ensures this.entries == entries && pos == 0 && pending == []
    {
      this.entries := entries;
      pos, pending := 0, [];
    }

    method Pull() returns (e: Option<Entry>)
      requires pos <= |entries|
      modifies this
      ensures if old(pos) == |entries| then e.None? && unchanged(this)
              else e == Some(entries[old(pos)]) && pos == old(pos) + 1 && pending == old(pending) + [entries[old(pos)]]
    {
      if pos == |entries| {
        return None;
      }
      e, pending, pos := Some(entries[pos]), pending + [entries[pos]], pos + 1;
    }
  }

  lemma SliceGrows<T>(s: seq<T>, from: nat, at: nat)
    requires from <= at < |s|
    ensures s[from..at] + [s[at]] == s[from..at + 1] && s[from..at + 1][..at - from] == s[from..at]
  {
  }

  /** A batch being collected: nothing in it is big and no part of it is full. */
  ghost predicate Collecting(entries: seq<Entry>, from: nat, at: nat, batch: seq<Entry>, nbytes: nat) {
    && from <= at <= |entries| && batch == entries[from..at] && NoneBig(batch) && nbytes == Bytes(batch)
    && (forall k :: from < k <= at ==> !Full(entries[from..k]))
  }

  lemma NothingCollected(entries: seq<Entry>, from: nat)
    requires from <= |entries|
    ensures Collecting(entries, from, from, [], 0)
    ensures from < |entries| && Big(entries[from]) ==> IsUnit(entries, from, BigFile, from + 1)
  {
  }

  /** It is handed out when the next entry is big or missing. */
  lemma CollectedEnds(entries: seq<Entry>, from: nat, at: nat, batch: seq<Entry>, nbytes: nat)
    requires Collecting(entries, from, at, batch, nbytes) && batch != []
    requires at == |entries| || Big(entries[at])
    ensures IsUnit(entries, from, Batch(batch), at)
  {
    hide Full, Big, Bytes;
  }

  /** Or it takes the next entry, and is handed out if that fills it. */
  lemma CollectedGrows(entries: seq<Entry>, from: nat, at: nat, batch: seq<Entry>, nbytes: nat)
    requires Collecting(entries, from, at, batch, nbytes) && at < |entries| && !Big(entries[at])
    ensures var more := batch + [entries[at]];
      && nbytes + Size(entries[at]) == Bytes(more)
      && if Full(more) then IsUnit(entries, from, Batch(more), at + 1)
         else Collecting(entries, from, at + 1, more, nbytes + Size(entries[at]))
  {
    hide Full, Big;
    SliceGrows(entries, from, at);
    var more := batch + [entries[at]];
    assert more[..|more| - 1] == batch;
  }

  lemma NotesGrow(notes: seq<Entry>, s: seq<Entry>, from: nat, at: nat)
    requires from <= at < |s|
    ensures (notes + s[from..at]) + [s[at]] == notes + s[from..at + 1]
  {
    SliceGrows(s, from, at);
    assert (notes + s[from..at]) + [s[at]] == notes + (s[from..at] + [s[at]]);
  }

  lemma NoNotes(notes: seq<Entry>, s: seq<Entry>, at: nat)
    requires at <= |s|
    ensures notes + s[at..at] == notes
  {
  }

  /** `_units`, a generator: it stops where it last yielded. A batch is cut before a big file, which then comes next. */
  class Units {
    const feed: Feed
    var bigNext: bool

    predicate Valid()
      reads this, feed
    {
      && feed.pos <= |feed.entries|
      && (bigNext ==> feed.pos > 0 && Big(feed.entries[feed.pos - 1]))
    }

    /** How many entries the units handed out so far stand for. */
    function Done(): nat
      requires Valid()
      reads this, feed
    {
      if bigNext then feed.pos - 1 else feed.pos
    }

    constructor (feed: Feed)
      requires feed.pos == 0
      ensures Valid() && this.feed == feed && Done() == 0
    {
      this.feed := feed;
      bigNext := false;
    }

    method Next() returns (unit: Option<Unit>)
      requires Valid()
      modifies this, feed
      ensures Valid() && old(feed.pos) <= feed.pos
      ensures feed.pending == old(feed.pending) + feed.entries[old(feed.pos)..feed.pos]
      ensures if unit.None? then old(Done()) == Done() == |feed.entries|
              else IsUnit(feed.entries, old(Done()), unit.value, Done())
    {
      hide Collecting, IsUnit, Bytes;
      NoNotes(feed.pending, feed.entries, feed.pos);
      if bigNext {
        NothingCollected(feed.entries, feed.pos - 1);
        bigNext := false;
        return Some(BigFile);
      }
      var batch, nbytes: nat := [], 0;
      ghost var from := feed.pos;
      NothingCollected(feed.entries, from);
      while true
        invariant !bigNext && from <= feed.pos <= |feed.entries| && (batch == [] <==> feed.pos == from)
        invariant Collecting(feed.entries, from, feed.pos, batch, nbytes)
        invariant feed.pending == old(feed.pending) + feed.entries[from..feed.pos]
        decreases |feed.entries| - feed.pos
      {
        ghost var at := feed.pos;
        var e := feed.Pull();
        if e.None? {
          if batch == [] { return None; }
          CollectedEnds(feed.entries, from, at, batch, nbytes);
          return Some(Batch(batch));
        }
        NotesGrow(old(feed.pending), feed.entries, from, at);
        if Size(e.value) >= BIG_FILE {
          if batch == [] { return Some(BigFile); }
          CollectedEnds(feed.entries, from, at, batch, nbytes);
          bigNext := true;
          return Some(Batch(batch));
        }
        CollectedGrows(feed.entries, from, at, batch, nbytes);
        batch, nbytes := batch + [e.value], nbytes + Size(e.value);
        if |batch| >= BATCH_FILES || nbytes >= BATCH_BYTES {
          return Some(Batch(batch));
        }
      }
    }
  }
}
