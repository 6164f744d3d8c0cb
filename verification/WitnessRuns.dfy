/** What holds over every run of a witness: any requests, any logs, any refusals, any failed writes. */
module WitnessRuns {
  import opened Wrappers
  import opened Merkle
  import opened MerkleTrees
  import opened Consistency
  import opened ConsistencyTheorems
  import opened Checkpoints
  import opened Witnesses
  import WitnessDecisions

  /** A witness's state file and what it released, after some requests. */
  datatype World = World(file: StateFile, released: seq<Checkpoint>)

  function After(key: Key, start: StateFile, requests: seq<Request>): World {
    if requests == [] then World(start, [])
    else
      var before := After(key, start, requests[..|requests| - 1]);
      var (file, outcome) := Step(key, before.file, requests[|requests| - 1]);
      World(file, before.released + if outcome.Released? then [outcome.cosigned] else [])
  }

  /** Serving requests one by one with `Cosign` gives `After`. */
  method Serve(disk: WitnessDisk, requests: seq<Request>)
    requires disk.released == []
    modifies disk
    ensures World(disk.file, disk.released) == After(disk.key, old(disk.file), requests)
  {
    ghost var start := disk.file;
    for i := 0 to |requests|
      invariant World(disk.file, disk.released) == After(disk.key, start, requests[..i])
    {
      assert requests[..i + 1][..i] == requests[..i];
      var _ := disk.Cosign(requests[i]);
    }
    assert requests[..|requests|] == requests;
  }

  /** Anything that is a tree of `newSize` leaves with root `newRoot` starts with a tree of `size` leaves
      with root `root`. */
  ghost predicate Covers(newSize: int, newRoot: Digest, size: int, root: Digest) {
    && 1 <= size <= newSize && (size == newSize ==> root == newRoot)
    && forall entries: seq<Digest> :: |entries| == newSize && Mth(entries) == newRoot ==> Mth(entries[..size]) == root
  }

  lemma CoversItself(size: int, root: Digest)
    requires size >= 1
    ensures Covers(size, root, size, root)
  {
    hide Mth;
    forall entries: seq<Digest> | |entries| == size && Mth(entries) == root ensures Mth(entries[..size]) == root {
      assert entries[..size] == entries;
    }
  }

  /** An accepted proof carries coverage over to the new root, even if the old root was never rebuilt. */
  lemma CoversGrows(newSize: int, newRoot: Digest, midSize: int, midRoot: Digest, size: int, root: Digest,
                    proof: seq<Digest>)
    requires Covers(midSize, midRoot, size, root) && Accepts(midSize, newSize, midRoot, newRoot, proof)
    ensures Covers(newSize, newRoot, size, root)
  {
    hide Mth, ClimbFrom, RfcSubProof;
    forall entries: seq<Digest> | |entries| == newSize && Mth(entries) == newRoot
      ensures Mth(entries[..size]) == root
    {
      ConsistencyExact(midSize, midRoot, entries, proof);
      assert entries[..midSize][..size] == entries[..size];
    }
  }

  function SizeOf(c: Checkpoint): int
    requires WellFormed(c)
  {
    c.body.value.size.value
  }

  function RootOf(c: Checkpoint): Digest
    requires WellFormed(c)
  {
    c.body.value.root.value
  }

  function LogOf(c: Checkpoint): KeyId
    requires WellFormed(c)
  {
    c.body.value.logId.value
  }

  /** The saved state covers a released checkpoint of the same log. */
  ghost predicate StateCovers(file: StateFile, c: Checkpoint)
    requires WellFormed(c)
  {
    && file.Stored? && LogOf(c) in file.logs
    && Covers(file.logs[LogOf(c)].size, file.logs[LogOf(c)].root, SizeOf(c), RootOf(c))
  }

  /** The invariant of every run. */
  ghost predicate Safe(w: World) {
    && (forall i :: 0 <= i < |w.released| ==> WellFormed(w.released[i]) && StateCovers(w.file, w.released[i]))
    && (forall i, j :: 0 <= i <= j < |w.released| && LogOf(w.released[i]) == LogOf(w.released[j]) ==>
          Covers(SizeOf(w.released[j]), RootOf(w.released[j]), SizeOf(w.released[i]), RootOf(w.released[i])))
  }

  /** One step: every log keeps its entry or replaces it by one that covers all that the old one covered. */
  lemma StepCovers(key: Key, file: StateFile, r: Request, c: Checkpoint)
    requires WellFormed(c) && StateCovers(file, c)
    ensures StateCovers(Step(key, file, r).0, c)
  {
    hide Mth, ClimbFrom, Covers, Accepts, Cosigned;
    if Step(key, file, r).0 != file {
      var d := Decide(file.logs, r.checkpoint.value, r.logKey, r.proof);
      if d.logId == LogOf(c) {
        var last, b := file.logs[LogOf(c)], r.checkpoint.value.body.value;
        CoversGrows(b.size.value, b.root.value, last.size, last.root, SizeOf(c), RootOf(c),
                    Digests(r.proof.file.items.value));
      }
    }
  }

  /** What a run releases is exactly what its state file then says about that log. */
  lemma ReleasedIsSaved(key: Key, file: StateFile, r: Request)
    requires Step(key, file, r).1.Released?
    ensures var (after, outcome) := Step(key, file, r);
      && WellFormed(outcome.cosigned) && outcome.cosigned.body == r.checkpoint.value.body
      && after.Stored? && LogOf(outcome.cosigned) in after.logs
      && after.logs[LogOf(outcome.cosigned)].size == SizeOf(outcome.cosigned)
      && after.logs[LogOf(outcome.cosigned)].root == RootOf(outcome.cosigned)
  {
    hide Accepts, OthersOf;
  }

  lemma SafeStep(key: Key, w: World, r: Request)
    requires Safe(w)
    ensures var (file, outcome) := Step(key, w.file, r);
      Safe(World(file, w.released + if outcome.Released? then [outcome.cosigned] else []))
  {
    hide Step, Covers, WellFormed;
    var (file, outcome) := Step(key, w.file, r);
    forall i | 0 <= i < |w.released| ensures StateCovers(file, w.released[i]) {
      StepCovers(key, w.file, r, w.released[i]);
    }
    if outcome.Released? {
      ReleasedIsSaved(key, w.file, r);
      WellFormedSize(outcome.cosigned);
      CoversItself(SizeOf(outcome.cosigned), RootOf(outcome.cosigned));
      var next := w.released + [outcome.cosigned];
      assert forall i :: 0 <= i < |next| ==> WellFormed(next[i]) && StateCovers(file, next[i]);
    }
  }

  lemma WellFormedSize(c: Checkpoint)
    requires WellFormed(c)
    ensures SizeOf(c) >= 1
  {
  }

  lemma {:induction false} RunsAreSafe(key: Key, start: StateFile, requests: seq<Request>)
    ensures Safe(After(key, start, requests))
    decreases |requests|
  {
    hide Step;
    if requests != [] {
      RunsAreSafe(key, start, requests[..|requests| - 1]);
      SafeStep(key, After(key, start, requests[..|requests| - 1]), requests[|requests| - 1]);
    }
  }

  /** Whatever a witness releases in any run has nothing wrong with it under the key of the log it names: that key
      signed the released body. */
  lemma {:induction false} ReleasedAreSigned(key: Key, start: StateFile, requests: seq<Request>, i: nat)
    requires i < |After(key, start, requests).released|
    ensures var c := After(key, start, requests).released[i];
      WellFormed(c) && LogOf(c).IdOf? && SignatureProblem(c, LogOf(c).key).None?
    decreases |requests|
  {
    hide Step, WellFormed, SignatureProblem;
    var n := |requests| - 1;
    var w, r := After(key, start, requests[..n]), requests[n];
    if i < |w.released| {
      ReleasedAreSigned(key, start, requests[..n], i);
    } else {
      WitnessDecisions.ReleasedIsSigned(key, w.file, r);
      var c := Step(key, w.file, r).1.cosigned;
      var logKey :| SignatureProblem(c, logKey).None? && c.body.value.logId == Some(IdOf(logKey));
      GoodIsWellFormed(c, logKey);
    }
  }

  lemma GoodIsWellFormed(c: Checkpoint, logKey: Key)
    requires SignatureProblem(c, logKey).None?
    ensures WellFormed(c)
  {
  }

  /** Main result. Of two checkpoints of one log that a witness cosigned in any run, each matched by some log,
      the entries covered by the smaller are a prefix of those covered by the larger. The checkpoints
      cosigned in between need never have been rebuilt from a log. */
  lemma NoForkPasses(key: Key, start: StateFile, requests: seq<Request>, i: nat, j: nat,
                     key1: Key, key2: Key, entries1: seq<Digest>, entries2: seq<Digest>)
    requires var released := After(key, start, requests).released;
      && i < |released| && j < |released|
      && Matches(released[i], entries1, key1) && Matches(released[j], entries2, key2)
      && released[i].body.value.logId == released[j].body.value.logId
      && released[i].body.value.size.value <= released[j].body.value.size.value
    ensures var released := After(key, start, requests).released;
      var size1, size2 := released[i].body.value.size.value, released[j].body.value.size.value;
      entries1[..size1] == entries2[..size2][..size1]
  {
    hide Mth, Step;
    var w := After(key, start, requests);
    RunsAreSafe(key, start, requests);
    var c1, c2 := w.released[i], w.released[j];
    var covered1, covered2 := entries1[..SizeOf(c1)], entries2[..SizeOf(c2)];
    if i <= j {
      assert Mth(covered2[..SizeOf(c1)]) == RootOf(c1);
    } else {
      assert covered1[..SizeOf(c2)] == covered1 && covered2[..SizeOf(c1)] == covered2;
      assert Mth(covered1[..SizeOf(c2)]) == RootOf(c2);
    }
    MthInjective(covered1, covered2[..SizeOf(c1)]);
  }

  /** The sizes released for one log never go down, and an equal size comes with the same root. */
  lemma NoRollbackPasses(key: Key, start: StateFile, requests: seq<Request>, i: nat, j: nat)
    requires i <= j < |After(key, start, requests).released|
    ensures var released := After(key, start, requests).released;
      && WellFormed(released[i]) && WellFormed(released[j])
      && (LogOf(released[i]) == LogOf(released[j]) ==>
            && SizeOf(released[i]) <= SizeOf(released[j])
            && (SizeOf(released[i]) == SizeOf(released[j]) ==> RootOf(released[i]) == RootOf(released[j])))
  {
    hide Mth, Step;
    RunsAreSafe(key, start, requests);
  }

  /** In every run, with saves and writes that may fail at any step, what was released is within what is saved. */
  lemma {:induction false} ReleasedWithinSaved(key: Key, start: StateFile, requests: seq<Request>, i: nat)
    requires i < |After(key, start, requests).released|
    ensures var w := After(key, start, requests);
      && WellFormed(w.released[i]) && w.file.Stored? && LogOf(w.released[i]) in w.file.logs
      && var saved := w.file.logs[LogOf(w.released[i])];
         && SizeOf(w.released[i]) <= saved.size
         && (SizeOf(w.released[i]) == saved.size ==> RootOf(w.released[i]) == saved.root)
  {
    hide Mth, Step;
    RunsAreSafe(key, start, requests);
  }

  lemma StepNeverShrinks(key: Key, file: StateFile, r: Request, id: KeyId)
    requires file.Stored? && id in file.logs
    ensures var after := Step(key, file, r).0;
      && after.Stored? && id in after.logs && file.logs[id].size <= after.logs[id].size
      && (file.logs[id].size == after.logs[id].size ==> file.logs[id] == after.logs[id])
  {
    hide Accepts, Cosigned;
  }

  /** The saved size of a log never decreases, and its entry changes only when it grows. */
  lemma {:induction false} SavedNeverShrinks(key: Key, start: StateFile, requests: seq<Request>, more: seq<Request>,
                                             id: KeyId)
    requires var file := After(key, start, requests).file; file.Stored? && id in file.logs
    ensures var before, after := After(key, start, requests).file, After(key, start, requests + more).file;
      && after.Stored? && id in after.logs && before.logs[id].size <= after.logs[id].size
      && (before.logs[id].size == after.logs[id].size ==> before.logs[id] == after.logs[id])
    decreases |more|
  {
    hide Step;
    if more == [] {
      assert requests + more == requests;
    } else {
      var all, fewer := requests + more, more[..|more| - 1];
      assert all[..|all| - 1] == requests + fewer;
      SavedNeverShrinks(key, start, requests, fewer, id);
      StepNeverShrinks(key, After(key, start, requests + fewer).file, all[|all| - 1], id);
    }
  }

  /** After a cosignature that could not be written, or a process that died once the state was saved, the same command
      is accepted, even without the proof and whatever would happen to a save. */
  lemma RepeatIsAccepted(key: Key, file: StateFile, r: Request, proof: ProofArgument, now: string, fate: SaveFate)
    requires proof != UnreadableProof
    requires var outcome := Step(key, file, r).1;
      outcome == Refused(WriteFailed) || (outcome == Died && r.fate.step == Return)
    ensures var after := Step(key, file, r).0;
      var again := r.(proof := proof, now := now, fate := fate, writeFails := false);
      Step(key, after, again) == (after, Released(Cosigned(r.checkpoint.value, key, now)))
  {
    hide Accepts, Cosigned;
  }

  // ----- an honest custodian is always served

  /** At the size and root last cosigned the witness signs again without a proof and without touching its state,
      whatever head hash, evidence root and time the body carries: only size and root are compared. */
  lemma SameSizeIsSignedAgain(key: Key, logs: map<KeyId, Seen>, r: Request)
    requires r.checkpoint.Some? && r.logKey == NoKey && r.proof == NoProof && r.witnessKeyReadable && !r.writeFails
    requires var c := r.checkpoint.value;
      && WellFormed(c) && LogOf(c) in logs && SizeOf(c) == logs[LogOf(c)].size
      && SignatureProblem(c, logs[LogOf(c)].logKey).None?
    ensures var c, (after, outcome) := r.checkpoint.value, Step(key, Stored(logs), r);
      && after == Stored(logs)
      && outcome == if RootOf(c) == logs[LogOf(c)].root then Released(Cosigned(c, key, r.now)) else Refused(Fork)
  {
    hide Accepts, OthersOf;
  }

  /** The outcome of each request, in order. */
  function Outcomes(key: Key, file: StateFile, requests: seq<Request>): (outcomes: seq<Outcome>)
    ensures |outcomes| == |requests|
    decreases |requests|
  {
    if requests == [] then []
    else
      var (next, outcome) := Step(key, file, requests[0]);
      [outcome] + Outcomes(key, next, requests[1..])
  }

  function FileAfter(key: Key, file: StateFile, requests: seq<Request>): StateFile
    decreases |requests|
  {
    if requests == [] then file else FileAfter(key, Step(key, file, requests[0]).0, requests[1..])
  }

  function Cosignatures(outcomes: seq<Outcome>): seq<Checkpoint> {
    if outcomes == [] then []
    else Cosignatures(outcomes[..|outcomes| - 1]) +
         (if outcomes[|outcomes| - 1].Released? then [outcomes[|outcomes| - 1].cosigned] else [])
  }

  lemma {:induction false} OutcomesOneMore(key: Key, file: StateFile, requests: seq<Request>, last: Request)
    ensures var (next, outcome) := Step(key, FileAfter(key, file, requests), last);
      && Outcomes(key, file, requests + [last]) == Outcomes(key, file, requests) + [outcome]
      && FileAfter(key, file, requests + [last]) == next
    decreases |requests|
  {
    hide Step;
    var all := requests + [last];
    if requests == [] {
      assert all[0] == last && all[1..] == [];
    } else {
      assert all[0] == requests[0] && all[1..] == requests[1..] + [last];
      OutcomesOneMore(key, Step(key, file, requests[0]).0, requests[1..], last);
    }
  }

  /** What a run released is what its outcomes are. */
  lemma {:induction false} RunsAreOutcomes(key: Key, start: StateFile, requests: seq<Request>)
    ensures After(key, start, requests) ==
            World(FileAfter(key, start, requests), Cosignatures(Outcomes(key, start, requests)))
    decreases |requests|
  {
    hide Step;
    if requests != [] {
      var fewer, last := requests[..|requests| - 1], requests[|requests| - 1];
      assert requests == fewer + [last];
      RunsAreOutcomes(key, start, fewer);
      OutcomesOneMore(key, start, fewer, last);
      AfterOneMore(key, start, fewer, last);
      var outcomes := Outcomes(key, start, requests);
      assert outcomes[..|outcomes| - 1] == Outcomes(key, start, fewer);
    }
  }

  /** A visit to the witness: by the custodian of one log with the whole log as it then is, or by anyone else with any
      request about other logs. Any save and any write may fail. */
  datatype Visit =
    | Mine(entries: seq<Digest>, evidenceRoot: Option<Digest>, now: string, fate: SaveFate, writeFails: bool)
    | Other(request: Request)

  predicate AboutOtherLogs(r: Request, logKey: Key) {
    r.checkpoint.Some? ==> ClaimedLog(r.checkpoint.value) != Some(IdOf(logKey))
  }

  predicate GetsSaved(fate: SaveFate) {
    fate.AllWorks? || fate.step == Return
  }

  /** The witness last saw the log when it held `entries`, or never saw it. */
  predicate LastSaw(file: StateFile, logKey: Key, entries: Option<seq<Digest>>) {
    match entries
    case None => !file.Unusable? && (file.Stored? ==> IdOf(logKey) !in file.logs)
    case Some(e) =>
      && file.Stored? && IdOf(logKey) in file.logs && e != []
      && file.logs[IdOf(logKey)].size == |e| && file.logs[IdOf(logKey)].root == Mth(e)
  }

  function SeenAfter(seen: Option<seq<Digest>>, v: Visit): Option<seq<Digest>> {
    if v.Mine? && GetsSaved(v.fate) then Some(v.entries) else seen
  }

  /** The custodian's log only ever grows. */
  predicate OnlyGrows(visits: seq<Visit>, logKey: Key, seen: Option<seq<Digest>>)
    decreases |visits|
  {
    visits == [] ||
    (&& (match visits[0]
         case Mine(entries, _, _, _, _) => entries != [] && (seen.Some? ==> seen.value <= entries)
         case Other(r) => AboutOtherLogs(r, logKey))
     && OnlyGrows(visits[1..], logKey, SeenAfter(seen, visits[0])))
  }

  /** The custodian's request: a checkpoint of the whole log, and a proof from the size the witness last saved. */
  function HonestRequest(logKey: Key, v: Visit, seen: Option<seq<Digest>>): Request
    requires v.Mine? && v.entries != [] && (seen.Some? ==> 1 <= |seen.value| <= |v.entries|)
  {
    Request(Some(BuildCheckpoint(v.entries, logKey, v.evidenceRoot, v.now).value), KeyFile(logKey),
            if seen.None? then NoProof
            else ProofGiven(ProofFile(Some(|seen.value|), Some(|v.entries|),
                                      Some(AsItems(RfcSubProof(|seen.value|, v.entries, true))))),
            true, v.now, v.fate, v.writeFails)
  }

  function Requests(logKey: Key, visits: seq<Visit>, seen: Option<seq<Digest>>): (requests: seq<Request>)
    requires OnlyGrows(visits, logKey, seen) && (seen.Some? ==> seen.value != [])
    ensures |requests| == |visits|
    decreases |visits|
  {
    if visits == [] then []
    else
      var v := visits[0];
      [if v.Mine? then HonestRequest(logKey, v, seen) else v.request] +
      Requests(logKey, visits[1..], SeenAfter(seen, v))
  }

  lemma {:induction false} HonestStep(key: Key, file: StateFile, logKey: Key, seen: Option<seq<Digest>>, v: Visit)
    requires v.Mine? && v.entries != [] && LastSaw(file, logKey, seen) && (seen.Some? ==> seen.value <= v.entries)
    ensures var (after, outcome) := Step(key, file, HonestRequest(logKey, v, seen));
      && LastSaw(after, logKey, SeenAfter(seen, v))
      && (v.fate.AllWorks? && !v.writeFails ==>
            && outcome.Released? && Matches(outcome.cosigned, v.entries, logKey)
            && outcome.cosigned.body == BuildCheckpoint(v.entries, logKey, v.evidenceRoot, v.now).value.body)
  {
    hide Mth, ClimbFrom, RfcSubProof, OthersOf, Raises;
    assert v.entries[..|v.entries|] == v.entries;
    if seen.Some? {
      var m, proof := |seen.value|, RfcSubProof(|seen.value|, v.entries, true);
      assert v.entries[..m] == seen.value;
      ConsistencyExact(m, Mth(seen.value), v.entries, proof);
      if Raises(m, |v.entries|, Mth(seen.value), AsItems(proof)) {
        RaisesOnlyOnOtherThanText(m, |v.entries|, Mth(seen.value), AsItems(proof));
      }
      if m == |v.entries| {
        assert v.entries[..m] == v.entries;
      }
    }
  }

  /** Requests about other logs leave what is saved of this one alone. */
  lemma OtherStep(key: Key, file: StateFile, logKey: Key, seen: Option<seq<Digest>>, r: Request)
    requires LastSaw(file, logKey, seen) && AboutOtherLogs(r, logKey)
    ensures LastSaw(Step(key, file, r).0, logKey, seen)
  {
    hide Mth, Accepts, Raises, OthersOf;
  }

  /** Whatever others ask and whatever fails in between, every checkpoint of a log that only grows is cosigned whenever
      its own save and write work, and what is released matches the log it was built from. */
  lemma {:induction false} HonestCustodianIsServed(key: Key, logKey: Key, start: StateFile,
                                                   seen: Option<seq<Digest>>, visits: seq<Visit>)
    requires LastSaw(start, logKey, seen) && OnlyGrows(visits, logKey, seen)
    ensures seen.Some? ==> seen.value != []
    ensures var outcomes := Outcomes(key, start, Requests(logKey, visits, seen));
      forall i :: 0 <= i < |visits| && visits[i].Mine? && visits[i].fate.AllWorks? && !visits[i].writeFails ==>
        && outcomes[i].Released? && Matches(outcomes[i].cosigned, visits[i].entries, logKey)
        && visits[i].entries != []
        && outcomes[i].cosigned.body ==
           BuildCheckpoint(visits[i].entries, logKey, visits[i].evidenceRoot, visits[i].now).value.body
    decreases |visits|
  {
    hide Step, HonestRequest, BuildCheckpoint, Matches;
    if visits != [] {
      var v := visits[0];
      if v.Mine? {
        HonestStep(key, start, logKey, seen, v);
      } else {
        OtherStep(key, start, logKey, seen, v.request);
      }
      var requests := Requests(logKey, visits, seen);
      var next := Step(key, start, requests[0]).0;
      HonestCustodianIsServed(key, logKey, next, SeenAfter(seen, v), visits[1..]);
      assert requests[1..] == Requests(logKey, visits[1..], SeenAfter(seen, v));
      var outcomes := Outcomes(key, start, requests);
      assert outcomes[1..] == Outcomes(key, next, requests[1..]);
      forall i | 0 < i < |visits| ensures visits[i] == visits[1..][i - 1] && outcomes[i] == outcomes[1..][i - 1] {
      }
    }
  }

  lemma AfterOneMore(key: Key, start: StateFile, requests: seq<Request>, last: Request)
    ensures var w, all := After(key, start, requests), requests + [last];
      var (file, outcome) := Step(key, w.file, last);
      After(key, start, all) == World(file, w.released + if outcome.Released? then [outcome.cosigned] else [])
  {
    hide Step;
    assert (requests + [last])[..|requests|] == requests;
  }
}
