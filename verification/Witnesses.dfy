/** The witness: one decision over a persistent state, and two effects in a fixed order. */
module Witnesses {
  import opened Wrappers
  import opened Merkle
  import opened Consistency
  import opened Checkpoints

  /** What the witness remembers of a log: the last checkpoint it cosigned for it. */
  datatype Seen = Seen(size: int, root: Digest, logKey: Key, witnessedAt: string, body: Body, signature: Signature)

  /** The state file on disk. */
  datatype StateFile = Missing | Unusable | Stored(logs: map<KeyId, Seen>)

  /** The --log-key option. */
  datatype KeyArgument = NoKey | UnreadableKey | KeyFile(key: Key)

  /** The --proof option: not given, not readable as JSON, JSON that is not an object, or an object. */
  datatype ProofArgument = NoProof | UnreadableProof | OtherJson | ProofGiven(file: ProofFile)

  /** The steps of a save, in order. */
  datatype SaveStep = MakeTemp | WriteTemp | Replace | Return

  /** What happens to a save: every step works, the file operation of a step fails, or the process dies before a step is
      done. */
  datatype SaveFate = AllWorks | FailsAt(step: SaveStep) | DiesBefore(step: SaveStep)

  /** One run of `witness.py cosign`, with the outcomes of its file operations. `checkpoint` is None when the
      file cannot be read or is not a JSON object. */
  datatype Request = Request(
    checkpoint: Option<Checkpoint>, logKey: KeyArgument, proof: ProofArgument,
    witnessKeyReadable: bool, now: string, fate: SaveFate, writeFails: bool)

  datatype Refusal =
    | CheckpointUnreadable | ProofUnreadable | StateUnusable | LogKeyUnreadable | LogUnknown
    | Invalid(problem: Problem) | Rollback | Fork | ProofNeeded | ProofSizes | NotAnExtension | TypeErrorRaised
    | WitnessKeyUnreadable | SaveFailed | WriteFailed

  /** The outcome of `check`: refused, or the log's key and whether the state must be updated. */
  datatype Decision = Refuse(why: Refusal) | Proceed(logId: KeyId, logKey: Key, update: bool)

  /** A run leaves a cosigned checkpoint in the output file, or refuses, or dies during the save. */
  datatype Outcome = Refused(why: Refusal) | Released(cosigned: Checkpoint) | Died

  function ClaimedLog(c: Checkpoint): Option<KeyId> {
    if c.body.Some? then c.body.value.logId else None
  }

  /** The log key that a request is checked under. */
  function ChosenKey(logs: map<KeyId, Seen>, c: Checkpoint, logKey: KeyArgument): KeyChoice {
    match logKey
    case KeyFile(key) => Chosen(key)
    case UnreadableKey => NotChosen(LogKeyUnreadable)
    case NoKey =>
      if ClaimedLog(c).Some? && ClaimedLog(c).value in logs then Chosen(logs[ClaimedLog(c).value].logKey)
      else NotChosen(LogUnknown)
  }

  datatype KeyChoice = Chosen(key: Key) | NotChosen(why: Refusal)

  /** A proof file that runs between two sizes and is accepted for two roots. */
  predicate Extends(proof: ProofFile, m: int, n: int, oldRoot: Digest, newRoot: Digest) {
    && proof.items.Some? && AllHex(proof.items.value)
    && Accepts(m, n, oldRoot, newRoot, Digests(proof.items.value))
  }

  predicate RunsBetween(proof: ProofArgument, m: int, n: int) {
    && proof.ProofGiven? && proof.file.fromSize == Some(m) && proof.file.toSize == Some(n) && proof.file.items.Some?
  }

  /** What `check` decides, for a checkpoint whose signature and form are right, against the last one seen. */
  function DecideGrowth(last: Seen, size: int, root: Digest, proof: ProofArgument): Option<Refusal> {
    if size < last.size then Some(Rollback)
    else if size == last.size then
      if root != last.root then Some(Fork) else None
    else if proof == NoProof then Some(ProofNeeded)
    else if !RunsBetween(proof, last.size, size) then Some(ProofSizes)
    else if Raises(last.size, size, last.root, proof.file.items.value) then Some(TypeErrorRaised)
    else if !Extends(proof.file, last.size, size, last.root, root) then Some(NotAnExtension)
    else None
  }

  function Decide(logs: map<KeyId, Seen>, c: Checkpoint, logKey: KeyArgument, proof: ProofArgument): Decision {
    match ChosenKey(logs, c, logKey)
    case NotChosen(why) => Refuse(why)
    case Chosen(key) =>
      var problem := SignatureProblem(c, key);
      if problem.Some? then Refuse(Invalid(problem.value))
      else
        var id, size, root := c.body.value.logId.value, c.body.value.size.value, c.body.value.root.value;
        if id !in logs then Proceed(id, key, true)
        else
          var refusal := DecideGrowth(logs[id], size, root, proof);
          if refusal.Some? then Refuse(refusal.value) else Proceed(id, key, size != logs[id].size)
  }

  /** `check` */
  method Check(logs: map<KeyId, Seen>, c: Checkpoint, logKey: KeyArgument, proof: ProofArgument)
    returns (d: Decision)
    ensures d == Decide(logs, c, logKey, proof)
  {
    hide Accepts, Raises;
    var claimed := ClaimedLog(c);
    var key: Key;
    if logKey != NoKey {
      if logKey == UnreadableKey {
        return Refuse(LogKeyUnreadable);
      }
      key := logKey.key;
    } else if claimed.Some? && claimed.value in logs {
      key := logs[claimed.value].logKey;
    } else {
      return Refuse(LogUnknown);
    }
    var problem := SignatureProblem(c, key);
    if problem.Some? {
      return Refuse(Invalid(problem.value));
    }
    var id, size, root := c.body.value.logId.value, c.body.value.size.value, c.body.value.root.value;
    if id !in logs {
      return Proceed(id, key, true);
    }
    var seenSize, seenRoot := logs[id].size, logs[id].root;
    if size < seenSize {
      return Refuse(Rollback);
    }
    if size == seenSize {
      if root != seenRoot {
        return Refuse(Fork);
      }
      return Proceed(id, key, false);
    }
    if proof == NoProof {
      return Refuse(ProofNeeded);
    }
    if !proof.ProofGiven? || proof.file.fromSize != Some(seenSize) || proof.file.toSize != Some(size)
       || proof.file.items.None? {
      return Refuse(ProofSizes);
    }
    var extends' := VerifyConsistency(seenSize, size, seenRoot, root, proof.file.items.value);
    if extends'.Err? {
      return Refuse(TypeErrorRaised);  // not caught on the way out: the run ends with a traceback
    }
    if !extends'.value {
      return Refuse(NotAnExtension);
    }
    return Proceed(id, key, true);
  }

  function MakeCosignature(key: Key, body: Body, witnessedAt: string): CosignatureItem {
    Cosignature(Some(IdOf(key)), Some(witnessedAt), Some(Signed(key, CosignatureMessage(body, IdOf(key), witnessedAt))))
  }

  /** The cosignatures already in a file that were made by others. */
  function OthersOf(items: seq<CosignatureItem>, own: KeyId): seq<CosignatureItem> {
    if items == [] then []
    else if items[0].Cosignature? && items[0].witnessId != Some(own) then [items[0]] + OthersOf(items[1..], own)
    else OthersOf(items[1..], own)
  }

  method DropOwn(items: seq<CosignatureItem>, own: KeyId) returns (others: seq<CosignatureItem>)
    ensures others == OthersOf(items, own)
  {
    hide OthersOf;
    others := [];
    NoOthers(items, own);
    for i := 0 to |items|
      invariant others == OthersOf(items[..i], own)
    {
      OneMoreItem(items, i, own);
      if items[i].Cosignature? && items[i].witnessId != Some(own) {
        others := others + [items[i]];
      }
    }
    assert items[..|items|] == items;
  }

  lemma NoOthers(items: seq<CosignatureItem>, own: KeyId)
    ensures OthersOf(items[..0], own) == []
  {
  }

  lemma {:induction false} OneMoreItem(items: seq<CosignatureItem>, i: nat, own: KeyId)
    requires i < |items|
    ensures OthersOf(items[..i + 1], own) ==
            if items[i].Cosignature? && items[i].witnessId != Some(own) then OthersOf(items[..i], own) + [items[i]]
            else OthersOf(items[..i], own)
    decreases i
  {
    if i > 0 {
      var rest := items[1..];
      assert items[..i + 1][1..] == rest[..i] && items[..i][1..] == rest[..i - 1];
      OneMoreItem(rest, i - 1, own);
    } else {
      assert items[..1][1..] == [];
    }
  }

  function Cosigned(c: Checkpoint, key: Key, witnessedAt: string): Checkpoint
    requires c.body.Some?
  {
    var earlier := if c.cosignatures.Some? then c.cosignatures.value else [];
    c.(cosignatures := Some(OthersOf(earlier, IdOf(key)) + [MakeCosignature(key, c.body.value, witnessedAt)]))
  }

  function Remember(c: Checkpoint, logKey: Key, witnessedAt: string): Seen
    requires WellFormed(c)
  {
    var body := c.body.value;
    Seen(body.size.value, body.root.value, logKey, witnessedAt, body, c.signature.value)
  }

  /** The state file after a run and what the run released, as one function of the state file and the request. */
  function Step(key: Key, file: StateFile, r: Request): (next: (StateFile, Outcome)) {
    if r.checkpoint.None? then (file, Refused(CheckpointUnreadable))
    else if r.proof == UnreadableProof then (file, Refused(ProofUnreadable))
    else if file.Unusable? then (file, Refused(StateUnusable))
    else
      var c, logs := r.checkpoint.value, if file.Missing? then map[] else file.logs;
      match Decide(logs, c, r.logKey, r.proof)
      case Refuse(why) => (file, Refused(why))
      case Proceed(id, logKey, update) =>
        if !r.witnessKeyReadable then (file, Refused(WitnessKeyUnreadable))
        else if update && r.fate.FailsAt? && r.fate.step != Return then (file, Refused(SaveFailed))
        else if update && r.fate.DiesBefore? && r.fate.step != Return then (file, Died)
        else
          var after := if update then Stored(logs[id := Remember(c, logKey, r.now)]) else file;
          (after,
           if update && r.fate.DiesBefore? then Died
           else if r.writeFails then Refused(WriteFailed) else Released(Cosigned(c, key, r.now)))
  }

  /** The temporary file of a save. */
  datatype TempFile = NoTemp | Partial | Complete(logs: map<KeyId, Seen>)

  /** What a file holds that was moved over the state file. */
  function Moved(temp: TempFile): StateFile {
    match temp
    case NoTemp => Missing
    case Partial => Unusable
    case Complete(logs) => Stored(logs)
  }

  datatype SaveOutcome = Saved | NotSaved | DiedSaving

  /** A witness's disk: its state file, the temporary file of the save at hand, and every cosigned checkpoint it ever
      let out. */
  class WitnessDisk {
    const key: Key
    var file: StateFile
    var temp: TempFile
    ghost var released: seq<Checkpoint>

    constructor (key: Key)
      ensures this.key == key && file == Missing && released == []
    {
      this.key, file, temp, released := key, Missing, NoTemp, [];
    }

    /** `load_state` */
    method LoadState() returns (logs: Option<map<KeyId, Seen>>)
      ensures logs == match file case Missing => Some(map[]) case Unusable => None case Stored(l) => Some(l)
    {
      match file
      case Missing => return Some(map[]);
      case Unusable => return None;
      case Stored(l) => return Some(l);
    }

    /** `save_state`: the temporary file is complete before it takes the place of the state file. So wherever an
        operation fails or the process dies, the state file is the old one or the new one, never part of one; it is
        the new one whenever the save returns, and the old one, with nothing left over, whenever it raises. */
    method SaveState(logs: map<KeyId, Seen>, fate: SaveFate) returns (outcome: SaveOutcome)
      modifies this`file, this`temp
      ensures file == old(file) || file == Stored(logs)
      ensures outcome == Saved ==> file == Stored(logs) && temp == NoTemp
      ensures outcome == NotSaved ==> file == old(file) && temp == NoTemp
      ensures outcome == DiedSaving && file != old(file) ==> temp == NoTemp
      ensures outcome == if fate.AllWorks? || fate == FailsAt(Return) then Saved
                         else if fate.FailsAt? then NotSaved else DiedSaving
      ensures outcome == DiedSaving ==> file == if fate.step == Return then Stored(logs) else old(file)
    {
      temp := NoTemp;  // one that an earlier run left behind has another name
      if fate == FailsAt(MakeTemp) {
        return NotSaved;
      }
      if fate == DiesBefore(MakeTemp) {
        return DiedSaving;
      }
      temp := Partial;
      if fate == FailsAt(WriteTemp) {
        temp := NoTemp;
        return NotSaved;
      }
      if fate == DiesBefore(WriteTemp) {
        return DiedSaving;
      }
      temp := Complete(logs);
      if fate == FailsAt(Replace) {
        temp := NoTemp;
        return NotSaved;
      }
      if fate == DiesBefore(Replace) {
        return DiedSaving;
      }
      file, temp := Moved(temp), NoTemp;
      assert !fate.AllWorks? ==> fate.step.Return?;
      return if fate == DiesBefore(Return) then DiedSaving else Saved;
    }

    /** `cmd_cosign` */
    method Cosign(r: Request) returns (outcome: Outcome)
      modifies this
      ensures (file, outcome) == Step(key, old(file), r)
      ensures released == old(released) + if outcome.Released? then [outcome.cosigned] else []
    {
      hide Decide, OthersOf;
      if r.checkpoint.None? {
        return Refused(CheckpointUnreadable);
      }
      if r.proof == UnreadableProof {
        return Refused(ProofUnreadable);
      }
      var loaded := LoadState();
      if loaded.None? {
        return Refused(StateUnusable);
      }
      var c, logs := r.checkpoint.value, loaded.value;
      var decision := Check(logs, c, r.logKey, r.proof);
      if decision.Refuse? {
        return Refused(decision.why);
      }
      if !r.witnessKeyReadable {
        return Refused(WitnessKeyUnreadable);
      }
      ProceedIsWellFormed(logs, c, r.logKey, r.proof);
      var cosignature := MakeCosignature(key, c.body.value, r.now);
      if decision.update {
        logs := logs[decision.logId := Remember(c, decision.logKey, r.now)];
        var saved := SaveState(logs, r.fate);
        if saved == NotSaved {
          return Refused(SaveFailed);
        }
        if saved == DiedSaving {
          return Died;
        }
      }
      var others := DropOwn(if c.cosignatures.Some? then c.cosignatures.value else [], IdOf(key));
      var cosigned := c.(cosignatures := Some(others + [cosignature]));
      if r.writeFails {
        return Refused(WriteFailed);
      }
      released := released + [cosigned];
      return Released(cosigned);
    }
  }

  lemma ProceedIsWellFormed(logs: map<KeyId, Seen>, c: Checkpoint, logKey: KeyArgument, proof: ProofArgument)
    requires Decide(logs, c, logKey, proof).Proceed?
    ensures WellFormed(c)
  {
    hide Accepts;
  }
}
