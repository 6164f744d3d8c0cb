/** What a witness decides, remembers and releases, in terms of the request and its state file alone. */
module WitnessDecisions {
  import opened Wrappers
  import opened Merkle
  import opened Consistency
  import opened Checkpoints
  import opened Witnesses

  /** The key under which a checkpoint is checked: the one given, or else the one remembered for the log it names. */
  predicate UnderKey(logs: map<KeyId, Seen>, c: Checkpoint, logKey: KeyArgument, key: Key) {
    || logKey == KeyFile(key)
    || (&& logKey == NoKey && c.body.Some? && c.body.value.logId.Some? && c.body.value.logId.value in logs
        && logs[c.body.value.logId.value].logKey == key)
  }

  /** The checkpoint is new to the witness, repeats the last one, or extends it with a proof between the two sizes. */
  predicate Follows(logs: map<KeyId, Seen>, c: Checkpoint, key: Key, proof: ProofArgument)
    requires c.body.Some? && c.body.value.size.Some? && c.body.value.root.Some?
  {
    IdOf(key) !in logs ||
    var size, root, last := c.body.value.size.value, c.body.value.root.value, logs[IdOf(key)];
    || (size == last.size && root == last.root)
    || (&& size > last.size
        && proof.ProofGiven? && proof.file.fromSize == Some(last.size) && proof.file.toSize == Some(size)
        && proof.file.items.Some? && AllHex(proof.file.items.value)
        && Accepts(last.size, size, last.root, root, Digests(proof.file.items.value)))
  }

  lemma AcceptedNeverRaises(m: int, n: int, oldRoot: Digest, newRoot: Digest, items: seq<ProofItem>)
    requires AllHex(items)
    ensures !Raises(m, n, oldRoot, items)
  {
    hide AllHex;
    if Raises(m, n, oldRoot, items) {
      RaisesOnlyOnOtherThanText(m, n, oldRoot, items);
      NoOtherThanText(items);
    }
  }

  lemma NoOtherThanText(items: seq<ProofItem>)
    requires AllHex(items)
    ensures NotText !in items
  {
  }

  /** A witness proceeds exactly with a checkpoint signed by the key it is checked under, for that key's log, that
      follows what it last cosigned; and it updates its state exactly if the log or the size is new. */
  lemma ProceedsExactly(logs: map<KeyId, Seen>, c: Checkpoint, logKey: KeyArgument, proof: ProofArgument, id: KeyId,
                        key: Key, update: bool)
    ensures Decide(logs, c, logKey, proof) == Proceed(id, key, update) <==>
      && UnderKey(logs, c, logKey, key) && SignatureProblem(c, key).None? && id == IdOf(key)
      && Follows(logs, c, key, proof)
      && update == (id !in logs || c.body.value.size != Some(logs[id].size))
  {
    hide Accepts, Raises, AllHex, Digests;
    if proof.ProofGiven? && proof.file.items.Some? && AllHex(proof.file.items.value) && IdOf(key) in logs {
      if c.body.Some? && c.body.value.size.Some? && c.body.value.root.Some? {
        var last := logs[IdOf(key)];
        AcceptedNeverRaises(last.size, c.body.value.size.value, last.root, c.body.value.root.value,
                            proof.file.items.value);
      }
    }
  }

  /** Without a key there is nothing to check. */
  lemma KeyRefusals(logs: map<KeyId, Seen>, c: Checkpoint, logKey: KeyArgument, proof: ProofArgument)
    ensures var d := Decide(logs, c, logKey, proof);
      && (d == Refuse(LogKeyUnreadable) <==> logKey == UnreadableKey)
      && (d == Refuse(LogUnknown) <==>
            && logKey == NoKey
            && !(c.body.Some? && c.body.value.logId.Some? && c.body.value.logId.value in logs))
  {
    hide Accepts, Raises, AllHex, Digests;
  }

  /** With one, the refusals of what is not a good checkpoint of that key's log are those of its signature check. */
  lemma CheckpointRefusals(logs: map<KeyId, Seen>, c: Checkpoint, logKey: KeyArgument, proof: ProofArgument, key: Key,
                           problem: Problem)
    requires UnderKey(logs, c, logKey, key)
    ensures Decide(logs, c, logKey, proof) == Refuse(Invalid(problem)) <==> SignatureProblem(c, key) == Some(problem)
  {
    hide Accepts, Raises, AllHex, Digests, SignatureProblem;
    SignatureProblemExactly(c, key);
  }

  /** And of what is one, but does not follow the last one cosigned, by the first test that fails. */
  lemma GrowthRefusals(logs: map<KeyId, Seen>, c: Checkpoint, logKey: KeyArgument, proof: ProofArgument, key: Key)
    requires UnderKey(logs, c, logKey, key) && SignatureProblem(c, key).None? && IdOf(key) in logs
    ensures var d, last := Decide(logs, c, logKey, proof), logs[IdOf(key)];
      var size, root := c.body.value.size.value, c.body.value.root.value;
      var between := proof.ProofGiven? && proof.file.fromSize == Some(last.size) && proof.file.toSize == Some(size)
                     && proof.file.items.Some?;
      && (d == Refuse(Rollback) <==> size < last.size)
      && (d == Refuse(Fork) <==> size == last.size && root != last.root)
      && (d == Refuse(ProofNeeded) <==> size > last.size && proof == NoProof)
      && (d == Refuse(ProofSizes) <==> size > last.size && proof != NoProof && !between)
      && (d == Refuse(TypeErrorRaised) <==>
            size > last.size && between && Raises(last.size, size, last.root, proof.file.items.value))
      && (d == Refuse(NotAnExtension) <==>
            && size > last.size && between && !Raises(last.size, size, last.root, proof.file.items.value)
            && !(AllHex(proof.file.items.value)
                 && Accepts(last.size, size, last.root, root, Digests(proof.file.items.value))))
  {
    hide Accepts, Raises, AllHex, Digests;
  }

  /** The state that is looked at: a missing file is an empty one. */
  function LogsOf(file: StateFile): map<KeyId, Seen>
    requires !file.Unusable?
  {
    if file.Stored? then file.logs else map[]
  }

  /** A run releases something, or dies, only if it got past every refusal. */
  lemma RunsPastRefusals(key: Key, file: StateFile, r: Request)
    ensures var (after, outcome) := Step(key, file, r);
      && (outcome == Refused(CheckpointUnreadable) <==> r.checkpoint.None?)
      && (outcome == Refused(ProofUnreadable) <==> r.checkpoint.Some? && r.proof == UnreadableProof)
      && (outcome == Refused(StateUnusable) <==>
            r.checkpoint.Some? && r.proof != UnreadableProof && file.Unusable?)
      && (r.checkpoint.Some? && r.proof != UnreadableProof && !file.Unusable? ==>
            var d := Decide(LogsOf(file), r.checkpoint.value, r.logKey, r.proof);
            && (d.Refuse? ==> outcome == Refused(d.why) && after == file)
            && (d.Proceed? ==>
                  && (outcome == Refused(WitnessKeyUnreadable) <==> !r.witnessKeyReadable)
                  && (outcome == Refused(SaveFailed) <==>
                        r.witnessKeyReadable && d.update && r.fate.FailsAt? && r.fate.step != Return)
                  && (outcome == Died <==> r.witnessKeyReadable && d.update && r.fate.DiesBefore?)
                  && (outcome == Refused(WriteFailed) <==>
                        && r.witnessKeyReadable && r.writeFails
                        && (!d.update || r.fate.AllWorks? || r.fate == FailsAt(Return)))
                  && (outcome.Released? <==>
                        && r.witnessKeyReadable && !r.writeFails
                        && (!d.update || r.fate.AllWorks? || r.fate == FailsAt(Return)))))
  {
    hide Decide, Cosigned, Remember;
    if r.checkpoint.Some? && !file.Unusable? {
      RefusesForReason(LogsOf(file), r.checkpoint.value, r.logKey, r.proof);
    }
  }

  /** The refusals of a decision are not those of a run's files. */
  lemma RefusesForReason(logs: map<KeyId, Seen>, c: Checkpoint, logKey: KeyArgument, proof: ProofArgument)
    ensures var d := Decide(logs, c, logKey, proof);
      d.Refuse? ==>
        && !d.why.CheckpointUnreadable? && !d.why.ProofUnreadable? && !d.why.StateUnusable?
        && !d.why.WitnessKeyUnreadable? && !d.why.SaveFailed? && !d.why.WriteFailed?
  {
    hide Accepts, Raises, AllHex, Digests;
  }

  /** What a run leaves in the state file: the old contents, or with them the last checkpoint of one log as it was sent,
      with the key it was checked under and the time of the run. It is the second exactly if the update got that far. */
  lemma RemembersExactly(key: Key, file: StateFile, r: Request)
    ensures var after := Step(key, file, r).0;
      var proceeds := r.checkpoint.Some? && r.proof != UnreadableProof && !file.Unusable? && r.witnessKeyReadable
        && Decide(LogsOf(file), r.checkpoint.value, r.logKey, r.proof).Proceed?;
      if proceeds && Decide(LogsOf(file), r.checkpoint.value, r.logKey, r.proof).update
         && (r.fate.AllWorks? || r.fate.step == Return)
      then
        var d, c := Decide(LogsOf(file), r.checkpoint.value, r.logKey, r.proof), r.checkpoint.value;
        && SignatureProblem(c, d.logKey).None? && d.logId == IdOf(d.logKey)
        && after == Stored(LogsOf(file)[d.logId :=
             Seen(c.body.value.size.value, c.body.value.root.value, d.logKey, r.now, c.body.value, c.signature.value)])
      else after == file
  {
    hide Accepts, Raises, AllHex, Digests, Cosigned;
    if r.checkpoint.Some? && !file.Unusable? {
      var d := Decide(LogsOf(file), r.checkpoint.value, r.logKey, r.proof);
      if d.Proceed? {
        ProceedsExactly(LogsOf(file), r.checkpoint.value, r.logKey, r.proof, d.logId, d.logKey, d.update);
      }
    }
  }

  /** What a run releases: the body and the custodian's signature as they were sent, and after the cosignatures of
      others the witness's own, for that body, in its name and with the time of the run. */
  lemma ReleasesExactly(key: Key, file: StateFile, r: Request)
    requires Step(key, file, r).1.Released?
    ensures var c, cosigned := r.checkpoint.value, Step(key, file, r).1.cosigned;
      && c.body.Some? && cosigned.body == c.body && cosigned.signature == c.signature
      && cosigned.cosignatures ==
         Some(OthersOf(if c.cosignatures.Some? then c.cosignatures.value else [], IdOf(key)) +
              [Cosignature(Some(IdOf(key)), Some(r.now),
                           Some(Signed(key, CosignatureMessage(c.body.value, IdOf(key), r.now))))])
  {
    hide Accepts, Raises, AllHex, Digests, OthersOf;
  }

  /** The cosignatures of others: each item by itself stays or goes, and those that stay keep their order. An item stays
      exactly if it is a cosignature that does not name the witness. */
  lemma {:induction false} OthersOfTwo(a: seq<CosignatureItem>, b: seq<CosignatureItem>, own: KeyId)
    ensures OthersOf(a + b, own) == OthersOf(a, own) + OthersOf(b, own)
  {
    if a == [] {
      assert a + b == b;
    } else {
      assert (a + b)[1..] == a[1..] + b;
      OthersOfTwo(a[1..], b, own);
    }
  }

  lemma OthersOfOne(item: CosignatureItem, own: KeyId)
    ensures OthersOf([], own) == []
    ensures OthersOf([item], own) == if item.Cosignature? && item.witnessId != Some(own) then [item] else []
  {
    assert [item][1..] == [];
  }

  /** Whatever is released was signed by the holder of its log's key, over the very body that is released. */
  lemma ReleasedIsSigned(key: Key, file: StateFile, r: Request)
    requires Step(key, file, r).1.Released?
    ensures var c := Step(key, file, r).1.cosigned;
      c.body.Some? && exists logKey :: SignatureProblem(c, logKey).None? && c.body.value.logId == Some(IdOf(logKey))
  {
    hide Decide, SignatureProblem, Cosigned;
    RunsPastRefusals(key, file, r);
    ReleasesExactly(key, file, r);
    var c := r.checkpoint.value;
    var d := Decide(LogsOf(file), c, r.logKey, r.proof);
    ProceedsExactly(LogsOf(file), c, r.logKey, r.proof, d.logId, d.logKey, d.update);
    SignatureProblemExactly(c, d.logKey);
    SignatureProblemExactly(Step(key, file, r).1.cosigned, d.logKey);
  }
}
