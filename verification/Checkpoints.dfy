/** Checkpoints of the custody log: what is signed, how one is built, and what a verifier checks. */
module Checkpoints {
  import opened Wrappers
  import opened Merkle
  import opened MerkleTrees
  import opened Consistency
  import opened ConsistencyTheorems

  /** A public key; the signing key that belongs to it is the same value. */
  datatype Key = Key(id: nat)

  /** What names a log or a witness: the SHA-256 of a public key, or any other text found in a file. */
  datatype KeyId = IdOf(key: Key) | OtherId(text: string)

  /** The body of a checkpoint as read from JSON. None: the field is missing (for `size`, also: not an integer). */
  datatype Body = Body(version: int, logId: Option<KeyId>, size: Option<int>, root: Option<Digest>,
                       headHash: Option<Digest>, evidenceRoot: Option<Digest>, timestamp: string)

  /** What is signed. The tag inside a cosignature keeps the two kinds apart. */
  datatype Message =
    | CheckpointMessage(body: Body)
    | CosignatureMessage(body: Body, witnessId: KeyId, witnessedAt: string)

  /** A signature verifies under one key for one message, or never. */
  datatype Signature = Signed(key: Key, message: Message) | Garbage(text: string)

  predicate Verifies(key: Key, message: Message, signature: Signature) {
    signature == Signed(key, message)
  }

  /** An element of the `cosignatures` list of a file. None: missing or of another type. */
  datatype CosignatureItem =
    | Cosignature(witnessId: Option<KeyId>, witnessedAt: Option<string>, signature: Option<Signature>)
    | NotCosignature

  datatype Checkpoint =
    Checkpoint(body: Option<Body>, signature: Option<Signature>, cosignatures: Option<seq<CosignatureItem>>)

  datatype Problem =
    | NotACheckpoint | BadSignature | OtherLogKey
    | EntriesRemoved | RootDiffers | HeadDiffers

  predicate WellFormed(c: Checkpoint) {
    && c.body.Some? && c.signature.Some?
    && var b := c.body.value;
       b.version == 1 && b.logId.Some? && b.root.Some? && b.headHash.Some? && b.size.Some? && b.size.value >= 1
  }

  /** `checkpoint_signature_problem` */
  function SignatureProblem(c: Checkpoint, key: Key): Option<Problem> {
    if !WellFormed(c) then Some(NotACheckpoint)
    else if !Verifies(key, CheckpointMessage(c.body.value), c.signature.value) then Some(BadSignature)
    else if c.body.value.logId.value != IdOf(key) then Some(OtherLogKey)
    else None
  }

  /** `checkpoint_problem`: the log, given by its entry hashes, against the checkpoint. */
  method CheckpointProblem(c: Checkpoint, entries: seq<Digest>, key: Key) returns (problem: Option<Problem>)
    ensures SignatureProblem(c, key).Some? ==> problem == SignatureProblem(c, key)
    ensures problem.None? <==> Matches(c, entries, key)
    ensures SignatureProblem(c, key).None? ==>
      var size := c.body.value.size.value;
      && (problem == Some(EntriesRemoved) <==> |entries| < size)
      && (problem == Some(RootDiffers) <==>
            |entries| >= size && Some(Mth(entries[..size])) != c.body.value.root)
      && (problem == Some(HeadDiffers) <==>
            && |entries| >= size && Some(Mth(entries[..size])) == c.body.value.root
            && Some(entries[size - 1]) != c.body.value.headHash)
  {
    hide Mth;
    problem := SignatureProblem(c, key);
    if problem.Some? {
      return;
    }
    var body, size := c.body.value, c.body.value.size.value;
    if |entries| < size {
      return Some(EntriesRemoved);
    }
    var root := MerkleRoot(entries[..size]);
    if root.value != body.root.value {
      return Some(RootDiffers);
    }
    if entries[size - 1] != body.headHash.value {
      return Some(HeadDiffers);
    }
    return None;
  }

  /** The log still starts with exactly what the custodian committed to. */
  predicate Matches(c: Checkpoint, entries: seq<Digest>, key: Key) {
    && SignatureProblem(c, key).None?
    && var size := c.body.value.size.value;
       && size <= |entries|
       && Mth(entries[..size]) == c.body.value.root.value
       && entries[size - 1] == c.body.value.headHash.value
  }

  /** `build_checkpoint` over the entry hashes of a log. */
  function BuildCheckpoint(entries: seq<Digest>, key: Key, evidenceRoot: Option<Digest>, timestamp: string)
    : Result<Checkpoint>
  {
    if entries == [] then Err(ValueError)
    else
      var body := Body(1, Some(IdOf(key)), Some(|entries|), Some(Mth(entries)), Some(entries[|entries| - 1]),
                       evidenceRoot, timestamp);
      Ok(Checkpoint(Some(body), Some(Signed(key, CheckpointMessage(body))), None))
  }

  /** The file of `consistency_proof_since`. */
  datatype ProofFile = ProofFile(fromSize: Option<int>, toSize: Option<int>, items: Option<seq<ProofItem>>)

  function AsItems(digests: seq<Digest>): (items: seq<ProofItem>)
    ensures AllHex(items) && Digests(items) == digests
  {
    seq(|digests|, i requires 0 <= i < |digests| => Hex(digests[i]))
  }

  /** `consistency_proof_since` */
  method ConsistencyProofSince(entries: seq<Digest>, oldSize: int) returns (r: Result<ProofFile>)
    ensures r == if 1 <= oldSize <= |entries|
                 then Ok(ProofFile(Some(oldSize), Some(|entries|), Some(AsItems(RfcSubProof(oldSize, entries, true)))))
                 else Err(ValueError)
  {
    hide RfcSubProof;
    var tree := NewTree(entries);
    if tree.Err? {
      return Err(ValueError);
    }
    var proof := tree.value.ConsistencyProof(oldSize);
    if proof.Err? {
      return Err(ValueError);
    }
    return Ok(ProofFile(Some(oldSize), Some(|entries|), Some(AsItems(proof.value))));
  }

  /** A checkpoint matches the log it was built from, and every log that only grew since. */
  lemma BuiltCheckpointMatches(entries: seq<Digest>, later: seq<Digest>, key: Key,
                               evidenceRoot: Option<Digest>, timestamp: string)
    requires entries != []
    ensures Matches(BuildCheckpoint(entries, key, evidenceRoot, timestamp).value, entries + later, key)
  {
    hide Mth;
    assert (entries + later)[..|entries|] == entries;
  }

  /** A checkpoint pins the entries it covers: two logs that match it start with the same entries. */
  lemma MatchingLogsAgree(c: Checkpoint, entries1: seq<Digest>, entries2: seq<Digest>, key: Key)
    requires Matches(c, entries1, key) && Matches(c, entries2, key)
    ensures entries1[..c.body.value.size.value] == entries2[..c.body.value.size.value]
  {
    hide Mth;
    MthInjective(entries1[..c.body.value.size.value], entries2[..c.body.value.size.value]);
  }

  // ----- what the checks mean, said without them

  /** A checkpoint has nothing wrong with it under a key exactly if it has all its fields, that key signed this very
      body, and it names that key's log. Otherwise the first of these three that fails is reported. */
  lemma SignatureProblemExactly(c: Checkpoint, key: Key)
    ensures var complete := c.body.Some? && c.signature.Some? && c.body.value.version == 1
        && c.body.value.logId.Some? && c.body.value.root.Some? && c.body.value.headHash.Some?
        && c.body.value.size.Some? && c.body.value.size.value >= 1;
      var signed := complete && c.signature.value == Signed(key, CheckpointMessage(c.body.value));
      && (SignatureProblem(c, key) == Some(NotACheckpoint) <==> !complete)
      && (SignatureProblem(c, key) == Some(BadSignature) <==> complete && !signed)
      && (SignatureProblem(c, key) == Some(OtherLogKey) <==> signed && c.body.value.logId.value != IdOf(key))
      && (SignatureProblem(c, key) == None <==> signed && c.body.value.logId.value == IdOf(key))
  {
  }

  /** What is accepted under one key is refused under every other key, and its signature does not carry over to any
      other body. */
  lemma SignaturesDoNotCarryOver(c: Checkpoint, key: Key, other: Key, body: Body)
    requires SignatureProblem(c, key).None?
    ensures other != key ==> SignatureProblem(c, other) == Some(BadSignature)
    ensures Some(body) != c.body ==> SignatureProblem(c.(body := Some(body)), other).Some?
  {
    SignatureProblemExactly(c, key);
  }

  /** A log matches a checkpoint exactly if the checkpoint has nothing wrong with it, and the log is long enough and has
      the signed root and head hash at the signed size. */
  lemma MatchesExactly(c: Checkpoint, entries: seq<Digest>, key: Key)
    ensures Matches(c, entries, key) <==>
      exists n: nat ::
        && 1 <= n <= |entries| && SignatureProblem(c, key).None? && c.body.Some?
        && c.body.value.size == Some(n) && c.body.value.root == Some(Mth(entries[..n]))
        && c.body.value.headHash == Some(entries[n - 1])
  {
    hide Mth;
    if Matches(c, entries, key) {
      var n: nat := c.body.value.size.value;
      assert c.body.value.size == Some(n) && c.body.value.root == Some(Mth(entries[..n]));
    }
  }

  /** A built checkpoint commits to the number of entries, their root, the last of them, and what the caller gave. */
  lemma BuiltBody(entries: seq<Digest>, key: Key, evidenceRoot: Option<Digest>, timestamp: string)
    ensures entries == [] ==> BuildCheckpoint(entries, key, evidenceRoot, timestamp) == Err(ValueError)
    ensures entries != [] ==>
      var built := BuildCheckpoint(entries, key, evidenceRoot, timestamp);
      && built.Ok? && SignatureProblem(built.value, key).None?
      && built.value.body.value.size == Some(|entries|) && built.value.body.value.root == Some(Mth(entries))
      && built.value.body.value.headHash == Some(entries[|entries| - 1])
      && built.value.body.value.evidenceRoot == evidenceRoot && built.value.body.value.timestamp == timestamp
      && built.value.cosignatures == None
  {
    hide Mth;
  }
}
