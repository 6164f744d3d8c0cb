# A Dafny model of the chain-of-custody system

The system keeps digital evidence under a chain of custody: evidence hashes are the leaves of RFC 6962 Merkle trees,
custody events are signed and hash-linked, checkpoints of the log are cosigned by witnesses, and a standalone verifier
checks all of it again. This project models the parts of it that are hardest to get right and proves what they promise
for all inputs and all runs. `dafny verify dfyconfig.toml` checks everything.

## What is modelled

**The Merkle tree and its proofs** (`Bits`, `Merkle`, `MerkleTrees`, `NodeRanges`, `RootBuilders`, `ProofStreams`,
`Inclusion`, `NestedProofs`, `Consistency`, `ConsistencyTheorems`, `ConsistencyErrors`, `ClaimedSizes`). The tree is
defined once, as in section 2.1 of RFC 6962. The level-by-level build, the binary-counter builder, the one-pass stream
and the verifier's loop are each a method proved to compute it. All of the proofs strip one level off a tree, which at
the same time halves every size and index, so the bit loops and the recursion meet in the middle. The main result is
`ConsistencyExact`: against the true root of a list D', the bottom-up checker of section 2.1.4.2 of RFC 9162 accepts
exactly the true old root and the proof of section 2.1.2 of RFC 6962. Soundness and completeness follow from it.

**The witness protocol** (`Checkpoints`, `Witnesses`, `WitnessDecisions`, `WitnessRuns`, `Cosigners`). A witness is a
state file and two effects in a fixed order, either of which may fail, and the process may die at any step of a save.
The main result is `NoForkPasses`, over every run. The roots of the checkpoints in between need not be the root of
anything anyone has seen, so the invariant is stated over all lists that a root may stand for (`Covers`).
`WitnessDecisions` says what a witness accepts, remembers and releases in terms of the request and its state file
alone, and `ReleasedAreSigned` that whatever it releases was signed by the holder of the log's key.

**The custody chain** (`Events`, `Payloads`, `PayloadTexts`, `BarPayloads`, `HashChains`, `Stores`, `StoreRuns`,
`Json`). Appending, checking, anchors, and any number of writers that load, append and save. What is hashed is read
back from its text, by cutting it at its bars or with a reader of JSON objects, to the fields it was made from. Here
hashes are a function on texts that may collide: where a pinning result fails, it gives the place at which the two logs
have different payloads with one hash.

**Reading long lists** (`Utf8`, `Json`, `JsonArrays`, `JsonAcceptance`, `JsonReaders`, `EvidenceReads`). The chunked
reader of a JSON array against reading the whole text, and that against every way of writing an array; and the reads of
the evidence table that hold little in memory.

**The search screen** (`Evidence`, `Pagers`, `Searchers`, `SearchStates`). A keyset window against absolute selection
over the full result, narrowing against scanning, and the worker thread as a protocol whose every interleaving is
considered.

**The process pools** (`Pools`, `PoolRuns`). Cutting into units, the bounded window, and the runs that pair results
with rows, against a sequential run, for every order in which workers finish.

`Texts` and `Wrappers` hold Python strings, optional values and exceptions. Objects whose methods change fields are
classes, loops are methods with loops, and each such method is proved against a function whose own properties are then
proved as lemmas. A check that methods and lemmas share as a function is characterised once more without it, in a lemma
named `...Exactly`.

## How things are represented

- A digest is a free term: a raw value, the hash of a leaf, or the hash of two nodes. Leaf and node prefixes, and the
  absence of collisions, then hold by construction. A folder's root used as a leaf is a nested term. Digests have one
  width: that every hex text in a tree, a proof or a checkpoint is 64 digits is an assumption, which the source does
  not check.
- A signature verifies under one key for one message, or never. In the custody chain, signing and hashing are
  parameters of which only this is asked: hashes have 64 hexadecimal digits, and what is signed verifies.
- The evidence table is a sequence sorted strictly by id; a keyset query is a filter over it.
- A witness run takes the outcome of each file operation as an input, so every failure is some run.
- Worker threads and processes are steps that may come at any point: between two calls, and in the search screen also
  between the two moments at which one call looks at the worker.
- What does not appear in the source and serves proofs only is `ghost`, except the numbers that tell equal search
  requests apart and the state values of the protocols.

## Where the code and its words differ

The model follows the code.

- `_node` says it is valid for any range that ends at the last leaf. It is valid exactly if such a range also starts at
  a multiple of its block size (`NodeRanges.NodeIsRightExactly`, `NodeRanges.LastTwoOfThree`). Its callers only ask for
  those.
- `settle` says that keys always act on what was typed. If a text is typed, deleted before its scan ends, and typed
  again after the scan's answer was dropped, nothing asks for it again and the screen stays busy
  (`SearchStates.TypedAgain`). `SearchStates.SearchState.Settle` says exactly when waiting works.
- `_Searcher` says a result that is no longer the newest is never handed out. That holds until it is closed, and after
  that unless a request was waiting behind a running scan (`Searchers.CloseOverWaitingIsStale`).
- The nested proof of a folder member is not accepted when the folder is the only top-level group
  (`NestedProofs.FolderProofAccepted`).
- `iter_json_strings` says it raises on anything but an array of strings. It does not look at what follows the closing
  bracket, so this holds exactly unless something other than spaces does (`JsonAcceptance.RefusesAnythingElse`,
  `JsonAcceptance.TrailingTextIsAccepted`).
- `verify_consistency` says that it never raises on a malformed proof. An element that is no text raises a TypeError
  (`ConsistencyErrors.RaisesExactly` says exactly when, `Consistency.NumberRaises` gives one), and a witness then ends
  with a traceback instead of a refusal, with nothing saved or released.

## Model

| member | source | states |
|---|---|---|
| `ConsistencyTheorems.ConsistencyExact` | src/vcoc/merkle.py:201-234 | For any old size, old root and proof, and the true root of any list D': the checker accepts exactly when the size is in range, the old root is the true root of the first m leaves of D', and the proof is PROOF(m, D') of section 2.1.2 of RFC 6962 |
| `ConsistencyTheorems.ConsistencySound` | src/vcoc/merkle.py:201-234 | Acceptance of the true roots of two lists, with any proof at all, makes the older list a prefix of the newer one |
| `ConsistencyTheorems.ConsistencyComplete` | src/vcoc/merkle.py:87-100 | The proof a tree makes for any 1 <= m <= n is accepted with the roots of the two sizes |
| `ConsistencyTheorems.ClimbForces` | src/vcoc/merkle.py:217-234 | If the bottom-up loop reaches the true new root, then the remaining path is the sibling path of the node it stands on, that node is the true one, and the old root it computes is that of the true nodes before it |
| `ConsistencyTheorems.ProducedIsGenuine` | src/vcoc/merkle.py:92-100 | The top-down recursion and the bottom-up order of siblings give the same proof, the old root put in front when it is a node of the new tree |
| `ConsistencyTheorems.NewSizeIsNotAuthenticated` | verifier.py:521-523 | Acceptance does not fix the new size: one proof passes for three leaves and for four |
| `ClaimedSizes.ClaimedSizesExactly` | verifier.py:234-268 | An accepted proof also passes for another claimed new size exactly if the last full node of the old tree has its siblings on the same sides in both, whatever the roots are |
| `ClaimedSizes.RootsTellSides` | verifier.py:253-265 | The two roots that the loop reaches along one path determine its left and right turns |
| `Consistency.VerifyConsistency` | src/vcoc/merkle.py:201-234 | For any integers and any list: a TypeError exactly if the first element hashed that is not hex text is no text at all; otherwise acceptance of exactly the proofs that are all hex and fit the level-by-level definition |
| `Consistency.RaisesOnlyOnOtherThanText` | verifier.py:266-267 | The TypeError needs an element that is no text: a proof that is all text never raises |
| `Consistency.NumberRaises` | verifier.py:234-237 | It does occur: one such element, between sizes 1 and 2 |
| `ConsistencyErrors.RaisesExactly` | verifier.py:242-267 | When it occurs, for any sizes, old root and proof: exactly if the first element that is not hex text is no text at all and its place is within the length of PROOF(m, D) for the two sizes, and, if the old root does not start the path, the proof has a second element |
| `Consistency.CheckPath` | verifier.py:247-268 | The two loops over the bits of the sizes compute the recursive climb over halves |
| `MerkleTrees.NewTree` | src/vcoc/merkle.py:33-37 | A tree of a non-empty list holds its levels; the empty list is a ValueError |
| `MerkleTrees.BuildLevels` | src/vcoc/merkle.py:39-49 | The stored levels are the leaf hashes and every level above them |
| `MerkleTrees.MerkleTree.TreeRoot` | src/vcoc/merkle.py:51-53 | The top node is MTH(D) of section 2.1 of RFC 6962 |
| `MerkleTrees.MerkleTree.Node` | src/vcoc/merkle.py:69-72 | For every range that is a node of the tree, the lookup by bit length and shift finds MTH of the leaves of the range |
| `NodeRanges.NodeIsRightExactly` | src/vcoc/merkle.py:69-72 | On leaves that are all different, for every range: the lookup never fails, and it finds MTH of the range exactly if the range is a node of the tree |
| `NodeRanges.SubtreesAreAligned` | src/vcoc/merkle.py:69-72 | The nodes are the ranges that start at a multiple of their block size and fill the block or end at the last leaf |
| `NodeRanges.LastTwoOfThree` | src/vcoc/merkle.py:70 | A range that only ends at the last leaf is not enough: over leaves 1 and 2 of three the lookup gives the node over leaves 0 and 1 |
| `MerkleTrees.MerkleTree.RootAt` | src/vcoc/merkle.py:74-85 | For every size in 1..n the fold over the lowest set bits is MTH of the first `size` leaves; any other size is a ValueError |
| `MerkleTrees.MerkleTree.ConsistencyProof` | src/vcoc/merkle.py:87-100 | PROOF(m, D) of section 2.1.2 of RFC 6962, or ValueError for a size outside 1..n |
| `MerkleTrees.MerkleTree.SubProofIsRfc` | src/vcoc/merkle.py:92-98 | The recursion over stored nodes gives SUBPROOF over the leaves of any node it is called for |
| `MerkleTrees.MerkleTree.GetProof` | src/vcoc/merkle.py:55-67 | The steps from leaf i to the root, none for a lone last node, or IndexError |
| `MerkleTrees.MerkleRoot` | verifier.py:222-231 | The loop that replaces `level` returns MTH of the leaves, and ValueError for none |
| `Bits.SplitPointByShift` | src/vcoc/merkle.py:95 | The shifted bit length is the largest power of two below n |
| `Bits.AndPredecessor` | src/vcoc/merkle.py:211 | `n & (n - 1)` clears the lowest set bit, and is 0 exactly for powers of two |
| `Bits.AndMinusIsLowBit` | src/vcoc/merkle.py:81 | `n & -n` is the largest power of two that divides n |
| `Merkle.RootNext` | src/vcoc/merkle.py:43-48 | Pairing one level and moving a lone last node up keeps the recursively defined root |
| `Merkle.MthInjective` | src/vcoc/merkle.py:7-13 | A root determines the whole list of leaves, and with it its length |
| `RootBuilders.MerkleRootBuilder.Add` | src/vcoc/merkle.py:113-122 | Adding a leaf keeps the pending nodes those of all leaves so far |
| `RootBuilders.MerkleRootBuilder.CarryIn` | src/vcoc/merkle.py:115-122 | The loop is a carry into a binary counter of nodes |
| `RootBuilders.MerkleRootBuilder.RootValue` | src/vcoc/merkle.py:124-131 | The fold of the open subtrees is MTH of all leaves added, and ValueError for none |
| `RootBuilders.PendingCarries` | src/vcoc/merkle.py:115-122 | The pending nodes of one more leaf are the carry of its hash into the pending nodes before it |
| `RootBuilders.FoldIsRoot` | src/vcoc/merkle.py:127-131 | Folding the open subtrees from the smallest up gives the recursively defined root |
| `RootBuilders.PendingIsSmall` | src/vcoc/merkle.py:103-107 | As many levels as the leaf count has bits, and one open subtree for each set bit |
| `ProofStreams.MerkleProofStream` | src/vcoc/merkle.py:134-188 | For the first item with the key in any stream: index, leaf, steps and root are those of the whole tree; KeyError if no item has it, ValueError for an empty stream |
| `ProofStreams.ByTreeExactly` | src/vcoc/merkle.py:134-188 | Whose result is, for an empty stream, a ValueError; for a key that no pair has, a KeyError; and otherwise the place and leaf of the first pair with the key, its sibling path and MTH over all leaves |
| `ProofStreams.ReadItems` | src/vcoc/merkle.py:142-168 | The one pass keeps level 1 of the tree, the target's place and its hashed sibling, and a last odd leaf |
| `ProofStreams.ClimbLevels` | src/vcoc/merkle.py:172-188 | From level 1 up, the steps are the rest of the path and the last node is the root |
| `Inclusion.VerifyProof` | src/vcoc/merkle.py:191-198 | Acceptance is equality of the root with the fold of the steps over the hashed leaf |
| `Inclusion.InclusionExact` | src/vcoc/merkle.py:191-198 | Against the root of any tree, a leaf and any steps are accepted exactly when the tree holds the leaf at a place whose path the steps are, although neither index nor size is checked |
| `Inclusion.AcceptedPathIsGenuine` | verifier.py:204-211 | The place, computed from the accepted steps |
| `Inclusion.PathSplit` | src/vcoc/merkle.py:59-66 | The last step of a path is the root of the other half of the tree, on the left exactly if the leaf is in the second half; the steps before it are the path within its own half |
| `Inclusion.PathIsRfcPath` | src/vcoc/merkle.py:55-67 | The siblings of the steps of `get_proof` are PATH(m, D) of section 2.1.1 of RFC 6962 |
| `NestedProofs.VerifyNestedProof` | verifier.py:214-219 | Two hops, or a comparison of the subtree root when the second hop is empty |
| `NestedProofs.NestedSound` | verifier.py:214-219 | Acceptance against a top root makes `subtree_root` a top-level leaf and the evidence leaf a member of every list with that root; with an empty second hop the leaf is itself top-level |
| `NestedProofs.MakeProof` | cli.py:417-442 | The proof file for a folder member (its leaf among the members, the path to the folder root, that root, and the path from it to the top root) or for a single file (its own hash, one path, no second hop), and the errors of the streams in the order they are read |
| `NestedProofs.FolderProofAccepted` | cli.py:424-429 | The proof made for a folder member is accepted exactly if there are at least two top-level groups |
| `NestedProofs.OneFolderIsRefused` | cli.py:424-429 | The other case occurs: one folder with any members and nothing else is consistent, and no member has an accepted proof |
| `NestedProofs.FileProofAccepted` | cli.py:430-432 | The proof made for a file outside folders is always accepted |
| `Checkpoints.CheckpointProblem` | verifier.py:572-588 | What is wrong with form, signature and log id comes first; then a log that is too short, a root over the first `size` entries that is not the signed one, and a last entry that is not the signed head hash; no problem exactly if none of these |
| `Checkpoints.SignatureProblemExactly` | verifier.py:543-569 | A checkpoint has nothing wrong with it under a key exactly if it has every field, its signature is that key's over this very body, and it names that key's log; otherwise the first of the three that fails is given |
| `Checkpoints.SignaturesDoNotCarryOver` | verifier.py:560-569 | What is accepted under one key is a bad signature under every other key, and with any other body it is refused under every key |
| `Checkpoints.MatchesExactly` | verifier.py:572-588 | A log matches exactly if it has at least the signed number of entries, MTH of that many is the signed root, and the last of them is the signed head hash |
| `Checkpoints.BuiltBody` | src/vcoc/checkpoint.py:33-49 | A built checkpoint is signed by its key and holds the number of entries, their root, the last of them, and the evidence root and time it was given; none is built for an empty log |
| `Checkpoints.BuiltCheckpointMatches` | src/vcoc/checkpoint.py:33-49 | A checkpoint built from a log matches every log that only grew since |
| `Checkpoints.MatchingLogsAgree` | verifier.py:578-588 | Two logs that match one checkpoint start with the same entries |
| `Checkpoints.ConsistencyProofSince` | src/vcoc/checkpoint.py:52-55 | The file carries the two sizes and PROOF(old size, entries), or a ValueError |
| `Witnesses.Check` | witness.py:89-131 | The decision of `check`, branch by branch, with the loop of the consistency check inside and its TypeError let through |
| `WitnessDecisions.ProceedsExactly` | witness.py:89-131 | It proceeds exactly with a checkpoint that the key given, or else the one remembered, signed for its own log, and that is new to the witness, repeats the size and root last cosigned, or extends them by an accepted proof between the two sizes; it updates the state exactly if log or size is new |
| `WitnessDecisions.KeyRefusals` | witness.py:91-102 | It refuses for want of a key exactly if the key file cannot be read, or none is given and the log is not remembered |
| `WitnessDecisions.CheckpointRefusals` | witness.py:103-105 | It refuses a checkpoint as invalid exactly for what is wrong with it under that key |
| `WitnessDecisions.GrowthRefusals` | witness.py:113-131 | Smaller, forked, without a proof, with a proof between other sizes, raising, or not an extension: each refusal is given exactly in its case |
| `Witnesses.WitnessDisk.SaveState` | witness.py:72-86 | Whichever of its steps fails, or before whichever the process dies, the state file is the old one or the complete new one; after a failure it is the old one and no temporary file is left |
| `Witnesses.WitnessDisk.Cosign` | witness.py:145-173 | State file and outcome after a run, for any input, any failing save or write and a death at any step of the save: state first, output second |
| `WitnessDecisions.RunsPastRefusals` | witness.py:145-173 | Which outcome a run has, each exactly in its case: unreadable files first, then the decision, then the witness key, the save and the write |
| `WitnessDecisions.RemembersExactly` | witness.py:158-164 | The state file changes exactly when an update was saved, and then only in the entry of the checkpoint's log, which holds its size, root, body and signature, the key it was checked under and the time |
| `WitnessDecisions.ReleasesExactly` | witness.py:165-171 | A released file has the body and the custodian's signature as they were sent, the cosignatures of others, and last the witness's own, for that body, in its name, with the time of the run |
| `WitnessDecisions.OthersOfTwo` | witness.py:165-166 | Of the cosignatures already there each stays or goes by itself, in order |
| `WitnessRuns.ReleasedAreSigned` | witness.py:89-173 | In every run, every released checkpoint names a log and has nothing wrong with it under that log's key: its holder signed the released body |
| `WitnessRuns.Serve` | witness.py:145-173 | Any list of runs leaves the state and the released checkpoints of the step function |
| `WitnessRuns.NoForkPasses` | witness.py:89-173 | In every run, if two cosigned checkpoints of one log are each matched by some log, the entries covered by the smaller are a prefix of those covered by the larger, even if nothing cosigned in between was ever rebuilt from a log |
| `WitnessRuns.CoversGrows` | witness.py:126-131 | An accepted proof carries over what the old root covers to the new root, for roots nobody has rebuilt |
| `WitnessRuns.RunsAreSafe` | witness.py:145-173 | In every run the released checkpoints of a log form a chain of coverage that ends at the saved state |
| `WitnessRuns.NoRollbackPasses` | witness.py:113-118 | Released sizes of a log never go down, and equal sizes have equal roots |
| `WitnessRuns.ReleasedWithinSaved` | witness.py:156-171 | In every run, whatever fails, a released checkpoint is at most the saved size, with equal size implying the saved root |
| `WitnessRuns.SavedNeverShrinks` | witness.py:113-118 | The saved size of a log never decreases and its entry changes only when it grows |
| `WitnessRuns.RepeatIsAccepted` | witness.py:156-171 | After a failed output write, or a death once the state was saved, the same command is accepted, with any readable proof argument or none |
| `WitnessRuns.SameSizeIsSignedAgain` | witness.py:115-118 | At the saved size the witness signs again exactly if the root is equal, with no look at head hash or evidence root |
| `WitnessRuns.HonestCustodianIsServed` | witness.py:145-173 | Whatever others ask about other logs and whatever saves and writes fail in between, every checkpoint of a log that only grows, each with its own evidence root and time, is cosigned whenever its own save and write work, and what is released matches the entries it was built from |
| `WitnessRuns.RunsAreOutcomes` | witness.py:145-173 | What a run releases is what the outcomes of its requests are, in order |
| `Cosigners.CosigningWitnesses` | verifier.py:605-635 | The valid ids are exactly the trusted ones with some valid item, the rejected ones exactly those named with no valid item, each once and both in the order in which the file first decides them; there are never more valid ids than different trusted keys |
| `Cosigners.CountsExactly` | verifier.py:618-632 | An id counts exactly if it is that of a trusted key and the list holds that key's own signature of this body, in its name and with the time that the item gives |
| `Cosigners.FailsExactly` | verifier.py:628-635 | It is rejected exactly if some item names it and it does not count |
| `Cosigners.ReleasedCosignatureCounts` | witness.py:165-167 | A released cosignature counts for whoever trusts the witness, and those of others count as before |
| `HashChains.Verify` | verifier.py:147-164 | Verified exactly if every entry links to the one before it, has the hash of its payload, and is signed over that hash; otherwise the index of the first entry for which this fails, and the first of the three that does |
| `HashChains.VerifyEach` | src/vcoc/hash_chain.py:99-125 | Every entry's own faults, each listed exactly if it is there, and a mark on all that follow a bad one |
| `HashChains.ChainOkExactly` | verifier.py:153-164 | A chain verifies exactly if the first entry links to 64 zeros, every other one to the hash of the one before it, every entry has the hash of its payload, and every signature checks over its entry's hash |
| `HashChains.ReportExactly` | verifier.py:179-200 | What that report is: the entry's index, good exactly if there is no reason, and each of wrong link, wrong hash, bad signature and a failure before it listed exactly if it applies, in this order |
| `HashChains.FaultsExactly` | verifier.py:181-189 | The faults of one entry: wrong link, wrong hash, bad signature, each exactly if it is there, in this order |
| `HashChains.ForgeryIsFound` | verifier.py:159-160 | In a good chain with one signature replaced by one that does not check, exactly that entry has a fault, and it is the bad signature |
| `HashChains.VerifyForged` | verifier.py:147-164 | And the check says so: that index, and that reason |
| `HashChains.GoodReports` | verifier.py:175-201 | An entry is reported good exactly if the chain up to it verifies |
| `HashChains.AppendKeepsChain` | src/vcoc/hash_chain.py:40-80 | Appending to a good chain gives a good chain |
| `HashChains.NextEvent` | src/vcoc/hash_chain.py:52-80 | The new entry has the actor, action, time and evidence argument it was given (with case number, tag and notes if it is on several items and without them if on one), the next index, the last hash, the hash of its payload, and a signature over that hash |
| `HashChains.AnchorChainProblem` | verifier.py:658-668 | A log is accepted exactly if it has as many entries as the anchor says and the last of that many has the anchored hash, 64 zeros for none; which of the two fails is told apart |
| `HashChains.AnchorPins` | verifier.py:658-668 | If two logs verify and the second is accepted under an anchor taken from the first at size n, the first n entry hashes and payloads are equal, for any mix of entries, unless at some place before n the two logs have different payloads with one hash |
| `HashChains.HeadPinsPrefix` | verifier.py:661 | One equal entry hash pins all entries before it, unless the two logs have different payloads with one hash at some place |
| `HashChains.AnchorAcceptsGrowth` | verifier.py:658-668 | A log that only grew since the anchor is accepted |
| `Events.PayloadPinsPrevHash` | src/vcoc/models.py:36-61 | Equal payloads have equal previous hashes, whichever form each has |
| `Events.BarFieldsAreNotPinned` | src/vcoc/models.py:37-47 | The form joined with bars does not determine its other fields |
| `BarPayloads.BarFieldsArePinnedExactly` | src/vcoc/models.py:37-47 | An entry in that form, with a hash as its previous hash, shares its payload with no entry of other fields exactly if none of its evidence id, actor, action and timestamp has a bar, which is if the payload has five bars |
| `Payloads.JsonPayloadPinsFields` | src/vcoc/models.py:48-61 | The JSON form of two entries is equal exactly if every field is, absent and empty optional fields and joined surrogate pairs apart |
| `PayloadTexts.JsonPayloadReadsBack` | verifier.py:99-112 | Read as JSON text, the payload of an entry on several items is an object with exactly nine keys, and under each the field of the entry that it names: surrogate pairs joined, an absent case number, tag or note empty |
| `PayloadTexts.KeysAreSorted` | src/vcoc/models.py:60 | Its keys come in the order of code points, each once |
| `PayloadTexts.ObjectReads` | src/vcoc/models.py:48-61 | What is written for any dictionary of strings, whole numbers and lists of strings reads back as its keys and values, in order |
| `PayloadTexts.BarPayloadReadsBack` | verifier.py:89-98 | Cut at every bar, the payload of an entry on one item gives six pieces if no field has a bar in it: the decimal index, evidence id, actor, action, time and previous hash |
| `PayloadTexts.BarPayloadIsJoined` | verifier.py:89-98 | In every case it is these six joined with `a bar` |
| `PayloadTexts.NumberReads` | src/vcoc/models.py:40 | The index is written as a decimal number, with a minus sign only if it is negative and without leading zeros |
| `Stores.StoredIsLoaded` | src/vcoc/db.py:130-164 | Writing an entry as a row and reading it back gives it back, surrogate pairs in its ids joined |
| `Stores.StoredKeepsPayload` | src/vcoc/db.py:130-164 | Which changes neither its hashed payload nor its row |
| `Stores.ColumnsAreFields` | src/vcoc/db.py:130-144 | Each column of the row holds the field it is named after; the ids are the JSON of the list, and the single id is null for an entry on several |
| `Stores.FieldsAreColumns` | src/vcoc/db.py:147-164 | Each field of what is loaded comes from the column of its name |
| `Stores.LoadsEachRow` | src/vcoc/db.py:176-177 | Loading fails exactly if some row does not load, and otherwise gives each row's entry at its place |
| `Stores.KeyIsTaken` | src/vcoc/db.py:167-173 | A row goes into the table exactly if no row has its key |
| `Stores.Database.InsertEvents` | src/vcoc/db.py:167-173 | All rows or, if a key is taken, none |
| `Stores.HashChain.LoadDb` | src/vcoc/hash_chain.py:138-144 | The chain holds the loaded entries and knows how many are stored |
| `Stores.HashChain.AddEvent` | src/vcoc/hash_chain.py:40-80 | One entry more, with what the caller gave; or a ValueError and no change when both or no evidence argument is given |
| `Stores.HashChain.SaveDb` | src/vcoc/hash_chain.py:146-150 | The entries not stored yet go into the table; a failed transaction changes neither table nor chain |
| `StoreRuns.StoreIsSafe` | src/vcoc/hash_chain.py:138-150 | After any interleaving of loads, appends and saves by any number of writers, the stored log is numbered 0..n-1 and verifies |
| `StoreRuns.StoreOnlyGrows` | src/vcoc/db.py:167-177 | Whatever follows only extends the stored table |
| `StoreRuns.SaveExtends` | src/vcoc/hash_chain.py:146-150 | A save goes through exactly if the writer is up to date or has nothing new |
| `StoreRuns.DetailsAreStored` | src/vcoc/hash_chain.py:40-150 | After any run, an entry appended and saved by an up-to-date writer is what whoever loads next finds last, with exactly the actor, action, time and other details given |
| `StoreRuns.StaleSaveChangesNothing` | src/vcoc/hash_chain.py:146-150 | A save by a writer that is behind fails and changes nothing |
| `JsonReaders.IterJsonStrings` | src/vcoc/db.py:237-294 | For every split of the UTF-8 bytes of any text into chunks, the strings yielded and whether it ends without an exception are those of reading the whole text, and it ends without one exactly if the text is some array of strings as it may be written, with anything after it; it always ends |
| `JsonReaders.ReadRendering` | src/vcoc/db.py:237-242 | Every list of strings, written in any way as an array, encoded and cut anywhere into chunks, comes back with surrogate pairs joined, so as the list itself exactly if no string holds such a pair in two pieces |
| `JsonAcceptance.AcceptsExactly` | src/vcoc/db.py:269-294 | A text is read to the end exactly if it is an array of strings written in some way, with anything after it |
| `JsonAcceptance.StringArraysExactly` | src/vcoc/db.py:240-242 | It is an array of strings and nothing else exactly if only spaces are left after the closing bracket |
| `JsonAcceptance.RefusesAnythingElse` | src/vcoc/db.py:240-242 | Anything else raises, as promised, exactly unless something other than spaces follows the closing bracket |
| `JsonAcceptance.TrailingTextIsAccepted` | src/vcoc/db.py:276-277 | Such as in `[]x`, which is read as an empty list |
| `JsonReaders.JsonReader.Refill` | src/vcoc/db.py:248-257 | One more chunk moves text from ahead into the buffer and loses none of it |
| `JsonReaders.JsonReader.SkipSpaces` | src/vcoc/db.py:259-267 | Stops at the first character that is not a space, however the chunks fall |
| `JsonReaders.JsonReader.ReadString` | src/vcoc/db.py:286-292 | A string is read as in the whole text, even if a chunk ends inside a character or an escape |
| `JsonReaders.JsonReader.NextItem` | src/vcoc/db.py:273-294 | One round yields the next string of the whole text, or ends as the whole text does |
| `JsonArrays.RoundTrip` | src/vcoc/db.py:237-242 | Every way of writing a list as a JSON array, with any spaces and escapes, reads back as exactly that list if and only if no string holds a surrogate pair in two pieces |
| `JsonArrays.ReadsBack` | src/vcoc/db.py:273-294 | In every case it reads back with such pairs joined |
| `JsonArrays.LoadsDumps` | src/vcoc/db.py:134-160 | `json.loads` after `json.dumps` gives the list, such pairs joined |
| `Json.ScanReads` | src/vcoc/db.py:286-292 | Every way of writing one string reads back, up to its closing quote |
| `Json.DumpPieceExactly` | src/vcoc/models.py:48-61 | How each character is written: quote and backslash after a backslash, visible ASCII and the space as they are, five controls by their letters, anything else as UTF-16 code units in four lower-case hexadecimal digits |
| `Json.ListsJoin` | src/vcoc/db.py:134-138 | A list is written as its strings with a comma and a space between two |
| `Json.ScanIgnoresRest` | src/vcoc/db.py:286-292 | A string that was read completely is read the same when more text follows |
| `Utf8.DecodeSome` | src/vcoc/db.py:244-257 | Decoding the first bytes of a text, cut anywhere, gives its first characters and keeps the bytes of the next one |
| `Evidence.MatchesIsFound` | src/vcoc/interactive/evidence_search.py:133-140 | For ASCII the SQL pattern with its escapes matches exactly the rows the in-memory search finds |
| `Evidence.MatchesExactly` | src/vcoc/interactive/evidence_search.py:133-140 | Those are the rows with the query somewhere in their id or filename, in any case, `%`, `_` and `!` being ordinary characters, and all rows for the empty query |
| `Evidence.ForwardFromRow` | src/vcoc/interactive/evidence_search.py:157-159 | A keyset page from a row on is a slice of the full sorted result |
| `Evidence.BackwardFromRow` | src/vcoc/interactive/evidence_search.py:161-163 | A keyset page up to a row is a slice of the full sorted result |
| `Evidence.NarrowIsMatching` | src/vcoc/interactive/evidence_search.py:165-182 | Narrowing the ids of a complete result gives the complete result of any longer query |
| `Pagers.ScrollIsMinimal` | src/vcoc/interactive/evidence_search.py:69-76 | The scroll keeps the selected row on screen, never runs past the end, and lies nearest to the last one |
| `Pagers.Pager.Reset` | src/vcoc/interactive/evidence_search.py:228-229 | Shows the first window of the full result |
| `Pagers.Pager.Home` | src/vcoc/interactive/evidence_search.py:231-232 | Shows what absolute selection shows after Home |
| `Pagers.Pager.End` | src/vcoc/interactive/evidence_search.py:234-237 | Shows what absolute selection shows after End |
| `Pagers.Pager.Down` | src/vcoc/interactive/evidence_search.py:239-253 | Shows what absolute selection shows one row down, nothing to do without rows; the flag is set when nothing is left to read |
| `Pagers.Pager.Up` | src/vcoc/interactive/evidence_search.py:255-269 | Shows what absolute selection shows one row up; the flag is set when nothing is left to read |
| `Pagers.Pager.PageDown` | src/vcoc/interactive/evidence_search.py:271-284 | Shows what absolute selection shows h rows down |
| `Pagers.Pager.PageUp` | src/vcoc/interactive/evidence_search.py:286-300 | Shows what absolute selection shows h rows up |
| `Pagers.Pager.PressAll` | src/vcoc/interactive/evidence_search.py:195-202 | After any sequence of moves at any height h >= 1 the window and the selected row are those of absolute selection with minimal scrolling, the window has min(h, n) rows, an exhausted flag is set only if no row lies beyond that side, and a result of fewer rows than fit, once known to be complete, stays so |
| `Searchers.NewestIsNeverLost` | src/vcoc/interactive/evidence_search.py:303-375 | In every interleaving, until closed, the newest request waits, runs, is finished or was taken, even after stray interrupts |
| `Searchers.HandsOutNewest` | src/vcoc/interactive/evidence_search.py:303-335 | What `take` hands out answers the newest request, with the first h rows of its full result or an error, in every run with no close over a waiting request |
| `Searchers.CloseOverWaitingIsStale` | src/vcoc/interactive/evidence_search.py:337-345 | Closed while a scan runs, the searcher then hands out an answer to the newest request exactly if no request was waiting behind that scan |
| `Searchers.StaleIsReached` | src/vcoc/interactive/evidence_search.py:321-375 | Two requests, a close and the end of the first scan lead there from the start |
| `Searchers.QuietIsAnswered` | src/vcoc/interactive/evidence_search.py:333-335 | When the worker is idle the newest request not taken yet has its answer there |
| `Searchers.WorkerDelivers` | src/vcoc/interactive/evidence_search.py:347-375 | Wherever the worker stands, two finished scans answer the newest request |
| `Searchers.Searcher.Request` | src/vcoc/interactive/evidence_search.py:321-326 | The request waits, in place of any other; what is done is dropped; a running scan goes on |
| `Searchers.Searcher.Take` | src/vcoc/interactive/evidence_search.py:328-331 | Hands out what is done and clears it, and nothing else |
| `Searchers.Searcher.Close` | src/vcoc/interactive/evidence_search.py:337-345 | Drops what waits and lets nothing start; a running scan and what is done stay |
| `Searchers.Searcher.Start` | src/vcoc/interactive/evidence_search.py:347-354 | The worker takes what waits if it is free and the searcher is open; otherwise nothing changes |
| `Searchers.Searcher.Aborted` | src/vcoc/interactive/evidence_search.py:359-366 | The aborted request waits again exactly if nothing newer does and the searcher is open |
| `Searchers.Searcher.Finish` | src/vcoc/interactive/evidence_search.py:367-375 | The first h rows of its query, or its error and no rows, are done exactly if nothing newer waits |
| `SearchStates.SearchState.Ensure` | src/vcoc/interactive/evidence_search.py:433-457 | Busy afterwards exactly if a worker is needed and has no answer for the typed text; if not busy and without an error the window just applied is the first h rows of the full scan, or nothing changed; only a busy screen makes a request |
| `SearchStates.SearchState.ApplyNarrowed` | src/vcoc/interactive/evidence_search.py:447-450 | Narrowing shows what the scan would show, without one |
| `SearchStates.SearchState.ScanNow` | src/vcoc/interactive/evidence_search.py:451-454 | Without a worker, or for the empty query, the scan is shown at once |
| `SearchStates.SearchState.TakeAnswer` | src/vcoc/interactive/evidence_search.py:437-444 | An answer for what is typed is shown with its error, any other is dropped |
| `SearchStates.SearchState.Settle` | src/vcoc/interactive/evidence_search.py:459-463 | If the worker becomes idle while it is waited for, the screen shows the answer for what is typed exactly if it was not stuck |
| `SearchStates.TypedAgain` | src/vcoc/interactive/evidence_search.py:455-463 | On every table larger than the screen and for every text: typed, deleted before its scan ends, and typed again, the screen is stuck |
| `SearchStates.SearchState.Press` | src/vcoc/interactive/evidence_search.py:534-547 | Settles, then moves; a screen that stays busy moves in the rows it still shows |
| `SearchStates.SearchState.Run` | src/vcoc/interactive/evidence_search.py:378-387 | Over any typing, moves, refreshes, redraws and worker steps: when not busy and without an error the window is that of absolute selection over the full result of the typed text |
| `Pools.Units.Next` | src/vcoc/hashing.py:98-116 | The next unit stands for the next entries: a big file alone, or files up to the first that fills a batch, the next big file or the end; nothing is pulled that is not noted |
| `Pools.UnitsAreDetermined` | src/vcoc/hashing.py:98-116 | That leaves no choice: the cuts follow from the entries |
| `Pools.BatchIsBounded` | src/vcoc/hashing.py:64-66 | A batch has 1 to 500 files and less than 64 MiB plus one big file's limit, and it ends early only at 64 MiB, before a file of 256 MiB or more, or with the entries |
| `PoolRuns.Workers.HashBatch` | verifier.py:353-360 | One answer for each file, an error in its place |
| `PoolRuns.Stream.Fill` | src/vcoc/hashing.py:128-129 | The window is filled to 2 * jobs units or to the end of the entries |
| `PoolRuns.Stream.Next` | src/vcoc/hashing.py:126-136 | The k-th result is the k-th entry's own, or the mark of a big file, whatever order the batches finish in |
| `PoolRuns.HashFiles` | src/vcoc/hashing.py:119-138 | Read to its end: exactly the sequential results, in input order, for any number of workers and any order of finishing |
| `Pools.OutcomesExactly` | src/vcoc/hashing.py:98-138 | The sequential result of a file is that of its own path against its own hash on record, and a mark for one of 256 MiB or more |
| `PoolRuns.LookAheadIsBounded` | verifier.py:390-397 | At most 2 * jobs units are in flight, and the entries pulled ahead are bounded |
| `PoolRuns.Rehashed` | src/vcoc/interactive/verification_screen.py:328-359 | Any pool yields what the serial loop yields: each row with its position and its own status, up to the first unreadable file, whose error is raised |
| `PoolRuns.RehashedInPool` | src/vcoc/interactive/verification_screen.py:338-359 | The queue of pulled rows pairs the k-th result with the k-th row |
| `PoolRuns.VerifyRecords` | verifier.py:435-447 | Also when only the records with a path are handed to the pool |
| `PoolRuns.VerifyEvidence` | verifier.py:403-432 | With or without a pool, the same statuses and the same first error |
| `EvidenceReads.EvidenceRows` | src/vcoc/interactive/verification_screen.py:299-320 | The keyset pages are the whole table in id order |
| `EvidenceReads.Keys` | src/vcoc/interactive/verification_screen.py:395-398 | The ids kept while the rows stream by are those at the start of each block, one for each block |
| `EvidenceReads.Blocks.Fetch` | src/vcoc/interactive/verification_screen.py:223-240 | A row fetched through the block cache is the table's own, whatever was fetched before; a block not kept is read and kept, and of eight the one read first goes |
| `EvidenceReads.MemberLeaves` | src/vcoc/db.py:309-334 | The merge with one ordered scan gives what looking up each member gives, in stored order, and a KeyError at the first member without a row |

## Left out

- ECDSA, PEM files, SHA-256 itself, and the legacy SHA-1 signature scheme, which adds one more way to verify.
- VerifyConsistency: hex text of other lengths than 64 digits, in the proof or as a root. The source does not check
  lengths and joins two texts before hashing, so elements of 33 and 31 bytes can stand for the proper two of 32;
  soundness is proved under the assumption that all have one width. Roots that are no hex text are not modelled either.
- VerifyProof: steps are digests and flags; a step that is not hex raises in the source.
- CheckpointProblem: bodies are records; the canonical JSON that is signed is not spelled out, so two bodies are signed
  alike only if they are equal.
- Cosign: one process at a time; two witness processes on one state file are not modelled, and a state file that is
  deleted starts trust afresh, as in the source.
- LoadState: what makes a state file usable (its JSON, its version, its table of logs) is one case of a file.
- SaveState: a temporary file that cannot be removed after a failure.
- MakeProof: an unknown evidence id, which ends the command, and group rows without a leaf are not modelled.
- FolderProofAccepted: the stored folder root is taken to be that of the stored members.
- The evidence root of a checkpoint is carried and never compared, as in the source.
- Verify: texts are hashed as code points; a lone surrogate in a payload, which cannot be encoded, raises in the
  source.
- StoreIsSafe: SQLite's transactions are one step each; storage errors other than a taken key are not modelled.
- `to_dict` and `from_dict` of the exported files: one more way of writing the same fields.
- IterJsonStrings: bytes that are not UTF-8 end it with an exception at a point that is not stated.
- MatchesIsFound: ASCII queries and texts; the Unicode `lower()` of other queries is not modelled.
- PressAll: one height for the whole run; a resized terminal has no simple form to compare with.
- Run: the table does not change, and the timers that decide when to say "searching" are left out.
- Settle: the sixty-second limit on waiting is the case in which the worker is not idle.
- The screen's `take` after `close`: no caller does it.
- HashFiles: read to its end; stopping early and shutting the pool down are not modelled. The same holds for
  `Rehashed`, whose progress hook may also cancel.
- Fetch: the cache of rows, without the text built from them; the filtered views and their counts would add filters
  over a list of flags.
- `_BackgroundLoad`, themes, forms, menus, loading screens and the command line.
- SQL text, blob reads, locks, directory walking and file reading.
- `migrate_merkle`, `status.py`, `config.py`, `visualize.py`, `storage.py`, `scripts/` and the bookkeeping of folder
  ingest: comparisons and formatting.
