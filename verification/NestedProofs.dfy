/** Two-hop proofs: an evidence file inside a folder, and the folder's root as a leaf of the top tree. */
module NestedProofs {
  import opened Wrappers
  import opened Texts
  import opened Merkle
  import opened Inclusion
  import opened MerkleTrees
  import opened ProofStreams

  datatype NestedProof =
    NestedProof(localProof: seq<ProofStep>, subtreeRoot: Digest, folderProof: seq<ProofStep>)

  predicate NestedAccepts(leaf: Digest, proof: NestedProof, root: Digest) {
    && Fold(LeafHash(leaf), proof.localProof) == proof.subtreeRoot
    && if proof.folderProof == [] then proof.subtreeRoot == root
       else Fold(LeafHash(proof.subtreeRoot), proof.folderProof) == root
  }

  /** `verify_nested_proof` */
  method VerifyNestedProof(leaf: Digest, proof: NestedProof, root: Digest) returns (accepted: bool)
    ensures accepted == NestedAccepts(leaf, proof, root)
  {
    var localOk := VerifyProof(leaf, proof.localProof, proof.subtreeRoot);
    if !localOk {
      return false;
    }
    if proof.folderProof == [] {
      return proof.subtreeRoot == root;
    }
    accepted := VerifyProof(proof.subtreeRoot, proof.folderProof, root);
  }

  /** The tables a proof is made from: the top-level groups in id order, and the members of each folder. */
  datatype CaseTables = CaseTables(groups: seq<Item>, folders: map<Text, seq<Item>>) {
    /** Group ids are distinct, and the leaf of a registered folder is the root over its members. */
    ghost predicate Valid() {
      && (forall i, j :: 0 <= i < j < |groups| ==> groups[i].key != groups[j].key)
      && (forall f :: f in folders ==>
            folders[f] != [] && exists i :: 0 <= i < |groups| && groups[i] == Item(f, Mth(Leaves(folders[f]))))
    }
  }

  datatype ProofFile = ProofFile(leaf: Digest, root: Digest, proof: NestedProof)

  /** `cmd_merkle_proof` for a known evidence record: in a folder, or standing alone with its own hash. */
  method MakeProof(tables: CaseTables, evidenceId: Text, folder: Option<Text>, sha256: Digest)
    returns (r: Result<ProofFile>)
    ensures folder.Some? && folder.value !in tables.folders ==> r == Err(KeyError)
    ensures folder.Some? && folder.value in tables.folders ==>
              r == FolderProof(ByTree(tables.folders[folder.value], evidenceId), ByTree(tables.groups, folder.value))
    ensures folder.None? ==> r == FileProof(sha256, ByTree(tables.groups, evidenceId))
    ensures r.Ok? && folder.Some? ==>
              var p := r.value;
              var members := tables.folders[folder.value];
              && FirstWithKey(members, evidenceId).Some? && FirstWithKey(tables.groups, folder.value).Some?
              && p.leaf == members[FirstWithKey(members, evidenceId).value].leaf
              && p.root == Mth(Leaves(tables.groups)) && p.proof.subtreeRoot == Mth(Leaves(members))
              && p.proof.localProof == Path(HashLeaves(Leaves(members)), FirstWithKey(members, evidenceId).value)
              && p.proof.folderProof ==
                 Path(HashLeaves(Leaves(tables.groups)), FirstWithKey(tables.groups, folder.value).value)
    ensures r.Ok? && folder.None? ==>
              var p := r.value;
              && FirstWithKey(tables.groups, evidenceId).Some?
              && p.leaf == sha256 && p.root == p.proof.subtreeRoot == Mth(Leaves(tables.groups))
              && p.proof.localProof ==
                 Path(HashLeaves(Leaves(tables.groups)), FirstWithKey(tables.groups, evidenceId).value)
              && p.proof.folderProof == []
  {
    hide Path, Mth, HashLeaves, FirstWithKey;
    if folder.Some? {
      if folder.value !in tables.folders {
        return Err(KeyError);
      }
      var local := MerkleProofStream(tables.folders[folder.value], evidenceId);
      if local.Err? {
        return Err(local.error);
      }
      var top := MerkleProofStream(tables.groups, folder.value);
      if top.Err? {
        return Err(top.error);
      }
      return Ok(ProofFile(local.value.leaf, top.value.root,
                          NestedProof(local.value.proof, local.value.root, top.value.proof)));
    }
    var top := MerkleProofStream(tables.groups, evidenceId);
    if top.Err? {
      return Err(top.error);
    }
    return Ok(ProofFile(sha256, top.value.root, NestedProof(top.value.proof, top.value.root, [])));
  }

  function FolderProof(local: Result<StreamedProof>, top: Result<StreamedProof>): Result<ProofFile> {
    if local.Err? then Err(local.error)
    else if top.Err? then Err(top.error)
    else Ok(ProofFile(local.value.leaf, top.value.root,
                      NestedProof(local.value.proof, local.value.root, top.value.proof)))
  }

  function FileProof(sha256: Digest, top: Result<StreamedProof>): Result<ProofFile> {
    if top.Err? then Err(top.error)
    else Ok(ProofFile(sha256, top.value.root, NestedProof(top.value.proof, top.value.root, [])))
  }

  /** Acceptance in two hops: the subtree root is a top-level leaf, and the evidence leaf is in every list
      of leaves that has that root. */
  lemma NestedSound(leaf: Digest, proof: NestedProof, top: seq<Digest>)
    requires top != [] && NestedAccepts(leaf, proof, Mth(top))
    ensures proof.folderProof != [] ==> proof.subtreeRoot in top
    ensures proof.folderProof != [] ==>
              forall members :: members != [] && Mth(members) == proof.subtreeRoot ==> leaf in members
    ensures proof.folderProof == [] ==> leaf in top
  {
    if proof.folderProof == [] {
      var i := AcceptedPathIsGenuine(leaf, proof.localProof, top);
    } else {
      var i := AcceptedPathIsGenuine(proof.subtreeRoot, proof.folderProof, top);
      forall members | members != [] && Mth(members) == proof.subtreeRoot ensures leaf in members {
        var j := AcceptedPathIsGenuine(leaf, proof.localProof, members);
      }
    }
  }

  /** A path is empty only in a tree of one leaf. */
  lemma {:induction false} PathIsEmpty(nodes: seq<Digest>, i: nat)
    requires i < |nodes|
    ensures Path(nodes, i) == [] <==> |nodes| == 1
    decreases |nodes|
  {
    if |nodes| > 2 { PathIsEmpty(Next(nodes), i / 2); }
  }

  lemma StreamedProofLeadsToRoot(items: seq<Item>, key: Text)
    requires ByTree(items, key).Ok?
    ensures var p := ByTree(items, key).value; Fold(LeafHash(p.leaf), p.proof) == p.root
  {
    hide Path, Fold, Mth, Root;
    var leaves, index := Leaves(items), FirstWithKey(items, key).value;
    PathLeadsToRoot(HashLeaves(leaves), index);
    MthIsRoot(leaves);
  }

  /** The proof of a file that stands alone is accepted, whatever the number of groups. */
  lemma FileProofAccepted(tables: CaseTables, evidenceId: Text, sha256: Digest)
    requires tables.Valid() && Item(evidenceId, sha256) in tables.groups
    ensures var r := FileProof(sha256, ByTree(tables.groups, evidenceId));
      r.Ok? && NestedAccepts(r.value.leaf, r.value.proof, r.value.root)
  {
    hide Path, Fold, Mth, Root;
    var i :| 0 <= i < |tables.groups| && tables.groups[i] == Item(evidenceId, sha256);
    KeyFoundAt(tables, i);
    StreamedProofLeadsToRoot(tables.groups, evidenceId);
  }

  lemma KeyFoundAt(tables: CaseTables, i: nat)
    requires tables.Valid() && i < |tables.groups|
    ensures FirstWithKey(tables.groups, tables.groups[i].key) == Some(i)
  {
    var found := FirstWithKey(tables.groups, tables.groups[i].key);
    assert found.Some?;
  }

  /** The proof of a file in a folder is accepted exactly when there are at least two top-level groups:
      with a single group the second hop is empty, and the check compares a root with its own leaf hash. */
  lemma {:induction false} FolderProofAccepted(tables: CaseTables, evidenceId: Text, folder: Text)
    requires tables.Valid() && folder in tables.folders
    requires exists i :: 0 <= i < |tables.folders[folder]| && tables.folders[folder][i].key == evidenceId
    ensures var r := FolderProof(ByTree(tables.folders[folder], evidenceId), ByTree(tables.groups, folder));
      r.Ok? && (NestedAccepts(r.value.leaf, r.value.proof, r.value.root) <==> |tables.groups| >= 2)
  {
    hide Path, Fold, Mth, Root;
    var members := tables.folders[folder];
    var i :| 0 <= i < |tables.groups| && tables.groups[i] == Item(folder, Mth(Leaves(members)));
    KeyFoundAt(tables, i);
    var found := FirstWithKey(members, evidenceId);
    StreamedProofLeadsToRoot(members, evidenceId);
    StreamedProofLeadsToRoot(tables.groups, folder);
    var nodes := HashLeaves(Leaves(tables.groups));
    PathIsEmpty(nodes, i);
    if |tables.groups| == 1 {
      RootOfSingleGroup(tables.groups[0]);
      assert tables.groups == [tables.groups[0]];
    }
  }

  /** Tables with one folder of any members and nothing else. */
  function OneFolder(folder: Text, members: seq<Item>): CaseTables
    requires members != []
  {
    CaseTables([Item(folder, Mth(Leaves(members)))], map[folder := members])
  }

  /** Such tables are consistent, so the refusal does occur: for every folder, all members and each of them. */
  lemma {:induction false} OneFolderIsRefused(folder: Text, members: seq<Item>, i: nat)
    requires i < |members|
    ensures OneFolder(folder, members).Valid()
    ensures var tables := OneFolder(folder, members);
      var r := FolderProof(ByTree(members, members[i].key), ByTree(tables.groups, folder));
      r.Ok? && !NestedAccepts(r.value.leaf, r.value.proof, r.value.root)
  {
    hide Mth, ByTree, FolderProof, NestedAccepts;
    var tables := OneFolder(folder, members);
    assert tables.groups[0] == Item(folder, Mth(Leaves(tables.folders[folder])));
    FolderProofAccepted(tables, members[i].key, folder);
  }

  lemma RootOfSingleGroup(group: Item)
    ensures Mth(Leaves([group])) == LeafHash(group.leaf) != group.leaf
  {
    NoDigestHashesToItself(group.leaf);
  }

  lemma {:induction false} NoDigestHashesToItself(d: Digest)
    ensures LeafHash(d) != d
  {
    match d
    case LeafHash(inner) => NoDigestHashesToItself(inner);
    case Raw(_) =>
    case NodeHash(_, _) =>
  }
}
