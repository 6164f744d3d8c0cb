/** Counting the witnesses who cosigned a checkpoint. */
module Cosigners {
  import opened Wrappers
  import opened Checkpoints
  import opened Consistency
  import opened Witnesses

  /** A list item that is a valid cosignature of this body by the trusted witness `id`. */
  predicate ValidItem(item: CosignatureItem, body: Body, id: KeyId, trusted: seq<Key>) {
    && item.Cosignature? && item.witnessId == Some(id) && item.witnessedAt.Some? && item.signature.Some?
    && id.IdOf? && id.key in trusted
    && Verifies(id.key, CosignatureMessage(body, id, item.witnessedAt.value), item.signature.value)
  }

  predicate Names(item: CosignatureItem, id: KeyId) {
    item.Cosignature? && item.witnessId == Some(id)
  }

  /** Some item is a valid cosignature by `id`. */
  predicate Counts(items: seq<CosignatureItem>, body: Body, id: KeyId, trusted: seq<Key>) {
    exists i :: 0 <= i < |items| && ValidItem(items[i], body, id, trusted)
  }

  /** Some item names `id` and is not a valid cosignature by it. */
  predicate Fails(items: seq<CosignatureItem>, body: Body, id: KeyId, trusted: seq<Key>) {
    exists i :: 0 <= i < |items| && Names(items[i], id) && !ValidItem(items[i], body, id, trusted)
  }

  ghost predicate NoDuplicates<T>(s: seq<T>) {
    forall i, j :: 0 <= i < j < |s| ==> s[i] != s[j]
  }

  function Distinct(trusted: seq<Key>): set<Key> {
    set key | key in trusted
  }

  lemma TrustedOnly(items: seq<CosignatureItem>, body: Body, ids: seq<KeyId>, trusted: seq<Key>)
    requires forall id :: id in ids ==> Counts(items, body, id, trusted)
    ensures forall id :: id in ids ==> id.IdOf? && id.key in Distinct(trusted)
  {
    forall id | id in ids ensures id.IdOf? && id.key in Distinct(trusted) {
      assert Counts(items, body, id, trusted);
    }
  }

  function Items(c: Checkpoint): seq<CosignatureItem> {
    if c.body.Some? && c.cosignatures.Some? then c.cosignatures.value else []
  }

  /** Going through the list, `a` counts at a point at which `b` does not yet. */
  ghost predicate CountsBefore(items: seq<CosignatureItem>, body: Body, a: KeyId, b: KeyId, trusted: seq<Key>) {
    exists k :: 0 <= k <= |items| && Counts(items[..k], body, a, trusted) && !Counts(items[..k], body, b, trusted)
  }

  /** And `a` has failed at a point at which `b` has not yet. */
  ghost predicate FailsBefore(items: seq<CosignatureItem>, body: Body, a: KeyId, b: KeyId, trusted: seq<Key>) {
    exists k :: 0 <= k <= |items| && Fails(items[..k], body, a, trusted) && !Fails(items[..k], body, b, trusted)
  }

  /** `cosigning_witnesses`: however often the file repeats cosignatures, no more are counted than there are trusted
      keys. */
  method CosigningWitnesses(c: Checkpoint, trusted: seq<Key>) returns (valid: seq<KeyId>, rejected: seq<KeyId>)
    ensures NoDuplicates(valid) && NoDuplicates(rejected) && |valid| <= |Distinct(trusted)|
    ensures c.body.None? ==> valid == rejected == []
    ensures c.body.Some? ==> forall id :: id in valid <==> Counts(Items(c), c.body.value, id, trusted)
    ensures c.body.Some? ==> forall id :: id in rejected <==>
              Fails(Items(c), c.body.value, id, trusted) && !Counts(Items(c), c.body.value, id, trusted)
    ensures forall i, j :: 0 <= i < j < |valid| ==> CountsBefore(Items(c), c.body.value, valid[i], valid[j], trusted)
    ensures forall i, j :: 0 <= i < j < |rejected| ==>
              FailsBefore(Items(c), c.body.value, rejected[i], rejected[j], trusted)
  {
    hide Counts, Fails, CountsBefore, FailsBefore;
    NothingCounts(Items(c), c.body, trusted);
    valid, rejected := [], [];
    if c.body.None? || c.cosignatures.None? {
      assert Items(c)[..0] == Items(c);
      return;
    }
    var body, items := c.body.value, c.cosignatures.value;
    var refused := [];
    for n := 0 to |items|
      invariant NoDuplicates(valid) && NoDuplicates(refused)
      invariant forall id :: id in valid <==> Counts(items[..n], body, id, trusted)
      invariant forall id :: id in refused ==> Fails(items[..n], body, id, trusted)
      invariant forall id :: Fails(items[..n], body, id, trusted) ==> id in refused
      invariant forall i, j :: 0 <= i < j < |valid| ==> CountsBefore(items, body, valid[i], valid[j], trusted)
      invariant forall i, j :: 0 <= i < j < |refused| ==> FailsBefore(items, body, refused[i], refused[j], trusted)
    {
      var item := items[n];
      assert items[..n + 1] == items[..n] + [item];
      CountsOneMore(items[..n], item, body, trusted);
      OrderAt(items, n, body, trusted);
      if item.Cosignature? && item.witnessId.Some? {
        var id := item.witnessId.value;
        var ok := false;
        if id.IdOf? && id.key in trusted && item.signature.Some? && item.witnessedAt.Some? {
          ok := Verifies(id.key, CosignatureMessage(body, id, item.witnessedAt.value), item.signature.value);
        }
        assert ok == ValidItem(item, body, id, trusted);
        if ok && id !in valid {
          valid := valid + [id];
        } else if !ok && id !in refused {
          refused := refused + [id];
        }
      }
    }
    assert items[..|items|] == items;
    TrustedOnly(items, body, valid, trusted);
    QuorumIsBounded(valid, Distinct(trusted));
    rejected := Without(refused, valid);
    forall i, j | 0 <= i < j < |rejected| ensures FailsBefore(items, body, rejected[i], rejected[j], trusted) {
      assert Precedes(refused, |refused|, rejected[i], rejected[j]);
    }
  }

  lemma OrderAt(items: seq<CosignatureItem>, n: nat, body: Body, trusted: seq<Key>)
    requires n <= |items|
    ensures forall a, b :: Counts(items[..n], body, a, trusted) && !Counts(items[..n], body, b, trusted) ==>
              CountsBefore(items, body, a, b, trusted)
    ensures forall a, b :: Fails(items[..n], body, a, trusted) && !Fails(items[..n], body, b, trusted) ==>
              FailsBefore(items, body, a, b, trusted)
  {
    hide Counts, Fails;
  }

  lemma NothingCounts(items: seq<CosignatureItem>, body: Option<Body>, trusted: seq<Key>)
    ensures body.Some? ==> forall id :: !Counts(items[..0], body.value, id, trusted)
    ensures body.Some? ==> forall id :: !Fails(items[..0], body.value, id, trusted)
  {
  }

  lemma CountsOneMore(items: seq<CosignatureItem>, item: CosignatureItem, body: Body, trusted: seq<Key>)
    ensures forall id :: Counts(items + [item], body, id, trusted) <==>
              Counts(items, body, id, trusted) || ValidItem(item, body, id, trusted)
    ensures forall id :: Fails(items + [item], body, id, trusted) <==>
              Fails(items, body, id, trusted) || (Names(item, id) && !ValidItem(item, body, id, trusted))
  {
    var longer := items + [item];
    assert longer[|items|] == item;
    forall id
      ensures Counts(longer, body, id, trusted) <==>
              Counts(items, body, id, trusted) || ValidItem(item, body, id, trusted)
      ensures Fails(longer, body, id, trusted) <==>
              Fails(items, body, id, trusted) || (Names(item, id) && !ValidItem(item, body, id, trusted))
    {
      if Counts(items, body, id, trusted) {
        var i :| 0 <= i < |items| && ValidItem(items[i], body, id, trusted);
        assert longer[i] == items[i];
      }
      if Fails(items, body, id, trusted) {
        var i :| 0 <= i < |items| && Names(items[i], id) && !ValidItem(items[i], body, id, trusted);
        assert longer[i] == items[i];
      }
    }
  }

  /** `a` stands before `b` among the first `n` ids. */
  ghost predicate Precedes(ids: seq<KeyId>, n: nat, a: KeyId, b: KeyId) {
    exists p, q :: 0 <= p < q < n <= |ids| && ids[p] == a && ids[q] == b
  }

  /** The last line of `cosigning_witnesses`: what is refused and was not counted after all. */
  method Without(ids: seq<KeyId>, drop: seq<KeyId>) returns (kept: seq<KeyId>)
    requires NoDuplicates(ids)
    ensures NoDuplicates(kept) && forall id :: id in kept <==> id in ids && id !in drop
    ensures forall i, j :: 0 <= i < j < |kept| ==> Precedes(ids, |ids|, kept[i], kept[j])
  {
    kept := [];
    for n := 0 to |ids|
      invariant NoDuplicates(kept)
      invariant forall id :: id in kept <==> id in ids[..n] && id !in drop
      invariant forall i, j :: 0 <= i < j < |kept| ==> Precedes(ids, n, kept[i], kept[j])
    {
      assert ids[..n + 1] == ids[..n] + [ids[n]];
      PrecedesMore(ids, n);
      if ids[n] !in drop {
        ghost var before := kept;
        assert forall i :: 0 <= i < |before| ==> before[i] in ids[..n];
        kept := kept + [ids[n]];
        assert forall i :: 0 <= i < |before| ==> kept[i] == before[i];
      }
    }
    assert ids[..|ids|] == ids;
  }

  lemma PrecedesMore(ids: seq<KeyId>, n: nat)
    requires n < |ids|
    ensures forall a, b :: Precedes(ids, n, a, b) ==> Precedes(ids, n + 1, a, b)
    ensures forall a :: a in ids[..n] ==> Precedes(ids, n + 1, a, ids[n])
  {
    forall a | a in ids[..n] ensures Precedes(ids, n + 1, a, ids[n]) {
      var p :| 0 <= p < n && ids[..n][p] == a;
      assert ids[p] == a && ids[n] == ids[n];
    }
  }

  /** A quorum cannot be padded: the counted ids are at most the trusted keys, whatever the file repeats. */
  lemma {:induction false} QuorumIsBounded(ids: seq<KeyId>, trusted: set<Key>)
    requires NoDuplicates(ids) && forall id :: id in ids ==> id.IdOf? && id.key in trusted
    ensures |ids| <= |trusted|
    decreases |ids|
  {
    if ids != [] {
      var rest, last := ids[..|ids| - 1], ids[|ids| - 1];
      assert last in ids;
      forall id | id in rest ensures id.IdOf? && id.key in trusted - {last.key} {
        var i :| 0 <= i < |rest| && rest[i] == id;
        assert ids[i] == id != ids[|ids| - 1];
      }
      QuorumIsBounded(rest, trusted - {last.key});
    }
  }

  /** A cosignature that a witness released counts for every verifier that trusts the witness, and the ones
      that already counted still do. */
  lemma ReleasedCosignatureCounts(key: Key, file: StateFile, r: Request, trusted: seq<Key>, other: KeyId)
    requires Step(key, file, r).1.Released?
    ensures var c, cosigned := r.checkpoint.value, Step(key, file, r).1.cosigned;
      && c.body.Some? && cosigned.body == c.body
      && (key in trusted ==> Counts(Items(cosigned), c.body.value, IdOf(key), trusted))
      && (other != IdOf(key) ==>
            (Counts(Items(cosigned), c.body.value, other, trusted) <==> Counts(Items(c), c.body.value, other, trusted)))
  {
    hide Decide, OthersOf;
    var c, cosigned := r.checkpoint.value, Step(key, file, r).1.cosigned;
    ReleasedHasBody(key, file, r);
    var body, own := c.body.value, MakeCosignature(key, c.body.value, r.now);
    var earlier := if c.cosignatures.Some? then c.cosignatures.value else [];
    if other != IdOf(key) {
      OthersKeep(earlier, body, IdOf(key), other, trusted);
    }
    CountsOneMore(OthersOf(earlier, IdOf(key)), own, body, trusted);
  }

  lemma ReleasedHasBody(key: Key, file: StateFile, r: Request)
    requires Step(key, file, r).1.Released?
    ensures r.checkpoint.Some? && r.checkpoint.value.body.Some?
    ensures Step(key, file, r).1.cosigned == Cosigned(r.checkpoint.value, key, r.now)
  {
    hide Accepts, OthersOf;
  }

  lemma {:induction false} OthersKeep(items: seq<CosignatureItem>, body: Body, own: KeyId, other: KeyId,
                                      trusted: seq<Key>)
    requires other != own
    ensures Counts(OthersOf(items, own), body, other, trusted) <==> Counts(items, body, other, trusted)
  {
    if items != [] {
      OthersKeep(items[1..], body, own, other, trusted);
      CountsFirst(items, body, other, trusted);
      CountsFirst([items[0]] + OthersOf(items[1..], own), body, other, trusted);
    }
  }

  lemma CountsFirst(items: seq<CosignatureItem>, body: Body, id: KeyId, trusted: seq<Key>)
    requires items != []
    ensures Counts(items, body, id, trusted) <==>
            ValidItem(items[0], body, id, trusted) || Counts(items[1..], body, id, trusted)
  {
    if Counts(items, body, id, trusted) {
      var i :| 0 <= i < |items| && ValidItem(items[i], body, id, trusted);
      if i > 0 { assert items[1..][i - 1] == items[i]; }
    }
    if Counts(items[1..], body, id, trusted) {
      var i :| 0 <= i < |items[1..]| && ValidItem(items[1..][i], body, id, trusted);
      assert items[i + 1] == items[1..][i];
    }
  }

  /** What counts, said without the check: a trusted key's own signature of this body, in its own name, at the time that
      the item gives. */
  lemma CountsExactly(c: Checkpoint, id: KeyId, trusted: seq<Key>)
    requires c.body.Some? && c.cosignatures.Some?
    ensures Counts(Items(c), c.body.value, id, trusted) <==>
      exists key, at ::
        && key in trusted && id == IdOf(key)
        && Cosignature(Some(IdOf(key)), Some(at), Some(Signed(key, CosignatureMessage(c.body.value, IdOf(key), at))))
           in c.cosignatures.value
  {
    var items := c.cosignatures.value;
    if Counts(Items(c), c.body.value, id, trusted) {
      var i :| 0 <= i < |items| && ValidItem(items[i], c.body.value, id, trusted);
      var key, at := id.key, items[i].witnessedAt.value;
      assert items[i] in items;
      assert items[i] ==
        Cosignature(Some(IdOf(key)), Some(at), Some(Signed(key, CosignatureMessage(c.body.value, IdOf(key), at))));
    }
    forall key, at |
      && key in trusted && id == IdOf(key)
      && Cosignature(Some(IdOf(key)), Some(at), Some(Signed(key, CosignatureMessage(c.body.value, IdOf(key), at))))
         in items
      ensures Counts(Items(c), c.body.value, id, trusted)
    {
      var item :=
        Cosignature(Some(IdOf(key)), Some(at), Some(Signed(key, CosignatureMessage(c.body.value, IdOf(key), at))));
      var i :| 0 <= i < |items| && items[i] == item;
      assert ValidItem(Items(c)[i], c.body.value, id, trusted);
    }
  }

  /** What is rejected: an id that some item names, and that does not count. */
  lemma FailsExactly(c: Checkpoint, id: KeyId, trusted: seq<Key>)
    requires c.body.Some? && c.cosignatures.Some?
    ensures Fails(Items(c), c.body.value, id, trusted) && !Counts(Items(c), c.body.value, id, trusted) <==>
      && !Counts(Items(c), c.body.value, id, trusted)
      && exists item :: item in c.cosignatures.value && item.Cosignature? && item.witnessId == Some(id)
  {
    var items := c.cosignatures.value;
    if !Counts(Items(c), c.body.value, id, trusted) {
      forall item | item in items && item.Cosignature? && item.witnessId == Some(id)
        ensures Fails(Items(c), c.body.value, id, trusted)
      {
        var i :| 0 <= i < |items| && items[i] == item;
        assert Names(Items(c)[i], id);
      }
    }
  }
}
