/** The custody chain: appending, checking, and what an anchor pins. */
module HashChains {
  import opened Wrappers
  import opened Texts
  import opened Events

  /** The functions the chain is built with: SHA-256 as hexadecimal text, and signing and verifying under one key. */
  datatype Crypto = Crypto(hash: Text -> Text, sign: Text -> Text, verifies: (Text, Text) -> bool)

  function HashOf(c: Crypto, t: Text): Text {
    c.hash(t)
  }

  function SignOf(c: Crypto, t: Text): Text {
    c.sign(t)
  }

  predicate Checks(c: Crypto, t: Text, signature: Text) {
    c.verifies(t, signature)
  }

  /** Hashes are 64 hexadecimal digits, and what the key signs verifies. Nothing else is asked of them. */
  ghost predicate Sane(c: Crypto) {
    && (forall t :: IsHash(c.hash(t)))
    && (forall t :: c.verifies(t, c.sign(t)))
  }

  /** What the first entry links to: 64 zeros. */
  const GENESIS: Text := Zeros(64)

  function Zeros(n: nat): (t: Text)
    ensures |t| == n && forall i :: 0 <= i < n ==> t[i] == 48
  {
    if n == 0 then [] else [48] + Zeros(n - 1)
  }

  /** `last_hash` */
  function LastHash(entries: seq<Event>): Text {
    if entries == [] then GENESIS else entries[|entries| - 1].entryHash
  }

  datatype Reason = PrevHashDiffers | EntryHashDiffers | BadEntrySignature | UpstreamFailed

  /** What is wrong with an entry by itself and against the entry before it. */
  function LocalReasons(c: Crypto, prev: Text, e: Event): seq<Reason> {
    (if e.prevHash != prev then [PrevHashDiffers] else []) +
    (if HashOf(c, Payload(e)) != e.entryHash then [EntryHashDiffers] else []) +
    (if !Checks(c, e.entryHash, e.signature) then [BadEntrySignature] else [])
  }

  /** The chain verifies: every entry is linked, hashed and signed. */
  ghost predicate ChainOk(c: Crypto, entries: seq<Event>) {
    forall i :: 0 <= i < |entries| ==> EntryOk(c, entries, i)
  }

  /** An entry is linked to the one before it, hashed and signed. */
  ghost predicate EntryOk(c: Crypto, entries: seq<Event>, i: nat)
    requires i < |entries|
  {
    LocalReasons(c, LastHash(entries[..i]), entries[i]) == []
  }

  /** The outcome of `verify`: for a failure, the place of the first bad entry, its index and its first reason. */
  datatype Verdict = Verified | Fails(at: nat, index: int, reason: Reason)

  /** `HashChain.verify` and `verifier.verify_chain` */
  method Verify(c: Crypto, entries: seq<Event>) returns (v: Verdict)
    ensures v.Verified? <==> ChainOk(c, entries)
    ensures v.Fails? ==> v.at < |entries| && v.index == entries[v.at].index && ChainOk(c, entries[..v.at])
    ensures v.Fails? ==>
      var e := entries[v.at];
      var linked := e.prevHash == if v.at == 0 then GENESIS else entries[v.at - 1].entryHash;
      var hashed := e.entryHash == HashOf(c, Payload(e));
      && (v.reason == PrevHashDiffers <==> !linked)
      && (v.reason == EntryHashDiffers <==> linked && !hashed)
      && (v.reason == BadEntrySignature <==> linked && hashed)
      && (linked && hashed ==> !Checks(c, e.entryHash, e.signature))
  {
    hide Payload;
    var expectedPrev := GENESIS;
    for i := 0 to |entries|
      invariant expectedPrev == LastHash(entries[..i])
      invariant ChainOk(c, entries[..i])
    {
      var entry := entries[i];
      ChainOkOneMore(c, entries, i);
      if entry.prevHash != expectedPrev {
        return Fails(i, entry.index, PrevHashDiffers);
      }
      if HashOf(c, Payload(entry)) != entry.entryHash {
        return Fails(i, entry.index, EntryHashDiffers);
      }
      if !Checks(c, entry.entryHash, entry.signature) {
        return Fails(i, entry.index, BadEntrySignature);
      }
      expectedPrev := entry.entryHash;
    }
    assert entries[..|entries|] == entries;
    return Verified;
  }

  /** One entry more keeps a chain good exactly when that entry is. */
  lemma {:induction false} ChainOkOneMore(c: Crypto, entries: seq<Event>, i: nat)
    requires i < |entries|
    ensures ChainOk(c, entries[..i + 1]) <==>
            ChainOk(c, entries[..i]) && LocalReasons(c, LastHash(entries[..i]), entries[i]) == []
    ensures LastHash(entries[..i + 1]) == entries[i].entryHash
    ensures ChainOk(c, entries) ==> ChainOk(c, entries[..i + 1])
  {
    hide LocalReasons, LastHash;
    var longer, shorter := entries[..i + 1], entries[..i];
    forall j | 0 <= j <= i ensures EntryOk(c, longer, j) <==> EntryOk(c, entries, j) {
      assert longer[..j] == entries[..j];
    }
    forall j | 0 <= j < i ensures EntryOk(c, shorter, j) <==> EntryOk(c, entries, j) {
      assert shorter[..j] == entries[..j];
    }
    if ChainOk(c, longer) { assert EntryOk(c, longer, i); }
    assert LastHash(entries[..i + 1]) == entries[i].entryHash by { LastHashOf(entries[..i + 1]); }
  }

  lemma LastHashOf(entries: seq<Event>)
    requires entries != []
    ensures LastHash(entries) == entries[|entries| - 1].entryHash
  {
  }

  datatype EntryVerification = EntryVerification(index: int, ok: bool, reasons: seq<Reason>)

  /** What `verify_each` reports for entry `i`: its own faults, and that some entry before it failed. */
  ghost function Report(c: Crypto, entries: seq<Event>, i: nat): EntryVerification
    requires i < |entries|
  {
    var reasons := LocalReasons(c, LastHash(entries[..i]), entries[i]) +
                   if ChainOk(c, entries[..i]) then [] else [UpstreamFailed];
    EntryVerification(entries[i].index, reasons == [], reasons)
  }

  /** An entry is reported good exactly when the chain up to and including it verifies. */
  lemma {:induction false} GoodReports(c: Crypto, entries: seq<Event>, i: nat)
    requires i < |entries|
    ensures Report(c, entries, i).ok <==> ChainOk(c, entries[..i + 1])
  {
    hide ChainOk, LocalReasons;
    ChainOkOneMore(c, entries, i);
  }

  /** `HashChain.verify_each` and `verifier.verify_each` */
  method VerifyEach(c: Crypto, entries: seq<Event>) returns (results: seq<EntryVerification>)
    ensures |results| == |entries| && forall i :: 0 <= i < |entries| ==> results[i] == Report(c, entries, i)
  {
    hide Payload, ChainOk, LocalReasons;
    results := [];
    var expectedPrev, upstreamBroken := GENESIS, false;
    EmptyChainOk(c);
    assert entries[..0] == [];
    for i := 0 to |entries|
      invariant |results| == i && expectedPrev == LastHash(entries[..i])
      invariant upstreamBroken <==> !ChainOk(c, entries[..i])
      invariant forall j :: 0 <= j < i ==> results[j] == Report(c, entries, j)
    {
      var entry := entries[i];
      ChainOkOneMore(c, entries, i);
      var reasons := FaultsOf(c, expectedPrev, entry);
      if upstreamBroken {
        reasons := reasons + [UpstreamFailed];
      }
      var ok := reasons == [];
      results := results + [EntryVerification(entry.index, ok, reasons)];
      if !ok {
        upstreamBroken := true;
      }
      expectedPrev := entry.entryHash;
    }
  }

  method FaultsOf(c: Crypto, expectedPrev: Text, entry: Event) returns (reasons: seq<Reason>)
    ensures reasons == LocalReasons(c, expectedPrev, entry)
  {
    hide Payload;
    reasons := [];
    if entry.prevHash != expectedPrev {
      reasons := reasons + [PrevHashDiffers];
    }
    if HashOf(c, Payload(entry)) != entry.entryHash {
      reasons := reasons + [EntryHashDiffers];
    }
    if !Checks(c, entry.entryHash, entry.signature) {
      reasons := reasons + [BadEntrySignature];
    }
  }

  lemma EmptyChainOk(c: Crypto)
    ensures ChainOk(c, [])
  {
  }

  // ----- what the checks mean, said without them

  /** A chain verifies exactly if the first entry links to 64 zeros, every other one to the hash of the one before it,
      every entry has the hash of its payload, and its signature over that hash checks. */
  lemma {:induction false} ChainOkExactly(c: Crypto, entries: seq<Event>)
    ensures ChainOk(c, entries) <==>
      && (entries != [] ==>
            |entries[0].prevHash| == 64 && forall k :: 0 <= k < 64 ==> entries[0].prevHash[k] == '0' as int)
      && (forall i :: 0 < i < |entries| ==> entries[i].prevHash == entries[i - 1].entryHash)
      && (forall i :: 0 <= i < |entries| ==> entries[i].entryHash == c.hash(Payload(entries[i])))
      && (forall i :: 0 <= i < |entries| ==> c.verifies(entries[i].entryHash, entries[i].signature))
  {
    hide Payload, EntryOk;
    if entries != [] {
      StartsAtZeros(entries[0].prevHash);
      EntryOkExactly(c, entries, 0);
    }
    if ChainOk(c, entries) {
      forall i | 0 <= i < |entries|
        ensures entries[i].prevHash == (if i == 0 then GENESIS else entries[i - 1].entryHash)
        ensures entries[i].entryHash == HashOf(c, Payload(entries[i]))
        ensures Checks(c, entries[i].entryHash, entries[i].signature)
      {
        EntryOkExactly(c, entries, i);
      }
    } else {
      var i :| 0 <= i < |entries| && !EntryOk(c, entries, i);
      EntryOkExactly(c, entries, i);
    }
  }

  lemma StartsAtZeros(t: Text)
    ensures t == GENESIS <==> |t| == 64 && forall k :: 0 <= k < 64 ==> t[k] == '0' as int
  {
    hide Zeros;
  }

  lemma EntryOkExactly(c: Crypto, entries: seq<Event>, i: nat)
    requires i < |entries|
    ensures EntryOk(c, entries, i) <==>
      && entries[i].prevHash == (if i == 0 then GENESIS else entries[i - 1].entryHash)
      && entries[i].entryHash == HashOf(c, Payload(entries[i]))
      && Checks(c, entries[i].entryHash, entries[i].signature)
  {
    hide Payload, Checks, LocalReasons;
    LastHashBefore(entries, i);
    FaultsExactly(c, LastHash(entries[..i]), entries[i]);
  }

  /** The faults of an entry: each one listed exactly if it is there, in the order in which they are looked for. */
  lemma FaultsExactly(c: Crypto, prev: Text, e: Event)
    ensures var faults := LocalReasons(c, prev, e);
      && (PrevHashDiffers in faults <==> e.prevHash != prev)
      && (EntryHashDiffers in faults <==> e.entryHash != HashOf(c, Payload(e)))
      && (BadEntrySignature in faults <==> !Checks(c, e.entryHash, e.signature))
      && UpstreamFailed !in faults
      && (forall j, k :: 0 <= j < k < |faults| ==>
            (faults[j] == PrevHashDiffers && faults[k] != PrevHashDiffers)
            || (faults[j] == EntryHashDiffers && faults[k] == BadEntrySignature))
      && (faults == [] <==>
            e.prevHash == prev && e.entryHash == HashOf(c, Payload(e)) && Checks(c, e.entryHash, e.signature))
  {
    hide Payload, Checks;
  }

  /** A chain in which one signature was replaced. */
  function Forged(entries: seq<Event>, i: nat, signature: Text): seq<Event>
    requires i < |entries|
  {
    entries[i := entries[i].(signature := signature)]
  }

  /** In a good chain, a signature that does not check is found, at its own entry and as what it is; the entries before
      are still good and those after it only follow a bad one. */
  lemma {:induction false} ForgeryIsFound(c: Crypto, entries: seq<Event>, i: nat, signature: Text)
    requires ChainOk(c, entries) && i < |entries| && !Checks(c, entries[i].entryHash, signature)
    ensures var forged := Forged(entries, i, signature);
      && !ChainOk(c, forged) && ChainOk(c, forged[..i])
      && (forall j :: 0 <= j < i ==> Report(c, forged, j).reasons == [])
      && Report(c, forged, i).reasons == [BadEntrySignature]
      && (forall j :: i < j < |entries| ==> Report(c, forged, j).reasons == [UpstreamFailed])
  {
    hide Payload, LocalReasons, Checks, ChainOk;
    var forged := Forged(entries, i, signature);
    PayloadIgnoresSignature(entries[i], signature);
    FaultsExactly(c, LastHash(forged[..i]), forged[i]);
    forall j | 0 <= j < |entries|
      ensures LastHash(forged[..j]) == LastHash(entries[..j])
      ensures LocalReasons(c, LastHash(forged[..j]), forged[j]) == if j == i then [BadEntrySignature] else []
    {
      SameLastHash(entries, i, signature, j);
      GoodEntry(c, entries, j);
      FaultsExactly(c, LastHash(entries[..j]), entries[j]);
      if j == i { OnlyTheSignature(c, LastHash(forged[..i]), forged[i]); }
    }
    ForgedPrefixes(c, entries, i, signature);
  }

  lemma PayloadIgnoresSignature(e: Event, signature: Text)
    ensures Payload(e.(signature := signature)) == Payload(e)
  {
  }

  lemma SameLastHash(entries: seq<Event>, i: nat, signature: Text, j: nat)
    requires i < |entries| && j <= |entries|
    ensures LastHash(Forged(entries, i, signature)[..j]) == LastHash(entries[..j])
  {
  }

  lemma GoodEntry(c: Crypto, entries: seq<Event>, j: nat)
    requires ChainOk(c, entries) && j < |entries|
    ensures LocalReasons(c, LastHash(entries[..j]), entries[j]) == []
  {
    assert EntryOk(c, entries, j);
  }

  lemma OnlyTheSignature(c: Crypto, prev: Text, e: Event)
    requires e.prevHash == prev && e.entryHash == HashOf(c, Payload(e)) && !Checks(c, e.entryHash, e.signature)
    ensures LocalReasons(c, prev, e) == [BadEntrySignature]
  {
    hide Payload, Checks;
  }

  lemma {:induction false} ForgedPrefixes(c: Crypto, entries: seq<Event>, i: nat, signature: Text)
    requires i < |entries|
    requires var forged := Forged(entries, i, signature);
      forall j :: 0 <= j < |entries| ==>
        LocalReasons(c, LastHash(forged[..j]), forged[j]) == if j == i then [BadEntrySignature] else []
    ensures var forged := Forged(entries, i, signature);
      !ChainOk(c, forged) && forall j :: 0 <= j <= |entries| ==> (ChainOk(c, forged[..j]) <==> j <= i)
  {
    hide LocalReasons, LastHash, ChainOk;
    var forged := Forged(entries, i, signature);
    assert forged[..0] == [] && forged[..|entries|] == forged;
    EmptyChainOk(c);
    for j := 0 to |entries|
      invariant forall k :: 0 <= k <= j ==> (ChainOk(c, forged[..k]) <==> k <= i)
    {
      ChainOkOneMore(c, forged, j);
    }
  }

  /** So `verify` names that entry and that fault. */
  method VerifyForged(c: Crypto, entries: seq<Event>, i: nat, signature: Text) returns (v: Verdict)
    requires ChainOk(c, entries) && i < |entries| && !Checks(c, entries[i].entryHash, signature)
    ensures v == Fails(i, entries[i].index, BadEntrySignature)
  {
    hide Payload, LocalReasons, Checks, ChainOk;
    var forged := Forged(entries, i, signature);
    ForgeryIsFound(c, entries, i, signature);
    v := Verify(c, forged);
    var at := if v.Fails? then v.at else i;
    assert at <= i by { if i < at { LongerIsBad(c, forged, i, at); } }
    LastHashBefore(forged, at);
    FaultsExactly(c, LastHash(forged[..at]), forged[at]);
    assert at < i ==> Report(c, forged, at).reasons == [];
  }

  lemma LastHashBefore(entries: seq<Event>, i: nat)
    requires i <= |entries|
    ensures LastHash(entries[..i]) == if i == 0 then GENESIS else entries[i - 1].entryHash
  {
  }

  /** Once an entry is bad, no longer chain is good. */
  lemma LongerIsBad(c: Crypto, entries: seq<Event>, i: nat, n: nat)
    requires i < n <= |entries| && Report(c, entries, i).reasons != []
    ensures !ChainOk(c, entries[..n])
  {
    hide LocalReasons;
    if ChainOk(c, entries[..n]) {
      ChainOkOneMore(c, entries[..n], i);
      assert entries[..n][..i + 1] == entries[..i + 1];
      GoodReports(c, entries, i);
    }
  }

  // ----- appending

  /** What a caller of `add_event` gives. `timestamp` is None when the current time is to be used. */
  datatype Details = Details(actor: Text, action: Text, evidenceId: Option<Text>, evidenceIds: Option<seq<Text>>,
                             caseNumber: Option<Text>, tag: Option<Text>, notes: Option<Text>, timestamp: Text)

  predicate NamesOneKind(d: Details) {
    d.evidenceId.Some? != d.evidenceIds.Some?
  }

  /** The entry that `add_event` appends to `entries`. */
  function NextEvent(c: Crypto, entries: seq<Event>, d: Details): (e: Event)
    requires NamesOneKind(d)
    ensures e.index == |entries| && e.prevHash == LastHash(entries) && Proper(e)
    ensures e.entryHash == HashOf(c, Payload(e)) && e.signature == SignOf(c, e.entryHash)
    ensures e.actor == d.actor && e.action == d.action && e.timestamp == d.timestamp && e.evidenceIds == d.evidenceIds
    ensures d.evidenceId.Some? ==> e.evidenceId == d.evidenceId.value
    ensures d.evidenceIds.Some? ==> e.caseNumber == d.caseNumber && e.tag == d.tag && e.notes == d.notes
  {
    var unsealed :=
      if d.evidenceIds.Some? then
        Event(|entries|, [], d.actor, d.action, d.timestamp, LastHash(entries), d.evidenceIds,
              d.caseNumber, d.tag, d.notes, [], [])
      else
        Event(|entries|, d.evidenceId.value, d.actor, d.action, d.timestamp, LastHash(entries), None,
              None, None, None, [], []);
    Seal(c, unsealed)
  }

  /** Only an event on several items carries case number, tag and notes, and only one on a single item its id. */
  predicate Proper(e: Event) {
    if e.evidenceIds.Some? then e.evidenceId == [] else e.caseNumber.None? && e.tag.None? && e.notes.None?
  }

  function Seal(c: Crypto, e: Event): (sealed: Event)
    ensures Payload(sealed) == Payload(e) && sealed.entryHash == HashOf(c, Payload(e))
    ensures sealed.signature == SignOf(c, sealed.entryHash)
    ensures sealed.(entryHash := e.entryHash, signature := e.signature) == e
  {
    var h := HashOf(c, Payload(e));
    e.(entryHash := h, signature := SignOf(c, h))
  }

  /** Appending keeps a chain good, and the chain before it is unchanged. */
  lemma {:induction false} AppendKeepsChain(c: Crypto, entries: seq<Event>, d: Details)
    requires Sane(c) && NamesOneKind(d) && ChainOk(c, entries)
    ensures ChainOk(c, entries + [NextEvent(c, entries, d)])
  {
    hide ChainOk, NextEvent, Payload, LastHash;
    var longer := entries + [NextEvent(c, entries, d)];
    ChainOkOneMore(c, longer, |entries|);
    assert longer[..|entries|] == entries && longer[..|entries| + 1] == longer;
  }

  /** The order in which the report of an entry lists its reasons. */
  function Rank(reason: Reason): nat {
    match reason
    case PrevHashDiffers => 0
    case EntryHashDiffers => 1
    case BadEntrySignature => 2
    case UpstreamFailed => 3
  }

  /** The report of an entry: every reason listed exactly if it applies, the last of them if some entry before it
      failed, and good exactly if none does. */
  lemma ReportExactly(c: Crypto, entries: seq<Event>, i: nat)
    requires i < |entries|
    ensures var r, e := Report(c, entries, i), entries[i];
      && r.index == e.index && (r.ok <==> r.reasons == [])
      && (PrevHashDiffers in r.reasons <==> e.prevHash != if i == 0 then GENESIS else entries[i - 1].entryHash)
      && (EntryHashDiffers in r.reasons <==> e.entryHash != c.hash(Payload(e)))
      && (BadEntrySignature in r.reasons <==> !c.verifies(e.entryHash, e.signature))
      && (UpstreamFailed in r.reasons <==> !ChainOk(c, entries[..i]))
      && forall j, k :: 0 <= j < k < |r.reasons| ==> Rank(r.reasons[j]) < Rank(r.reasons[k])
  {
    hide Payload, ChainOk, LocalReasons;
    var own, r := LocalReasons(c, LastHash(entries[..i]), entries[i]), Report(c, entries, i);
    FaultsExactly(c, LastHash(entries[..i]), entries[i]);
    LastHashBefore(entries, i);
    forall j, k | 0 <= j < k < |r.reasons| ensures Rank(r.reasons[j]) < Rank(r.reasons[k]) {
      assert r.reasons[j] == own[j] && own[j] in own;
      if k < |own| { assert r.reasons[k] == own[k] && own[k] in own; }
    }
  }

  // ----- anchors

  datatype Anchor = Anchor(chainEntries: nat, headHash: Text)

  /** The anchor that `export` writes for a log. */
  function AnchorOf(entries: seq<Event>): Anchor {
    Anchor(|entries|, LastHash(entries))
  }

  /** `anchor_chain_problem` accepts the log. */
  predicate AnchorAccepts(a: Anchor, entries: seq<Event>) {
    && a.chainEntries <= |entries|
    && a.headHash == if a.chainEntries > 0 then entries[a.chainEntries - 1].entryHash else GENESIS
  }

  datatype AnchorProblem = AnchoredEntriesRemoved | AnchoredHeadDiffers

  /** `anchor_chain_problem` */
  method AnchorChainProblem(a: Anchor, entries: seq<Event>) returns (problem: Option<AnchorProblem>)
    ensures problem.None? <==> AnchorAccepts(a, entries)
    ensures problem == Some(AnchoredEntriesRemoved) <==> |entries| < a.chainEntries
    ensures problem == Some(AnchoredHeadDiffers) <==>
      && |entries| >= a.chainEntries
      && a.headHash != if a.chainEntries == 0 then GENESIS else entries[a.chainEntries - 1].entryHash
  {
    var n := a.chainEntries;
    if |entries| < n {
      return Some(AnchoredEntriesRemoved);
    }
    var head := if n > 0 then entries[n - 1].entryHash else GENESIS;
    if head != a.headHash {
      return Some(AnchoredHeadDiffers);
    }
    return None;
  }

  /** Two different texts with one hash. */
  datatype Collision = Collision(a: Text, b: Text)

  predicate Collides(c: Crypto, x: Collision) {
    x.a != x.b && HashOf(c, x.a) == HashOf(c, x.b)
  }

  /** The two texts are payloads that the two logs have at one place before n. */
  predicate FromLogs(log1: seq<Event>, log2: seq<Event>, n: nat, x: Collision)
    requires n <= |log1| && n <= |log2|
  {
    exists i :: 0 <= i < n && x == Collision(Payload(log1[i]), Payload(log2[i]))
  }

  /** The hashes before an entry of a good chain are hashes. */
  lemma {:induction false} PrevIsHash(c: Crypto, entries: seq<Event>, i: nat)
    requires Sane(c) && ChainOk(c, entries) && i < |entries|
    ensures IsHash(entries[i].prevHash) && entries[i].entryHash == HashOf(c, Payload(entries[i]))
    ensures entries[i].prevHash == LastHash(entries[..i])
  {
    hide Payload;
    assert EntryOk(c, entries, i);
    if i > 0 {
      assert EntryOk(c, entries, i - 1);
    }
  }

  /** From one equal entry hash back to the start: all earlier payloads and entry hashes are equal, or the payloads of
      the two logs at some place differ and have one hash. */
  lemma {:induction false} HeadPinsPrefix(c: Crypto, log1: seq<Event>, log2: seq<Event>, n: nat)
    returns (x: Collision)
    requires Sane(c) && ChainOk(c, log1) && ChainOk(c, log2)
    requires n <= |log1| && n <= |log2| && LastHash(log1[..n]) == LastHash(log2[..n])
    ensures (Collides(c, x) && FromLogs(log1, log2, n, x)) ||
            forall i :: 0 <= i < n ==>
              log1[i].entryHash == log2[i].entryHash && Payload(log1[i]) == Payload(log2[i])
  {
    hide Payload, LocalReasons, ChainOk;
    x := Collision([], []);
    if n > 0 {
      PrevIsHash(c, log1, n - 1);
      PrevIsHash(c, log2, n - 1);
      x := Collision(Payload(log1[n - 1]), Payload(log2[n - 1]));
      if !Collides(c, x) {
        PayloadPinsPrevHash(log1[n - 1], log2[n - 1]);
        x := HeadPinsPrefix(c, log1, log2, n - 1);
      }
    }
  }

  /** An anchor taken from a good log of n entries pins the first n entry hashes of every good log it accepts,
      whatever the mix of entries on one and on several items, unless the logs exhibit a hash collision. */
  lemma {:induction false} AnchorPins(c: Crypto, log1: seq<Event>, n: nat, log2: seq<Event>) returns (x: Collision)
    requires Sane(c) && ChainOk(c, log1) && n <= |log1| && ChainOk(c, log2)
    requires AnchorAccepts(AnchorOf(log1[..n]), log2)
    ensures n <= |log2|
    ensures (Collides(c, x) && FromLogs(log1, log2, n, x)) ||
            forall i :: 0 <= i < n ==>
              log1[i].entryHash == log2[i].entryHash && Payload(log1[i]) == Payload(log2[i])
  {
    hide Payload, LocalReasons, ChainOk;
    x := HeadPinsPrefix(c, log1, log2, n);
  }

  /** A log that only grew since an anchor was taken is accepted. */
  lemma AnchorAcceptsGrowth(log: seq<Event>, more: seq<Event>)
    ensures AnchorAccepts(AnchorOf(log), log + more)
  {
  }
}
