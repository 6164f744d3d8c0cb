/** What the hashed text of an entry on several evidence items determines: every field it is made from. */
module Payloads {
  import opened Wrappers
  import opened Texts
  import opened Json
  import opened JsonArrays
  import opened Events
  import opened Stores

  lemma {:induction false} DigitsInjective(m: nat, n: nat)
    requires Digits(m) == Digits(n)
    ensures m == n
  {
    var a, b := Digits(m), Digits(n);
    assert a[|a| - 1] == 48 + m % 10 && b[|b| - 1] == 48 + n % 10;
    if m >= 10 && n >= 10 {
      assert Digits(m / 10) == a[..|a| - 1] && Digits(n / 10) == b[..|b| - 1];
      DigitsInjective(m / 10, n / 10);
    } else {
      DigitsLength(m);
      DigitsLength(n);
    }
  }

  lemma DigitsLength(n: nat)
    ensures |Digits(n)| == 1 <==> n < 10
  {
  }

  lemma IntTextInjective(m: int, n: int)
    requires IntText(m) == IntText(n)
    ensures m == n
  {
    hide Digits;
    assert IntText(m)[0] == 45 <==> m < 0;
    assert IntText(n)[0] == 45 <==> n < 0;
    if m < 0 {
      assert Digits(-m) == IntText(m)[1..] && Digits(-n) == IntText(n)[1..];
      DigitsInjective(-m, -n);
    } else {
      DigitsInjective(m, n);
    }
  }

  /** Two strings are written the same way exactly if they read back as the same string. */
  lemma DumpedAlike(v: Text, w: Text)
    ensures DumpString(v) == DumpString(w) <==> Merge(v) == Merge(w)
  {
    hide Merge, Body, DumpPieces;
    DumpOfMerged(v);
    DumpOfMerged(w);
    if DumpString(v) == DumpString(w) {
      ScanDump(v);
      ScanDump(w);
    }
  }

  lemma ScanDump(v: Text)
    ensures Scan(DumpString(v)[1..]).Some? && Scan(DumpString(v)[1..]).value.0 == Merge(v)
  {
    hide Merge, Body, DumpPieces, Scan, WritesAll;
    assert DumpString(v)[1..] == Body(DumpPieces(v)) + [QUOTE];
    ScanReads(v, DumpPieces(v), [QUOTE]);
  }

  lemma ListsDumpedAlike(a: seq<Text>, b: seq<Text>)
    ensures DumpList(a) == DumpList(b) <==> MergeAll(a) == MergeAll(b)
  {
    hide DumpItems, LoadList, MergeAll;
    LoadsDumps(a);
    LoadsDumps(b);
    DumpItemsOfMerged(a);
    DumpItemsOfMerged(b);
  }

  /** The fields as the payload writes them: absent ones like empty ones, and surrogate pairs like the character they
      stand for. */
  predicate SameFields(e: Event, ids: seq<Text>, f: Event, ids': seq<Text>) {
    && e.index == f.index && MergeAll(ids) == MergeAll(ids')
    && Merge(e.actor) == Merge(f.actor) && Merge(e.action) == Merge(f.action)
    && Merge(e.timestamp) == Merge(f.timestamp) && Merge(e.prevHash) == Merge(f.prevHash)
    && Merge(OrEmpty(e.caseNumber)) == Merge(OrEmpty(f.caseNumber))
    && Merge(OrEmpty(e.tag)) == Merge(OrEmpty(f.tag)) && Merge(OrEmpty(e.notes)) == Merge(OrEmpty(f.notes))
  }

  /** The JSON form pins every field it is made from, exactly. */
  lemma JsonPayloadPinsFields(e: Event, ids: seq<Text>, f: Event, ids': seq<Text>)
    ensures JsonPayload(e, ids) == JsonPayload(f, ids') <==> SameFields(e, ids, f, ids')
  {
    hide DumpString, DumpList, IntText, Merge, MergeAll;
    FieldsDumpedAlike(e, f);
    ListsDumpedAlike(ids, ids');
    if JsonPayload(e, ids) == JsonPayload(f, ids') {
      hide JsonPayload;
      JsonPayloadsAgree(e, ids, f, ids');
      IntTextInjective(e.index, f.index);
    }
  }

  lemma FieldsDumpedAlike(e: Event, f: Event)
    ensures DumpString(e.actor) == DumpString(f.actor) <==> Merge(e.actor) == Merge(f.actor)
    ensures DumpString(e.action) == DumpString(f.action) <==> Merge(e.action) == Merge(f.action)
    ensures DumpString(e.timestamp) == DumpString(f.timestamp) <==> Merge(e.timestamp) == Merge(f.timestamp)
    ensures DumpString(e.prevHash) == DumpString(f.prevHash) <==> Merge(e.prevHash) == Merge(f.prevHash)
    ensures DumpString(OrEmpty(e.caseNumber)) == DumpString(OrEmpty(f.caseNumber)) <==>
            Merge(OrEmpty(e.caseNumber)) == Merge(OrEmpty(f.caseNumber))
    ensures DumpString(OrEmpty(e.tag)) == DumpString(OrEmpty(f.tag)) <==> Merge(OrEmpty(e.tag)) == Merge(OrEmpty(f.tag))
    ensures DumpString(OrEmpty(e.notes)) == DumpString(OrEmpty(f.notes)) <==>
            Merge(OrEmpty(e.notes)) == Merge(OrEmpty(f.notes))
  {
    hide DumpString, Merge, OrEmpty;
    DumpedAlike(e.actor, f.actor);
    DumpedAlike(e.action, f.action);
    DumpedAlike(e.timestamp, f.timestamp);
    DumpedAlike(e.prevHash, f.prevHash);
    DumpedAlike(OrEmpty(e.caseNumber), OrEmpty(f.caseNumber));
    DumpedAlike(OrEmpty(e.tag), OrEmpty(f.tag));
    DumpedAlike(OrEmpty(e.notes), OrEmpty(f.notes));
  }
}
