/** Custody events, and the text whose hash an entry carries. */
module Events {
  import opened Wrappers
  import opened Texts
  import opened Json
  import opened JsonArrays

  /** An entry of the custody log. `evidenceIds` is Some for an event that names several evidence items. */
  datatype Event = Event(
    index: int, evidenceId: Text, actor: Text, action: Text, timestamp: Text, prevHash: Text,
    evidenceIds: Option<seq<Text>>, caseNumber: Option<Text>, tag: Option<Text>, notes: Option<Text>,
    entryHash: Text, signature: Text)

  const BAR: Code := 124
  const BRACE: Code := 123

  function Digits(n: nat): (t: Text)
    ensures t != [] && forall i :: 0 <= i < |t| ==> 48 <= t[i] < 58
  {
    if n < 10 then [48 + n] else Digits(n / 10) + [48 + n % 10]
  }

  /** `str` of an integer. */
  function IntText(n: int): (t: Text)
    ensures t != [] && forall i :: 0 <= i < |t| ==> t[i] == 45 || 48 <= t[i] < 58
  {
    if n < 0 then [45] + Digits(-n) else Digits(n)
  }

  function OrEmpty(t: Option<Text>): Text {
    if t.Some? then t.value else []
  }

  /** The payload of an event on one evidence item: its fields joined with bars, the previous hash last. */
  function BarPayload(e: Event): Text {
    IntText(e.index) + [BAR] + e.evidenceId + [BAR] + e.actor + [BAR] + e.action + [BAR] +
    e.timestamp + [BAR] + e.prevHash
  }

  /** The payload of an event on several items: JSON with sorted keys. */
  function JsonPayload(e: Event, ids: seq<Text>): Text {
    Ascii("{\"action\": ") + (DumpString(e.action) +
    (Ascii(", \"actor\": ") + (DumpString(e.actor) +
    (Ascii(", \"case_number\": ") + (DumpString(OrEmpty(e.caseNumber)) +
    (Ascii(", \"evidence_ids\": ") + (DumpList(ids) +
    (Ascii(", \"index\": ") + (IntText(e.index) +
    (Ascii(", \"notes\": ") + (DumpString(OrEmpty(e.notes)) +
    (Ascii(", \"prev_hash\": ") + (DumpString(e.prevHash) +
    (Ascii(", \"tag\": ") + (DumpString(OrEmpty(e.tag)) +
    (Ascii(", \"timestamp\": ") + (DumpString(e.timestamp) + Ascii("}"))))))))))))))))))
  }

  /** `canonical_payload` */
  function Payload(e: Event): Text {
    if e.evidenceIds.None? then BarPayload(e) else JsonPayload(e, e.evidenceIds.value)
  }

  /** 64 lower-case hexadecimal digits. */
  predicate IsHash(t: Text) {
    |t| == 64 && forall i :: 0 <= i < 64 ==> 48 <= t[i] < 58 || 97 <= t[i] < 103
  }

  // ----- what equal payloads have in common

  lemma BarPayloadsAgree(e: Event, f: Event)
    requires BarPayload(e) == BarPayload(f) && |e.prevHash| == |f.prevHash|
    ensures e.prevHash == f.prevHash
  {
    var front1 :=
      IntText(e.index) + [BAR] + e.evidenceId + [BAR] + e.actor + [BAR] + e.action + [BAR] + e.timestamp + [BAR];
    var front2 :=
      IntText(f.index) + [BAR] + f.evidenceId + [BAR] + f.actor + [BAR] + f.action + [BAR] + f.timestamp + [BAR];
    SameLengthTails(front1, e.prevHash, front2, f.prevHash);
  }

  lemma SameLengthTails(a: Text, x: Text, b: Text, y: Text)
    requires a + x == b + y && |x| == |y|
    ensures x == y
  {
    assert x == (a + x)[|a|..] && y == (b + y)[|b|..];
  }

  lemma SameTails(a: Text, b: Text, x: Text)
    requires a + x == b + x
    ensures a == b
  {
    assert |a| == |b|;
    assert a == (a + x)[..|a|] && b == (b + x)[..|b|];
  }

  lemma SameHeads(a: Text, x: Text, y: Text)
    requires a + x == a + y
    ensures x == y
  {
    assert x == (a + x)[|a|..] && y == (a + y)[|a|..];
  }

  /** A literal and a dumped string can be stripped off two equal texts together. */
  lemma StripString(literal: Text, v: Text, rest1: Text, w: Text, rest2: Text)
    requires literal + (DumpString(v) + rest1) == literal + (DumpString(w) + rest2)
    ensures DumpString(v) == DumpString(w) && rest1 == rest2
  {
    hide DumpString;
    SameHeads(literal, DumpString(v) + rest1, DumpString(w) + rest2);
    DumpedStringEnds(v, w, rest1, rest2);
  }

  lemma DumpedListStart(a: seq<Text>, rest: Text)
    ensures DumpList(a) + rest == [OPEN] + (DumpItems(a) + ([CLOSE] + rest))
  {
    hide DumpItems;
    Regroup([OPEN], DumpItems(a), [CLOSE], rest);
  }

  /** Where a dumped list ends in a longer text can be told from the text alone. */
  lemma DumpedListEnds(a: seq<Text>, b: seq<Text>, rest1: Text, rest2: Text)
    requires DumpList(a) + rest1 == DumpList(b) + rest2
    ensures rest1 == rest2 && DumpList(a) == DumpList(b)
  {
    hide DumpItems, DumpList;
    DumpedListStart(a, rest1);
    DumpedListStart(b, rest2);
    SameHeads([OPEN], DumpItems(a) + ([CLOSE] + rest1), DumpItems(b) + ([CLOSE] + rest2));
    DumpedItemsEnd(a, b, rest1, rest2);
    SameTails(DumpList(a), DumpList(b), rest1);
  }

  lemma DumpedItemsStart(a: seq<Text>, rest: Text)
    ensures a == [] ==> DumpItems(a) + ([CLOSE] + rest) == [CLOSE] + rest
    ensures |a| == 1 ==> DumpItems(a) + ([CLOSE] + rest) == DumpString(a[0]) + ([CLOSE] + rest)
    ensures |a| > 1 ==> DumpItems(a) + ([CLOSE] + rest) ==
                        DumpString(a[0]) + ([COMMA, 32] + (DumpItems(a[1..]) + ([CLOSE] + rest)))
  {
    hide DumpString;
    if a == [] {
      assert [] + ([CLOSE] + rest) == [CLOSE] + rest;
    } else if |a| > 1 {
      Regroup(DumpString(a[0]), [COMMA, 32], DumpItems(a[1..]), [CLOSE] + rest);
    }
  }

  lemma {:induction false} DumpedItemsEnd(a: seq<Text>, b: seq<Text>, rest1: Text, rest2: Text)
    requires DumpItems(a) + ([CLOSE] + rest1) == DumpItems(b) + ([CLOSE] + rest2)
    ensures rest1 == rest2
    decreases |a|
  {
    hide DumpItems, DumpString;
    DumpedItemsStart(a, rest1);
    DumpedItemsStart(b, rest2);
    var text := DumpItems(a) + ([CLOSE] + rest1);
    if a == [] || b == [] {
      StartsWithQuote(a, rest1);
      StartsWithQuote(b, rest2);
      SameHeads([CLOSE], rest1, rest2);
    } else {
      var more1 := if |a| == 1 then [CLOSE] + rest1 else [COMMA, 32] + (DumpItems(a[1..]) + ([CLOSE] + rest1));
      var more2 := if |b| == 1 then [CLOSE] + rest2 else [COMMA, 32] + (DumpItems(b[1..]) + ([CLOSE] + rest2));
      DumpedStringEnds(a[0], b[0], more1, more2);
      assert more1[0] == more2[0];
      if |a| == 1 {
        SameHeads([CLOSE], rest1, rest2);
      } else {
        SameHeads([COMMA, 32], DumpItems(a[1..]) + ([CLOSE] + rest1), DumpItems(b[1..]) + ([CLOSE] + rest2));
        DumpedItemsEnd(a[1..], b[1..], rest1, rest2);
      }
    }
  }

  lemma StartsWithQuote(a: seq<Text>, rest: Text)
    ensures (DumpItems(a) + ([CLOSE] + rest))[0] == if a == [] then CLOSE else QUOTE
  {
    DumpedItemsStart(a, rest);
  }

  /** Where a number ends can be told when something other than a digit follows. */
  lemma NumberEnds(m: int, n: int, rest1: Text, rest2: Text)
    requires IntText(m) + rest1 == IntText(n) + rest2
    requires rest1 != [] && rest2 != [] && rest1[0] == rest2[0] == COMMA
    ensures rest1 == rest2 && IntText(m) == IntText(n)
  {
    var a, b, text := IntText(m), IntText(n), IntText(m) + rest1;
    assert text[|a|] == COMMA && text[|b|] == COMMA;
    assert forall i :: 0 <= i < |a| ==> text[i] == a[i];
    assert forall i :: 0 <= i < |b| ==> text[i] == b[i];
    assert |a| == |b|;
    SameLengthTails(a, rest1, b, rest2);
    SameTails(a, b, rest1);
  }

  /** Two payloads in the JSON form write every field the same way. */
  lemma JsonPayloadsAgree(e: Event, ids: seq<Text>, f: Event, ids': seq<Text>)
    requires JsonPayload(e, ids) == JsonPayload(f, ids')
    ensures DumpString(e.prevHash) == DumpString(f.prevHash) && DumpString(e.action) == DumpString(f.action)
    ensures DumpString(e.actor) == DumpString(f.actor) && DumpString(e.timestamp) == DumpString(f.timestamp)
    ensures DumpString(OrEmpty(e.caseNumber)) == DumpString(OrEmpty(f.caseNumber))
    ensures DumpString(OrEmpty(e.notes)) == DumpString(OrEmpty(f.notes))
    ensures DumpString(OrEmpty(e.tag)) == DumpString(OrEmpty(f.tag))
    ensures DumpList(ids) == DumpList(ids') && IntText(e.index) == IntText(f.index)
  {
    hide DumpString, DumpList, IntText, Ascii;
    var r9, q9 := Ascii("}"), Ascii("}");
    var r8, q8 :=
      Ascii(", \"timestamp\": ") + (DumpString(e.timestamp) + r9),
      Ascii(", \"timestamp\": ") + (DumpString(f.timestamp) + q9);
    var r7, q7 :=
      Ascii(", \"tag\": ") + (DumpString(OrEmpty(e.tag)) + r8),
      Ascii(", \"tag\": ") + (DumpString(OrEmpty(f.tag)) + q8);
    var r6, q6 :=
      Ascii(", \"prev_hash\": ") + (DumpString(e.prevHash) + r7),
      Ascii(", \"prev_hash\": ") + (DumpString(f.prevHash) + q7);
    var r5, q5 :=
      Ascii(", \"notes\": ") + (DumpString(OrEmpty(e.notes)) + r6),
      Ascii(", \"notes\": ") + (DumpString(OrEmpty(f.notes)) + q6);
    var r4, q4 := Ascii(", \"index\": ") + (IntText(e.index) + r5), Ascii(", \"index\": ") + (IntText(f.index) + q5);
    var r3, q3 :=
      Ascii(", \"evidence_ids\": ") + (DumpList(ids) + r4),
      Ascii(", \"evidence_ids\": ") + (DumpList(ids') + q4);
    var r2, q2 :=
      Ascii(", \"case_number\": ") + (DumpString(OrEmpty(e.caseNumber)) + r3),
      Ascii(", \"case_number\": ") + (DumpString(OrEmpty(f.caseNumber)) + q3);
    var r1, q1 :=
      Ascii(", \"actor\": ") + (DumpString(e.actor) + r2),
      Ascii(", \"actor\": ") + (DumpString(f.actor) + q2);
    StripString(Ascii("{\"action\": "), e.action, r1, f.action, q1);
    StripString(Ascii(", \"actor\": "), e.actor, r2, f.actor, q2);
    StripString(Ascii(", \"case_number\": "), OrEmpty(e.caseNumber), r3, OrEmpty(f.caseNumber), q3);
    SameHeads(Ascii(", \"evidence_ids\": "), DumpList(ids) + r4, DumpList(ids') + q4);
    DumpedListEnds(ids, ids', r4, q4);
    SameHeads(Ascii(", \"index\": "), IntText(e.index) + r5, IntText(f.index) + q5);
    assert r5[0] == COMMA && q5[0] == COMMA;
    NumberEnds(e.index, f.index, r5, q5);
    StripString(Ascii(", \"notes\": "), OrEmpty(e.notes), r6, OrEmpty(f.notes), q6);
    StripString(Ascii(", \"prev_hash\": "), e.prevHash, r7, f.prevHash, q7);
    StripString(Ascii(", \"tag\": "), OrEmpty(e.tag), r8, OrEmpty(f.tag), q8);
    StripString(Ascii(", \"timestamp\": "), e.timestamp, r9, f.timestamp, q9);
  }

  /** A hash is written in JSON without any escape. */
  lemma {:induction false} DumpOfPlain(t: Text)
    requires forall i :: 0 <= i < |t| ==> 48 <= t[i] < 58 || 97 <= t[i] < 103
    ensures Body(DumpPieces(t)) == t
  {
    if t != [] {
      DumpOfPlain(t[1..]);
      assert DumpPieces(t)[1..] == DumpPieces(t[1..]);
      assert t == [t[0]] + t[1..];
    }
  }

  lemma DumpedHashesDiffer(a: Text, b: Text)
    requires IsHash(a) && IsHash(b) && DumpString(a) == DumpString(b)
    ensures a == b
  {
    DumpOfPlain(a);
    DumpOfPlain(b);
    assert DumpString(a)[1..65] == a && DumpString(b)[1..65] == b;
  }

  /** The payload of an entry pins its previous hash, whichever of the two forms it has. The other fields of
      the form with bars are not pinned. */
  lemma PayloadPinsPrevHash(e: Event, f: Event)
    requires Payload(e) == Payload(f) && IsHash(e.prevHash) && IsHash(f.prevHash)
    ensures e.prevHash == f.prevHash
  {
    hide BarPayload, JsonPayload, DumpString;
    FormsDiffer(e);
    FormsDiffer(f);
    if e.evidenceIds.None? {
      BarPayloadsAgree(e, f);
    } else {
      JsonPayloadsAgree(e, e.evidenceIds.value, f, f.evidenceIds.value);
      DumpedHashesDiffer(e.prevHash, f.prevHash);
    }
  }

  lemma FormsDiffer(e: Event)
    ensures Payload(e) != [] && (Payload(e)[0] == BRACE <==> e.evidenceIds.Some?)
  {
    hide DumpString, DumpList;
    if e.evidenceIds.None? {
      assert Payload(e)[0] == IntText(e.index)[0];
    } else {
      assert Payload(e)[0] == Ascii("{\"action\": ")[0];
    }
  }

  /** The form with bars does not pin its other fields: moving a bar between them keeps the payload. */
  lemma BarFieldsAreNotPinned(e: Event)
    requires e.evidenceIds.None?
    ensures var f := e.(actor := e.actor + [BAR] + e.action, action := e.timestamp, timestamp := []);
      var g := e.(actor := e.actor, action := e.action + [BAR] + e.timestamp, timestamp := []);
      f != g && BarPayload(f) == BarPayload(g)
  {
  }
}
