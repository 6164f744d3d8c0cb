/** What the hashed text of an entry says, read back from the text alone: the form joined with bars by cutting it at its
    bars, the JSON form with a reader of JSON objects. */
module PayloadTexts {
  import opened Wrappers
  import opened Texts
  import opened Json
  import opened JsonArrays
  import opened Events
  import opened BarPayloads

  // ----- numbers

  predicate IsDigit(c: Code) {
    '0' as int <= c <= '9' as int
  }

  /** How many digits a text starts with. */
  function DigitRun(t: Text): (n: nat)
    ensures n <= |t|
  {
    if t == [] || !IsDigit(t[0]) then 0 else 1 + DigitRun(t[1..])
  }

  function DecimalValue(digits: Text): int {
    if digits == [] then 0 else DecimalValue(digits[..|digits| - 1]) * 10 + digits[|digits| - 1] - '0' as int
  }

  /** A decimal number without leading zeros, with the sign `-` or none, and what follows it. */
  function ReadNumber(t: Text): (r: Option<(int, Text)>)
    ensures r.Some? ==> |r.value.1| < |t|
  {
    if t != [] && t[0] == '-' as int then
      match ReadNatural(t[1..])
      case None => None
      case Some((n, rest)) => Some((-n, rest))
    else ReadNatural(t)
  }

  function ReadNatural(t: Text): (r: Option<(int, Text)>)
    ensures r.Some? ==> |r.value.1| < |t|
  {
    var n := DigitRun(t);
    if n == 0 || (n > 1 && t[0] == '0' as int) then None else Some((DecimalValue(t[..n]), t[n..]))
  }

  /** The next character, if any, is no digit. */
  predicate NoDigitNext(rest: Text) {
    rest == [] || !IsDigit(rest[0])
  }

  lemma {:induction false} RunEnds(digits: Text, rest: Text)
    requires (forall i :: 0 <= i < |digits| ==> IsDigit(digits[i])) && NoDigitNext(rest)
    ensures DigitRun(digits + rest) == |digits|
  {
    if digits == [] {
      assert digits + rest == rest;
    } else {
      assert (digits + rest)[1..] == digits[1..] + rest;
      RunEnds(digits[1..], rest);
    }
  }

  lemma {:induction false} DigitsAreDecimal(n: nat)
    ensures DecimalValue(Digits(n)) == n && (n > 0 ==> Digits(n)[0] != '0' as int)
    ensures |Digits(n)| == 1 <==> n < 10
  {
    if n < 10 {
      assert DecimalValue([48 + n]) == DecimalValue([]) * 10 + n by { assert [48 + n][..0] == []; }
    } else {
      DigitsAreDecimal(n / 10);
      assert Digits(n)[..|Digits(n)| - 1] == Digits(n / 10);
    }
  }

  lemma NaturalReads(n: nat, rest: Text)
    requires NoDigitNext(rest)
    ensures ReadNatural(Digits(n) + rest) == Some((n, rest))
  {
    hide Digits, DigitRun, DecimalValue;
    var digits := Digits(n);
    RunEnds(digits, rest);
    DigitsAreDecimal(n);
    assert (digits + rest)[..|digits|] == digits && (digits + rest)[|digits|..] == rest;
  }

  /** `str` of an integer is its decimal form. */
  lemma NumberReads(n: int, rest: Text)
    requires NoDigitNext(rest)
    ensures ReadNumber(IntText(n) + rest) == Some((n, rest))
  {
    hide Digits, ReadNatural;
    if n < 0 {
      NaturalReads(-n, rest);
      assert (IntText(n) + rest)[1..] == Digits(-n) + rest;
    } else {
      NaturalReads(n, rest);
    }
  }

  // ----- the form joined with bars

  function Join(separator: Code, parts: seq<Text>): Text
    requires parts != []
  {
    if |parts| == 1 then parts[0] else parts[0] + ([separator] + Join(separator, parts[1..]))
  }

  /** The part before the first separator, or all. */
  function Head(separator: Code, t: Text): (head: Text)
    ensures |head| <= |t|
  {
    if t == [] || t[0] == separator then [] else [t[0]] + Head(separator, t[1..])
  }

  /** The parts of a text between the separators. */
  function SplitAt(separator: Code, t: Text): (parts: seq<Text>)
    ensures parts != []
    decreases |t|
  {
    var head := Head(separator, t);
    if |head| == |t| then [t] else [head] + SplitAt(separator, t[|head| + 1..])
  }

  lemma {:induction false} HeadOfJoined(separator: Code, part: Text, rest: Text)
    requires separator !in part && (rest == [] || rest[0] == separator)
    ensures Head(separator, part + rest) == part
  {
    if part == [] {
      assert part + rest == rest;
    } else {
      assert (part + rest)[1..] == part[1..] + rest;
      HeadOfJoined(separator, part[1..], rest);
      assert part == [part[0]] + part[1..];
    }
  }

  lemma {:induction false} JoinedPartsSplit(separator: Code, parts: seq<Text>)
    requires parts != [] && forall i :: 0 <= i < |parts| ==> separator !in parts[i]
    ensures SplitAt(separator, Join(separator, parts)) == parts
    decreases |parts|
  {
    hide Head;
    if |parts| == 1 {
      HeadOfJoined(separator, parts[0], []);
      assert parts[0] + [] == parts[0];
    } else {
      var rest := Join(separator, parts[1..]);
      HeadOfJoined(separator, parts[0], [separator] + rest);
      assert (parts[0] + ([separator] + rest))[|parts[0]| + 1..] == rest;
      JoinedPartsSplit(separator, parts[1..]);
      assert parts == [parts[0]] + parts[1..];
    }
  }

  /** The six parts of the payload of an entry on one item, in their order. */
  lemma BarPayloadIsJoined(e: Event)
    ensures Join('|' as int, [IntText(e.index), e.evidenceId, e.actor, e.action, e.timestamp, e.prevHash])
         == BarPayload(e)
  {
    hide IntText, BarPayload, Join;
    var p6 := [e.prevHash];
    var p5 := [e.timestamp, e.prevHash];
    var p4 := [e.action, e.timestamp, e.prevHash];
    var p3 := [e.actor, e.action, e.timestamp, e.prevHash];
    var p2 := [e.evidenceId, e.actor, e.action, e.timestamp, e.prevHash];
    JoinOne('|' as int, e.prevHash);
    JoinMore('|' as int, e.timestamp, p6);
    JoinMore('|' as int, e.action, p5);
    JoinMore('|' as int, e.actor, p4);
    JoinMore('|' as int, e.evidenceId, p3);
    JoinMore('|' as int, IntText(e.index), p2);
    PayloadFromTheFront(e);
    assert [e.timestamp] + p6 == p5;
    assert [e.action] + p5 == p4;
    assert [e.actor] + p4 == p3;
    assert [e.evidenceId] + p3 == p2;
    assert [IntText(e.index)] + p2
        == [IntText(e.index), e.evidenceId, e.actor, e.action, e.timestamp, e.prevHash];
  }

  lemma JoinOne(separator: Code, part: Text)
    ensures Join(separator, [part]) == part
  {
  }

  lemma JoinMore(separator: Code, part: Text, rest: seq<Text>)
    requires rest != []
    ensures Join(separator, [part] + rest) == part + ([separator] + Join(separator, rest))
  {
    assert ([part] + rest)[1..] == rest;
  }

  /** The payload of an entry on one item, cut at its bars: the decimal index, the evidence id, the actor, the action,
      the timestamp and the previous hash, when none of these has a bar in it. */
  lemma BarPayloadReadsBack(e: Event)
    requires NoBars(e) && '|' as int !in e.prevHash
    ensures var parts := SplitAt('|' as int, BarPayload(e));
      && |parts| == 6
      && ReadNumber(parts[0]) == Some((e.index, []))
      && parts[1] == e.evidenceId && parts[2] == e.actor && parts[3] == e.action && parts[4] == e.timestamp
      && parts[5] == e.prevHash
  {
    hide IntText, BarPayload, Join, SplitAt, ReadNumber;
    BarPayloadIsJoined(e);
    NoBarInNumber(e.index);
    JoinedPartsSplit('|' as int, [IntText(e.index), e.evidenceId, e.actor, e.action, e.timestamp, e.prevHash]);
    NumberReads(e.index, []);
    assert IntText(e.index) + [] == IntText(e.index);
  }

  // ----- JSON objects

  datatype Value = Str(text: Text) | Num(number: int) | Strings(list: seq<Text>)

  datatype Field = Field(key: Text, value: Value)

  /** A string, a list of strings or a whole number at the start of a text, and what follows it. */
  function ReadValue(t: Text): (r: Option<(Value, Text)>)
    ensures r.Some? ==> |r.value.1| < |t|
  {
    if t == [] then None
    else if t[0] == '\"' as int then
      match Scan(t[1..])
      case None => None
      case Some((value, length)) => Some((Str(value), t[1 + length..]))
    else if t[0] == '[' as int then
      ArrayRestIsShorter(t);
      if ReadArray(t).ok && ArrayRest(t).Some? then Some((Strings(ReadArray(t).strings), ArrayRest(t).value)) else None
    else
      match ReadNumber(t)
      case None => None
      case Some((n, rest)) => Some((Num(n), rest))
  }

  lemma ArrayRestIsShorter(t: Text)
    ensures ArrayRest(t).Some? ==> |ArrayRest(t).value| < |t|
  {
    hide ItemsRest;
    var s := SkipSpace(t);
    if s != [] { ItemsRestIsShorter(s[1..], true); }
  }

  lemma {:induction false} ItemsRestIsShorter(t: Text, first: bool)
    ensures ItemsRest(t, first).Some? ==> |ItemsRest(t, first).value| < |t|
    decreases |t|
  {
    hide Scan;
    var s := SkipSpace(t);
    if s != [] && s[0] != CLOSE {
      if first {
        ItemRestIsShorter(s);
      } else if s[0] == COMMA {
        ItemRestIsShorter(SkipSpace(s[1..]));
      }
    }
  }

  lemma {:induction false} ItemRestIsShorter(s: Text)
    ensures ItemRest(s).Some? ==> |ItemRest(s).value| < |s|
    decreases |s|, 0
  {
    hide Scan;
    if s != [] && s[0] == QUOTE && Scan(s[1..]).Some? {
      ItemsRestIsShorter(s[1 + Scan(s[1..]).value.1..], false);
    }
  }

  /** A key, a colon and a value at the start of a text, and what follows them. */
  function ReadField(t: Text): (r: Option<(Field, Text)>)
    ensures r.Some? ==> |r.value.1| < |t|
  {
    var s := SkipSpace(t);
    if s == [] || s[0] != '\"' as int then None
    else
      match Scan(s[1..])
      case None => None
      case Some((key, length)) =>
        var colon := SkipSpace(s[1 + length..]);
        if colon == [] || colon[0] != ':' as int then None
        else
          match ReadValue(SkipSpace(colon[1..]))
          case None => None
          case Some((value, rest)) => Some((Field(key, value), rest))
  }

  /** The fields from a key on, up to the closing brace, and what follows that. */
  function ReadFields(t: Text): Option<(seq<Field>, Text)>
    decreases |t|
  {
    match ReadField(t)
    case None => None
    case Some((field, rest)) =>
      var next := SkipSpace(rest);
      if next == [] then None
      else if next[0] == '}' as int then Some(([field], next[1..]))
      else if next[0] != ',' as int then None
      else
        match ReadFields(next[1..])
        case None => None
        case Some((fields, end)) => Some(([field] + fields, end))
  }

  /** The fields of a JSON object with at least one, in the order of the text. None: the text is something else. */
  function ReadObject(t: Text): Option<seq<Field>> {
    var s := SkipSpace(t);
    if s == [] || s[0] != '{' as int then None
    else
      match ReadFields(s[1..])
      case None => None
      case Some((fields, end)) => if AllSpace(end) then Some(fields) else None
  }

  function DumpValue(v: Value): Text {
    match v
    case Str(text) => DumpString(text)
    case Num(n) => IntText(n)
    case Strings(list) => DumpList(list)
  }

  function DumpFields(fields: seq<Field>): Text
    requires fields != []
  {
    DumpString(fields[0].key) + ([58, 32] + (DumpValue(fields[0].value) +
      (if |fields| == 1 then [125] else [44, 32] + DumpFields(fields[1..]))))
  }

  /** `json.dumps` of a dictionary with at least one key. */
  function DumpObject(fields: seq<Field>): Text
    requires fields != []
  {
    [123] + DumpFields(fields)
  }

  function MergeValue(v: Value): Value {
    match v
    case Str(text) => Str(Merge(text))
    case Num(n) => v
    case Strings(list) => Strings(MergeAll(list))
  }

  function MergeFields(fields: seq<Field>): (merged: seq<Field>)
    ensures |merged| == |fields|
  {
    if fields == [] then []
    else [Field(Merge(fields[0].key), MergeValue(fields[0].value))] + MergeFields(fields[1..])
  }

  lemma StringReads(v: Text, rest: Text)
    ensures DumpString(v) + rest == [QUOTE] + (Body(DumpPieces(v)) + ([QUOTE] + rest))
    ensures var t := DumpString(v) + rest;
      Scan(t[1..]).Some? && Scan(t[1..]).value.0 == Merge(v) && t[1 + Scan(t[1..]).value.1..] == rest
  {
    hide Scan, Body, DumpPieces, Merge;
    var body := Body(DumpPieces(v));
    Quoted(body, rest);
    ScanReads(v, DumpPieces(v), [QUOTE] + rest);
    var t := DumpString(v) + rest;
    assert t[1..] == body + ([QUOTE] + rest);
    AfterQuoted(body, rest);
  }

  lemma AfterQuoted(body: Text, rest: Text)
    ensures ([QUOTE] + (body + ([QUOTE] + rest)))[1 + (|body| + 1)..] == rest
  {
  }

  lemma ListReads(list: seq<Text>, tail: Text)
    ensures ReadArray(DumpList(list) + tail) == Reading(MergeAll(list), true)
    ensures ArrayRest(DumpList(list) + tail) == Some(tail)
  {
    hide ReadArray, ArrayRest, DumpItems, MergeAll, ItemsText;
    var items := DumpedItems(list, true);
    ReadsBack(list, [], [], items, tail);
    assert ArrayText([], [], items, tail) == DumpList(list) + tail by {
      DumpedListStart(list, tail);
      NothingBefore([CLOSE] + tail);
      NothingBefore(DumpList(list) + tail);
      if list == [] {
        NoItems();
      } else {
        DumpedItemsText(list, true, tail);
        NothingBefore(DumpItems(list) + ([CLOSE] + tail));
      }
    }
  }

  lemma ValueReads(v: Value, rest: Text)
    requires NoDigitNext(rest)
    ensures ReadValue(DumpValue(v) + rest) == Some((MergeValue(v), rest))
    ensures !IsSpace((DumpValue(v) + rest)[0])
  {
    hide DumpString, DumpList, ReadArray, ArrayRest, Scan, Merge, MergeAll, ReadNumber;
    match v
    case Str(text) =>
      StringReads(text, rest);
    case Num(n) =>
      NumberReads(n, rest);
    case Strings(list) =>
      ListReads(list, rest);
      DumpedListStart(list, rest);
  }

  lemma FieldReads(field: Field, rest: Text)
    requires NoDigitNext(rest)
    ensures var t := DumpString(field.key) + ([58, 32] + (DumpValue(field.value) + rest));
      && ReadField(t) == Some((Field(Merge(field.key), MergeValue(field.value)), rest))
      && ReadField([32] + t) == ReadField(t)
  {
    hide DumpString, DumpValue, ReadValue, Scan, Merge, MergeValue, SkipSpace;
    var value := DumpValue(field.value) + rest;
    var t := DumpString(field.key) + ([58, 32] + value);
    StringReads(field.key, [58, 32] + value);
    ValueReads(field.value, rest);
    SkipsSpaces([], t);
    SkipsSpaces([32], t);
    NothingBefore(t);
    ColonSkips(value);
  }

  lemma ColonSkips(value: Text)
    requires value == [] || !IsSpace(value[0])
    ensures var colon := [58, 32] + value;
      SkipSpace(colon) == colon && SkipSpace(colon[1..]) == value
  {
    hide SkipSpace;
    var colon := [58, 32] + value;
    SkipsSpaces([], colon);
    NothingBefore(colon);
    SkipsSpaces([32], value);
    assert colon[1..] == [32] + value;
  }

  lemma LastField(t: Text, field: Field)
    requires ReadField(t) == Some((field, [125]))
    ensures ReadFields(t) == Some(([field], []))
  {
    hide ReadField, SkipSpace;
    SkipsSpaces([], [125]);
    NothingBefore([125]);
    assert [125][1..] == [];
  }

  lemma NextField(t: Text, field: Field, more: Text, fields: seq<Field>)
    requires ReadField(t) == Some((field, [44, 32] + more)) && ReadFields([32] + more) == Some((fields, []))
    ensures ReadFields(t) == Some(([field] + fields, []))
  {
    hide ReadField, SkipSpace;
    var next := [44, 32] + more;
    SkipsSpaces([], next);
    NothingBefore(next);
    assert next[1..] == [32] + more;
  }

  lemma {:induction false} FieldsRead(fields: seq<Field>)
    requires fields != []
    ensures ReadFields(DumpFields(fields)) == Some((MergeFields(fields), []))
    ensures ReadFields([32] + DumpFields(fields)) == Some((MergeFields(fields), []))
    decreases |fields|
  {
    hide DumpString, DumpValue, ReadField, ReadFields, Merge, MergeValue;
    var t, field := DumpFields(fields), Field(Merge(fields[0].key), MergeValue(fields[0].value));
    FieldReads(fields[0], if |fields| == 1 then [125] else [44, 32] + DumpFields(fields[1..]));
    if |fields| == 1 {
      LastField(t, field);
      LastField([32] + t, field);
      assert MergeFields(fields) == [field];
    } else {
      FieldsRead(fields[1..]);
      NextField(t, field, DumpFields(fields[1..]), MergeFields(fields[1..]));
      NextField([32] + t, field, DumpFields(fields[1..]), MergeFields(fields[1..]));
    }
  }

  /** What `json.dumps` writes for a dictionary reads back as its keys and values in order, surrogate pairs joined. */
  lemma ObjectReads(fields: seq<Field>)
    requires fields != []
    ensures ReadObject(DumpObject(fields)) == Some(MergeFields(fields))
  {
    hide ReadFields, DumpFields, SkipSpace, MergeFields;
    FieldsRead(fields);
    SkipsSpaces([], DumpObject(fields));
    NothingBefore(DumpObject(fields));
    assert DumpObject(fields)[1..] == DumpFields(fields);
  }

  // ----- the JSON form

  /** The fields of the payload of an entry on several items, in the order of their keys. */
  function PayloadFields(e: Event, ids: seq<Text>): seq<Field> {
    [Field(Ascii("action"), Str(e.action)),
     Field(Ascii("actor"), Str(e.actor)),
     Field(Ascii("case_number"), Str(OrEmpty(e.caseNumber))),
     Field(Ascii("evidence_ids"), Strings(ids)),
     Field(Ascii("index"), Num(e.index)),
     Field(Ascii("notes"), Str(OrEmpty(e.notes))),
     Field(Ascii("prev_hash"), Str(e.prevHash)),
     Field(Ascii("tag"), Str(OrEmpty(e.tag))),
     Field(Ascii("timestamp"), Str(e.timestamp))]
  }

  predicate IsPlain(c: Code) {
    0x20 <= c < 0x7F && c != QUOTE && c != BACKSLASH
  }

  /** Plain text is written between quotes as it is. */
  lemma {:induction false} PlainBody(t: Text)
    requires forall i :: 0 <= i < |t| ==> IsPlain(t[i])
    ensures Body(DumpPieces(t)) == t
  {
    if t != [] {
      PlainBody(t[1..]);
      assert DumpPieces(t)[1..] == DumpPieces(t[1..]);
      assert t == [t[0]] + t[1..];
    }
  }

  /** A brace or a comma, a key in quotes and a colon. */
  predicate IsKey(start: string, key: string, literal: string) {
    && (forall i :: 0 <= i < |key| ==> 'a' <= key[i] <= 'z' || key[i] == '_')
    && literal == start + ("\"" + key + "\": ")
  }

  lemma KeyLiterals()
    ensures IsKey("{", "action", "{\"action\": ") && IsKey(", ", "actor", ", \"actor\": ")
    ensures IsKey(", ", "case_number", ", \"case_number\": ")
    ensures IsKey(", ", "evidence_ids", ", \"evidence_ids\": ")
    ensures IsKey(", ", "index", ", \"index\": ")
  {
  }

  lemma LaterKeyLiterals()
    ensures IsKey(", ", "notes", ", \"notes\": ")
    ensures IsKey(", ", "prev_hash", ", \"prev_hash\": ") && IsKey(", ", "tag", ", \"tag\": ")
    ensures IsKey(", ", "timestamp", ", \"timestamp\": ")
  {
  }

  lemma KeyText(start: string, key: string, literal: string, rest: Text)
    requires IsKey(start, key, literal)
    ensures Ascii(literal) + rest == Ascii(start) + (DumpString(Ascii(key)) + ([58, 32] + rest))
  {
    hide Body, DumpPieces;
    PlainBody(Ascii(key));
    var quoted := DumpString(Ascii(key));
    assert Ascii(literal) == Ascii(start) + quoted + [58, 32];
    Regroup(Ascii(start), quoted, [58, 32], rest);
  }

  lemma LastFieldText(key: string, literal: string, value: Value)
    requires IsKey(", ", key, literal)
    ensures [44, 32] + DumpFields([Field(Ascii(key), value)]) == Ascii(literal) + (DumpValue(value) + Ascii("}"))
  {
    hide DumpString, DumpValue, IsKey;
    KeyText(", ", key, literal, DumpValue(value) + [125]);
    assert Ascii(", ") == [44, 32] && Ascii("}") == [125];
  }

  lemma FieldText(start: string, key: string, literal: string, value: Value, fields: seq<Field>, rest: Text)
    requires IsKey(start, key, literal)
    requires fields != [] && rest == [44, 32] + DumpFields(fields)
    ensures Ascii(start) + DumpFields([Field(Ascii(key), value)] + fields) == Ascii(literal) + (DumpValue(value) + rest)
  {
    hide DumpString, DumpValue, Ascii, IsKey;
    KeyText(start, key, literal, DumpValue(value) + rest);
    assert ([Field(Ascii(key), value)] + fields)[1..] == fields;
  }

  /** The fields from these on, as the payload writes them. */
  function FromPrevHash(e: Event): Text {
    Ascii(", \"prev_hash\": ") + (DumpString(e.prevHash) +
    (Ascii(", \"tag\": ") + (DumpString(OrEmpty(e.tag)) +
    (Ascii(", \"timestamp\": ") + (DumpString(e.timestamp) + Ascii("}"))))))
  }

  function FromIds(e: Event, ids: seq<Text>): Text {
    Ascii(", \"evidence_ids\": ") + (DumpList(ids) +
    (Ascii(", \"index\": ") + (IntText(e.index) +
    (Ascii(", \"notes\": ") + (DumpString(OrEmpty(e.notes)) + FromPrevHash(e))))))
  }

  lemma PrevHashOn(e: Event, fields: seq<Field>)
    requires fields == [Field(Ascii("prev_hash"), Str(e.prevHash)), Field(Ascii("tag"), Str(OrEmpty(e.tag))),
                        Field(Ascii("timestamp"), Str(e.timestamp))]
    ensures [44, 32] + DumpFields(fields) == FromPrevHash(e)
  {
    hide DumpString, DumpFields, Ascii, OrEmpty, IsKey;
    CommaText();
    KeyLiterals();
    LaterKeyLiterals();
    LastFieldText("timestamp", ", \"timestamp\": ", Str(e.timestamp));
    var last := [fields[2]];
    FieldText(", ", "tag", ", \"tag\": ", Str(OrEmpty(e.tag)), last, [44, 32] + DumpFields(last));
    var two := [fields[1]] + last;
    FieldText(", ", "prev_hash", ", \"prev_hash\": ", Str(e.prevHash), two, [44, 32] + DumpFields(two));
    assert fields == [fields[0]] + two;
  }

  lemma IdsOn(e: Event, ids: seq<Text>, fields: seq<Field>, end: seq<Field>)
    requires end != [] && [44, 32] + DumpFields(end) == FromPrevHash(e)
    requires fields == [Field(Ascii("evidence_ids"), Strings(ids))] + ([Field(Ascii("index"), Num(e.index))] +
                       ([Field(Ascii("notes"), Str(OrEmpty(e.notes)))] + end))
    ensures [44, 32] + DumpFields(fields) == FromIds(e, ids)
  {
    hide DumpString, DumpList, IntText, DumpFields, Ascii, OrEmpty, FromPrevHash, IsKey;
    CommaText();
    KeyLiterals();
    LaterKeyLiterals();
    FieldText(", ", "notes", ", \"notes\": ", Str(OrEmpty(e.notes)), end, [44, 32] + DumpFields(end));
    var one := [Field(Ascii("notes"), Str(OrEmpty(e.notes)))] + end;
    FieldText(", ", "index", ", \"index\": ", Num(e.index), one, [44, 32] + DumpFields(one));
    var two := [Field(Ascii("index"), Num(e.index))] + one;
    FieldText(", ", "evidence_ids", ", \"evidence_ids\": ", Strings(ids), two, [44, 32] + DumpFields(two));
  }

  lemma ActionOn(e: Event, ids: seq<Text>, fields: seq<Field>, end: seq<Field>)
    requires end != [] && [44, 32] + DumpFields(end) == FromIds(e, ids)
    requires fields == [Field(Ascii("action"), Str(e.action))] + ([Field(Ascii("actor"), Str(e.actor))] +
                       ([Field(Ascii("case_number"), Str(OrEmpty(e.caseNumber)))] + end))
    ensures DumpObject(fields) == JsonPayload(e, ids)
  {
    hide DumpString, DumpList, IntText, DumpFields, Ascii, OrEmpty, IsKey;
    CommaText();
    KeyLiterals();
    LaterKeyLiterals();
    FieldText(", ", "case_number", ", \"case_number\": ", Str(OrEmpty(e.caseNumber)), end,
      [44, 32] + DumpFields(end));
    var one := [Field(Ascii("case_number"), Str(OrEmpty(e.caseNumber)))] + end;
    FieldText(", ", "actor", ", \"actor\": ", Str(e.actor), one, [44, 32] + DumpFields(one));
    var two := [Field(Ascii("actor"), Str(e.actor))] + one;
    FieldText("{", "action", "{\"action\": ", Str(e.action), two, [44, 32] + DumpFields(two));
  }

  lemma CommaText()
    ensures Ascii(", ") == [44, 32] && Ascii("{") == [123]
  {
  }

  /** The payload of an entry on several items is what `json.dumps` writes for nine keys and the entry's fields. */
  lemma JsonPayloadIsDumped(e: Event, ids: seq<Text>)
    ensures DumpObject(PayloadFields(e, ids)) == JsonPayload(e, ids)
  {
    hide DumpFields, DumpObject, Ascii, JsonPayload, FromPrevHash, FromIds;
    var fields := PayloadFields(e, ids);
    PrevHashOn(e, fields[6..]);
    assert fields[3..] == [fields[3]] + ([fields[4]] + ([fields[5]] + fields[6..]));
    IdsOn(e, ids, fields[3..], fields[6..]);
    assert fields == [fields[0]] + ([fields[1]] + ([fields[2]] + fields[3..]));
    ActionOn(e, ids, fields, fields[3..]);
  }

  lemma {:induction false} MergedField(fields: seq<Field>, i: nat)
    requires i < |fields|
    ensures MergeFields(fields)[i] == Field(Merge(fields[i].key), MergeValue(fields[i].value))
  {
    hide Merge, MergeValue;
    if i > 0 { MergedField(fields[1..], i - 1); }
  }

  lemma PlainMerges(s: string)
    requires forall i :: 0 <= i < |s| ==> s[i] < 128 as char
    ensures Merge(Ascii(s)) == Ascii(s)
  {
    hide Merge;
    MergeIsIdentity(Ascii(s));
  }

  lemma OptionalMerges(t: Option<Text>)
    ensures Merge(OrEmpty(t)) == if t.Some? then Merge(t.value) else []
  {
  }

  /** The payload of an entry on several items, read as JSON text: nine keys in sorted order, each with its field of the
      entry. Surrogate pairs are joined, and an absent case number, tag or note reads as an empty one. */
  lemma JsonPayloadReadsBack(e: Event, ids: seq<Text>)
    ensures ReadObject(JsonPayload(e, ids)) == Some(
      [Field(Ascii("action"), Str(Merge(e.action))),
       Field(Ascii("actor"), Str(Merge(e.actor))),
       Field(Ascii("case_number"), Str(if e.caseNumber.Some? then Merge(e.caseNumber.value) else [])),
       Field(Ascii("evidence_ids"), Strings(MergeAll(ids))),
       Field(Ascii("index"), Num(e.index)),
       Field(Ascii("notes"), Str(if e.notes.Some? then Merge(e.notes.value) else [])),
       Field(Ascii("prev_hash"), Str(Merge(e.prevHash))),
       Field(Ascii("tag"), Str(if e.tag.Some? then Merge(e.tag.value) else [])),
       Field(Ascii("timestamp"), Str(Merge(e.timestamp)))])
  {
    hide ReadObject, DumpObject, JsonPayload, Ascii, Merge, MergeAll;
    JsonPayloadIsDumped(e, ids);
    var fields := PayloadFields(e, ids);
    ObjectReads(fields);
    FieldsMerge(e, ids);
  }

  /** The keys of the payload are in the order of `sort_keys`, each once. */
  lemma KeysAreSorted(e: Event, ids: seq<Text>)
    ensures var keys := MergeFields(PayloadFields(e, ids));
      |keys| == 9 && forall i :: 0 <= i < 8 ==> Less(keys[i].key, keys[i + 1].key)
  {
    hide Merge, MergeAll, MergeFields, OrEmpty;
    FieldsMerge(e, ids);
    LessAtOnce("actor", "case_number");
    LessAtOnce("case_number", "evidence_ids");
    LessAtOnce("evidence_ids", "index");
    LessAtOnce("index", "notes");
    LessAtOnce("notes", "prev_hash");
    LessAtOnce("prev_hash", "tag");
    ActionBeforeActor();
    TagBeforeTimestamp();
  }

  lemma LessAtOnce(a: string, b: string)
    requires a != [] && b != [] && a[0] < b[0] < 128 as char
    ensures Less(Ascii(a), Ascii(b))
  {
  }

  lemma LessLater(a: Text, b: Text, n: nat)
    requires n <= |a| && n <= |b| && a[..n] == b[..n] && Less(a[n..], b[n..])
    ensures Less(a, b)
  {
    if n > 0 {
      assert a[0] == a[..n][0] && b[0] == b[..n][0];
      assert a[1..][..n - 1] == a[..n][1..] && b[1..][..n - 1] == b[..n][1..];
      assert a[1..][n - 1..] == a[n..] && b[1..][n - 1..] == b[n..];
      LessLater(a[1..], b[1..], n - 1);
    }
  }

  lemma ActionBeforeActor()
    ensures Less(Ascii("action"), Ascii("actor"))
  {
    LessLater(Ascii("action"), Ascii("actor"), 3);
  }

  lemma TagBeforeTimestamp()
    ensures Less(Ascii("tag"), Ascii("timestamp"))
  {
    LessLater(Ascii("tag"), Ascii("timestamp"), 1);
  }

  lemma FieldsMerge(e: Event, ids: seq<Text>)
    ensures MergeFields(PayloadFields(e, ids)) ==
      [Field(Ascii("action"), Str(Merge(e.action))),
       Field(Ascii("actor"), Str(Merge(e.actor))),
       Field(Ascii("case_number"), Str(if e.caseNumber.Some? then Merge(e.caseNumber.value) else [])),
       Field(Ascii("evidence_ids"), Strings(MergeAll(ids))),
       Field(Ascii("index"), Num(e.index)),
       Field(Ascii("notes"), Str(if e.notes.Some? then Merge(e.notes.value) else [])),
       Field(Ascii("prev_hash"), Str(Merge(e.prevHash))),
       Field(Ascii("tag"), Str(if e.tag.Some? then Merge(e.tag.value) else [])),
       Field(Ascii("timestamp"), Str(Merge(e.timestamp)))]
  {
    hide Ascii, Merge, MergeAll, MergeFields, OrEmpty;
    var fields := PayloadFields(e, ids);
    forall i | 0 <= i < |fields|
      ensures MergeFields(fields)[i] == Field(Merge(fields[i].key), MergeValue(fields[i].value))
    {
      MergedField(fields, i);
    }
    PlainMerges("action");
    PlainMerges("actor");
    PlainMerges("case_number");
    PlainMerges("evidence_ids");
    PlainMerges("index");
    PlainMerges("notes");
    PlainMerges("prev_hash");
    PlainMerges("tag");
    PlainMerges("timestamp");
    OptionalMerges(e.caseNumber);
    OptionalMerges(e.notes);
    OptionalMerges(e.tag);
  }
}
