/** Which texts the array reader accepts: exactly the arrays of strings, with anything at all after them. */
module JsonAcceptance {
  import opened Wrappers
  import opened Texts
  import opened Json
  import opened JsonArrays

  /** The text is some array of strings, written in some way, with `tail` after it. */
  ghost predicate Renders(t: Text, tail: Text) {
    exists list, lead, inner, items :: RendersAs(t, list, lead, inner, items, tail)
  }

  ghost predicate RendersAs(t: Text, list: seq<Text>, lead: Text, inner: Text, items: seq<Item>, tail: Text) {
    AllSpace(lead) && AllSpace(inner) && WritesList(list, items) && t == ArrayText(lead, inner, items, tail)
  }

  /** A JSON array of strings and nothing else. */
  ghost predicate IsStringArray(t: Text) {
    exists tail :: AllSpace(tail) && Renders(t, tail)
  }

  lemma {:induction false} SpacesSkipped(t: Text) returns (spaces: Text)
    ensures AllSpace(spaces) && t == spaces + SkipSpace(t)
  {
    if t != [] && IsSpace(t[0]) {
      var more := SpacesSkipped(t[1..]);
      spaces := [t[0]] + more;
      assert t == [t[0]] + t[1..];
      assert [t[0]] + (more + SkipSpace(t)) == ([t[0]] + more) + SkipSpace(t);
    } else {
      spaces := [];
      assert t == [] + t;
    }
  }

  /** One more character in front of a written string. */
  lemma OnePiece(c: Code, piece: Text, v: Text, pieces: seq<Text>, tail: Text)
    requires Writes(c, piece) && WritesAll(v, pieces)
    ensures WritesAll([c] + v, [piece] + pieces)
    ensures Body([piece] + pieces) + tail == piece + (Body(pieces) + tail)
  {
    hide Writes;
    var all := [piece] + pieces;
    assert all[0] == piece && all[1..] == pieces;
    BodySplit(all, tail);
    forall i | 0 <= i < |all| ensures Writes(([c] + v)[i], all[i]) {
      if i > 0 { assert ([c] + v)[i] == v[i - 1] && all[i] == pieces[i - 1]; }
    }
  }

  /** The piece that a string starts with, and the code it writes. Of two `\u` escapes that are read together it is
      the first. */
  function FirstPiece(s: Text): (length: nat)
    requires Scan(s).Some? && s[0] != QUOTE
    ensures 0 < length <= |s|
  {
    if s[0] != BACKSLASH then 1 else if s[1] == LETTER_U then 6 else 2
  }

  function FirstCode(s: Text): Code
    requires Scan(s).Some? && s[0] != QUOTE
  {
    if s[0] != BACKSLASH then s[0]
    else if s[1] == LETTER_U then UnicodeEscape(s).value
    else ShortEscape(s[1]).value
  }

  lemma FirstPieceWrites(s: Text)
    requires IsUnicode(s) && Scan(s).Some? && s[0] != QUOTE
    ensures Writes(FirstCode(s), s[..FirstPiece(s)])
  {
    if s[0] == BACKSLASH && s[1] == LETTER_U { EscapeAtStart(s[..6], s[6..]); assert s == s[..6] + s[6..]; }
  }

  lemma ScanAfterPiece(s: Text)
    requires Scan(s).Some? && s[0] != QUOTE
    ensures var rest := s[FirstPiece(s)..];
      Scan(rest).Some? && Scan(s).value.1 == FirstPiece(s) + Scan(rest).value.1
  {
    if s[0] == BACKSLASH && s[1] == LETTER_U && |s| >= 12 && s[6] == BACKSLASH && s[7] == LETTER_U {
      var rest := s[6..];
      assert rest[0] == BACKSLASH && rest[1] == LETTER_U && rest[6..] == s[12..];
    }
  }

  /** Whatever the scanner reads is some string as it may be written, up to a closing quote. */
  lemma {:induction false} ScannedIsWritten(s: Text) returns (v: Text, pieces: seq<Text>)
    requires IsUnicode(s) && Scan(s).Some?
    ensures WritesAll(v, pieces) && s == Body(pieces) + ([QUOTE] + s[Scan(s).value.1..])
    decreases |s|
  {
    if s[0] == QUOTE {
      v, pieces := NothingWritten(s);
    } else {
      hide Scan, Writes, Body, FirstCode, FirstPiece;
      var n := FirstPiece(s);
      FirstPieceWrites(s);
      ScanAfterPiece(s);
      v, pieces := ScannedIsWritten(s[n..]);
      var end := Scan(s).value.1;
      assert s[n..][end - n..] == s[end..];
      OnePiece(FirstCode(s), s[..n], v, pieces, [QUOTE] + s[end..]);
      assert s == s[..n] + s[n..];
      v, pieces := [FirstCode(s)] + v, [s[..n]] + pieces;
    }
  }

  lemma NothingWritten(s: Text) returns (v: Text, pieces: seq<Text>)
    requires s != [] && s[0] == QUOTE
    ensures Scan(s).Some? && WritesAll(v, pieces) && s == Body(pieces) + ([QUOTE] + s[Scan(s).value.1..])
  {
    v, pieces := [], [];
    assert s == [] + ([QUOTE] + s[1..]);
  }

  /** Other spaces in front of the first item. */
  lemma NewSpaces(items: seq<Item>, before: Text, tail: Text) returns (moved: seq<Item>)
    requires items != [] && items[0].before == []
    ensures |moved| == |items| && moved[0] == items[0].(before := before) && moved[1..] == items[1..]
    ensures ItemsText(moved, tail) == before + ItemsText(items, tail)
  {
    moved := [items[0].(before := before)] + items[1..];
    hide Body;
    var rest := [QUOTE] + (Body(items[0].pieces) + ([QUOTE] + (items[0].after +
      (if |items| == 1 then [CLOSE] + tail else [COMMA] + ItemsText(items[1..], tail)))));
    assert ItemsText(items, tail) == [] + rest == rest;
  }

  /** A string that is the last item, or is followed by a comma and more items. */
  lemma LastItem(s: Text, v: Text, pieces: seq<Text>, after: Text, rest: Text)
    returns (list: seq<Text>, items: seq<Item>)
    requires WritesAll(v, pieces) && AllSpace(after)
    requires s == [QUOTE] + (Body(pieces) + ([QUOTE] + (after + ([CLOSE] + rest))))
    ensures items != [] && items[0].before == [] && WritesList(list, items) && s == ItemsText(items, rest)
  {
    hide Body, WritesAll;
    list, items := [v], [Item([], pieces, after)];
    assert s == [] + s;
  }

  lemma MoreItems(s: Text, v: Text, pieces: seq<Text>, after: Text, before: Text, list: seq<Text>, items: seq<Item>,
                  tail: Text)
    returns (list': seq<Text>, items': seq<Item>)
    requires WritesAll(v, pieces) && AllSpace(after) && AllSpace(before)
    requires items != [] && items[0].before == [] && WritesList(list, items)
    requires s == [QUOTE] + (Body(pieces) + ([QUOTE] + (after + ([COMMA] + (before + ItemsText(items, tail))))))
    ensures items' != [] && items'[0].before == [] && WritesList(list', items') && s == ItemsText(items', tail)
  {
    hide Body, WritesAll, ItemsText;
    var moved := NewSpaces(items, before, tail);
    list', items' := [v] + list, [Item([], pieces, after)] + moved;
    forall i | 0 <= i < |list'| ensures WritesItem(list'[i], items'[i]) {
      if i > 0 {
        assert list'[i] == list[i - 1] && items'[i] == moved[i - 1] && WritesItem(list[i - 1], items[i - 1]);
        if i > 1 { assert moved[i - 1] == moved[1..][i - 2] == items[1..][i - 2] == items[i - 1]; }
      }
    }
    assert items'[1..] == moved;
    FirstItemText(items', tail, s);
  }

  lemma FirstItemText(items: seq<Item>, tail: Text, s: Text)
    requires |items| >= 2 && items[0].before == []
    requires s == [QUOTE] + (Body(items[0].pieces) +
             ([QUOTE] + (items[0].after + ([COMMA] + ItemsText(items[1..], tail)))))
    ensures s == ItemsText(items, tail)
  {
    hide Body;
    assert s == [] + s;
  }

  /** Whatever is read as items is a list of items as it may be written, up to a closing bracket. */
  lemma {:induction false} ReadIsWritten(s: Text) returns (list: seq<Text>, items: seq<Item>, tail: Text)
    requires IsUnicode(s) && ReadItem(s).ok
    ensures items != [] && items[0].before == [] && WritesList(list, items) && s == ItemsText(items, tail)
    decreases |s|
  {
    hide Scan, Body, WritesAll, SkipSpace, WritesItem, ItemsText;
    var v, pieces := ScannedIsWritten(s[1..]);
    var rest := s[1 + Scan(s[1..]).value.1..];
    assert s == [QUOTE] + s[1..] && s[1..][Scan(s[1..]).value.1..] == rest;
    var after := SpacesSkipped(rest);
    var next := SkipSpace(rest);
    assert next == [next[0]] + next[1..];
    if next[0] == CLOSE {
      tail := next[1..];
      list, items := LastItem(s, v, pieces, after, tail);
    } else {
      var before := SpacesSkipped(next[1..]);
      var more := SkipSpace(next[1..]);
      UnicodeParts(s, 1 + Scan(s[1..]).value.1, after, next, before, more);
      list, items, tail := ReadIsWritten(more);
      list, items := MoreItems(s, v, pieces, after, before, list, items, tail);
    }
  }

  lemma UnicodeParts(s: Text, n: nat, after: Text, next: Text, before: Text, more: Text)
    requires IsUnicode(s) && n <= |s| && s[n..] == after + next && next != [] && next[1..] == before + more
    ensures IsUnicode(more) && (n > 0 ==> |more| < |s|)
  {
    var k := n + |after| + 1 + |before|;
    assert s[n..][|after|..] == next && next[1..][|before|..] == more;
    assert more == s[k..];
  }

  /** Whatever is read to its end is an array as it may be written. */
  lemma AcceptedIsRendering(t: Text) returns (tail: Text)
    requires IsUnicode(t) && ReadArray(t).ok
    ensures Renders(t, tail)
  {
    hide Body, Scan, SkipSpace, WritesList, ItemsText;
    var lead := SpacesSkipped(t);
    var s := SkipSpace(t);
    assert s == [OPEN] + s[1..];
    var inner := SpacesSkipped(s[1..]);
    var next := SkipSpace(s[1..]);
    if next[0] == CLOSE {
      tail := next[1..];
      assert next == [CLOSE] + tail;
      NoStrings();
      assert RendersAs(t, [], lead, inner, [], tail);
    } else {
      UnicodeParts(t, 0, lead, s, inner, next);
      var list, items;
      list, items, tail := ReadIsWritten(next);
      var moved := NewSpaces(items, inner, tail);
      SameStrings(list, items, moved);
      assert RendersAs(t, list, lead, [], moved, tail);
    }
  }

  lemma NoStrings()
    ensures WritesList([], [])
  {
  }

  lemma SameStrings(list: seq<Text>, items: seq<Item>, moved: seq<Item>)
    requires WritesList(list, items) && items != [] && |moved| == |items| && moved[1..] == items[1..]
    requires moved[0] == items[0].(before := moved[0].before) && AllSpace(moved[0].before)
    ensures WritesList(list, moved)
  {
    hide WritesAll;
    assert WritesItem(list[0], items[0]);
    forall i | 0 < i < |moved| ensures moved[i] == items[i] {
      assert moved[i] == moved[1..][i - 1];
    }
  }

  /** Acceptance, exactly: some list of strings, written in some way as an array, with anything after it. */
  lemma AcceptsExactly(t: Text)
    requires IsUnicode(t)
    ensures ReadArray(t).ok <==> exists tail :: Renders(t, tail)
  {
    hide ReadArray, Renders;
    if ReadArray(t).ok {
      var tail := AcceptedIsRendering(t);
    }
    forall tail | Renders(t, tail) ensures ReadArray(t).ok {
      RenderingIsRead(t, tail);
    }
  }

  lemma RenderingIsRead(t: Text, tail: Text)
    requires Renders(t, tail)
    ensures ReadArray(t).ok && ArrayRest(t) == Some(tail)
  {
    hide ReadArray, ArrayRest, ArrayText, WritesList;
    var list, lead, inner, items :| RendersAs(t, list, lead, inner, items, tail);
    ReadsBack(list, lead, inner, items, tail);
  }

  /** An array of strings and nothing else, exactly: what is read to its end and leaves only spaces. `json.loads`
      accepts these. */
  lemma StringArraysExactly(t: Text)
    requires IsUnicode(t)
    ensures IsStringArray(t) <==> ArrayRest(t).Some? && AllSpace(ArrayRest(t).value)
    ensures IsStringArray(t) <==> LoadList(t).Some?
  {
    hide ReadArray, ArrayRest, Renders;
    RestIsReached(t);
    if ReadArray(t).ok {
      var tail := AcceptedIsRendering(t);
      RenderingIsRead(t, tail);
    }
    forall tail | Renders(t, tail) ensures ReadArray(t).ok && ArrayRest(t) == Some(tail) {
      RenderingIsRead(t, tail);
    }
  }

  /** When anything else is refused, exactly: unless something other than spaces follows the closing bracket. */
  lemma RefusesAnythingElse(t: Text)
    requires IsUnicode(t)
    ensures (!IsStringArray(t) ==> !ReadArray(t).ok) <==> (ArrayRest(t).Some? ==> AllSpace(ArrayRest(t).value))
  {
    hide ReadArray, ArrayRest, IsStringArray, LoadList;
    RestIsReached(t);
    StringArraysExactly(t);
  }

  /** `[]x` is accepted, as an empty list. */
  lemma TrailingTextIsAccepted()
    ensures var t := Ascii("[]x"); ReadArray(t) == Reading([], true) && !IsStringArray(t)
  {
    hide IsStringArray, LoadList;
    var t := Ascii("[]x");
    assert t == [OPEN, CLOSE, 120] && SkipSpace(t) == t && t[1..] == [CLOSE, 120] && t[1..][1..] == [120];
    assert SkipSpace(t[1..]) == t[1..];
    var rest: Text := [120];
    assert ArrayRest(t) == Some(rest) && !IsSpace(rest[0]);
    assert !AllSpace(rest);
    StringArraysExactly(t);
  }

  // ----- every rendering can be encoded

  lemma PieceIsUnicode(c: Code, piece: Text)
    requires Writes(c, piece)
    ensures IsUnicode(piece)
  {
    if |piece| == 12 {
      EscapeIsAscii(piece[..6]);
      EscapeIsAscii(piece[6..]);
      assert piece == piece[..6] + piece[6..];
    } else if |piece| == 6 {
      EscapeIsAscii(piece);
    }
  }

  lemma EscapeIsAscii(piece: Text)
    requires |piece| == 6 && UnicodeEscape(piece).Some?
    ensures forall i :: 0 <= i < 6 ==> piece[i] < 128
  {
  }

  lemma JoinIsUnicode(a: Text, b: Text)
    ensures IsUnicode(a) && IsUnicode(b) ==> IsUnicode(a + b)
  {
  }

  lemma {:induction false} BodyIsUnicode(v: Text, pieces: seq<Text>)
    requires WritesAll(v, pieces)
    ensures IsUnicode(Body(pieces))
  {
    hide Writes, IsUnicode;
    if pieces == [] {
      NothingIsUnicode();
    } else {
      PieceIsUnicode(v[0], pieces[0]);
      BodyIsUnicode(v[1..], pieces[1..]);
      JoinIsUnicode(pieces[0], Body(pieces[1..]));
    }
  }

  lemma NothingIsUnicode()
    ensures IsUnicode([])
  {
  }

  lemma MarksAreUnicode(spaces: Text)
    requires AllSpace(spaces)
    ensures IsUnicode([QUOTE]) && IsUnicode([COMMA]) && IsUnicode([OPEN]) && IsUnicode([CLOSE]) && IsUnicode(spaces)
  {
  }

  lemma {:induction false} ItemsAreUnicode(list: seq<Text>, items: seq<Item>, tail: Text)
    requires items != [] && WritesList(list, items) && IsUnicode(tail)
    ensures IsUnicode(ItemsText(items, tail))
    decreases |items|
  {
    hide Body, WritesAll, IsUnicode, AllSpace;
    var item := items[0];
    assert WritesItem(list[0], item);
    MarksAreUnicode(item.before);
    MarksAreUnicode(item.after);
    BodyIsUnicode(list[0], item.pieces);
    var rest;
    if |items| == 1 {
      rest := [CLOSE] + tail;
      JoinIsUnicode([CLOSE], tail);
    } else {
      assert WritesList(list[1..], items[1..]);
      ItemsAreUnicode(list[1..], items[1..], tail);
      rest := [COMMA] + ItemsText(items[1..], tail);
      JoinIsUnicode([COMMA], ItemsText(items[1..], tail));
    }
    JoinIsUnicode(item.after, rest);
    JoinIsUnicode([QUOTE], item.after + rest);
    JoinIsUnicode(Body(item.pieces), [QUOTE] + (item.after + rest));
    JoinIsUnicode([QUOTE], Body(item.pieces) + ([QUOTE] + (item.after + rest)));
    JoinIsUnicode(item.before, [QUOTE] + (Body(item.pieces) + ([QUOTE] + (item.after + rest))));
  }

  lemma RenderingIsUnicode(list: seq<Text>, lead: Text, inner: Text, items: seq<Item>, tail: Text)
    requires AllSpace(lead) && AllSpace(inner) && WritesList(list, items) && IsUnicode(tail)
    ensures IsUnicode(ArrayText(lead, inner, items, tail))
  {
    hide IsUnicode, AllSpace, WritesList, ItemsText;
    MarksAreUnicode(lead);
    MarksAreUnicode(inner);
    var rest := if items == [] then inner + ([CLOSE] + tail) else ItemsText(items, tail);
    if items == [] {
      JoinIsUnicode([CLOSE], tail);
      JoinIsUnicode(inner, [CLOSE] + tail);
    } else {
      ItemsAreUnicode(list, items, tail);
    }
    JoinIsUnicode([OPEN], rest);
    JoinIsUnicode(lead, [OPEN] + rest);
  }
}
