/** A JSON array of strings as a whole text: reading it, and every way of writing it. */
module JsonArrays {
  import opened Wrappers
  import opened Texts
  import opened Json

  predicate IsSpace(c: Code): (space: bool)
    ensures space <==> c in {' ' as int, '\t' as int, '\n' as int, '\r' as int}
  {
    c == 32 || c == 9 || c == 13 || c == 10
  }

  predicate AllSpace(t: Text) {
    forall i :: 0 <= i < |t| ==> IsSpace(t[i])
  }

  function SkipSpace(t: Text): (rest: Text)
    ensures |rest| <= |t|
    ensures rest != [] ==> !IsSpace(rest[0])
  {
    if t != [] && IsSpace(t[0]) then SkipSpace(t[1..]) else t
  }

  /** The strings that were read before the end or the error, and whether the array was read to its end. */
  datatype Reading = Reading(strings: seq<Text>, ok: bool)

  function Push(s: Text, r: Reading): Reading {
    Reading([s] + r.strings, r.ok)
  }

  /** Reading an array text, from its first character on. Whatever follows the closing bracket is not looked at. */
  function ReadArray(t: Text): Reading {
    var s := SkipSpace(t);
    if s == [] || s[0] != OPEN then Reading([], false) else ReadItems(s[1..], true)
  }

  /** Reading from after the opening bracket (`first`) or after an item. */
  function ReadItems(t: Text, first: bool): Reading
    decreases |t|
  {
    var s := SkipSpace(t);
    if s == [] then Reading([], false)
    else if s[0] == CLOSE then Reading([], true)
    else if first then ReadItem(s)
    else if s[0] != COMMA then Reading([], false)
    else ReadItem(SkipSpace(s[1..]))
  }

  function ReadItem(s: Text): Reading
    decreases |s|, 0
  {
    if s == [] || s[0] != QUOTE then Reading([], false)
    else
      match Scan(s[1..])
      case None => Reading([], false)
      case Some((value, length)) => Push(value, ReadItems(s[1 + length..], false))
  }

  /** What follows the closing bracket. None: the text does not get that far. */
  function ArrayRest(t: Text): Option<Text> {
    var s := SkipSpace(t);
    if s == [] || s[0] != OPEN then None else ItemsRest(s[1..], true)
  }

  function ItemsRest(t: Text, first: bool): Option<Text>
    decreases |t|
  {
    var s := SkipSpace(t);
    if s == [] then None
    else if s[0] == CLOSE then Some(s[1..])
    else if first then ItemRest(s)
    else if s[0] != COMMA then None
    else ItemRest(SkipSpace(s[1..]))
  }

  function ItemRest(s: Text): Option<Text>
    decreases |s|, 0
  {
    if s == [] || s[0] != QUOTE || Scan(s[1..]).None? then None
    else ItemsRest(s[1 + Scan(s[1..]).value.1..], false)
  }

  /** Reading gets to the end exactly when something, or nothing, follows the closing bracket. */
  lemma RestIsReached(t: Text)
    ensures ReadArray(t).ok <==> ArrayRest(t).Some?
  {
    hide Scan;
    var s := SkipSpace(t);
    if s != [] { ItemsRestIsReached(s[1..], true); }
  }

  lemma {:induction false} ItemsRestIsReached(t: Text, first: bool)
    ensures ReadItems(t, first).ok <==> ItemsRest(t, first).Some?
    decreases |t|
  {
    hide Scan;
    var s := SkipSpace(t);
    if s != [] && s[0] != CLOSE {
      if first {
        ItemRestIsReached(s);
      } else if s[0] == COMMA {
        ItemRestIsReached(SkipSpace(s[1..]));
      }
    }
  }

  lemma {:induction false} ItemRestIsReached(s: Text)
    ensures ReadItem(s).ok <==> ItemRest(s).Some?
    decreases |s|, 0
  {
    hide Scan;
    if s != [] && s[0] == QUOTE && Scan(s[1..]).Some? {
      ItemsRestIsReached(s[1 + Scan(s[1..]).value.1..], false);
    }
  }

  // ----- writing

  /** One item as written: the pieces of its string, and the spaces before and after it. */
  datatype Item = Item(before: Text, pieces: seq<Text>, after: Text)

  predicate WritesItem(v: Text, item: Item) {
    WritesAll(v, item.pieces) && AllSpace(item.before) && AllSpace(item.after)
  }

  predicate WritesList(list: seq<Text>, items: seq<Item>) {
    |list| == |items| && forall i :: 0 <= i < |list| ==> WritesItem(list[i], items[i])
  }

  /** The text from an item to the end of the array, and what follows the array. */
  function ItemsText(items: seq<Item>, tail: Text): Text
    requires items != []
  {
    items[0].before + ([QUOTE] + (Body(items[0].pieces) + ([QUOTE] + (items[0].after +
      (if |items| == 1 then [CLOSE] + tail else [COMMA] + ItemsText(items[1..], tail))))))
  }

  /** An array as written: the spaces before the bracket, those inside an empty array, the items, and
      whatever follows. */
  function ArrayText(lead: Text, inner: Text, items: seq<Item>, tail: Text): Text {
    lead + ([OPEN] + (if items == [] then inner + ([CLOSE] + tail) else ItemsText(items, tail)))
  }

  function MergeAll(list: seq<Text>): (merged: seq<Text>)
    ensures |merged| == |list|
  {
    if list == [] then [] else [Merge(list[0])] + MergeAll(list[1..])
  }

  lemma {:induction false} SkipsSpaces(spaces: Text, rest: Text)
    requires AllSpace(spaces) && (rest == [] || !IsSpace(rest[0]))
    ensures SkipSpace(spaces + rest) == rest
  {
    if spaces == [] {
      assert spaces + rest == rest;
    } else {
      assert (spaces + rest)[1..] == spaces[1..] + rest;
      SkipsSpaces(spaces[1..], rest);
    }
  }

  /** Every way of writing a list of strings as an array reads back as that list, surrogate pairs joined, and leaves
      what follows the array. */
  lemma ReadsBack(list: seq<Text>, lead: Text, inner: Text, items: seq<Item>, tail: Text)
    requires AllSpace(lead) && AllSpace(inner) && WritesList(list, items)
    ensures ReadArray(ArrayText(lead, inner, items, tail)) == Reading(MergeAll(list), true)
    ensures ArrayRest(ArrayText(lead, inner, items, tail)) == Some(tail)
  {
    hide ReadItems, ItemsRest, ItemsText, SkipSpace, WritesItem, MergeAll;
    var rest := if items == [] then inner + ([CLOSE] + tail) else ItemsText(items, tail);
    SkipsSpaces(lead, [OPEN] + rest);
    assert ([OPEN] + rest)[1..] == rest;
    if items == [] {
      SkipsSpaces(inner, [CLOSE] + tail);
      ReadClose(rest, tail, true);
      NothingToMerge(list);
    } else {
      ItemsReadBack(list, items, tail);
      FirstItem(items, tail);
    }
  }

  lemma NothingToMerge(list: seq<Text>)
    requires list == []
    ensures MergeAll(list) == []
  {
  }

  lemma ReadClose(t: Text, tail: Text, first: bool)
    requires SkipSpace(t) == [CLOSE] + tail
    ensures ReadItems(t, first) == Reading([], true) && ItemsRest(t, first) == Some(tail)
  {
    assert ([CLOSE] + tail)[1..] == tail;
  }

  /** The first item of an array is read without a comma. */
  lemma FirstItem(items: seq<Item>, tail: Text)
    requires items != [] && AllSpace(items[0].before)
    ensures ReadItems(ItemsText(items, tail), true) == ReadItem(SkipSpace(ItemsText(items, tail)))
    ensures ItemsRest(ItemsText(items, tail), true) == ItemRest(SkipSpace(ItemsText(items, tail)))
  {
    hide ReadItem, ItemRest, Body;
    var rest := [QUOTE] + (Body(items[0].pieces) + ([QUOTE] + (items[0].after +
      (if |items| == 1 then [CLOSE] + tail else [COMMA] + ItemsText(items[1..], tail)))));
    SkipsSpaces(items[0].before, rest);
  }

  lemma {:induction false} ItemsReadBack(list: seq<Text>, items: seq<Item>, tail: Text)
    requires items != [] && WritesList(list, items)
    ensures AllSpace(items[0].before)
    ensures ReadItem(SkipSpace(ItemsText(items, tail))) == Reading(MergeAll(list), true)
    ensures ItemRest(SkipSpace(ItemsText(items, tail))) == Some(tail)
    decreases |items|
  {
    hide Scan, Body, SkipSpace, ReadItems, ItemsRest, Merge, WritesAll;
    var item := items[0];
    var end :=
      [QUOTE] + (item.after + (if |items| == 1 then [CLOSE] + tail else [COMMA] + ItemsText(items[1..], tail)));
    SkipsSpaces(item.before, [QUOTE] + (Body(item.pieces) + end));
    ScanReads(list[0], item.pieces, end);
    var s := [QUOTE] + (Body(item.pieces) + end);
    assert s[1..] == Body(item.pieces) + end;
    assert s[1 + (|Body(item.pieces)| + 1)..] == end[1..];
    if |items| == 1 {
      SkipsSpaces(item.after, [CLOSE] + tail);
      ReadClose(end[1..], tail, false);
      assert MergeAll(list) == [Merge(list[0])];
    } else {
      var rest := ItemsText(items[1..], tail);
      SkipsSpaces(item.after, [COMMA] + rest);
      ItemsReadBack(list[1..], items[1..], tail);
      ReadComma(end[1..], rest);
    }
  }

  lemma ReadComma(t: Text, rest: Text)
    requires SkipSpace(t) == [COMMA] + rest
    ensures ReadItems(t, false) == ReadItem(SkipSpace(rest)) && ItemsRest(t, false) == ItemRest(SkipSpace(rest))
  {
    assert ([COMMA] + rest)[1..] == rest;
  }

  /** Reading gives back exactly the list when none of its strings has a surrogate pair in two pieces. */
  lemma {:induction false} MergeAllIsIdentity(list: seq<Text>)
    ensures MergeAll(list) == list <==> forall i :: 0 <= i < |list| ==> NoSurrogatePair(list[i])
  {
    if list != [] {
      MergeIsIdentity(list[0]);
      MergeAllIsIdentity(list[1..]);
      assert list == [list[0]] + list[1..];
      assert MergeAll(list) == list <==> Merge(list[0]) == list[0] && MergeAll(list[1..]) == list[1..] by {
        assert MergeAll(list)[0] == Merge(list[0]) && MergeAll(list)[1..] == MergeAll(list[1..]);
      }
    }
  }

  /** The round trip: any way of writing a list as an array reads back as exactly that list if and only if no
      string of it has a surrogate pair in two pieces. */
  lemma RoundTrip(list: seq<Text>, lead: Text, inner: Text, items: seq<Item>, tail: Text)
    requires AllSpace(lead) && AllSpace(inner) && WritesList(list, items)
    ensures ReadArray(ArrayText(lead, inner, items, tail)) == Reading(list, true) <==>
            forall i :: 0 <= i < |list| ==> NoSurrogatePair(list[i])
  {
    hide ReadArray, ArrayText;
    ReadsBack(list, lead, inner, items, tail);
    MergeAllIsIdentity(list);
  }

  // ----- json.dumps and json.loads of a list

  /** How `json.dumps` writes the items: a space after each comma. */
  function DumpedItems(list: seq<Text>, first: bool): (items: seq<Item>)
    ensures WritesList(list, items)
  {
    if list == [] then []
    else [Item(if first then [] else [32], DumpPieces(list[0]), [])] + DumpedItems(list[1..], false)
  }

  lemma {:induction false} DumpedItemsText(list: seq<Text>, first: bool, tail: Text)
    requires list != []
    ensures ItemsText(DumpedItems(list, first), tail) ==
            (if first then [] else [32]) + (DumpItems(list) + ([CLOSE] + tail))
    decreases |list|
  {
    hide Body, DumpPieces, WritesAll, WritesItem;
    var items, body := DumpedItems(list, first), Body(DumpPieces(list[0]));
    NothingBefore([CLOSE] + tail);
    if |list| == 1 {
      Quoted(body, [CLOSE] + tail);
    } else {
      DumpedItemsText(list[1..], false, tail);
      assert items[1..] == DumpedItems(list[1..], false);
      var rest := DumpItems(list[1..]);
      CommaSpace(rest + ([CLOSE] + tail));
      Quoted(body, [COMMA, 32] + (rest + ([CLOSE] + tail)));
      Regroup(DumpString(list[0]), [COMMA, 32], rest, [CLOSE] + tail);
    }
  }

  lemma Quoted(body: Text, rest: Text)
    ensures ([QUOTE] + body + [QUOTE]) + rest == [QUOTE] + (body + ([QUOTE] + rest))
  {
  }

  lemma NothingBefore(t: Text)
    ensures [] + t == t
  {
  }

  lemma CommaSpace(rest: Text)
    ensures [] + ([COMMA] + ([32] + rest)) == [COMMA, 32] + rest
  {
  }

  /** `json.loads` of a text that holds an array of strings, and after it nothing but spaces. */
  function LoadList(t: Text): Option<seq<Text>> {
    var rest := ArrayRest(t);
    if rest.Some? && AllSpace(rest.value) then Some(ReadArray(t).strings) else None
  }

  /** What `json.loads` gives back for what `json.dumps` wrote. */
  lemma LoadsDumps(list: seq<Text>)
    ensures LoadList(DumpList(list)) == Some(MergeAll(list))
  {
    hide ReadArray, ArrayRest, DumpItems, MergeAll;
    var items := DumpedItems(list, true);
    ReadsBack(list, [], [], items, []);
    assert ArrayText([], [], items, []) == DumpList(list) by {
      if list == [] {
        NoItems();
      } else {
        DumpedItemsText(list, true, []);
      }
      assert [CLOSE] + [] == [CLOSE];
    }
  }

  lemma NoItems()
    ensures DumpItems([]) == []
  {
  }
}
