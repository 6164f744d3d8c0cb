/** `iter_json_strings`: reading a JSON array of strings from chunks of bytes, holding one chunk at a time. */
module JsonReaders {
  import opened Wrappers
  import opened Texts
  import opened Utf8
  import opened Json
  import opened JsonArrays
  import opened JsonAcceptance

  function Concat(chunks: seq<seq<Byte>>): seq<Byte> {
    if chunks == [] then [] else chunks[0] + Concat(chunks[1..])
  }

  /** The outcome of asking for more text. `Malformed`: the bytes are not UTF-8. */
  datatype Refilled = More | NoMore | Malformed

  /** What a round of the generator does: it yields a string, or ends with or without an exception. */
  datatype Step = Yields(value: Text) | Ends(ok: bool)

  class JsonReader {
    /** The chunks not read yet, and the bytes of an unfinished character. */
    var chunks: seq<seq<Byte>>
    var unfinished: seq<Byte>
    var buf: Text
    var pos: nat
    var eof: bool
    /** What the bytes not decoded yet stand for, when they stand for a text at all. */
    ghost var future: Option<Text>

    ghost predicate Valid()
      reads this
    {
      && pos <= |buf| && Decode(unfinished) == Decoded([], unfinished, true)
      && (future.Some? ==> IsUnicode(future.value) && unfinished + Concat(chunks) == Encode(future.value))
      && (eof ==> chunks == [] && (future.Some? ==> future.value == []))
    }

    /** The whole text that is still ahead. */
    ghost function Rest(): Text
      reads this
      requires Valid() && future.Some?
    {
      buf[pos..] + future.value
    }

    constructor (chunks: seq<seq<Byte>>, ghost text: Text)
      ensures Valid() && this.chunks == chunks && !eof
      ensures future.Some? <==> IsUnicode(text) && Concat(chunks) == Encode(text)
      ensures future.Some? ==> Rest() == text
    {
      this.chunks, unfinished, buf, pos, eof := chunks, [], [], 0, false;
      future := if IsUnicode(text) && Concat(chunks) == Encode(text) then Some(text) else None;
      new;
      assert [] + Concat(chunks) == Concat(chunks);
      assert [] + text == text;
    }

    /** How often more text can still be asked for. */
    ghost function Fuel(): nat
      reads this
    {
      |chunks| + if eof then 0 else 1
    }

    /** `refill` */
    method Refill() returns (r: Refilled)
      requires Valid()
      modifies this
      ensures Valid() && future.Some? == old(future.Some?)
      ensures future.Some? ==> Rest() == old(Rest()) && r != Malformed
      ensures r == NoMore <==> old(eof)
      ensures r == NoMore ==> buf == old(buf) && pos == old(pos) && Fuel() == old(Fuel())
      ensures r == More ==> pos == 0 && old(buf[pos..]) <= buf
      ensures r != NoMore ==> Fuel() < old(Fuel())
    {
      hide Encode, Decode;
      if eof {
        return NoMore;
      }
      var text: Text := [];
      if chunks != [] {
        var bytes := unfinished + chunks[0];
        var d := Decode(bytes);
        if future.Some? {
          assert unfinished + Concat(chunks) == bytes + Concat(chunks[1..]);
          var k := DecodeSome(future.value, bytes, Concat(chunks[1..]));
          assert buf[pos..] + future.value == (buf[pos..] + d.text) + future.value[k..];
          future := Some(future.value[k..]);
        }
        chunks := chunks[1..];
        if !d.ok {
          DecodeNothing([]);
          unfinished, pos := [], |buf|;
          return Malformed;
        }
        DecodeKeepsBack(bytes);
        text, unfinished := d.text, d.rest;
      } else {
        eof := true;
        if future.Some? {
          var k := DecodeSome(future.value, unfinished, []);
        }
        if unfinished != [] {
          DecodeNothing([]);
          unfinished := [];
          return Malformed;
        }
      }
      buf, pos := buf[pos..] + text, 0;
      return More;
    }

    /** `skip_space`: More when a character that is not a space is at hand. */
    method SkipSpaces() returns (r: Refilled)
      requires Valid()
      modifies this
      ensures Valid() && future.Some? == old(future.Some?)
      ensures future.Some? ==> r != Malformed && Rest() == SkipSpace(old(Rest()))
      ensures r == More ==> pos < |buf| && !IsSpace(buf[pos])
      ensures future.Some? && r == NoMore ==> Rest() == []
      ensures Fuel() < old(Fuel()) || (Fuel() == old(Fuel()) && |buf| - pos <= old(|buf| - pos))
    {
      hide Encode, Decode;
      while true
        invariant Valid() && future.Some? == old(future.Some?)
        invariant future.Some? ==> SkipSpace(Rest()) == SkipSpace(old(Rest()))
        invariant Fuel() < old(Fuel()) || (Fuel() == old(Fuel()) && |buf| - pos <= old(|buf| - pos))
        decreases Fuel()
      {
        SkipSpacesAtHand();
        if pos < |buf| {
          return More;
        }
        var more := Refill();
        if more != More {
          return more;
        }
      }
    }

    /** The inner loop of `skip_space`. */
    method SkipSpacesAtHand()
      requires Valid()
      modifies this`pos
      ensures Valid() && pos >= old(pos) && (pos < |buf| ==> !IsSpace(buf[pos]))
      ensures future.Some? ==> SkipSpace(Rest()) == SkipSpace(old(Rest()))
      ensures future.Some? && pos < |buf| ==> Rest() == SkipSpace(Rest())
    {
      hide Encode, Decode;
      while pos < |buf| && IsSpace(buf[pos])
        invariant Valid() && pos >= old(pos)
        invariant future.Some? ==> SkipSpace(Rest()) == SkipSpace(old(Rest()))
      {
        assert future.Some? ==> Rest()[1..] == buf[pos + 1..] + future.value;
        pos := pos + 1;
      }
    }

    /** The loop that reads one string, from its opening quote. None: the string is malformed or unterminated. */
    method ReadString() returns (value: Option<Text>)
      requires Valid() && pos < |buf| && buf[pos] == QUOTE
      modifies this
      ensures Valid() && future.Some? == old(future.Some?)
      ensures future.Some? ==>
                match Scan(old(Rest())[1..])
                case None => value == None
                case Some((v, n)) => value == Some(v) && Rest() == old(Rest())[1 + n..]
      ensures value.Some? ==> Fuel() < old(Fuel()) || (Fuel() == old(Fuel()) && |buf| - pos < old(|buf| - pos))
    {
      hide Scan, Encode, Decode;
      while Scan(buf[pos + 1..]).None?
        invariant Valid() && future.Some? == old(future.Some?) && pos < |buf|
        invariant future.Some? ==> Rest() == old(Rest())
        invariant Fuel() < old(Fuel()) || (Fuel() == old(Fuel()) && pos == old(pos) && buf == old(buf))
        decreases Fuel()
      {
        ghost var at := buf[pos..];
        var more := Refill();
        if more != More {
          assert future.Some? ==> Rest()[1..] == buf[pos + 1..];
          return None;
        }
        assert 0 < |at| <= |buf|;
      }
      var (v, n) := Scan(buf[pos + 1..]).value;
      if future.Some? {
        ScanIgnoresRest(buf[pos + 1..], future.value);
        assert Rest()[1..] == buf[pos + 1..] + future.value;
        assert Rest()[1 + n..] == buf[pos + 1 + n..] + future.value;
      }
      pos := pos + 1 + n;
      return Some(v);
    }

    /** One round of the generator: up to its next `yield`, its return or its exception. */
    method NextItem(first: bool) returns (step: Step)
      requires Valid()
      modifies this
      ensures Valid() && future.Some? == old(future.Some?)
      ensures future.Some? ==>
                match step
                case Yields(v) => ReadItems(old(Rest()), first) == Push(v, ReadItems(Rest(), false))
                case Ends(ok) => ReadItems(old(Rest()), first) == Reading([], ok)
      ensures step.Yields? ==> Fuel() < old(Fuel()) || (Fuel() == old(Fuel()) && |buf| - pos < old(|buf| - pos))
    {
      hide Encode, Decode, ReadItems, SkipSpace, Scan;
      if future.Some? { ReadItemsCases(Rest(), first); }
      var r := SkipSpaces();
      if r != More {
        return Ends(false);
      }
      if buf[pos] == CLOSE {
        return Ends(true);
      }
      if !first {
        if buf[pos] != COMMA {
          return Ends(false);
        }
        Advance();
        r := SkipSpaces();
        if r != More {
          return Ends(false);
        }
      }
      if buf[pos] != QUOTE {
        return Ends(false);
      }
      var value := ReadString();
      if value.None? {
        return Ends(false);
      }
      return Yields(value.value);
    }

    /** Steps over one character that is at hand. */
    method Advance()
      requires Valid() && pos < |buf|
      modifies this`pos
      ensures Valid() && pos == old(pos) + 1
      ensures future.Some? ==> old(Rest())[0] == buf[old(pos)] && Rest() == old(Rest())[1..]
    {
      pos := pos + 1;
    }
  }

  /** `iter_json_strings`, run to its end: the strings it yields, and whether it ended without raising.
      When the bytes are the UTF-8 of a text, this is what reading the whole text gives, however it is cut. */
  method IterJsonStrings(chunks: seq<seq<Byte>>, ghost text: Text) returns (strings: seq<Text>, ok: bool)
    ensures IsUnicode(text) && Concat(chunks) == Encode(text) ==>
              Reading(strings, ok) == ReadArray(text) && (ok <==> exists tail :: Renders(text, tail))
  {
    hide Encode, ReadItems, SkipSpace, Renders;
    if IsUnicode(text) { AcceptsExactly(text); }
    var reader := new JsonReader(chunks, text);
    strings, ok := [], false;
    var r := reader.SkipSpaces();
    if r != More || reader.buf[reader.pos] != OPEN {
      return;
    }
    reader.Advance();
    assert reader.future.Some? ==> Append([], ReadItems(reader.Rest(), true)) == ReadItems(reader.Rest(), true);
    var first := true;
    while true
      invariant reader.Valid() && fresh(reader)
      invariant reader.future.Some? <==> IsUnicode(text) && Concat(chunks) == Encode(text)
      invariant reader.future.Some? ==> Append(strings, ReadItems(reader.Rest(), first)) == ReadArray(text)
      decreases reader.Fuel(), |reader.buf| - reader.pos
    {
      var step := reader.NextItem(first);
      if step.Ends? {
        ok := step.ok;
        return;
      }
      first := false;
      strings := strings + [step.value];
    }
  }

  /** The round trip from end to end: a list of strings, written in any way as an array, with any Unicode text after it,
      encoded, and cut anywhere into chunks. The strings come back with surrogate pairs joined, so they are the list
      exactly if no string has such a pair in two pieces. */
  method ReadRendering(chunks: seq<seq<Byte>>, ghost list: seq<Text>, ghost lead: Text, ghost inner: Text,
                       ghost items: seq<Item>, ghost tail: Text)
    returns (strings: seq<Text>, ok: bool)
    requires AllSpace(lead) && AllSpace(inner) && WritesList(list, items) && IsUnicode(tail)
    requires Concat(chunks) == Encode(ArrayText(lead, inner, items, tail))
    ensures ok && strings == MergeAll(list)
    ensures strings == list <==> forall i :: 0 <= i < |list| ==> NoSurrogatePair(list[i])
  {
    hide Encode, ReadArray, ArrayRest, ArrayText, Renders;
    RenderingIsUnicode(list, lead, inner, items, tail);
    strings, ok := IterJsonStrings(chunks, ArrayText(lead, inner, items, tail));
    ReadsBack(list, lead, inner, items, tail);
    MergeAllIsIdentity(list);
  }

  function Append(strings: seq<Text>, r: Reading): Reading {
    Reading(strings + r.strings, r.ok)
  }

  lemma ReadItemsCases(t: Text, first: bool)
    ensures var s := SkipSpace(t);
      ReadItems(t, first) ==
      if s == [] then Reading([], false)
      else if s[0] == CLOSE then Reading([], true)
      else if first then ReadItem(s)
      else if s[0] != COMMA then Reading([], false)
      else ReadItem(SkipSpace(s[1..]))
  {
  }
}
