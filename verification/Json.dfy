/** JSON strings: every way of writing one, the scanner that reads it back, and what `json.dumps` writes. */
module Json {
  import opened Wrappers
  import opened Texts

  const QUOTE: Code := 34
  const BACKSLASH: Code := 92
  const LETTER_U: Code := 117
  const COMMA: Code := 44
  const OPEN: Code := 91
  const CLOSE: Code := 93

  predicate IsHigh(c: Code) { 0xD800 <= c < 0xDC00 }

  predicate IsLow(c: Code) { 0xDC00 <= c < 0xE000 }

  function JoinSurrogates(high: Code, low: Code): Code
    requires IsHigh(high) && IsLow(low)
  {
    0x10000 + (high - 0xD800) * 0x400 + (low - 0xDC00)
  }

  function HighOf(c: Code): (high: Code)
    requires c >= 0x10000
    ensures IsHigh(high)
  {
    0xD800 + (c - 0x10000) / 0x400
  }

  function LowOf(c: Code): (low: Code)
    requires c >= 0x10000
    ensures IsLow(low)
  {
    0xDC00 + (c - 0x10000) % 0x400
  }

  /** The character that `\` and this letter stand for. */
  function ShortEscape(letter: Code): (c: Option<Code>)
    ensures c.Some? ==> c.value < 0x80
  {
    if letter == QUOTE || letter == BACKSLASH || letter == 47 then Some(letter)
    else if letter == 98 then Some(8)
    else if letter == 102 then Some(12)
    else if letter == 110 then Some(10)
    else if letter == 114 then Some(13)
    else if letter == 116 then Some(9)
    else None
  }

  function HexDigit(c: Code): (v: Option<nat>)
    ensures v.Some? ==> v.value < 16
  {
    if 48 <= c < 58 then Some(c - 48)
    else if 97 <= c < 103 then Some(c - 87)
    else if 65 <= c < 71 then Some(c - 55)
    else None
  }

  /** The code unit written by `\u` and four hex digits at the start of `s`. */
  function UnicodeEscape(s: Text): (c: Option<Code>)
    ensures c.Some? ==> c.value < 0x10000 && |s| >= 6
  {
    if |s| < 6 || s[0] != BACKSLASH || s[1] != LETTER_U then None
    else
      match (HexDigit(s[2]), HexDigit(s[3]), HexDigit(s[4]), HexDigit(s[5]))
      case (Some(a), Some(b), Some(c), Some(d)) => Some(a * 0x1000 + b * 0x100 + c * 0x10 + d)
      case _ => None
  }

  function Prepend(c: Code, length: nat, rest: Option<(Text, nat)>): Option<(Text, nat)> {
    if rest.None? then None else Some(([c] + rest.value.0, length + rest.value.1))
  }

  /** The scanner of `json`, from after the opening quote: the string, and the place after its closing quote.
      None: the text is malformed, or it ends before the string does. */
  function Scan(s: Text): (r: Option<(Text, nat)>)
    ensures r.Some? ==> 0 < r.value.1 <= |s|
    decreases |s|
  {
    if s == [] then None
    else if s[0] == QUOTE then Some(([], 1))
    else if s[0] == BACKSLASH then
      if |s| < 2 then None
      else if s[1] == LETTER_U then
        var c := UnicodeEscape(s);
        if c.None? then None
        else if IsHigh(c.value) && |s| >= 12 && s[6] == BACKSLASH && s[7] == LETTER_U then
          var d := UnicodeEscape(s[6..]);
          if d.None? then None
          else if IsLow(d.value) then Prepend(JoinSurrogates(c.value, d.value), 12, Scan(s[12..]))
          else Prepend(c.value, 6, Scan(s[6..]))
        else Prepend(c.value, 6, Scan(s[6..]))
      else if ShortEscape(s[1]).Some? then Prepend(ShortEscape(s[1]).value, 2, Scan(s[2..]))
      else None
    else if s[0] < 0x20 then None
    else Prepend(s[0], 1, Scan(s[1..]))
  }

  /** The scanner after `\u` and after another escape. */
  lemma ScanUnicode(s: Text)
    requires |s| >= 2 && s[0] == BACKSLASH && s[1] == LETTER_U
    ensures Scan(s) ==
            if UnicodeEscape(s).None? then None
            else
              var c := UnicodeEscape(s).value;
              if IsHigh(c) && |s| >= 12 && s[6] == BACKSLASH && s[7] == LETTER_U then
                if UnicodeEscape(s[6..]).None? then None
                else if IsLow(UnicodeEscape(s[6..]).value) then
                  Prepend(JoinSurrogates(c, UnicodeEscape(s[6..]).value), 12, Scan(s[12..]))
                else Prepend(c, 6, Scan(s[6..]))
              else Prepend(c, 6, Scan(s[6..]))
  {
    hide UnicodeEscape;
  }

  lemma EscapeIgnoresRest(s: Text, more: Text)
    requires |s| >= 6
    ensures UnicodeEscape(s + more) == UnicodeEscape(s)
  {
  }

  lemma DropOfLonger(s: Text, more: Text, n: nat)
    requires n <= |s|
    ensures (s + more)[n..] == s[n..] + more
  {
  }

  /** A string that was read completely is read the same way when more text follows. */
  lemma {:induction false} ScanIgnoresRest(s: Text, more: Text)
    requires Scan(s).Some?
    ensures Scan(s + more) == Scan(s)
    decreases |s|
  {
    if s[0] == QUOTE {
    } else if s[0] == BACKSLASH {
      if s[1] == LETTER_U {
        UnicodeIgnoresRest(s, more);
      } else {
        DropOfLonger(s, more, 2);
        ScanIgnoresRest(s[2..], more);
      }
    } else {
      DropOfLonger(s, more, 1);
      ScanIgnoresRest(s[1..], more);
    }
  }

  lemma {:induction false} UnicodeIgnoresRest(s: Text, more: Text)
    requires Scan(s).Some? && |s| >= 2 && s[0] == BACKSLASH && s[1] == LETTER_U
    ensures Scan(s + more) == Scan(s)
    decreases |s|, 0
  {
    hide Scan, UnicodeEscape;
    ScanUnicode(s);
    ScanUnicode(s + more);
    EscapeIgnoresRest(s, more);
    DropOfLonger(s, more, 6);
    if |s| >= 12 {
      DropOfLonger(s, more, 12);
      EscapeIgnoresRest(s[6..], more);
      if Scan(s[12..]).Some? { ScanIgnoresRest(s[12..], more); }
    }
    if Scan(s[6..]).Some? {
      ScanIgnoresRest(s[6..], more);
      if |s| < 12 { ShortRestIsNoEscape(s, more); }
    }
  }

  /** What is left after one `\u` escape and too short for a second does not start one either. */
  lemma ShortRestIsNoEscape(s: Text, more: Text)
    requires 6 <= |s| < 12 && Scan(s[6..]).Some?
    ensures var t := s + more; !(|t| >= 12 && t[6] == BACKSLASH && t[7] == LETTER_U)
  {
    var rest := s[6..];
    assert rest[0] == s[6] && (|rest| >= 2 ==> rest[1] == s[7]);
  }

  lemma Regroup(a: Text, b: Text, c: Text, d: Text)
    ensures a + b + c + d == a + (b + (c + d))
  {
  }

  /** What reading gives back for a string: adjacent surrogate pairs become one character. */
  function Merge(v: Text): Text
    decreases |v|
  {
    if v == [] then []
    else if |v| >= 2 && IsHigh(v[0]) && IsLow(v[1]) then [JoinSurrogates(v[0], v[1])] + Merge(v[2..])
    else [v[0]] + Merge(v[1..])
  }

  predicate PairAt(v: Text, i: nat) {
    i + 1 < |v| && IsHigh(v[i]) && IsLow(v[i + 1])
  }

  predicate NoSurrogatePair(v: Text) {
    forall i: nat :: i < |v| ==> !PairAt(v, i)
  }

  lemma {:induction false} MergeShortens(v: Text)
    ensures |Merge(v)| <= |v|
    decreases |v|
  {
    if |v| >= 2 && IsHigh(v[0]) && IsLow(v[1]) {
      MergeShortens(v[2..]);
    } else if v != [] {
      MergeShortens(v[1..]);
    }
  }

  /** Reading gives back the string itself exactly when it has no surrogate pair in two pieces. */
  lemma {:induction false} MergeIsIdentity(v: Text)
    ensures Merge(v) == v <==> NoSurrogatePair(v)
    decreases |v|
  {
    if v == [] {
    } else if |v| >= 2 && IsHigh(v[0]) && IsLow(v[1]) {
      MergeShortens(v[2..]);
      assert PairAt(v, 0);
    } else {
      MergeIsIdentity(v[1..]);
      assert v == [v[0]] + v[1..];
      assert Merge(v) == v <==> Merge(v[1..]) == v[1..] by {
        assert Merge(v)[1..] == Merge(v[1..]);
      }
      assert forall i: nat :: PairAt(v[1..], i) ==> PairAt(v, i + 1);
      assert forall i: nat :: i > 0 && PairAt(v, i) ==> PairAt(v[1..], i - 1);
      assert !PairAt(v, 0);
    }
  }

  // ----- writing

  /** One character of a string as UTF-8 text may write it: itself, a short escape, or one or two `\u` escapes. */
  predicate Writes(c: Code, piece: Text) {
    || (piece == [c] && c >= 0x20 && c != QUOTE && c != BACKSLASH && !IsSurrogate(c))
    || (|piece| == 2 && piece[0] == BACKSLASH && ShortEscape(piece[1]) == Some(c))
    || (|piece| == 6 && UnicodeEscape(piece) == Some(c))
    || (|piece| == 12 && c >= 0x10000
        && UnicodeEscape(piece[..6]) == Some(HighOf(c)) && UnicodeEscape(piece[6..]) == Some(LowOf(c)))
  }

  /** The body of a quoted string, one piece for each character. */
  function Body(pieces: seq<Text>): Text {
    if pieces == [] then [] else pieces[0] + Body(pieces[1..])
  }

  predicate WritesAll(v: Text, pieces: seq<Text>) {
    |v| == |pieces| && forall i :: 0 <= i < |v| ==> Writes(v[i], pieces[i])
  }

  lemma BodySplit(pieces: seq<Text>, end: Text)
    requires pieces != []
    ensures Body(pieces) + end == pieces[0] + (Body(pieces[1..]) + end)
    ensures |Body(pieces)| == |pieces[0]| + |Body(pieces[1..])|
    ensures |pieces| >= 2 ==> pieces[1..][0] == pieces[1] && pieces[1..][1..] == pieces[2..]
  {
  }

  lemma MergeCases(v: Text)
    requires v != []
    ensures Merge(v) == if |v| >= 2 && IsHigh(v[0]) && IsLow(v[1]) then [JoinSurrogates(v[0], v[1])] + Merge(v[2..])
                        else [v[0]] + Merge(v[1..])
  {
  }

  /** Every way of writing a string reads back as that string, with surrogate pairs joined. */
  lemma {:induction false} ScanReads(v: Text, pieces: seq<Text>, end: Text)
    requires WritesAll(v, pieces) && end != [] && end[0] == QUOTE
    ensures Scan(Body(pieces) + end) == Some((Merge(v), |Body(pieces)| + 1))
    decreases |v|
  {
    hide Scan, Body, Merge, UnicodeEscape, Writes;
    if v == [] {
      ScanEnd(end);
    } else {
      BodySplit(pieces, end);
      MergeCases(v);
      ScanReads(v[1..], pieces[1..], end);
      if |pieces[0]| != 6 || !IsHigh(v[0]) {
        NotAHighEscape(v, pieces);
        ScanPiece(v[0], pieces[0], Body(pieces[1..]) + end);
      } else if |v| >= 2 && IsLow(v[1]) {
        ScanReads(v[2..], pieces[2..], end);
        BodySplit(pieces[1..], end);
        ScanJoins(v[0], pieces[0], v[1], pieces[1], Body(pieces[2..]) + end);
      } else {
        NextIsNotLow(v[1..], pieces[1..], end);
        ScanLoneHigh(v[0], pieces[0], Body(pieces[1..]) + end);
      }
    }
  }

  lemma ScanEnd(end: Text)
    requires end != [] && end[0] == QUOTE
    ensures Scan(Body([]) + end) == Some((Merge([]), |Body([])| + 1))
  {
    assert Body([]) + end == end;
  }

  /** A high surrogate is always written as a `\u` escape. */
  lemma NotAHighEscape(v: Text, pieces: seq<Text>)
    requires WritesAll(v, pieces) && v != [] && !(|pieces[0]| == 6 && IsHigh(v[0]))
    ensures !IsHigh(v[0])
  {
  }

  lemma EscapeAtStart(piece: Text, tail: Text)
    requires |piece| >= 6
    ensures UnicodeEscape(piece + tail) == UnicodeEscape(piece)
    ensures (piece + tail)[|piece|..] == tail
  {
  }

  lemma JoinOfHalves(c: Code)
    requires c >= 0x10000
    ensures JoinSurrogates(HighOf(c), LowOf(c)) == c
  {
  }

  /** Any piece but a high surrogate alone is read as its character. */
  lemma ScanPiece(c: Code, piece: Text, tail: Text)
    requires Writes(c, piece) && !(|piece| == 6 && IsHigh(c))
    ensures Scan(piece + tail) == Prepend(c, |piece|, Scan(tail))
  {
    hide Scan, UnicodeEscape;
    if |piece| == 12 {
      ScanJoins(HighOf(c), piece[..6], LowOf(c), piece[6..], tail);
      assert piece[..6] + (piece[6..] + tail) == piece + tail;
      JoinOfHalves(c);
    } else {
      ScanShortPiece(c, piece, tail);
    }
  }

  lemma ScanShortPiece(c: Code, piece: Text, tail: Text)
    requires Writes(c, piece) && |piece| < 12 && !(|piece| == 6 && IsHigh(c))
    ensures Scan(piece + tail) == Prepend(c, |piece|, Scan(tail))
  {
    hide UnicodeEscape;
    var s := piece + tail;
    assert s[|piece|..] == tail;
    if |piece| == 6 {
      EscapeAtStart(piece, tail);
      EscapeStart(piece);
      ScanUnicode(s);
    }
  }

  lemma EscapeStart(piece: Text)
    requires UnicodeEscape(piece).Some?
    ensures piece[0] == BACKSLASH && piece[1] == LETTER_U
  {
  }

  /** Two `\u` escapes of a surrogate pair are read as one character. */
  lemma ScanJoins(high: Code, p: Text, low: Code, q: Text, tail: Text)
    requires IsHigh(high) && IsLow(low) && |p| == 6 && Writes(high, p) && Writes(low, q)
    ensures |q| == 6 && Scan(p + (q + tail)) == Prepend(JoinSurrogates(high, low), 12, Scan(tail))
  {
    var s := p + (q + tail);
    EscapeAtStart(p, q + tail);
    EscapeAtStart(q, tail);
    assert s[6..] == q + tail && s[12..] == tail;
  }

  /** A high surrogate that no low one follows is read as it is. */
  lemma ScanLoneHigh(high: Code, p: Text, tail: Text)
    requires IsHigh(high) && |p| == 6 && Writes(high, p)
    requires UnicodeEscape(tail).Some? ==> !IsLow(UnicodeEscape(tail).value)
    requires |tail| >= 2 && tail[0] == BACKSLASH && tail[1] == LETTER_U ==> UnicodeEscape(tail).Some?
    ensures Scan(p + tail) == Prepend(high, 6, Scan(tail))
  {
    EscapeAtStart(p, tail);
    var s := p + tail;
    assert s[6..] == tail;
    assert |tail| >= 2 ==> s[6] == tail[0] && s[7] == tail[1];
  }

  /** What follows a character is the closing quote or the next piece. */
  lemma NextIsNotLow(v: Text, pieces: seq<Text>, end: Text)
    requires WritesAll(v, pieces) && end != [] && end[0] == QUOTE && (v != [] ==> !IsLow(v[0]))
    ensures var tail := Body(pieces) + end;
      && (UnicodeEscape(tail).Some? ==> !IsLow(UnicodeEscape(tail).value))
      && (|tail| >= 2 && tail[0] == BACKSLASH && tail[1] == LETTER_U ==> UnicodeEscape(tail).Some?)
  {
    if v != [] {
      var p, rest := pieces[0], Body(pieces[1..]) + end;
      assert Body(pieces) + end == p + rest;
      if |p| == 12 {
        EscapeAtStart(p[..6], p[6..] + rest);
        assert p[..6] + (p[6..] + rest) == p + rest;
      } else if |p| == 6 {
        EscapeAtStart(p, rest);
      }
    }
  }

  // ----- what json.dumps writes

  function HexLetter(v: nat): (c: Code)
    requires v < 16
    ensures HexDigit(c) == Some(v)
  {
    if v < 10 then 48 + v else 87 + v
  }

  function DumpUnicode(c: Code): (piece: Text)
    requires c < 0x10000
    ensures |piece| == 6 && UnicodeEscape(piece) == Some(c)
  {
    var q1 := c / 16;
    var q2 := q1 / 16;
    var q3 := q2 / 16;
    [BACKSLASH, LETTER_U, HexLetter(q3), HexLetter(q2 % 16), HexLetter(q1 % 16), HexLetter(c % 16)]
  }

  function DumpPiece(c: Code): (piece: Text)
    ensures Writes(c, piece)
  {
    if c == QUOTE || c == BACKSLASH then [BACKSLASH, c]
    else if 0x20 <= c < 0x7F then [c]
    else if c == 8 then [BACKSLASH, 98]
    else if c == 12 then [BACKSLASH, 102]
    else if c == 10 then [BACKSLASH, 110]
    else if c == 13 then [BACKSLASH, 114]
    else if c == 9 then [BACKSLASH, 116]
    else if c < 0x10000 then DumpUnicode(c)
    else
      var high, low := DumpUnicode(HighOf(c)), DumpUnicode(LowOf(c));
      assert (high + low)[..6] == high && (high + low)[6..] == low;
      high + low
  }

  predicate IsLowerHex(c: Code) {
    '0' as int <= c <= '9' as int || 'a' as int <= c <= 'f' as int
  }

  predicate IsHexLetter(c: Code) {
    IsLowerHex(c) || 'A' as int <= c <= 'F' as int
  }

  function HexValue(c: Code): int {
    if c <= '9' as int then c - '0' as int else if c <= 'F' as int then c - 'A' as int + 10 else c - 'a' as int + 10
  }

  function HexOfFour(a: Code, b: Code, c: Code, d: Code): int {
    ((HexValue(a) * 16 + HexValue(b)) * 16 + HexValue(c)) * 16 + HexValue(d)
  }

  /** `\u` and the four lower-case hexadecimal digits of a code unit. */
  predicate IsHexEscape(piece: Text, unit: int) {
    && |piece| == 6 && piece[0] == '\\' as int && piece[1] == 'u' as int
    && (forall i :: 2 <= i < 6 ==> IsLowerHex(piece[i]))
    && HexOfFour(piece[2], piece[3], piece[4], piece[5]) == unit
  }

  lemma DumpUnicodeExactly(c: Code)
    requires c < 0x10000
    ensures IsHexEscape(DumpUnicode(c), c)
  {
    var q1 := c / 16;
    var q2 := q1 / 16;
    var q3 := q2 / 16;
    assert q3 * 16 + q2 % 16 == q2 && q2 * 16 + q1 % 16 == q1 && q1 * 16 + c % 16 == c;
  }

  /** What is written for one character: a backslash before a quote and a backslash, any other visible ASCII character
      and the space as they are, five controls by their letters, and the rest as UTF-16 code units in hexadecimal. */
  lemma DumpPieceExactly(c: Code)
    ensures c == '\"' as int || c == '\\' as int ==> DumpPiece(c) == ['\\' as int, c]
    ensures 0x20 <= c <= 0x7E && c != '\"' as int && c != '\\' as int ==> DumpPiece(c) == [c]
    ensures c == '\n' as int ==> DumpPiece(c) == ['\\' as int, 'n' as int]
    ensures c == '\r' as int ==> DumpPiece(c) == ['\\' as int, 'r' as int]
    ensures c == '\t' as int ==> DumpPiece(c) == ['\\' as int, 't' as int]
    ensures c == 0x08 ==> DumpPiece(c) == ['\\' as int, 'b' as int]
    ensures c == 0x0C ==> DumpPiece(c) == ['\\' as int, 'f' as int]
    ensures c < 0x20 && c !in {8, 9, 10, 12, 13} ==> IsHexEscape(DumpPiece(c), c)
    ensures 0x7F <= c < 0x10000 ==> IsHexEscape(DumpPiece(c), c)
    ensures c >= 0x10000 ==> |DumpPiece(c)| == 12
    ensures c >= 0x10000 ==> IsHexEscape(DumpPiece(c)[..6], 0xD800 + (c - 0x10000) / 0x400)
    ensures c >= 0x10000 ==> IsHexEscape(DumpPiece(c)[6..], 0xDC00 + (c - 0x10000) % 0x400)
  {
    hide DumpUnicode, IsHexEscape;
    if c < 0x10000 {
      DumpUnicodeExactly(c);
    } else {
      var high, low := DumpUnicode(HighOf(c)), DumpUnicode(LowOf(c));
      DumpUnicodeExactly(HighOf(c));
      DumpUnicodeExactly(LowOf(c));
      assert (high + low)[..6] == high && (high + low)[6..] == low;
    }
  }

  /** What the scanner takes the letter after a backslash for. */
  lemma ShortEscapesExactly(letter: Code)
    ensures ShortEscape(letter).Some? <==> letter in {'\"' as int, '\\' as int, '/' as int, 'b' as int, 'f' as int,
                                                     'n' as int, 'r' as int, 't' as int}
    ensures letter in {'\"' as int, '\\' as int, '/' as int} ==> ShortEscape(letter) == Some(letter)
    ensures ShortEscape('b' as int) == Some(8) && ShortEscape('f' as int) == Some(12)
    ensures ShortEscape('n' as int) == Some('\n' as int) && ShortEscape('r' as int) == Some('\r' as int)
    ensures ShortEscape('t' as int) == Some('\t' as int)
  {
  }

  /** What it takes `\u` escapes and two surrogates for. */
  lemma EscapesExactly(s: Text, high: Code, low: Code)
    ensures UnicodeEscape(s).Some? <==>
            |s| >= 6 && s[0] == '\\' as int && s[1] == 'u' as int && forall i :: 2 <= i < 6 ==> IsHexLetter(s[i])
    ensures UnicodeEscape(s).Some? ==> HexOfFour(s[2], s[3], s[4], s[5]) == UnicodeEscape(s).value
    ensures IsHigh(high) && IsLow(low) ==>
            JoinSurrogates(high, low) == 0x10000 + 0x400 * (high - 0xD800) + (low - 0xDC00)
  {
  }

  function DumpPieces(v: Text): (pieces: seq<Text>)
    ensures WritesAll(v, pieces)
  {
    seq(|v|, i requires 0 <= i < |v| => DumpPiece(v[i]))
  }

  /** `json.dumps` of a string. */
  function DumpString(v: Text): (t: Text)
    ensures t != [] && t[0] == QUOTE
  {
    [QUOTE] + Body(DumpPieces(v)) + [QUOTE]
  }

  /** `json.dumps` of a list of strings. */
  function DumpList(list: seq<Text>): Text {
    [OPEN] + DumpItems(list) + [CLOSE]
  }

  function DumpItems(list: seq<Text>): Text {
    if list == [] then []
    else if |list| == 1 then DumpString(list[0])
    else DumpString(list[0]) + [COMMA, 32] + DumpItems(list[1..])
  }

  /** A list is written as its strings with a comma and a space between two. */
  lemma {:induction false} ListsJoin(a: seq<Text>, b: seq<Text>)
    requires a != [] && b != []
    ensures DumpItems(a + b) == DumpItems(a) + (Ascii(", ") + DumpItems(b))
    ensures |a| == 1 ==> DumpItems(a) == DumpString(a[0])
    decreases |a|
  {
    hide DumpString;
    assert (a + b)[1..] == a[1..] + b;
    assert Ascii(", ") == [COMMA, 32];
    if |a| > 1 {
      ListsJoin(a[1..], b);
      Regroup(DumpString(a[0]), [COMMA, 32], DumpItems(a[1..]), Ascii(", ") + DumpItems(b));
    }
  }

  /** Where a dumped string ends in a longer text can be told from the text alone. */
  lemma DumpedStringEnds(v: Text, w: Text, rest1: Text, rest2: Text)
    requires DumpString(v) + rest1 == DumpString(w) + rest2
    ensures DumpString(v) == DumpString(w) && rest1 == rest2
  {
    hide Scan, Body, DumpPieces;
    ScanReads(v, DumpPieces(v), [QUOTE] + rest1);
    ScanReads(w, DumpPieces(w), [QUOTE] + rest2);
    var body1, body2 := Body(DumpPieces(v)), Body(DumpPieces(w));
    assert (DumpString(v) + rest1)[1..] == body1 + ([QUOTE] + rest1);
    assert (DumpString(w) + rest2)[1..] == body2 + ([QUOTE] + rest2);
    assert |DumpString(v)| == |DumpString(w)|;
    assert DumpString(v) == (DumpString(v) + rest1)[..|DumpString(v)|];
    assert DumpString(w) == (DumpString(w) + rest2)[..|DumpString(w)|];
    assert rest1 == (DumpString(v) + rest1)[|DumpString(v)|..];
    assert rest2 == (DumpString(w) + rest2)[|DumpString(w)|..];
  }
}
