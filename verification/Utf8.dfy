/** UTF-8 and its incremental decoder. */
module Utf8 {
  import opened Texts

  type Byte = b: int | 0 <= b < 0x100

  function EncodeCode(c: Code): (bytes: seq<Byte>)
    ensures 1 <= |bytes| <= 4
  {
    var q1 := c / 0x40;
    var q2 := q1 / 0x40;
    var q3 := q2 / 0x40;
    if c < 0x80 then [c]
    else if c < 0x800 then [0xC0 + q1, 0x80 + c % 0x40]
    else if c < 0x10000 then [0xE0 + q2, 0x80 + q1 % 0x40, 0x80 + c % 0x40]
    else [0xF0 + q3, 0x80 + q2 % 0x40, 0x80 + q1 % 0x40, 0x80 + c % 0x40]
  }

  function Encode(t: Text): seq<Byte> {
    if t == [] then [] else EncodeCode(t[0]) + Encode(t[1..])
  }

  datatype One = Char(code: Code, length: nat) | Incomplete | Invalid

  predicate IsContinuation(b: Byte) {
    0x80 <= b < 0xC0
  }

  /** The second bytes that may follow a first byte, without overlong forms, surrogates or codes past the end. */
  predicate MayFollow(first: Byte, second: Byte) {
    IsContinuation(second)
    && (first == 0xE0 ==> second >= 0xA0) && (first == 0xED ==> second < 0xA0)
    && (first == 0xF0 ==> second >= 0x90) && (first == 0xF4 ==> second < 0x90)
  }

  /** The six bits of a continuation byte. */
  function Low6(b: Byte): int {
    b as int - 0x80
  }

  /** The character at the start of some bytes, if they hold all of it. */
  function DecodeOne(b: seq<Byte>): (one: One)
    requires b != []
    ensures one.Char? ==> 0 < one.length <= |b|
  {
    if b[0] < 0x80 then Char(b[0], 1)
    else if b[0] < 0xC2 || b[0] > 0xF4 then Invalid
    else if |b| < 2 then Incomplete
    else if !MayFollow(b[0], b[1]) then Invalid
    else if b[0] < 0xE0 then Char((b[0] as int - 0xC0) * 0x40 + Low6(b[1]), 2)
    else if |b| < 3 then Incomplete
    else if !IsContinuation(b[2]) then Invalid
    else if b[0] < 0xF0 then Char((b[0] as int - 0xE0) * 0x1000 + Low6(b[1]) * 0x40 + Low6(b[2]), 3)
    else if |b| < 4 then Incomplete
    else if !IsContinuation(b[3]) then Invalid
    else Char((b[0] as int - 0xF0) * 0x40000 + Low6(b[1]) * 0x1000 + Low6(b[2]) * 0x40 + Low6(b[3]), 4)
  }

  /** The characters decoded so far, the bytes of an unfinished one, and whether the bytes were well formed. */
  datatype Decoded = Decoded(text: Text, rest: seq<Byte>, ok: bool)

  function Decode(b: seq<Byte>): Decoded {
    if b == [] then Decoded([], [], true)
    else
      match DecodeOne(b)
      case Invalid => Decoded([], b, false)
      case Incomplete => Decoded([], b, true)
      case Char(c, n) => var d := Decode(b[n..]); Decoded([c] + d.text, d.rest, d.ok)
  }

  lemma DecodeEncoded(c: Code, more: seq<Byte>)
    requires !IsSurrogate(c)
    ensures DecodeOne(EncodeCode(c) + more) == Char(c, |EncodeCode(c)|)
  {
    Digits64(c);
    var b, code := EncodeCode(c) + more, EncodeCode(c);
    assert forall i :: 0 <= i < |code| ==> b[i] == code[i];
  }

  /** The digits of a code in base 64. */
  lemma Digits64(c: Code)
    ensures var q1 := c / 0x40; var q2 := q1 / 0x40; var q3 := q2 / 0x40;
      && c == q1 * 0x40 + c % 0x40 && q1 == q2 * 0x40 + q1 % 0x40 && q2 == q3 * 0x40 + q2 % 0x40
      && (c < 0x800 ==> q1 < 0x20) && (c < 0x10000 ==> q2 < 0x10) && q3 <= 4
  {
  }

  /** The first bytes of a character are an unfinished character. */
  lemma DecodeCut(c: Code, n: nat)
    requires !IsSurrogate(c) && 0 < n < |EncodeCode(c)|
    ensures DecodeOne(EncodeCode(c)[..n]) == Incomplete
  {
    Digits64(c);
  }

  lemma {:induction false} DecodeFirst(c: Code, more: seq<Byte>)
    requires !IsSurrogate(c)
    ensures var d := Decode(more); Decode(EncodeCode(c) + more) == Decoded([c] + d.text, d.rest, d.ok)
  {
    hide EncodeCode, DecodeOne;
    DecodeEncoded(c, more);
    assert (EncodeCode(c) + more)[|EncodeCode(c)|..] == more;
  }

  lemma EncodeFirst(t: Text)
    requires t != []
    ensures Encode(t) == EncodeCode(t[0]) + Encode(t[1..])
    ensures Encode(t)[|EncodeCode(t[0])|..] == Encode(t[1..])
  {
  }

  lemma DecodeNothing(t: Text)
    ensures Decode([]) == Decoded([], [], true) && Encode([]) == []
    ensures Encode(t) == [] <==> t == []
  {
  }

  lemma DecodeUnfinished(b: seq<Byte>)
    requires b != [] && DecodeOne(b) == Incomplete
    ensures Decode(b) == Decoded([], b, true)
  {
  }

  /** The first bytes of an encoded text decode to its first characters, and leave the start of the next one. */
  lemma {:induction false} DecodePrefix(t: Text, b: seq<Byte>) returns (k: nat)
    requires IsUnicode(t) && b <= Encode(t)
    ensures k <= |t| && Decode(b) == Decoded(t[..k], Decode(b).rest, true)
    ensures b == Encode(t[..k]) + Decode(b).rest
    ensures b == Encode(t) ==> k == |t| && Decode(b).rest == []
    decreases |t|
  {
    hide Encode, EncodeCode, Decode, DecodeOne;
    DecodeNothing(t);
    k := 0;
    if b != [] {
      EncodeFirst(t);
      var code := EncodeCode(t[0]);
      if |b| < |code| {
        assert b == code[..|b|];
        DecodeCut(t[0], |b|);
        DecodeUnfinished(b);
      } else {
        var more := b[|code|..];
        assert b == code + more;
        assert more <= Encode(t[1..]);
        DecodeFirst(t[0], more);
        var j := DecodePrefix(t[1..], more);
        k := j + 1;
        assert t[..k] == [t[0]] + t[1..][..j];
        EncodeFirst(t[..k]);
        assert t[..k][1..] == t[1..][..j];
      }
    }
  }

  /** Encoding cuts where the text is cut. */
  lemma {:induction false} EncodeSplit(t: Text, k: nat)
    requires k <= |t|
    ensures Encode(t) == Encode(t[..k]) + Encode(t[k..])
  {
    hide EncodeCode;
    if k == 0 {
      assert t[..0] == [] && t[0..] == t;
    } else {
      EncodeSplit(t[1..], k - 1);
      assert t[..k][1..] == t[1..][..k - 1] && t[1..][k - 1..] == t[k..];
    }
  }

  /** What the decoder keeps back holds no complete character. */
  lemma {:induction false} DecodeKeepsBack(b: seq<Byte>)
    requires Decode(b).ok
    ensures var rest := Decode(b).rest; Decode(rest) == Decoded([], rest, true)
  {
    hide DecodeOne;
    if b != [] && DecodeOne(b).Char? { DecodeKeepsBack(b[DecodeOne(b).length..]); }
  }

  /** Decoding the first bytes of an encoded text leaves bytes that, with the others, encode the rest of it. */
  lemma {:induction false} DecodeSome(t: Text, b: seq<Byte>, more: seq<Byte>) returns (k: nat)
    requires IsUnicode(t) && b + more == Encode(t)
    ensures k <= |t| && Decode(b) == Decoded(t[..k], Decode(b).rest, true)
    ensures IsUnicode(t[k..]) && Decode(b).rest + more == Encode(t[k..])
    ensures more == [] ==> k == |t| && Decode(b).rest == []
  {
    hide Encode, Decode;
    assert b == (b + more)[..|b|];
    k := DecodePrefix(t, b);
    EncodeSplit(t, k);
    var done, rest := Encode(t[..k]), Decode(b).rest;
    assert done + (rest + more) == done + Encode(t[k..]);
    assert rest + more == (done + (rest + more))[|done|..];
    assert Encode(t[k..]) == (done + Encode(t[k..]))[|done|..];
    if more == [] { assert b == Encode(t); }
  }
}
