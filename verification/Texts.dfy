/** Python strings: sequences of code points, lone surrogates included. */
module Texts {
  type Code = c: int | 0 <= c < 0x110000

  type Text = seq<Code>

  /** A Dafny literal as a text. */
  function Ascii(s: string): (t: Text)
    ensures |t| == |s| && forall i :: 0 <= i < |s| ==> t[i] == s[i] as int
  {
    seq(|s|, i requires 0 <= i < |s| => s[i] as int as Code)
  }

  predicate IsSurrogate(c: Code) {
    0xD800 <= c < 0xE000
  }

  /** Text that UTF-8 can carry. */
  predicate IsUnicode(t: Text) {
    forall i :: 0 <= i < |t| ==> !IsSurrogate(t[i])
  }

  /** Python's `<` on strings: by the first differing code point, a proper prefix first. */
  predicate Less(a: Text, b: Text) {
    b != [] && (a == [] || a[0] < b[0] || (a[0] == b[0] && Less(a[1..], b[1..])))
  }

  /** The texts differ first at place `n`, where `b` has the greater character or `a` has ended. */
  predicate LessAt(a: Text, b: Text, n: nat) {
    && n <= |a| && n < |b| && (forall i :: 0 <= i < n ==> a[i] == b[i])
    && (n == |a| || a[n] < b[n])
  }

  lemma {:induction false} LessExactly(a: Text, b: Text)
    ensures Less(a, b) <==> exists n: nat :: LessAt(a, b, n)
  {
    if a != [] && b != [] {
      LessExactly(a[1..], b[1..]);
      if a[0] == b[0] && Less(a[1..], b[1..]) {
        var n: nat :| LessAt(a[1..], b[1..], n);
        assert forall i :: 0 < i <= n ==> a[i] == a[1..][i - 1] && b[i] == b[1..][i - 1];
        assert LessAt(a, b, n + 1);
      }
      if n: nat :| LessAt(a, b, n) && n > 0 {
        assert forall i :: 0 <= i < n - 1 ==> a[1..][i] == a[i + 1] && b[1..][i] == b[i + 1];
        assert a[0] == b[0] && LessAt(a[1..], b[1..], n - 1);
      }
    }
    if Less(a, b) && (a == [] || a[0] < b[0]) { assert LessAt(a, b, 0); }
  }

  lemma {:induction false} LessIrreflexive(a: Text)
    ensures !Less(a, a)
  {
    if a != [] { LessIrreflexive(a[1..]); }
  }

  lemma {:induction false} LessTransitive(a: Text, b: Text, c: Text)
    requires Less(a, b) && Less(b, c)
    ensures Less(a, c)
  {
    if a != [] && a[0] == b[0] == c[0] { LessTransitive(a[1..], b[1..], c[1..]); }
  }

  lemma {:induction false} LessTotal(a: Text, b: Text)
    ensures a == b || Less(a, b) || Less(b, a)
  {
    if a != [] && b != [] && a[0] == b[0] {
      LessTotal(a[1..], b[1..]);
      if a[1..] == b[1..] { assert a == [a[0]] + a[1..] && b == [b[0]] + b[1..]; }
    }
  }
}
