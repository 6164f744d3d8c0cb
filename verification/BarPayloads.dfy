/** When the form joined with bars determines its fields. */
module BarPayloads {
  import opened Wrappers
  import opened Texts
  import opened Events
  import Payloads

  function Bars(t: Text): nat {
    if t == [] then 0 else (if t[0] == BAR then 1 else 0) + Bars(t[1..])
  }

  lemma {:induction false} BarsJoin(a: Text, b: Text)
    ensures Bars(a + b) == Bars(a) + Bars(b)
  {
    if a == [] {
      assert a + b == b;
    } else {
      assert (a + b)[1..] == a[1..] + b;
      BarsJoin(a[1..], b);
    }
  }

  lemma {:induction false} NoBarsExactly(t: Text)
    ensures Bars(t) == 0 <==> BAR !in t
  {
    if t != [] {
      NoBarsExactly(t[1..]);
      assert t == [t[0]] + t[1..];
    }
  }

  /** The fields that a caller chooses have no bar in them. */
  predicate NoBars(e: Event) {
    BAR !in e.evidenceId && BAR !in e.actor && BAR !in e.action && BAR !in e.timestamp
  }

  predicate SameBarFields(e: Event, f: Event) {
    && e.index == f.index && e.evidenceId == f.evidenceId && e.actor == f.actor && e.action == f.action
    && e.timestamp == f.timestamp && e.prevHash == f.prevHash
  }

  /** An entry in this form, with a previous hash that is a hash. */
  predicate IsBarEntry(e: Event) {
    e.evidenceIds.None? && IsHash(e.prevHash)
  }

  lemma PayloadBars(e: Event)
    requires IsHash(e.prevHash)
    ensures Bars(BarPayload(e)) == 5 + Bars(e.evidenceId) + Bars(e.actor) + Bars(e.action) + Bars(e.timestamp)
  {
    hide Bars;
    var bar: Text := [BAR];
    OneBar();
    NoBarsExactly(IntText(e.index));
    NoBarsExactly(e.prevHash);
    var p1 := IntText(e.index) + bar;
    var p2 := p1 + e.evidenceId + bar;
    var p3 := p2 + e.actor + bar;
    var p4 := p3 + e.action + bar;
    var p5 := p4 + e.timestamp + bar;
    BarsJoin(IntText(e.index), bar);
    BarsJoin(p1, e.evidenceId);
    BarsJoin(p1 + e.evidenceId, bar);
    BarsJoin(p2, e.actor);
    BarsJoin(p2 + e.actor, bar);
    BarsJoin(p3, e.action);
    BarsJoin(p3 + e.action, bar);
    BarsJoin(p4, e.timestamp);
    BarsJoin(p4 + e.timestamp, bar);
    BarsJoin(p5, e.prevHash);
  }

  lemma OneBar()
    ensures Bars([BAR]) == 1
  {
    assert [BAR][1..] == [];
  }

  /** None of the fields has a bar exactly if the payload has no more than the five that join them. */
  lemma FiveBarsExactly(e: Event)
    requires IsHash(e.prevHash)
    ensures NoBars(e) <==> Bars(BarPayload(e)) == 5
  {
    hide Bars, BarPayload;
    PayloadBars(e);
    NoBarsExactly(e.evidenceId);
    NoBarsExactly(e.actor);
    NoBarsExactly(e.action);
    NoBarsExactly(e.timestamp);
  }

  /** Two texts cut at their first bar. */
  lemma CutAtBar(a: Text, x: Text, b: Text, y: Text)
    requires a + ([BAR] + x) == b + ([BAR] + y) && BAR !in a && BAR !in b
    ensures a == b && x == y
  {
    var t := a + ([BAR] + x);
    assert t[|a|] == BAR && t[|b|] == BAR;
    assert t[..|a|] == a && t[..|b|] == b;
    assert forall i :: 0 <= i < |a| ==> t[i] == a[i] && a[i] in a;
    assert forall i :: 0 <= i < |b| ==> t[i] == b[i] && b[i] in b;
    assert |a| == |b|;
    assert x == t[|a| + 1..] && y == t[|b| + 1..];
  }

  function AfterTimestamp(e: Event): Text { e.prevHash }
  function AfterAction(e: Event): Text { e.timestamp + ([BAR] + AfterTimestamp(e)) }
  function AfterActor(e: Event): Text { e.action + ([BAR] + AfterAction(e)) }
  function AfterId(e: Event): Text { e.actor + ([BAR] + AfterActor(e)) }
  function AfterIndex(e: Event): Text { e.evidenceId + ([BAR] + AfterId(e)) }

  lemma JoinedFields(p: Text, x: Text, rest: Text)
    ensures p + x + [BAR] + rest == p + (x + ([BAR] + rest))
  {
  }

  lemma PayloadFromTheFront(e: Event)
    ensures BarPayload(e) == IntText(e.index) + ([BAR] + AfterIndex(e))
  {
    hide IntText;
    var bar: Text := [BAR];
    var p1 := IntText(e.index) + bar;
    var p2 := p1 + e.evidenceId + bar;
    var p3 := p2 + e.actor + bar;
    var p4 := p3 + e.action + bar;
    JoinedFields(p4, e.timestamp, AfterTimestamp(e));
    JoinedFields(p3, e.action, AfterAction(e));
    JoinedFields(p2, e.actor, AfterActor(e));
    JoinedFields(p1, e.evidenceId, AfterId(e));
    assert p1 + AfterIndex(e) == IntText(e.index) + (bar + AfterIndex(e));
  }

  /** Without bars in the fields of one entry, equal payloads have equal fields. */
  lemma NoBarsPins(e: Event, f: Event)
    requires IsHash(e.prevHash) && IsHash(f.prevHash) && NoBars(e) && BarPayload(e) == BarPayload(f)
    ensures SameBarFields(e, f)
  {
    hide BarPayload, Bars, IntText;
    FiveBarsExactly(e);
    FiveBarsExactly(f);
    PayloadFromTheFront(e);
    PayloadFromTheFront(f);
    NoBarInNumber(e.index);
    NoBarInNumber(f.index);
    CutAtBar(IntText(e.index), AfterIndex(e), IntText(f.index), AfterIndex(f));
    Payloads.IntTextInjective(e.index, f.index);
    CutAtBar(e.evidenceId, AfterId(e), f.evidenceId, AfterId(f));
    CutAtBar(e.actor, AfterActor(e), f.actor, AfterActor(f));
    CutAtBar(e.action, AfterAction(e), f.action, AfterAction(f));
    CutAtBar(e.timestamp, AfterTimestamp(e), f.timestamp, AfterTimestamp(f));
  }

  lemma NoBarInNumber(n: int)
    ensures BAR !in IntText(n)
  {
  }

  /** A bar inside one of two neighbouring fields can be moved to join them elsewhere. */
  lemma BarMoves(p: Text, x: Text, y: Text, z: Text)
    ensures p + x + [BAR] + (y + [BAR] + z) == p + (x + [BAR] + y) + [BAR] + z
  {
  }

  lemma Split(t: Text) returns (i: nat)
    requires BAR in t
    ensures i < |t| && t == t[..i] + [BAR] + t[i + 1..]
  {
    i :| i < |t| && t[i] == BAR;
  }

  /** With a bar in a field there is another entry with the same payload. */
  lemma BarLeavesAChoice(e: Event) returns (f: Event)
    requires IsBarEntry(e) && !NoBars(e)
    ensures IsBarEntry(f) && BarPayload(f) == BarPayload(e) && !SameBarFields(e, f)
  {
    hide IntText, IsHash;
    var p1 := IntText(e.index) + [BAR];
    var p2 := p1 + e.evidenceId + [BAR];
    var p3 := p2 + e.actor + [BAR];
    if BAR in e.evidenceId {
      var i := Split(e.evidenceId);
      f := e.(evidenceId := e.evidenceId[..i], actor := e.evidenceId[i + 1..] + [BAR] + e.actor);
      BarMoves(p1, e.evidenceId[..i], e.evidenceId[i + 1..], e.actor);
      assert |f.evidenceId| < |e.evidenceId|;
    } else if BAR in e.actor {
      var i := Split(e.actor);
      f := e.(evidenceId := e.evidenceId + [BAR] + e.actor[..i], actor := e.actor[i + 1..]);
      BarMoves(p1, e.evidenceId, e.actor[..i], e.actor[i + 1..]);
      assert |f.actor| < |e.actor|;
    } else if BAR in e.action {
      var i := Split(e.action);
      f := e.(actor := e.actor + [BAR] + e.action[..i], action := e.action[i + 1..]);
      BarMoves(p2, e.actor, e.action[..i], e.action[i + 1..]);
      assert |f.action| < |e.action|;
    } else {
      var i := Split(e.timestamp);
      f := e.(action := e.action + [BAR] + e.timestamp[..i], timestamp := e.timestamp[i + 1..]);
      BarMoves(p3, e.action, e.timestamp[..i], e.timestamp[i + 1..]);
      assert |f.timestamp| < |e.timestamp|;
    }
  }

  /** When the form joined with bars pins its fields, exactly: an entry shares its payload with no entry of other fields
      if and only if none of its evidence id, actor, action and timestamp has a bar. */
  lemma BarFieldsArePinnedExactly(e: Event)
    requires IsBarEntry(e)
    ensures NoBars(e) <==>
            forall f :: IsBarEntry(f) && BarPayload(f) == BarPayload(e) ==> SameBarFields(e, f)
    ensures NoBars(e) <==> Bars(BarPayload(e)) == 5
  {
    hide BarPayload, IsHash, Bars, NoBars, SameBarFields;
    FiveBarsExactly(e);
    if NoBars(e) {
      forall f | IsBarEntry(f) && BarPayload(f) == BarPayload(e) ensures SameBarFields(e, f) {
        NoBarsPins(e, f);
      }
    } else {
      var f := BarLeavesAChoice(e);
    }
  }
}
