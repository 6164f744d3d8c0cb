/** `Pager`: one window of the result, moved with keyset queries, against absolute selection over the whole result. */
module Pagers {
  import opened Wrappers
  import opened Texts
  import opened Evidence

  // ----- the simple form: absolute selection with minimal scrolling

  /** A place in the full result: the first visible row and the selected one. */
  datatype View = View(top: nat, at: nat)

  datatype Move = Down | Up | PageDown | PageUp | Home | End

  /** `scroll_top`: the smallest scroll that keeps `selected` on screen, never past the end. */
  function ScrollTop(top: int, selected: int, height: int, total: int): int {
    var t := Min(top, Max(total - height, 0));
    Max(if selected < t then selected else if selected >= t + height then selected - height + 1 else t, 0)
  }

  /** Of all the first rows that keep the selected row on screen, none past the end, it is the one nearest to the
      last one. */
  lemma ScrollIsMinimal(top: nat, selected: nat, h: nat, n: nat, other: nat)
    requires h >= 1 && selected < n
    requires other <= selected < other + h && other <= Max(n - h, 0)
    ensures var t := ScrollTop(top, selected, h, n);
      && 0 <= t <= selected < t + h && t <= Max(n - h, 0)
      && (other <= t <= top || top <= t <= other || other == t)
  {
  }

  /** The selected row after a move in a result of n rows on a screen of h. */
  function Target(at: nat, m: Move, h: nat, n: nat): (target: nat)
    ensures n > 0 && at < n ==> target < n
  {
    if n == 0 then at
    else
      match m
      case Down => Min(n - 1, at + 1)
      case Up => Max(0, at - 1)
      case PageDown => Min(n - 1, at + h)
      case PageUp => Max(0, at - h)
      case Home => 0
      case End => n - 1
  }

  function Moved(v: View, m: Move, h: nat, n: nat): View {
    var at := Target(v.at, m, h, n);
    View(ScrollTop(v.top, at, h, n), at)
  }

  /** The views that absolute selection can reach. */
  predicate Proper(v: View, h: nat, n: nat) {
    if n == 0 then v == View(0, 0) else v.at < n && v.top <= v.at < v.top + h && v.top <= Max(n - h, 0)
  }

  /** Absolute selection after a whole list of moves, the first of them first. */
  function MovedBy(v: View, moves: seq<Move>, h: nat, n: nat): View
    decreases |moves|
  {
    if moves == [] then v else MovedBy(Moved(v, moves[0], h, n), moves[1..], h, n)
  }

  lemma {:induction false} MovedByOneMore(v: View, moves: seq<Move>, m: Move, h: nat, n: nat)
    ensures MovedBy(v, moves + [m], h, n) == Moved(MovedBy(v, moves, h, n), m, h, n)
    decreases |moves|
  {
    hide Moved;
    if moves == [] {
      assert [m][1..] == [];
    } else {
      assert (moves + [m])[1..] == moves[1..] + [m];
      MovedByOneMore(Moved(v, moves[0], h, n), moves[1..], m, h, n);
    }
  }

  /** Fewer rows than fit are never scrolled. */
  lemma StaysOnTop(v: View, m: Move, h: nat, n: nat)
    ensures n < h && Proper(v, h, n) ==> v.top == Moved(v, m, h, n).top == 0
  {
  }

  function Window(rows: seq<Row>, top: nat, h: nat): seq<Row>
    requires top <= |rows|
  {
    rows[top..Min(top + h, |rows|)]
  }

  // ----- where each move leads, case by case

  /** The number of rows in the window at `top`. */
  function Shown(top: nat, h: nat, n: nat): int {
    Min(h, n - top)
  }

  lemma NoRows(v: View, m: Move, h: nat)
    requires h >= 1 && Proper(v, h, 0)
    ensures Moved(v, m, h, 0) == v
  {
  }

  lemma DownLeads(v: View, h: nat, n: nat)
    requires h >= 1 && n > 0 && Proper(v, h, n)
    ensures var shown := Shown(v.top, h, n);
      Moved(v, Down, h, n) ==
      if v.at - v.top < shown - 1 then View(v.top, v.at + 1)
      else if v.at == n - 1 then v
      else View(v.top + 1, v.at + 1)
    ensures v.at - v.top >= Shown(v.top, h, n) - 1 && v.at < n - 1 ==> v.at == v.top + h - 1
  {
  }

  lemma UpLeads(v: View, h: nat, n: nat)
    requires h >= 1 && n > 0 && Proper(v, h, n)
    ensures Moved(v, Up, h, n) ==
      if v.at > v.top then View(v.top, v.at - 1) else if v.at == 0 then v else View(v.top - 1, v.at - 1)
    ensures v.top > 0 ==> v.top + h <= n
  {
  }

  lemma PageDownLeads(v: View, h: nat, n: nat)
    requires h >= 1 && n > 0 && Proper(v, h, n)
    ensures var to := Min(v.at + h, n - 1);
      && to >= v.at && (v.top + Shown(v.top, h, n) == n ==> Moved(v, PageDown, h, n) == View(v.top, to))
      && Moved(v, PageDown, h, n) == if v.at == n - 1 then v else View(Max(to + 1 - h, 0), to)
  {
  }

  lemma PageUpLeads(v: View, h: nat, n: nat)
    requires h >= 1 && n > 0 && Proper(v, h, n)
    ensures var to := Max(v.at - h, 0);
      Moved(v, PageUp, h, n) == View(to, to) && to <= v.top && (to + h <= n || to == 0)
    ensures v.at == 0 ==> Moved(v, PageUp, h, n) == v
  {
  }

  lemma EndsLead(v: View, h: nat, n: nat)
    requires h >= 1 && n > 0 && Proper(v, h, n)
    ensures Moved(v, Home, h, n) == View(0, 0) && Moved(v, End, h, n) == View(Max(n - h, 0), n - 1)
  {
  }

  /** What a window of rows, its selection and its flags say about the full result. */
  ghost predicate Frames(all: seq<Row>, h: nat, v: View, rows: seq<Row>, sel: nat, before: bool, after: bool) {
    && Proper(v, h, |all|) && v.top <= |all|
    && rows == Window(all, v.top, h) && sel == v.at - v.top
    && (before ==> v.top == 0) && (after ==> v.top + |rows| == |all|)
  }

  /** A framed window has exactly min(h, n) rows, and holds the selected row. */
  lemma FramesCount(all: seq<Row>, h: nat, v: View, rows: seq<Row>, sel: nat, before: bool, after: bool)
    requires h >= 1 && Frames(all, h, v, rows, sel, before, after)
    ensures |rows| == Min(h, |all|) == Shown(v.top, h, |all|)
    ensures |all| > 0 ==> sel < |rows| && rows[sel] == all[v.at] && v.at < |all| && v.top + |rows| <= |all|
    ensures rows == [] <==> all == []
    ensures sel == v.at - v.top && Proper(v, h, |all|)
    ensures before ==> v.top == 0
    ensures after ==> v.top + |rows| == |all|
  {
  }

  // ----- the pager

  /** A full window moved by one row. */
  lemma WindowSlides(all: seq<Row>, top: nat, h: nat)
    requires h >= 1 && top + h < |all|
    ensures Window(all, top + 1, h) == Window(all, top, h)[1..] + [all[top + h]]
    ensures Window(all, top, h) == [all[top]] + Window(all, top + 1, h)[..h - 1]
    ensures |Window(all, top, h)| == |Window(all, top + 1, h)| == h
  {
  }

  /** Moving the selection inside the window. */
  lemma SelectionMoves(all: seq<Row>, h: nat, v: View, rows: seq<Row>, sel: nat, before: bool, after: bool, to: nat)
    requires h >= 1 && Frames(all, h, v, rows, sel, before, after) && to < |rows|
    ensures Frames(all, h, View(v.top, v.top + to), rows, to, before, after)
  {
  }

  /** Learning that nothing lies beyond a side of the window. */
  lemma SideIsExhausted(all: seq<Row>, h: nat, v: View, rows: seq<Row>, sel: nat, before: bool, after: bool)
    requires h >= 1 && Frames(all, h, v, rows, sel, before, after)
    ensures v.at == |all| - 1 ==> Frames(all, h, v, rows, sel, before, true)
    ensures v.at == 0 ==> Frames(all, h, v, rows, sel, true, after)
  {
  }

  lemma SlideDown(all: seq<Row>, h: nat, v: View, rows: seq<Row>, sel: nat, before: bool, after: bool)
    requires h >= 1 && Frames(all, h, v, rows, sel, before, after) && v.at == v.top + h - 1 < |all| - 1
    ensures |rows| == h &&
            Frames(all, h, View(v.top + 1, v.at + 1), rows[1..] + [all[v.at + 1]], h - 1, false, after)
  {
    WindowSlides(all, v.top, h);
  }

  lemma SlideUp(all: seq<Row>, h: nat, v: View, rows: seq<Row>, sel: nat, before: bool, after: bool)
    requires h >= 1 && Frames(all, h, v, rows, sel, before, after) && v.at == v.top > 0 && v.top + h <= |all|
    ensures |rows| == h &&
            Frames(all, h, View(v.top - 1, v.at - 1), [all[v.at - 1]] + rows[..h - 1], 0, before, false)
  {
    WindowSlides(all, v.top - 1, h);
  }

  /** The window that ends on a row. */
  lemma EndsOn(all: seq<Row>, h: nat, to: nat, rows: seq<Row>, after: bool)
    requires h >= 1 && to < |all| && rows == all[Max(to + 1 - h, 0)..to + 1] && (after ==> to == |all| - 1)
    requires to + 1 >= Min(h, |all|)
    ensures rows != [] && Frames(all, h, View(Max(to + 1 - h, 0), to), rows, |rows| - 1, |rows| < h, after)
  {
  }

  /** The window that starts on a row. */
  lemma StartsOn(all: seq<Row>, h: nat, to: nat, rows: seq<Row>, before: bool)
    requires h >= 1 && to < |all| && rows == all[to..Min(to + h, |all|)] && (before ==> to == 0)
    requires to + h <= |all| || to == 0
    ensures rows != [] && Frames(all, h, View(to, to), rows, 0, before, |rows| < h)
  {
  }

  /** The last of the up to h rows after the selected one is the row page-down selects. */
  lemma LastAfter(all: seq<Row>, at: nat, h: nat, after: seq<Row>)
    requires h >= 1 && at < |all| && after == all[at + 1..Min(at + 1 + h, |all|)]
    ensures after == [] <==> at == |all| - 1
    ensures var to := Min(at + h, |all| - 1);
      && (after != [] ==> after[|after| - 1] == all[to])
      && (|after| < h ==> to == |all| - 1) && (|after| < h <==> at + h >= |all|)
  {
  }

  /** Page-down inside a window with nothing after it. */
  lemma PageDownInside(all: seq<Row>, h: nat, v: View, rows: seq<Row>, sel: nat, before: bool)
    requires h >= 1 && rows != [] && Frames(all, h, v, rows, sel, before, true)
    ensures var to := Min(|rows| - 1, sel + h);
      to >= 0 && Frames(all, h, Moved(v, PageDown, h, |all|), rows, to, before, true)
  {
    hide Moved, Frames;
    FramesCount(all, h, v, rows, sel, before, true);
    PageDownLeads(v, h, |all|);
    SelectionMoves(all, h, v, rows, sel, before, true, Min(|rows| - 1, sel + h));
  }

  /** Page-down with rows beyond the selected one: the two queries find the window that ends on the target. */
  lemma PageDownReads(table: seq<Row>, query: Text, h: nat, v: View, after: seq<Row>)
    requires h >= 1 && Sorted(table) && |Matching(table, query)| > 0 && Proper(v, h, |Matching(table, query)|)
    requires after == Forward(table, query, Some(Matching(table, query)[v.at].id), false, h)
    ensures var all := Matching(table, query);
      if after == [] then v.at == |all| - 1 && Moved(v, PageDown, h, |all|) == v
      else
        var found := Backward(table, query, Some(after[|after| - 1].id), true, h);
        && found != [] && Frames(all, h, Moved(v, PageDown, h, |all|), found, |found| - 1, |found| < h, |after| < h)
        && |found| == Min(h, |all|) && v.at < |all| - 1 && (|after| < h <==> v.at + h >= |all|)
  {
    hide Matching, Sorted, Moved, Forward, Backward, Frames;
    var all := Matching(table, query);
    LastRead(table, query, v.at, h, after);
    if after == [] {
      PageDownLeads(v, h, |all|);
    } else {
      var to: nat := Min(v.at + h, |all| - 1);
      BackwardFromRow(table, query, to, true, h);
      PageDownEndsOn(all, h, v, Backward(table, query, Some(all[to].id), true, h), |after| < h);
    }
  }

  lemma LastRead(table: seq<Row>, query: Text, at: nat, h: nat, after: seq<Row>)
    requires h >= 1 && Sorted(table) && at < |Matching(table, query)|
    requires after == Forward(table, query, Some(Matching(table, query)[at].id), false, h)
    ensures var all := Matching(table, query); var to := Min(at + h, |all| - 1);
      && (after == [] <==> at == |all| - 1) && (after != [] ==> after[|after| - 1] == all[to])
      && (|after| < h ==> to == |all| - 1) && (|after| < h <==> at + h >= |all|)
  {
    hide Matching, Sorted, Forward;
    ForwardFromRow(table, query, at, false, h);
    LastAfter(Matching(table, query), at, h, after);
  }

  lemma PageDownEndsOn(all: seq<Row>, h: nat, v: View, found: seq<Row>, after: bool)
    requires h >= 1 && |all| > 0 && Proper(v, h, |all|) && v.at < |all| - 1
    requires var to := Min(v.at + h, |all| - 1);
      found == all[Max(to + 1 - h, 0)..to + 1] && (after ==> to == |all| - 1)
    ensures found != []
    ensures Frames(all, h, Moved(v, PageDown, h, |all|), found, |found| - 1, |found| < h, after)
  {
    hide Moved, Frames;
    PageDownLeads(v, h, |all|);
    EndsOn(all, h, Min(v.at + h, |all| - 1), found, after);
  }

  lemma OneAround(all: seq<Row>, at: nat)
    requires at < |all|
    ensures all[Max(at - 1, 0)..at] == if at > 0 then [all[at - 1]] else []
    ensures all[at + 1..Min(at + 2, |all|)] == if at + 1 < |all| then [all[at + 1]] else []
  {
    if at > 0 { SliceOfOne(all, at - 1); }
    if at + 1 < |all| { SliceOfOne(all, at + 1); }
  }

  /** One row read from the selected one, on either side. */
  lemma NextRead(table: seq<Row>, query: Text, at: nat)
    requires Sorted(table) && at < |Matching(table, query)|
    ensures var all := Matching(table, query);
      Forward(table, query, Some(all[at].id), false, 1) == if at + 1 < |all| then [all[at + 1]] else []
  {
    hide Matching, Sorted, Forward;
    ForwardFromRow(table, query, at, false, 1);
    OneAround(Matching(table, query), at);
  }

  lemma PreviousRead(table: seq<Row>, query: Text, at: nat)
    requires Sorted(table) && at < |Matching(table, query)|
    ensures var all := Matching(table, query);
      Backward(table, query, Some(all[at].id), false, 1) == if at > 0 then [all[at - 1]] else []
  {
    hide Matching, Sorted, Backward;
    BackwardFromRow(table, query, at, false, 1);
    OneAround(Matching(table, query), at);
  }

  lemma SliceOfOne(all: seq<Row>, i: nat)
    requires i < |all|
    ensures all[i..i + 1] == [all[i]]
  {
  }

  class Pager {
    const table: seq<Row>
    var query: Text
    var rows: seq<Row>
    var sel: nat
    var exhaustedBefore: bool
    var exhaustedAfter: bool

    constructor (table: seq<Row>)
      ensures this.table == table && query == [] && rows == [] && sel == 0 && exhaustedBefore && exhaustedAfter
    {
      this.table := table;
      query, rows, sel, exhaustedBefore, exhaustedAfter := [], [], 0, true, true;
    }

    /** The pager shows the view `v` of the full result of its query on a screen of h rows, and its flags are
        true only when no row lies beyond that side. */
    ghost predicate Shows(v: View, h: nat)
      reads this
    {
      && h >= 1 && Sorted(table)
      && Frames(Matching(table, query), h, v, rows, sel, exhaustedBefore, exhaustedAfter)
    }

    /** `complete`: the window holds every row that matches. */
    predicate Complete()
      reads this
    {
      exhaustedBefore && exhaustedAfter
    }

    /** `apply` */
    method Apply(query: Text, rows: seq<Row>, h: nat, complete: bool)
      modifies this
      ensures this.query == query && this.rows == rows && sel == 0
      ensures exhaustedBefore && exhaustedAfter == (complete || |rows| < h)
    {
      this.query, this.rows, sel := query, rows, 0;
      exhaustedBefore, exhaustedAfter := true, complete || |rows| < h;
    }

    /** `reset` */
    method Reset(query: Text, h: nat)
      requires h >= 1 && Sorted(table)
      modifies this
      ensures this.query == query && Shows(View(0, 0), h)
      ensures rows == Forward(table, query, None, true, h) && sel == 0
      ensures exhaustedBefore && exhaustedAfter == (|Matching(table, query)| < h)
    {
      hide Matching, Sorted;
      ForwardFromStart(table, query, h);
      Apply(query, Forward(table, query, None, true, h), h, false);
    }

    /** `home` */
    method Home(h: nat, ghost v: View)
      requires h >= 1 && Sorted(table) && Proper(v, h, |Matching(table, query)|)
      modifies this
      ensures query == old(query) && Shows(Moved(v, Move.Home, h, |Matching(table, query)|), h)
      ensures exhaustedBefore && exhaustedAfter == (|Matching(table, query)| < h)
    {
      hide Matching, Sorted, Moved;
      ghost var n := |Matching(table, query)|;
      if n == 0 { NoRows(v, Move.Home, h); } else { EndsLead(v, h, n); }
      Reset(query, h);
    }

    /** `end` */
    method End(h: nat, ghost v: View)
      requires h >= 1 && Sorted(table) && Proper(v, h, |Matching(table, query)|)
      modifies this
      ensures query == old(query) && Shows(Moved(v, Move.End, h, |Matching(table, query)|), h)
      ensures exhaustedBefore == (|Matching(table, query)| < h) && exhaustedAfter
    {
      hide Matching, Sorted, Moved, Backward;
      ghost var all := Matching(table, query);
      if |all| == 0 { NoRows(v, Move.End, h); } else { EndsLead(v, h, |all|); }
      BackwardFromEnd(table, query, h);
      rows := Backward(table, query, None, true, h);
      sel := Max(|rows| - 1, 0);
      exhaustedBefore, exhaustedAfter := |rows| < h, true;
    }

    /** `down` */
    method Down(h: nat, ghost v: View)
      requires Shows(v, h) || rows == []
      modifies this
      ensures query == old(query) && (old(rows) == [] ==> unchanged(this))
      ensures old(Shows(v, h)) ==> Shows(Moved(v, Move.Down, h, |Matching(table, query)|), h)
      ensures old(Shows(v, h)) && old(rows) != [] ==>
        var to := Moved(v, Move.Down, h, |Matching(table, query)|);
        && exhaustedBefore == (old(exhaustedBefore) && to.top == v.top)
        && exhaustedAfter == (old(exhaustedAfter) || to == v)
    {
      hide Matching, Sorted, Moved, Forward, Frames;
      ghost var all := Matching(table, query);
      if Shows(v, h) { FramesCount(all, h, v, rows, sel, exhaustedBefore, exhaustedAfter); }
      if rows == [] {
        if Shows(v, h) { NoRows(v, Move.Down, h); }
        return;
      }
      DownLeads(v, h, |all|);
      SideIsExhausted(all, h, v, rows, sel, exhaustedBefore, exhaustedAfter);
      if sel < |rows| - 1 {
        SelectionMoves(all, h, v, rows, sel, exhaustedBefore, exhaustedAfter, sel + 1);
        sel := sel + 1;
        return;
      }
      if exhaustedAfter {
        return;
      }
      NextRead(table, query, v.at);
      var more := Forward(table, query, Some(rows[|rows| - 1].id), false, 1);
      if more == [] {
        exhaustedAfter := true;
        return;
      }
      SlideDown(all, h, v, rows, sel, exhaustedBefore, exhaustedAfter);
      rows := (if |rows| >= h then rows[1..] else rows) + more;
      sel := |rows| - 1;
      exhaustedBefore := false;
    }

    /** `up` */
    method Up(h: nat, ghost v: View)
      requires Shows(v, h) || rows == []
      modifies this
      ensures query == old(query) && (old(rows) == [] ==> unchanged(this))
      ensures old(Shows(v, h)) ==> Shows(Moved(v, Move.Up, h, |Matching(table, query)|), h)
      ensures old(Shows(v, h)) && old(rows) != [] ==>
        var to := Moved(v, Move.Up, h, |Matching(table, query)|);
        && exhaustedBefore == (old(exhaustedBefore) || to == v)
        && exhaustedAfter == (old(exhaustedAfter) && to.top == v.top)
    {
      hide Matching, Sorted, Moved, Backward, Frames;
      ghost var all := Matching(table, query);
      if Shows(v, h) { FramesCount(all, h, v, rows, sel, exhaustedBefore, exhaustedAfter); }
      if rows == [] {
        if Shows(v, h) { NoRows(v, Move.Up, h); }
        return;
      }
      UpLeads(v, h, |all|);
      SideIsExhausted(all, h, v, rows, sel, exhaustedBefore, exhaustedAfter);
      if sel > 0 {
        SelectionMoves(all, h, v, rows, sel, exhaustedBefore, exhaustedAfter, sel - 1);
        sel := sel - 1;
        return;
      }
      if exhaustedBefore {
        return;
      }
      PreviousRead(table, query, v.at);
      var before := Backward(table, query, Some(rows[0].id), false, 1);
      if before == [] {
        exhaustedBefore := true;
        return;
      }
      SlideUp(all, h, v, rows, sel, exhaustedBefore, exhaustedAfter);
      rows := before + (if |rows| >= h then rows[..|rows| - 1] else rows);
      sel := 0;
      exhaustedAfter := false;
    }

    /** `page_down` */
    method PageDown(h: nat, ghost v: View)
      requires Shows(v, h) || rows == []
      modifies this
      ensures query == old(query) && (old(rows) == [] ==> unchanged(this))
      ensures old(Shows(v, h)) ==> Shows(Moved(v, Move.PageDown, h, |Matching(table, query)|), h)
      ensures old(Shows(v, h)) && old(rows) != [] ==>
        var n := |Matching(table, query)|;
        && exhaustedBefore == (if old(exhaustedAfter) || v.at == n - 1 then old(exhaustedBefore) else n < h)
        && exhaustedAfter == (old(exhaustedAfter) || v.at == n - 1 || v.at + h >= n)
    {
      hide Matching, Sorted, Moved, Forward, Backward, Frames;
      ghost var all := Matching(table, query);
      if Shows(v, h) { FramesCount(all, h, v, rows, sel, exhaustedBefore, exhaustedAfter); }
      if rows == [] {
        if Shows(v, h) { NoRows(v, Move.PageDown, h); }
        return;
      }
      if exhaustedAfter {
        PageDownInside(all, h, v, rows, sel, exhaustedBefore);
        sel := Min(|rows| - 1, sel + h);
        return;
      }
      var after := Forward(table, query, Some(rows[sel].id), false, h);
      PageDownReads(table, query, h, v, after);
      if after == [] {
        SideIsExhausted(all, h, v, rows, sel, exhaustedBefore, exhaustedAfter);
        exhaustedAfter := true;
        return;
      }
      rows := Backward(table, query, Some(after[|after| - 1].id), true, h);
      sel := |rows| - 1;
      exhaustedBefore, exhaustedAfter := |rows| < h, |after| < h;
    }

    /** `page_up` */
    method PageUp(h: nat, ghost v: View)
      requires Shows(v, h) || rows == []
      modifies this
      ensures query == old(query) && (old(rows) == [] ==> unchanged(this))
      ensures old(Shows(v, h)) ==> Shows(Moved(v, Move.PageUp, h, |Matching(table, query)|), h)
      ensures old(Shows(v, h)) && old(rows) != [] ==>
        var n := |Matching(table, query)|;
        && exhaustedBefore == (old(exhaustedBefore) || v.at < h)
        && exhaustedAfter ==
           (if old(exhaustedBefore) || v.at == 0 then old(exhaustedAfter) else n - Max(v.at - h, 0) < h)
    {
      hide Matching, Sorted, Moved, Forward, Backward, Frames;
      ghost var all := Matching(table, query);
      if Shows(v, h) { FramesCount(all, h, v, rows, sel, exhaustedBefore, exhaustedAfter); }
      if rows == [] {
        if Shows(v, h) { NoRows(v, Move.PageUp, h); }
        return;
      }
      PageUpLeads(v, h, |all|);
      SideIsExhausted(all, h, v, rows, sel, exhaustedBefore, exhaustedAfter);
      if exhaustedBefore {
        SelectionMoves(all, h, v, rows, sel, exhaustedBefore, exhaustedAfter, Max(0, sel - h));
        sel := Max(0, sel - h);
        return;
      }
      BackwardFromRow(table, query, v.at, false, h);
      var before := Backward(table, query, Some(rows[sel].id), false, h);
      assert |before| == Min(h, v.at);
      if before == [] {
        exhaustedBefore := true;
        return;
      }
      ghost var to := Max(v.at - h, 0);
      assert before[0] == all[to];
      ForwardFromRow(table, query, to, true, h);
      var found := Forward(table, query, Some(before[0].id), true, h);
      assert |found| == Min(h, |all| - to);
      var extra := [];
      if |found| < h {
        assert found[0] == all[to];
        BackwardFromRow(table, query, to, false, h - |found|);
        extra := Backward(table, query, Some(found[0].id), false, h - |found|);
      }
      StartsOn(all, h, to, found, |before| < h);
      assert extra == [] && extra + found == found;
      rows, sel := extra + found, |extra|;
      exhaustedBefore, exhaustedAfter := |before| < h, |found| < h;
    }

    /** A screen that shows the view v, or nothing at all (after a scan that failed). */
    ghost predicate ShowsOrBlank(v: View, h: nat)
      reads this
    {
      h >= 1 && Sorted(table) && (Shows(v, h) || (rows == [] && v == View(0, 0)))
    }

    /** The key handlers: one method for each key. With nothing on screen only home and end have an effect. */
    method Press(m: Move, h: nat, ghost v: View)
      requires ShowsOrBlank(v, h)
      modifies this
      ensures query == old(query)
      ensures if old(Shows(v, h)) || m == Move.Home || m == Move.End
              then Shows(Moved(v, m, h, |Matching(table, query)|), h)
              else unchanged(this)
      ensures old(Shows(v, h)) && old(Complete()) && |Matching(table, query)| < h ==> Complete()
    {
      hide Matching, Moved, Sorted, Frames;
      StaysOnTop(v, m, h, |Matching(table, query)|);
      assert Proper(v, h, |Matching(table, query)|) by { if Shows(v, h) { Counts(h, v); } }
      match m
      case Down => Down(h, v);
      case Up => Up(h, v);
      case PageDown => PageDown(h, v);
      case PageUp => PageUp(h, v);
      case Home => Home(h, v);
      case End => End(h, v);
    }

    /** After any sequence of moves the pager shows what absolute selection over the full result shows: its window
        has min(h, n) rows and its current row is the selected one. A result of fewer rows than fit, once it is known to
        be read fully, stays so. */
    method PressAll(moves: seq<Move>, h: nat, ghost v: View)
      requires Shows(v, h)
      modifies this
      ensures query == old(query)
      ensures var all := Matching(table, query); var to := MovedBy(v, moves, h, |all|);
        && Shows(to, h) && |rows| == Min(h, |all|)
        && (all != [] ==> to.at < |all| && sel < |rows| && rows[sel] == all[to.at])
      ensures old(Complete()) && |Matching(table, query)| < h ==> Complete()
    {
      hide Matching, Sorted, Moved, Frames;
      var i := 0;
      while i < |moves|
        invariant i <= |moves| && query == old(query)
        invariant Shows(MovedBy(v, moves[..i], h, |Matching(table, query)|), h)
        invariant old(Complete()) && |Matching(table, query)| < h ==> Complete()
      {
        ghost var n := |Matching(table, query)|;
        assert moves[..i + 1] == moves[..i] + [moves[i]];
        MovedByOneMore(v, moves[..i], moves[i], h, n);
        Press(moves[i], h, MovedBy(v, moves[..i], h, n));
        i := i + 1;
      }
      assert moves[..i] == moves;
      Counts(h, MovedBy(v, moves, h, |Matching(table, query)|));
    }

    lemma Counts(h: nat, v: View)
      requires Shows(v, h)
      ensures var all := Matching(table, query);
        && Proper(v, h, |all|) && |rows| == Min(h, |all|)
        && (all != [] ==> v.at < |all| && sel < |rows| && rows[sel] == all[v.at])
    {
      hide Matching, Sorted, Frames;
      FramesCount(Matching(table, query), h, v, rows, sel, exhaustedBefore, exhaustedAfter);
    }
  }
}
