/** Bringing a history entry back into the line. History keeps only text, so a fold is made up for an entry that
    is long or has several lines, with a little of the text left in view at both ends. */
module Recall {
  import opened Utf8
  import opened Graphemes
  import opened Folds
  import opened Lines
  import opened Paste
  import opened Editors
  import Histories

  const CONTEXT: nat := 8    // PASTE_FOLD_CONTEXT

  // Up to k clusters on from p: where that ends, and whether one of them starts with a newline.
  ghost function Ahead(text: Bytes, p: nat, k: nat, nl: bool): (r: (nat, bool))
    requires WF(text) && Bound(text, p)
    ensures p <= r.0 <= |text| && Bound(text, r.0)
    decreases k
  {
    if p < |text| && k > 0 then
      NextLenStep(text, p);
      Ahead(text, p + NextLen(text, p), k - 1, nl || text[p] == LF)
    else (p, nl)
  }

  // Up to k clusters back from p.
  ghost function Behind(text: Bytes, p: nat, k: nat, nl: bool): (r: (nat, bool))
    requires WF(text) && Bound(text, p)
    ensures r.0 <= p && Bound(text, r.0)
    decreases k
  {
    if p > 0 && k > 0 then
      PrevLenStep(text, p);
      var q := p - PrevLen(text, p);
      Behind(text, q, k - 1, nl || text[q] == LF)
    else (p, nl)
  }

  /** The range that linenoiseBuildHistoryFold hides. */
  ghost function HistoryFold(text: Bytes): (f: Fold)
    requires WF(text) && text != []
    ensures 0 <= f.start < f.end <= |text| && Bound(text, f.start) && Bound(text, f.end)
  {
    WFStart(text);
    if |text| > 2 * CONTEXT then
      var (s, snl) := Ahead(text, 0, CONTEXT, false);
      var (e, enl) := Behind(text, |text|, CONTEXT, false);
      var start, end := if snl then 0 else s, if enl then |text| else e;
      if start >= end then Fold(0, |text|) else Fold(start, end)
    else Fold(0, |text|)
  }

  /** The line after an entry has been recalled. */
  ghost function Recalled(text: Bytes, masked: bool): Line
    requires WF(text)
  {
    Line(text, |text|, if text != [] && !masked && ShouldFold(text) then [HistoryFold(text)] else [])
  }

  lemma RecalledOk(text: Bytes, masked: bool)
    requires WF(text)
    ensures Ok(Recalled(text, masked))
  {
    hide WF, HistoryFold, ShouldFold;
    if text != [] && !masked && ShouldFold(text) {
      OneFoldOk(text, HistoryFold(text));
    }
  }

  lemma OneFoldOk(text: Bytes, f: Fold)
    requires WF(text) && FoldBound(text, f)
    ensures Ok(Line(text, |text|, [f]))
  {
    hide WF;
    assert [f][..0] == [];
    assert Ordered([f], |text|);
  }

  /** linenoiseBuildHistoryFold */
  method BuildHistoryFold(l: Editor) returns (yes: bool, start: nat, end: nat)
    requires l.Valid() && WF(l.View().text)
    ensures yes <==> Recalled(l.View().text, l.masked).folds != []
    ensures yes ==> Recalled(l.View().text, l.masked).folds == [Fold(start, end)] && start < end
  {
    hide NextLen, PrevLen, Encode, Encode1, ShouldFold;
    ghost var text := l.View().text;
    start, end := 0, 0;
    if l.len == 0 || l.masked {
      return false, 0, 0;
    }
    var should := ShouldFoldText(l.buf[..][..l.len]);
    if !should {
      return false, 0, 0;
    }
    WFStart(text);
    end := l.len;
    if l.len > CONTEXT * 2 {
      start := LeadEnd(l);
      end := TailStart(l);
      if start >= end {
        start, end := 0, l.len;
      }
    }
    yes := true;
  }

  // Its first loop.
  method LeadEnd(l: Editor) returns (start: nat)
    requires l.Valid() && WF(l.View().text) && Bound(l.View().text, 0)
    ensures var r := Ahead(l.View().text, 0, CONTEXT, false); start == if r.1 then 0 else r.0
  {
    hide NextLen, WF, Ahead;
    ghost var text := l.View().text;
    var pos: nat, chars: nat, nl := 0, 0, false;
    while pos < l.len && chars < CONTEXT
      invariant Bound(text, pos) && chars <= CONTEXT
      invariant Ahead(text, pos, CONTEXT - chars, nl) == Ahead(text, 0, CONTEXT, false)
      decreases CONTEXT - chars
    {
      AheadStep(text, pos, CONTEXT - chars, nl);
      assert l.buf[..][pos..l.len] == text[pos..];
      var step := NextCharLen(l.buf[..], pos, l.len);
      if step == 0 || pos + step > l.len { break; }
      if l.buf[pos] == LF { nl := true; }
      pos := pos + step;
      chars := chars + 1;
    }
    AheadStep(text, pos, CONTEXT - chars, nl);
    start := if nl then 0 else pos;
  }

  lemma AheadStep(text: Bytes, p: nat, k: nat, nl: bool)
    requires WF(text) && Bound(text, p)
    ensures p < |text| ==> WF(text[p..]) && 0 < NextLen(text, p) <= |text| - p && Bound(text, p + NextLen(text, p))
    ensures p < |text| && k > 0 ==>
              Ahead(text, p, k, nl) == Ahead(text, p + NextLen(text, p), k - 1, nl || text[p] == LF)
    ensures p >= |text| || k == 0 ==> Ahead(text, p, k, nl) == (p, nl)
  {
    if p < |text| { NextLenStep(text, p); }
  }

  // Its second loop.
  method TailStart(l: Editor) returns (end: nat)
    requires l.Valid() && WF(l.View().text)
    ensures var r := Behind(l.View().text, |l.View().text|, CONTEXT, false); end == if r.1 then l.len else r.0
  {
    hide PrevLen, WF, Behind;
    ghost var text := l.View().text;
    var pos: nat, chars: nat, nl := l.len, 0, false;
    while pos > 0 && chars < CONTEXT
      invariant Bound(text, pos) && chars <= CONTEXT
      invariant Behind(text, pos, CONTEXT - chars, nl) == Behind(text, |text|, CONTEXT, false)
      decreases CONTEXT - chars
    {
      BehindStep(text, pos, CONTEXT - chars, nl);
      var step := PrevCharLen(l.buf[..][..l.len], pos);
      if step == 0 || step > pos { break; }
      pos := pos - step;
      if l.buf[pos] == LF { nl := true; }
      chars := chars + 1;
    }
    BehindStep(text, pos, CONTEXT - chars, nl);
    end := if nl then l.len else pos;
  }

  lemma BehindStep(text: Bytes, p: nat, k: nat, nl: bool)
    requires WF(text) && Bound(text, p)
    ensures p > 0 ==> WF(text[..p]) && 0 < PrevLen(text, p) <= p && Bound(text, p - PrevLen(text, p))
    ensures p > 0 && k > 0 ==>
              Behind(text, p, k, nl) == Behind(text, p - PrevLen(text, p), k - 1, nl || text[p - PrevLen(text, p)] == LF)
    ensures p == 0 || k == 0 ==> Behind(text, p, k, nl) == (p, nl)
  {
    if p > 0 { PrevLenStep(text, p); }
  }

  // ---------- walking through the history ----------

  // The entries, which of them is being edited (counted from the newest), and the text in the buffer.
  datatype Walk = Walk(entries: seq<Bytes>, index: int, text: Bytes)

  predicate WalkOk(w: Walk) {
    0 <= w.index < |w.entries|
  }

  function Slot(w: Walk): int {
    |w.entries| - 1 - w.index
  }

  // The entries with the one being edited as it now is.
  function Latest(w: Walk): seq<Bytes>
    requires WalkOk(w)
  {
    w.entries[Slot(w) := w.text]
  }

  /** linenoiseEditHistoryNext: the text goes back to its entry, and the neighbour is shown if there is one. */
  function Move(w: Walk, prev: bool): Walk
    requires WalkOk(w)
  {
    if |w.entries| <= 1 then w
    else
      var e := Latest(w);
      var i := if prev then w.index + 1 else w.index - 1;
      if i < 0 then Walk(e, 0, w.text)
      else if i >= |e| then Walk(e, |e| - 1, w.text)
      else Walk(e, i, e[|e| - 1 - i])
  }

  // What the buffer takes of an entry.
  function Taken(src: Bytes, cap: nat, buflen: nat): Bytes {
    if |src| <= cap || |src| <= buflen then src else src[..buflen]
  }

  // The same when an entry may be too long for the buffer.
  function MoveTaken(w: Walk, prev: bool, cap: nat, buflen: nat): Walk
    requires WalkOk(w)
  {
    var m := Move(w, prev);
    if m.index == w.index then m else m.(text := Taken(m.text, cap, buflen))
  }

  lemma MovedIn(w: Walk, prev: bool, cap: nat, buflen: nat)
    requires WalkOk(w)
    ensures var m, n := MoveTaken(w, prev, cap, buflen), |w.entries|;
            if m.index == w.index then m.text == w.text
            else
              && m.index == (if prev then w.index + 1 else w.index - 1) && 0 <= m.index < n
              && m.text == Taken(w.entries[n - 1 - m.index], cap, buflen)
  {
    hide Taken;
  }

  lemma MoveTakenIs(w: Walk, prev: bool, cap: nat, buflen: nat)
    requires WalkOk(w)
    ensures var m, t, n := Move(w, prev), MoveTaken(w, prev, cap, buflen), |w.entries|;
            && WalkOk(m) && |m.entries| == n && t.entries == m.entries && t.index == m.index
            && (m.index != w.index ==> m.entries[n - 1 - m.index] == w.entries[n - 1 - m.index])
  {
    hide Taken;
  }

  ghost predicate EntriesFit(entries: seq<Bytes>, cap: nat) {
    forall i :: 0 <= i < |entries| ==> WF(entries[i]) && |entries[i]| <= cap
  }

  lemma EntriesFitMove(w: Walk, prev: bool, cap: nat, buflen: nat)
    requires WalkOk(w)
    ensures EntriesFit(w.entries, cap) && WF(w.text) && |w.text| <= cap ==>
              var m := MoveTaken(w, prev, cap, buflen);
              && m == Move(w, prev) && EntriesFit(m.entries, cap) && WF(m.text) && |m.text| <= cap
              && (m.index != w.index ==> m.text == m.entries[|w.entries| - 1 - m.index])
  {
    hide WF;
  }

  datatype Action = Go(prev: bool) | Edit(text: Bytes)

  function Act(w: Walk, a: Action): Walk
    requires WalkOk(w)
  {
    match a
    case Go(prev) => Move(w, prev)
    case Edit(text) => w.(text := text)
  }

  function Acts(w: Walk, acts: seq<Action>): (r: Walk)
    requires WalkOk(w)
    ensures WalkOk(r) && |r.entries| == |w.entries|
  {
    if acts == [] then w else Act(Acts(w, acts[..|acts| - 1]), acts[|acts| - 1])
  }

  // The text that entry i was last given: by the last edit made on it, or to begin with.
  function LastEdit(w: Walk, acts: seq<Action>, i: nat): Bytes
    requires WalkOk(w) && i < |w.entries|
  {
    if acts == [] then Latest(w)[i]
    else
      var before, a := Acts(w, acts[..|acts| - 1]), acts[|acts| - 1];
      if a.Edit? && Slot(before) == i then a.text else LastEdit(w, acts[..|acts| - 1], i)
  }

  /** Moving loses nothing: whatever is walked over and edited, in any order, each entry keeps the text that it was
      last given, the index stays inside the history, and the buffer shows the entry it stands on. */
  lemma {:induction false} WalkKeepsEdits(w: Walk, acts: seq<Action>, i: nat)
    requires WalkOk(w) && i < |w.entries|
    ensures var r := Acts(w, acts);
            && 0 <= r.index < |w.entries|
            && Latest(r)[i] == LastEdit(w, acts, i)
            && r.text == LastEdit(w, acts, Slot(r))
    decreases |acts|
  {
    hide Move, Latest;
    if acts == [] {
      Standing(w);
    } else {
      var pre := acts[..|acts| - 1];
      var v := Acts(w, pre);
      Standing(v);
      WalkKeepsEdits(w, pre, i);
      WalkKeepsEdits(w, pre, Slot(Acts(w, acts)));
      match acts[|acts| - 1]
      case Go(prev) => MoveKeeps(v, prev);
      case Edit(text) => EditKeeps(v, text);
    }
  }

  lemma Standing(w: Walk)
    requires WalkOk(w)
    ensures |Latest(w)| == |w.entries| && Latest(w)[Slot(w)] == w.text
  {}

  lemma MoveKeeps(w: Walk, prev: bool)
    requires WalkOk(w)
    ensures var r := Move(w, prev);
            WalkOk(r) && |r.entries| == |w.entries| && Latest(r) == Latest(w) && r.text == Latest(w)[Slot(r)]
  {}

  lemma EditKeeps(w: Walk, text: Bytes)
    requires WalkOk(w)
    ensures Latest(w.(text := text)) == Latest(w)[Slot(w) := text]
  {}

  function Gos(prev: bool, k: nat): seq<Action> {
    seq(k, _ => Go(prev))
  }

  lemma {:induction false} ActsConcat(w: Walk, a: seq<Action>, b: seq<Action>)
    requires WalkOk(w)
    ensures Acts(w, a + b) == Acts(Acts(w, a), b)
  {
    if b == [] {
      assert a + b == a;
    } else {
      assert (a + b)[..|a + b| - 1] == a + b[..|b| - 1];
      ActsConcat(w, a, b[..|b| - 1]);
    }
  }

  lemma OneMove(w: Walk, prev: bool)
    requires WalkOk(w) && |w.entries| > 1
    requires if prev then w.index + 1 < |w.entries| else w.index > 0
    ensures var r := Move(w, prev);
            && r.index == (if prev then w.index + 1 else w.index - 1)
            && Latest(r) == Latest(w) && r.text == Latest(w)[Slot(r)]
  {}

  // k moves one way that meet no end.
  lemma {:induction false} ManyMoves(w: Walk, prev: bool, k: nat)
    requires WalkOk(w) && |w.entries| > 1
    requires if prev then w.index + k < |w.entries| else w.index >= k
    ensures var r := Acts(w, Gos(prev, k));
            && r.index == (if prev then w.index + k else w.index - k)
            && Latest(r) == Latest(w) && r.text == Latest(w)[Slot(r)]
  {
    if k > 0 {
      ManyMoves(w, prev, k - 1);
      assert Gos(prev, k)[..k - 1] == Gos(prev, k - 1);
      OneMove(Acts(w, Gos(prev, k - 1)), prev);
    }
  }

  /** As many steps down as up, without meeting an end, bring back the text that was being edited. */
  lemma UpThenDown(w: Walk, k: nat)
    requires WalkOk(w) && w.index + k < |w.entries|
    ensures var r := Acts(w, Gos(true, k) + Gos(false, k));
            r.text == w.text && r.index == w.index && Latest(r) == Latest(w)
  {
    if k == 0 {
      assert Gos(true, 0) + Gos(false, 0) == [];
    } else {
      ActsConcat(w, Gos(true, k), Gos(false, k));
      ManyMoves(w, true, k);
      ManyMoves(Acts(w, Gos(true, k)), false, k);
    }
  }

  // ---------- in place ----------

  class Session {
    const l: Editor
    const h: Histories.History
    var index: int      // history_index

    constructor (l: Editor, h: Histories.History)
      ensures this.l == l && this.h == h && index == 0
    {
      this.l, this.h, index := l, h, 0;
    }

    ghost function Walked(): Walk
      requires l.len <= l.buf.Length
      reads this, l, l.buf, l.folds, h
    {
      Walk(h.entries, index, l.View().text)
    }

    // The line is valid, and it and every entry are well-formed C strings that fit the buffer.
    ghost predicate Valid()
      reads this, l, l.buf, l.folds, l.folds.starts, l.folds.ends, h
    {
      && l.Valid() && h.Valid() && WalkOk(Walked())
      && WF(l.View().text) && Histories.NoNul(l.View().text) && l.len <= l.Cap()
      && EntriesFit(h.entries, l.Cap())
    }

    // What a move needs: the entry that it brings in, if any, is well formed as far as the buffer takes it.
    ghost predicate Ready(prev: bool)
      reads this, l, l.buf, l.folds, l.folds.starts, l.folds.ends, h
    {
      && l.Valid() && h.Valid() && WalkOk(Walked()) && Histories.NoNul(l.View().text)
      && var i := if prev then index + 1 else index - 1;
         0 <= i < |h.entries| ==> WF(Taken(h.entries[|h.entries| - 1 - i], l.Cap(), l.buf.Length - 1))
    }

    /** linenoiseEditHistoryNext, for Up and Down. Where all entries fit the buffer, it is the move of the walk. */
    method HistoryNext(prev: bool)
      requires Ready(prev)
      modifies this, h, l, l.buf, l.folds, l.folds.starts, l.folds.ends
      ensures l.Valid() && h.Valid() && WalkOk(Walked())
      ensures Walked() == MoveTaken(old(Walked()), prev, l.Cap(), old(l.buf.Length) - 1)
      ensures l.input == old(l.input) && l.Cap() == old(l.Cap()) && h.maxLen == old(h.maxLen)
      ensures l.buf == old(l.buf) || fresh(l.buf)
      ensures l.View() == if index == old(index) then old(l.View()) else Recalled(Walked().text, l.masked)
      ensures old(Valid()) ==> Valid() && Walked() == Move(old(Walked()), prev)
    {
      hide WF, Fine, Recalled, Taken, EntriesFit, Move, MoveTaken, Histories.NoNul;
      EntriesFitMove(Walked(), prev, l.Cap(), l.buf.Length - 1);
      MovedIn(Walked(), prev, l.Cap(), l.buf.Length - 1);
      MoveTakenIs(Walked(), prev, l.Cap(), l.buf.Length - 1);
      var other := Turn(prev);
      if other {
        RecalledText(Taken(h.entries[|h.entries| - 1 - index], l.Cap(), l.buf.Length - 1), l.masked);
        Show(h.entries[|h.entries| - 1 - index]);
      }
    }

    // The text goes back to its entry, and the index moves unless it meets an end.
    method Turn(prev: bool) returns (other: bool)
      requires l.Valid() && h.Valid() && WalkOk(Walked()) && Histories.NoNul(l.View().text)
      modifies this, h
      ensures h.Valid() && h.maxLen == old(h.maxLen)
      ensures var m := Move(old(Walked()), prev); h.entries == m.entries && index == m.index
      ensures other <==> index != old(index)
    {
      hide Fine, Histories.NoNul;
      if |h.entries| > 1 {
        h.entries := h.entries[|h.entries| - 1 - index := l.buf[..][..l.len]];
        index := index + (if prev then 1 else -1);
        if index < 0 {
          index := 0;
          return false;
        } else if index >= |h.entries| {
          index := |h.entries| - 1;
          return false;
        }
        return true;
      }
      return false;
    }

    // The selected entry comes into the buffer, under a fold if it needs one. Of an entry past the cap only as
    // much is taken as the buffer holds.
    method Show(src: Bytes)
      requires l.Valid() && WF(Taken(src, l.Cap(), l.buf.Length - 1))
      modifies l, l.buf, l.folds, l.folds.starts, l.folds.ends
      ensures l.Valid() && l.Cap() == old(l.Cap()) && l.input == old(l.input) && (l.buf == old(l.buf) || fresh(l.buf))
      ensures l.View() == Recalled(Taken(src, old(l.Cap()), old(l.buf.Length) - 1), l.masked)
    {
      hide WF, ShouldFold, HistoryFold, Fine;
      var len := |src|;
      var grown := l.Grow(len);
      if !grown && len > l.buf.Length - 1 {
        len := l.buf.Length - 1;
      }
      assert src[..|src|] == src;
      l.TakeText(src[..len]);
      FoldEntry();
    }

    method FoldEntry()
      requires l.Valid() && WF(l.View().text) && l.View() == Line(l.View().text, |l.View().text|, [])
      modifies l.folds, l.folds.starts, l.folds.ends
      ensures l.Valid() && l.View() == Recalled(old(l.View().text), l.masked)
    {
      hide WF, ShouldFold, HistoryFold, Recalled, Fine;
      var yes, start, end := BuildHistoryFold(l);
      RecalledOk(l.View().text, l.masked);
      RecalledText(l.View().text, l.masked);
      if yes {
        AddedFirst(Fold(start, end));
        l.folds.Add(start, end);
      }
    }
  }

  lemma RecalledText(text: Bytes, masked: bool)
    requires WF(text)
    ensures var r := Recalled(text, masked); Fine(r) && r == Line(text, |text|, r.folds)
  {
    hide WF;
    RecalledOk(text, masked);
  }

  lemma AddedFirst(f: Fold)
    ensures Added([], f) == [f]
  {}
}
