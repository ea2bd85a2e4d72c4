/** The edited line as a value: its text, the cursor, and the folds; and what each editing command makes of it. */
module Lines {
  import opened Utf8
  import opened Graphemes
  import opened Folds

  datatype Line = Line(text: Bytes, pos: nat, folds: seq<Fold>)

  const EMPTY := Line([], 0, [])

  // What the state keeps for arbitrary bytes.
  ghost predicate Fine(l: Line) {
    l.pos <= |l.text| && Ordered(l.folds, |l.text|) && |l.folds| <= MAX_FOLDS
  }

  // What it keeps when the text is well formed: the cursor and the folds split no character.
  ghost predicate Ok(l: Line) {
    Fine(l) && WF(l.text) && Bound(l.text, l.pos) && FoldsBound(l.text, l.folds)
  }

  ghost predicate FoldBound(text: Bytes, f: Fold) {
    0 <= f.start < f.end <= |text| && Bound(text, f.start) && Bound(text, f.end)
  }

  ghost predicate FoldsBound(text: Bytes, fs: seq<Fold>) {
    forall i :: 0 <= i < |fs| ==> FoldBound(text, fs[i])
  }

  // ---------- one step of the cursor ----------

  ghost predicate StartsFold(fs: seq<Fold>, p: int) {
    exists i :: 0 <= i < |fs| && fs[i].start == p
  }

  ghost predicate EndsFold(fs: seq<Fold>, p: int) {
    exists i :: 0 <= i < |fs| && fs[i].end == p
  }

  ghost predicate CanStepRight(l: Line, p: nat) {
    p <= |l.text| && (StartsFold(l.folds, p) || WF(l.text[p..]))
  }

  ghost predicate CanStepLeft(l: Line, p: nat) {
    p <= |l.text| && (EndsFold(l.folds, p) || WF(l.text[..p]))
  }

  /** linenoiseEditNextLen: a whole fold, or a grapheme cluster. */
  ghost function StepRight(l: Line, p: nat): int
    requires CanStepRight(l, p)
  {
    RightOf(l.text, l.folds, p)
  }

  ghost function RightOf(text: Bytes, fs: seq<Fold>, p: nat): int
    requires p <= |text| && (StartsFold(fs, p) || WF(text[p..]))
  {
    if StartsFold(fs, p) then
      (var i :| 0 <= i < |fs| && fs[i].start == p; fs[i].end - fs[i].start)
    else NextLen(text, p)
  }

  /** linenoiseEditPrevLen */
  ghost function StepLeft(l: Line, p: nat): int
    requires CanStepLeft(l, p)
  {
    LeftOf(l.text, l.folds, p)
  }

  ghost function LeftOf(text: Bytes, fs: seq<Fold>, p: nat): int
    requires p <= |text| && (EndsFold(fs, p) || WF(text[..p]))
  {
    if EndsFold(fs, p) then
      (var i :| 0 <= i < |fs| && fs[i].end == p; fs[i].end - fs[i].start)
    else PrevLen(text, p)
  }

  lemma RightOfCluster(text: Bytes, fs: seq<Fold>, p: nat)
    requires p <= |text| && WF(text[p..]) && !StartsFold(fs, p)
    ensures RightOf(text, fs, p) == NextLen(text, p)
  {}

  lemma LeftOfCluster(text: Bytes, fs: seq<Fold>, p: nat)
    requires p <= |text| && WF(text[..p]) && !EndsFold(fs, p)
    ensures LeftOf(text, fs, p) == PrevLen(text, p)
  {}

  // The fold found is the only one.
  lemma StepOverFold(l: Line, i: nat)
    requires Fine(l) && i < |l.folds|
    ensures var f := l.folds[i];
            && 0 <= f.start < f.end <= |l.text|
            && CanStepRight(l, f.start) && StepRight(l, f.start) == f.end - f.start
            && CanStepLeft(l, f.end) && StepLeft(l, f.end) == f.end - f.start
  {
    OrderedAt(l.folds, |l.text|);
    var f := l.folds[i];
    assert StartsFold(l.folds, f.start);
    assert EndsFold(l.folds, f.end);
  }

  lemma StepRightInside(l: Line, p: nat)
    requires Fine(l) && CanStepRight(l, p) && p < |l.text|
    ensures 0 < StepRight(l, p) <= |l.text| - p
  {
    if StartsFold(l.folds, p) {
      var i :| 0 <= i < |l.folds| && l.folds[i].start == p;
      StepOverFold(l, i);
    } else {
      var s := l.text[p..];
      NextLenOfRest(l.text, p);
    }
  }

  lemma NextLenOfRest(s: Bytes, p: nat)
    requires p < |s| && WF(s[p..])
    ensures 0 < NextLen(s, p) <= |s| - p
  {
    hide Encode1;
    var rs := Runes(s[p..]);
    WholeText(rs, NextEnd(rs, 0));
    ReadBackStart(rs, NextEnd(rs, 0));
  }

  lemma PrevLenOfPrefix(s: Bytes, p: nat)
    requires 0 < p <= |s| && WF(s[..p])
    ensures 0 < PrevLen(s, p) <= p
  {
    hide *;
    assert s[..p] == s[..p][..p];
    WFWhole(s[..p]);
    PrevLenStep(s[..p], p);
    PrevLenSame(s, p);
  }

  lemma WFWhole(s: Bytes)
    ensures Bound(s, |s|) && s[..|s|] == s
  {}

  lemma StepLeftInside(l: Line, p: nat)
    requires Fine(l) && CanStepLeft(l, p) && p > 0
    ensures 0 < StepLeft(l, p) <= p
  {
    hide NextLen, PrevLen;
    if EndsFold(l.folds, p) {
      var i :| 0 <= i < |l.folds| && l.folds[i].end == p;
      StepOverFold(l, i);
    } else {
      PrevLenOfPrefix(l.text, p);
    }
  }

  // In well-formed text both steps are possible everywhere and end between characters.
  lemma OkStepRight(l: Line, p: nat)
    requires Ok(l) && Bound(l.text, p) && p < |l.text|
    ensures CanStepRight(l, p) && 0 < StepRight(l, p) <= |l.text| - p && Bound(l.text, p + StepRight(l, p))
  {
    hide NextLen, PrevLen, Encode1;
    WFCut(l.text, p);
    StepRightInside(l, p);
    NextLenStep(l.text, p);
  }

  lemma OkStepLeft(l: Line, p: nat)
    requires Ok(l) && Bound(l.text, p) && p > 0
    ensures CanStepLeft(l, p) && 0 < StepLeft(l, p) <= p && Bound(l.text, p - StepLeft(l, p))
  {
    hide NextLen, PrevLen, Encode1;
    WFCut(l.text, p);
    StepLeftInside(l, p);
    PrevLenStep(l.text, p);
  }

  // ---------- insertion and deletion ----------

  function Inserted(l: Line, c: Bytes): Line
    requires l.pos <= |l.text|
  {
    Line(l.text[..l.pos] + c + l.text[l.pos..], l.pos + |c|, AfterInsert(l.folds, l.pos, |c|))
  }

  // The text from p to q is deleted; the cursor goes to p.
  function Cut(l: Line, p: nat, q: nat): Line
    requires p <= q <= |l.text|
  {
    Line(l.text[..p] + l.text[q..], p, AfterDelete(l.folds, p, q - p))
  }

  lemma InsertedFine(l: Line, c: Bytes)
    requires Fine(l)
    ensures Fine(Inserted(l, c))
  {
    InsertOrdered(l.folds, l.pos, |c|, |l.text|);
    OrderedWider(AfterInsert(l.folds, l.pos, |c|), Grown(|l.text|, l.pos, |c|), |l.text| + |c|);
    AfterInsertCount(l.folds, l.pos, |c|);
  }

  lemma CutFine(l: Line, p: nat, q: nat)
    requires Fine(l) && p <= q <= |l.text|
    ensures Fine(Cut(l, p, q))
  {
    DeleteOrdered(l.folds, p, q - p, |l.text|);
    OrderedWider(AfterDelete(l.folds, p, q - p), Shrunk(|l.text|, p, q - p), |l.text| - (q - p));
    AfterDeleteCount(l.folds, p, q - p);
  }

  lemma {:induction false} AfterInsertCount(fs: seq<Fold>, p: int, n: int)
    ensures |AfterInsert(fs, p, n)| <= |fs|
  {
    if fs != [] { AfterInsertCount(fs[..|fs| - 1], p, n); }
  }

  lemma {:induction false} AfterDeleteCount(fs: seq<Fold>, p: int, n: int)
    ensures |AfterDelete(fs, p, n)| <= |fs|
  {
    if fs != [] { AfterDeleteCount(fs[..|fs| - 1], p, n); }
  }

  lemma InsertedWF(text: Bytes, p: nat, c: Bytes)
    requires WF(text) && Bound(text, p) && WF(c)
    ensures var text' := text[..p] + c + text[p..];
            && WF(text') && Bound(text', p) && Bound(text', p + |c|)
            && (forall q :: 0 <= q <= p && Bound(text, q) ==> Bound(text', q))
            && (forall q :: p <= q && Bound(text, q) ==> Bound(text', q + |c|))
  {
    hide WF;
    WFCut(text, p);
    WFConcat(text[..p], c);
    WFConcat(text[..p] + c, text[p..]);
    WFStart(c);
    InsertedBound(text, p, c);
  }

  lemma InsertedBound(text: Bytes, p: nat, c: Bytes)
    requires Bound(text, p) && Bound(c, 0)
    ensures var text' := text[..p] + c + text[p..];
            && Bound(text', p) && Bound(text', p + |c|)
            && (forall q :: 0 <= q <= p && Bound(text, q) ==> Bound(text', q))
            && (forall q :: p <= q && Bound(text, q) ==> Bound(text', q + |c|))
  {
    var text' := text[..p] + c + text[p..];
    assert forall q :: 0 <= q < p ==> text'[q] == text[q];
    assert forall q :: p <= q < |text| ==> text'[q + |c|] == text[q];
  }

  lemma InsertedFoldBound(text: Bytes, p: nat, c: Bytes, f: Fold)
    requires WF(text) && Bound(text, p) && WF(c) && FoldBound(text, f)
    ensures FoldsBound(text[..p] + c + text[p..], InsertOne(f, p, |c|))
  {
    hide WF;
    InsertedWF(text, p, c);
  }

  lemma {:induction false} InsertedFoldsBound(text: Bytes, p: nat, c: Bytes, fs: seq<Fold>)
    requires WF(text) && Bound(text, p) && WF(c) && FoldsBound(text, fs)
    ensures FoldsBound(text[..p] + c + text[p..], AfterInsert(fs, p, |c|))
  {
    hide WF, Bound, FoldBound, InsertOne;
    if fs != [] {
      InsertedFoldsBound(text, p, c, fs[..|fs| - 1]);
      InsertedFoldBound(text, p, c, fs[|fs| - 1]);
    }
  }

  lemma CutWF(text: Bytes, p: nat, q: nat)
    requires WF(text) && Bound(text, p) && Bound(text, q) && p <= q
    ensures var text' := text[..p] + text[q..];
            && WF(text') && Bound(text', p)
            && (forall r :: 0 <= r <= p && Bound(text, r) ==> Bound(text', r))
            && (forall r :: q <= r && Bound(text, r) ==> Bound(text', r - (q - p)))
  {
    hide WF;
    WFCut(text, p);
    WFCut(text, q);
    WFConcat(text[..p], text[q..]);
    CutBound(text, p, q);
  }

  lemma CutBound(text: Bytes, p: nat, q: nat)
    requires Bound(text, p) && Bound(text, q) && p <= q
    ensures var text' := text[..p] + text[q..];
            && Bound(text', p)
            && (forall r :: 0 <= r <= p && Bound(text, r) ==> Bound(text', r))
            && (forall r :: q <= r && Bound(text, r) ==> Bound(text', r - (q - p)))
  {
    var text' := text[..p] + text[q..];
    assert forall r :: 0 <= r < p ==> text'[r] == text[r];
    assert forall r :: q <= r < |text| ==> text'[r - (q - p)] == text[r];
  }

  lemma CutFoldBound(text: Bytes, p: nat, q: nat, f: Fold)
    requires WF(text) && Bound(text, p) && Bound(text, q) && p <= q && FoldBound(text, f)
    ensures FoldsBound(text[..p] + text[q..], DeleteOne(f, p, q - p))
  {
    hide WF, Bound;
    CutBoundAt(text, p, q, f.start);
    CutBoundAt(text, p, q, f.end);
  }

  lemma CutBoundAt(text: Bytes, p: nat, q: nat, r: nat)
    requires Bound(text, p) && Bound(text, q) && Bound(text, r) && p <= q
    ensures r <= p ==> Bound(text[..p] + text[q..], r)
    ensures q <= r ==> Bound(text[..p] + text[q..], r - (q - p))
  {
    CutBound(text, p, q);
  }

  lemma {:induction false} CutFoldsBound(text: Bytes, p: nat, q: nat, fs: seq<Fold>)
    requires WF(text) && Bound(text, p) && Bound(text, q) && p <= q && FoldsBound(text, fs)
    ensures FoldsBound(text[..p] + text[q..], AfterDelete(fs, p, q - p))
  {
    hide WF, Bound, FoldBound, DeleteOne;
    if fs != [] {
      CutFoldsBound(text, p, q, fs[..|fs| - 1]);
      CutFoldBound(text, p, q, fs[|fs| - 1]);
    }
  }

  lemma InsertedOk(l: Line, c: Bytes)
    requires Ok(l) && WF(c)
    ensures Ok(Inserted(l, c))
  {
    hide Encode1;
    InsertedFine(l, c);
    InsertedWF(l.text, l.pos, c);
    InsertedFoldsBound(l.text, l.pos, c, l.folds);
  }

  lemma CutOk(l: Line, p: nat, q: nat)
    requires Ok(l) && Bound(l.text, p) && Bound(l.text, q) && p <= q
    ensures Ok(Cut(l, p, q))
  {
    CutFine(l, p, q);
    CutWF(l.text, p, q);
    CutFoldsBound(l.text, p, q, l.folds);
  }

  // ---------- the other commands ----------

  // Moving left as long as the byte before the cursor is (or is not) a space.
  ghost function SkipLeft(l: Line, p: nat, spaces: bool): (q: nat)
    requires Ok(l) && Bound(l.text, p)
    ensures q <= p && Bound(l.text, q)
    decreases p
  {
    if p > 0 && (l.text[p-1] == SPACE) == spaces then
      OkStepLeft(l, p);
      SkipLeft(l, p - StepLeft(l, p), spaces)
    else p
  }

  // It does not depend on where the cursor is to begin with.
  lemma {:induction false} SkipLeftAnyPos(l: Line, r: nat, p: nat, spaces: bool)
    requires Ok(l) && Ok(l.(pos := r)) && Bound(l.text, p)
    ensures SkipLeft(l.(pos := r), p, spaces) == SkipLeft(l, p, spaces)
    decreases p
  {
    hide WF, FoldsBound, LeftOf;
    if p > 0 && (l.text[p-1] == SPACE) == spaces {
      OkStepLeft(l, p);
      SkipLeftAnyPos(l, r, p - StepLeft(l, p), spaces);
    }
  }

  // Where the word before the cursor starts.
  ghost function WordStart(l: Line): (q: nat)
    requires Ok(l)
    ensures q <= l.pos && Bound(l.text, q)
  {
    SkipLeft(l, SkipLeft(l, l.pos, true), false)
  }

  const SWAP_MAX := 32    // the size of the buffer that Ctrl-T copies a character through

  /** Ctrl-T: the characters on both sides of the cursor change places, unless one is long or folded. */
  ghost function Swapped(l: Line): Line
    requires CanStepLeft(l, l.pos) && CanStepRight(l, l.pos)
    requires l.pos > 0 ==> StepLeft(l, l.pos) <= l.pos
    requires l.pos < |l.text| ==> 0 <= StepRight(l, l.pos) <= |l.text| - l.pos
  {
    if 0 < l.pos < |l.text| then
      var a, b := StepLeft(l, l.pos), StepRight(l, l.pos);
      if a > SWAP_MAX || b > SWAP_MAX || a < 0 || RangeOverlaps(l.folds, l.pos - a, a + b) then l
      else Exchange(l, l.pos - a, l.pos + b)
    else l
  }

  // The text from p to the cursor and the text from the cursor to q change places; the cursor goes to q.
  function Exchange(l: Line, p: nat, q: nat): Line
    requires p <= l.pos <= q <= |l.text|
  {
    Line(l.text[..p] + l.text[l.pos..q] + l.text[p..l.pos] + l.text[q..], q, l.folds)
  }

  lemma ExchangeOk(l: Line, p: nat, q: nat)
    requires Ok(l) && Bound(l.text, p) && Bound(l.text, q) && p <= l.pos <= q && p < q
    requires !RangeOverlaps(l.folds, p, q - p)
    ensures Ok(Exchange(l, p, q))
  {
    hide WF;
    ExchangeWF(l.text, p, l.pos, q);
    forall i | 0 <= i < |l.folds| ensures FoldBound(Exchange(l, p, q).text, l.folds[i]) {
      assert FoldBound(l.text, l.folds[i]);
      assert q <= l.folds[i].start || p >= l.folds[i].end;
    }
  }

  lemma ExchangeWF(text: Bytes, p: nat, m: nat, q: nat)
    requires WF(text) && Bound(text, p) && Bound(text, m) && Bound(text, q) && p <= m <= q
    ensures var t := text[..p] + text[m..q] + text[p..m] + text[q..];
            && WF(t) && |t| == |text| && Bound(t, p) && Bound(t, q)
            && (forall r :: 0 <= r <= p && Bound(text, r) ==> Bound(t, r))
            && (forall r :: q <= r && Bound(text, r) ==> Bound(t, r))
  {
    hide WF;
    WFCut(text, p);
    WFCut(text, q);
    WFSlice(text, m, q);
    WFSlice(text, p, m);
    WFConcat(text[m..q], text[p..m]);
    ReplacedWF(text[..p], text[m..q] + text[p..m], text[q..]);
    ReplacedBound(text, p, q, text[m..q] + text[p..m]);
    Assoc(text[..p], text[m..q], text[p..m]);
  }

  lemma ReplacedWF(a: Bytes, b: Bytes, c: Bytes)
    requires WF(a) && WF(b) && WF(c)
    ensures WF(a + b + c) && Bound(b + c, 0)
  {
    hide WF;
    WFConcat(a, b);
    WFConcat(a + b, c);
    WFConcat(b, c);
    WFStart(b + c);
  }

  lemma ReplacedBound(text: Bytes, p: nat, q: nat, b: Bytes)
    requires p <= q <= |text| && |b| == q - p && Bound(b + text[q..], 0) && Bound(text, q)
    ensures var t := text[..p] + b + text[q..];
            && |t| == |text| && Bound(t, p) && Bound(t, q)
            && (forall r :: 0 <= r <= p && Bound(text, r) ==> Bound(t, r))
            && (forall r :: q <= r && Bound(text, r) ==> Bound(t, r))
  {
    var t := text[..p] + b + text[q..];
    assert t == text[..p] + (b + text[q..]);
    assert forall r :: 0 <= r < p ==> t[r] == text[r];
    assert forall r :: q <= r < |text| ==> t[r] == text[r];
  }

  ghost function MovedRight(l: Line): Line
    requires Fine(l) && CanStepRight(l, l.pos)
  {
    if l.pos < |l.text| then
      StepRightInside(l, l.pos);
      l.(pos := l.pos + StepRight(l, l.pos))
    else l
  }

  ghost function MovedLeft(l: Line): Line
    requires Fine(l) && CanStepLeft(l, l.pos)
  {
    if l.pos > 0 then
      StepLeftInside(l, l.pos);
      l.(pos := l.pos - StepLeft(l, l.pos))
    else l
  }

  /** The Delete key: what a step right would pass is cut out. */
  ghost function DeletedRight(l: Line): Line
    requires Fine(l) && CanStepRight(l, l.pos)
  {
    if l.pos < |l.text| then
      StepRightInside(l, l.pos);
      Cut(l, l.pos, l.pos + StepRight(l, l.pos))
    else l
  }

  /** Backspace: what a step left would pass is cut out. */
  ghost function DeletedLeft(l: Line): Line
    requires Fine(l) && CanStepLeft(l, l.pos)
  {
    if l.pos > 0 then
      StepLeftInside(l, l.pos);
      Cut(l, l.pos - StepLeft(l, l.pos), l.pos)
    else l
  }

  /** linenoiseEditDeletePrevWord */
  ghost function DeletedWord(l: Line): Line
    requires Ok(l)
  {
    Cut(l, WordStart(l), l.pos)
  }

  /** Ctrl-K */
  function KilledToEnd(l: Line): Line
    requires l.pos <= |l.text|
  {
    Cut(l, l.pos, |l.text|)
  }

  // ---------- every command keeps the line well formed ----------

  lemma LeftKeepsOk(l: Line)
    requires Ok(l)
    ensures CanStepLeft(l, l.pos) && Ok(MovedLeft(l)) && Ok(DeletedLeft(l))
  {
    hide WF, FoldsBound, LeftOf;
    WFCut(l.text, l.pos);
    if l.pos > 0 {
      OkStepLeft(l, l.pos);
      CutOk(l, l.pos - StepLeft(l, l.pos), l.pos);
    }
  }

  lemma RightKeepsOk(l: Line)
    requires Ok(l)
    ensures CanStepRight(l, l.pos) && Ok(MovedRight(l)) && Ok(DeletedRight(l))
  {
    hide WF, FoldsBound, RightOf;
    WFCut(l.text, l.pos);
    if l.pos < |l.text| {
      OkStepRight(l, l.pos);
      CutOk(l, l.pos, l.pos + StepRight(l, l.pos));
    }
  }

  lemma OthersKeepOk(l: Line)
    requires Ok(l)
    ensures Ok(l.(pos := 0)) && Ok(l.(pos := |l.text|)) && Ok(DeletedWord(l)) && Ok(KilledToEnd(l))
  {
    hide WF, FoldsBound;
    WFStart(l.text);
    CutOk(l, WordStart(l), l.pos);
    CutOk(l, l.pos, |l.text|);
  }

  lemma SwapKeepsOk(l: Line)
    requires Ok(l)
    ensures CanStepLeft(l, l.pos) && CanStepRight(l, l.pos)
    ensures l.pos > 0 ==> 0 < StepLeft(l, l.pos) <= l.pos
    ensures l.pos < |l.text| ==> 0 < StepRight(l, l.pos) <= |l.text| - l.pos
    ensures Ok(Swapped(l))
  {
    hide WF, FoldsBound, LeftOf, RightOf, RangeOverlaps;
    WFCut(l.text, l.pos);
    if 0 < l.pos { OkStepLeft(l, l.pos); }
    if l.pos < |l.text| { OkStepRight(l, l.pos); }
    if 0 < l.pos < |l.text| {
      var p, q := l.pos - StepLeft(l, l.pos), l.pos + StepRight(l, l.pos);
      if !RangeOverlaps(l.folds, p, q - p) { ExchangeOk(l, p, q); }
    }
  }

  // Byte i is among those that a fold hides.
  ghost predicate InFold(fs: seq<Fold>, i: int) {
    exists k :: 0 <= k < |fs| && fs[k].start <= i < fs[k].end
  }

  // Every newline of the text lies in a fold.
  ghost predicate LfFolded(l: Line) {
    forall i :: 0 <= i < |l.text| && l.text[i] == LF ==> InFold(l.folds, i)
  }
}
