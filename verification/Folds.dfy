/** Folds: byte ranges of the edited line that are shown as a short marker. The line state keeps them in
    two parallel arrays, adjusted in place after every edit. */
module Folds {
  import opened Utf8

  const MAX_FOLDS := 16

  datatype Fold = Fold(start: int, end: int)

  // Sorted, non-empty, disjoint, and inside a text of m bytes.
  predicate Ordered(fs: seq<Fold>, m: int) {
    fs == [] ||
    var f := fs[|fs| - 1];
    0 <= f.start < f.end <= m && Ordered(fs[..|fs| - 1], f.start)
  }

  lemma {:induction false} OrderedAt(fs: seq<Fold>, m: int)
    requires Ordered(fs, m)
    ensures forall i :: 0 <= i < |fs| ==> 0 <= fs[i].start < fs[i].end <= m
    ensures forall i, j :: 0 <= i < j < |fs| ==> fs[i].end <= fs[j].start
  {
    if fs != [] {
      OrderedAt(fs[..|fs| - 1], fs[|fs| - 1].start);
    }
  }

  lemma OrderedWider(fs: seq<Fold>, m: int, n: int)
    requires Ordered(fs, m) && m <= n
    ensures Ordered(fs, n)
  {}

  lemma OrderedSnoc(fs: seq<Fold>, f: Fold)
    requires Ordered(fs, f.start) && 0 <= f.start < f.end
    ensures Ordered(fs + [f], f.end)
  {
    assert (fs + [f])[..|fs|] == fs;
  }

  lemma OrderedPlus(fs: seq<Fold>, a: int, f: Fold, m: int)
    requires Ordered(fs, a) && a <= f.start && 0 <= f.start < f.end <= m
    ensures Ordered(fs + [f], m)
  {
    hide Ordered;
    OrderedWider(fs, a, f.start);
    OrderedSnoc(fs, f);
    OrderedWider(fs + [f], f.end, m);
  }

  // The position is strictly inside a fold.
  predicate Inside(p: int, f: Fold) {
    f.start < p < f.end
  }

  // ---------- what an edit does to the folds ----------

  function InsertOne(f: Fold, p: int, n: int): seq<Fold> {
    if p <= f.start then [Fold(f.start + n, f.end + n)]
    else if p < f.end then []
    else [f]
  }

  function AfterInsert(fs: seq<Fold>, p: int, n: int): seq<Fold> {
    if fs == [] then []
    else AfterInsert(fs[..|fs| - 1], p, n) + InsertOne(fs[|fs| - 1], p, n)
  }

  function DeleteOne(f: Fold, p: int, n: int): seq<Fold> {
    if p + n <= f.start then [Fold(f.start - n, f.end - n)]
    else if p >= f.end then [f]
    else []
  }

  function AfterDelete(fs: seq<Fold>, p: int, n: int): seq<Fold> {
    if fs == [] then []
    else AfterDelete(fs[..|fs| - 1], p, n) + DeleteOne(fs[|fs| - 1], p, n)
  }

  // One more fold, put after those that start no later.
  function Added(fs: seq<Fold>, f: Fold): seq<Fold> {
    if fs != [] && f.start < fs[|fs| - 1].start then Added(fs[..|fs| - 1], f) + [fs[|fs| - 1]]
    else fs + [f]
  }

  lemma {:induction false} AfterInsertConcat(a: seq<Fold>, b: seq<Fold>, p: int, n: int)
    ensures AfterInsert(a + b, p, n) == AfterInsert(a, p, n) + AfterInsert(b, p, n)
  {
    hide InsertOne;
    if b == [] {
      assert a + b == a;
    } else {
      assert (a + b)[..|a + b| - 1] == a + b[..|b| - 1];
      AfterInsertConcat(a, b[..|b| - 1], p, n);
    }
  }

  lemma {:induction false} AfterDeleteConcat(a: seq<Fold>, b: seq<Fold>, p: int, n: int)
    ensures AfterDelete(a + b, p, n) == AfterDelete(a, p, n) + AfterDelete(b, p, n)
  {
    hide DeleteOne;
    if b == [] {
      assert a + b == a;
    } else {
      assert (a + b)[..|a + b| - 1] == a + b[..|b| - 1];
      AfterDeleteConcat(a, b[..|b| - 1], p, n);
    }
  }

  // ---------- surviving folds hide the same text ----------

  // The text that a fold hides.
  function HiddenBy(text: Bytes, f: Fold): Bytes {
    if 0 <= f.start <= f.end <= |text| then text[f.start..f.end] else []
  }

  // The texts that the folds hide, in order.
  function Hidden(text: Bytes, fs: seq<Fold>): seq<Bytes> {
    if fs == [] then []
    else Hidden(text, fs[..|fs| - 1]) + [HiddenBy(text, fs[|fs| - 1])]
  }

  // The folds that an insertion at p, or a deletion of p..p+n, leaves untouched.
  function Untouched(fs: seq<Fold>, p: int, n: int): (r: seq<Fold>) {
    if fs == [] then []
    else
      var f := fs[|fs| - 1];
      Untouched(fs[..|fs| - 1], p, n) + (if p + n <= f.start || f.end <= p then [f] else [])
  }

  lemma {:induction false} UntouchedOrdered(fs: seq<Fold>, p: int, n: int, m: int)
    requires Ordered(fs, m)
    ensures Ordered(Untouched(fs, p, n), m)
  {
    if fs != [] {
      var f := fs[|fs| - 1];
      UntouchedOrdered(fs[..|fs| - 1], p, n, f.start);
      var r := Untouched(fs[..|fs| - 1], p, n);
      OrderedWider(r, f.start, m);
      assert r + [] == r;
      assert (r + [f])[..|r|] == r;
    }
  }

  lemma HiddenSnoc(text: Bytes, fs: seq<Fold>, f: Fold)
    ensures Hidden(text, fs + [f]) == Hidden(text, fs) + [HiddenBy(text, f)]
  {
    assert (fs + [f])[..|fs|] == fs;
  }

  // Where the end m of the text lies after an insertion at p, or a deletion of p..p+n.
  function Grown(m: int, p: int, n: int): int {
    if m <= p then m else m + n
  }

  function Shrunk(m: int, p: int, n: int): int {
    if m <= p then m else if m < p + n then p else m - n
  }

  // What becomes of the last fold.
  lemma AfterEditLast(fs: seq<Fold>, p: int, n: int)
    requires fs != []
    ensures var f, fs0 := fs[|fs| - 1], fs[..|fs| - 1];
            && AfterInsert(fs, p, n) == AfterInsert(fs0, p, n) + InsertOne(f, p, n)
            && AfterDelete(fs, p, n) == AfterDelete(fs0, p, n) + DeleteOne(f, p, n)
            && Untouched(fs, p, n) == Untouched(fs0, p, n) + (if p + n <= f.start || f.end <= p then [f] else [])
  {
    hide InsertOne, DeleteOne;
  }

  lemma AfterInsertLast(fs: seq<Fold>, p: int, n: int)
    requires fs != []
    ensures var f, r := fs[|fs| - 1], AfterInsert(fs[..|fs| - 1], p, n);
            AfterInsert(fs, p, n) == if p <= f.start then r + [Fold(f.start + n, f.end + n)]
                                     else if p < f.end then r
                                     else r + [f]
  {
    hide AfterInsert;
    AfterEditLast(fs, p, n);
    assert AfterInsert(fs[..|fs| - 1], p, n) + [] == AfterInsert(fs[..|fs| - 1], p, n);
  }

  lemma AfterDeleteLast(fs: seq<Fold>, p: int, n: int)
    requires fs != []
    ensures var f, r := fs[|fs| - 1], AfterDelete(fs[..|fs| - 1], p, n);
            AfterDelete(fs, p, n) == if p + n <= f.start then r + [Fold(f.start - n, f.end - n)]
                                     else if p >= f.end then r + [f]
                                     else r
  {
    hide AfterDelete;
    AfterEditLast(fs, p, n);
    assert AfterDelete(fs[..|fs| - 1], p, n) + [] == AfterDelete(fs[..|fs| - 1], p, n);
  }

  lemma UntouchedLast(fs: seq<Fold>, p: int, n: int)
    requires fs != []
    ensures var f, u := fs[|fs| - 1], Untouched(fs[..|fs| - 1], p, n);
            Untouched(fs, p, n) == if p + n <= f.start || p >= f.end then u + [f] else u
  {
    hide Untouched;
    AfterEditLast(fs, p, n);
    assert Untouched(fs[..|fs| - 1], p, n) + [] == Untouched(fs[..|fs| - 1], p, n);
  }

  lemma NoFolds(text: Bytes, p: int, n: int, m: int)
    ensures AfterInsert([], p, n) == AfterDelete([], p, n) == Untouched([], p, n) == [] && Hidden(text, []) == []
    ensures Ordered([], m)
  {}

  lemma {:induction false} InsertOrdered(fs: seq<Fold>, p: int, n: int, m: int)
    requires Ordered(fs, m) && n >= 0
    ensures Ordered(AfterInsert(fs, p, n), Grown(m, p, n))
  {
    hide AfterInsert, Ordered;
    if fs == [] {
      NoFolds([], p, n, Grown(m, p, n));
    } else {
      var f := fs[|fs| - 1];
      OrderedLast(fs, m);
      AfterInsertLast(fs, p, n);
      InsertOrdered(fs[..|fs| - 1], p, n, f.start);
      var r := AfterInsert(fs[..|fs| - 1], p, n);
      if p <= f.start {
        OrderedPlus(r, Grown(f.start, p, n), Fold(f.start + n, f.end + n), Grown(m, p, n));
      } else if p < f.end {
        OrderedWider(r, Grown(f.start, p, n), Grown(m, p, n));
      } else {
        OrderedPlus(r, f.start, f, Grown(m, p, n));
      }
    }
  }

  lemma {:induction false} DeleteOrdered(fs: seq<Fold>, p: int, n: int, m: int)
    requires Ordered(fs, m) && n >= 0 && p >= 0
    ensures Ordered(AfterDelete(fs, p, n), Shrunk(m, p, n))
  {
    hide AfterDelete, Ordered;
    if fs == [] {
      NoFolds([], p, n, Shrunk(m, p, n));
    } else {
      var f := fs[|fs| - 1];
      OrderedLast(fs, m);
      AfterDeleteLast(fs, p, n);
      DeleteOrdered(fs[..|fs| - 1], p, n, f.start);
      var r := AfterDelete(fs[..|fs| - 1], p, n);
      if p + n <= f.start {
        OrderedPlus(r, Shrunk(f.start, p, n), Fold(f.start - n, f.end - n), Shrunk(m, p, n));
      } else if p >= f.end {
        OrderedPlus(r, f.start, f, Shrunk(m, p, n));
      } else {
        OrderedWider(r, Shrunk(f.start, p, n), Shrunk(m, p, n));
      }
    }
  }

  /** An insertion drops exactly the folds it lands strictly inside; every other fold still hides, byte for
      byte, what it hid before; and the folds stay sorted and disjoint. */
  lemma InsertKeepsHidden(text: Bytes, c: Bytes, p: nat, fs: seq<Fold>)
    requires p <= |text| && Ordered(fs, |text|)
    ensures var text' := text[..p] + c + text[p..];
            var fs' := AfterInsert(fs, p, |c|);
            && Ordered(fs', |text'|)
            && Ordered(Untouched(fs, p, 0), |text|)
            && Hidden(text', fs') == Hidden(text, Untouched(fs, p, 0))
  {
    UntouchedOrdered(fs, p, 0, |text|);
    InsertOrdered(fs, p, |c|, |text|);
    var text' := text[..p] + c + text[p..];
    OrderedWider(AfterInsert(fs, p, |c|), Grown(|text|, p, |c|), |text'|);
    InsertHidden(text, c, p, fs, |text|);
  }

  lemma {:induction false} InsertHidden(text: Bytes, c: Bytes, p: nat, fs: seq<Fold>, m: nat)
    requires p <= |text| && m <= |text| && Ordered(fs, m)
    ensures Hidden(text[..p] + c + text[p..], AfterInsert(fs, p, |c|)) == Hidden(text, Untouched(fs, p, 0))
  {
    hide Ordered, Hidden, AfterInsert, Untouched, HiddenBy;
    var text' := text[..p] + c + text[p..];
    if fs == [] {
      NoFolds(text, p, 0, 0);
      NoFolds(text', p, |c|, 0);
    } else {
      var f, fs0 := fs[|fs| - 1], fs[..|fs| - 1];
      var r, u := AfterInsert(fs0, p, |c|), Untouched(fs0, p, 0);
      OrderedLast(fs, m);
      AfterInsertLast(fs, p, |c|);
      UntouchedLast(fs, p, 0);
      InsertHidden(text, c, p, fs0, f.start);
      InsertOneHidden(text, c, p, f);
      if p <= f.start {
        HiddenSnoc(text', r, Fold(f.start + |c|, f.end + |c|));
        HiddenSnoc(text, u, f);
      } else if p >= f.end {
        HiddenSnoc(text', r, f);
        HiddenSnoc(text, u, f);
      }
    }
  }

  lemma OrderedLast(fs: seq<Fold>, m: int)
    requires Ordered(fs, m) && fs != []
    ensures var f := fs[|fs| - 1]; 0 <= f.start < f.end <= m && Ordered(fs[..|fs| - 1], f.start) && Ordered(fs, f.end)
  {}

  lemma InsertOneHidden(text: Bytes, c: Bytes, p: nat, f: Fold)
    requires p <= |text| && 0 <= f.start < f.end <= |text|
    ensures var text' := text[..p] + c + text[p..];
            && (p <= f.start ==> HiddenBy(text', Fold(f.start + |c|, f.end + |c|)) == HiddenBy(text, f))
            && (p >= f.end ==> HiddenBy(text', f) == HiddenBy(text, f))
  {
    var text' := text[..p] + c + text[p..];
    if p <= f.start {
      assert text'[f.start + |c|..f.end + |c|] == text[f.start..f.end];
    } else if p >= f.end {
      assert text'[f.start..f.end] == text[f.start..f.end];
    }
  }

  /** A deletion drops exactly the folds that the deleted range overlaps (of an empty range, the folds it
      lies strictly inside); every other fold still hides what it hid; the folds stay sorted and disjoint. */
  lemma DeleteKeepsHidden(text: Bytes, p: nat, n: nat, fs: seq<Fold>)
    requires p + n <= |text| && Ordered(fs, |text|)
    ensures var text' := text[..p] + text[p + n..];
            var fs' := AfterDelete(fs, p, n);
            && Ordered(fs', |text'|)
            && Ordered(Untouched(fs, p, n), |text|)
            && Hidden(text', fs') == Hidden(text, Untouched(fs, p, n))
  {
    UntouchedOrdered(fs, p, n, |text|);
    DeleteOrdered(fs, p, n, |text|);
    var text' := text[..p] + text[p + n..];
    OrderedWider(AfterDelete(fs, p, n), Shrunk(|text|, p, n), |text'|);
    DeleteHidden(text, p, n, fs, |text|);
  }

  lemma {:induction false} DeleteHidden(text: Bytes, p: nat, n: nat, fs: seq<Fold>, m: nat)
    requires p + n <= |text| && m <= |text| && Ordered(fs, m)
    ensures Hidden(text[..p] + text[p + n..], AfterDelete(fs, p, n)) == Hidden(text, Untouched(fs, p, n))
  {
    hide Ordered, Hidden, AfterDelete, Untouched, HiddenBy;
    var text' := text[..p] + text[p + n..];
    if fs == [] {
      NoFolds(text, p, n, 0);
      NoFolds(text', p, n, 0);
    } else {
      var f, fs0 := fs[|fs| - 1], fs[..|fs| - 1];
      var r, u := AfterDelete(fs0, p, n), Untouched(fs0, p, n);
      OrderedLast(fs, m);
      AfterDeleteLast(fs, p, n);
      UntouchedLast(fs, p, n);
      DeleteHidden(text, p, n, fs0, f.start);
      DeleteOneHidden(text, p, n, f);
      if p + n <= f.start {
        HiddenSnoc(text', r, Fold(f.start - n, f.end - n));
        HiddenSnoc(text, u, f);
      } else if p >= f.end {
        HiddenSnoc(text', r, f);
        HiddenSnoc(text, u, f);
      }
    }
  }

  lemma DeleteOneHidden(text: Bytes, p: nat, n: nat, f: Fold)
    requires p + n <= |text| && 0 <= f.start < f.end <= |text|
    ensures var text' := text[..p] + text[p + n..];
            && (p + n <= f.start ==> HiddenBy(text', Fold(f.start - n, f.end - n)) == HiddenBy(text, f))
            && (p >= f.end ==> HiddenBy(text', f) == HiddenBy(text, f))
  {
    var text' := text[..p] + text[p + n..];
    if p + n <= f.start {
      assert text'[f.start - n..f.end - n] == text[f.start..f.end];
    } else if p >= f.end {
      assert text'[f.start..f.end] == text[f.start..f.end];
    }
  }

  // ---------- the parallel arrays ----------

  class FoldTable {
    const starts: array<int>    // fold_start
    const ends: array<int>      // fold_end
    var count: int              // fold_count
    ghost var folds: seq<Fold>  // the ranges held, in order

    ghost predicate Valid()
      reads this, starts, ends
    {
      && starts.Length == MAX_FOLDS && ends.Length == MAX_FOLDS && starts != ends
      && 0 <= count == |folds| <= MAX_FOLDS
      && forall i :: 0 <= i < count ==> folds[i] == Fold(starts[i], ends[i])
    }

    constructor ()
      ensures Valid() && fresh(starts) && fresh(ends)
      ensures folds == []
    {
      starts := new int[MAX_FOLDS];
      ends := new int[MAX_FOLDS];
      count := 0;
      folds := [];
    }

    /** linenoiseFoldClear */
    method Clear()
      requires Valid()
      modifies this
      ensures Valid() && folds == []
    {
      count := 0;
      folds := [];
    }

    /** linenoiseFoldRemove */
    method Remove(j: nat)
      requires Valid() && j < count
      modifies this, starts, ends
      ensures Valid() && folds == old(folds[..j] + folds[j+1..])
    {
      forall i | j <= i < count - 1 { starts[i] := starts[i+1]; }
      forall i | j <= i < count - 1 { ends[i] := ends[i+1]; }
      count := count - 1;
      folds := folds[..j] + folds[j+1..];
    }

    /** linenoiseFoldAdd: a range that is empty, or one too many, is not remembered. */
    method Add(start: int, end: int)
      requires Valid()
      modifies this, starts, ends
      ensures Valid()
      ensures folds == if start >= end || |old(folds)| == MAX_FOLDS then old(folds)
                       else Added(old(folds), Fold(start, end))
    {
      hide Added, AddBefore, PutAt;
      if start >= end || count == MAX_FOLDS {
        return;
      }
      var j := count;
      AddedAt(folds, Fold(start, end), count);
      while j > 0 && start < starts[j-1]
        invariant 0 <= j <= count == |folds| && folds == old(folds)
        invariant forall i :: 0 <= i < j ==> folds[i] == Fold(starts[i], ends[i])
        invariant forall i :: j < i <= count ==> Fold(starts[i], ends[i]) == folds[i-1]
        invariant AddBefore(folds, Fold(start, end), j)
      {
        AddedAt(folds, Fold(start, end), j);
        starts[j] := starts[j-1];
        ends[j] := ends[j-1];
        j := j - 1;
      }
      AddedHere(folds, Fold(start, end), j);
      starts[j] := start;
      ends[j] := end;
      count := count + 1;
      folds := PutAt(folds, j, Fold(start, end));
    }

    method Shift(j: nat, d: int)
      requires Valid() && j < count
      modifies starts, ends, `folds
      ensures Valid()
      ensures folds == old(folds[j := Fold(folds[j].start + d, folds[j].end + d)])
    {
      starts[j] := starts[j] + d;
      ends[j] := ends[j] + d;
      folds := folds[j := Fold(starts[j], ends[j])];
    }

    /** linenoiseAdjustFoldsAfterInsert */
    method AdjustAfterInsert(pos: int, len: int)
      requires Valid()
      modifies this, starts, ends
      ensures Valid() && folds == AfterInsert(old(folds), pos, len)
    {
      hide InsertDone, AfterInsert, InsertOne;
      ghost var was := folds;
      ghost var i := 0;
      var j := 0;
      AfterInsertStart(was, pos, len);
      while j < count
        invariant Valid() && 0 <= i <= |was| && 0 <= j <= count && count - j == |was| - i
        invariant InsertDone(folds, j, was, i, pos, len)
        decreases count - j
      {
        AfterInsertNext(folds, j, was, i, pos, len);
        if pos <= starts[j] {
          Shift(j, len);
          j := j + 1;
        } else if pos < ends[j] {
          Remove(j);
        } else {
          j := j + 1;
        }
        i := i + 1;
      }
      AfterInsertEnd(folds, j, was, pos, len);
    }

    /** linenoiseAdjustFoldsAfterDelete */
    method AdjustAfterDelete(pos: int, len: int)
      requires Valid()
      modifies this, starts, ends
      ensures Valid() && folds == AfterDelete(old(folds), pos, len)
    {
      hide DeleteDone, AfterDelete, DeleteOne;
      ghost var was := folds;
      ghost var i := 0;
      var end := pos + len;
      var j := 0;
      AfterDeleteStart(was, pos, len);
      while j < count
        invariant Valid() && 0 <= i <= |was| && 0 <= j <= count && count - j == |was| - i
        invariant DeleteDone(folds, j, was, i, pos, len)
        decreases count - j
      {
        AfterDeleteNext(folds, j, was, i, pos, len);
        if end <= starts[j] {
          Shift(j, -len);
          j := j + 1;
        } else if pos >= ends[j] {
          j := j + 1;
        } else {
          Remove(j);
        }
        i := i + 1;
      }
      AfterDeleteEnd(folds, j, was, pos, len);
    }

    /** linenoiseRangeOverlapsFold */
    method Overlaps(pos: int, len: int) returns (yes: bool)
      requires Valid()
      ensures yes <==> RangeOverlaps(folds, pos, len)
    {
      var end := pos + len;
      var j := 0;
      while j < count
        invariant 0 <= j <= count
        invariant forall i :: 0 <= i < j ==> !(end > folds[i].start && pos < folds[i].end)
      {
        if end > starts[j] && pos < ends[j] {
          assert folds[j] == Fold(starts[j], ends[j]);
          return true;
        }
        j := j + 1;
      }
      return false;
    }
  }

  // The range of len bytes at pos shares a byte with a fold.
  ghost predicate RangeOverlaps(fs: seq<Fold>, pos: int, len: int) {
    exists i :: 0 <= i < |fs| && pos + len > fs[i].start && pos < fs[i].end
  }

  // No fold shares a byte with the n bytes at p.
  predicate Beside(f: Fold, p: int, n: int) {
    f.end <= p || p + n <= f.start
  }

  predicate AllBeside(fs: seq<Fold>, p: int, n: int) {
    forall i :: 0 <= i < |fs| ==> Beside(fs[i], p, n)
  }

  lemma {:induction false} AddedOrdered(fs: seq<Fold>, f: Fold, m: int)
    requires Ordered(fs, m) && 0 <= f.start < f.end <= m
    requires AllBeside(fs, f.start, f.end - f.start)
    ensures Ordered(Added(fs, f), m)
  {
    hide Ordered, Added, AllBeside;
    AddedIs(fs, f);
    if fs == [] {
      OrderedNone(f.start);
      OrderedPlus(fs, f.start, f, m);
    } else {
      var g, fs0 := fs[|fs| - 1], fs[..|fs| - 1];
      OrderedLast(fs, m);
      BesideLast(fs, f.start, f.end - f.start);
      if f.start < g.start {
        AddedOrdered(fs0, f, g.start);
        OrderedPlus(Added(fs0, f), g.start, g, m);
      } else {
        OrderedPlus(fs, g.end, f, m);
      }
    }
  }

  lemma AddedIs(fs: seq<Fold>, f: Fold)
    ensures fs == [] ==> Added(fs, f) == fs + [f]
    ensures fs != [] ==> var m := |fs| - 1;
                         Added(fs, f) == if f.start < fs[m].start then Added(fs[..m], f) + [fs[m]] else fs + [f]
  {}

  lemma OrderedNone(m: int)
    ensures Ordered([], m)
  {}

  lemma BesideLast(fs: seq<Fold>, p: int, n: int)
    requires AllBeside(fs, p, n) && fs != []
    ensures Beside(fs[|fs| - 1], p, n) && AllBeside(fs[..|fs| - 1], p, n)
  {}

  ghost function PutAt(was: seq<Fold>, j: nat, f: Fold): (now: seq<Fold>)
    requires j <= |was|
    ensures |now| == |was| + 1 && now[j] == f
    ensures forall i :: 0 <= i < j ==> now[i] == was[i]
    ensures forall i :: j < i < |now| ==> now[i] == was[i-1]
  {
    was[..j] + [f] + was[j..]
  }

  // The new fold goes somewhere before j.
  ghost predicate AddBefore(was: seq<Fold>, f: Fold, j: nat) {
    j <= |was| && Added(was, f) == Added(was[..j], f) + was[j..]
  }

  lemma AddedAt(was: seq<Fold>, f: Fold, j: nat)
    requires j <= |was|
    ensures j == |was| ==> AddBefore(was, f, j)
    ensures AddBefore(was, f, j) && 0 < j && f.start < was[j-1].start ==> AddBefore(was, f, j - 1)
  {
    assert was[..|was|] == was && was[|was|..] == [];
    if 0 < j && f.start < was[j-1].start {
      assert was[..j][..j-1] == was[..j-1];
      assert was[j-1..] == [was[j-1]] + was[j..];
    }
  }

  lemma AddedHere(was: seq<Fold>, f: Fold, j: nat)
    requires AddBefore(was, f, j) && (j == 0 || f.start >= was[j-1].start)
    ensures Added(was, f) == PutAt(was, j, f)
  {}

  // The state of an adjusting loop: the folds up to i are done and take j places, the others are still to do.
  ghost predicate InsertDone(now: seq<Fold>, j: int, was: seq<Fold>, i: nat, p: int, n: int) {
    && i <= |was|
    && now == AfterInsert(was[..i], p, n) + was[i..]
    && j == |AfterInsert(was[..i], p, n)|
  }

  lemma AfterInsertStart(was: seq<Fold>, p: int, n: int)
    ensures InsertDone(was, 0, was, 0, p, n)
  {}

  lemma AfterInsertNext(now: seq<Fold>, j: nat, was: seq<Fold>, i: nat, p: int, n: int)
    requires InsertDone(now, j, was, i, p, n) && i < |was|
    ensures j < |now| && now[j] == was[i]
    ensures p <= was[i].start ==> InsertDone(now[j := Fold(was[i].start + n, was[i].end + n)], j + 1, was, i + 1, p, n)
    ensures was[i].start < p < was[i].end ==> InsertDone(now[..j] + now[j+1..], j, was, i + 1, p, n)
    ensures p > was[i].start && p >= was[i].end ==> InsertDone(now, j + 1, was, i + 1, p, n)
  {
    hide AfterInsert;
    AfterInsertSnoc(was, i, p, n);
    InPlace(AfterInsert(was[..i], p, n), was, i, Fold(was[i].start + n, was[i].end + n));
  }

  lemma AfterInsertSnoc(was: seq<Fold>, i: nat, p: int, n: int)
    requires i < |was|
    ensures AfterInsert(was[..i+1], p, n) == AfterInsert(was[..i], p, n) + InsertOne(was[i], p, n)
  {
    assert was[..i+1][..i] == was[..i];
  }

  lemma AfterInsertEnd(now: seq<Fold>, j: int, was: seq<Fold>, p: int, n: int)
    requires InsertDone(now, j, was, |was|, p, n)
    ensures now == AfterInsert(was, p, n)
  {
    assert was[..|was|] == was;
  }

  ghost predicate DeleteDone(now: seq<Fold>, j: int, was: seq<Fold>, i: nat, p: int, n: int) {
    && i <= |was|
    && now == AfterDelete(was[..i], p, n) + was[i..]
    && j == |AfterDelete(was[..i], p, n)|
  }

  lemma AfterDeleteStart(was: seq<Fold>, p: int, n: int)
    ensures DeleteDone(was, 0, was, 0, p, n)
  {}

  lemma AfterDeleteNext(now: seq<Fold>, j: nat, was: seq<Fold>, i: nat, p: int, n: int)
    requires DeleteDone(now, j, was, i, p, n) && i < |was|
    ensures j < |now| && now[j] == was[i]
    ensures p + n <= was[i].start ==> DeleteDone(now[j := Fold(was[i].start - n, was[i].end - n)], j + 1, was, i + 1, p, n)
    ensures p + n > was[i].start && p < was[i].end ==> DeleteDone(now[..j] + now[j+1..], j, was, i + 1, p, n)
    ensures p + n > was[i].start && p >= was[i].end ==> DeleteDone(now, j + 1, was, i + 1, p, n)
  {
    hide AfterDelete;
    AfterDeleteSnoc(was, i, p, n);
    InPlace(AfterDelete(was[..i], p, n), was, i, Fold(was[i].start - n, was[i].end - n));
  }

  lemma AfterDeleteSnoc(was: seq<Fold>, i: nat, p: int, n: int)
    requires i < |was|
    ensures AfterDelete(was[..i+1], p, n) == AfterDelete(was[..i], p, n) + DeleteOne(was[i], p, n)
  {
    assert was[..i+1][..i] == was[..i];
  }

  lemma AfterDeleteEnd(now: seq<Fold>, j: int, was: seq<Fold>, p: int, n: int)
    requires DeleteDone(now, j, was, |was|, p, n)
    ensures now == AfterDelete(was, p, n)
  {
    assert was[..|was|] == was;
  }

  // One turn of an adjusting loop: the folds done so far, r, are followed by those still to do.
  lemma InPlace(r: seq<Fold>, was: seq<Fold>, i: nat, g: Fold)
    requires i < |was|
    ensures var now, j := r + was[i..], |r|;
            && now[j] == was[i]
            && now[j := g] == (r + [g]) + was[i+1..]
            && now[..j] + now[j+1..] == (r + []) + was[i+1..]
            && now == (r + [was[i]]) + was[i+1..]
  {}
}
