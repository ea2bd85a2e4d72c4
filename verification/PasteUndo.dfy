/** One Backspace takes back a folded paste. */
module PasteUndo {
  import opened Utf8
  import opened Folds
  import opened Lines
  import opened Paste
  import opened Editors

  lemma {:induction false} DeleteUndoesInsert(fs: seq<Fold>, p: int, n: int, m: int)
    requires Ordered(fs, m) && n > 0
    ensures AfterDelete(AfterInsert(fs, p, n), p, n) == Untouched(fs, p, 0)
  {
    if fs != [] {
      var f, fs0 := fs[|fs| - 1], fs[..|fs| - 1];
      DeleteUndoesInsert(fs0, p, n, f.start);
      AfterDeleteConcat(AfterInsert(fs0, p, n), InsertOne(f, p, n), p, n);
      DeleteUndoesInsertOne(f, p, n);
    }
  }

  lemma DeleteUndoesInsertOne(f: Fold, p: int, n: int)
    requires f.start < f.end && n > 0
    ensures AfterDelete(InsertOne(f, p, n), p, n) == if p <= f.start || f.end <= p then [f] else []
  {
    if p <= f.start {
      AfterDeleteOfOne(Fold(f.start + n, f.end + n), p, n);
    } else if f.end <= p {
      AfterDeleteOfOne(f, p, n);
    }
  }

  lemma AfterDeleteOfOne(f: Fold, p: int, n: int)
    ensures AfterDelete([f], p, n) == DeleteOne(f, p, n)
  {
    assert [f][..0] == [];
  }

  lemma AfterDeleteOfExact(p: int, n: int)
    requires n > 0
    ensures AfterDelete([Fold(p, p + n)], p, n) == []
  {
    AfterDeleteOfOne(Fold(p, p + n), p, n);
  }

  // The deletion of exactly the range of the added fold drops that fold and adjusts the others.
  lemma {:induction false} DeleteDropsAdded(fs: seq<Fold>, p: int, n: int)
    requires n > 0
    ensures AfterDelete(Added(fs, Fold(p, p + n)), p, n) == AfterDelete(fs, p, n)
  {
    hide AfterDelete, DeleteOne;
    var f := Fold(p, p + n);
    if fs != [] && f.start < fs[|fs| - 1].start {
      var fs0, g := fs[..|fs| - 1], fs[|fs| - 1];
      DeleteDropsAdded(fs0, p, n);
      AfterDeleteConcat(Added(fs0, f), [g], p, n);
      AfterDeleteConcat(fs0, [g], p, n);
      assert fs == fs0 + [g];
    } else {
      AfterDeleteConcat(fs, [f], p, n);
      AfterDeleteOfExact(p, n);
      assert AfterDelete(fs, p, n) + [] == AfterDelete(fs, p, n);
    }
  }

  lemma {:induction false} AddedHolds(fs: seq<Fold>, f: Fold)
    ensures exists i :: 0 <= i < |Added(fs, f)| && Added(fs, f)[i] == f
  {
    if fs != [] && f.start < fs[|fs| - 1].start {
      AddedHolds(fs[..|fs| - 1], f);
      var i :| 0 <= i < |Added(fs[..|fs| - 1], f)| && Added(fs[..|fs| - 1], f)[i] == f;
      assert Added(fs, f)[i] == f;
    } else {
      assert Added(fs, f)[|fs|] == f;
    }
  }

  ghost predicate NoneInside(p: int, fs: seq<Fold>) {
    forall i :: 0 <= i < |fs| ==> !Inside(p, fs[i])
  }

  lemma NoneInsideSnoc(p: int, fs: seq<Fold>, f: Fold)
    ensures NoneInside(p, fs + [f]) <==> NoneInside(p, fs) && !Inside(p, f)
  {
    assert (fs + [f])[|fs|] == f;
    assert forall i :: 0 <= i < |fs| ==> (fs + [f])[i] == fs[i];
  }

  lemma {:induction false} UntouchedAll(fs: seq<Fold>, p: int)
    ensures |Untouched(fs, p, 0)| <= |fs|
    ensures Untouched(fs, p, 0) == fs <==> NoneInside(p, fs)
  {
    hide NoneInside;
    if fs == [] {
      NoneInsideNone(p);
    } else {
      var g, f := fs[..|fs| - 1], fs[|fs| - 1];
      UntouchedAll(g, p);
      assert fs == g + [f];
      NoneInsideSnoc(p, g, f);
    }
  }

  lemma NoneInsideNone(p: int)
    ensures NoneInside(p, [])
  {}

  /** After a paste that was folded, one Backspace gives back text, cursor and folds as they were, whatever
      bytes were pasted, exactly when the cursor was not strictly inside a fold. */
  lemma BackspaceUndoesFoldedPaste(l: Line, raw: Bytes, cap: nat)
    requires Fine(l) && raw != [] && PasteFits(l, raw, cap) && ShouldFold(Normal(raw))
    ensures var m := Pasted(l, raw, cap, false);
            && Fine(m) && CanStepLeft(m, m.pos)
            && (DeletedLeft(m) == l <==> NoneInside(l.pos, l.folds))
  {
    hide ShouldFold, Normal, Ordered, AfterInsert, Added, AfterDelete;
    NormalIsClean(raw);
    FoldedThenBackspace(l, Normal(raw));
    FoldedFine(l, Normal(raw));
    UntouchedAll(l.folds, l.pos);
  }

  lemma FoldedThenBackspace(l: Line, c: Bytes)
    requires Fine(l) && c != [] && |l.folds| < MAX_FOLDS
    ensures var m := Folded(l, c);
            && Fine(m) && CanStepLeft(m, m.pos)
            && DeletedLeft(m) == Line(l.text, l.pos, Untouched(l.folds, l.pos, 0))
  {
    hide Ordered, AfterInsert, Added, AfterDelete, Untouched, LeftOf;
    var m, p, n := Folded(l, c), l.pos, |c|;
    var fs := AfterInsert(l.folds, p, n);
    FoldedFine(l, c);
    AddedHolds(fs, Fold(p, p + n));
    var i :| 0 <= i < |m.folds| && m.folds[i] == Fold(p, p + n);
    StepOverFold(m, i);
    assert DeletedLeft(m) == Cut(m, p, p + n);
    assert m.text[..p] + m.text[p + n..] == l.text;
    DeleteDropsAdded(fs, p, n);
    DeleteUndoesInsert(l.folds, p, n, |l.text|);
  }
}
