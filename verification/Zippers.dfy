/** What a user of the editor sees: a row of atoms, each a character or a whole folded text, with the cursor
    between two of them. Every editing command is shown to be the obvious operation on that row.
    The row is the simple case of a text: each of its characters is a grapheme cluster by itself. */
module Zippers {
  import opened Utf8
  import opened Graphemes
  import opened Folds
  import opened Lines
  import opened Paste
  import opened Editors

  // A character that extends nothing and is never extended by such characters; all of ASCII is simple.
  predicate Simple(r: Rune) {
    !IsExtend(r) && !IsRegionalIndicator(r)
  }

  predicate AllSimple(rs: seq<Rune>) {
    forall i :: 0 <= i < |rs| ==> Simple(rs[i])
  }

  datatype Atom = Ch(r: Rune) | Hid(rs: seq<Rune>)

  function AtomRunes(a: Atom): seq<Rune> {
    match a case Ch(r) => [r] case Hid(rs) => rs
  }

  predicate AtomOk(a: Atom) {
    AtomRunes(a) != [] && AllSimple(AtomRunes(a))
  }

  function RunesOf(row: seq<Atom>): seq<Rune> {
    if row == [] then [] else AtomRunes(row[0]) + RunesOf(row[1..])
  }

  // The bytes of an atom, and of a row of them.
  function AtomText(a: Atom): Bytes {
    Encode(AtomRunes(a))
  }

  function TextOf(row: seq<Atom>): Bytes {
    if row == [] then [] else AtomText(row[0]) + TextOf(row[1..])
  }

  function Len(row: seq<Atom>): nat {
    |TextOf(row)|
  }

  // The folds of a row that starts at byte offset `at`.
  function FoldsOf(row: seq<Atom>, at: nat): seq<Fold> {
    if row == [] then []
    else
      var n := |AtomText(row[0])|;
      (if row[0].Hid? then [Fold(at, at + n)] else []) + FoldsOf(row[1..], at + n)
  }

  function Count(row: seq<Atom>): nat {
    if row == [] then 0 else (if row[0].Hid? then 1 else 0) + Count(row[1..])
  }

  predicate RowOk(row: seq<Atom>) {
    forall i :: 0 <= i < |row| ==> AtomOk(row[i])
  }

  datatype Zipper = Zipper(left: seq<Atom>, right: seq<Atom>)

  predicate ZOk(z: Zipper) {
    RowOk(z.left) && RowOk(z.right) && Count(z.left) + Count(z.right) <= MAX_FOLDS
  }

  // The line state that the row stands for.
  function LineOf(z: Zipper): Line {
    var p := Len(z.left);
    Line(TextOf(z.left) + TextOf(z.right), p, FoldsOf(z.left, 0) + FoldsOf(z.right, p))
  }

  // ---------- rows ----------

  lemma {:induction false} TextConcat(a: seq<Atom>, b: seq<Atom>)
    ensures TextOf(a + b) == TextOf(a) + TextOf(b) && Len(a + b) == Len(a) + Len(b)
  {
    hide AtomText;
    if a == [] {
      assert a + b == b;
    } else {
      TextConcat(a[1..], b);
      assert (a + b)[1..] == a[1..] + b;
      Assoc(AtomText(a[0]), TextOf(a[1..]), TextOf(b));
    }
  }

  lemma {:induction false} CountConcat(a: seq<Atom>, b: seq<Atom>)
    ensures Count(a + b) == Count(a) + Count(b)
  {
    if a == [] {
      assert a + b == b;
    } else {
      CountConcat(a[1..], b);
      assert (a + b)[1..] == a[1..] + b;
    }
  }

  lemma FoldsCons(row: seq<Atom>, at: nat)
    requires row != []
    ensures FoldsOf(row, at) == FoldsOf([row[0]], at) + FoldsOf(row[1..], at + |AtomText(row[0])|)
    ensures Len(row) == |AtomText(row[0])| + Len(row[1..])
  {
    OneAtom(row[0], at);
  }

  lemma RowCons(a: seq<Atom>, b: seq<Atom>)
    requires a != []
    ensures (a + b)[0] == a[0] && (a + b)[1..] == a[1..] + b
  {}

  lemma {:induction false} FoldsConcat(a: seq<Atom>, b: seq<Atom>, at: nat)
    ensures FoldsOf(a + b, at) == FoldsOf(a, at) + FoldsOf(b, at + Len(a))
  {
    hide *;
    if a == [] {
      FoldsOfNone(b, at);
    } else {
      var at' := at + |AtomText(a[0])|;
      FoldsConcat(a[1..], b, at');
      RowCons(a, b);
      FoldsCons(a, at);
      FoldsCons(a + b, at);
      AssocFolds(FoldsOf([a[0]], at), FoldsOf(a[1..], at'), FoldsOf(b, at + Len(a)));
    }
  }

  lemma FoldsOfNone(b: seq<Atom>, at: nat)
    ensures [] + b == b && FoldsOf([], at) == [] && Len([]) == 0
    ensures [] + FoldsOf(b, at) == FoldsOf(b, at)
  {}

  lemma {:induction false} FoldsCount(row: seq<Atom>, at: nat)
    ensures |FoldsOf(row, at)| == Count(row)
  {
    if row != [] { FoldsCount(row[1..], at + |AtomText(row[0])|); }
  }

  lemma AtomNotEmpty(a: Atom)
    requires AtomOk(a)
    ensures AtomText(a) != []
  {
    EncodeStart(AtomRunes(a));
  }

  // The folds of a row lie within its bytes and are not empty.
  lemma {:induction false} FoldsWithin(row: seq<Atom>, at: nat)
    requires RowOk(row)
    ensures forall i :: 0 <= i < |FoldsOf(row, at)| ==>
              at <= FoldsOf(row, at)[i].start < FoldsOf(row, at)[i].end <= at + Len(row)
  {
    hide AtomText, AtomOk;
    if row != [] {
      AtomNotEmpty(row[0]);
      FoldsWithin(row[1..], at + |AtomText(row[0])|);
    }
  }

  lemma NothingMore(fs: seq<Fold>, row: seq<Atom>, at: nat)
    requires row == []
    ensures fs + FoldsOf(row, at) == fs && Len(row) == 0
  {}

  lemma {:induction false} FoldsOrdered(fs: seq<Fold>, row: seq<Atom>, at: nat)
    requires RowOk(row) && Ordered(fs, at)
    ensures Ordered(fs + FoldsOf(row, at), at + Len(row))
    decreases |row|
  {
    hide AtomText, AtomOk, Ordered, FoldsOf;
    if row == [] {
      NothingMore(fs, row, at);
    } else {
      AtomNotEmpty(row[0]);
      var n := |AtomText(row[0])|;
      FoldsFirst(row, at);
      OneAtom(row[0], at);
      if row[0].Hid? {
        var f := Fold(at, at + n);
        OrderedSnoc(fs, f);
        FoldsOrdered(fs + [f], row[1..], at + n);
        AssocFolds(fs, [f], FoldsOf(row[1..], at + n));
      } else {
        OrderedWider(fs, at, at + n);
        FoldsOrdered(fs, row[1..], at + n);
        assert FoldsOf(row, at) == FoldsOf(row[1..], at + n);
      }
    }
  }

  lemma AssocFolds(a: seq<Fold>, b: seq<Fold>, c: seq<Fold>)
    ensures (a + b) + c == a + (b + c)
  {}

  lemma LineOfFine(z: Zipper)
    requires ZOk(z)
    ensures Fine(LineOf(z))
  {
    hide RowOk, Ordered;
    EmptyOrdered();
    FoldsOrdered([], z.left, 0);
    assert [] + FoldsOf(z.left, 0) == FoldsOf(z.left, 0);
    FoldsOrdered(FoldsOf(z.left, 0), z.right, Len(z.left));
    FoldsCount(z.left, 0);
    FoldsCount(z.right, Len(z.left));
  }

  lemma EmptyOrdered()
    ensures Ordered([], 0)
  {}

  // ---------- texts ----------

  lemma {:induction false} TextIsEncoding(row: seq<Atom>)
    requires RowOk(row)
    ensures TextOf(row) == Encode(RunesOf(row)) && AllSimple(RunesOf(row))
    ensures WF(TextOf(row)) && Runes(TextOf(row)) == RunesOf(row)
  {
    hide Encode1, Simple;
    if row != [] {
      TextIsEncoding(row[1..]);
      EncodeConcat(AtomRunes(row[0]), RunesOf(row[1..]));
      assert AtomOk(row[0]);
    }
    RunesUnique(RunesOf(row));
  }

  // In a simple text every cluster is one rune.
  lemma SimpleNext(rs: seq<Rune>)
    requires AllSimple(rs) && rs != []
    ensures NextEnd(rs, 0) == 1 && FirstCluster(rs) == [rs[0]]
  {
    if |rs| > 1 { assert Simple(rs[1]); }
    assert Simple(rs[0]);
  }

  lemma SimplePrev(rs: seq<Rune>)
    requires AllSimple(rs) && rs != []
    ensures PrevStart(rs, |rs|) == |rs| - 1 && LastCluster(rs) == [rs[|rs| - 1]]
  {
    assert Simple(rs[|rs| - 1]);
    if |rs| > 1 { assert Simple(rs[|rs| - 2]); }
  }

  // ---------- one step of the cursor passes one atom ----------

  lemma StepRightIsAtom(z: Zipper)
    requires ZOk(z) && z.right != []
    ensures var l := LineOf(z);
            Fine(l) && CanStepRight(l, l.pos) && l.pos < |l.text| && StepRight(l, l.pos) == |AtomText(z.right[0])|
  {
    hide AtomText, RowOk, Ordered, FoldsOf, RightOf;
    var l, p := LineOf(z), Len(z.left);
    LineOfFine(z);
    FirstAtom(z.right, p);
    assert l.text[p..] == TextOf(z.right);
    TextIsEncoding(z.right);
    if z.right[0].Hid? {
      var i := |FoldsOf(z.left, 0)|;
      assert l.folds[i] == FoldsOf(z.right, p)[0];
      StepOverFold(l, i);
    } else {
      FoldsWithin(z.left, 0);
      NoFoldStarts(z);
      NextOfSimple(l.text, p, RunesOf(z.right));
      RightOfCluster(l.text, l.folds, p);
    }
  }

  lemma FirstAtom(row: seq<Atom>, at: nat)
    requires RowOk(row) && row != []
    ensures AtomText(row[0]) != [] && RowOk(row[1..])
    ensures Len(row) == |AtomText(row[0])| + Len(row[1..]) && Len(row) > 0
    ensures row[0].Hid? ==> FoldsOf(row, at) != [] && FoldsOf(row, at)[0] == Fold(at, at + |AtomText(row[0])|)
    ensures row[0].Ch? ==> FoldsOf(row, at) == FoldsOf(row[1..], at + |AtomText(row[0])|)
    ensures row[0].Ch? ==> RunesOf(row) != [] && Encode1(RunesOf(row)[0]) == AtomText(row[0])
  {
    hide Encode1;
    AtomNotEmpty(row[0]);
    if row[0].Ch? { EncodeSingle(row[0].r); }
  }

  lemma NoFoldStarts(z: Zipper)
    requires ZOk(z) && z.right != [] && z.right[0].Ch?
    ensures !StartsFold(LineOf(z).folds, Len(z.left))
  {
    hide AtomText, RowOk, FoldsOf;
    var p := Len(z.left);
    FirstAtom(z.right, p);
    FoldsWithin(z.left, 0);
    FoldsWithin(z.right[1..], p + |AtomText(z.right[0])|);
  }

  lemma NextOfSimple(s: Bytes, p: nat, rs: seq<Rune>)
    requires p < |s| && WF(s[p..]) && Runes(s[p..]) == rs && AllSimple(rs) && rs != []
    ensures NextLen(s, p) == |Encode1(rs[0])|
  {
    hide Encode1, NextEnd;
    SimpleNext(rs);
    EncodeSingle(rs[0]);
  }

  lemma StepLeftIsAtom(z: Zipper)
    requires ZOk(z) && z.left != []
    ensures var l := LineOf(z);
            Fine(l) && CanStepLeft(l, l.pos) && l.pos > 0 && StepLeft(l, l.pos) == |AtomText(z.left[|z.left| - 1])|
  {
    hide AtomText, RowOk, Ordered, FoldsOf, LeftOf;
    var l, p := LineOf(z), Len(z.left);
    LineOfFine(z);
    LastAtom(z.left);
    OneAtom(z.left[|z.left| - 1], Len(z.left[..|z.left| - 1]));
    assert l.text[..p] == TextOf(z.left);
    if z.left[|z.left| - 1].Hid? {
      var i := |FoldsOf(z.left, 0)| - 1;
      assert l.folds[i] == FoldsOf(z.left, 0)[i];
      StepOverFold(l, i);
    } else {
      StepLeftOfCh(z);
    }
  }

  lemma StepLeftOfCh(z: Zipper)
    requires ZOk(z) && z.left != [] && z.left[|z.left| - 1].Ch?
    ensures var l := LineOf(z);
            && 0 < l.pos <= |l.text| && CanStepLeft(l, l.pos)
            && StepLeft(l, l.pos) == |AtomText(z.left[|z.left| - 1])|
  {
    hide AtomText, Ordered, FoldsOf, LeftOf, TextOf, RunesOf, Encode, RowOk;
    var l, p := LineOf(z), Len(z.left);
    LastAtom(z.left);
    assert l.text[..p] == TextOf(z.left);
    TextIsEncoding(z.left);
    LastRune(z.left);
    NoFoldEnds(z);
    PrevOfSimple(l.text, p, RunesOf(z.left));
    LeftOfCluster(l.text, l.folds, p);
  }

  lemma LastAtom(row: seq<Atom>)
    requires RowOk(row) && row != []
    ensures var m := |row| - 1;
            RowOk(row[..m]) && AtomText(row[m]) != [] && row == row[..m] + [row[m]]
    ensures TextOf(row) == TextOf(row[..|row| - 1]) + AtomText(row[|row| - 1])
    ensures FoldsOf(row, 0) == FoldsOf(row[..|row| - 1], 0) + FoldsOf([row[|row| - 1]], Len(row[..|row| - 1]))
  {
    hide *;
    var m := |row| - 1;
    RowParts(row, m);
    AtomNotEmpty(row[m]);
    Snoc(row[..m], row[m]);
  }

  lemma Snoc(row: seq<Atom>, a: Atom)
    ensures TextOf(row + [a]) == TextOf(row) + AtomText(a)
    ensures Len(row + [a]) == Len(row) + |AtomText(a)|
    ensures FoldsOf(row + [a], 0) == FoldsOf(row, 0) + FoldsOf([a], Len(row))
  {
    hide *;
    TextConcat(row, [a]);
    FoldsConcat(row, [a], 0);
    OneAtom(a, Len(row));
    TextLen([a]);
  }

  lemma TextLen(row: seq<Atom>)
    ensures Len(row) == |TextOf(row)|
  {}

  lemma RowParts(row: seq<Atom>, m: nat)
    requires RowOk(row) && m < |row|
    ensures RowOk(row[..m]) && RowOk(row[m..]) && RowOk(row[m+1..]) && AtomOk(row[m])
    ensures m + 1 == |row| ==> row == row[..m] + [row[m]]
  {}

  lemma LastRune(row: seq<Atom>)
    requires row != [] && row[|row| - 1].Ch?
    ensures RunesOf(row) != [] && Encode1(RunesOf(row)[|RunesOf(row)| - 1]) == AtomText(row[|row| - 1])
  {
    hide Encode1, RunesOf;
    var m := |row| - 1;
    assert row == row[..m] + [row[m]];
    RunesConcat(row[..m], [row[m]]);
    OneAtom(row[m], 0);
  }

  lemma OneAtom(a: Atom, at: nat)
    ensures TextOf([a]) == AtomText(a) && RunesOf([a]) == AtomRunes(a)
    ensures FoldsOf([a], at) == if a.Hid? then [Fold(at, at + |AtomText(a)|)] else []
    ensures a.Ch? ==> AtomText(a) == Encode1(a.r)
  {
    hide Encode1;
    assert [a][1..] == [];
    if a.Ch? { EncodeSingle(a.r); }
  }

  lemma {:induction false} RunesConcat(a: seq<Atom>, b: seq<Atom>)
    ensures RunesOf(a + b) == RunesOf(a) + RunesOf(b)
  {
    hide RunesOf, AtomRunes;
    RunesFirst(a);
    RunesFirst(a + b);
    if a == [] {
      assert a + b == b;
    } else {
      RunesConcat(a[1..], b);
      assert (a + b)[1..] == a[1..] + b;
      AssocRunes(AtomRunes(a[0]), RunesOf(a[1..]), RunesOf(b));
    }
  }

  lemma RunesFirst(row: seq<Atom>)
    ensures row == [] ==> RunesOf(row) == []
    ensures row != [] ==> RunesOf(row) == AtomRunes(row[0]) + RunesOf(row[1..])
  {}

  lemma AssocRunes(a: seq<Rune>, b: seq<Rune>, c: seq<Rune>)
    ensures (a + b) + c == a + (b + c)
  {}

  lemma NoFoldEnds(z: Zipper)
    requires ZOk(z) && z.left != [] && z.left[|z.left| - 1].Ch?
    ensures !EndsFold(LineOf(z).folds, Len(z.left))
  {
    hide AtomText, RowOk, FoldsOf;
    LastAtom(z.left);
    OneAtom(z.left[|z.left| - 1], Len(z.left[..|z.left| - 1]));
    FoldsWithin(z.left[..|z.left| - 1], 0);
    FoldsWithin(z.right, Len(z.left));
  }

  lemma PrevOfSimple(s: Bytes, p: nat, rs: seq<Rune>)
    requires 0 < p <= |s| && WF(s[..p]) && Runes(s[..p]) == rs && AllSimple(rs) && rs != []
    ensures PrevLen(s, p) == |Encode1(rs[|rs| - 1])|
  {
    hide Encode1, PrevStart;
    SimplePrev(rs);
    EncodeSingle(rs[|rs| - 1]);
  }

  // ---------- what edits do to the folds of a row ----------

  lemma FoldsFirst(row: seq<Atom>, at: nat)
    requires RowOk(row) && row != []
    ensures AtomText(row[0]) != [] && RowOk(row[1..]) && Len(row) == |AtomText(row[0])| + Len(row[1..])
    ensures FoldsOf(row, at) == FoldsOf([row[0]], at) + FoldsOf(row[1..], at + |AtomText(row[0])|)
  {
    AtomNotEmpty(row[0]);
    OneAtom(row[0], at);
  }

  // Of one atom: a fold before the edit stays, one after it moves, one that the deletion covers goes.
  lemma FoldsOfOne(a: Atom, at: nat, p: nat, n: nat)
    requires AtomText(a) != []
    ensures var fs, m := FoldsOf([a], at), |AtomText(a)|;
            && (at + m <= p ==> AfterInsert(fs, p, n) == fs && AfterDelete(fs, p, n) == fs)
            && (p <= at ==> AfterInsert(fs, p, n) == FoldsOf([a], at + n))
            && (p + n <= at ==> AfterDelete(fs, p, n) == FoldsOf([a], at - n))
            && (p <= at && at + m <= p + n ==> AfterDelete(fs, p, n) == [])
  {
    hide AtomText;
    OneAtom(a, at);
    OneAtom(a, at + n);
    if p + n <= at { OneAtom(a, at - n); }
    var f := Fold(at, at + |AtomText(a)|);
    assert [f][..0] == [];
    assert AfterInsert([f], p, n) == InsertOne(f, p, n);
    assert AfterDelete([f], p, n) == DeleteOne(f, p, n);
  }

  lemma NoneEdited(at: nat, p: nat, n: nat)
    ensures AfterInsert([], p, n) == [] && AfterDelete([], p, n) == []
  {}

  lemma {:induction false} KeepFolds(row: seq<Atom>, at: nat, p: nat, n: nat)
    requires RowOk(row) && at + Len(row) <= p
    ensures AfterInsert(FoldsOf(row, at), p, n) == FoldsOf(row, at)
    ensures AfterDelete(FoldsOf(row, at), p, n) == FoldsOf(row, at)
  {
    hide *;
    NoneEdited(at, p, n);
    if row == [] {
      FoldsOfNone(row, at);
    } else {
      var at' := at + |AtomText(row[0])|;
      FoldsFirst(row, at);
      FoldsOfOne(row[0], at, p, n);
      KeepFolds(row[1..], at', p, n);
      AfterInsertConcat(FoldsOf([row[0]], at), FoldsOf(row[1..], at'), p, n);
      AfterDeleteConcat(FoldsOf([row[0]], at), FoldsOf(row[1..], at'), p, n);
    }
  }

  lemma {:induction false} ShiftFolds(row: seq<Atom>, at: nat, p: nat, n: nat)
    requires RowOk(row) && p <= at
    ensures AfterInsert(FoldsOf(row, at), p, n) == FoldsOf(row, at + n)
  {
    hide *;
    NoneEdited(at, p, n);
    if row == [] {
      FoldsOfNone(row, at);
      FoldsOfNone(row, at + n);
    } else {
      var at' := at + |AtomText(row[0])|;
      FoldsFirst(row, at);
      FoldsFirst(row, at + n);
      FoldsOfOne(row[0], at, p, n);
      ShiftFolds(row[1..], at', p, n);
      AfterInsertConcat(FoldsOf([row[0]], at), FoldsOf(row[1..], at'), p, n);
    }
  }

  lemma {:induction false} ShiftFoldsBack(row: seq<Atom>, at: nat, p: nat, n: nat)
    requires RowOk(row) && p + n <= at
    ensures AfterDelete(FoldsOf(row, at), p, n) == FoldsOf(row, at - n)
  {
    hide *;
    NoneEdited(at, p, n);
    if row == [] {
      FoldsOfNone(row, at);
      FoldsOfNone(row, at - n);
    } else {
      var at' := at + |AtomText(row[0])|;
      FoldsFirst(row, at);
      FoldsFirst(row, at - n);
      FoldsOfOne(row[0], at, p, n);
      ShiftFoldsBack(row[1..], at', p, n);
      AfterDeleteConcat(FoldsOf([row[0]], at), FoldsOf(row[1..], at'), p, n);
    }
  }

  lemma {:induction false} DropFolds(row: seq<Atom>, at: nat, p: nat, n: nat)
    requires RowOk(row) && p <= at && at + Len(row) <= p + n
    ensures AfterDelete(FoldsOf(row, at), p, n) == []
  {
    hide *;
    NoneEdited(at, p, n);
    if row == [] {
      FoldsOfNone(row, at);
    } else {
      var at' := at + |AtomText(row[0])|;
      FoldsFirst(row, at);
      FoldsOfOne(row[0], at, p, n);
      DropFolds(row[1..], at', p, n);
      AfterDeleteConcat(FoldsOf([row[0]], at), FoldsOf(row[1..], at'), p, n);
    }
  }

  // ---------- edits of a row ----------

  /** Cutting the bytes of a middle part out of the line cuts the part out of the row. */
  lemma CutRow(a: seq<Atom>, b: seq<Atom>, c: seq<Atom>, l: Line)
    requires RowOk(a) && RowOk(b) && RowOk(c)
    requires l.text == TextOf(a) + TextOf(b) + TextOf(c)
    requires l.folds == FoldsOf(a, 0) + FoldsOf(b, Len(a)) + FoldsOf(c, Len(a) + Len(b))
    ensures Len(a) + Len(b) <= |l.text| && Cut(l, Len(a), Len(a) + Len(b)) == LineOf(Zipper(a, c))
  {
    hide RowOk, FoldsOf, TextOf, AfterDelete;
    CutRowFolds(a, b, c);
    assert l.text[..Len(a)] == TextOf(a) && l.text[Len(a) + Len(b)..] == TextOf(c);
  }

  lemma CutRowFolds(a: seq<Atom>, b: seq<Atom>, c: seq<Atom>)
    requires RowOk(a) && RowOk(b) && RowOk(c)
    ensures var p, n := Len(a), Len(b);
            AfterDelete(FoldsOf(a, 0) + FoldsOf(b, p) + FoldsOf(c, p + n), p, n) == FoldsOf(a, 0) + FoldsOf(c, p)
  {
    hide *;
    var p, n := Len(a), Len(b);
    KeepFolds(a, 0, p, n);
    DropFolds(b, p, p, n);
    ShiftFoldsBack(c, p + n, p, n);
    AfterDeleteConcat(FoldsOf(a, 0) + FoldsOf(b, p), FoldsOf(c, p + n), p, n);
    AfterDeleteConcat(FoldsOf(a, 0), FoldsOf(b, p), p, n);
    assert FoldsOf(a, 0) + [] == FoldsOf(a, 0);
  }

  /** Inserting the bytes of some atoms that hide nothing at the cursor inserts the atoms. */
  lemma InsertRow(z: Zipper, row: seq<Atom>)
    requires RowOk(z.left) && RowOk(z.right) && RowOk(row) && Count(row) == 0
    ensures Inserted(LineOf(z), TextOf(row)) == LineOf(Zipper(z.left + row, z.right))
  {
    hide RowOk, FoldsOf, TextOf, AfterInsert;
    var p, n := Len(z.left), Len(row);
    InsertFolds(z, n);
    FoldsCount(row, p);
    FoldsConcat(z.left, row, 0);
    assert FoldsOf(z.left, 0) + [] == FoldsOf(z.left, 0);
    TextConcat(z.left, row);
    var l := LineOf(z);
    assert l.text[..p] == TextOf(z.left) && l.text[p..] == TextOf(z.right);
  }

  lemma InsertFolds(z: Zipper, n: nat)
    requires RowOk(z.left) && RowOk(z.right)
    ensures var p := Len(z.left);
            AfterInsert(LineOf(z).folds, p, n) == FoldsOf(z.left, 0) + FoldsOf(z.right, p + n)
  {
    hide RowOk, FoldsOf, TextOf, AfterInsert;
    var p := Len(z.left);
    KeepFolds(z.left, 0, p, n);
    ShiftFolds(z.right, p, p, n);
    AfterInsertConcat(FoldsOf(z.left, 0), FoldsOf(z.right, p), p, n);
  }

  /** A folded paste at the cursor is one new atom. */
  lemma FoldedRow(z: Zipper, rs: seq<Rune>)
    requires ZOk(z) && AtomOk(Hid(rs))
    ensures Folded(LineOf(z), Encode(rs)) == LineOf(Zipper(z.left + [Hid(rs)], z.right))
  {
    hide RowOk, FoldsOf, TextOf, AfterInsert, Encode, Added, AtomOk;
    var p, n := Len(z.left), |Encode(rs)|;
    var f := Fold(p, p + n);
    InsertFolds(z, n);
    AtomNotEmpty(Hid(rs));
    FoldsWithin(z.left, 0);
    FoldsWithin(z.right, p + n);
    AddedBetween(FoldsOf(z.left, 0), FoldsOf(z.right, p + n), f);
    OneAtom(Hid(rs), p);
    TextConcat(z.left, [Hid(rs)]);
    FoldsConcat(z.left, [Hid(rs)], 0);
    var l := LineOf(z);
    assert l.text[..p] == TextOf(z.left) && l.text[p..] == TextOf(z.right);
  }

  lemma {:induction false} AddedBetween(a: seq<Fold>, b: seq<Fold>, f: Fold)
    requires forall i :: 0 <= i < |a| ==> a[i].start <= f.start
    requires forall i :: 0 <= i < |b| ==> f.start < b[i].start
    ensures Added(a + b, f) == a + [f] + b
  {
    if b == [] {
      assert a + b == a && a + [f] + b == a + [f];
    } else {
      var b0, g := b[..|b| - 1], b[|b| - 1];
      assert (a + b)[..|a + b| - 1] == a + b0;
      AddedBetween(a, b0, f);
      assert b0 + [g] == b;
      AssocFolds(a + [f], b0, [g]);
    }
  }
}
