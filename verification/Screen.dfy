/** Rows of atoms on the screen: a character shows itself, a folded text its marker. This closes the chain from
    the edited line to the single-line view: every line that the editor reaches without an escape in view meets
    what the view asks for. */
module Screen {
  import opened Utf8
  import opened Graphemes
  import opened Widths
  import opened Folds
  import opened Lines
  import opened Zippers
  import opened Render
  import opened Viewport
  import opened Editors
  import opened Terminal
  import Rows

  // What an atom shows, as runes: a marker is ASCII, so its bytes are its runes.
  function Face(a: Atom): seq<Rune> {
    match a case Ch(r) => [r] case Hid(rs) => Marker(Encode(rs))
  }

  function Faces(row: seq<Atom>): seq<Rune> {
    if row == [] then [] else Faces(row[..|row| - 1]) + Face(row[|row| - 1])
  }

  lemma {:induction false} FacesConcat(a: seq<Atom>, b: seq<Atom>)
    ensures Faces(a + b) == Faces(a) + Faces(b)
  {
    hide Face;
    if b == [] {
      assert a + b == a;
    } else {
      var m := |b| - 1;
      FacesConcat(a, b[..m]);
      assert (a + b)[..|a + b| - 1] == a + b[..m];
      AssocRunes(Faces(a), Faces(b[..m]), Face(b[m]));
    }
  }

  predicate SmallRow(row: seq<Atom>) {
    forall i :: 0 <= i < |row| ==> |AtomText(row[i])| < SIZE_MAX
  }

  // ---------- what a marker says ----------

  function LfPlaces(s: Bytes): set<int> {
    set i | 0 <= i < |s| && s[i] == 10
  }

  lemma {:induction false} NewlinesAre(s: Bytes)
    ensures Newlines(s) == |LfPlaces(s)| && (Newlines(s) > 0 <==> 10 in s)
  {
    hide LfPlaces;
    LfPlacesAre(s);
    if s != [] {
      var n := |s| - 1;
      NewlinesAre(s[..n]);
      assert s == s[..n] + [s[n]];
    }
  }

  lemma LfPlacesAre(s: Bytes)
    ensures s == [] ==> LfPlaces(s) == {}
    ensures s != [] ==> var n := |s| - 1;
                        n !in LfPlaces(s[..n]) && LfPlaces(s) == LfPlaces(s[..n]) + if s[n] == 10 then {n} else {}
  {
    if s != [] {
      var n := |s| - 1;
      forall i ensures i in LfPlaces(s) <==> i in LfPlaces(s[..n]) || (i == n && s[n] == 10) {
        assert 0 <= i < n ==> s[..n][i] == s[i];
      }
    }
  }

  /** A marker says, as a decimal number, how many lines it hides, or how many bytes if these have no newline. */
  lemma MarkerSays(hidden: Bytes) returns (digits: Bytes)
    ensures digits != [] && forall i :: 0 <= i < |digits| ==> 0x30 <= digits[i] <= 0x39
    ensures Marker(hidden) == Ascii("[... ") + digits + (if 10 in hidden then Ascii(" pasted lines ...]") else Ascii(" pasted chars ...]"))
    ensures Value(digits) == if 10 in hidden then 1 + |LfPlaces(hidden)| else |hidden|
  {
    hide Newlines, Number, Ascii, LfPlaces;
    NewlinesAre(hidden);
    digits := Number(if 10 in hidden then 1 + Newlines(hidden) else |hidden|);
    Rows.NumberValue(if 10 in hidden then 1 + Newlines(hidden) else |hidden|);
    NumberNotEmpty(if 10 in hidden then 1 + Newlines(hidden) else |hidden|);
  }

  lemma NumberNotEmpty(n: nat)
    ensures Number(n) != []
  {}

  // ---------- a row renders to its faces ----------

  lemma RenderChar(text: Bytes, fs: seq<Fold>, e: Bytes)
    requires Ordered(fs, |text|)
    ensures Ordered(fs, |text + e|) && Rendered(text + e, fs) == Rendered(text, fs) + e
  {
    hide Shown, Marker;
    EndInside(fs, |text|);
    assert (text + e)[..|text|] == text;
    ShownPart(text + e, fs, |text|);
    assert (text + e)[EndOf(fs)..] == text[EndOf(fs)..] + e;
  }

  lemma RenderFolded(text: Bytes, fs: seq<Fold>, e: Bytes)
    requires Ordered(fs, |text|) && e != []
    ensures var f := Fold(|text|, |text| + |e|);
            && Ordered(fs + [f], |text + e|)
            && Rendered(text + e, fs + [f]) == Rendered(text, fs) + Marker(e)
  {
    hide Shown, Marker;
    var f, t := Fold(|text|, |text| + |e|), text + e;
    EndInside(fs, |text|);
    OrderedSnoc(fs, f);
    assert t[..|text|] == text;
    ShownPart(t, fs, |text|);
    assert (fs + [f])[..|fs|] == fs;
    ShownLast(t, fs + [f]);
    assert t[EndOf(fs)..|text|] == text[EndOf(fs)..];
    assert t[|text|..|t|] == e && t[|t|..] == [];
    assert Shown(t, fs + [f]) + [] == Shown(t, fs + [f]);
  }

  lemma RowOrdered(row: seq<Atom>)
    requires RowOk(row)
    ensures Ordered(FoldsOf(row, 0), |TextOf(row)|)
  {
    hide RowOk;
    EmptyOrdered();
    FoldsOrdered([], row, 0);
    assert [] + FoldsOf(row, 0) == FoldsOf(row, 0);
  }

  lemma FaceBytes(a: Atom)
    requires |AtomText(a)| < SIZE_MAX
    ensures Encode(Face(a)) == if a.Hid? then Marker(AtomText(a)) else AtomText(a)
  {
    hide Encode1, Marker;
    if a.Hid? {
      MarkerFits(AtomText(a));
      AsciiIsWF(Marker(AtomText(a)));
    } else {
      OneAtom(a, 0);
      EncodeSingle(a.r);
    }
  }

  /** A row is shown as the faces of its atoms, one after the other. */
  lemma {:induction false} RowShown(row: seq<Atom>)
    requires RowOk(row) && SmallRow(row)
    ensures Ordered(FoldsOf(row, 0), |TextOf(row)|)
    ensures Rendered(TextOf(row), FoldsOf(row, 0)) == Encode(Faces(row))
    decreases |row|
  {
    hide *;
    RowOrdered(row);
    if row == [] {
      NothingShown(row);
    } else {
      var m := |row| - 1;
      var a := row[m];
      RowParts(row, m);
      SmallParts(row, m);
      RowShown(row[..m]);
      LastAtom(row);
      OneAtom(a, Len(row[..m]));
      TextLen(row[..m]);
      FacesSnoc(row);
      EncodeConcat(Faces(row[..m]), Face(a));
      FaceBytes(a);
      if a.Hid? {
        RenderFolded(TextOf(row[..m]), FoldsOf(row[..m], 0), AtomText(a));
      } else {
        RenderChar(TextOf(row[..m]), FoldsOf(row[..m], 0), AtomText(a));
        PlusNone(FoldsOf(row[..m], 0));
      }
    }
  }

  lemma PlusNone(fs: seq<Fold>)
    ensures fs + [] == fs
  {}

  lemma FacesSnoc(row: seq<Atom>)
    requires row != []
    ensures Faces(row) == Faces(row[..|row| - 1]) + Face(row[|row| - 1])
  {}

  lemma SmallParts(row: seq<Atom>, m: nat)
    requires SmallRow(row) && m < |row|
    ensures SmallRow(row[..m]) && |AtomText(row[m])| < SIZE_MAX
  {}

  lemma NothingShown(row: seq<Atom>)
    requires row == []
    ensures Ordered(FoldsOf(row, 0), |TextOf(row)|)
    ensures Rendered(TextOf(row), FoldsOf(row, 0)) == Encode(Faces(row))
  {
    ShownNone([]);
  }

  // ---------- the line and its cursor ----------

  lemma {:induction false} BeforeSplit(a: seq<Fold>, b: seq<Fold>, p: int)
    requires forall i :: 0 <= i < |a| ==> a[i].end <= p
    requires forall i :: 0 <= i < |b| ==> p < b[i].end
    ensures Before(a + b, p) == a
  {
    if b == [] {
      assert a + b == a;
      assert a != [] ==> a[|a| - 1].end <= p;
    } else {
      var m := |b| - 1;
      assert (a + b)[|a + b| - 1] == b[m] && (a + b)[..|a + b| - 1] == a + b[..m];
      BeforeSplit(a, b[..m], p);
    }
  }

  lemma LineIsRow(z: Zipper)
    ensures LineOf(z).text == TextOf(z.left + z.right) && LineOf(z).folds == FoldsOf(z.left + z.right, 0)
    ensures LineOf(z).text[..Len(z.left)] == TextOf(z.left)
  {
    hide TextOf, FoldsOf;
    TextConcat(z.left, z.right);
    FoldsConcat(z.left, z.right, 0);
  }

  /** The line shows the faces of its row, and the cursor between those left and right of it. */
  lemma LineShown(z: Zipper)
    requires ZOk(z) && SmallRow(z.left) && SmallRow(z.right)
    ensures var l := LineOf(z);
            && Ordered(l.folds, |l.text|)
            && Rendered(l.text, l.folds) == Encode(Faces(z.left) + Faces(z.right))
            && ShownAt(l.text, l.folds, l.pos) == Size(Faces(z.left))
  {
    hide RowOk, TextOf, FoldsOf, Rendered, ShownAt, Faces, Encode, Ordered, AtomText, Before, Face;
    var l, p := LineOf(z), Len(z.left);
    LineIsRow(z);
    Both(z);
    RowShown(z.left + z.right);
    FacesConcat(z.left, z.right);
    RowShown(z.left);
    FoldsWithin(z.left, 0);
    FoldsWithin(z.right, p);
    BeforeSplit(FoldsOf(z.left, 0), FoldsOf(z.right, p), p);
    ShownAtOutside(l.text, l.folds, p);
  }

  lemma Both(z: Zipper)
    requires ZOk(z) && SmallRow(z.left) && SmallRow(z.right)
    ensures RowOk(z.left + z.right) && SmallRow(z.left + z.right)
  {
    hide AtomOk, AtomText;
  }

  // ---------- the single-line view of a row ----------

  predicate NoEscape(row: seq<Atom>) {
    forall i :: 0 <= i < |row| ==> row[i] != Ch(ESC)
  }

  // Every rune shown of such a row is a cluster of its own and no escape.
  lemma {:induction false} FacesPlain(row: seq<Atom>)
    requires RowOk(row) && SmallRow(row) && NoEscape(row)
    ensures forall i :: 0 <= i < |Faces(row)| ==> Simple(Faces(row)[i]) && Faces(row)[i] != ESC
  {
    hide Marker, AtomText, Simple, Encode;
    if row != [] {
      var m := |row| - 1;
      FacesPlain(row[..m]);
      FacePlain(row[m]);
    }
  }

  lemma FacePlain(a: Atom)
    requires AtomOk(a) && |AtomText(a)| < SIZE_MAX && a != Ch(ESC)
    ensures forall i :: 0 <= i < |Face(a)| ==> Simple(Face(a)[i]) && Face(a)[i] != ESC
  {
    hide Marker, Encode;
    if a.Hid? {
      MarkerFits(AtomText(a));
    } else {
      assert Simple([a.r][0]);
    }
  }

  /** Every row of simple characters without an escape in view meets the view's conditions: its text is plain,
      and its cursor is between two clusters of it. */
  lemma ViewReady(z: Zipper)
    requires ZOk(z) && SmallRow(z.left) && SmallRow(z.right) && NoEscape(z.left) && NoEscape(z.right)
    ensures var l, rs, c := LineOf(z), Faces(z.left) + Faces(z.right), |Faces(z.left)|;
            && Ordered(l.folds, |l.text|)
            && Rendered(l.text, l.folds) == Encode(rs) && Plain(rs)
            && c <= |rs| && ClusterStart(rs, c) && ShownAt(l.text, l.folds, l.pos) == Size(rs[..c])
  {
    hide RowOk, TextOf, FoldsOf, Rendered, ShownAt, Faces, Encode, Ordered, AtomText, NoEscape;
    LineShown(z);
    FacesPlain(z.left);
    FacesPlain(z.right);
    var rs, c := Faces(z.left) + Faces(z.right), |Faces(z.left)|;
    assert rs[..c] == Faces(z.left);
    forall i | 0 <= i < |rs| ensures Simple(rs[i]) && rs[i] != ESC {
      assert rs[i] == if i < c then Faces(z.left)[i] else Faces(z.right)[i - c];
    }
  }

  // ---------- the multi-line view of a row ----------

  predicate Narrow(rs: seq<Rune>) {
    forall i :: 0 <= i < |rs| ==> CharWidth(rs[i]) == 1 && !IsZWJ(rs[i])
  }

  lemma {:induction false} NarrowWidth(rs: seq<Rune>)
    requires Narrow(rs)
    ensures RunesWidth(rs, false) == |rs| && NoEsc(rs)
  {
    hide CharWidth;
    EscHasNoWidth();
    if rs != [] {
      NarrowWidth(rs[1..]);
      assert forall i :: 1 <= i < |rs| ==> rs[i] == rs[1..][i - 1];
    }
  }

  lemma EscHasNoWidth()
    ensures CharWidth(ESC) == 0
  {}

  lemma FacesEmpty(row: seq<Atom>)
    requires RowOk(row) && SmallRow(row)
    ensures Faces(row) == [] <==> row == []
    ensures TextOf(row) == [] <==> row == []
  {
    hide Encode, Marker, AtomText, AtomOk;
    if row != [] {
      var a := row[|row| - 1];
      RowParts(row, |row| - 1);
      FaceNotEmpty(a);
      LastAtom(row);
    }
  }

  lemma FaceNotEmpty(a: Atom)
    requires |AtomText(a)| < SIZE_MAX
    ensures Face(a) != []
  {
    if a.Hid? { MarkerFits(AtomText(a)); }
  }

  // The widths and positions that refreshMultiLine works out of a line.
  ghost predicate IsView(l: Line, v: Rows.View) {
    && Ordered(l.folds, |l.text|)
    && var shown, at := Rendered(l.text, l.folds), ShownAt(l.text, l.folds, l.pos);
       && 0 <= at <= |shown| && WF(shown) && WF(shown[..at])
       && v == Rows.View(Width(shown, false), Width(shown[..at], false), at == |shown|, l.pos != 0)
  }

  /** Every row shown in characters of width one gives the multi-line view what its row count relies on. */
  lemma RowsReady(z: Zipper) returns (v: Rows.View)
    requires ZOk(z) && SmallRow(z.left) && SmallRow(z.right)
    requires Narrow(Faces(z.left)) && Narrow(Faces(z.right))
    ensures IsView(LineOf(z), v) && Rows.ViewOk(v)
    ensures v.bufwidth == |Faces(z.left)| + |Faces(z.right)| && v.poswidth == |Faces(z.left)|
  {
    hide RowOk, TextOf, FoldsOf, Rendered, ShownAt, Faces, Encode, Ordered, AtomText, Narrow, Width, RunesWidth, SmallRow;
    var l, a, b := LineOf(z), Faces(z.left), Faces(z.right);
    LineShown(z);
    NarrowBoth(a, b);
    NarrowWidth(a);
    NarrowWidth(a + b);
    PlainWidth(a, false);
    PlainWidth(a + b, false);
    EncodeConcat(a, b);
    var shown := Encode(a + b);
    assert shown[..Size(a)] == Encode(a);
    FacesEmpty(z.left);
    FacesEmpty(z.right);
    if b != [] { EncodeStart(b); }
    EncodeOfNone();
    v := Rows.View(|a + b|, |a|, Size(a) == |shown|, l.pos != 0);
  }

  lemma EncodeOfNone()
    ensures Encode([]) == []
  {}

  lemma NarrowBoth(a: seq<Rune>, b: seq<Rune>)
    requires Narrow(a) && Narrow(b)
    ensures Narrow(a + b)
  {
    hide CharWidth;
  }

  // ---------- the multi-line refresh of an editor ----------

  // The widths and positions of what is shown, as refreshMultiLine works them out.
  method Measure(l: Editor, ghost v0: Rows.View) returns (v: Rows.View, shown: Bytes)
    requires l.Valid() && !l.masked && IsView(l.View(), v0)
    ensures v == v0
    ensures Ordered(l.View().folds, |l.View().text|) && shown == Rendered(l.View().text, l.View().folds)
  {
    hide WF, Width, Rendered, ShownAt, Ordered;
    var render, rlen, rpos := RenderBuffer(l);
    shown := render[..][..rlen];
    assert shown[..|shown|] == shown;
    assert shown == Rendered(l.View().text, l.View().folds) && rpos == ShownAt(l.View().text, l.View().folds, l.View().pos);
    var bufwidth := StrWidth(shown, |shown|);
    var poswidth := StrWidth(shown, rpos);
    v := Rows.View(bufwidth, poswidth, rpos == rlen, l.pos != 0);
  }

  /** refreshMultiLine, without hints and outside mask mode, of a line that is shown in characters of width one, from
      the screen that the last refresh left: what a terminal does on the bytes that are sent. */
  method RefreshMultiLine(l: Editor, m: Rows.MultiLine, prompt: Bytes, cols: nat, clean: bool, write: bool, ghost z: Zipper,
                          ghost t0: Term)
    returns (output: Bytes)
    requires l.Valid() && !l.masked && ZOk(z) && l.View() == LineOf(z) && SmallRow(z.left) && SmallRow(z.right)
    requires Narrow(Faces(z.left)) && Narrow(Faces(z.right))
    requires WF(prompt) && Steady(prompt) && !EndsJoined(Letters(prompt), false)
    requires 0 < Width(prompt, false) < cols && (clean || write) && 1 <= m.oldrpos
    requires m.Hidden(t0, cols) || (clean && m.InStep(t0, cols))
    modifies m
    ensures 1 <= m.oldrpos && WF(output)
    ensures var t := Run(t0, Read(output), cols);
            var v := Rows.View(|Faces(z.left)| + |Faces(z.right)|, |Faces(z.left)|, z.right == [], z.left != []);
            var cells := Lay(Letters(prompt)) + Glyphs(Faces(z.left) + Faces(z.right));
            && (!clean || old(m.InStep(t0, cols)) ==> m.Refreshed(t, t0, v, Width(prompt, false), cols, write, cells))
            && (clean && old(m.Hidden(t0, cols)) ==>
                  (m.Refreshed(t, t0, v, Width(prompt, false), cols, write, cells) <==> old(m.oldrpos) == 1 || old(m.oldrows) <= 1))
  {
    hide WF, Width, Rendered, ShownAt, Ordered, Faces, RowOk, Narrow, SmallRow, IsView, Steady, Letters, Lay, Glyphs, Says, Puts,
      Read, Run, NoSplit, Rows.Takes, Rows.CursorAt, Rows.NothingBelow, Rows.AboveKept, Rows.ScreenIs, Rows.TextIs;
    ghost var v0 := RowsReady(z);
    ViewIs(z, v0);
    assert prompt[..|prompt|] == prompt;
    var pwidth := StrWidth(prompt, |prompt|);
    var v, shown := Measure(l, v0);
    ghost var rs := Faces(z.left) + Faces(z.right);
    LineShown(z);
    EncodeConcat(Faces(z.left), Faces(z.right));
    NarrowBoth(Faces(z.left), Faces(z.right));
    TextSays(prompt, rs, pwidth, cols);
    output := m.Refresh(v, pwidth, cols, clean, write, prompt + shown, Letters(prompt) + rs, t0);
  }

  // Each character in a column of its own.
  function Glyphs(rs: seq<Rune>): seq<Cell> {
    seq(|rs|, i requires 0 <= i < |rs| => Glyph(rs[i]))
  }

  // Prompt and line as one text: its characters stand one after the other, and none splits at the end of a row.
  lemma TextSays(prompt: Bytes, rs: seq<Rune>, pwidth: nat, cols: nat)
    requires WF(prompt) && Steady(prompt) && !EndsJoined(Letters(prompt), false) && pwidth == Width(prompt, false) < cols
    requires Narrow(rs)
    ensures Rows.TextIs(prompt + Encode(rs), Letters(prompt) + rs, pwidth + |rs|, cols)
    ensures Lay(Letters(prompt) + rs) == Lay(Letters(prompt)) + Glyphs(rs)
  {
    hide WF, Steady, Letters, Says, Lay, Glyphs, NoSplit, Narrow, RunesWidth, Encode, Puts, EndsJoined;
    var p := Letters(prompt);
    SaysSteady(prompt, false);
    NarrowPrints(rs);
    SaysRunes(rs);
    SaysConcat(prompt, Puts(p), Encode(rs), Puts(rs));
    PutsConcat(p, rs);
    LayWidth(p);
    LayNarrow(rs);
    LayConcat(p, rs);
    NarrowFits(p, rs, cols);
  }

  lemma NarrowPrints(rs: seq<Rune>)
    requires Narrow(rs)
    ensures Printable(rs)
  {
    hide IsWide, IsExtend;
  }

  lemma {:induction false} LayNarrow(rs: seq<Rune>)
    requires Narrow(rs)
    ensures Lay(rs) == Glyphs(rs) && |Glyphs(rs)| == |rs|
    decreases |rs|
  {
    hide CharWidth, IsZWJ, Columns;
    if rs == [] {
      assert Glyphs(rs) == [];
    } else {
      var m := |rs| - 1;
      LayNarrow(rs[..m]);
      NarrowColumn(rs, m);
      if m > 0 { NarrowColumn(rs, m - 1); }
      assert Glyphs(rs) == Glyphs(rs[..m]) + [Glyph(rs[m])];
    }
  }

  lemma NarrowColumn(rs: seq<Rune>, i: nat)
    requires Narrow(rs) && i < |rs|
    ensures !IsZWJ(rs[i]) && Columns(rs[i]) == [Glyph(rs[i])]
  {
    hide IsWide;
  }

  lemma NarrowFits(p: seq<Rune>, rs: seq<Rune>, cols: nat)
    requires Narrow(rs) && |Lay(p)| < cols
    ensures NoSplit(p + rs, cols)
  {
    hide CharWidth, Narrow, Lay, Joined;
    forall m | 0 <= m < |p + rs| && CharWidth((p + rs)[m]) == 2 && !Joined(p + rs, m) ensures |Lay((p + rs)[..m])| % cols + 2 <= cols {
      if m < |p| {
        InFirst(p, rs, m);
        LayPrefix(p, m);
        TwoColumns(p[m]);
        SmallMod(|Lay(p[..m])|, cols);
      } else {
        assert (p + rs)[m] == rs[m - |p|];
        NarrowOne(rs, m - |p|);
      }
    }
  }

  lemma InFirst(p: seq<Rune>, rs: seq<Rune>, m: nat)
    requires m < |p|
    ensures (p + rs)[..m] == p[..m] && (p + rs)[m] == p[m] && Joined(p, m) == Joined(p + rs, m)
  {}

  lemma TwoColumns(r: Rune)
    ensures CharWidth(r) == 2 ==> |Columns(r)| == 2
  {
    hide CharWidth;
  }

  lemma SmallMod(x: nat, cols: nat)
    requires x < cols
    ensures x % cols == x
  {}

  lemma NarrowOne(rs: seq<Rune>, i: nat)
    requires Narrow(rs) && i < |rs|
    ensures CharWidth(rs[i]) == 1
  {}

  // What the view says about the ends of the line.
  lemma ViewIs(z: Zipper, v: Rows.View)
    requires ZOk(z) && SmallRow(z.left) && SmallRow(z.right) && IsView(LineOf(z), v) && Rows.ViewOk(v)
    requires v.bufwidth == |Faces(z.left)| + |Faces(z.right)| && v.poswidth == |Faces(z.left)|
    ensures v.atEnd == (z.right == []) && v.moved == (z.left != [])
  {
    hide RowOk, TextOf, FoldsOf, Rendered, ShownAt, Faces, Ordered, AtomText, Width, SmallRow;
    FacesEmpty(z.left);
    FacesEmpty(z.right);
  }
}
