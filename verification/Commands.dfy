/** Runs of the editor. A command acts on the line; the same command acts on a row of atoms; the two agree on
    every run, so whatever holds of rows holds of every line the editor can reach. */
module Commands {
  import opened Utf8
  import opened Graphemes
  import opened Folds
  import opened Lines
  import opened Paste
  import opened Editors
  import opened Zippers
  import opened Recall
  import Render

  datatype Command =
    | Insert(r: Rune)
    | PasteRaw(raw: Bytes)
    | Left | Right | Home | End
    | Backspace | Delete
    | Swap
    | KillToEnd | KillLine | KillWord
    | RecallEntry(entry: Bytes)     // a history entry, as much of it as the buffer took
    | Complete(candidate: Bytes, buflen: nat)    // an accepted completion, with the length of the buffer

  // What is typed, pasted, recalled or completed is simple text, and what comes whole into the buffer fits it.
  ghost predicate CommandOk(c: Command, cap: nat) {
    match c
    case Insert(r) => Simple(r)
    case PasteRaw(raw) => WF(raw) && AllSimple(Runes(raw))
    case RecallEntry(entry) => WF(entry) && AllSimple(Runes(entry)) && |entry| <= cap
    case Complete(candidate, buflen) =>
      WF(candidate) && AllSimple(Runes(candidate)) && CompletionFits(candidate, buflen) && buflen <= cap
    case _ => true
  }

  lemma CanStep(l: Line)
    requires Ok(l)
    ensures SwapReady(l)
  {
    LeftKeepsOk(l);
    RightKeepsOk(l);
    SwapIsReady(l);
  }

  // What the command makes of the line, without mask mode, when the buffer can hold cap bytes.
  ghost function Step(l: Line, c: Command, cap: nat): Line
    requires Ok(l) && CommandOk(c, cap)
  {
    CanStep(l);
    match c
    case Insert(r) => if |l.text| + |Encode1(r)| <= cap then Inserted(l, Encode1(r)) else l
    case PasteRaw(raw) => Pasted(l, raw, cap, false)
    case Left => MovedLeft(l)
    case Right => MovedRight(l)
    case Home => l.(pos := 0)
    case End => l.(pos := |l.text|)
    case Backspace => DeletedLeft(l)
    case Delete => DeletedRight(l)
    case Swap => Swapped(l)
    case KillToEnd => KilledToEnd(l)
    case KillLine => EMPTY
    case KillWord => DeletedWord(l)
    case RecallEntry(entry) => Recalled(entry, false)
    case Complete(candidate, buflen) => Line(candidate, |candidate|, [])
  }

  // ---------- the same on rows ----------

  function Chars(rs: seq<Rune>): seq<Atom> {
    if rs == [] then [] else [Ch(rs[0])] + Chars(rs[1..])
  }

  function LastByte(a: Atom): Byte
    requires AtomText(a) != []
  {
    AtomText(a)[|AtomText(a)| - 1]
  }

  // The atoms left after skipping back over those that end in a space (or do not).
  function Skip(row: seq<Atom>, spaces: bool): (r: seq<Atom>)
    requires RowOk(row)
    ensures RowOk(r) && r <= row
  {
    if row == [] then []
    else
      var m := |row| - 1;
      AtomNotEmpty(row[m]);
      if (LastByte(row[m]) == SPACE) == spaces then Skip(row[..m], spaces) else row
  }

  ghost function RowStep(z: Zipper, c: Command, cap: nat): Zipper
    requires ZOk(z) && CommandOk(c, cap)
  {
    var Zipper(left, right) := z;
    var m := |left| - 1;
    match c
    case Insert(r) => if Len(left) + Len(right) + |Encode1(r)| <= cap then Zipper(left + [Ch(r)], right) else z
    case PasteRaw(raw) =>
      if raw == [] || Count(left) + Count(right) >= 16 || |raw| > 1024 * 1024 || Len(left) + Len(right) + |raw| > cap then z
      else if ShouldFold(Normal(raw)) then Zipper(left + [Hid(NormalRunes(Runes(raw)))], right)
      else Zipper(left + Chars(NormalRunes(Runes(raw))), right)
    case Left => if left != [] then Zipper(left[..m], [left[m]] + right) else z
    case Right => if right != [] then Zipper(left + [right[0]], right[1..]) else z
    case Home => Zipper([], left + right)
    case End => Zipper(left + right, [])
    case Backspace => if left != [] then Zipper(left[..m], right) else z
    case Delete => if right != [] then Zipper(left, right[1..]) else z
    case Swap =>
      if left != [] && right != [] && left[m].Ch? && right[0].Ch? then
        Zipper(left[..m] + [right[0], left[m]], right[1..])
      else z
    case KillToEnd => Zipper(left, [])
    case KillLine => Zipper([], [])
    case KillWord => Zipper(Skip(Skip(left, true), false), right)
    case RecallEntry(entry) => Zipper(RecallRow(entry), [])
    case Complete(candidate, buflen) => Zipper(Chars(Runes(candidate)), [])
  }

  // A row without newlines in view.
  predicate NoLooseLf(row: seq<Atom>) {
    forall i :: 0 <= i < |row| ==> row[i] != Ch(LF)
  }

  // How many characters at the start of a folded entry stay in view, and where those at its end start: up to eight,
  // none if one of them is a newline.
  ghost function Lead(rs: seq<Rune>): nat {
    var a := Min(8, |rs|);
    if LfIn(rs, 0, a) then 0 else a
  }

  ghost function Trail(rs: seq<Rune>): nat {
    var b := |rs| - Min(8, |rs|);
    if LfIn(rs, b, |rs|) then |rs| else b
  }

  // The characters that the fold of an entry hides.
  ghost function Hides(rs: seq<Rune>): (r: (nat, nat))
    ensures r.0 <= r.1 <= |rs|
  {
    if Size(rs) > 16 && Lead(rs) < Trail(rs) then (Lead(rs), Trail(rs)) else (0, |rs|)
  }

  /** The row of a recalled entry. */
  ghost function RecallRow(entry: Bytes): seq<Atom>
    requires WF(entry)
  {
    var rs := Runes(entry);
    var (i, j) := Hides(rs);
    if entry != [] && ShouldFold(entry) then (Chars(rs[..i]) + [Hid(rs[i..j])]) + Chars(rs[j..]) else Chars(rs)
  }

  // ---------- rows stand for well-formed lines ----------

  lemma {:induction false} RowFoldsBound(pre: Bytes, row: seq<Atom>, post: Bytes)
    requires RowOk(row) && WF(post)
    ensures FoldsBound(pre + TextOf(row) + post, FoldsOf(row, |pre|))
    decreases |row|
  {
    hide *;
    if row == [] {
      NoFolds(pre + TextOf(row) + post, row, |pre|);
    } else {
      FoldsFirst(row, |pre|);
      FirstTwo(row);
      var e := AtomText(row[0]);
      RowFoldsBound(pre + e, row[1..], post);
      TailBound(row[1..], post);
      AtomFoldBound(pre, row[0], TextOf(row[1..]) + post);
      PutTogether(pre, e, TextOf(row[1..]), post);
      FoldsBoundConcat(pre + TextOf(row) + post, FoldsOf([row[0]], |pre|), FoldsOf(row[1..], |pre| + |e|));
    }
  }

  lemma PutTogether(pre: Bytes, e: Bytes, t: Bytes, post: Bytes)
    ensures pre + (e + t) + post == (pre + e) + t + post == pre + e + (t + post)
    ensures |pre + e| == |pre| + |e|
  {}

  lemma NoFolds(text: Bytes, row: seq<Atom>, at: nat)
    requires row == []
    ensures FoldsBound(text, FoldsOf(row, at))
  {}

  lemma FoldsBoundConcat(text: Bytes, a: seq<Fold>, b: seq<Fold>)
    requires FoldsBound(text, a) && FoldsBound(text, b)
    ensures FoldsBound(text, a + b)
  {}

  lemma TailBound(rest: seq<Atom>, post: Bytes)
    requires RowOk(rest) && WF(post)
    ensures Bound(TextOf(rest) + post, 0)
  {
    hide WF, RowOk, TextOf;
    TextIsEncoding(rest);
    WFConcat(TextOf(rest), post);
    WFStart(TextOf(rest) + post);
  }

  lemma AtomFoldBound(pre: Bytes, a: Atom, tail: Bytes)
    requires AtomText(a) != [] && Bound(tail, 0)
    ensures FoldsBound(pre + AtomText(a) + tail, FoldsOf([a], |pre|))
  {
    hide *;
    AtomWF(a);
    WFStart(AtomText(a));
    OneAtom(a, |pre|);
    EdgesBound(pre, AtomText(a), tail);
    FewFoldsBound(pre + AtomText(a) + tail, Fold(|pre|, |pre| + |AtomText(a)|));
  }

  lemma FewFoldsBound(text: Bytes, f: Fold)
    requires 0 <= f.start < f.end <= |text| && Bound(text, f.start) && Bound(text, f.end)
    ensures FoldsBound(text, [f]) && FoldsBound(text, [])
  {}

  lemma EdgesBound(pre: Bytes, e: Bytes, tail: Bytes)
    requires e != [] && Bound(e, 0) && Bound(tail, 0)
    ensures var t := pre + e + tail;
            |pre| + |e| <= |t| && Bound(t, |pre|) && Bound(t, |pre| + |e|)
  {
    var t := pre + e + tail;
    assert t[|pre|] == e[0];
    assert tail != [] ==> t[|pre| + |e|] == tail[0];
  }

  lemma FirstTwo(row: seq<Atom>)
    requires row != []
    ensures TextOf(row) == AtomText(row[0]) + TextOf(row[1..])
  {}

  lemma AtomWF(a: Atom)
    ensures WF(AtomText(a))
  {}

  lemma LineOfOk(z: Zipper)
    requires ZOk(z)
    ensures Ok(LineOf(z))
  {
    hide WF, RowOk, FoldsOf, TextOf, Bound, FoldBound, Ordered;
    LineOfFine(z);
    var a, b := TextOf(z.left), TextOf(z.right);
    TextIsEncoding(z.left);
    TextIsEncoding(z.right);
    WFConcat(a, b);
    WFStart(b);
    BoundAfter(a, b);
    LineFoldsBound(z);
  }

  lemma LineFoldsBound(z: Zipper)
    requires ZOk(z)
    ensures FoldsBound(LineOf(z).text, LineOf(z).folds)
  {
    hide WF, RowOk, FoldsOf, TextOf, FoldsBound;
    var a, b := TextOf(z.left), TextOf(z.right);
    TextIsEncoding(z.right);
    WFEmpty();
    RowFoldsBound([], z.left, b);
    RowFoldsBound(a, z.right, []);
    assert [] + a + b == a + b && a + b + [] == a + b;
    FoldsBoundConcat(a + b, FoldsOf(z.left, 0), FoldsOf(z.right, |a|));
  }

  lemma BoundAfter(a: Bytes, b: Bytes)
    requires Bound(b, 0)
    ensures Bound(a + b, |a|)
  {}

  // ---------- moving ----------

  // The same row with the cursor before or after its middle part.
  lemma Regroup(a: seq<Atom>, b: seq<Atom>, c: seq<Atom>)
    ensures LineOf(Zipper(a, b + c)) == LineOf(Zipper(a + b, c)).(pos := Len(a))
    ensures LineOf(Zipper(a + b, c)).pos == Len(a) + Len(b)
  {
    hide TextOf, FoldsOf;
    TextConcat(a, b);
    TextConcat(b, c);
    Assoc(TextOf(a), TextOf(b), TextOf(c));
    FoldsConcat(a, b, 0);
    FoldsConcat(b, c, Len(a));
    AssocFolds(FoldsOf(a, 0), FoldsOf(b, Len(a)), FoldsOf(c, Len(a) + Len(b)));
  }

  lemma RegroupOk(a: seq<Atom>, b: seq<Atom>, c: seq<Atom>)
    ensures ZOk(Zipper(a, b + c)) <==> ZOk(Zipper(a + b, c))
    ensures ZOk(Zipper(a + b, c)) ==> RowOk(a) && RowOk(b) && RowOk(c) && ZOk(Zipper(a, c))
  {
    hide AtomOk, Count;
    CountConcat(a, b);
    CountConcat(b, c);
    RowOkConcat(a, b);
    RowOkConcat(b, c);
  }

  lemma RowOkConcat(a: seq<Atom>, b: seq<Atom>)
    ensures RowOk(a + b) <==> RowOk(a) && RowOk(b)
  {
    hide AtomOk;
    assert forall i :: 0 <= i < |a| ==> (a + b)[i] == a[i];
    assert forall i :: 0 <= i < |b| ==> (a + b)[|a| + i] == b[i];
  }

  lemma SplitLast(left: seq<Atom>)
    requires left != []
    ensures left == left[..|left| - 1] + [left[|left| - 1]]
  {}

  lemma SplitFirst(right: seq<Atom>)
    requires right != []
    ensures right == [right[0]] + right[1..]
  {}

  lemma LeftRefines(z: Zipper, cap: nat)
    requires ZOk(z)
    ensures Ok(LineOf(z)) && ZOk(RowStep(z, Left, cap))
    ensures Step(LineOf(z), Left, cap) == LineOf(RowStep(z, Left, cap))
  {
    hide *;
    LineOfOk(z);
    StepMeans(LineOf(z), cap);
    RowStepMeans(z, cap);
    if z.left == [] {
      AtStart(z);
    } else {
      var m := |z.left| - 1;
      SplitLast(z.left);
      StepLeftIsAtom(z);
      Regroup(z.left[..m], [z.left[m]], z.right);
      RegroupOk(z.left[..m], [z.left[m]], z.right);
      OneAtomLen(z.left[m]);
      MovedLeftBy(LineOf(z), |AtomText(z.left[m])|);
      ZipperIs(z);
    }
  }

  lemma ZipperIs(z: Zipper)
    ensures z == Zipper(z.left, z.right)
    ensures LineOf(z).pos == Len(z.left) && |LineOf(z).text| == Len(z.left) + Len(z.right)
  {}

  lemma OneAtomLen(a: Atom)
    ensures Len([a]) == |AtomText(a)|
  {
    OneAtom(a, 0);
  }

  lemma MovedLeftBy(l: Line, n: nat)
    requires Fine(l) && CanStepLeft(l, l.pos) && l.pos > 0 && StepLeft(l, l.pos) == n
    ensures n <= l.pos && MovedLeft(l) == l.(pos := l.pos - n) && DeletedLeft(l) == Cut(l, l.pos - n, l.pos)
  {
    StepLeftInside(l, l.pos);
  }

  lemma MovedRightBy(l: Line, n: nat)
    requires Fine(l) && CanStepRight(l, l.pos) && l.pos < |l.text| && StepRight(l, l.pos) == n
    ensures l.pos + n <= |l.text|
    ensures MovedRight(l) == l.(pos := l.pos + n) && DeletedRight(l) == Cut(l, l.pos, l.pos + n)
  {
    StepRightInside(l, l.pos);
  }

  lemma AtStart(z: Zipper)
    requires ZOk(z) && z.left == [] && Ok(LineOf(z))
    ensures var l := LineOf(z);
            l.pos == 0 && CanStepLeft(l, l.pos) && MovedLeft(l) == l && DeletedLeft(l) == l
  {
    LeftKeepsOk(LineOf(z));
  }

  lemma AtEnd(z: Zipper)
    requires ZOk(z) && z.right == [] && Ok(LineOf(z))
    ensures var l := LineOf(z);
            l.pos == |l.text| && CanStepRight(l, l.pos) && MovedRight(l) == l && DeletedRight(l) == l
  {
    RightKeepsOk(LineOf(z));
  }

  // What Step and RowStep do for each command.
  lemma StepMeans(l: Line, cap: nat)
    requires Ok(l)
    ensures Fine(l) && CanStepLeft(l, l.pos) && CanStepRight(l, l.pos)
    ensures Step(l, Left, cap) == MovedLeft(l) && Step(l, Right, cap) == MovedRight(l)
    ensures Step(l, Home, cap) == l.(pos := 0) && Step(l, End, cap) == l.(pos := |l.text|)
    ensures Step(l, Backspace, cap) == DeletedLeft(l) && Step(l, Delete, cap) == DeletedRight(l)
    ensures Step(l, KillToEnd, cap) == KilledToEnd(l) && Step(l, KillLine, cap) == EMPTY
    ensures Step(l, KillWord, cap) == DeletedWord(l)
  {
    hide MovedLeft, MovedRight, DeletedLeft, DeletedRight, DeletedWord, KilledToEnd, Swapped, Pasted, Recalled, Inserted, WF;
    LeftKeepsOk(l);
    RightKeepsOk(l);
  }

  lemma RowStepMeans(z: Zipper, cap: nat)
    requires ZOk(z)
    ensures var m := |z.left| - 1;
            && (z.left == [] ==> RowStep(z, Left, cap) == z && RowStep(z, Backspace, cap) == z)
            && (z.left != [] ==> RowStep(z, Left, cap) == Zipper(z.left[..m], [z.left[m]] + z.right))
            && (z.left != [] ==> RowStep(z, Backspace, cap) == Zipper(z.left[..m], z.right))
    ensures z.right == [] ==> RowStep(z, Right, cap) == z && RowStep(z, Delete, cap) == z
    ensures z.right != [] ==> RowStep(z, Right, cap) == Zipper(z.left + [z.right[0]], z.right[1..])
    ensures z.right != [] ==> RowStep(z, Delete, cap) == Zipper(z.left, z.right[1..])
    ensures RowStep(z, Home, cap) == Zipper([], z.left + z.right)
    ensures RowStep(z, End, cap) == Zipper(z.left + z.right, [])
    ensures RowStep(z, KillToEnd, cap) == Zipper(z.left, []) && RowStep(z, KillLine, cap) == Zipper([], [])
    ensures RowOk(z.left) && RowOk(z.right)
    ensures RowStep(z, KillWord, cap) == Zipper(Skip(Skip(z.left, true), false), z.right)
  {
    hide AtomOk;
  }

  lemma RightRefines(z: Zipper, cap: nat)
    requires ZOk(z)
    ensures Ok(LineOf(z)) && ZOk(RowStep(z, Right, cap))
    ensures Step(LineOf(z), Right, cap) == LineOf(RowStep(z, Right, cap))
  {
    hide *;
    LineOfOk(z);
    StepMeans(LineOf(z), cap);
    RowStepMeans(z, cap);
    if z.right == [] {
      AtEnd(z);
    } else {
      var a := z.right[0];
      SplitFirst(z.right);
      StepRightIsAtom(z);
      Regroup(z.left, [a], z.right[1..]);
      RegroupOk(z.left, [a], z.right[1..]);
      OneAtomLen(a);
      MovedRightBy(LineOf(z), |AtomText(a)|);
      ZipperIs(z);
    }
  }

  lemma HomeEndRefine(z: Zipper, cap: nat)
    requires ZOk(z)
    ensures Ok(LineOf(z)) && ZOk(RowStep(z, Home, cap)) && ZOk(RowStep(z, End, cap))
    ensures Step(LineOf(z), Home, cap) == LineOf(RowStep(z, Home, cap))
    ensures Step(LineOf(z), End, cap) == LineOf(RowStep(z, End, cap))
  {
    hide *;
    LineOfOk(z);
    StepMeans(LineOf(z), cap);
    RowStepMeans(z, cap);
    ZipperIs(z);
    WithNothing(z.left);
    WithNothing(z.right);
    Regroup([], z.left, z.right);
    RegroupOk([], z.left, z.right);
    Regroup(z.left, z.right, []);
    RegroupOk(z.left, z.right, []);
  }

  lemma WithNothing(row: seq<Atom>)
    ensures [] + row == row && row + [] == row && Len([]) == 0
  {}

  // ---------- deleting ----------

  // Cutting the bytes of a part of the row next to the cursor cuts out that part.
  lemma CutLeft(a: seq<Atom>, b: seq<Atom>, c: seq<Atom>)
    requires RowOk(a) && RowOk(b) && RowOk(c)
    ensures var l := LineOf(Zipper(a + b, c));
            && l.pos == Len(a) + Len(b) <= |l.text|
            && Cut(l, Len(a), l.pos) == LineOf(Zipper(a, c))
  {
    hide TextOf, FoldsOf, RowOk, Cut;
    TextConcat(a, b);
    FoldsConcat(a, b, 0);
    CutRow(a, b, c, LineOf(Zipper(a + b, c)));
  }

  lemma CutRight(a: seq<Atom>, b: seq<Atom>, c: seq<Atom>)
    requires RowOk(a) && RowOk(b) && RowOk(c)
    ensures var l := LineOf(Zipper(a, b + c));
            && l.pos == Len(a) && Len(a) + Len(b) <= |l.text|
            && Cut(l, Len(a), Len(a) + Len(b)) == LineOf(Zipper(a, c))
  {
    hide TextOf, FoldsOf, RowOk, Cut;
    Regroup(a, b, c);
    TextConcat(b, c);
    Assoc(TextOf(a), TextOf(b), TextOf(c));
    FoldsConcat(b, c, Len(a));
    AssocFolds(FoldsOf(a, 0), FoldsOf(b, Len(a)), FoldsOf(c, Len(a) + Len(b)));
    CutRow(a, b, c, LineOf(Zipper(a, b + c)));
  }

  lemma BackspaceRefines(z: Zipper, cap: nat)
    requires ZOk(z)
    ensures Ok(LineOf(z)) && ZOk(RowStep(z, Backspace, cap))
    ensures Step(LineOf(z), Backspace, cap) == LineOf(RowStep(z, Backspace, cap))
  {
    hide *;
    LineOfOk(z);
    StepMeans(LineOf(z), cap);
    RowStepMeans(z, cap);
    if z.left == [] {
      AtStart(z);
    } else {
      var m := |z.left| - 1;
      SplitLast(z.left);
      StepLeftIsAtom(z);
      ZipperIs(z);
      RegroupOk(z.left[..m], [z.left[m]], z.right);
      CutLeft(z.left[..m], [z.left[m]], z.right);
      OneAtomLen(z.left[m]);
      MovedLeftBy(LineOf(z), |AtomText(z.left[m])|);
    }
  }

  lemma DeleteRefines(z: Zipper, cap: nat)
    requires ZOk(z)
    ensures Ok(LineOf(z)) && ZOk(RowStep(z, Delete, cap))
    ensures Step(LineOf(z), Delete, cap) == LineOf(RowStep(z, Delete, cap))
  {
    hide *;
    LineOfOk(z);
    StepMeans(LineOf(z), cap);
    RowStepMeans(z, cap);
    if z.right == [] {
      AtEnd(z);
    } else {
      var a := z.right[0];
      SplitFirst(z.right);
      StepRightIsAtom(z);
      ZipperIs(z);
      RegroupOk(z.left, [a], z.right[1..]);
      CutRight(z.left, [a], z.right[1..]);
      OneAtomLen(a);
      MovedRightBy(LineOf(z), |AtomText(a)|);
    }
  }

  lemma KillToEndRefines(z: Zipper, cap: nat)
    requires ZOk(z)
    ensures Ok(LineOf(z)) && ZOk(RowStep(z, KillToEnd, cap))
    ensures Step(LineOf(z), KillToEnd, cap) == LineOf(RowStep(z, KillToEnd, cap))
  {
    hide *;
    LineOfOk(z);
    StepMeans(LineOf(z), cap);
    RowStepMeans(z, cap);
    ZipperIs(z);
    WithNothing(z.right);
    RegroupOk(z.left, z.right, []);
    CutRight(z.left, z.right, []);
    KilledToEndIs(LineOf(z));
  }

  lemma KilledToEndIs(l: Line)
    requires Fine(l)
    ensures KilledToEnd(l) == Cut(l, l.pos, |l.text|)
  {}

  lemma KillLineRefines(z: Zipper, cap: nat)
    requires ZOk(z)
    ensures Ok(LineOf(z)) && ZOk(RowStep(z, KillLine, cap))
    ensures Step(LineOf(z), KillLine, cap) == LineOf(RowStep(z, KillLine, cap))
  {
    hide *;
    LineOfOk(z);
    StepMeans(LineOf(z), cap);
    RowStepMeans(z, cap);
    EmptyRow();
  }

  lemma EmptyRow()
    ensures ZOk(Zipper([], [])) && LineOf(Zipper([], [])) == EMPTY
  {}

  // ---------- killing a word ----------

  // Skipping back over bytes from the end of a row skips back over its atoms.
  lemma {:induction false} SkipRefines(l: Line, row: seq<Atom>, rest: seq<Atom>, spaces: bool)
    requires Ok(l) && RowOk(row) && ZOk(Zipper(row, rest))
    requires l.text == LineOf(Zipper(row, rest)).text && l.folds == LineOf(Zipper(row, rest)).folds
    ensures Bound(l.text, Len(row)) && SkipLeft(l, Len(row), spaces) == Len(Skip(row, spaces))
    decreases |row|
  {
    hide *;
    var z := Zipper(row, rest);
    LineOfOk(z);
    OkBound(LineOf(z));
    ZipperIs(z);
    SkipLeftStep(l, Len(row), spaces);
    if row == [] {
      WithNothing(row);
      SkipNone(row, spaces);
    } else {
      var m := |row| - 1;
      SplitLast(row);
      StepLeftIsAtom(z);
      SameStep(LineOf(z), l, Len(row));
      SkipOne(row, spaces);
      LastByteOfText(row, rest);
      Regroup(row[..m], [row[m]], rest);
      RegroupOk(row[..m], [row[m]], rest);
      OneAtomLen(row[m]);
      if (LastByte(row[m]) == SPACE) == spaces {
        LineIs(LineOf(Zipper(row[..m], [row[m]] + rest)), LineOf(z));
        SkipRefines(l, row[..m], [row[m]] + rest, spaces);
      }
    }
  }

  lemma LineIs(l: Line, k: Line)
    requires l == k.(pos := l.pos)
    ensures l.text == k.text && l.folds == k.folds
  {}

  lemma OkBound(l: Line)
    requires Ok(l)
    ensures Bound(l.text, l.pos)
  {}

  lemma SameStep(l: Line, k: Line, p: nat)
    requires l.text == k.text && l.folds == k.folds && CanStepLeft(l, p)
    ensures CanStepLeft(k, p) && StepLeft(l, p) == StepLeft(k, p)
  {}

  lemma SkipNone(row: seq<Atom>, spaces: bool)
    requires row == [] && RowOk(row)
    ensures Skip(row, spaces) == []
  {}

  lemma SkipOne(row: seq<Atom>, spaces: bool)
    requires RowOk(row) && row != []
    ensures var m := |row| - 1;
            AtomText(row[m]) != [] && RowOk(row[..m])
            && Skip(row, spaces) == if (LastByte(row[m]) == SPACE) == spaces then Skip(row[..m], spaces) else row
  {
    AtomNotEmpty(row[|row| - 1]);
  }

  lemma LastByteOfText(row: seq<Atom>, rest: seq<Atom>)
    requires RowOk(row) && row != []
    ensures AtomText(row[|row| - 1]) != [] && 0 < Len(row) <= |LineOf(Zipper(row, rest)).text|
    ensures LineOf(Zipper(row, rest)).text[Len(row) - 1] == LastByte(row[|row| - 1])
    ensures Len(row) == Len(row[..|row| - 1]) + |AtomText(row[|row| - 1])|
  {
    hide AtomText, FoldsOf, TextOf;
    LastAtom(row);
  }

  lemma KillWordRefines(z: Zipper, cap: nat)
    requires ZOk(z)
    ensures Ok(LineOf(z)) && ZOk(RowStep(z, KillWord, cap))
    ensures Step(LineOf(z), KillWord, cap) == LineOf(RowStep(z, KillWord, cap))
  {
    hide *;
    LineOfOk(z);
    StepMeans(LineOf(z), cap);
    RowStepMeans(z, cap);
    ZipperIs(z);
    var l, a := LineOf(z), Skip(z.left, true);
    SkipRefines(l, z.left, z.right, true);
    var b := z.left[|a|..];
    PrefixRest(a, z.left);
    RegroupOk(a, b, z.right);
    Regroup(a, b, z.right);
    LineIs(LineOf(Zipper(a, b + z.right)), l);
    SkipRefines(l, a, b + z.right, false);
    var w := Skip(a, false);
    PrefixRest(w, a);
    PrefixTrans(w, a, z.left);
    RegroupOk(w, z.left[|w|..], z.right);
    CutLeft(w, z.left[|w|..], z.right);
    DeletedWordIs(l);
  }

  lemma PrefixRest(a: seq<Atom>, row: seq<Atom>)
    requires a <= row
    ensures a + row[|a|..] == row
  {}

  lemma PrefixTrans(a: seq<Atom>, b: seq<Atom>, c: seq<Atom>)
    requires a <= b <= c
    ensures a <= c && a + c[|a|..] == c
  {}

  // ---------- inserting and pasting ----------

  lemma InsertRefines(z: Zipper, r: Rune, cap: nat)
    requires ZOk(z) && Simple(r)
    ensures Ok(LineOf(z)) && ZOk(RowStep(z, Insert(r), cap))
    ensures Step(LineOf(z), Insert(r), cap) == LineOf(RowStep(z, Insert(r), cap))
  {
    hide AtomText, FoldsOf, TextOf, Encode1, Ordered, RowOk, Inserted, Simple;
    LineOfOk(z);
    ZipperIs(z);
    var row := [Ch(r)];
    OneCh(r);
    OneAtom(Ch(r), 0);
    InsertRow(z, row);
    RowOkConcat(z.left, row);
    CountConcat(z.left, row);
  }

  lemma OneCh(r: Rune)
    requires Simple(r)
    ensures RowOk([Ch(r)]) && Count([Ch(r)]) == 0
  {}

  lemma {:induction false} CharsText(rs: seq<Rune>)
    requires AllSimple(rs)
    ensures RowOk(Chars(rs)) && Count(Chars(rs)) == 0 && TextOf(Chars(rs)) == Encode(rs)
  {
    hide Encode1, Simple;
    if rs != [] {
      CharsText(rs[1..]);
      EncodeSingle(rs[0]);
      assert Chars(rs)[1..] == Chars(rs[1..]);
    }
  }

  lemma {:induction false} NormalRunesSimple(rs: seq<Rune>)
    requires AllSimple(rs)
    ensures AllSimple(NormalRunes(rs)) && (rs != [] ==> NormalRunes(rs) != [])
    decreases |rs|
  {
    if rs != [] {
      assert Simple(LF) && Simple(rs[0]);
      NormalRunesSimple(if rs[0] == CR && |rs| > 1 && rs[1] == LF then rs[2..] else rs[1..]);
    }
  }

  lemma PasteRefines(z: Zipper, raw: Bytes, cap: nat)
    requires ZOk(z) && CommandOk(PasteRaw(raw), cap)
    ensures Ok(LineOf(z)) && ZOk(RowStep(z, PasteRaw(raw), cap))
    ensures Step(LineOf(z), PasteRaw(raw), cap) == LineOf(RowStep(z, PasteRaw(raw), cap))
  {
    hide AtomText, FoldsOf, TextOf, Encode, Encode1, Ordered, RowOk, Inserted, Folded, WF, Normal, NormalRunes, ShouldFold, AllSimple;
    LineOfOk(z);
    var ns := NormalRunes(Runes(raw));
    NormalWF(raw);
    NormalRunesSimple(Runes(raw));
    CharsText(ns);
    InsertRow(z, Chars(ns));
    RowOkConcat(z.left, Chars(ns));
    CountConcat(z.left, Chars(ns));
    FoldsCount(z.left, 0);
    FoldsCount(z.right, Len(z.left));
    if raw != [] {
      RunesNotEmpty(raw);
      FoldedRow(z, ns);
      OneHid(ns);
      RowOkConcat(z.left, [Hid(ns)]);
      CountConcat(z.left, [Hid(ns)]);
    }
  }

  lemma RunesNotEmpty(s: Bytes)
    requires WF(s) && s != []
    ensures Runes(s) != []
  {}

  lemma OneHid(rs: seq<Rune>)
    requires rs != [] && AllSimple(rs)
    ensures AtomOk(Hid(rs)) && RowOk([Hid(rs)]) && Count([Hid(rs)]) == 1
  {}

  // ---------- swapping ----------

  lemma SwapRefines(z: Zipper, cap: nat)
    requires ZOk(z)
    ensures Ok(LineOf(z)) && ZOk(RowStep(z, Swap, cap))
    ensures Step(LineOf(z), Swap, cap) == LineOf(RowStep(z, Swap, cap))
  {
    hide *;
    LineOfOk(z);
    ZipperIs(z);
    var l := LineOf(z);
    SwapStepMeans(z, cap);
    if z.left == [] || z.right == [] {
      WithNothing([]);
      SwapAtEdge(l);
    } else {
      var m := |z.left| - 1;
      StepLeftIsAtom(z);
      StepRightIsAtom(z);
      SwappedIs(l);
      if z.left[m].Ch? && z.right[0].Ch? {
        SplitLast(z.left);
        SplitFirst(z.right);
        assert z.left == z.left[..m] + [Ch(z.left[m].r)] && z.right == [Ch(z.right[0].r)] + z.right[1..];
        SwapChars(z.left[..m], z.left[m].r, z.right[0].r, z.right[1..]);
      } else {
        SwapOverlaps(z);
      }
    }
  }

  lemma SwapStepMeans(z: Zipper, cap: nat)
    requires ZOk(z) && Ok(LineOf(z))
    ensures var m := |z.left| - 1;
            && SwapReady(LineOf(z)) && Step(LineOf(z), Swap, cap) == Swapped(LineOf(z))
            && RowStep(z, Swap, cap) ==
               if z.left != [] && z.right != [] && z.left[m].Ch? && z.right[0].Ch? then
                 Zipper(z.left[..m] + [z.right[0], z.left[m]], z.right[1..])
               else z
  {
    hide Ok, ZOk, LineOf, Swapped, StepLeft, StepRight;
    SwapLineStep(LineOf(z), cap);
  }

  lemma SwapLineStep(l: Line, cap: nat)
    requires Ok(l)
    ensures SwapReady(l) && Step(l, Swap, cap) == Swapped(l)
  {
    hide Swapped, StepLeft, StepRight;
    SwapKeepsOk(l);
    SwapIsReady(l);
  }

  lemma SwapAtEdge(l: Line)
    requires SwapReady(l)
    ensures !(0 < l.pos < |l.text|) ==> Swapped(l) == l
  {}

  lemma DeleteNothing(l: Line, cap: nat)
    requires Ok(l) && l.text == []
    ensures Step(l, Delete, cap) == l
  {
  }

  // Two characters round the cursor: no fold is in the way, and the exchange is that of the atoms.
  lemma SwapChars(a: seq<Atom>, r: Rune, q: Rune, c: seq<Atom>)
    requires ZOk(Zipper(a + [Ch(r)], [Ch(q)] + c))
    ensures var l := LineOf(Zipper(a + [Ch(r)], [Ch(q)] + c));
            var i, j := Len(a), Len(a) + |Encode1(r)| + |Encode1(q)|;
            && AtomText(Ch(r)) == Encode1(r) && AtomText(Ch(q)) == Encode1(q)
            && |Encode1(r)| <= SWAP_MAX && |Encode1(q)| <= SWAP_MAX
            && l.pos == Len(a) + |Encode1(r)| && j <= |l.text|
            && !RangeOverlaps(l.folds, i, j - i)
            && ZOk(Zipper(a + [Ch(q), Ch(r)], c))
            && Exchange(l, i, j) == LineOf(Zipper(a + [Ch(q), Ch(r)], c))
  {
    hide *;
    var b := [Ch(r), Ch(q)];
    TwoAtoms(r, q, Len(a));
    TwoAtoms(q, r, Len(a));
    PairSplits(a, r, q, c);
    Regroup(a + [Ch(r)], [Ch(q)], c);
    RegroupOk(a + [Ch(r)], [Ch(q)], c);
    RegroupOk(a, b, c);
    SwapZOk(a, r, q, c);
    NoFoldBetween(a, b, c);
    ExchangeIs(a, r, q, c);
  }

  lemma PairSplits(a: seq<Atom>, r: Rune, q: Rune, c: seq<Atom>)
    ensures (a + [Ch(r)]) + [Ch(q)] == a + [Ch(r), Ch(q)]
    ensures |Encode1(r)| <= SWAP_MAX && |Encode1(q)| <= SWAP_MAX
    ensures Len(a + [Ch(r)]) == Len(a) + |Encode1(r)|
  {
    hide Encode1, Encode;
    TextConcat(a, [Ch(r)]);
    OneAtom(Ch(r), 0);
  }

  lemma TwoAtoms(r: Rune, q: Rune, at: nat)
    ensures TextOf([Ch(r), Ch(q)]) == Encode1(r) + Encode1(q) && Count([Ch(r), Ch(q)]) == 0
    ensures FoldsOf([Ch(r), Ch(q)], at) == []
    ensures Len([Ch(r), Ch(q)]) == |Encode1(r)| + |Encode1(q)|
    ensures AtomText(Ch(r)) == Encode1(r)
  {
    hide Encode1, Encode, AtomText;
    OneAtom(Ch(r), 0);
    OneAtom(Ch(q), 0);
    var row := [Ch(r), Ch(q)];
    assert row == [Ch(r)] + [Ch(q)];
    TextConcat([Ch(r)], [Ch(q)]);
    FoldsConcat([Ch(r)], [Ch(q)], at);
    OneAtom(Ch(r), at);
    OneAtom(Ch(q), at + Len([Ch(r)]));
    CountConcat([Ch(r)], [Ch(q)]);
    OneCount(r);
    OneCount(q);
  }

  lemma OneCount(r: Rune)
    ensures Count([Ch(r)]) == 0
  {}

  lemma SwapZOk(a: seq<Atom>, r: Rune, q: Rune, c: seq<Atom>)
    requires ZOk(Zipper(a + [Ch(r), Ch(q)], c))
    ensures RowOk(a) && RowOk(c) && RowOk([Ch(r), Ch(q)]) && RowOk([Ch(q), Ch(r)]) && ZOk(Zipper(a + [Ch(q), Ch(r)], c))
  {
    hide AtomOk, Count;
    TwoAtoms(r, q, 0);
    TwoAtoms(q, r, 0);
    CountConcat(a, [Ch(r), Ch(q)]);
    CountConcat(a, [Ch(q), Ch(r)]);
    RowOkConcat(a, [Ch(r), Ch(q)]);
    assert AtomOk([Ch(r), Ch(q)][0]) && AtomOk([Ch(r), Ch(q)][1]);
    RowOkConcat(a, [Ch(q), Ch(r)]);
  }

  // A part of the row without folds overlaps none.
  lemma NoFoldBetween(a: seq<Atom>, b: seq<Atom>, c: seq<Atom>)
    requires RowOk(a) && RowOk(b) && RowOk(c) && FoldsOf(b, Len(a)) == []
    ensures !RangeOverlaps(LineOf(Zipper(a + b, c)).folds, Len(a), Len(b))
  {
    hide AtomText, RowOk, FoldsOf, TextOf;
    FoldsConcat(a, b, 0);
    TextConcat(a, b);
    FoldsWithin(a, 0);
    FoldsWithin(c, Len(a) + Len(b));
    assert FoldsOf(a, 0) + [] == FoldsOf(a, 0);
  }

  lemma ExchangeIs(a: seq<Atom>, r: Rune, q: Rune, c: seq<Atom>)
    ensures var l := LineOf(Zipper(a + [Ch(r), Ch(q)], c)).(pos := Len(a) + |Encode1(r)|);
            var i, j := Len(a), Len(a) + |Encode1(r)| + |Encode1(q)|;
            && j <= |l.text| && Exchange(l, i, j) == LineOf(Zipper(a + [Ch(q), Ch(r)], c))
  {
    hide *;
    PairInRow(a, r, q);
    PairInRow(a, q, r);
    LineOfIs(a + [Ch(r), Ch(q)], c);
    LineOfIs(a + [Ch(q), Ch(r)], c);
    TextLen(a);
    ExchangeLine(LineOf(Zipper(a + [Ch(r), Ch(q)], c)).(pos := Len(a) + |Encode1(r)|),
                 TextOf(a), Encode1(r), Encode1(q), TextOf(c));
  }

  lemma ExchangeLine(l: Line, a: Bytes, r: Bytes, q: Bytes, c: Bytes)
    requires l.text == a + (r + q) + c && l.pos == |a| + |r|
    ensures var i, j := |a|, |a| + |r| + |q|;
            j <= |l.text| && Exchange(l, i, j) == Line(a + (q + r) + c, j, l.folds)
  {
    hide *;
    ExchangeBytesOf(a, r, q, c);
    ExchangeParts(l, |a|, |a| + |r| + |q|);
  }

  lemma LineOfIs(a: seq<Atom>, c: seq<Atom>)
    ensures LineOf(Zipper(a, c)) == Line(TextOf(a) + TextOf(c), Len(a), FoldsOf(a, 0) + FoldsOf(c, Len(a)))
    ensures Len(a) == |TextOf(a)|
  {}

  lemma ExchangeParts(l: Line, p: nat, q: nat)
    requires p <= l.pos <= q <= |l.text|
    ensures Exchange(l, p, q) == Line(l.text[..p] + l.text[l.pos..q] + l.text[p..l.pos] + l.text[q..], q, l.folds)
  {}

  lemma PairInRow(a: seq<Atom>, r: Rune, q: Rune)
    ensures TextOf(a + [Ch(r), Ch(q)]) == TextOf(a) + (Encode1(r) + Encode1(q))
    ensures Len(a + [Ch(r), Ch(q)]) == Len(a) + |Encode1(r)| + |Encode1(q)|
    ensures FoldsOf(a + [Ch(r), Ch(q)], 0) == FoldsOf(a, 0)
  {
    hide AtomText, FoldsOf, TextOf, Encode1, Encode;
    TwoAtoms(r, q, Len(a));
    TextConcat(a, [Ch(r), Ch(q)]);
    FoldsConcat(a, [Ch(r), Ch(q)], 0);
    assert FoldsOf(a, 0) + [] == FoldsOf(a, 0);
  }

  lemma ExchangeBytesOf(a: Bytes, r: Bytes, q: Bytes, c: Bytes)
    ensures var t := a + (r + q) + c;
            var i, p, j := |a|, |a| + |r|, |a| + |r| + |q|;
            t[..i] + t[p..j] + t[i..p] + t[j..] == a + (q + r) + c
  {
    var t := a + (r + q) + c;
    assert t[..|a|] == a;
    assert t[|a| + |r|..|a| + |r| + |q|] == q;
    assert t[|a|..|a| + |r|] == r;
    assert t[|a| + |r| + |q|..] == c;
    Assoc(a, q, r);
  }

  // A fold next to the cursor overlaps the range of a swap.
  lemma SwapOverlaps(z: Zipper)
    requires ZOk(z) && z.left != [] && z.right != []
    requires z.left[|z.left| - 1].Hid? || z.right[0].Hid?
    ensures var a, b := |AtomText(z.left[|z.left| - 1])|, |AtomText(z.right[0])|;
            RangeOverlaps(LineOf(z).folds, Len(z.left) - a, a + b)
  {
    hide AtomText, RowOk, FoldsOf, TextOf;
    var a, b, p := |AtomText(z.left[|z.left| - 1])|, |AtomText(z.right[0])|, Len(z.left);
    var fs := LineOf(z).folds;
    LastAtom(z.left);
    FirstAtom(z.right, p);
    if z.right[0].Hid? {
      var i := |FoldsOf(z.left, 0)|;
      assert fs[i] == FoldsOf(z.right, p)[0] == Fold(p, p + b);
    } else {
      OneAtom(z.left[|z.left| - 1], Len(z.left[..|z.left| - 1]));
      var i := |FoldsOf(z.left, 0)| - 1;
      assert fs[i] == FoldsOf(z.left, 0)[i];
    }
  }

  // ---------- recalling ----------

  function Min(a: nat, b: nat): nat {
    if a <= b then a else b
  }

  ghost predicate LfIn(rs: seq<Rune>, i: nat, j: nat)
    requires i <= j <= |rs|
  {
    exists k :: i <= k < j && rs[k] == LF
  }

  // In a simple text, k clusters are k runes.
  lemma {:induction false} AheadOfSimple(rs: seq<Rune>, i: nat, k: nat, nl: bool)
    requires AllSimple(rs) && i <= |rs|
    ensures var t, p, j := Encode(rs), Size(rs[..i]), Min(i + k, |rs|);
            WF(t) && Bound(t, p) && Ahead(t, p, k, nl) == (Size(rs[..j]), nl || LfIn(rs, i, j))
    decreases k
  {
    hide Encode, Encode1, NextLen, Simple;
    var t, p := Encode(rs), Size(rs[..i]);
    RuneIndexIsBound(rs, i);
    RunesUnique(rs);
    WholeText(rs, i);
    AheadStep(t, p, k, nl);
    if i < |rs| && k > 0 {
      SimpleNextAt(rs, i);
      AheadOfSimple(rs, i + 1, k - 1, nl || rs[i] == LF);
    }
  }

  lemma SimpleNextAt(rs: seq<Rune>, i: nat)
    requires AllSimple(rs) && i < |rs|
    ensures var t, p := Encode(rs), Size(rs[..i]);
            p < |t| && WF(t[p..]) && p + NextLen(t, p) == Size(rs[..i+1]) && (t[p] == LF <==> rs[i] == LF)
  {
    hide Encode, Encode1, NextLen, Simple;
    NextLenAt(rs, i);
    SimpleNextEnd(rs, i);
    EncodeSplit(rs, i);
    LfFirst(rs[i..]);
    var t := Encode(rs[..i]) + Encode(rs[i..]);
    assert t[Size(rs[..i])] == Encode(rs[i..])[0];
  }

  lemma SimpleNextEnd(rs: seq<Rune>, i: nat)
    requires AllSimple(rs) && i < |rs|
    ensures NextEnd(rs, i) == i + 1
  {
    assert Simple(rs[i]);
    if i + 1 < |rs| { assert Simple(rs[i+1]); }
  }

  lemma {:induction false} BehindOfSimple(rs: seq<Rune>, j: nat, k: nat, nl: bool)
    requires AllSimple(rs) && j <= |rs|
    ensures var t, p, i := Encode(rs), Size(rs[..j]), j - Min(k, j);
            WF(t) && Bound(t, p) && Behind(t, p, k, nl) == (Size(rs[..i]), nl || LfIn(rs, i, j))
    decreases k
  {
    hide Encode, Encode1, PrevLen, Simple;
    var t, p := Encode(rs), Size(rs[..j]);
    RuneIndexIsBound(rs, j);
    RunesUnique(rs);
    ReadBackStart(rs, j);
    BehindStep(t, p, k, nl);
    if j > 0 && k > 0 {
      SimplePrevAt(rs, j);
      BehindOfSimple(rs, j - 1, k - 1, nl || rs[j-1] == LF);
    }
  }

  lemma SimplePrevAt(rs: seq<Rune>, j: nat)
    requires AllSimple(rs) && 0 < j <= |rs|
    ensures var t, p := Encode(rs), Size(rs[..j]);
            && 0 < p <= |t| && WF(t[..p]) && PrevLen(t, p) <= p && p - PrevLen(t, p) == Size(rs[..j-1])
            && (t[p - PrevLen(t, p)] == LF <==> rs[j-1] == LF)
  {
    hide Encode, Encode1, PrevLen, NextLen, Simple;
    PrevLenAt(rs, j);
    ReadBackStart(rs, j);
    SimplePrevStart(rs, j);
    SimpleNextAt(rs, j - 1);
  }

  lemma SimplePrevStart(rs: seq<Rune>, j: nat)
    requires AllSimple(rs) && 0 < j <= |rs|
    ensures PrevStart(rs, j) == j - 1
  {
    assert Simple(rs[j-1]);
    if j > 1 { assert Simple(rs[j-2]); }
  }

  /** The fold of a recalled entry hides these characters, and covers every newline in it. */
  lemma HistoryFoldCoversLf(rs: seq<Rune>)
    requires AllSimple(rs) && rs != []
    ensures WF(Encode(rs)) && Encode(rs) != []
    ensures var (i, j) := Hides(rs);
            && i < j && HistoryFold(Encode(rs)) == Fold(Size(rs[..i]), Size(rs[..j]))
            && !LfIn(rs, 0, i) && !LfIn(rs, j, |rs|)
  {
    hide Encode, Encode1, NextLen, PrevLen, Ahead, Behind, LfIn;
    var t := Encode(rs);
    RunesUnique(rs);
    AheadOfSimple(rs, 0, CONTEXT, false);
    BehindOfSimple(rs, |rs|, CONTEXT, false);
    OffEnds(rs, t);
    WFStart(t);
    assert rs[..0] == [] && rs[..|rs|] == rs;
    NoLfInNothing(rs, 0);
    NoLfInNothing(rs, |rs|);
    SizeOrder(rs, Lead(rs), Trail(rs));
    ReadBackStart(rs, |rs|);
  }

  lemma NoLfInNothing(rs: seq<Rune>, i: nat)
    requires i <= |rs|
    ensures !LfIn(rs, i, i)
  {
  }

  lemma SizeOrder(rs: seq<Rune>, i: nat, j: nat)
    requires i <= |rs| && j <= |rs|
    ensures Size(rs[..i]) < Size(rs[..j]) <==> i < j
  {
    hide Encode1;
    if i < j {
      assert rs[..j][..i] == rs[..i];
      WholeText(rs[..j], i);
    } else {
      assert rs[..i][..j] == rs[..j];
      WholeText(rs[..i], j);
    }
  }

  lemma {:induction false} CharsNoLf(rs: seq<Rune>)
    requires !LfIn(rs, 0, |rs|)
    ensures NoLooseLf(Chars(rs))
  {
    if rs != [] {
      assert rs[0] != LF;
      assert forall k :: 0 <= k < |rs| - 1 ==> rs[1..][k] == rs[k + 1];
      CharsNoLf(rs[1..]);
    }
  }

  // A text with an LF byte has an LF rune.
  lemma {:induction false} LfByteIsRune(rs: seq<Rune>)
    ensures HasLf(Encode(rs)) <==> LfIn(rs, 0, |rs|)
  {
    if rs != [] {
      LfByteIsRune(rs[1..]);
      LfInOne(rs[0]);
      var e, t := Encode1(rs[0]), Encode(rs[1..]);
      HasLfConcat(e, t);
      assert forall k :: 0 <= k < |rs| - 1 ==> rs[1..][k] == rs[k + 1];
      assert forall k :: 0 < k < |rs| ==> rs[k] == rs[1..][k - 1];
    }
  }

  lemma LfInOne(r: Rune)
    ensures HasLf(Encode1(r)) <==> r == LF
  {
    if r == LF { assert Encode1(r)[0] == LF; }
  }

  lemma HasLfConcat(a: Bytes, b: Bytes)
    ensures HasLf(a + b) <==> HasLf(a) || HasLf(b)
  {
    if HasLf(a) { var i :| 0 <= i < |a| && a[i] == LF; assert (a + b)[i] == LF; }
    if HasLf(b) { var i :| 0 <= i < |b| && b[i] == LF; assert (a + b)[|a| + i] == LF; }
  }

  // The row stands for the recalled entry, and shows none of its newlines.
  lemma RecallRowIs(entry: Bytes)
    requires WF(entry) && AllSimple(Runes(entry))
    ensures var row := RecallRow(entry);
            ZOk(Zipper(row, [])) && NoLooseLf(row) && LineOf(Zipper(row, [])) == Recalled(entry, false)
  {
    hide Encode, Encode1, HistoryFold, AllSimple, TextOf, FoldsOf, RowOk, NoLooseLf, LfIn, Hides, Chars, Count;
    var rs := Runes(entry);
    if entry != [] && ShouldFold(entry) {
      RunesNotEmpty(entry);
      HistoryFoldCoversLf(rs);
      var (i, j) := Hides(rs);
      RecallRowFolded(rs, i, j);
    } else {
      LfByteIsRune(rs);
      CharsText(rs);
      CharsNoLf(rs);
      NothingAfter(Chars(rs));
      FoldsCount(Chars(rs), 0);
      NoFoldsLeft(Chars(rs));
    }
  }

  lemma NoFoldsLeft(row: seq<Atom>)
    requires |FoldsOf(row, 0)| == 0
    ensures FoldsOf(row, 0) == []
  {
  }

  lemma NothingAfter(row: seq<Atom>)
    ensures LineOf(Zipper(row, [])) == Line(TextOf(row), Len(row), FoldsOf(row, 0))
    ensures RowOk([]) && Count([]) == 0
  {
    assert TextOf(row) + [] == TextOf(row) && FoldsOf(row, 0) + [] == FoldsOf(row, 0);
  }

  lemma RecallRowFolded(rs: seq<Rune>, i: nat, j: nat)
    requires AllSimple(rs) && i < j <= |rs| && !LfIn(rs, 0, i) && !LfIn(rs, j, |rs|)
    ensures var row := (Chars(rs[..i]) + [Hid(rs[i..j])]) + Chars(rs[j..]);
            && ZOk(Zipper(row, [])) && NoLooseLf(row)
            && LineOf(Zipper(row, [])) == Line(Encode(rs), Size(rs), [Fold(Size(rs[..i]), Size(rs[..j]))])
  {
    hide *;
    SubTexts(rs, i, j);
    CharsText(rs[..i]);
    CharsText(rs[j..]);
    CharsNoLf(rs[..i]);
    CharsNoLf(rs[j..]);
    OneHid(rs[i..j]);
    FoldedBetween(Chars(rs[..i]), rs[i..j], Chars(rs[j..]));
    ThreePieces(rs, i, j);
    TextLen(Chars(rs[..i]));
    TextLen(Chars(rs[j..]));
    SizeIs(rs[..i]);
    SizeIs(rs[i..j]);
    SizeIs(rs);
  }

  lemma SizeIs(rs: seq<Rune>)
    ensures Size(rs) == |Encode(rs)|
  {}

  lemma SubTexts(rs: seq<Rune>, i: nat, j: nat)
    requires AllSimple(rs) && i < j <= |rs| && !LfIn(rs, 0, i) && !LfIn(rs, j, |rs|)
    ensures AllSimple(rs[..i]) && AllSimple(rs[i..j]) && AllSimple(rs[j..]) && rs[i..j] != []
    ensures !LfIn(rs[..i], 0, |rs[..i]|) && !LfIn(rs[j..], 0, |rs[j..]|)
  {
    assert forall k :: 0 <= k < i ==> rs[..i][k] == rs[k];
    assert forall k :: 0 <= k < |rs| - j ==> rs[j..][k] == rs[j + k];
  }

  lemma FoldedBetween(a: seq<Atom>, hs: seq<Rune>, b: seq<Atom>)
    requires RowOk(a) && RowOk(b) && RowOk([Hid(hs)]) && Count([Hid(hs)]) == 1 && Count(a) == 0 && Count(b) == 0
    requires NoLooseLf(a) && NoLooseLf(b)
    ensures var row := (a + [Hid(hs)]) + b;
            && ZOk(Zipper(row, [])) && NoLooseLf(row)
            && LineOf(Zipper(row, [])) == Line(TextOf(a) + Encode(hs) + TextOf(b), Len(a) + Size(hs) + Len(b), [Fold(Len(a), Len(a) + Size(hs))])
  {
    hide Encode, AtomText, TextOf, FoldsOf, Count, AtomOk;
    var h := Hid(hs);
    OneAtom(h, Len(a));
    FoldsCount(a, 0);
    TextConcat(a, [h]);
    FoldsConcat(a, [h], 0);
    CountConcat(a, [h]);
    RowOkConcat(a, [h]);
    FoldsCount(b, Len(a + [h]));
    TextConcat(a + [h], b);
    FoldsConcat(a + [h], b, 0);
    CountConcat(a + [h], b);
    RowOkConcat(a + [h], b);
    NothingAfter((a + [h]) + b);
    AtomTextOfHid(hs);
  }

  lemma AtomTextOfHid(hs: seq<Rune>)
    ensures AtomText(Hid(hs)) == Encode(hs)
  {}

  lemma ThreePieces(rs: seq<Rune>, i: nat, j: nat)
    requires i <= j <= |rs|
    ensures Encode(rs) == Encode(rs[..i]) + Encode(rs[i..j]) + Encode(rs[j..])
    ensures Size(rs[..j]) == Size(rs[..i]) + Size(rs[i..j])
  {
    hide Encode, Encode1;
    EncodeSplit(rs, j);
    EncodeSplit(rs[..j], i);
    assert rs[..j][..i] == rs[..i] && rs[..j][i..] == rs[i..j];
  }

  lemma RecallRefines(z: Zipper, entry: Bytes, cap: nat)
    requires ZOk(z) && CommandOk(RecallEntry(entry), cap)
    ensures Ok(LineOf(z)) && ZOk(RowStep(z, RecallEntry(entry), cap))
    ensures Step(LineOf(z), RecallEntry(entry), cap) == LineOf(RowStep(z, RecallEntry(entry), cap))
  {
    hide WF, AllSimple, LineOf;
    LineOfOk(z);
    RecallRowIs(entry);
  }

  lemma CompleteRefines(z: Zipper, candidate: Bytes, buflen: nat, cap: nat)
    requires ZOk(z) && CommandOk(Complete(candidate, buflen), cap)
    ensures Ok(LineOf(z)) && ZOk(RowStep(z, Complete(candidate, buflen), cap))
    ensures Step(LineOf(z), Complete(candidate, buflen), cap) == LineOf(RowStep(z, Complete(candidate, buflen), cap))
  {
    hide WF, AllSimple, Encode, TextOf, FoldsOf, RowOk;
    LineOfOk(z);
    var row := Chars(Runes(candidate));
    CharsText(Runes(candidate));
    FoldsCount(row, 0);
    NothingAfter(row);
  }

  // ---------- one command, and every run ----------

  /** Every command does to the line what it does to the row. */
  lemma StepRefines(z: Zipper, c: Command, cap: nat)
    requires ZOk(z) && CommandOk(c, cap)
    ensures Ok(LineOf(z)) && ZOk(RowStep(z, c, cap))
    ensures Step(LineOf(z), c, cap) == LineOf(RowStep(z, c, cap))
  {
    hide *;
    match c
    case Insert(r) => InsertRuneOk(r, cap); InsertRefines(z, r, cap);
    case PasteRaw(raw) => PasteRefines(z, raw, cap);
    case Left => LeftRefines(z, cap);
    case Right => RightRefines(z, cap);
    case Home => HomeEndRefine(z, cap);
    case End => HomeEndRefine(z, cap);
    case Backspace => BackspaceRefines(z, cap);
    case Delete => DeleteRefines(z, cap);
    case Swap => SwapRefines(z, cap);
    case KillToEnd => KillToEndRefines(z, cap);
    case KillLine => KillLineRefines(z, cap);
    case KillWord => KillWordRefines(z, cap);
    case RecallEntry(entry) => RecallRefines(z, entry, cap);
    case Complete(candidate, buflen) => CompleteRefines(z, candidate, buflen, cap);
  }

  lemma InsertRuneOk(r: Rune, cap: nat)
    ensures CommandOk(Insert(r), cap) <==> Simple(r)
  {}

  ghost predicate CommandsOk(cs: seq<Command>, cap: nat) {
    forall i :: 0 <= i < |cs| ==> CommandOk(cs[i], cap)
  }

  // The row after a run of commands.
  ghost function RowRun(z: Zipper, cs: seq<Command>, cap: nat): (r: Zipper)
    requires ZOk(z) && CommandsOk(cs, cap)
    ensures ZOk(r)
    decreases |cs|
  {
    if cs == [] then z
    else
      StepRefines(z, cs[0], cap);
      RowRun(RowStep(z, cs[0], cap), cs[1..], cap)
  }

  // The lines that the editor passes through.
  ghost predicate Runs(l: Line, cs: seq<Command>, cap: nat, r: Line)
    requires CommandsOk(cs, cap)
    decreases |cs|
  {
    if cs == [] then r == l
    else Ok(l) && Runs(Step(l, cs[0], cap), cs[1..], cap, r)
  }

  /** Over every run: no step is undefined, and the line reached is the one that the row run stands for. */
  lemma {:induction false} RunRefines(z: Zipper, cs: seq<Command>, cap: nat, r: Line)
    requires ZOk(z) && CommandsOk(cs, cap)
    ensures Runs(LineOf(z), cs, cap, r) <==> r == LineOf(RowRun(z, cs, cap))
    decreases |cs|
  {
    hide Ok, ZOk, Step, RowStep, LineOf, CommandOk;
    if cs != [] {
      StepRefines(z, cs[0], cap);
      RunRefines(RowStep(z, cs[0], cap), cs[1..], cap, r);
    }
  }

  /** In every line that a row stands for the cursor is on a character boundary and in no fold. */
  lemma CursorNotInFold(z: Zipper)
    requires ZOk(z)
    ensures Ok(LineOf(z)) && forall i :: 0 <= i < |LineOf(z).folds| ==> !Inside(LineOf(z).pos, LineOf(z).folds[i])
  {
    hide TextOf, FoldsOf, RowOk;
    LineOfOk(z);
    FoldsWithin(z.left, 0);
    FoldsWithin(z.right, Len(z.left));
  }

  // ---------- newlines stay hidden ----------

  // No newline is typed in, and none comes from a completion.
  ghost predicate TypesNoLf(c: Command) {
    match c
    case Insert(r) => r != LF
    case Complete(candidate, buflen) => WF(candidate) && !LfIn(Runes(candidate), 0, |Runes(candidate)|)
    case _ => true
  }

  predicate LfHidden(z: Zipper) {
    NoLooseLf(z.left) && NoLooseLf(z.right)
  }

  lemma NoLooseLfParts(a: seq<Atom>, b: seq<Atom>)
    ensures NoLooseLf(a + b) <==> NoLooseLf(a) && NoLooseLf(b)
  {
    assert forall i :: 0 <= i < |a| ==> (a + b)[i] == a[i];
    assert forall i :: 0 <= i < |b| ==> (a + b)[|a| + i] == b[i];
  }

  lemma StepKeepsLfHidden(z: Zipper, c: Command, cap: nat)
    requires ZOk(z) && CommandOk(c, cap) && LfHidden(z) && TypesNoLf(c)
    ensures LfHidden(RowStep(z, c, cap))
  {
    hide AtomOk, Count, Encode, Encode1, TextOf, FoldsOf, Simple, WF;
    match c
    case Insert(r) => NoLooseLfParts(z.left, [Ch(r)]);
    case PasteRaw(raw) => PasteKeepsLfHidden(z, raw, cap);
    case Home => NoLooseLfParts(z.left, z.right);
    case End => NoLooseLfParts(z.left, z.right);
    case RecallEntry(entry) => RecallRowIs(entry);
    case Complete(candidate, buflen) => CharsNoLf(Runes(candidate));
    case _ =>
  }

  lemma PasteKeepsLfHidden(z: Zipper, raw: Bytes, cap: nat)
    requires ZOk(z) && CommandOk(PasteRaw(raw), cap) && LfHidden(z)
    ensures LfHidden(RowStep(z, PasteRaw(raw), cap))
  {
    hide AtomOk, Count, Encode, Encode1, TextOf, FoldsOf, AllSimple, WF, Normal, NormalRunes;
    var ns := NormalRunes(Runes(raw));
    NormalWF(raw);
    NoLooseLfParts(z.left, [Hid(ns)]);
    NoLooseLfParts(z.left, Chars(ns));
    if !ShouldFold(Normal(raw)) {
      LfByteIsRune(ns);
      CharsNoLf(ns);
    }
  }

  lemma {:induction false} RunKeepsLfHidden(z: Zipper, cs: seq<Command>, cap: nat)
    requires ZOk(z) && CommandsOk(cs, cap) && LfHidden(z)
    requires forall i :: 0 <= i < |cs| ==> TypesNoLf(cs[i])
    ensures LfHidden(RowRun(z, cs, cap))
    decreases |cs|
  {
    hide ZOk, RowStep, LfHidden, CommandOk, TypesNoLf;
    if cs != [] {
      StepRefines(z, cs[0], cap);
      StepKeepsLfHidden(z, cs[0], cap);
      RunKeepsLfHidden(RowStep(z, cs[0], cap), cs[1..], cap);
    }
  }

  lemma InFoldConcat(a: seq<Fold>, b: seq<Fold>, i: int)
    ensures InFold(a + b, i) <==> InFold(a, i) || InFold(b, i)
  {
    if InFold(a, i) {
      var k :| 0 <= k < |a| && a[k].start <= i < a[k].end;
      assert (a + b)[k] == a[k];
    }
    if InFold(b, i) {
      var k :| 0 <= k < |b| && b[k].start <= i < b[k].end;
      assert (a + b)[|a| + k] == b[k];
    }
  }

  lemma {:induction false} RowLfFolded(row: seq<Atom>, at: nat, i: nat)
    requires RowOk(row) && NoLooseLf(row) && i < |TextOf(row)| && TextOf(row)[i] == LF
    ensures InFold(FoldsOf(row, at), at + i)
    decreases |row|
  {
    hide *;
    NotEmptyRow(row);
    var e := AtomText(row[0]);
    FoldsFirst(row, at);
    FirstTwo(row);
    NoLooseLfFirst(row);
    InFoldConcat(FoldsOf([row[0]], at), FoldsOf(row[1..], at + |e|), at + i);
    if i < |e| {
      AtomLfFolded(row[0], at, i);
    } else {
      RowLfFolded(row[1..], at + |e|, i - |e|);
    }
  }

  lemma NotEmptyRow(row: seq<Atom>)
    requires |TextOf(row)| > 0
    ensures row != []
  {}

  lemma NoLooseLfFirst(row: seq<Atom>)
    requires row != [] && NoLooseLf(row)
    ensures row[0] != Ch(LF) && NoLooseLf(row[1..])
  {}

  lemma AtomLfFolded(a: Atom, at: nat, i: nat)
    requires a != Ch(LF) && i < |AtomText(a)| && AtomText(a)[i] == LF
    ensures InFold(FoldsOf([a], at), at + i)
  {
    hide AtomText, Encode1, FoldsOf;
    OneAtom(a, at);
    if a.Ch? {
      LfInOne(a.r);
    } else {
      assert FoldsOf([a], at)[0] == Fold(at, at + |AtomText(a)|);
    }
  }

  lemma LfHiddenIsFolded(z: Zipper)
    requires ZOk(z) && LfHidden(z)
    ensures LfFolded(LineOf(z))
  {
    hide AtomText, RowOk, NoLooseLf, TextOf, FoldsOf, InFold;
    var l, p := LineOf(z), Len(z.left);
    forall i | 0 <= i < |l.text| && l.text[i] == LF ensures InFold(l.folds, i) {
      InFoldConcat(FoldsOf(z.left, 0), FoldsOf(z.right, p), i);
      if i < p {
        RowLfFolded(z.left, 0, i);
      } else {
        RowLfFolded(z.right, p, i - p);
      }
    }
  }

  // ---------- the text fits the buffer ----------

  lemma StepKeepsCap(l: Line, c: Command, cap: nat)
    requires Ok(l) && |l.text| <= cap && CommandOk(c, cap)
    ensures |Step(l, c, cap).text| <= cap
  {
    hide WF, FoldsBound, Ordered, AllSimple, StepLeft, StepRight, CanStepLeft, CanStepRight, HistoryFold, ShouldFold, AfterInsert, AfterDelete;
    match c
    case Insert(r) =>
    case PasteRaw(raw) => NormalIsClean(raw);
    case RecallEntry(entry) =>
    case Complete(candidate, buflen) =>
    case Left => StepMeans(l, cap); LeftKeepsOk(l);
    case Right => StepMeans(l, cap); RightKeepsOk(l);
    case Backspace => StepMeans(l, cap); DeletesText(l);
    case Delete => StepMeans(l, cap); DeletesText(l);
    case Swap => SwapLineStep(l, cap); SwappedIs(l);
    case KillWord => StepMeans(l, cap);
    case _ => StepMeans(l, cap);
  }

  lemma DeletesText(l: Line)
    requires Fine(l) && CanStepLeft(l, l.pos) && CanStepRight(l, l.pos)
    ensures |DeletedLeft(l).text| <= |l.text| && |DeletedRight(l).text| <= |l.text|
  {
    hide Ordered, StepLeft, StepRight, CanStepLeft, CanStepRight, AfterDelete;
    if l.pos > 0 {
      StepLeftInside(l, l.pos);
    }
    if l.pos < |l.text| {
      StepRightInside(l, l.pos);
    }
  }

  lemma {:induction false} RunKeepsCap(l: Line, cs: seq<Command>, cap: nat, r: Line)
    requires CommandsOk(cs, cap) && Runs(l, cs, cap, r) && |l.text| <= cap
    ensures |r.text| <= cap
    decreases |cs|
  {
    hide Ok, Step, CommandOk;
    if cs != [] {
      StepKeepsCap(l, cs[0], cap);
      RunKeepsCap(Step(l, cs[0], cap), cs[1..], cap, r);
    }
  }

  /** Over every run from an empty line: the line is well formed and fits the buffer, and the cursor is in no fold. If no
      newline is typed or completed, every newline of the text, pasted and recalled ones included, lies in a fold, and
      nothing that is shown is a newline. */
  lemma EveryRun(cs: seq<Command>, cap: nat, r: Line)
    requires CommandsOk(cs, cap) && Runs(EMPTY, cs, cap, r)
    ensures Ok(r) && |r.text| <= cap && forall i :: 0 <= i < |r.folds| ==> !Inside(r.pos, r.folds[i])
    ensures (forall i :: 0 <= i < |cs| ==> TypesNoLf(cs[i])) ==>
              LfFolded(r) && (|r.text| < SIZE_MAX ==> !HasLf(Render.Rendered(r.text, r.folds)))
  {
    hide RowRun, Runs, CommandOk, TypesNoLf, LfFolded, HasLf, WF, Ordered;
    var z := Zipper([], []);
    assert LineOf(z) == EMPTY;
    RunRefines(z, cs, cap, r);
    RunKeepsCap(EMPTY, cs, cap, r);
    CursorNotInFold(RowRun(z, cs, cap));
    if forall i :: 0 <= i < |cs| ==> TypesNoLf(cs[i]) {
      RunKeepsLfHidden(z, cs, cap);
      LfHiddenIsFolded(RowRun(z, cs, cap));
      if |r.text| < SIZE_MAX { Render.RenderedNoLf(r); }
    }
  }
}
