/** A terminal: how it reads the bytes that it is sent, and what each of them does to its screen. The control functions are
    those of section 8.3 of ECMA-48. */
module Terminal {
  import opened Utf8
  import opened Graphemes
  import opened Widths

  // ---------- the screen ----------

  // One column of a row. A character of two columns has its second half in the column after it.
  datatype Cell = Blank | Glyph(r: Rune) | Half

  // What the terminal is told to do. Other is a control sequence that no view sends.
  datatype Op = Return | Newline | EraseRight | Up(n: nat) | Down(n: nat) | Forward(n: nat) | Put(r: Rune) | Other

  // The cursor and the cells. Rows are counted from the first row of the prompt, which is row 1; the rows above it have
  // numbers below 1. After a character in the last column the cursor stays there, and the next character goes to a new
  // row: that is `wrap`. Terminals differ in what they then erase to the right: the last column too, if `eager`, or
  // nothing. A character after a joiner joins the one before it and takes no column: that is `join`.
  datatype Term = Term(row: int, col: nat, wrap: bool, join: bool, eager: bool, at: (int, int) -> Cell)

  // Terminals take a parameter of 0 for 1.
  function Times(n: nat): nat {
    if n == 0 then 1 else n
  }

  function NextRow(t: Term): Term {
    t.(row := t.row + 1, col := 0, wrap := false)
  }

  function Cleared(at: (int, int) -> Cell, row: int, from: int): (int, int) -> Cell {
    (r, c) => if r == row && c >= from then Blank else at(r, c)
  }

  function PutCell(t: Term, cell: Cell, cols: nat): Term
    requires cols > 0
  {
    var u := if t.wrap then NextRow(t) else t;
    u.(at := (r, c) => if r == u.row && c == u.col then cell else u.at(r, c),
       col := if u.col + 1 < cols then u.col + 1 else u.col,
       wrap := u.col + 1 >= cols)
  }

  // A character that is not joined. One of two columns does not fit the last column of a row.
  function PutGlyph(t: Term, r: Rune, cols: nat): Term
    requires cols > 0
  {
    if CharWidth(r) == 0 then t
    else if CharWidth(r) == 1 then PutCell(t, Glyph(r), cols)
    else PutCell(PutCell(if !t.wrap && t.col + 1 >= cols then NextRow(t) else t, Glyph(r), cols), Half, cols)
  }

  function Exec(t: Term, op: Op, cols: nat): Term
    requires cols > 0
  {
    match op
    case Return => t.(col := 0, wrap := false, join := false)
    case Newline => t.(row := t.row + 1, wrap := false, join := false)
    case EraseRight => t.(at := Cleared(t.at, t.row, if t.wrap && !t.eager then cols else t.col), join := false)
    case Up(n) => t.(row := t.row - Times(n), wrap := false, join := false)
    case Down(n) => t.(row := t.row + Times(n), wrap := false, join := false)
    case Forward(n) =>
      t.(col := if t.col + Times(n) < cols then t.col + Times(n) else cols - 1, wrap := false, join := false)
    case Put(r) => (if t.join then t else PutGlyph(t, r, cols)).(join := IsZWJ(r))
    case Other => t
  }

  function Run(t: Term, ops: seq<Op>, cols: nat): Term
    requires cols > 0
  {
    if ops == [] then t else Exec(Run(t, ops[..|ops| - 1], cols), ops[|ops| - 1], cols)
  }

  lemma RunNone(t: Term, cols: nat)
    requires cols > 0
    ensures Run(t, [], cols) == t
  {}

  lemma RunSnoc(t: Term, ops: seq<Op>, op: Op, cols: nat)
    requires cols > 0
    ensures Run(t, ops + [op], cols) == Exec(Run(t, ops, cols), op, cols)
  {
    hide Exec;
    assert (ops + [op])[..|ops|] == ops;
  }

  lemma RunOne(t: Term, op: Op, cols: nat)
    requires cols > 0
    ensures Run(t, [op], cols) == Exec(t, op, cols)
  {
    hide Exec;
    RunSnoc(t, [], op, cols);
    assert [] + [op] == [op];
  }

  lemma {:induction false} RunConcat(t: Term, a: seq<Op>, b: seq<Op>, cols: nat)
    requires cols > 0
    ensures Run(t, a + b, cols) == Run(Run(t, a, cols), b, cols)
  {
    hide Exec;
    if b == [] {
      assert a + b == a;
    } else {
      var m := |b| - 1;
      assert a + b == (a + b[..m]) + [b[m]];
      RunConcat(t, a, b[..m], cols);
      RunSnoc(t, a + b[..m], b[m], cols);
    }
  }

  // The same moves from another row.
  lemma {:induction false} RunShift(t: Term, u: Term, ops: seq<Op>, cols: nat)
    requires cols > 0 && u.col == t.col && u.wrap == t.wrap && u.join == t.join
    ensures var t', u' := Run(t, ops, cols), Run(u, ops, cols);
            u'.row - u.row == t'.row - t.row && u'.col == t'.col && u'.wrap == t'.wrap && u'.join == t'.join
  {
    hide Exec;
    if ops != [] {
      var m := |ops| - 1;
      RunShift(t, u, ops[..m], cols);
      ExecShift(Run(t, ops[..m], cols), Run(u, ops[..m], cols), ops[m], cols);
    }
  }

  lemma ExecShift(t: Term, u: Term, op: Op, cols: nat)
    requires cols > 0 && u.col == t.col && u.wrap == t.wrap && u.join == t.join
    ensures var t', u' := Exec(t, op, cols), Exec(u, op, cols);
            u'.row - u.row == t'.row - t.row && u'.col == t'.col && u'.wrap == t'.wrap && u'.join == t'.join
  {
    hide CharWidth, IsZWJ, PutGlyph, Cleared;
    if op.Put? {
      PutGlyphShift(t, u, op.r, cols);
    }
  }

  lemma PutGlyphShift(t: Term, u: Term, r: Rune, cols: nat)
    requires cols > 0 && u.col == t.col && u.wrap == t.wrap
    ensures var t', u' := PutGlyph(t, r, cols), PutGlyph(u, r, cols);
            u'.row - u.row == t'.row - t.row && u'.col == t'.col && u'.wrap == t'.wrap
  {
    hide CharWidth, PutCell;
    var n, m := if !t.wrap && t.col + 1 >= cols then NextRow(t) else t, if !u.wrap && u.col + 1 >= cols then NextRow(u) else u;
    PutCellShift(t, u, Glyph(r), cols);
    PutCellShift(n, m, Glyph(r), cols);
    PutCellShift(PutCell(n, Glyph(r), cols), PutCell(m, Glyph(r), cols), Half, cols);
  }

  lemma PutCellShift(t: Term, u: Term, cell: Cell, cols: nat)
    requires cols > 0 && u.col == t.col && u.wrap == t.wrap
    ensures var t', u' := PutCell(t, cell, cols), PutCell(u, cell, cols);
            u'.row - u.row == t'.row - t.row && u'.col == t'.col && u'.wrap == t'.wrap
  {}

  // ---------- characters on the screen ----------

  // The columns that a text takes, one after the other.
  function Lay(rs: seq<Rune>): seq<Cell> {
    if rs == [] then []
    else
      var m := |rs| - 1;
      Lay(rs[..m]) + (if Joined(rs, m) then [] else Columns(rs[m]))
  }

  function Columns(r: Rune): seq<Cell> {
    if CharWidth(r) == 0 then [] else if CharWidth(r) == 1 then [Glyph(r)] else [Glyph(r), Half]
  }

  function Puts(rs: seq<Rune>): (ops: seq<Op>)
    ensures |ops| == |rs|
  {
    seq(|rs|, i requires 0 <= i < |rs| => Put(rs[i]))
  }

  lemma PutsConcat(a: seq<Rune>, b: seq<Rune>)
    ensures Puts(a + b) == Puts(a) + Puts(b)
  {}

  lemma {:induction false} LayWidth(rs: seq<Rune>)
    ensures |Lay(rs)| == RunesWidth(rs, false)
  {
    hide CharWidth, IsZWJ, RunesWidth;
    if rs == [] {
      RunesWidthOfNone(false);
    } else {
      var m := |rs| - 1;
      LayWidth(rs[..m]);
      assert rs == rs[..m] + [rs[m]];
      RunesWidthConcat(rs[..m], [rs[m]], false);
      OneWidth(rs[m], EndsJoined(rs[..m], false));
    }
  }

  lemma OneWidth(r: Rune, z: bool)
    ensures RunesWidth([r], z) == if z then 0 else |Columns(r)|
  {
    hide IsZWJ;
    var w := CharWidth(r);
    assert [r][1..] == [];
    assert RunesWidth([], IsZWJ(r)) == 0;
  }

  // No character of two columns starts in the last column of a row.
  ghost predicate NoSplit(rs: seq<Rune>, cols: nat)
    requires cols > 0
  {
    forall m :: 0 <= m < |rs| && CharWidth(rs[m]) == 2 && !Joined(rs, m) ==> |Lay(rs[..m])| % cols + 2 <= cols
  }

  // Character m joins the one before it.
  predicate Joined(rs: seq<Rune>, m: nat)
    requires m < |rs|
  {
    m > 0 && IsZWJ(rs[m - 1])
  }

  // The cursor after k columns from the left edge of row `top`.
  ghost predicate AtIndex(t: Term, top: int, k: nat, cols: nat)
    requires cols > 0
  {
    if k == 0 then t.row == top && t.col == 0 && !t.wrap
    else
      && t.row == top + (k - 1) / cols
      && t.wrap == (k % cols == 0) && t.col == (if k % cols == 0 then cols - 1 else k % cols)
  }

  // Where column c of row r stands in a text that starts at the left edge of row `top`.
  function IndexOf(top: int, r: int, c: int, cols: nat): int {
    (r - top) * cols + c
  }

  // Row `top` and those after it hold the columns of a text, and what they held before beyond it.
  ghost predicate Holds(t: Term, was: Term, top: int, cells: seq<Cell>, cols: nat) {
    forall r: int, c: int :: 0 <= c < cols ==> HeldAt(t, was, top, cells, r, c, cols)
  }

  ghost predicate HeldAt(t: Term, was: Term, top: int, cells: seq<Cell>, r: int, c: int, cols: nat) {
    var i := IndexOf(top, r, c, cols);
    t.at(r, c) == if 0 <= i < |cells| then cells[i] else was.at(r, c)
  }

  lemma MulLess(a: int, b: int, d: int)
    requires d > 0 && a < b
    ensures a * d + d <= b * d
  {
    var k := b - a;
    assert k * d >= d by { assert (k - 1) * d >= 0; assert k * d == (k - 1) * d + d; }
    assert b * d == a * d + k * d;
  }

  lemma DivOf(n: int, q: int, r: int, d: int)
    requires d > 0 && 0 <= r < d && n == q * d + r
    ensures n / d == q && n % d == r
  {
    hide *;
    var q', r' := n / d, n % d;
    assert n == q' * d + r' && 0 <= r' < d;
    if q' > q {
      MulLess(q, q', d);
    } else if q' < q {
      MulLess(q', q, d);
    }
  }

  lemma NextIndex(k: nat, cols: nat)
    requires cols > 0
    ensures k == k / cols * cols + k % cols && k % cols < cols
    ensures k % cols + 1 < cols ==> (k + 1) % cols == k % cols + 1
    ensures k % cols + 1 == cols ==> (k + 1) % cols == 0
    ensures k > 0 ==> if k % cols == 0 then (k - 1) / cols == k / cols - 1 else (k - 1) / cols == k / cols
  {
    var q, r := k / cols, k % cols;
    if r + 1 < cols {
      DivOf(k + 1, q, r + 1, cols);
    } else {
      assert (q + 1) * cols == q * cols + cols;
      DivOf(k + 1, q + 1, 0, cols);
    }
    if k > 0 {
      if r == 0 {
        assert (q - 1) * cols == q * cols - cols;
        DivOf(k - 1, q - 1, cols - 1, cols);
      } else {
        DivOf(k - 1, q, r - 1, cols);
      }
    }
  }

  lemma IndexIs(top: int, r: int, c: int, k: nat, cols: nat)
    requires cols > 0 && 0 <= c < cols
    ensures IndexOf(top, r, c, cols) == k <==> r == top + k / cols && c == k % cols
  {
    NextIndex(k, cols);
    if IndexOf(top, r, c, cols) == k {
      DivOf(k, r - top, c, cols);
    }
  }

  lemma IndexSign(top: int, r: int, c: int, cols: nat)
    requires cols > 0 && 0 <= c < cols
    ensures r < top <==> IndexOf(top, r, c, cols) < 0
  {
    if r < top {
      MulLess(r - top, 0, cols);
    } else if r > top {
      MulLess(0, r - top, cols);
    }
  }

  // One more column.
  lemma PutCellIs(t: Term, was: Term, top: int, cells: seq<Cell>, cell: Cell, cols: nat)
    requires cols > 0 && AtIndex(t, top, |cells|, cols) && Holds(t, was, top, cells, cols)
    ensures var u := PutCell(t, cell, cols);
            AtIndex(u, top, |cells| + 1, cols) && Holds(u, was, top, cells + [cell], cols) && u.join == t.join && u.eager == t.eager
  {
    hide AtIndex, PutCell, IndexOf;
    var u := PutCell(t, cell, cols);
    CellWritten(t, top, |cells|, cell, cols);
    forall r: int, c: int | 0 <= c < cols ensures HeldAt(u, was, top, cells + [cell], r, c, cols) {
      IndexIs(top, r, c, |cells|, cols);
      IndexSign(top, r, c, cols);
      assert HeldAt(t, was, top, cells, r, c, cols);
    }
  }

  lemma CellWritten(t: Term, top: int, k: nat, cell: Cell, cols: nat)
    requires cols > 0 && AtIndex(t, top, k, cols)
    ensures var u := PutCell(t, cell, cols);
            && AtIndex(u, top, k + 1, cols) && u.join == t.join && u.eager == t.eager
            && forall r: int, c: int :: u.at(r, c) == if r == top + k / cols && c == k % cols then cell else t.at(r, c)
  {
    NextIndex(k, cols);
  }

  lemma PutGlyphIs(t: Term, was: Term, top: int, cells: seq<Cell>, r: Rune, cols: nat)
    requires cols > 0 && AtIndex(t, top, |cells|, cols) && Holds(t, was, top, cells, cols)
    requires CharWidth(r) == 2 ==> |cells| % cols + 2 <= cols
    ensures var u := PutGlyph(t, r, cols);
            && AtIndex(u, top, |cells| + |Columns(r)|, cols) && Holds(u, was, top, cells + Columns(r), cols)
            && u.join == t.join && u.eager == t.eager
  {
    hide CharWidth, PutCell, Holds;
    if CharWidth(r) == 0 {
      assert cells + Columns(r) == cells;
    } else if CharWidth(r) == 1 {
      PutCellIs(t, was, top, cells, Glyph(r), cols);
    } else {
      TwoFit(t, top, |cells|, cols);
      PutCellIs(t, was, top, cells, Glyph(r), cols);
      PutCellIs(PutCell(t, Glyph(r), cols), was, top, cells + [Glyph(r)], Half, cols);
      assert cells + [Glyph(r)] + [Half] == cells + Columns(r);
      AtMostTwo(r);
    }
  }

  lemma AtMostTwo(r: Rune)
    ensures CharWidth(r) <= 2
  {
    hide IsWide, IsExtend;
  }

  lemma TwoFit(t: Term, top: int, k: nat, cols: nat)
    requires cols > 0 && AtIndex(t, top, k, cols) && k % cols + 2 <= cols
    ensures t.wrap || t.col + 1 < cols
  {
    NextIndex(k, cols);
  }

  /** Characters that are put from the left edge of a row on stand one after the other, row by row; nothing else changes. */
  lemma {:induction false} PutsHold(t: Term, rs: seq<Rune>, cols: nat)
    requires cols > 0 && t.col == 0 && !t.wrap && !t.join && NoSplit(rs, cols)
    ensures var u := Run(t, Puts(rs), cols);
            && AtIndex(u, t.row, |Lay(rs)|, cols) && Holds(u, t, t.row, Lay(rs), cols)
            && u.join == EndsJoined(rs, false) && u.eager == t.eager
    decreases |rs|
  {
    hide CharWidth, IsZWJ, AtIndex, HeldAt, PutGlyph, Columns;
    if rs == [] {
      NothingHeld(t, cols);
      RunNone(t, cols);
    } else {
      var m := |rs| - 1;
      NoSplitFirst(rs, cols);
      PutsHold(t, rs[..m], cols);
      assert Puts(rs) == Puts(rs[..m]) + [Put(rs[m])];
      RunSnoc(t, Puts(rs[..m]), Put(rs[m]), cols);
      var v := Run(t, Puts(rs[..m]), cols);
      if v.join {
        assert Lay(rs) == Lay(rs[..m]);
      } else {
        PutGlyphIs(v, t, t.row, Lay(rs[..m]), rs[m], cols);
      }
      JoinAt(v, t, t.row, Lay(rs), Run(t, Puts(rs), cols).join, cols);
      JoinAt(PutGlyph(v, rs[m], cols), t, t.row, Lay(rs), Run(t, Puts(rs), cols).join, cols);
    }
  }

  lemma NoSplitFirst(rs: seq<Rune>, cols: nat)
    requires cols > 0 && rs != [] && NoSplit(rs, cols)
    ensures NoSplit(rs[..|rs| - 1], cols)
    ensures CharWidth(rs[|rs| - 1]) == 2 && !Joined(rs, |rs| - 1) ==> |Lay(rs[..|rs| - 1])| % cols + 2 <= cols
  {
    hide CharWidth, Lay;
    var p := rs[..|rs| - 1];
    assert forall m :: 0 <= m < |p| ==> p[..m] == rs[..m];
    assert forall m :: 0 <= m < |p| ==> Joined(p, m) == Joined(rs, m);
  }

  lemma LaySnoc(rs: seq<Rune>, r: Rune)
    ensures Lay(rs + [r]) == Lay(rs) + (if EndsJoined(rs, false) then [] else Columns(r))
  {
    hide CharWidth, IsZWJ, Columns;
    assert (rs + [r])[..|rs|] == rs;
  }

  // A text behind another one, unless its first character joins that.
  lemma {:induction false} LayConcat(a: seq<Rune>, b: seq<Rune>)
    requires !EndsJoined(a, false)
    ensures Lay(a + b) == Lay(a) + Lay(b)
    decreases |b|
  {
    hide CharWidth, IsZWJ, Columns, Lay;
    if b == [] {
      assert a + b == a;
      LayNothing();
    } else {
      var m := |b| - 1;
      LayConcat(a, b[..m]);
      LaySnoc(a + b[..m], b[m]);
      LaySnoc(b[..m], b[m]);
      assert a + b == (a + b[..m]) + [b[m]] && b == b[..m] + [b[m]];
      assert m > 0 ==> (a + b[..m])[|a| + m - 1] == b[m - 1];
      assert m == 0 ==> a + b[..m] == a;
    }
  }

  lemma LayNothing()
    ensures Lay([]) == []
  {}

  // A character that is not joined stands within the columns of the text.
  lemma {:induction false} LayPrefix(rs: seq<Rune>, m: nat)
    requires m < |rs|
    ensures |Lay(rs[..m])| + (if Joined(rs, m) then 0 else |Columns(rs[m])|) <= |Lay(rs)|
    decreases |rs|
  {
    hide IsZWJ, Columns;
    var n := |rs| - 1;
    if m < n {
      LayPrefix(rs[..n], m);
      assert rs[..n][..m] == rs[..m] && Joined(rs[..n], m) == Joined(rs, m);
    }
  }

  // A text that is no wider than a row splits nowhere.
  lemma OneRowFits(rs: seq<Rune>, cols: nat)
    requires cols > 0 && |Lay(rs)| <= cols
    ensures NoSplit(rs, cols)
  {
    hide CharWidth, IsZWJ, Lay;
    forall m | 0 <= m < |rs| && CharWidth(rs[m]) == 2 && !Joined(rs, m) ensures |Lay(rs[..m])| % cols + 2 <= cols {
      LayPrefix(rs, m);
    }
  }

  lemma NothingHeld(t: Term, cols: nat)
    requires cols > 0 && t.col == 0 && !t.wrap
    ensures AtIndex(t, t.row, 0, cols) && Holds(t, t, t.row, [], cols)
  {}

  lemma JoinAt(t: Term, was: Term, top: int, cells: seq<Cell>, z: bool, cols: nat)
    requires cols > 0
    ensures AtIndex(t, top, |cells|, cols) ==> AtIndex(t.(join := z), top, |cells|, cols)
    ensures Holds(t, was, top, cells, cols) ==> Holds(t.(join := z), was, top, cells, cols)
  {
    hide IndexOf;
    if Holds(t, was, top, cells, cols) {
      forall r: int, c: int | 0 <= c < cols ensures HeldAt(t.(join := z), was, top, cells, r, c, cols) {
        assert HeldAt(t, was, top, cells, r, c, cols);
      }
    }
  }

  // ---------- reading bytes ----------

  // A decimal number; 0 if there is none.
  function Value(s: Bytes): nat
    requires forall i :: 0 <= i < |s| ==> 0x30 <= s[i] <= 0x39
  {
    if s == [] then 0 else Value(s[..|s| - 1]) * 10 + (s[|s| - 1] - 0x30)
  }

  // What a control sequence says whose parameter is `s` and whose final byte is `final`: sections 8.3.22 (CUU), 8.3.19 (CUD),
  // 8.3.20 (CUF), 8.3.41 (EL) and 8.3.117 (SGR).
  function Meaning(s: Bytes, final: Byte): seq<Op> {
    if final == 0x6D then []
    else if exists i :: 0 <= i < |s| && !(0x30 <= s[i] <= 0x39) then [Other]
    else
      var n := Value(s);
      if final == 0x41 then [Up(n)]
      else if final == 0x42 then [Down(n)]
      else if final == 0x43 then [Forward(n)]
      else if final == 0x4B && n == 0 then [EraseRight]
      else [Other]
  }

  /** What a terminal does on these bytes. */
  ghost function Read(s: Bytes): seq<Op>
    requires WF(s)
    decreases |s|
  {
    if s == [] then []
    else if CsiLen(s) > 0 then
      var n := CsiLen(s);
      CsiCut(s);
      CsiLong(s);
      Meaning(s[2..n - 1], s[n - 1]) + Read(s[n..])
    else
      FirstRune(s);
      var r := Runes(s)[0];
      [if r == CR then Return else if r == LF then Newline else Put(r)] + Read(s[|Encode1(r)|..])
  }

  lemma CsiLong(s: Bytes)
    requires CsiLen(s) > 0
    ensures 3 <= CsiLen(s) <= |s|
  {
    var j := CsiShape(s, CsiLen(s));
  }

  // The bytes say these operations, whatever comes after them.
  ghost predicate Says(s: Bytes, ops: seq<Op>) {
    WF(s) && forall rest :: WF(rest) ==> SaysBefore(s, ops, rest)
  }

  ghost predicate SaysBefore(s: Bytes, ops: seq<Op>, rest: Bytes)
    requires WF(rest)
  {
    WF(s + rest) && Read(s + rest) == ops + Read(rest)
  }

  lemma SaysAll(s: Bytes, ops: seq<Op>)
    requires Says(s, ops)
    ensures WF(s) && Read(s) == ops
  {
    hide WF, Read;
    WFEmpty();
    ReadNothing();
    assert SaysBefore(s, ops, []);
    assert s + [] == s && ops + [] == ops;
  }

  lemma ReadNothing()
    ensures WF([]) && Read([]) == []
  {
    WFEmpty();
  }

  lemma SaysNothing()
    ensures Says([], [])
  {
    hide WF, Read;
    WFEmpty();
    forall rest | WF(rest) ensures SaysBefore([], [], rest) {
      assert [] + rest == rest && [] + Read(rest) == Read(rest);
    }
  }

  lemma SaysConcat(a: Bytes, x: seq<Op>, b: Bytes, y: seq<Op>)
    requires Says(a, x) && Says(b, y)
    ensures Says(a + b, x + y)
  {
    hide WF, SaysBefore;
    SaysAll(a, x);
    SaysAll(b, y);
    WFConcat(a, b);
    forall rest | WF(rest) ensures SaysBefore(a + b, x + y, rest) {
      WFConcat(b, rest);
      assert SaysBefore(b, y, rest) && SaysBefore(a, x, b + rest);
      BeforeBoth(a, x, b, y, rest);
    }
  }

  lemma BeforeBoth(a: Bytes, x: seq<Op>, b: Bytes, y: seq<Op>, rest: Bytes)
    requires WF(rest) && WF(b + rest) && SaysBefore(b, y, rest) && SaysBefore(a, x, b + rest)
    ensures SaysBefore(a + b, x + y, rest)
  {
    hide WF, Read;
    AssocBytes(a, b, rest);
    AssocOps(x, y, Read(rest));
  }

  lemma AssocBytes(a: Bytes, b: Bytes, c: Bytes)
    ensures (a + b) + c == a + (b + c)
  {}

  lemma AssocOps(a: seq<Op>, b: seq<Op>, c: seq<Op>)
    ensures (a + b) + c == a + (b + c)
  {}

  // A control sequence is read as a whole.
  lemma SaysCsi(c: Bytes)
    requires IsCsi(c)
    ensures |c| > 2 && Says(c, Meaning(c[2..|c| - 1], c[|c| - 1]))
  {
    hide WF, Read, Meaning;
    CsiWhole(c);
    var ops := Meaning(c[2..|c| - 1], c[|c| - 1]);
    forall rest | WF(rest) ensures SaysBefore(c, ops, rest) {
      CsiBefore(c, rest);
    }
  }

  lemma CsiWhole(c: Bytes)
    requires IsCsi(c)
    ensures WF(c) && |c| > 2
  {
    assert c[..|c|] == c;
    var j := CsiShape(c, |c|);
    AsciiIsWF(c);
  }

  lemma CsiBefore(c: Bytes, rest: Bytes)
    requires IsCsi(c) && WF(rest)
    ensures |c| > 2 && WF(c + rest) && Read(c + rest) == Meaning(c[2..|c| - 1], c[|c| - 1]) + Read(rest)
  {
    hide WF, Meaning;
    CsiWhole(c);
    WFConcat(c, rest);
    var s := c + rest;
    assert s[..|c|] == c;
    assert CsiPrefix(s, |c|);
    CsiPrefixUnique(s, CsiLen(s), |c|);
    assert s[|c|..] == rest && s[2..|c| - 1] == c[2..|c| - 1];
  }

  // So is a character, but for ESC, which may begin a control sequence.
  function Heard(r: Rune): Op {
    if r == CR then Return else if r == LF then Newline else Put(r)
  }

  lemma SaysRune(r: Rune)
    requires r != ESC
    ensures Says(Encode1(r), [Heard(r)])
  {
    hide WF, Read, Encode1;
    EncodeSingle(r);
    RunesUnique([r]);
    forall rest | WF(rest) ensures SaysBefore(Encode1(r), [Heard(r)], rest) {
      RuneBefore(r, rest);
    }
  }

  lemma RuneBefore(r: Rune, rest: Bytes)
    requires r != ESC && WF(rest)
    ensures WF(Encode1(r) + rest) && Read(Encode1(r) + rest) == [Heard(r)] + Read(rest)
  {
    hide WF, Encode1, Encode, DecodeChar;
    EncodeSingle(r);
    RunesUnique([r]);
    WFConcat(Encode([r]), rest);
    var s := Encode1(r) + rest;
    assert s[|Encode1(r)|..] == rest;
    AsciiFirst(s);
    NotCsi(s);
  }

  // No control character, and no ESC.
  predicate IsPrintable(r: Rune) {
    r >= 32 && !(0x7F <= r < 0xA0)
  }

  predicate Printable(rs: seq<Rune>) {
    forall i :: 0 <= i < |rs| ==> IsPrintable(rs[i])
  }

  lemma {:induction false} SaysRunes(rs: seq<Rune>)
    requires Printable(rs)
    ensures Says(Encode(rs), Puts(rs))
    decreases |rs|
  {
    hide WF, Encode1, Says;
    if rs == [] {
      SaysNothing();
    } else {
      SaysRune(rs[0]);
      SaysRunes(rs[1..]);
      SaysConcat(Encode1(rs[0]), [Heard(rs[0])], Encode(rs[1..]), Puts(rs[1..]));
      assert [Heard(rs[0])] + Puts(rs[1..]) == Puts(rs);
    }
  }

  // ---------- prompts ----------

  // The characters of a text, without its control sequences.
  ghost function Letters(s: Bytes): seq<Rune>
    requires WF(s)
    decreases |s|
  {
    if s == [] then []
    else if CsiLen(s) > 0 then
      CsiCut(s);
      Letters(s[CsiLen(s)..])
    else
      FirstRune(s);
      [Runes(s)[0]] + Letters(s[|Encode1(Runes(s)[0])|..])
  }

  const STYLE: Byte := 0x6D    // the final byte of SGR

  // The text moves the cursor by its width and no other way: outside its control sequences, which only set the style of
  // what follows, it has no control character.
  ghost predicate Steady(s: Bytes)
    requires WF(s)
    decreases |s|
  {
    s == [] ||
    if CsiLen(s) > 0 then
      CsiCut(s);
      s[CsiLen(s) - 1] == STYLE && Steady(s[CsiLen(s)..])
    else
      FirstRune(s);
      IsPrintable(Runes(s)[0]) && Steady(s[|Encode1(Runes(s)[0])|..])
  }

  /** Such a text says its characters, and nothing else; its width is theirs. */
  lemma {:induction false} SaysSteady(s: Bytes, z: bool)
    requires WF(s) && Steady(s)
    ensures Says(s, Puts(Letters(s))) && Printable(Letters(s)) && RunesWidth(Letters(s), z) == Width(s, z)
    decreases |s|
  {
    hide WF, Says, CharWidth, RunesWidth, Encode1, IsZWJ, Meaning, IsCsi;
    WidthFirst(s, z);
    if s == [] {
      SaysNothing();
      RunesWidthOfNone(z);
    } else if CsiLen(s) > 0 {
      var n := CsiLen(s);
      CsiCut(s);
      CsiParts(s);
      SaysSteady(s[n..], z);
      SaysCsi(s[..n]);
      StyleSaysNothing(s[..n]);
      SaysConcat(s[..n], [], s[n..], Puts(Letters(s[n..])));
      assert s == s[..n] + s[n..] && [] + Puts(Letters(s[n..])) == Puts(Letters(s));
    } else {
      FirstRune(s);
      var r := Runes(s)[0];
      var rest := s[|Encode1(r)|..];
      RuneParts(s);
      SaysSteady(rest, IsZWJ(r));
      SaysRune(r);
      SaysConcat(Encode1(r), [Heard(r)], rest, Puts(Letters(rest)));
      assert [Heard(r)] + Puts(Letters(rest)) == Puts(Letters(s));
      RunesWidthFirst(r, Letters(rest), z);
    }
  }

  lemma WidthFirst(s: Bytes, z: bool)
    requires WF(s)
    ensures s == [] ==> Width(s, z) == 0
    ensures s != [] && CsiLen(s) > 0 ==> CsiLen(s) <= |s| && WF(s[CsiLen(s)..]) && Width(s, z) == Width(s[CsiLen(s)..], z)
    ensures s != [] && CsiLen(s) == 0 ==>
              && Runes(s) != [] && |Encode1(Runes(s)[0])| <= |s| && WF(s[|Encode1(Runes(s)[0])|..])
              && Width(s, z) == (if z then 0 else CharWidth(Runes(s)[0])) + Width(s[|Encode1(Runes(s)[0])|..], IsZWJ(Runes(s)[0]))
  {
    hide CharWidth, Encode1, IsZWJ;
    if s != [] {
      if CsiLen(s) > 0 { CsiCut(s); } else { FirstRune(s); }
    }
  }

  lemma CsiParts(s: Bytes)
    requires CsiLen(s) > 0
    ensures 3 <= CsiLen(s) <= |s| && IsCsi(s[..CsiLen(s)])
    ensures s[..CsiLen(s)][CsiLen(s) - 1] == s[CsiLen(s) - 1]
  {
    CsiLong(s);
  }

  lemma StyleSaysNothing(c: Bytes)
    requires |c| > 2 && c[|c| - 1] == STYLE
    ensures Meaning(c[2..|c| - 1], c[|c| - 1]) == []
  {}

  lemma RuneParts(s: Bytes)
    requires WF(s) && s != []
    ensures Runes(s) != [] && |Encode1(Runes(s)[0])| <= |s|
    ensures s == Encode1(Runes(s)[0]) + s[|Encode1(Runes(s)[0])|..]
  {
    hide Encode1;
    FirstRune(s);
    var rs := Runes(s);
    EncodeFirst(rs);
    var e := Encode1(rs[0]);
    assert s == e + Encode(rs[1..]);
    assert s[..|e|] == e && s[..|e|] + s[|e|..] == s;
  }

  lemma RunesWidthFirst(r: Rune, rs: seq<Rune>, z: bool)
    ensures RunesWidth([r] + rs, z) == (if z then 0 else CharWidth(r)) + RunesWidth(rs, IsZWJ(r))
  {
    hide CharWidth, IsZWJ;
    assert ([r] + rs)[1..] == rs;
  }
}
