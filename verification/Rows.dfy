/** The multi-line view: how many rows the prompt and the text take, on which of them the cursor is, and the
    vertical moves that a refresh sends, checked against a terminal that wraps at the last column. */
module Rows {
  import opened Utf8
  import opened Numerals
  import opened Graphemes
  import opened Widths
  import opened Render
  import opened Terminal

  // ---------- the moves as bytes ----------

  // The bytes of the moves. A parameter of a move is a number of rows or columns.
  function Sent(op: Op): Bytes
    requires !op.Put? && !op.Other?
  {
    match op
    case Return => [CR]
    case Newline => [LF]
    case EraseRight => [ESC] + Ascii("[0K")
    case Up(n) => [ESC] + Ascii("[") + Number(n) + Ascii("A")
    case Down(n) => [ESC] + Ascii("[") + Number(n) + Ascii("B")
    case Forward(n) => [ESC] + Ascii("[") + Number(n) + Ascii("C")
  }

  /** A terminal reads the bytes of a move as that move. */
  lemma SentSays(op: Op)
    requires !op.Put? && !op.Other?
    ensures Says(Sent(op), [op])
  {
    hide Says, Number, IsCsi, Ascii, Meaning;
    match op
    case Return => SaysRune(CR);
    case Newline => SaysRune(LF);
    case EraseRight => EraseSays();
    case Up(n) => NumberSays(n, "A");
    case Down(n) => NumberSays(n, "B");
    case Forward(n) => NumberSays(n, "C");
  }

  lemma AsciiBytes()
    ensures Ascii("[0K") == [BRACKET, 0x30, 0x4B] && Ascii("[") == [BRACKET]
    ensures Ascii("A") == [0x41] && Ascii("B") == [0x42] && Ascii("C") == [0x43]
  {}

  lemma EraseSays()
    ensures Says([ESC] + Ascii("[0K"), [EraseRight])
  {
    hide Says, IsCsi, Ascii;
    AsciiBytes();
    assert [ESC] + Ascii("[0K") == [ESC, BRACKET] + [0x30] + [0x4B];
    ParameterSays([0x30], 0x4B);
    ValueOfDigit([], 0x30);
    assert [] + [0x30] == [0x30];
  }

  lemma NumberSays(n: nat, letter: string)
    requires letter == "A" || letter == "B" || letter == "C"
    ensures Says([ESC] + Ascii("[") + Number(n) + Ascii(letter),
                 [if letter == "A" then Up(n) else if letter == "B" then Down(n) else Forward(n)])
  {
    hide Says, IsCsi, Number, Ascii;
    var f := if letter == "A" then 0x41 else if letter == "B" then 0x42 else 0x43;
    AsciiBytes();
    NumberValue(n);
    assert [ESC] + [BRACKET] == [ESC, BRACKET];
    ParameterSays(Number(n), f);
  }

  // A control sequence with one number in it.
  lemma ParameterSays(digits: Bytes, final: Byte)
    requires (forall i :: 0 <= i < |digits| ==> 0x30 <= digits[i] <= 0x39) && IsFinal(final)
    ensures Says([ESC, BRACKET] + digits + [final], Meaning(digits, final))
  {
    hide Says, Meaning;
    var c := [ESC, BRACKET] + digits + [final];
    assert c[2..|c| - 1] == digits && c[|c| - 1] == final;
    assert forall k :: 2 <= k < |c| - 1 ==> c[k] == digits[k - 2];
    assert CsiAt(c, |c| - 1);
    SaysCsi(c);
  }

  lemma ValueOfDigit(s: Bytes, d: Byte)
    requires (forall i :: 0 <= i < |s| ==> 0x30 <= s[i] <= 0x39) && 0x30 <= d <= 0x39
    ensures (forall i :: 0 <= i < |s + [d]| ==> 0x30 <= (s + [d])[i] <= 0x39) && Value(s + [d]) == Value(s) * 10 + (d - 0x30)
  {
    assert (s + [d])[..|s|] == s;
  }

  lemma NumberSplit(n: nat)
    requires n >= 10
    ensures Number(n) == Number(n / 10) + [0x30 + n % 10]
  {
    var a, d := Decimal(n / 10), Decimal(n % 10);
    assert Decimal(n) == a + d && d == ['0' + (n % 10) as char];
    assert Ascii(a + d) == Ascii(a) + Ascii(d);
  }

  lemma {:induction false} NumberValue(n: nat)
    ensures (forall i :: 0 <= i < |Number(n)| ==> 0x30 <= Number(n)[i] <= 0x39) && Value(Number(n)) == n
  {
    hide Number, Value;
    if n < 10 {
      OneDigit(n);
      ValueOfDigit([], 0x30 + n);
      NoValue();
    } else {
      NumberValue(n / 10);
      NumberSplit(n);
      ValueOfDigit(Number(n / 10), 0x30 + n % 10);
    }
  }

  lemma OneDigit(n: nat)
    requires n < 10
    ensures Number(n) == [] + [0x30 + n]
  {}

  lemma NoValue()
    ensures Value([]) == 0
  {}

  // ---------- what is to be shown ----------

  // The widths of the shown text and of its part before the cursor, whether the cursor is at the end of what is
  // shown, and whether it is past the start of the line.
  datatype View = View(bufwidth: nat, poswidth: nat, atEnd: bool, moved: bool)

  // Text of width-one characters: the cursor is at the end exactly when everything is before it.
  predicate ViewOk(v: View) {
    && v.poswidth <= v.bufwidth
    && (v.atEnd <==> v.poswidth == v.bufwidth)
    && (v.bufwidth > 0 && v.atEnd ==> v.moved)
  }

  // The rows that w characters take.
  ghost predicate RowsOf(w: nat, cols: nat, rows: int)
    requires cols > 0
  {
    (rows - 1) * cols < w <= rows * cols
  }

  // The rows that the view takes on the screen: a full last row with the cursor after it takes one more.
  ghost predicate Takes(v: View, pwidth: nat, cols: nat, rows: int)
    requires cols > 0
  {
    exists r :: RowsOf(pwidth + v.bufwidth, cols, r) &&
      rows == r + (if v.atEnd && v.moved && pwidth + v.poswidth == r * cols then 1 else 0)
  }

  // The cursor is on the row and column of the character that the next one typed would follow.
  ghost predicate CursorAt(t: Term, v: View, pwidth: nat, cols: nat)
    requires cols > 0
  {
    !t.wrap && (t.row - 1) * cols + t.col == pwidth + v.poswidth && t.col < cols
  }

  // ---------- arithmetic of rows ----------

  lemma CeilRows(w: nat, cols: nat)
    requires cols > 0 && w > 0
    ensures RowsOf(w, cols, (w + cols - 1) / cols)
    ensures (w + cols - 1) / cols == 1 + (w - 1) / cols
  {
    var q := (w - 1) / cols;
    var r := (w - 1) % cols;
    assert w - 1 == q * cols + r && 0 <= r < cols;
    DivOf(w + cols - 1, q + 1, r, cols);
    assert (q + 1) * cols == q * cols + cols;
  }

  lemma FloorRow(p: nat, cols: nat)
    requires cols > 0
    ensures (p + cols) / cols == p / cols + 1
    ensures p == (p / cols) * cols + p % cols && 0 <= p % cols < cols
  {
    DivOf(p + cols, p / cols + 1, p % cols, cols);
  }

  // If w - 1 is within row b and p, no more than w, is past it, then p is w and ends a row.
  lemma WholeRows(p: nat, w: nat, b: int, cols: nat)
    requires cols > 0 && p <= w && b * cols <= w - 1 < b * cols + cols && b * cols + cols <= p
    ensures p == w && w % cols == 0
  {
    assert w == (b + 1) * cols by { assert (b + 1) * cols == b * cols + cols; }
    DivOf(w, b + 1, 0, cols);
  }

  // The cursor's row is among the rows taken, unless it stands after a full last row.
  lemma CursorRow(p: nat, w: nat, cols: nat)
    requires cols > 0 && 0 < w && p <= w
    requires p == w ==> w % cols != 0
    ensures 1 <= (p + cols) / cols <= (w + cols - 1) / cols
  {
    FloorRow(p, cols);
    CeilRows(w, cols);
    var a, b := p / cols, (w - 1) / cols;
    assert w - 1 == b * cols + (w - 1) % cols;
    if a > b {
      MulLess(b, a, cols);
      WholeRows(p, w, b, cols);
    }
  }

  lemma FullRow(w: nat, cols: nat)
    requires cols > 0 && w > 0 && w % cols == 0
    ensures (w + cols - 1) / cols == w / cols && (w + cols) / cols == w / cols + 1
    ensures w == (w / cols) * cols
  {
    FloorRow(w, cols);
    CeilRows(w, cols);
    var k := w / cols;
    assert w - 1 == (k - 1) * cols + (cols - 1) by { assert (k - 1) * cols == k * cols - cols; }
    DivOf(w - 1, k - 1, cols - 1, cols);
  }

  // ---------- what a refresh leaves on the screen ----------

  // Below row n there is nothing.
  ghost predicate NothingBelow(t: Term, n: int, cols: nat) {
    forall r: int, c: int :: r > n && 0 <= c < cols ==> t.at(r, c) == Blank
  }

  // The rows above the prompt are as they were.
  ghost predicate AboveKept(t: Term, was: Term, cols: nat) {
    forall r: int, c: int :: r < 1 && 0 <= c < cols ==> t.at(r, c) == was.at(r, c)
  }

  // From row 1 on the screen holds the columns of a text, row by row, and nothing else.
  ghost predicate ScreenIs(t: Term, cells: seq<Cell>, cols: nat) {
    forall r: int, c: int :: r >= 1 && 0 <= c < cols ==>
      t.at(r, c) == if (r - 1) * cols + c < |cells| then cells[(r - 1) * cols + c] else Blank
  }

  // ---------- clearing ----------

  // Erasing k rows, each time going one up.
  function EraseUp(k: nat): seq<Op> {
    if k == 0 then [] else EraseUp(k - 1) + [Return] + [EraseRight] + [Up(1)]
  }

  // What a refresh sends to clear oldRows rows with the cursor on row rpos of them.
  function ClearOps(oldRows: int, rpos: int): seq<Op> {
    var down := if oldRows - rpos > 0 then [Down(oldRows - rpos)] else [];
    down + EraseUp(if oldRows > 1 then oldRows - 1 else 0) + [Return] + [EraseRight]
  }

  lemma NextErase(down: seq<Op>, j: nat)
    ensures down + EraseUp(j) + [Return] + [EraseRight] + [Up(1)] == down + EraseUp(j + 1)
  {}

  // The rows from a to b are erased, the others as they were.
  ghost predicate Erased(u: Term, t: Term, a: int, b: int, cols: nat) {
    forall r: int, c: int :: 0 <= c < cols ==> u.at(r, c) == if a <= r <= b then Blank else t.at(r, c)
  }

  // The row of the cursor is erased from its left edge on.
  lemma EraseRow(t: Term, ops: seq<Op>, cols: nat)
    requires cols > 0
    ensures var v, u := Run(t, ops, cols), Run(t, ops + [Return] + [EraseRight], cols);
            u.row == v.row && u.col == 0 && !u.wrap && !u.join && Erased(u, v, v.row, v.row, cols)
  {
    hide Run;
    RunSnoc(t, ops, Return, cols);
    RunSnoc(t, ops + [Return], EraseRight, cols);
  }

  lemma {:induction false} EraseUpIs(t: Term, k: nat, cols: nat)
    requires cols > 0
    ensures var u := Run(t, EraseUp(k), cols); u.row == t.row - k && Erased(u, t, t.row - k + 1, t.row, cols)
  {
    hide Run, Exec;
    if k == 0 {
      RunNone(t, cols);
    } else {
      EraseUpIs(t, k - 1, cols);
      EraseRow(t, EraseUp(k - 1), cols);
      RunSnoc(t, EraseUp(k - 1) + [Return] + [EraseRight], Up(1), cols);
      UpOne(Run(t, EraseUp(k - 1) + [Return] + [EraseRight], cols), cols);
    }
  }

  lemma UpOne(t: Term, cols: nat)
    requires cols > 0
    ensures var u := Exec(t, Up(1), cols); u.row == t.row - 1 && u.at == t.at
  {}

  // Where clearing leaves the cursor, if it starts on row `row`, whatever row it takes that to be.
  function ClearedRow(row: int, oldRows: int, rpos: int): int {
    row + (if oldRows > rpos then oldRows - rpos else 0) - (if oldRows > 1 then oldRows - 1 else 0)
  }

  /** Clearing from any row: it ends at the left edge of a row, with all rows erased from that one to the lowest reached, and no
      other touched. */
  lemma ClearRun(t: Term, oldRows: int, rpos: int, cols: nat)
    requires cols > 0
    ensures var u, low := Run(t, ClearOps(oldRows, rpos), cols), t.row + (if oldRows > rpos then oldRows - rpos else 0);
            && u.row == ClearedRow(t.row, oldRows, rpos) && u.col == 0 && !u.wrap && !u.join
            && Erased(u, t, u.row, low, cols)
  {
    hide Run;
    var down := if oldRows - rpos > 0 then [Down(oldRows - rpos)] else [];
    var k := if oldRows > 1 then oldRows - 1 else 0;
    RunNone(t, cols);
    if oldRows > rpos {
      RunOne(t, Down(oldRows - rpos), cols);
    }
    var v := Run(t, down, cols);
    EraseUpIs(v, k, cols);
    RunConcat(t, down, EraseUp(k), cols);
    EraseRow(t, down + EraseUp(k), cols);
  }

  /** Clearing again where the line is hidden already, with the cursor on row 1: it stays there, and touches nothing above the
      prompt, if and only if the last position was on row 1 or there is one row at most. */
  lemma ClearAgainIff(t: Term, oldRows: int, rpos: int, cols: nat)
    requires cols > 0 && rpos >= 1 && t.row == 1
    ensures var u := Run(t, ClearOps(oldRows, rpos), cols);
            && (u.row == 1 <==> rpos == 1 || oldRows <= 1)
            && u.row <= 1
            && forall r: int, c: int :: 0 <= c < cols && r < 1 ==> u.at(r, c) == if r >= u.row then Blank else t.at(r, c)
  {
    hide Run, ClearOps;
    ClearRun(t, oldRows, rpos, cols);
  }

  // Clearing what is shown leaves nothing; clearing again what is hidden may leave the top row.
  lemma ClearFrom(t: Term, oldRows: int, rpos: int, cols: nat)
    requires cols > 0 && rpos >= 1
    ensures var u := Run(t, ClearOps(oldRows, rpos), cols);
            && u.col == 0 && !u.wrap && !u.join
            && ((t.row == rpos && (rpos <= oldRows || (oldRows == 0 && rpos == 1))
                 && NothingBelow(t, if oldRows > 1 then oldRows else 1, cols))
                ==> u.row == 1 && NothingBelow(u, 0, cols) && AboveKept(u, t, cols))
            && (t.row == 1 ==>
                  && (u.row == 1 <==> rpos == 1 || oldRows <= 1) && u.row <= 1
                  && (u.row == 1 ==> AboveKept(u, t, cols)))
            && (NothingBelow(t, 0, cols) ==> NothingBelow(u, 0, cols))
  {
    hide Run, ClearOps;
    ClearRun(t, oldRows, rpos, cols);
  }

  // The top line of a hidden screen is erased all the same.
  lemma TopErased(t: Term, cols: nat)
    requires cols > 0 && t.row == 1 && t.col == 0 && !t.wrap && NothingBelow(t, 0, cols)
    ensures var u := Run(t, [] + [Return] + [EraseRight], cols);
            u.row == 1 && u.col == 0 && !u.wrap && !u.join && NothingBelow(u, 0, cols) && AboveKept(u, t, cols)
  {
    hide Run;
    RunNone(t, cols);
    EraseRow(t, [], cols);
  }

  // ---------- writing ----------

  // Putting a text on a hidden screen.
  lemma PutsFromTop(t: Term, rs: seq<Rune>, cols: nat)
    requires cols > 0 && t.row == 1 && t.col == 0 && !t.wrap && !t.join && NothingBelow(t, 0, cols)
    requires NoSplit(rs, cols) && |Lay(rs)| > 0
    ensures var u, w := Run(t, Puts(rs), cols), |Lay(rs)|;
            u.row == (w + cols - 1) / cols && ScreenIs(u, Lay(rs), cols) && AboveKept(u, t, cols)
  {
    hide Run, Puts, Lay, NoSplit;
    PutsHold(t, rs, cols);
    CeilRows(|Lay(rs)|, cols);
    FromTop(Run(t, Puts(rs), cols), t, Lay(rs), cols);
  }

  lemma FromTop(u: Term, t: Term, cells: seq<Cell>, cols: nat)
    requires cols > 0 && Holds(u, t, 1, cells, cols) && NothingBelow(t, 0, cols)
    ensures ScreenIs(u, cells, cols) && AboveKept(u, t, cols)
  {
    forall r: int, c: int | 0 <= c < cols
      ensures r < 1 ==> u.at(r, c) == t.at(r, c)
      ensures r >= 1 ==> u.at(r, c) == if (r - 1) * cols + c < |cells| then cells[(r - 1) * cols + c] else Blank
    {
      IndexSign(1, r, c, cols);
      assert HeldAt(u, t, 1, cells, r, c, cols);
    }
  }

  // A text on the screen ends on its last row.
  lemma ScreenEnds(t: Term, cells: seq<Cell>, rows: int, cols: nat)
    requires cols > 0 && ScreenIs(t, cells, cols) && |cells| <= rows * cols && rows >= 0
    ensures NothingBelow(t, rows, cols)
  {
    forall r: int, c: int | r > rows && 0 <= c < cols ensures t.at(r, c) == Blank {
      if r - 1 > rows {
        MulLess(rows, r - 1, cols);
      }
    }
  }

  // ---------- the view in place ----------

  class MultiLine {
    var oldrows: int    // rows that the last refresh took
    var oldrpos: int    // the row it left the cursor on

    /** What linenoiseEditStart sets. */
    constructor ()
      ensures oldrows == 0 && oldrpos == 1
    {
      oldrows, oldrpos := 0, 1;
    }

    // The terminal is as the last refresh left it; at first only the prompt is there.
    ghost predicate InStep(t: Term, cols: nat)
      reads this
    {
      && t.row == oldrpos
      && (1 <= oldrpos <= oldrows || (oldrows == 0 && oldrpos == 1))
      && NothingBelow(t, if oldrows > 1 then oldrows else 1, cols)
    }

    // The terminal after the line has been hidden.
    ghost predicate Hidden(t: Term, cols: nat)
      reads this
    {
      t.row == 1 && t.col == 0 && !t.wrap && !t.join && NothingBelow(t, 0, cols)
    }

    /** Clearing: from the row rpos down to the last, then up, erasing row by row; the top row comes last. */
    method Clear(oldRows: int, rpos: int, cols: nat, ghost t0: Term) returns (output: Bytes, ghost ops: seq<Op>)
      requires cols > 0 && 1 <= rpos
      ensures Says(output, ops) && ops == ClearOps(oldRows, rpos)
      ensures t0.row == rpos && (rpos <= oldRows || (oldRows == 0 && rpos == 1))
              && NothingBelow(t0, if oldRows > 1 then oldRows else 1, cols) ==>
                Hidden(Run(t0, ops, cols), cols) && AboveKept(Run(t0, ops, cols), t0, cols)
    {
      hide Run, NothingBelow, AboveKept, Says, Sent;
      ClearFrom(t0, oldRows, rpos, cols);
      output, ops := [], [];
      SaysNothing();
      if oldRows - rpos > 0 {
        output, ops := Then(output, ops, Down(oldRows - rpos));
      }
      ghost var down := ops;
      var j := 0;
      while j < oldRows - 1
        invariant 0 <= j && (j <= oldRows - 1 || j == 0) && Says(output, ops) && ops == down + EraseUp(j)
        decreases oldRows - j
      {
        NextErase(down, j);
        output, ops := Then(output, ops, Return);
        output, ops := Then(output, ops, EraseRight);
        output, ops := Then(output, ops, Up(1));
        j := j + 1;
      }
      output, ops := Then(output, ops, Return);
      output, ops := Then(output, ops, EraseRight);
    }

    // Appending a move to what is sent.
    method Then(output0: Bytes, ghost ops0: seq<Op>, op: Op) returns (output: Bytes, ghost ops: seq<Op>)
      requires Says(output0, ops0) && !op.Put? && !op.Other?
      ensures output == output0 + Sent(op) && Says(output, ops) && ops == ops0 + [op]
    {
      hide Says, Sent;
      SentSays(op);
      SaysConcat(output0, ops0, Sent(op), [op]);
      output, ops := output0 + Sent(op), ops0 + [op];
    }

    /** Writing from the top left corner: the text, a newline if the cursor would stand after a full last row, and
        the moves to the cursor's row and column. */
    method Write(v: View, pwidth: nat, cols: nat, rows0: int, text: Bytes, ghost rs: seq<Rune>, ghost t0: Term)
      returns (output: Bytes, ghost ops: seq<Op>)
      requires 0 < pwidth < cols && ViewOk(v) && Hidden(t0, cols) && TextIs(text, rs, pwidth + v.bufwidth, cols)
      requires rows0 == oldrows == (pwidth + v.bufwidth + cols - 1) / cols
      modifies this
      ensures Says(output, ops)
      ensures var t := Run(t0, ops, cols);
              && InStep(t, cols) && 1 <= oldrpos <= oldrows && Takes(v, pwidth, cols, oldrows) && CursorAt(t, v, pwidth, cols)
              && ScreenIs(t, Lay(rs), cols) && AboveKept(t, t0, cols)
    {
      hide Takes, CursorAt, Exec, Run, NothingBelow, AboveKept, ScreenIs, Says, Sent, Lay, Puts, NoSplit;
      var rows := rows0;
      PutsFromTop(t0, rs, cols);
      CeilRows(pwidth + v.bufwidth, cols);
      RowBounds(v, pwidth, cols, rows0);
      output, ops := text, Puts(rs);
      ghost var w := Run(t0, ops, cols);
      if v.moved && v.atEnd && (v.poswidth + pwidth) % cols == 0 {
        NewRow(t0, ops, cols);
        output, ops := Then(output, ops, Newline);
        output, ops := Then(output, ops, Return);
        rows := rows + 1;
        if rows > oldrows { oldrows := rows; }
      }
      var rpos2 := (pwidth + v.poswidth + cols) / cols;
      var col := (pwidth + v.poswidth) % cols;
      output, ops := Place(output, ops, rows, rpos2, col, cols, t0);
      oldrpos := rpos2;
      ghost var t := Run(t0, ops, cols);
      PlacedAt(t, v, pwidth, cols);
      SameCells(t, w, Lay(rs), cols);
      EnoughRows(|Lay(rs)|, rows0, oldrows, cols);
      ScreenEnds(t, Lay(rs), oldrows, cols);
      SameAbove(t, w, t0, cols);
    }

    // Up to the cursor's row, then to its column.
    method Place(output0: Bytes, ghost ops0: seq<Op>, rows: int, rpos2: int, col: nat, cols: nat, ghost t0: Term)
      returns (output: Bytes, ghost ops: seq<Op>)
      requires Says(output0, ops0) && col < cols && Run(t0, ops0, cols).row == rows && 1 <= rpos2 <= rows
      ensures Says(output, ops)
      ensures var t := Run(t0, ops, cols); t.row == rpos2 && t.col == col && !t.wrap && t.at == Run(t0, ops0, cols).at
    {
      hide Says, Run, Sent;
      output, ops := output0, ops0;
      if rows - rpos2 > 0 {
        RunSnoc(t0, ops, Up(rows - rpos2), cols);
        output, ops := Then(output, ops, Up(rows - rpos2));
      }
      RunSnoc(t0, ops, Return, cols);
      output, ops := Then(output, ops, Return);
      if col != 0 {
        RunSnoc(t0, ops, Forward(col), cols);
        output, ops := Then(output, ops, Forward(col));
      }
    }

    // The screen is as it should be after a refresh: written, with the cursor in its place, or hidden.
    ghost predicate Refreshed(t: Term, was: Term, v: View, pwidth: nat, cols: nat, write: bool, cells: seq<Cell>)
      requires cols > 0
      reads this
    {
      && AboveKept(t, was, cols)
      && if write then
           && InStep(t, cols) && 1 <= oldrpos <= oldrows && Takes(v, pwidth, cols, oldrows) && CursorAt(t, v, pwidth, cols)
           && ScreenIs(t, cells, cols)
         else Hidden(t, cols)
    }

    /** refreshMultiLine, without hints, from the screen that the last refresh left: what a terminal does on the bytes sent.
        Where the last refresh has hidden the line and this one clears again, all is well if and only if the position before
        was on row 1 or the line has one row at most. The text is prompt and line together. */
    method Refresh(v: View, pwidth: nat, cols: nat, clean: bool, write: bool, text: Bytes, ghost rs: seq<Rune>, ghost t0: Term)
      returns (output: Bytes)
      requires 0 < pwidth < cols && ViewOk(v) && (clean || write) && 1 <= oldrpos
      requires TextIs(text, rs, pwidth + v.bufwidth, cols)
      requires Hidden(t0, cols) || (clean && InStep(t0, cols))
      modifies this
      ensures 1 <= oldrpos && (!write ==> oldrpos == old(oldrpos) && RowsOf(pwidth + v.bufwidth, cols, oldrows))
      ensures WF(output)
      ensures !clean || old(InStep(t0, cols)) ==> Refreshed(Run(t0, Read(output), cols), t0, v, pwidth, cols, write, Lay(rs))
      ensures clean && old(Hidden(t0, cols)) ==>
                (Refreshed(Run(t0, Read(output), cols), t0, v, pwidth, cols, write, Lay(rs))
                 <==> old(oldrpos) == 1 || old(oldrows) <= 1)
      ensures clean && !write ==> Read(output) == ClearOps(old(oldrows), old(oldrpos))
    {
      hide Run, Exec, Takes, CursorAt, ClearOps, NothingBelow, AboveKept, ScreenIs, Says, Sent, Lay, Read, WF, RowsOf, TextIs;
      var rows := (pwidth + v.bufwidth + cols - 1) / cols;
      var rpos, oldRows := oldrpos, oldrows;
      CeilRows(pwidth + v.bufwidth, cols);
      oldrows := rows;
      ghost var ops;
      if clean {
        output, ops := Clear(oldRows, rpos, cols, t0);
        ClearFrom(t0, oldRows, rpos, cols);
      } else {
        TopErased(t0, cols);
        SaysNothing();
        output, ops := Then([], [], Return);
        output, ops := Then(output, ops, EraseRight);
      }
      ghost var t := Run(t0, ops, cols);
      if write {
        ghost var top := if Hidden(t, cols) then t else BlankTop();
        BlankIsHidden(cols);
        ghost var more;
        var first := output;
        output, more := Write(v, pwidth, cols, rows, text, rs, top);
        RunConcat(t0, ops, more, cols);
        RunShift(top, t, more, cols);
        SaysConcat(first, ops, output, more);
        output, ops := first + output, ops + more;
        AboveTwice(Run(t0, ops, cols), t, t0, cols);
      }
      SaysAll(output, ops);
    }
  }

  // The text says these characters, which take that many columns and split at no end of a row.
  ghost predicate TextIs(text: Bytes, rs: seq<Rune>, width: nat, cols: nat)
    requires cols > 0
  {
    Says(text, Puts(rs)) && |Lay(rs)| == width && NoSplit(rs, cols)
  }

  // A hidden screen with nothing on it.
  function BlankTop(): Term {
    Term(1, 0, false, false, false, (r, c) => Blank)
  }

  lemma BlankIsHidden(cols: nat)
    ensures var t := BlankTop(); t.row == 1 && t.col == 0 && !t.wrap && !t.join && forall n :: NothingBelow(t, n, cols)
  {}

  lemma SameCells(t: Term, u: Term, cells: seq<Cell>, cols: nat)
    requires t.at == u.at && ScreenIs(u, cells, cols)
    ensures ScreenIs(t, cells, cols)
  {}

  lemma SameAbove(t: Term, u: Term, was: Term, cols: nat)
    requires t.at == u.at && AboveKept(u, was, cols)
    ensures AboveKept(t, was, cols)
  {}

  lemma AboveTwice(t: Term, u: Term, was: Term, cols: nat)
    ensures AboveKept(u, was, cols) && AboveKept(t, u, cols) ==> AboveKept(t, was, cols)
  {}

  lemma EnoughRows(w: nat, rows0: int, rows: int, cols: nat)
    requires cols > 0 && w <= rows0 * cols && rows0 <= rows
    ensures w <= rows * cols
  {
    if rows0 < rows {
      MulLess(rows0, rows, cols);
    }
  }

  lemma NewRow(t: Term, ops: seq<Op>, cols: nat)
    requires cols > 0
    ensures var u, w := Run(t, ops, cols), Run(t, ops + [Newline] + [Return], cols); w.row == u.row + 1 && w.at == u.at
  {
    hide Run;
    RunSnoc(t, ops, Newline, cols);
    RunSnoc(t, ops + [Newline], Return, cols);
  }

  lemma PlacedAt(t: Term, v: View, pwidth: nat, cols: nat)
    requires cols > 0 && !t.wrap && t.row == (pwidth + v.poswidth + cols) / cols && t.col == (pwidth + v.poswidth) % cols
    requires (t.row - 1) * cols + (pwidth + v.poswidth) % cols == pwidth + v.poswidth
    ensures CursorAt(t, v, pwidth, cols)
  {}

  /** Two rows of text with the cursor on the second: hiding the line twice ends a row above the prompt, and erases what
      stands there. */
  method HideTwice(ghost above: (int, int) -> Cell) returns (ghost before: Term, ghost t: Term, output: Bytes)
    ensures before.row == 1 && before.at == above && WF(output) && t == Run(before, Read(output), 2)
    ensures t.row == 0 && Erased(t, before, 0, 1, 2)
  {
    hide Run, ClearOps, Takes, CursorAt, NothingBelow, AboveKept, ScreenIs, Says, Lay, Read, WF, RowsOf, Erased, TextIs;
    var m := new MultiLine();
    var v := View(2, 2, true, true);
    var text: Bytes := [36, 97, 98];
    ThreeLetters(text);
    ghost var t0 := BlankTop();
    BlankIsHidden(2);
    var o1 := m.Refresh(v, 1, 2, true, true, text, text, t0);
    ghost var t1 := Run(t0, Read(o1), 2);
    SecondRow(t1, v);
    var o2 := m.Refresh(v, 1, 2, true, false, text, text, t1);
    ghost var t2 := Run(t1, Read(o2), 2);
    TwoRows(m.oldrows);
    output := m.Refresh(v, 1, 2, true, false, text, text, t2);
    before := t2.(at := above);
    t := Run(before, Read(output), 2);
    ClearRun(before, 2, 2, 2);
  }

  lemma ThreeLetters(text: Bytes)
    requires text == [36, 97, 98]
    ensures TextIs(text, text, 3, 2)
  {
    hide Says, Puts, Encode, Lay;
    AsciiIsWF(text);
    SaysRunes(text);
    LayWidth(text);
    assert forall i :: 0 <= i < 3 ==> CharWidth(text[i]) == 1;
    assert text[1..] == [97, 98] && [97, 98][1..] == [98] && [98][1..] == [];
    assert RunesWidth([98], false) == 1;
    assert RunesWidth([97, 98], false) == 2;
  }

  lemma SecondRow(t: Term, v: View)
    requires v.poswidth == 2 && CursorAt(t, v, 1, 2)
    ensures t.row == 2
  {}

  lemma TwoRows(rows: int)
    requires RowsOf(3, 2, rows)
    ensures rows == 2
  {}

  // Where the cursor belongs, against the rows printed.
  lemma RowBounds(v: View, pwidth: nat, cols: nat, rows: int)
    requires 0 < pwidth < cols && ViewOk(v) && rows == (pwidth + v.bufwidth + cols - 1) / cols
    ensures var r := (pwidth + v.poswidth + cols) / cols;
            var full := v.moved && v.atEnd && (v.poswidth + pwidth) % cols == 0;
            && (if full then r == rows + 1 else 1 <= r <= rows)
            && (r - 1) * cols + (pwidth + v.poswidth) % cols == pwidth + v.poswidth
            && Takes(v, pwidth, cols, if full then rows + 1 else rows)
  {
    var p, w := pwidth + v.poswidth, pwidth + v.bufwidth;
    FloorRow(p, cols);
    CeilRows(w, cols);
    assert RowsOf(w, cols, rows);
    if v.moved && v.atEnd && p % cols == 0 {
      FullRow(w, cols);
    } else {
      if p == w && w % cols == 0 {
        assert v.bufwidth == 0 && w == pwidth;
        DivOf(pwidth, 0, pwidth, cols);
      }
      CursorRow(p, w, cols);
      if v.atEnd && v.moved && p == rows * cols {
        DivOf(p, rows, 0, cols);
      }
    }
  }

  // Refresh i of a sequence: the screen holds its text, with the cursor where the next character would go.
  ghost predicate ShownAfter(terms: seq<Term>, outputs: seq<Bytes>, views: seq<View>, runes: seq<seq<Rune>>, i: nat, pwidth: nat,
                             cols: nat)
    requires i < |outputs| && i + 1 < |terms| && i < |views| && i < |runes| && cols > 0
  {
    && WF(outputs[i]) && terms[i + 1] == Run(terms[i], Read(outputs[i]), cols)
    && CursorAt(terms[i + 1], views[i], pwidth, cols) && ScreenIs(terms[i + 1], Lay(runes[i]), cols)
    && AboveKept(terms[i + 1], terms[0], cols)
  }

  /** Over any sequence of full refreshes: the moves never lose the row count. After each, the screen holds the text, the
      cursor is where the next character would go, on row oldrpos, oldrows are the rows taken, and what stands above the
      prompt is as it was. */
  method RefreshAll(m: MultiLine, views: seq<View>, texts: seq<Bytes>, ghost runes: seq<seq<Rune>>, pwidth: nat, cols: nat,
                    ghost t0: Term)
    returns (outputs: seq<Bytes>, ghost terms: seq<Term>)
    requires 0 < pwidth < cols && |views| == |texts| == |runes| && m.InStep(t0, cols)
    requires forall i :: 0 <= i < |views| ==> ViewOk(views[i]) && TextIs(texts[i], runes[i], pwidth + views[i].bufwidth, cols)
    modifies m
    ensures |outputs| == |views| && |terms| == |views| + 1 && terms[0] == t0
    ensures forall i :: 0 <= i < |views| ==> ShownAfter(terms, outputs, views, runes, i, pwidth, cols)
    ensures m.InStep(terms[|views|], cols)
    ensures views != [] ==> 1 <= m.oldrpos <= m.oldrows && Takes(views[|views| - 1], pwidth, cols, m.oldrows)
  {
    hide Run, Takes, CursorAt, RowsOf, NothingBelow, AboveKept, ScreenIs, Lay, Read, WF, TextIs, ViewOk, ShownAfter;
    outputs, terms := [], [t0];
    AboveAsItIs(t0, cols);
    var i := 0;
    while i < |views|
      invariant i <= |views| && |outputs| == i && |terms| == i + 1 && terms[0] == t0 && m.InStep(terms[i], cols)
      invariant AboveKept(terms[i], t0, cols)
      invariant forall j :: 0 <= j < i ==> ShownAfter(terms, outputs, views, runes, j, pwidth, cols)
      invariant i > 0 ==> 1 <= m.oldrpos <= m.oldrows && Takes(views[i - 1], pwidth, cols, m.oldrows)
    {
      ghost var t := terms[i];
      var output := m.Refresh(views[i], pwidth, cols, true, true, texts[i], runes[i], t);
      ghost var u := Run(t, Read(output), cols);
      AboveTwice(u, t, t0, cols);
      ShownMore(terms, outputs, views, runes, i, pwidth, cols, output, u);
      outputs, terms := outputs + [output], terms + [u];
      i := i + 1;
    }
  }

  lemma ShownMore(terms: seq<Term>, outputs: seq<Bytes>, views: seq<View>, runes: seq<seq<Rune>>, n: nat, pwidth: nat, cols: nat,
                  output: Bytes, u: Term)
    requires |outputs| == n && |terms| == n + 1 && n < |views| && n < |runes| && cols > 0
    requires forall j :: 0 <= j < n ==> ShownAfter(terms, outputs, views, runes, j, pwidth, cols)
    requires WF(output) && u == Run(terms[n], Read(output), cols)
    requires CursorAt(u, views[n], pwidth, cols) && ScreenIs(u, Lay(runes[n]), cols) && AboveKept(u, terms[0], cols)
    ensures forall j :: 0 <= j <= n ==> ShownAfter(terms + [u], outputs + [output], views, runes, j, pwidth, cols)
  {
    hide Run, CursorAt, AboveKept, ScreenIs, Lay, Read, WF;
    forall j | 0 <= j <= n ensures ShownAfter(terms + [u], outputs + [output], views, runes, j, pwidth, cols) {
      assert j < n ==> ShownAfter(terms, outputs, views, runes, j, pwidth, cols);
    }
  }

  lemma AboveAsItIs(t: Term, cols: nat)
    ensures AboveKept(t, t, cols)
  {}
}
