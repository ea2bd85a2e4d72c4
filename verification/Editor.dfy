/** The state of an editing session, updated in place: struct linenoiseState without its terminal fields. */
module Editors {
  import opened Utf8
  import opened Graphemes
  import opened Folds
  import opened Lines
  import opened Paste
  import opened Memory

  const SIZE_MAX: nat := 0xFFFF_FFFF_FFFF_FFFF

  // ---------- sizes ----------

  /** The size that linenoiseEditGrow doubles its way to. */
  function GrownTo(newlen: nat, needed: nat, max: nat): (r: nat)
    requires 0 < newlen && needed <= max
    decreases needed - newlen
  {
    if newlen >= needed then newlen
    else if newlen > max / 2 then max
    else GrownTo(newlen * 2, needed, max)
  }

  /** The doubling meets the request, and stays within the maximum exactly when it started within it. */
  lemma {:induction false} GrownToFits(newlen: nat, needed: nat, max: nat)
    requires 0 < newlen && needed <= max
    ensures needed <= GrownTo(newlen, needed, max)
    ensures GrownTo(newlen, needed, max) <= max <==> newlen <= max
    ensures newlen <= GrownTo(newlen, needed, max)
    decreases needed - newlen
  {
    if newlen < needed && newlen <= max / 2 {
      GrownToFits(newlen * 2, needed, max);
    }
  }

  /** An empty buffer starts from 16 bytes, so it outgrows a maximum that is smaller; any other keeps to it. */
  lemma GrowthKeepsCap(buflen: nat, needed: nat, max: nat)
    requires buflen < needed <= max
    ensures GrownTo(if buflen != 0 then buflen else 16, needed, max) <= max <==> buflen != 0 || max >= 16
  {
    GrownToFits(if buflen != 0 then buflen else 16, needed, max);
  }

  lemma SkipLeftStep(l: Line, p: nat, spaces: bool)
    requires Ok(l) && Bound(l.text, p)
    ensures p > 0 && (l.text[p-1] == SPACE) == spaces ==>
              && CanStepLeft(l, p) && 0 < StepLeft(l, p) <= p && Bound(l.text, p - StepLeft(l, p))
              && SkipLeft(l, p, spaces) == SkipLeft(l, p - StepLeft(l, p), spaces)
    ensures !(p > 0 && (l.text[p-1] == SPACE) == spaces) ==> SkipLeft(l, p, spaces) == p
  {
    hide WF, FoldsBound, LeftOf;
    if p > 0 { OkStepLeft(l, p); }
  }

  lemma DeletedWordIs(l: Line)
    requires Ok(l)
    ensures Bound(l.text, SkipLeft(l, l.pos, true))
    ensures DeletedWord(l) == Cut(l, SkipLeft(l, SkipLeft(l, l.pos, true), false), l.pos)
  {}

  ghost predicate SwapReady(l: Line) {
    && CanStepLeft(l, l.pos) && CanStepRight(l, l.pos)
    && (l.pos > 0 ==> 0 < StepLeft(l, l.pos) <= l.pos)
    && (l.pos < |l.text| ==> 0 < StepRight(l, l.pos) <= |l.text| - l.pos)
  }

  lemma SwapIsReady(l: Line)
    requires Fine(l) && CanStepLeft(l, l.pos) && CanStepRight(l, l.pos)
    ensures SwapReady(l)
  {
    if l.pos > 0 { StepLeftInside(l, l.pos); }
    if l.pos < |l.text| { StepRightInside(l, l.pos); }
  }

  lemma SwappedIs(l: Line)
    requires SwapReady(l)
    ensures !(0 < l.pos < |l.text|) ==> Swapped(l) == l
    ensures 0 < l.pos < |l.text| ==>
              var a, b := StepLeft(l, l.pos), StepRight(l, l.pos);
              Swapped(l) == if a > SWAP_MAX || b > SWAP_MAX || RangeOverlaps(l.folds, l.pos - a, a + b) then l
                            else Exchange(l, l.pos - a, l.pos + b)
  {
    hide StepLeft, StepRight, CanStepLeft, CanStepRight, RangeOverlaps, Exchange;
  }

  lemma ExchangeFine(l: Line, p: nat, q: nat)
    requires Fine(l) && p <= l.pos <= q <= |l.text|
    ensures Fine(Exchange(l, p, q))
  {}

  // ---------- paste, on lines ----------

  // A paste comes in whole or not at all: there is a fold left, and it is within 1 MiB and fits the buffer.
  predicate PasteFits(l: Line, raw: Bytes, cap: nat) {
    |l.folds| < MAX_FOLDS && |raw| <= PASTE_MAX && |l.text| + |raw| <= cap
  }

  function Folded(l: Line, c: Bytes): Line
    requires l.pos <= |l.text|
  {
    var m := Inserted(l, c);
    m.(folds := Added(m.folds, Fold(l.pos, l.pos + |c|)))
  }

  ghost function Pasted(l: Line, raw: Bytes, cap: nat, masked: bool): Line
    requires l.pos <= |l.text|
  {
    if raw == [] || !PasteFits(l, raw, cap) then l
    else if !masked && ShouldFold(Normal(raw)) then Folded(l, Normal(raw))
    else Inserted(l, Normal(raw))
  }

  /** A paste that is not empty comes in at the cursor, with its line ends made one, if and only if fewer than sixteen folds are
      held, it has 1 MiB at most, and it fits the buffer; otherwise nothing changes. It gets a fold of its own if and only if
      it has a newline or at least 200 bytes then, and mask mode is off. */
  lemma PasteComesIn(l: Line, raw: Bytes, cap: nat, masked: bool)
    requires Fine(l) && raw != []
    ensures var m, c, p := Pasted(l, raw, cap, masked), Normal(raw), l.pos;
            if |l.folds| < 16 && |raw| <= 1024 * 1024 && |l.text| + |raw| <= cap then
              && c != [] && m.text == l.text[..p] + c + l.text[p..] && m.pos == p + |c|
              && (Fold(p, p + |c|) in m.folds <==> !masked && (10 in c || |c| >= 200))
            else m == l
  {
    hide Ordered, Added, AfterInsert, Normal;
    var c := Normal(raw);
    NormalIsClean(raw);
    NotAlready(l.folds, l.pos, |c|, |l.text|);
    AddedHas(AfterInsert(l.folds, l.pos, |c|), Fold(l.pos, l.pos + |c|));
  }

  lemma PasteText(l: Line, raw: Bytes, cap: nat, masked: bool)
    requires Fine(l)
    ensures var m := Pasted(l, raw, cap, masked);
            if raw != [] && |l.folds| < 16 && |raw| <= 1024 * 1024 && |l.text| + |raw| <= cap then
              m.text == l.text[..l.pos] + Normal(raw) + l.text[l.pos..] && m.pos == l.pos + |Normal(raw)|
            else m == l
  {
    hide Normal, Ordered;
    if raw != [] {
      PasteComesIn(l, raw, cap, masked);
    }
  }

  // No fold comes to stand for an insertion by itself.
  lemma {:induction false} NotAlready(fs: seq<Fold>, p: nat, n: nat, m: int)
    requires Ordered(fs, m) && n > 0
    ensures Fold(p, p + n) !in AfterInsert(fs, p, n)
  {
    hide AfterInsert, Ordered;
    if fs == [] {
      NoFolds([], p, n, m);
    } else {
      OrderedLast(fs, m);
      NotAlready(fs[..|fs| - 1], p, n, fs[|fs| - 1].start);
      AfterInsertLast(fs, p, n);
    }
  }

  lemma {:induction false} AddedHas(fs: seq<Fold>, f: Fold)
    ensures f in Added(fs, f)
  {
    if fs != [] && f.start < fs[|fs| - 1].start {
      AddedHas(fs[..|fs| - 1], f);
    }
  }

  lemma InsertedIs(l: Line, c: Bytes)
    requires Fine(l)
    ensures Inserted(l, c).folds == AfterInsert(l.folds, l.pos, |c|) && |Inserted(l, c).folds| <= |l.folds|
    ensures |Inserted(l, c).text| == |l.text| + |c| && Inserted(l, c).pos == l.pos + |c|
  {
    AfterInsertCount(l.folds, l.pos, |c|);
  }

  lemma FoldedFine(l: Line, c: Bytes)
    requires Fine(l) && c != [] && |l.folds| < MAX_FOLDS
    ensures Fine(Folded(l, c))
  {
    hide AfterInsert, Added, Ordered, AllBeside, Inserted;
    var m := Inserted(l, c);
    InsertedFine(l, c);
    InsertedIs(l, c);
    NoneIn(l.folds, l.pos, |c|);
    AddedOrdered(m.folds, Fold(l.pos, l.pos + |c|), |m.text|);
    AddedCount(m.folds, Fold(l.pos, l.pos + |c|));
  }

  lemma {:induction false} AddedCount(fs: seq<Fold>, f: Fold)
    ensures |Added(fs, f)| == |fs| + 1
  {
    if fs != [] { AddedCount(fs[..|fs| - 1], f); }
  }

  // After an insertion no fold reaches into the inserted bytes.
  lemma {:induction false} NoneIn(fs: seq<Fold>, p: nat, n: nat)
    ensures AllBeside(AfterInsert(fs, p, n), p, n)
  {
    if fs != [] {
      var f := fs[|fs| - 1];
      NoneIn(fs[..|fs| - 1], p, n);
      assert AllBeside(InsertOne(f, p, n), p, n);
      BesideConcat(AfterInsert(fs[..|fs| - 1], p, n), InsertOne(f, p, n), p, n);
    }
  }

  lemma BesideConcat(a: seq<Fold>, b: seq<Fold>, p: int, n: int)
    requires AllBeside(a, p, n) && AllBeside(b, p, n)
    ensures AllBeside(a + b, p, n)
  {}

  // ---------- an accepted completion ----------

  // `snprintf(buf, n, "%s", c)` on the bytes of the buffer: at most n of them are written, the last a NUL.
  function Stored(mem: Bytes, n: nat, c: Bytes): (r: Bytes)
    requires n <= |mem|
    ensures |r| == |mem|
  {
    if n == 0 then mem
    else if |c| < n then Over(mem, 0, c + [0])
    else Over(mem, 0, c[..n - 1] + [0])
  }

  // The candidate is stored whole in a buffer of buflen bytes.
  predicate CompletionFits(c: Bytes, buflen: nat) {
    |c| < buflen || c == []
  }

  // What linenoise then takes for the text: |c| bytes, ended by a NUL and equal to c.
  predicate HoldsText(mem: Bytes, c: Bytes) {
    |c| < |mem| && mem[|c|] == 0 && mem[..|c|] == c
  }

  /** After an accepted completion the buffer holds the candidate if and only if the candidate is shorter than the
      buffer's length: a longer one is cut, but counted whole. */
  lemma StoredIff(mem: Bytes, c: Bytes)
    requires mem != [] && (|mem| == 1 ==> mem[0] == 0) && forall i :: 0 <= i < |c| ==> c[i] != 0
    ensures HoldsText(Stored(mem, |mem| - 1, c), c) <==> CompletionFits(c, |mem| - 1)
  {
    var n := |mem| - 1;
    var r := Stored(mem, n, c);
    if n > 0 && |c| < n {
      assert r[..|c|] == c && r[|c|] == (c + [0])[|c|];
    } else if n > 0 {
      assert r[n - 1] == (c[..n - 1] + [0])[n - 1] == 0;
      if |c| < |mem| {
        assert r[..|c|][n - 1] == r[n - 1];
      }
    }
  }

  class Editor {
    var buf: array<Byte>        // buflen + 1 bytes
    var len: nat
    var pos: nat
    const buflenMax: nat        // buflen_max: zero if the buffer is fixed
    const folds: FoldTable
    const masked: bool          // maskmode
    var input: Bytes            // what the terminal has still to deliver

    ghost predicate Valid()
      reads this, buf, folds, folds.starts, folds.ends
    {
      && 0 < buf.Length <= SIZE_MAX && pos <= len < buf.Length && buf[len] == 0
      && (buflenMax == 0 || (16 <= buflenMax < SIZE_MAX && buf.Length - 1 <= buflenMax))
      && folds.Valid()
      && Fine(View())
    }

    ghost function View(): Line
      requires len <= buf.Length
      reads this, buf, folds
    {
      Line(buf[..][..len], pos, folds.folds)
    }

    // The longest text that the buffer can come to hold.
    ghost function Cap(): nat
      requires buf.Length > 0
      reads this
    {
      if buflenMax != 0 then buflenMax else buf.Length - 1
    }

    /** linenoiseEditStart, for a buffer of buflen bytes and a terminal that delivers input. */
    constructor (buflen: nat, max: nat, masked: bool, input: Bytes)
      requires 0 < buflen <= SIZE_MAX
      requires max == 0 || (16 <= max < SIZE_MAX && buflen - 1 <= max)
      ensures Valid() && fresh(folds) && fresh(folds.starts) && fresh(folds.ends) && fresh(buf)
      ensures View() == EMPTY && Cap() == (if max != 0 then max else buflen - 1)
      ensures this.masked == masked && this.input == input && buf.Length == buflen
    {
      buf := new Byte[buflen];
      len, pos := 0, 0;
      buflenMax := max;
      folds := new FoldTable();
      this.masked, this.input := masked, input;
      new;
      buf[0] := 0;
    }

    /** linenoiseEditGrow: it succeeds exactly when the request is within the cap. */
    method Grow(needed: nat) returns (ok: bool)
      requires Valid()
      modifies `buf
      ensures Valid() && View() == old(View()) && Cap() == old(Cap())
      ensures ok <==> needed <= Cap()
      ensures ok ==> needed < buf.Length
      ensures buf == old(buf) || (ok && fresh(buf))
    {
      if needed < buf.Length {
        return true;
      }
      if buflenMax == 0 || needed > buflenMax {
        return false;
      }
      var newlen := if buf.Length - 1 != 0 then buf.Length - 1 else 16;
      ghost var start := newlen;
      GrownToFits(start, needed, buflenMax);
      while newlen < needed
        invariant 0 < newlen && (newlen < needed ==> GrownTo(newlen, needed, buflenMax) == GrownTo(start, needed, buflenMax))
        invariant newlen >= needed ==> newlen == GrownTo(start, needed, buflenMax)
        decreases needed - newlen
      {
        if newlen > buflenMax / 2 {
          newlen := buflenMax;
          break;
        }
        newlen := newlen * 2;
      }
      if newlen < needed || newlen == SIZE_MAX {
        return false;
      }
      var newbuf := new Byte[newlen + 1];
      forall i | 0 <= i < buf.Length { newbuf[i] := buf[i]; }
      assert newbuf[..][..len] == buf[..][..len];
      buf := newbuf;
      return true;
    }

    /** linenoiseEditInsertNoRefresh: it fails, and changes nothing, exactly when the text would pass the cap. */
    method InsertNoRefresh(c: Bytes) returns (ok: bool)
      requires Valid()
      modifies this, buf, folds, folds.starts, folds.ends
      ensures Valid() && Cap() == old(Cap()) && input == old(input)
      ensures ok <==> |old(View()).text| + |c| <= Cap()
      ensures View() == if ok then Inserted(old(View()), c) else old(View())
      ensures buf == old(buf) || fresh(buf)
    {
      hide Fine, AfterInsert;
      ghost var was := View();
      InsertedFine(was, c);
      var insertPos := pos;
      if |c| > SIZE_MAX - len {
        return false;
      }
      ok := Grow(len + |c|);
      if !ok {
        return;
      }
      MakeRoom(c);
      pos := pos + |c|;
      len := len + |c|;
      EndText();
      folds.AdjustAfterInsert(insertPos, |c|);
    }

    // The copies of an insertion: the tail is moved up only if there is one.
    method MakeRoom(c: Bytes)
      requires pos <= len && len + |c| < buf.Length
      modifies buf
      ensures var t := old(buf[..][..len]);
              buf[..][..len + |c|] == t[..pos] + c + t[pos..]
    {
      hide Over;
      ghost var s := buf[..];
      if len == pos {
        MemCpy(buf, pos, c);
        OverAppends(s, len, c);
      } else {
        MemMove(buf, pos + |c|, pos, len - pos);
        MemCpy(buf, pos, c);
        OverInserts(s, len, pos, c);
      }
    }

    method EndText()
      requires len < buf.Length
      modifies buf
      ensures buf[len] == 0 && buf[..][..len] == old(buf[..][..len])
    {
      OverAfter(buf[..], len, len, 0);
      ghost var s := buf[..];
      buf[len] := 0;
      assert buf[..] == s[len := 0];
    }

    // The memmove of a deletion: the bytes from q on go to p.
    method CloseGap(p: nat, q: nat)
      requires p <= q <= len < buf.Length
      modifies buf
      ensures var t := old(buf[..][..len]);
              buf[..][..len - (q - p)] == t[..p] + t[q..]
    {
      hide Over;
      ghost var s := buf[..];
      MemMove(buf, p, q, len - q);
      OverDeletes(s, len, p, q);
    }

    /** linenoiseEditNextLen */
    method EditNextLen(at: nat) returns (n: int)
      requires Valid() && CanStepRight(View(), at)
      ensures n == StepRight(View(), at)
    {
      ghost var l := View();
      var j := 0;
      while j < folds.count
        invariant 0 <= j <= folds.count && forall i :: 0 <= i < j ==> l.folds[i].start != at
      {
        StepOverFold(l, j);
        if at == folds.starts[j] {
          return folds.ends[j] - folds.starts[j];
        }
        j := j + 1;
      }
      n := NextCharLen(buf[..], at, len);
      assert buf[..][at..len] == l.text[at..];
    }

    /** linenoiseEditPrevLen */
    method EditPrevLen(at: nat) returns (n: int)
      requires Valid() && CanStepLeft(View(), at)
      ensures n == StepLeft(View(), at)
    {
      ghost var l := View();
      var j := 0;
      while j < folds.count
        invariant 0 <= j <= folds.count && forall i :: 0 <= i < j ==> l.folds[i].end != at
      {
        StepOverFold(l, j);
        if at == folds.ends[j] {
          return folds.ends[j] - folds.starts[j];
        }
        j := j + 1;
      }
      n := PrevCharLen(buf[..][..len], at);
    }

    /** linenoiseEditMoveLeft */
    method MoveLeft()
      requires Valid() && CanStepLeft(View(), pos)
      modifies `pos
      ensures Valid()
      ensures View() == MovedLeft(old(View()))
    {
      if pos > 0 {
        StepLeftInside(View(), pos);
        var n := EditPrevLen(pos);
        pos := pos - n;
      }
    }

    /** linenoiseEditMoveRight */
    method MoveRight()
      requires Valid() && CanStepRight(View(), pos)
      modifies `pos
      ensures Valid()
      ensures View() == MovedRight(old(View()))
    {
      if pos != len {
        StepRightInside(View(), pos);
        var n := EditNextLen(pos);
        pos := pos + n;
      }
    }

    /** linenoiseEditMoveHome */
    method MoveHome()
      requires Valid()
      modifies `pos
      ensures Valid() && View() == old(View()).(pos := 0)
    {
      if pos != 0 {
        pos := 0;
      }
    }

    /** linenoiseEditMoveEnd */
    method MoveEnd()
      requires Valid()
      modifies `pos
      ensures Valid() && View() == old(View()).(pos := len)
    {
      if pos != len {
        pos := len;
      }
    }

    /** linenoiseEditDelete */
    method Delete()
      requires Valid() && CanStepRight(View(), pos)
      modifies this, buf, folds, folds.starts, folds.ends
      ensures Valid() && Cap() == old(Cap()) && input == old(input) && buf == old(buf)
      ensures View() == DeletedRight(old(View()))
    {
      hide Fine, AfterDelete, LeftOf, RightOf, CanStepLeft, CanStepRight;
      if len > 0 && pos < len {
        ghost var was := View();
        StepRightInside(was, pos);
        var clen := EditNextLen(pos);
        CutOut(pos, pos + clen);
      }
    }

    // The end of every deletion: the bytes from p to q go, the folds are adjusted, and the cursor goes to p.
    method CutOut(p: nat, q: nat)
      requires Valid() && p <= q <= len
      modifies this, buf, folds, folds.starts, folds.ends
      ensures Valid() && Cap() == old(Cap()) && input == old(input) && buf == old(buf)
      ensures View() == Cut(old(View()), p, q)
    {
      hide Fine, AfterDelete;
      CutFine(View(), p, q);
      folds.AdjustAfterDelete(p, q - p);
      CloseGap(p, q);
      pos := p;
      len := len - (q - p);
      EndText();
    }

    /** linenoiseEditBackspace */
    method Backspace()
      requires Valid() && CanStepLeft(View(), pos)
      modifies this, buf, folds, folds.starts, folds.ends
      ensures Valid() && Cap() == old(Cap()) && input == old(input) && buf == old(buf)
      ensures View() == DeletedLeft(old(View()))
    {
      hide Fine, AfterDelete, LeftOf, RightOf, CanStepLeft, CanStepRight;
      if pos > 0 && len > 0 {
        ghost var was := View();
        StepLeftInside(was, pos);
        var clen := EditPrevLen(pos);
        CutOut(pos - clen, pos);
      }
    }

    /** linenoiseEditDeletePrevWord */
    method DeletePrevWord()
      requires Valid() && Ok(View())
      modifies this, buf, folds, folds.starts, folds.ends
      ensures Valid() && Cap() == old(Cap()) && input == old(input) && buf == old(buf)
      ensures View() == DeletedWord(old(View()))
    {
      hide WF, FoldsBound, LeftOf, CanStepLeft, AfterDelete, SkipLeft, WordStart, DeletedWord;
      ghost var was := View();
      DeletedWordIs(was);
      var oldPos := pos;
      BackOver(true);
      SkipLeftAnyPos(was, pos, pos, false);
      BackOver(false);
      CutOut(pos, oldPos);
    }

    // One of its two loops: left over spaces, or over the others.
    method BackOver(spaces: bool)
      requires Valid() && Ok(View())
      modifies `pos
      ensures Valid() && View() == old(View()).(pos := SkipLeft(old(View()), old(pos), spaces))
      ensures Ok(View())
    {
      hide WF, FoldsBound, LeftOf;
      ghost var was := View();
      while pos > 0 && (buf[pos-1] == SPACE) == spaces
        invariant Valid() && View() == was.(pos := pos) && Bound(was.text, pos)
        invariant SkipLeft(was, pos, spaces) == SkipLeft(was, old(pos), spaces)
        decreases pos
      {
        assert was.text[pos-1] == buf[pos-1];
        OkStepLeft(View(), pos);
        SkipLeftStep(was, pos, spaces);
        var n := EditPrevLen(pos);
        pos := pos - n;
      }
      assert pos > 0 ==> was.text[pos-1] == buf[pos-1];
      SkipLeftStep(was, pos, spaces);
    }

    // Its three copies: the right character to tmp, the left one up, tmp down.
    method ExchangeBytes(prevstart: nat, prevlen: nat, currlen: nat)
      requires prevstart + prevlen == pos && pos + currlen <= len < buf.Length
      modifies buf
      ensures var t := old(buf[..][..len]);
              buf[..][..len] == t[..prevstart] + t[pos..pos + currlen] + t[prevstart..pos] + t[pos + currlen..]
      ensures buf[len] == old(buf[len])
    {
      hide Over;
      ghost var s := buf[..];
      var tmp := buf[..][pos..pos + currlen];
      MemMove(buf, prevstart + currlen, prevstart, prevlen);
      MemCpy(buf, prevstart, tmp);
      OverExchanges(s, len, prevstart, pos, pos + currlen);
      OverTail(s, len, prevstart, pos, pos + currlen);
      assert buf[len] == buf[..][len];
    }

    method ExchangeAround(prevstart: nat, prevlen: nat, currlen: nat)
      requires Valid() && prevstart + prevlen == pos && pos + currlen <= len
      modifies `pos, buf
      ensures Valid() && View() == Exchange(old(View()), prevstart, old(pos) + currlen)
    {
      hide Fine;
      ghost var was := View();
      ExchangeBytes(prevstart, prevlen, currlen);
      if pos + currlen <= len {
        pos := pos + currlen;
      }
      ExchangeFine(was, prevstart, pos);
    }

    /** Ctrl-T */
    method Swap()
      requires Valid() && CanStepLeft(View(), pos) && CanStepRight(View(), pos)
      modifies this, buf
      ensures Valid() && Cap() == old(Cap()) && input == old(input) && buf == old(buf)
      ensures SwapReady(old(View())) && View() == Swapped(old(View()))
    {
      hide Fine, LeftOf, RightOf, CanStepLeft, CanStepRight, RangeOverlaps, Swapped, Exchange;
      ghost var was := View();
      SwapIsReady(was);
      SwappedIs(was);
      if pos > 0 && pos < len {
        var prevlen := EditPrevLen(pos);
        var currlen := EditNextLen(pos);
        var prevstart := pos - prevlen;
        if prevlen > SWAP_MAX || currlen > SWAP_MAX {
          return;
        }
        var overlaps := folds.Overlaps(prevstart, prevlen + currlen);
        if overlaps {
          return;
        }
        ExchangeAround(prevstart, prevlen, currlen);
      }
    }

    /** Ctrl-U */
    method KillLine()
      requires Valid()
      modifies this, buf, folds
      ensures Valid() && Cap() == old(Cap()) && input == old(input) && buf == old(buf)
      ensures View() == EMPTY
    {
      buf[0] := 0;
      pos, len := 0, 0;
      folds.Clear();
    }

    /** Ctrl-K */
    method KillToEnd()
      requires Valid()
      modifies this, buf, folds, folds.starts, folds.ends
      ensures Valid() && Cap() == old(Cap()) && input == old(input) && buf == old(buf)
      ensures View() == KilledToEnd(old(View()))
    {
      hide AfterDelete;
      ghost var was := View();
      CutFine(was, pos, len);
      folds.AdjustAfterDelete(pos, len - pos);
      OverAfter(buf[..], pos, pos, 0);
      ghost var s := buf[..];
      buf[pos] := 0;
      assert buf[..] == s[pos := 0];
      len := pos;
      assert was.text[..pos] == s[..pos];
    }

    /** pasteBufferAppend: it fails exactly when the paste would pass maxlen. */
    method PasteAppend(pb: PasteBuffer, s: Bytes, maxlen: nat) returns (ok: bool)
      requires PasteReady(pb, maxlen)
      modifies `buf, pb, pb.buf
      ensures PasteReady(pb, maxlen) && View() == old(View()) && Cap() == old(Cap())
      ensures buf == old(buf) || fresh(buf)
      ensures pb.buf == old(pb.buf) || fresh(pb.buf)
      ensures s != [] ==> (ok <==> |old(pb.Text())| + |s| <= maxlen)
      ensures pb.Text() == if ok then old(pb.Text()) + s else old(pb.Text())
    {
      hide Fine;
      if pb.len > maxlen || |s| > maxlen - pb.len {
        return false;
      }
      if pb.len > SIZE_MAX - |s| {
        return false;
      }
      var needed := pb.len + |s|;
      if len > SIZE_MAX - needed {
        return false;
      }
      ok := Grow(len + needed);
      if !ok {
        return;
      }
      ok := pb.Reserve(|s|);
      if !ok {
        return;
      }
      pb.Append(s);
    }

    ghost predicate PasteReady(pb: PasteBuffer, maxlen: nat)
      reads this, buf, folds, folds.starts, folds.ends, pb
    {
      && Valid() && pb.Valid() && pb.buf != buf
      && maxlen <= PASTE_MAX && (maxlen == 0 || len + maxlen <= Cap())
    }

    // `if (!overflowed && pasteBufferAppend(...) == -1) overflowed = 1`
    method Collect(pb: PasteBuffer, s: Bytes, maxlen: nat, overflowed: bool, ghost body: Bytes) returns (over: bool)
      requires PasteReady(pb, maxlen) && s != []
      requires overflowed <==> |body| > maxlen
      requires !overflowed ==> pb.Text() == body
      modifies `buf, pb, pb.buf
      ensures PasteReady(pb, maxlen) && View() == old(View()) && Cap() == old(Cap())
      ensures buf == old(buf) || fresh(buf)
      ensures pb.buf == old(pb.buf) || fresh(pb.buf)
      ensures over <==> |body + s| > maxlen
      ensures !over ==> pb.Text() == body + s
    {
      over := overflowed;
      if !overflowed {
        var ok := PasteAppend(pb, s, maxlen);
        if !ok { over := true; }
      }
    }

    // One turn of the reading loop of linenoiseEditPaste, for the byte c that comes after consumed.
    method PasteByte(pb: PasteBuffer, c: Byte, m: nat, maxlen: nat, overflowed: bool, ghost consumed: Bytes, ghost body: Bytes)
      returns (matched: nat, over: bool, ghost body': Bytes)
      requires PasteReady(pb, maxlen)
      requires Matching(consumed, body, m) && m < |END|
      requires overflowed <==> |body| > maxlen
      requires !overflowed ==> pb.Text() == body
      modifies `buf, pb, pb.buf
      ensures PasteReady(pb, maxlen) && View() == old(View()) && Cap() == old(Cap())
      ensures buf == old(buf) || fresh(buf)
      ensures pb.buf == old(pb.buf) || fresh(pb.buf)
      ensures over <==> |body'| > maxlen
      ensures !over ==> pb.Text() == body'
      ensures matched < |END| ==> Matching(consumed + [c], body', matched)
      ensures matched >= |END| ==> CompletedBy(consumed + [c], body')
    {
      hide Matching, CompletedBy, PasteReady;
      matched, over, body' := m, overflowed, body;
      if c == END[matched] {
        MatchMore(consumed, body, matched, c);
        matched := matched + 1;
        return;
      }
      MatchBroken(consumed, body, matched, c);
      NoneHeldBack(body);
      if matched > 0 {
        over := Collect(pb, END[..matched], maxlen, over, body');
        body' := body' + END[..matched];
        matched := 0;
        if c == END[0] {
          matched := 1;
          return;
        }
      }
      over := Collect(pb, [c], maxlen, over, body');
      body' := body' + [c];
    }

    // The reading loop of linenoiseEditPaste: it takes the input up to and including the terminator, and
    // collects what comes before it unless that passes maxlen.
    method ReadPaste(pb: PasteBuffer, maxlen: nat) returns (overflowed: bool, ghost body: Bytes)
      requires PasteReady(pb, maxlen) && pb.Text() == []
      modifies `buf, `input, pb, pb.buf
      ensures PasteReady(pb, maxlen) && View() == old(View()) && Cap() == old(Cap())
      ensures buf == old(buf) || fresh(buf)
      ensures pb.buf == old(pb.buf) || fresh(pb.buf)
      ensures IsBody(old(input), body, input)
      ensures overflowed <==> |body| > maxlen
      ensures !overflowed ==> pb.Text() == body
    {
      hide Matching, CompletedBy, IsBody, Fine;
      ghost var consumed: Bytes := [];
      var matched: nat := 0;
      overflowed, body := false, [];
      MatchStart();
      while true
        invariant PasteReady(pb, maxlen) && View() == old(View()) && Cap() == old(Cap())
        invariant buf == old(buf) || fresh(buf)
        invariant pb.buf == old(pb.buf) || fresh(pb.buf)
        invariant consumed + input == old(input) && matched < |END|
        invariant Matching(consumed, body, matched)
        invariant overflowed <==> |body| > maxlen
        invariant !overflowed ==> pb.Text() == body
        decreases |input|
      {
        if input == [] {
          NoTerminator(consumed, body, matched);
          assert consumed + [] == consumed;
          break;
        }
        var c := input[0];
        NextByte(consumed, input, old(input));
        input := input[1..];
        matched, overflowed, body := PasteByte(pb, c, matched, maxlen, overflowed, consumed, body);
        consumed := consumed + [c];
        if matched >= |END| {
          Terminated(consumed, body, input);
          break;
        }
      }
    }

    /** linenoiseEditPaste: a paste within the cap is inserted, and hidden by a fold if it should be; a larger
        one is dropped whole. */
    method EditPaste() returns (ghost raw: Bytes)
      requires Valid()
      modifies this, buf, folds, folds.starts, folds.ends
      ensures Valid() && Cap() == old(Cap())
      ensures buf == old(buf) || fresh(buf)
      ensures IsBody(old(input), raw, input)
      ensures View() == Pasted(old(View()), raw, Cap(), masked)
      ensures var l := old(View());
              if raw != [] && |l.folds| < 16 && |raw| <= 1024 * 1024 && |l.text| + |raw| <= Cap() then
                View().text == l.text[..l.pos] + Normal(raw) + l.text[l.pos..] && View().pos == l.pos + |Normal(raw)|
              else View() == l
    {
      hide IsBody, Fine, Inserted, ShouldFold, Normal, Folded;
      ghost var was := View();
      var maxlen := if buflenMax != 0 then buflenMax else buf.Length - 1;
      maxlen := if maxlen > len then maxlen - len else 0;
      if maxlen > PASTE_MAX { maxlen := PASTE_MAX; }
      if folds.count == MAX_FOLDS { maxlen := 0; }
      var pb := new PasteBuffer();
      var overflowed;
      overflowed, raw := ReadPaste(pb, maxlen);
      PasteText(was, raw, Cap(), masked);
      if overflowed {
        return;
      }
      if pb.len == 0 {        // nothing was kept: buf is still NULL
        return;
      }
      var w := Normalise(pb.buf, pb.len);
      var c := pb.buf[..w];
      NormalIsClean(raw);
      var fold := ShouldFoldText(c);
      if !masked && fold {
        InsertFolded(c);
      } else {
        var ok := InsertNoRefresh(c);
      }
    }

    // The folded case: the bytes first, then the range they take.
    method InsertFolded(c: Bytes)
      requires Valid() && c != [] && len + |c| <= Cap() && folds.count < MAX_FOLDS
      modifies this, buf, folds, folds.starts, folds.ends
      ensures Valid() && Cap() == old(Cap()) && input == old(input)
      ensures buf == old(buf) || fresh(buf)
      ensures View() == Folded(old(View()), c)
    {
      hide AfterInsert, Added, Fine, Inserted;
      ghost var was := View();
      var start := pos;
      InsertedIs(was, c);
      FoldedFine(was, c);
      var ok := InsertNoRefresh(c);
      folds.Add(start, start + |c|);
    }

    // The copy of a recalled entry into the buffer: no fold is left, and the cursor goes to the end.
    method TakeText(src: Bytes)
      requires Valid() && |src| < buf.Length
      modifies this, buf, folds
      ensures Valid() && Cap() == old(Cap()) && input == old(input) && buf == old(buf)
      ensures View() == Line(src, |src|, [])
    {
      ghost var s := buf[..];
      Append(buf, 0, src);
      assert s[..0] + src == src;
      len := |src|;
      pos := len;
      EndText();
      folds.Clear();
    }

    /** completeLine, for a key that accepts the candidate shown. The line is the candidate if and only if the candidate
        fits the buffer, which a completion never makes larger. */
    method AcceptCompletion(c: Bytes)
      requires Valid() && forall i :: 0 <= i < |c| ==> c[i] != 0
      modifies this, buf, folds
      ensures buf == old(buf) && buf[..] == Stored(old(buf[..]), buf.Length - 1, c) && input == old(input)
      ensures pos == len == |c| && folds.Valid() && folds.folds == []
      ensures Valid() && View() == Line(c, |c|, []) <==> CompletionFits(c, buf.Length - 1)
    {
      hide Over;
      ghost var mem := buf[..];
      if |c| < buf.Length - 1 {
        MemCpy(buf, 0, c + [0]);
      } else if buf.Length > 1 {
        MemCpy(buf, 0, c[..buf.Length - 2] + [0]);
      }
      len, pos := |c|, |c|;
      folds.Clear();
      StoredIff(mem, c);
      assert Valid() <==> len < buf.Length && buf[len] == 0;
      assert len < buf.Length ==> View() == Line(buf[..][..len], len, []);
    }
  }

  /** In the buffer that the library starts with, a candidate of 5000 bytes is counted past the end of the buffer. */
  method LongCompletion() returns (e: Editor)
    ensures e.len == 5000 && e.buf.Length == 4096 && !e.Valid()
  {
    e := new Editor(4096, 1024 * 1024, false, []);
    e.AcceptCompletion(seq(5000, _ => 97));
  }
}
