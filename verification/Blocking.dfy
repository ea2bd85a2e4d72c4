/** A whole session at the terminal, from an empty line to Enter, and over and over again: linenoiseBlockingEdit. */
module Blocking {
  import opened Utf8
  import opened Folds
  import opened Lines
  import opened Paste
  import opened Editors
  import opened Zippers
  import opened Recall
  import opened Histories
  import opened Keys
  import C = Commands
  import Render

  const INITIAL_BUFLEN: nat := 4096
  const MAX_LINE: nat := 1024 * 1024

  // ---------- what is typed ----------

  // Simple text that is a C string and fits the buffer.
  ghost predicate TextOk(t: Bytes) {
    WF(t) && AllSimple(Runes(t)) && NoNul(t)
  }

  ghost predicate EntriesOk(h: seq<Bytes>) {
    forall i :: 0 <= i < |h| ==> TextOk(h[i]) && |h[i]| <= MAX_LINE
  }

  // A typed character is a simple one, not NUL, and a newline only where lf allows it.
  ghost predicate CharOk(bytes: Bytes, lf: bool) {
    exists r: Rune :: bytes == Encode1(r) && Simple(r) && r != 0 && (r == LF ==> lf)
  }

  /** What the terminal delivers up to the end of the line: simple characters, keys, and pastes of simple text. */
  ghost predicate InputOk(input: Bytes, held: Held, lf: bool)
    requires HeldOk(held)
    decreases |input|
  {
    input == [] ||
    var (k, n) := ReadKey(input, held);
    match k
    case Enter => true
    case Interrupt => true
    case Char(bytes) => CharOk(bytes, lf) && InputOk(input[n..], held, lf)
    case PasteStart =>
      forall raw, rest ::
        IsBody(input[n..], raw, rest) ==> TextOk(raw) && (|rest| < |input| ==> InputOk(rest, held, lf))
    case _ => InputOk(input[n..], held, lf)
  }

  // ---------- one key of such input is one command, or none ----------

  // The key is one that such input has; raw is what a paste reads.
  ghost predicate KeyOk(k: Key, raw: Bytes, lf: bool) {
    (k.Char? ==> CharOk(k.bytes, lf)) && (k.PasteStart? ==> TextOk(raw))
  }

  ghost predicate OfRow(l: Line) {
    exists z :: ZOk(z) && l == LineOf(z)
  }

  ghost predicate LineOk(l: Line) {
    OfRow(l) && NoNul(l.text) && |l.text| <= MAX_LINE
  }

  ghost predicate SceneOk(b: Scene) {
    WalkOk(WalkOf(b)) && LineOk(b.line) && EntriesOk(b.entries)
  }

  // No newline comes in by typing, unless lf allows it.
  ghost predicate TypedOk(cs: seq<C.Command>, lf: bool) {
    lf || forall i :: 0 <= i < |cs| ==> C.TypesNoLf(cs[i])
  }

  ghost predicate RunTo(l: Line, cs: seq<C.Command>, lf: bool, r: Line) {
    C.CommandsOk(cs, MAX_LINE) && TypedOk(cs, lf) && C.Runs(l, cs, MAX_LINE, r)
  }

  lemma NoCommand(l: Line, lf: bool)
    ensures RunTo(l, [], lf, l)
  {
    hide Ok;
  }

  lemma OneCommand(l: Line, c: C.Command, lf: bool)
    requires Ok(l) && C.CommandOk(c, MAX_LINE) && (lf || C.TypesNoLf(c))
    ensures RunTo(l, [c], lf, C.Step(l, c, MAX_LINE))
  {
    hide Ok, C.Step, C.CommandOk, C.TypesNoLf;
    var m := C.Step(l, c, MAX_LINE);
    assert [c][1..] == [] && C.Runs(m, [], MAX_LINE, m);
  }

  lemma {:induction false} MoreCommands(l: Line, cs: seq<C.Command>, m: Line, ds: seq<C.Command>, lf: bool, r: Line)
    requires RunTo(l, cs, lf, m) && RunTo(m, ds, lf, r)
    ensures RunTo(l, cs + ds, lf, r)
    decreases |cs|
  {
    hide Ok, C.Step, C.CommandOk, C.TypesNoLf;
    if cs == [] {
      assert cs + ds == ds;
    } else {
      MoreCommands(C.Step(l, cs[0], MAX_LINE), cs[1..], m, ds, lf, r);
      assert (cs + ds)[1..] == cs[1..] + ds;
    }
  }

  // ---------- what such a command keeps ----------

  lemma OfRowText(l: Line)
    requires OfRow(l)
    ensures Ok(l) && AllSimple(Runes(l.text))
  {
    hide Encode, TextOf, FoldsOf, RowOk, Simple, WF, Ok;
    var z :| ZOk(z) && l == LineOf(z);
    C.LineOfOk(z);
    TextIsEncoding(z.left);
    TextIsEncoding(z.right);
    EncodeConcat(RunesOf(z.left), RunesOf(z.right));
    OkText(l);
    EncodeInjective(Runes(l.text), RunesOf(z.left) + RunesOf(z.right));
  }

  lemma OkText(l: Line)
    requires Ok(l)
    ensures WF(l.text) && Fine(l) && l.pos <= |l.text|
  {
    hide WF;
  }

  lemma NoNulCut(t: Bytes, p: nat, q: nat)
    requires NoNul(t) && p <= q <= |t|
    ensures NoNul(t[..p] + t[q..])
  {}

  lemma NoNulPut(t: Bytes, p: nat, c: Bytes)
    requires NoNul(t) && NoNul(c) && p <= |t|
    ensures NoNul(t[..p] + c + t[p..])
  {}

  lemma {:induction false} NoNulNormal(t: Bytes)
    requires NoNul(t)
    ensures NoNul(Normal(t))
  {
    if t != [] {
      NoNulNormal(t[1..]);
      if |t| > 1 { NoNulNormal(t[2..]); }
    }
  }

  lemma NoNulRune(r: Rune)
    requires r != 0
    ensures NoNul(Encode1(r))
  {}

  // The commands that keys stand for bring no NUL in.
  ghost predicate BringsNoNul(c: C.Command) {
    match c
    case Insert(r) => r != 0
    case PasteRaw(raw) => NoNul(raw)
    case RecallEntry(entry) => NoNul(entry)
    case Complete(candidate, buflen) => NoNul(candidate)
    case _ => true
  }

  lemma StepKeepsNoNul(l: Line, c: C.Command, cap: nat)
    requires Ok(l) && NoNul(l.text) && C.CommandOk(c, cap) && BringsNoNul(c)
    ensures NoNul(C.Step(l, c, cap).text)
  {
    hide *;
    OkText(l);
    C.StepMeans(l, cap);
    C.SwapLineStep(l, cap);
    match c
    case Insert(r) => InsertText(l, r, cap);
    case PasteRaw(raw) => PasteText(l, raw, cap);
    case Swap => SwapText(l);
    case Backspace => DeleteText(l);
    case Delete => DeleteText(l);
    case KillToEnd => KillText(l);
    case KillWord => KillText(l);
    case _ => OtherText(l, c, cap);
  }

  lemma InsertText(l: Line, r: Rune, cap: nat)
    requires Ok(l) && NoNul(l.text) && C.CommandOk(C.Insert(r), cap) && BringsNoNul(C.Insert(r))
    ensures NoNul(C.Step(l, C.Insert(r), cap).text)
  {
    hide WF, FoldsBound, Ordered, Encode1;
    NoNulRune(r);
    NoNulPut(l.text, l.pos, Encode1(r));
  }

  lemma PasteText(l: Line, raw: Bytes, cap: nat)
    requires Ok(l) && NoNul(l.text) && C.CommandOk(C.PasteRaw(raw), cap) && BringsNoNul(C.PasteRaw(raw))
    ensures NoNul(C.Step(l, C.PasteRaw(raw), cap).text)
  {
    hide WF, FoldsBound, Ordered, Normal, AllSimple, ShouldFold;
    NoNulNormal(raw);
    NoNulPut(l.text, l.pos, Normal(raw));
  }

  lemma SwapText(l: Line)
    requires SwapReady(l) && NoNul(l.text)
    ensures NoNul(Swapped(l).text)
  {
    hide StepLeft, StepRight, CanStepLeft, CanStepRight;
    SwappedIs(l);
  }

  lemma DeleteText(l: Line)
    requires Fine(l) && CanStepLeft(l, l.pos) && CanStepRight(l, l.pos) && NoNul(l.text)
    ensures NoNul(DeletedLeft(l).text) && NoNul(DeletedRight(l).text)
  {
    hide Ordered, StepLeft, StepRight, CanStepLeft, CanStepRight, AfterDelete;
    if l.pos > 0 {
      StepLeftInside(l, l.pos);
    }
    if l.pos < |l.text| {
      StepRightInside(l, l.pos);
    }
  }

  lemma KillText(l: Line)
    requires Ok(l) && NoNul(l.text)
    ensures NoNul(KilledToEnd(l).text) && NoNul(DeletedWord(l).text)
  {
    hide WF, FoldsBound, Ordered, AfterDelete, WordStart;
    NoNulCut(l.text, l.pos, |l.text|);
    NoNulCut(l.text, WordStart(l), l.pos);
  }

  lemma OtherText(l: Line, c: C.Command, cap: nat)
    requires Ok(l) && NoNul(l.text) && C.CommandOk(c, cap) && BringsNoNul(c)
    requires c.Left? || c.Right? || c.Home? || c.End? || c.KillLine? || c.RecallEntry? || c.Complete?
    ensures NoNul(C.Step(l, c, cap).text)
  {
    hide WF, FoldsBound, Ordered, AllSimple, StepLeft, StepRight, HistoryFold, ShouldFold;
    if !c.RecallEntry? && !c.Complete? {
      C.StepMeans(l, cap);
    }
  }

  lemma StepKeepsLineOk(l: Line, c: C.Command)
    requires LineOk(l) && C.CommandOk(c, MAX_LINE) && BringsNoNul(c)
    ensures Ok(l) && LineOk(C.Step(l, c, MAX_LINE))
  {
    hide C.Step, C.RowStep, C.CommandOk, BringsNoNul, ZOk, LineOf, NoNul, Ok;
    OfRowText(l);
    var z :| ZOk(z) && l == LineOf(z);
    C.StepRefines(z, c, MAX_LINE);
    StepKeepsNoNul(l, c, MAX_LINE);
    C.StepKeepsCap(l, c, MAX_LINE);
  }

  // ---------- one key ----------

  lemma RunOne(l: Line, c: C.Command, lf: bool, r: Line)
    requires LineOk(l) && Ok(l) && C.CommandOk(c, MAX_LINE) && BringsNoNul(c) && (lf || C.TypesNoLf(c))
    requires r == C.Step(l, c, MAX_LINE)
    ensures LineOk(r) && RunTo(l, [c], lf, r)
  {
    hide *;
    StepKeepsLineOk(l, c);
    OneCommand(l, c, lf);
  }

  lemma LineIsOk(l: Line)
    requires LineOk(l)
    ensures Ok(l) && TextOk(l.text) && |l.text| <= MAX_LINE
  {
    hide NoNul, AllSimple, OfRow, Ok, WF;
    OfRowText(l);
    OkText(l);
  }

  // A key of the line alone.
  lemma KeyedRuns(l: Line, k: Key, lf: bool) returns (cs: seq<C.Command>)
    requires LineOk(l) && Ok(l) && KeyOk(k, [], lf)
    ensures LineOk(Keyed(l, k, MAX_LINE)) && RunTo(l, cs, lf, Keyed(l, k, MAX_LINE))
  {
    hide Ok, LineOk, RunTo, C.Step, Encode1, Simple;
    if k.Char? {
      var r: Rune :| k.bytes == Encode1(r) && Simple(r) && r != 0 && (r == LF ==> lf);
      cs := [C.Insert(r)];
      CharIsInsert(l, r, MAX_LINE);
      RunOne(l, C.Insert(r), lf, Keyed(l, k, MAX_LINE));
    } else if IsCommand(k) {
      cs := [CommandOf(k)];
      RunOne(l, CommandOf(k), lf, Keyed(l, k, MAX_LINE));
    } else {
      cs := [];
      NoCommand(l, lf);
    }
  }

  lemma PasteRuns(l: Line, raw: Bytes, lf: bool) returns (cs: seq<C.Command>)
    requires LineOk(l) && Ok(l) && KeyOk(PasteStart, raw, lf)
    ensures var r := Pasted(l, raw, MAX_LINE, false); LineOk(r) && RunTo(l, cs, lf, r)
  {
    hide LineOk, RunTo, Pasted, AllSimple, WF, NoNul, FoldsBound;
    cs := [C.PasteRaw(raw)];
    RunOne(l, C.PasteRaw(raw), lf, Pasted(l, raw, MAX_LINE, false));
  }

  lemma RecallRuns(l: Line, entry: Bytes, lf: bool) returns (cs: seq<C.Command>)
    requires LineOk(l) && Ok(l) && TextOk(entry) && |entry| <= MAX_LINE
    ensures LineOk(Recalled(entry, false)) && RunTo(l, cs, lf, Recalled(entry, false))
  {
    hide LineOk, RunTo, Recalled, AllSimple, WF, NoNul, FoldsBound;
    cs := [C.RecallEntry(entry)];
    RunOne(l, C.RecallEntry(entry), lf, Recalled(entry, false));
  }

  lemma MoveRuns(b: Scene, prev: bool, g: Setting, a: Scene, lf: bool) returns (cs: seq<C.Command>)
    requires SceneOk(b) && FedMove(b, prev, g, a) && g.cap == MAX_LINE && !g.masked
    ensures SceneOk(a) && RunTo(b.line, cs, lf, a.line)
  {
    hide LineOk, RunTo, Recalled, TextOk, Ok, Taken, WF, MoveTaken;
    LineIsOk(b.line);
    MovedIn(WalkOf(b), prev, g.cap, g.buflen);
    MovedEntries(WalkOf(b), prev, g.cap, g.buflen);
    if a.index == b.index {
      cs := [];
      NoCommand(b.line, lf);
    } else {
      TakenWhole(b.entries[|b.entries| - 1 - a.index], g.cap, g.buflen);
      cs := RecallRuns(b.line, a.line.text, lf);
    }
  }

  lemma TakenWhole(t: Bytes, cap: nat, buflen: nat)
    requires |t| <= cap
    ensures Taken(t, cap, buflen) == t
  {}

  lemma MovedEntries(w: Walk, prev: bool, cap: nat, buflen: nat)
    requires WalkOk(w) && EntriesOk(w.entries) && TextOk(w.text) && |w.text| <= MAX_LINE
    ensures var m := MoveTaken(w, prev, cap, buflen); WalkOk(m) && EntriesOk(m.entries)
  {
    hide Taken, TextOk;
  }

  /** A key of simple input is a command or none, and leaves line and history as they should be. */
  lemma OneKey(b: Scene, k: Key, raw: Bytes, g: Setting, a: Scene, r: Outcome, lf: bool) returns (cs: seq<C.Command>)
    requires SceneOk(b) && Ok(b.line) && KeyOk(k, raw, lf) && g.cap == MAX_LINE && !g.masked
    requires Fed(b, k, raw, g, a, r)
    ensures LineOk(a.line) && RunTo(b.line, cs, lf, a.line) && EntriesOk(a.entries)
    ensures r.More? ==> SceneOk(a)
    ensures r.Accepted? ==> r.line == a.line.text
  {
    hide LineOk, RunTo, Recalled, TextOk, Ok, Taken, WF, MoveTaken, Pasted, Keyed, FedMove, KeyOk, IsBody;
    LineIsOk(b.line);
    NulFree(a.line);
    match k
    case Up => cs := MoveRuns(b, true, g, a, lf);
    case Down => cs := MoveRuns(b, false, g, a, lf);
    case PasteStart => cs := PasteRuns(b.line, raw, lf);
    case Enter => cs := LeaveRuns(b.line, g.multi, lf);
    case Interrupt => cs := LeaveRuns(b.line, false, lf);
    case EndOfInput => cs := LeaveRuns(b.line, false, lf);
    case DeleteOrEnd =>
      if b.line.text == [] {
        cs := LeaveRuns(b.line, false, lf);
      } else {
        cs := PlainRuns(b.line, k, raw, lf);
      }
    case _ => cs := PlainRuns(b.line, k, raw, lf);
  }

  lemma NulFree(l: Line)
    ensures LineOk(l) ==> CString(l.text) == l.text
  {
    hide OfRow;
    if LineOk(l) {
      CStringWhole(l.text);
    }
  }

  lemma PlainRuns(l: Line, k: Key, raw: Bytes, lf: bool) returns (cs: seq<C.Command>)
    requires LineOk(l) && Ok(l) && KeyOk(k, raw, lf) && k != PasteStart
    ensures LineOk(Keyed(l, k, MAX_LINE)) && RunTo(l, cs, lf, Keyed(l, k, MAX_LINE))
  {
    hide LineOk, RunTo, Ok, Keyed;
    cs := KeyedRuns(l, k, lf);
  }

  lemma LeaveRuns(l: Line, atEnd: bool, lf: bool) returns (cs: seq<C.Command>)
    requires LineOk(l) && Ok(l)
    ensures var r := if atEnd then l.(pos := |l.text|) else l; LineOk(r) && RunTo(l, cs, lf, r)
  {
    hide LineOk, RunTo, Ok;
    if atEnd {
      cs := [C.End];
      C.StepMeans(l, MAX_LINE);
      RunOne(l, C.End, lf, l.(pos := |l.text|));
    } else {
      cs := [];
      NoCommand(l, lf);
    }
  }

  // What the next key finds: the rest of the input, after a paste what follows its end.
  lemma InputStep(input: Bytes, held: Held, lf: bool, raw: Bytes, rest: Bytes)
    requires HeldOk(held) && InputOk(input, held, lf)
    requires var (k, n) := ReadKey(input, held); if k.PasteStart? then IsBody(input[n..], raw, rest) else rest == input[n..]
    ensures var (k, n) := ReadKey(input, held);
            && KeyOk(k, raw, lf)
            && (!k.Enter? && !k.Interrupt? && !k.EndOfInput? ==> |rest| < |input| && InputOk(rest, held, lf))
  {
    hide ReadKey, TextOk, CharOk, IsBody;
    var (k, n) := ReadKey(input, held);
    NothingRead(held);
    if k.PasteStart? {
      BodyInside(input[n..], raw, rest);
    }
  }

  lemma NothingRead(held: Held)
    requires HeldOk(held)
    ensures ReadKey([], held).0.EndOfInput?
  {
    hide ReadEscape;
  }

  lemma BodyInside(input: Bytes, raw: Bytes, rest: Bytes)
    requires IsBody(input, raw, rest)
    ensures |rest| <= |input|
  {}

  lemma FedInput(b: Scene, k: Key, raw: Bytes, g: Setting, a: Scene, r: Outcome)
    requires Ok(b.line) && WalkOk(WalkOf(b)) && Fed(b, k, raw, g, a, r)
    ensures if k.PasteStart? then IsBody(b.input, raw, a.input) else a.input == b.input
    ensures r.More? ==> !k.Enter? && !k.Interrupt? && !k.EndOfInput?
  {
    hide WF, Ok, IsBody, MoveTaken, Pasted, Keyed, Recalled;
  }

  // ---------- the session ----------

  /** What holds of the line whenever it is shown. */
  ghost predicate Sound(l: Line, lf: bool) {
    && Ok(l) && |l.text| <= MAX_LINE && NoNul(l.text)
    && (forall i :: 0 <= i < |l.folds| ==> !Inside(l.pos, l.folds[i]))
    && (!lf ==> LfFolded(l) && !HasLf(Render.Rendered(l.text, l.folds)))
  }

  lemma SoundRun(cs: seq<C.Command>, l: Line, lf: bool)
    requires RunTo(EMPTY, cs, lf, l) && LineOk(l)
    ensures Sound(l, lf)
  {
    hide OfRow, C.Runs, LfFolded, HasLf, Ok;
    C.EveryRun(cs, MAX_LINE, l);
  }

  // One key of the session: it is read off the input and carried out.
  ghost predicate KeyStep(b: Scene, held: Held, multi: bool, a: Scene, r: Outcome)
    requires HeldOk(held)
  {
    var (k, n) := ReadKey(b.input, held);
    && Ok(b.line) && WalkOk(WalkOf(b))
    && exists raw: Bytes, buflen: nat ::
         Fed(b.(input := b.input[n..]), k, raw, Setting(MAX_LINE, buflen, false, multi), a, r)
  }

  /** How a key ends the line: Enter accepts it and drops the history's last entry, Ctrl-C leaves all as it is, and so does the
      end of the input; Ctrl-D ends an empty line and drops the entry. */
  lemma EndingKeys(b: Scene, held: Held, multi: bool, a: Scene, r: Outcome)
    requires HeldOk(held) && KeyStep(b, held, multi, a, r)
    ensures b.input == [] ==> r == Ended && a == b
    ensures b.input != [] && b.input[0] == 0x03 ==> r == Interrupted && a == b.(input := b.input[1..])
    ensures b.input != [] && b.input[0] == 0x0D ==>
              && r == Accepted(CString(b.line.text)) && a.entries == b.entries[..|b.entries| - 1] && a.index == b.index
              && a.line == (if multi then b.line.(pos := |b.line.text|) else b.line) && a.input == b.input[1..]
    ensures b.input != [] && b.input[0] == 0x04 && b.line.text == [] ==>
              r == Ended && a == b.(entries := b.entries[..|b.entries| - 1], input := b.input[1..])
    ensures b.input != [] && b.input[0] != 0x03 && b.input[0] != 0x04 && b.input[0] != 0x0D ==> r == More
  {
    hide Ok, WF, IsBody, Pasted, Keyed, Recalled, FedMove, CString, ReadEscape, Filled;
    if b.input != [] && b.input[0] == ESC {
      EscapeGoesOn(b.input, held);
    }
  }

  /** Ctrl-P brings in the entry before the one that the line stands for, and Ctrl-N the one after it, as it was left there. */
  lemma WalkingKeys(b: Scene, held: Held, multi: bool, a: Scene, r: Outcome)
    requires HeldOk(held) && KeyStep(b, held, multi, a, r) && EntriesOk(b.entries) && |b.entries| > 1 && b.input != []
    ensures b.input[0] == 0x10 && b.index + 1 < |b.entries| ==>
              a.index == b.index + 1 && a.line.text == b.entries[|b.entries| - 2 - b.index] && a.line.pos == |a.line.text|
    ensures b.input[0] == 0x0E && b.index > 0 ==>
              a.index == b.index - 1 && a.line.text == b.entries[|b.entries| - b.index] && a.line.pos == |a.line.text|
  {
    hide Ok, IsBody, Pasted, Keyed, CString, ReadEscape, Filled, TextOk, WF, HistoryFold, ShouldFold, Taken;
    var (k, n) := ReadKey(b.input, held);
    var c := b.(input := b.input[n..]);
    if k.Up? || k.Down? {
      var raw: Bytes, buflen: nat :| Fed(c, k, raw, Setting(MAX_LINE, buflen, false, multi), a, r);
      MoveFits(WalkOf(c), k.Up?, buflen);
    }
  }

  // The scenes of a session that ends with r, or has not ended.
  ghost predicate Passes(scenes: seq<Scene>, held: Held, multi: bool, r: Outcome)
    requires HeldOk(held)
  {
    && scenes != []
    && (forall i :: 0 < i < |scenes| - 1 ==> KeyStep(scenes[i - 1], held, multi, scenes[i], More))
    && (if |scenes| == 1 then r.More? else KeyStep(scenes[|scenes| - 2], held, multi, scenes[|scenes| - 1], r))
  }

  lemma NextScene(scenes: seq<Scene>, held: Held, multi: bool, a: Scene, r: Outcome)
    requires HeldOk(held) && Passes(scenes, held, multi, More)
    requires KeyStep(scenes[|scenes| - 1], held, multi, a, r)
    ensures Passes(scenes + [a], held, multi, r)
  {
    hide KeyStep;
  }

  /** What the session has come to. */
  ghost predicate Reached(scenes: seq<Scene>, cs: seq<C.Command>, held: Held, multi: bool, lf: bool, r: Outcome)
    requires HeldOk(held)
  {
    && Passes(scenes, held, multi, r)
    && (forall i :: 0 <= i < |scenes| ==> Sound(scenes[i].line, lf) && EntriesOk(scenes[i].entries))
    && var a := scenes[|scenes| - 1];
       && RunTo(EMPTY, cs, lf, a.line)
       && (r.Accepted? ==> r.line == a.line.text)
  }

  lemma ReachedNext(scenes: seq<Scene>, cs: seq<C.Command>, held: Held, multi: bool, lf: bool, k: Key, n: nat,
                    raw: Bytes, buflen: nat, a: Scene, r: Outcome)
      returns (cs': seq<C.Command>)
    requires HeldOk(held) && Reached(scenes, cs, held, multi, lf, More)
    requires var b := scenes[|scenes| - 1];
             && (k, n) == ReadKey(b.input, held) && SceneOk(b) && Ok(b.line) && InputOk(b.input, held, lf)
             && Fed(b.(input := b.input[n..]), k, raw, Setting(MAX_LINE, buflen, false, multi), a, r)
    ensures Reached(scenes + [a], cs', held, multi, lf, r)
    ensures r.More? ==> SceneOk(a) && InputOk(a.input, held, lf) && |a.input| < |scenes[|scenes| - 1].input|
  {
    hide Ok, Fed, Passes, RunTo, Sound, InputOk, ReadKey, EntriesOk, LineOk, IsBody, KeyOk;
    LastReached(scenes, cs, held, multi, lf, More);
    var b := scenes[|scenes| - 1];
    var c, g := b.(input := b.input[n..]), Setting(MAX_LINE, buflen, false, multi);
    FedInput(c, k, raw, g, a, r);
    InputStep(b.input, held, lf, raw, a.input);
    var ds := OneKey(c, k, raw, g, a, r, lf);
    cs' := cs + ds;
    MoreCommands(EMPTY, cs, b.line, ds, lf, a.line);
    SoundRun(cs', a.line, lf);
    NextScene(scenes, held, multi, a, r);
  }

  lemma LastReached(scenes: seq<Scene>, cs: seq<C.Command>, held: Held, multi: bool, lf: bool, r: Outcome)
    requires HeldOk(held) && Reached(scenes, cs, held, multi, lf, r)
    ensures scenes != [] && EntriesOk(scenes[|scenes| - 1].entries)
  {
    hide Ok, RunTo, Sound, EntriesOk, KeyStep;
  }

  lemma EmptyLine()
    ensures LineOk(EMPTY) && TextOk([])
  {
    var z := Zipper([], []);
    assert ZOk(z) && LineOf(z) == EMPTY;
    WFEmpty();
    OfRowText(EMPTY);
  }

  lemma SessionStarts(h: seq<Bytes>, max: nat, input: Bytes, held: Held, multi: bool, lf: bool)
    requires HeldOk(held) && max > 0 && |h| <= max && EntriesOk(h)
    ensures var b := Scene(EMPTY, AddedTo(h, [], max), 0, input);
            SceneOk(b) && Reached([b], [], held, multi, lf, More)
  {
    hide Ok, RunTo, Sound, LineOk, TextOk;
    EmptyLine();
    NoCommand(EMPTY, lf);
    SoundRun([], EMPTY, lf);
  }

  lemma SceneReady(b: Scene)
    requires SceneOk(b)
    ensures Ok(b.line) && NoNul(b.line.text)
    ensures forall i, buflen: nat :: 0 <= i < |b.entries| ==> WF(Taken(b.entries[i], MAX_LINE, buflen))
  {
    hide OfRow, Ok, WF, NoNul, AllSimple;
    LineIsOk(b.line);
  }

  // ---------- the history over a session ----------

  ghost predicate Walked(scenes: seq<Scene>, n: nat) {
    scenes != [] && forall j :: 0 <= j < |scenes| ==> WalkOk(WalkOf(scenes[j])) && |scenes[j].entries| == n
  }

  // The text that entry i was last given: by a key that worked on it, or to begin with.
  ghost function LastGiven(scenes: seq<Scene>, i: nat): Bytes
    requires exists n: nat :: Walked(scenes, n) && i < n
    decreases |scenes|
  {
    var m := |scenes| - 1;
    var a := scenes[m];
    var n: nat :| Walked(scenes, n) && i < n;
    if m == 0 then Latest(WalkOf(a))[i]
    else if a.index == scenes[m - 1].index && Slot(WalkOf(a)) == i then a.line.text
    else
      assert Walked(scenes[..m], n);
      LastGiven(scenes[..m], i)
  }

  // A key works on the line, or brings another entry into it as that entry is.
  lemma StepEntries(b: Scene, held: Held, multi: bool, a: Scene)
    requires HeldOk(held) && KeyStep(b, held, multi, a, More) && EntriesOk(b.entries)
    ensures WalkOk(WalkOf(b)) && WalkOk(WalkOf(a)) && |a.entries| == |b.entries|
    ensures var u, v := Latest(WalkOf(a)), Latest(WalkOf(b));
            && |u| == |v|
            && (a.index == b.index ==> forall i :: 0 <= i < |v| && i != Slot(WalkOf(a)) ==> u[i] == v[i])
            && (a.index != b.index ==> u == v)
  {
    hide Ok, WF, IsBody, Pasted, Keyed, Recalled, Taken, TextOk, ReadKey, FedMove;
    var (k, n) := ReadKey(b.input, held);
    var c := b.(input := b.input[n..]);
    var raw: Bytes, buflen: nat :| Fed(c, k, raw, Setting(MAX_LINE, buflen, false, multi), a, More);
    if k.Up? {
      MoveEntries(c, true, buflen, multi, a);
    } else if k.Down? {
      MoveEntries(c, false, buflen, multi, a);
    }
  }

  lemma MoveEntries(b: Scene, prev: bool, buflen: nat, multi: bool, a: Scene)
    requires WalkOk(WalkOf(b)) && EntriesOk(b.entries)
    requires FedMove(b, prev, Setting(MAX_LINE, buflen, false, multi), a)
    ensures WalkOk(WalkOf(a)) && |a.entries| == |b.entries| && Latest(WalkOf(a)) == Latest(WalkOf(b))
  {
    hide Recalled, Move, Latest, Taken, WF, TextOk, MoveTaken;
    MoveKeeps(WalkOf(b), prev);
    MoveFits(WalkOf(b), prev, buflen);
  }

  lemma MoveFits(w: Walk, prev: bool, buflen: nat)
    requires WalkOk(w) && EntriesOk(w.entries)
    ensures MoveTaken(w, prev, MAX_LINE, buflen) == Move(w, prev)
  {
    hide TextOk;
  }

  lemma {:induction false} SceneWalks(scenes: seq<Scene>, held: Held, multi: bool)
    requires HeldOk(held) && Passes(scenes, held, multi, More) && WalkOk(WalkOf(scenes[0]))
    requires forall j :: 0 <= j < |scenes| ==> EntriesOk(scenes[j].entries)
    ensures Walked(scenes, |scenes[0].entries|)
    decreases |scenes|
  {
    hide KeyStep, EntriesOk;
    var m := |scenes| - 1;
    if m > 0 {
      SceneWalks(scenes[..m], held, multi);
      StepEntries(scenes[m - 1], held, multi, scenes[m]);
    }
  }

  /** Over a session each entry of the history holds the text that it was last given, and the line shows the entry that it
      stands for: no key loses an edit. */
  lemma {:induction false} SessionKeepsEdits(scenes: seq<Scene>, held: Held, multi: bool, i: nat)
    requires HeldOk(held) && Passes(scenes, held, multi, More) && WalkOk(WalkOf(scenes[0]))
    requires forall j :: 0 <= j < |scenes| ==> EntriesOk(scenes[j].entries)
    requires i < |scenes[0].entries|
    ensures Walked(scenes, |scenes[0].entries|)
    ensures var a := scenes[|scenes| - 1];
            Latest(WalkOf(a))[i] == LastGiven(scenes, i) && a.line.text == LastGiven(scenes, Slot(WalkOf(a)))
    decreases |scenes|
  {
    hide KeyStep, EntriesOk, Latest;
    SceneWalks(scenes, held, multi);
    var m := |scenes| - 1;
    var a := scenes[m];
    Standing(WalkOf(a));
    if m > 0 {
      var b := scenes[m - 1];
      SceneWalks(scenes[..m], held, multi);
      SessionKeepsEdits(scenes[..m], held, multi, i);
      SessionKeepsEdits(scenes[..m], held, multi, Slot(WalkOf(a)));
      StepEntries(b, held, multi, a);
      assert scenes[..m][m - 1] == b;
    }
  }

  /** When the line is accepted it is the text that its entry was last given, and every other entry of the history holds what
      it was last given; the last entry, which stood for the new line, is gone. */
  lemma HistoryAfter(scenes: seq<Scene>, cs: seq<C.Command>, held: Held, multi: bool, lf: bool, line: Bytes, i: nat)
    requires HeldOk(held) && Reached(scenes, cs, held, multi, lf, Accepted(line)) && WalkOk(WalkOf(scenes[0]))
    requires i < |scenes[|scenes| - 1].entries|
    ensures var before, a := scenes[..|scenes| - 1], scenes[|scenes| - 1];
            && Walked(before, |scenes[0].entries|) && |a.entries| == |scenes[0].entries| - 1
            && (i != Slot(WalkOf(before[|before| - 1])) ==> a.entries[i] == LastGiven(before, i))
            && line == LastGiven(before, Slot(WalkOf(before[|before| - 1])))
  {
    hide KeyStep, RunTo, Sound, EntriesOk, LastGiven;
    var m := |scenes| - 1;
    var before := scenes[..m];
    assert m > 0;
    AcceptedEntries(before[m - 1], held, multi, scenes[m], line);
    SceneWalks(before, held, multi);
    SessionKeepsEdits(before, held, multi, i);
  }

  lemma AcceptedEntries(b: Scene, held: Held, multi: bool, a: Scene, line: Bytes)
    requires HeldOk(held) && KeyStep(b, held, multi, a, Accepted(line))
    ensures |b.entries| > 0 && a.entries == b.entries[..|b.entries| - 1] && a.line.text == b.line.text
  {
    hide Ok, WF, IsBody, Pasted, Keyed, Recalled, ReadKey, FedMove, CString;
  }

  /** linenoiseBlockingEdit: a line is edited from empty until a key ends it. */
  method BlockingEdit(h: History, multi: bool, input: Bytes, held: Held, ghost lf: bool)
      returns (r: Outcome, ghost scenes: seq<Scene>, ghost cs: seq<C.Command>)
    requires h.Valid() && h.maxLen > 0 && EntriesOk(h.entries)
    requires HeldOk(held) && InputOk(input, held, lf)
    modifies h
    ensures h.Valid() && h.maxLen == old(h.maxLen) && EntriesOk(h.entries)
    ensures !r.More? && Reached(scenes, cs, held, multi, lf, r)
    ensures scenes[0] == Scene(EMPTY, AddedTo(old(h.entries), [], h.maxLen), 0, input)
    ensures h.entries == scenes[|scenes| - 1].entries
  {
    hide Ok, Fed, InputOk, ReadKey, EntriesOk, LineOk, IsBody, KeyOk, Reached;
    var l := new Editor(INITIAL_BUFLEN, MAX_LINE, false, input);
    var added := h.Add([]);
    var s := new Session(l, h);
    scenes, cs := [SceneOf(s)], [];
    r := More;
    SessionStarts(old(h.entries), h.maxLen, input, held, multi, lf);
    while r == More
      invariant fresh(s) && fresh(l) && fresh(l.buf) && fresh(l.folds) && fresh(l.folds.starts) && fresh(l.folds.ends)
      invariant s.l == l && s.h == h && l.Valid() && h.Valid() && h.maxLen == old(h.maxLen)
      invariant l.Cap() == MAX_LINE && !l.masked
      invariant Reached(scenes, cs, held, multi, lf, r)
      invariant scenes != [] && scenes[|scenes| - 1] == SceneOf(s)
      invariant scenes[0] == Scene(EMPTY, AddedTo(old(h.entries), [], h.maxLen), 0, input)
      invariant r == More ==> SceneOk(SceneOf(s)) && InputOk(l.input, held, lf)
      decreases r == More, |l.input|
    {
      SceneReady(SceneOf(s));
      ghost var b, buflen := SceneOf(s), l.buf.Length - 1;
      ghost var (k, n) := ReadKey(l.input, held);
      ghost var raw;
      r, raw := Feed(s, multi, held);
      cs := ReachedNext(scenes, cs, held, multi, lf, k, n, raw, buflen, SceneOf(s), r);
      scenes := scenes + [SceneOf(s)];
    }
    LastReached(scenes, cs, held, multi, lf, r);
  }
}
