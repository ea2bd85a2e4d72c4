/** From bytes to commands: linenoiseEditFeed reads one key and carries it out. */
module Keys {
  import opened Utf8
  import opened Lines
  import opened Paste
  import opened Editors
  import opened Recall
  import Histories
  import opened Zippers
  import C = Commands

  datatype Key =
    | Enter | Interrupt | EndOfInput
    | Left | Right | Home | End | Up | Down
    | Backspace | DeleteOrEnd | Delete
    | Swap | KillLine | KillToEnd | KillWord | ClearScreen
    | PasteStart
    | Char(bytes: Bytes)
    | Ignored      // an escape sequence without a meaning

  const TILDE: Byte := 0x7e

  predicate IsDigit(b: Byte) { 0x30 <= b <= 0x39 }

  // ---------- the keys as bytes ----------

  // How a terminal sends the key.
  function Sent(k: Key): Bytes {
    match k
    case Enter => [13] case Interrupt => [3] case EndOfInput => [] case Ignored => [ESC, 0x5a, 0x5a]
    case Left => [ESC, BRACKET, 0x44] case Right => [ESC, BRACKET, 0x43]
    case Home => [ESC, BRACKET, 0x48] case End => [ESC, BRACKET, 0x46]
    case Up => [ESC, BRACKET, 0x41] case Down => [ESC, BRACKET, 0x42]
    case Backspace => [127] case DeleteOrEnd => [4] case Delete => [ESC, BRACKET, 0x33, TILDE]
    case Swap => [20] case KillLine => [21] case KillToEnd => [11] case KillWord => [23] case ClearScreen => [12]
    case PasteStart => [ESC, BRACKET, 0x32, 0x30, 0x30, TILDE]
    case Char(bytes) => bytes
  }

  // The first bytes of control keys; any other starts a character.
  predicate IsControl(c: Byte) {
    || c == 13 || c == 3 || c == 127 || c == 8 || c == 4 || c == 20 || c == 2 || c == 6 || c == 16 || c == 14
    || c == 27 || c == 21 || c == 11 || c == 1 || c == 5 || c == 12 || c == 23
  }

  predicate IsCharKey(bytes: Bytes) {
    bytes != [] && !IsControl(bytes[0]) && ByteLen(bytes[0]) == |bytes|
  }

  // ---------- reading a key ----------

  // The digits that the parameter buffer still has room for.
  function Digits(s: Bytes, room: nat): (n: nat)
    ensures n <= |s| && n <= room
    ensures forall i :: 0 <= i < n ==> IsDigit(s[i])
    ensures n < |s| && n < room ==> !IsDigit(s[n])
  {
    if room > 0 && s != [] && IsDigit(s[0]) then 1 + Digits(s[1..], room - 1) else 0
  }

  const PARAM_SIZE := 8

  // A sequence ESC [ digits, of which s is what follows the bracket: its key, and how many bytes it takes.
  function ReadParam(s: Bytes): (r: (Key, nat))
    requires s != [] && IsDigit(s[0])
    ensures 0 < r.1 <= |s|
  {
    var n := 1 + Digits(s[1..], PARAM_SIZE - 1);
    if n == PARAM_SIZE || n == |s| then (Ignored, n)
    else if s[n] == TILDE && s[..n] == [0x33] then (Delete, n + 1)
    else if s[n] == TILDE && s[..n] == [0x32, 0x30, 0x30] then (PasteStart, n + 1)
    else (Ignored, n + 1)
  }

  // What the arrays hold that a key is read into: seq, for what follows ESC, and utf8, for a character.
  datatype Held = Held(escape: Bytes, character: Bytes)

  predicate HeldOk(h: Held) {
    |h.escape| == 3 && |h.character| == 4
  }

  // The cells of an array after s has been read into it: those that s does not reach keep what they held.
  function Filled(cells: Bytes, s: Bytes): (r: Bytes)
    ensures |r| == |cells|
    ensures forall i :: 0 <= i < |cells| ==> r[i] == if i < |s| then s[i] else cells[i]
  {
    if |s| < |cells| then s + cells[|s|..] else s[..|cells|]
  }

  function ReadEscape(s: Bytes, held: Held): (r: (Key, nat))
    requires s != [] && s[0] == ESC && HeldOk(held)
    ensures 0 < r.1 <= |s|
  {
    var cells := Filled(held.escape, s[1..]);
    var a, b := cells[0], cells[1];
    var n := if |s| < 3 then |s| else 3;
    if a == BRACKET && IsDigit(b) then
      if |s| < 3 then (Ignored, n)
      else
        var (k, m) := ReadParam(s[2..]);
        (k, 2 + m)
    else if a == BRACKET then
      ((match b
        case 0x41 => Up case 0x42 => Down case 0x43 => Right case 0x44 => Left
        case 0x48 => Home case 0x46 => End case _ => Ignored), n)
    else if a == 0x4f then
      ((match b case 0x48 => Home case 0x46 => End case _ => Ignored), n)
    else (Ignored, n)
  }

  /** The key that the input starts with, and how many bytes it takes. Where the input ends inside a key, the bytes
      that the code then does not read are those that its arrays held. */
  function ReadKey(s: Bytes, held: Held): (r: (Key, nat))
    requires HeldOk(held)
    ensures r.1 <= |s| && (s != [] ==> r.1 > 0)
  {
    if s == [] then (EndOfInput, 0)
    else
      match s[0]
      case 13 => (Enter, 1)
      case 3 => (Interrupt, 1)
      case 127 => (Backspace, 1)
      case 8 => (Backspace, 1)
      case 4 => (DeleteOrEnd, 1)
      case 20 => (Swap, 1)
      case 2 => (Left, 1)
      case 6 => (Right, 1)
      case 16 => (Up, 1)
      case 14 => (Down, 1)
      case 27 => ReadEscape(s, held)
      case 21 => (KillLine, 1)
      case 11 => (KillToEnd, 1)
      case 1 => (Home, 1)
      case 5 => (End, 1)
      case 12 => (ClearScreen, 1)
      case 23 => (KillWord, 1)
      case _ =>
        var n := ByteLen(s[0]);
        (Char(Filled(held.character, s)[..n]), if n <= |s| then n else |s|)
  }

  /** What a terminal sends for a key is read as that key, whatever it sends next. */
  lemma ReadOfSent(k: Key, rest: Bytes, held: Held)
    requires k.Char? ==> IsCharKey(k.bytes)
    requires k != EndOfInput && HeldOk(held)
    ensures ReadKey(Sent(k) + rest, held) == (k, |Sent(k)|)
  {
    hide ReadEscape, ReadParam, Digits;
    var s := Sent(k) + rest;
    if k.Char? {
      assert Filled(held.character, s)[..|k.bytes|] == k.bytes;
    } else if |Sent(k)| > 1 {
      EscapeOfSent(k, rest, held);
    }
  }

  /** The control keys, and the two sequences with ESC O: Ctrl-B and Ctrl-F move, Ctrl-P and Ctrl-N walk through the history,
      Ctrl-A and Ctrl-E go to the ends, Ctrl-H is Backspace. */
  lemma ControlKeys(rest: Bytes, held: Held)
    requires HeldOk(held)
    ensures ReadKey([0x02] + rest, held) == (Left, 1) && ReadKey([0x06] + rest, held) == (Right, 1)
    ensures ReadKey([0x10] + rest, held) == (Up, 1) && ReadKey([0x0E] + rest, held) == (Down, 1)
    ensures ReadKey([0x01] + rest, held) == (Home, 1) && ReadKey([0x05] + rest, held) == (End, 1)
    ensures ReadKey([0x08] + rest, held) == (Backspace, 1) && ReadKey([0x7F] + rest, held) == (Backspace, 1)
    ensures ReadKey([0x04] + rest, held) == (DeleteOrEnd, 1) && ReadKey([0x14] + rest, held) == (Swap, 1)
    ensures ReadKey([0x15] + rest, held) == (KillLine, 1) && ReadKey([0x0B] + rest, held) == (KillToEnd, 1)
    ensures ReadKey([0x17] + rest, held) == (KillWord, 1) && ReadKey([0x0C] + rest, held) == (ClearScreen, 1)
    ensures ReadKey([0x0D] + rest, held) == (Enter, 1) && ReadKey([0x03] + rest, held) == (Interrupt, 1)
  {
    hide ReadEscape, Filled;
  }

  lemma EscapeKeys(rest: Bytes, held: Held)
    requires HeldOk(held)
    ensures ReadKey([0x1B, 0x4F, 0x48] + rest, held) == (Home, 3) && ReadKey([0x1B, 0x4F, 0x46] + rest, held) == (End, 3)
    ensures ReadKey([0x1B, 0x5B, 0x41] + rest, held) == (Up, 3) && ReadKey([0x1B, 0x5B, 0x42] + rest, held) == (Down, 3)
    ensures ReadKey([0x1B, 0x5B, 0x43] + rest, held) == (Right, 3) && ReadKey([0x1B, 0x5B, 0x44] + rest, held) == (Left, 3)
    ensures ReadKey([0x1B, 0x5B, 0x48] + rest, held) == (Home, 3) && ReadKey([0x1B, 0x5B, 0x46] + rest, held) == (End, 3)
  {
    hide ReadParam;
    forall a: Byte, b: Byte ensures Filled(held.escape, ([0x1B, a, b] + rest)[1..])[0] == a
                                    && Filled(held.escape, ([0x1B, a, b] + rest)[1..])[1] == b {
    }
  }

  // No sequence ends the line.
  lemma EscapeGoesOn(s: Bytes, held: Held)
    requires s != [] && s[0] == ESC && HeldOk(held)
    ensures var k := ReadEscape(s, held).0; !k.Enter? && !k.Interrupt? && !k.EndOfInput? && !k.DeleteOrEnd? && !k.Char?
  {
    hide Filled, Digits;
  }

  lemma EscapeOfSent(k: Key, rest: Bytes, held: Held)
    requires !k.Char? && |Sent(k)| > 1 && HeldOk(held)
    ensures (Sent(k) + rest)[0] == ESC && ReadEscape(Sent(k) + rest, held) == (k, |Sent(k)|)
  {
    hide ReadParam, Digits;
    var s := Sent(k) + rest;
    if k == Delete || k == PasteStart {
      ParamOfSent(k, rest);
      assert s[2..] == Sent(k)[2..] + rest;
    }
  }

  lemma ParamIs(digits: Bytes, rest: Bytes)
    requires 0 < |digits| < PARAM_SIZE && forall i :: 0 <= i < |digits| ==> IsDigit(digits[i])
    ensures var s := digits + [TILDE] + rest;
            && 1 + Digits(s[1..], PARAM_SIZE - 1) == |digits| && s[..|digits|] == digits && s[|digits|] == TILDE
  {
    var s := digits + [TILDE] + rest;
    var n := Digits(s[1..], PARAM_SIZE - 1);
    assert forall i :: 0 <= i < |digits| ==> s[i] == digits[i];
    assert s[1..][|digits| - 1] == TILDE && !IsDigit(TILDE);
    assert forall i :: 0 <= i < |digits| - 1 ==> s[1..][i] == digits[i + 1];
  }

  lemma ParamOfSent(k: Key, rest: Bytes)
    requires k == Delete || k == PasteStart
    ensures ReadParam(Sent(k)[2..] + rest) == (k, |Sent(k)| - 2)
  {
    var digits := if k == Delete then [0x33] else [0x32, 0x30, 0x30];
    assert Sent(k)[2..] == digits + [TILDE];
    ParamIs(digits, rest);
  }

  // ---------- carrying it out ----------

  datatype Outcome = More | Accepted(line: Bytes) | Interrupted | Ended

  // What a key can change: the line, the history and the place in it, and the input that is left.
  datatype Scene = Scene(line: Line, entries: seq<Bytes>, index: int, input: Bytes)

  // What it does not change, and the length of the buffer.
  datatype Setting = Setting(cap: nat, buflen: nat, masked: bool, multi: bool)

  function WalkOf(b: Scene): Walk {
    Walk(b.entries, b.index, b.line.text)
  }

  // The keys that stand for a command on the line.
  predicate IsCommand(k: Key) {
    || k.Left? || k.Right? || k.Home? || k.End? || k.Backspace? || k.DeleteOrEnd? || k.Delete?
    || k.Swap? || k.KillLine? || k.KillToEnd? || k.KillWord?
  }

  function CommandOf(k: Key): C.Command
    requires IsCommand(k)
  {
    match k
    case Left => C.Left case Right => C.Right case Home => C.Home case End => C.End
    case Backspace => C.Backspace case DeleteOrEnd => C.Delete case Delete => C.Delete
    case Swap => C.Swap case KillLine => C.KillLine case KillToEnd => C.KillToEnd case KillWord => C.KillWord
  }

  // What the key makes of the line, for the keys that work on the line alone.
  ghost function Keyed(l: Line, k: Key, cap: nat): Line
    requires Ok(l)
  {
    if k.Char? then (if |l.text| + |k.bytes| <= cap then Inserted(l, k.bytes) else l)
    else if IsCommand(k) then C.Step(l, CommandOf(k), cap)
    else l
  }

  /** A typed character is an insertion of its code point. */
  lemma CharIsInsert(l: Line, r: Rune, cap: nat)
    requires Ok(l) && C.CommandOk(C.Insert(r), cap)
    ensures Keyed(l, Char(Encode1(r)), cap) == C.Step(l, C.Insert(r), cap)
  {
  }

  /** What the keys do to a row of atoms with the cursor between two of them. */
  lemma KeysOnRow(z: Zipper, cap: nat)
    requires ZOk(z)
    ensures Ok(LineOf(z)) && RowOk(z.left)
    ensures var l, r, m := z.left, z.right, |z.left| - 1;
            && Keyed(LineOf(z), Left, cap) == LineOf(if l == [] then z else Zipper(l[..m], [l[m]] + r))
            && Keyed(LineOf(z), Right, cap) == LineOf(if r == [] then z else Zipper(l + [r[0]], r[1..]))
            && Keyed(LineOf(z), Home, cap) == LineOf(Zipper([], l + r))
            && Keyed(LineOf(z), End, cap) == LineOf(Zipper(l + r, []))
            && Keyed(LineOf(z), Backspace, cap) == LineOf(if l == [] then z else Zipper(l[..m], r))
            && Keyed(LineOf(z), Delete, cap) == LineOf(if r == [] then z else Zipper(l, r[1..]))
            && Keyed(LineOf(z), DeleteOrEnd, cap) == LineOf(if r == [] then z else Zipper(l, r[1..]))
            && Keyed(LineOf(z), KillToEnd, cap) == LineOf(Zipper(l, []))
            && Keyed(LineOf(z), KillLine, cap) == LineOf(Zipper([], []))
            && Keyed(LineOf(z), KillWord, cap) == LineOf(Zipper(C.Skip(C.Skip(l, true), false), r))
            && Keyed(LineOf(z), Swap, cap) == LineOf(if l != [] && r != [] && l[m].Ch? && r[0].Ch?
                                                     then Zipper(l[..m] + [r[0], l[m]], r[1..]) else z)
            && Keyed(LineOf(z), ClearScreen, cap) == LineOf(z) && Keyed(LineOf(z), Ignored, cap) == LineOf(z)
  {
    hide *;
    MovesOnRow(z, cap);
    CutsOnRow(z, cap);
    OthersOnRow(z, cap);
  }

  lemma KeyedIs(l: Line, cap: nat)
    requires Ok(l)
    ensures Keyed(l, Left, cap) == C.Step(l, C.Left, cap) && Keyed(l, Right, cap) == C.Step(l, C.Right, cap)
    ensures Keyed(l, Home, cap) == C.Step(l, C.Home, cap) && Keyed(l, End, cap) == C.Step(l, C.End, cap)
    ensures Keyed(l, Backspace, cap) == C.Step(l, C.Backspace, cap) && Keyed(l, Delete, cap) == C.Step(l, C.Delete, cap)
    ensures Keyed(l, DeleteOrEnd, cap) == C.Step(l, C.Delete, cap) && Keyed(l, Swap, cap) == C.Step(l, C.Swap, cap)
    ensures Keyed(l, KillToEnd, cap) == C.Step(l, C.KillToEnd, cap) && Keyed(l, KillLine, cap) == C.Step(l, C.KillLine, cap)
    ensures Keyed(l, KillWord, cap) == C.Step(l, C.KillWord, cap)
    ensures Keyed(l, ClearScreen, cap) == Keyed(l, Ignored, cap) == l
  {
    hide Ok, C.Step, Keyed, CommandOf;
    Commands();
    KeyedStep(l, Left, cap);
    KeyedStep(l, Right, cap);
    KeyedStep(l, Home, cap);
    KeyedStep(l, End, cap);
    KeyedStep(l, Backspace, cap);
    KeyedStep(l, Delete, cap);
    KeyedStep(l, DeleteOrEnd, cap);
    KeyedStep(l, Swap, cap);
    KeyedStep(l, KillToEnd, cap);
    KeyedStep(l, KillLine, cap);
    KeyedStep(l, KillWord, cap);
    KeyedStep(l, ClearScreen, cap);
    KeyedStep(l, Ignored, cap);
  }

  lemma Commands()
    ensures CommandOf(Left) == C.Left && CommandOf(Right) == C.Right && CommandOf(Home) == C.Home && CommandOf(End) == C.End
    ensures CommandOf(Backspace) == C.Backspace && CommandOf(Delete) == CommandOf(DeleteOrEnd) == C.Delete
    ensures CommandOf(Swap) == C.Swap && CommandOf(KillToEnd) == C.KillToEnd
    ensures CommandOf(KillLine) == C.KillLine && CommandOf(KillWord) == C.KillWord
  {}

  lemma KeyedStep(l: Line, k: Key, cap: nat)
    requires Ok(l) && !k.Char?
    ensures Keyed(l, k, cap) == if IsCommand(k) then C.Step(l, CommandOf(k), cap) else l
  {
    hide Ok, C.Step, CommandOf;
  }

  lemma MovesOnRow(z: Zipper, cap: nat)
    requires ZOk(z)
    ensures Ok(LineOf(z))
    ensures var l, r, m := z.left, z.right, |z.left| - 1;
            && Keyed(LineOf(z), Left, cap) == LineOf(if l == [] then z else Zipper(l[..m], [l[m]] + r))
            && Keyed(LineOf(z), Right, cap) == LineOf(if r == [] then z else Zipper(l + [r[0]], r[1..]))
            && Keyed(LineOf(z), Home, cap) == LineOf(Zipper([], l + r))
            && Keyed(LineOf(z), End, cap) == LineOf(Zipper(l + r, []))
  {
    hide *;
    C.LineOfOk(z);
    KeyedIs(LineOf(z), cap);
    C.RowStepMeans(z, cap);
    C.LeftRefines(z, cap);
    C.RightRefines(z, cap);
    C.HomeEndRefine(z, cap);
  }

  lemma CutsOnRow(z: Zipper, cap: nat)
    requires ZOk(z)
    ensures Ok(LineOf(z))
    ensures var l, r, m := z.left, z.right, |z.left| - 1;
            && Keyed(LineOf(z), Backspace, cap) == LineOf(if l == [] then z else Zipper(l[..m], r))
            && Keyed(LineOf(z), Delete, cap) == LineOf(if r == [] then z else Zipper(l, r[1..]))
            && Keyed(LineOf(z), DeleteOrEnd, cap) == LineOf(if r == [] then z else Zipper(l, r[1..]))
            && Keyed(LineOf(z), KillToEnd, cap) == LineOf(Zipper(l, []))
            && Keyed(LineOf(z), KillLine, cap) == LineOf(Zipper([], []))
  {
    hide *;
    C.LineOfOk(z);
    KeyedIs(LineOf(z), cap);
    C.RowStepMeans(z, cap);
    C.BackspaceRefines(z, cap);
    C.DeleteRefines(z, cap);
    C.KillToEndRefines(z, cap);
    C.KillLineRefines(z, cap);
  }

  lemma OthersOnRow(z: Zipper, cap: nat)
    requires ZOk(z)
    ensures Ok(LineOf(z)) && RowOk(z.left)
    ensures var l, r, m := z.left, z.right, |z.left| - 1;
            && Keyed(LineOf(z), KillWord, cap) == LineOf(Zipper(C.Skip(C.Skip(l, true), false), r))
            && Keyed(LineOf(z), Swap, cap) == LineOf(if l != [] && r != [] && l[m].Ch? && r[0].Ch?
                                                     then Zipper(l[..m] + [r[0], l[m]], r[1..]) else z)
            && Keyed(LineOf(z), ClearScreen, cap) == LineOf(z) && Keyed(LineOf(z), Ignored, cap) == LineOf(z)
  {
    hide *;
    C.LineOfOk(z);
    KeyedIs(LineOf(z), cap);
    C.RowStepMeans(z, cap);
    C.SwapStepMeans(z, cap);
    C.KillWordRefines(z, cap);
    C.SwapRefines(z, cap);
  }

  // The same on the editor.
  method CarryOut(l: Editor, k: Key)
    requires l.Valid() && Ok(l.View())
    requires !k.Up? && !k.Down? && !k.PasteStart?
    modifies l, l.buf, l.folds, l.folds.starts, l.folds.ends
    ensures l.Valid() && l.Cap() == old(l.Cap()) && l.input == old(l.input) && (l.buf == old(l.buf) || fresh(l.buf))
    ensures l.View() == Keyed(old(l.View()), k, l.Cap())
  {
    hide WF, Fine, FoldsBound, StepLeft, StepRight, MovedLeft, MovedRight, DeletedLeft, DeletedRight,
      DeletedWord, Swapped, KilledToEnd, Inserted, CanStepLeft, CanStepRight, SwapReady, C.Step;
    C.StepMeans(l.View(), l.Cap());
    C.SwapLineStep(l.View(), l.Cap());
    match k
    case Backspace => l.Backspace();
    case DeleteOrEnd =>
      if l.len > 0 {
        l.Delete();
      } else {
        C.DeleteNothing(l.View(), l.Cap());
      }
    case Delete => l.Delete();
    case Swap => l.Swap();
    case Left => l.MoveLeft();
    case Right => l.MoveRight();
    case Home => l.MoveHome();
    case End => l.MoveEnd();
    case KillLine => l.KillLine();
    case KillToEnd => l.KillToEnd();
    case KillWord => l.DeletePrevWord();
    case Char(bytes) => var ok := l.InsertNoRefresh(bytes);
    case _ =>
  }

  /** What a key makes of a scene whose input is what follows the key's bytes; raw is what a paste reads. */
  ghost predicate Fed(b: Scene, k: Key, raw: Bytes, g: Setting, a: Scene, r: Outcome)
    requires Ok(b.line) && WalkOk(WalkOf(b))
  {
    match k
    case PasteStart =>
      && IsBody(b.input, raw, a.input)
      && a == b.(line := Pasted(b.line, raw, g.cap, g.masked), input := a.input) && r == More
    case Up => FedMove(b, true, g, a) && r == More
    case Down => FedMove(b, false, g, a) && r == More
    case Enter =>
      && a == b.(line := if g.multi then b.line.(pos := |b.line.text|) else b.line, entries := b.entries[..|b.entries| - 1])
      && r == Accepted(Histories.CString(b.line.text))
    case Interrupt => a == b && r == Interrupted
    case EndOfInput => a == b && r == Ended
    case DeleteOrEnd =>
      if b.line.text == [] then a == b.(entries := b.entries[..|b.entries| - 1]) && r == Ended
      else a == b.(line := Keyed(b.line, k, g.cap)) && r == More
    case _ => a == b.(line := Keyed(b.line, k, g.cap)) && r == More
  }

  // Up or Down: the walk moves, and a new entry comes in with the fold that it needs.
  ghost predicate FedMove(b: Scene, prev: bool, g: Setting, a: Scene)
    requires WalkOk(WalkOf(b))
  {
    && WalkOf(a) == MoveTaken(WalkOf(b), prev, g.cap, g.buflen) && a.input == b.input
    && (if a.index == b.index then a.line == b.line else WF(a.line.text) && a.line == Recalled(a.line.text, g.masked))
  }

  ghost function SceneOf(s: Session): Scene
    requires s.l.len <= s.l.buf.Length
    reads s, s.h, s.l, s.l.buf, s.l.folds
  {
    Scene(s.l.View(), s.h.entries, s.index, s.l.input)
  }

  ghost function SettingOf(s: Session, multi: bool): Setting
    requires s.l.buf.Length > 0
    reads s.l
  {
    Setting(s.l.Cap(), s.l.buf.Length - 1, s.l.masked, multi)
  }

  // A text that has a NUL behind it is cut at the first NUL, there or before.
  lemma {:induction false} CStringStops(s: Bytes, n: nat)
    requires n < |s| && s[n] == 0
    ensures Histories.CString(s) == Histories.CString(s[..n])
  {
    if n > 0 {
      CStringStops(s[1..], n - 1);
      assert s[1..][..n - 1] == s[..n][1..];
    }
  }

  // Enter, the end of the input, Ctrl-C, and Ctrl-D on an empty line.
  method Leave(s: Session, k: Key, multi: bool) returns (r: Outcome)
    requires s.l.Valid() && s.h.Valid() && WalkOk(s.Walked()) && Ok(s.l.View())
    requires k.Enter? || k.Interrupt? || k.EndOfInput? || (k.DeleteOrEnd? && s.l.len == 0)
    modifies s.h, s.l
    ensures s.l.Valid() && s.h.Valid() && s.l.Cap() == old(s.l.Cap()) && s.h.maxLen == old(s.h.maxLen)
    ensures s.l.buf == old(s.l.buf)
    ensures Fed(old(SceneOf(s)), k, [], old(SettingOf(s, multi)), SceneOf(s), r)
  {
    hide WF, Fine, FoldsBound, IsBody, Pasted, MoveTaken, Keyed, Recalled;
    match k
    case EndOfInput => r := Ended;
    case Interrupt => r := Interrupted;
    case DeleteOrEnd =>
      s.h.entries := s.h.entries[..|s.h.entries| - 1];
      r := Ended;
    case Enter =>
      s.h.entries := s.h.entries[..|s.h.entries| - 1];
      if multi {
        s.l.MoveEnd();
      }
      CStringStops(s.l.buf[..], s.l.len);
      r := Accepted(Histories.CString(s.l.buf[..]));
  }

  // Up and Down.
  method Walking(s: Session, prev: bool, ghost multi: bool)
    requires s.l.Valid() && s.h.Valid() && WalkOk(s.Walked()) && Ok(s.l.View()) && s.Ready(prev)
    modifies s, s.h, s.l, s.l.buf, s.l.folds, s.l.folds.starts, s.l.folds.ends
    ensures s.l.Valid() && s.h.Valid() && s.l.Cap() == old(s.l.Cap()) && s.h.maxLen == old(s.h.maxLen)
    ensures s.l.buf == old(s.l.buf) || fresh(s.l.buf)
    ensures FedMove(old(SceneOf(s)), prev, old(SettingOf(s, multi)), SceneOf(s))
  {
    hide WF, Fine, FoldsBound, MoveTaken, Recalled, Taken;
    MovedIn(s.Walked(), prev, s.l.Cap(), s.l.buf.Length - 1);
    s.HistoryNext(prev);
  }

  // The keys that work on the line alone.
  method Working(s: Session, k: Key, ghost multi: bool)
    requires s.l.Valid() && s.h.Valid() && WalkOk(s.Walked()) && Ok(s.l.View())
    requires IsCommand(k) || k.Char? || k.Ignored? || k.ClearScreen?
    requires k.DeleteOrEnd? ==> s.l.len > 0
    modifies s.l, s.l.buf, s.l.folds, s.l.folds.starts, s.l.folds.ends
    ensures s.l.Valid() && s.h.Valid() && s.l.Cap() == old(s.l.Cap())
    ensures s.l.buf == old(s.l.buf) || fresh(s.l.buf)
    ensures Fed(old(SceneOf(s)), k, [], old(SettingOf(s, multi)), SceneOf(s), More)
  {
    hide WF, Fine, FoldsBound, IsBody, Pasted, MoveTaken, Keyed, Recalled, FedMove;
    CarryOut(s.l, k);
  }

  method Pasting(s: Session, ghost multi: bool) returns (ghost raw: Bytes)
    requires s.l.Valid() && s.h.Valid() && WalkOk(s.Walked()) && Ok(s.l.View())
    modifies s.l, s.l.buf, s.l.folds, s.l.folds.starts, s.l.folds.ends
    ensures s.l.Valid() && s.h.Valid() && s.l.Cap() == old(s.l.Cap())
    ensures s.l.buf == old(s.l.buf) || fresh(s.l.buf)
    ensures Fed(old(SceneOf(s)), PasteStart, raw, old(SettingOf(s, multi)), SceneOf(s), More)
  {
    hide WF, Fine, FoldsBound, IsBody, Pasted, MoveTaken, Keyed, Recalled, FedMove;
    raw := s.l.EditPaste();
  }

  // The key, once it is read.
  method Dispatch(s: Session, k: Key, multi: bool) returns (r: Outcome, ghost raw: Bytes)
    requires s.l.Valid() && s.h.Valid() && WalkOk(s.Walked()) && Ok(s.l.View())
    requires (k.Up? ==> s.Ready(true)) && (k.Down? ==> s.Ready(false))
    modifies s, s.h, s.l, s.l.buf, s.l.folds, s.l.folds.starts, s.l.folds.ends
    ensures s.l.Valid() && s.h.Valid() && s.l.Cap() == old(s.l.Cap()) && s.h.maxLen == old(s.h.maxLen)
    ensures s.l.buf == old(s.l.buf) || fresh(s.l.buf)
    ensures Fed(old(SceneOf(s)), k, raw, old(SettingOf(s, multi)), SceneOf(s), r)
  {
    hide Fed, FedMove, WF, Fine, FoldsBound, Taken;
    FedByMove(SceneOf(s), SettingOf(s, multi));
    raw := [];
    r := More;
    match k
    case EndOfInput => r := Leave(s, k, multi);
    case Enter => r := Leave(s, k, multi);
    case Interrupt => r := Leave(s, k, multi);
    case Up => Walking(s, true, multi);
    case Down => Walking(s, false, multi);
    case PasteStart => raw := Pasting(s, multi);
    case DeleteOrEnd =>
      if s.l.len == 0 {
        r := Leave(s, k, multi);
      } else {
        Working(s, k, multi);
      }
    case _ => Working(s, k, multi);
  }

  lemma FedByMove(b: Scene, g: Setting)
    requires Ok(b.line) && WalkOk(WalkOf(b))
    ensures forall a: Scene :: FedMove(b, true, g, a) ==> Fed(b, Up, [], g, a, More)
    ensures forall a: Scene :: FedMove(b, false, g, a) ==> Fed(b, Down, [], g, a, More)
  {
    hide FedMove;
  }

  /** linenoiseEditFeed, for a terminal, without completion: one key is read and carried out. */
  method Feed(s: Session, multi: bool, held: Held) returns (r: Outcome, ghost raw: Bytes)
    requires HeldOk(held) && s.l.Valid() && s.h.Valid() && WalkOk(s.Walked()) && Ok(s.l.View())
    requires ReadKey(s.l.input, held).0.Up? ==> s.Ready(true)
    requires ReadKey(s.l.input, held).0.Down? ==> s.Ready(false)
    modifies s, s.h, s.l, s.l.buf, s.l.folds, s.l.folds.starts, s.l.folds.ends
    ensures s.l.Valid() && s.h.Valid() && s.l.Cap() == old(s.l.Cap()) && s.h.maxLen == old(s.h.maxLen)
    ensures s.l.buf == old(s.l.buf) || fresh(s.l.buf)
    ensures var (k, n) := ReadKey(old(s.l.input), held);
            Fed(old(SceneOf(s)).(input := old(s.l.input)[n..]), k, raw, old(SettingOf(s, multi)), SceneOf(s), r)
  {
    hide WF, Fine, FoldsBound, MoveTaken, Keyed, Recalled, ReadKey, FedMove, Fed;
    var (k, n) := ReadKey(s.l.input, held);
    s.l.input := s.l.input[n..];
    r, raw := Dispatch(s, k, multi);
  }
}
