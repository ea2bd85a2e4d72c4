/** Bracketed paste: where it ends, the cap on its size, the newlines it is given, and whether it is folded. */
module Paste {
  import opened Utf8

  const END: Bytes := [0x1b, 0x5b, 0x32, 0x30, 0x31, 0x7e]    // ESC [ 2 0 1 ~
  const PASTE_MAX: nat := 1024 * 1024
  const FOLD_THRESHOLD: nat := 200

  // ---------- the terminator ----------

  ghost predicate EndAt(s: Bytes, i: nat) {
    i + |END| <= |s| && s[i..i + |END|] == END
  }

  // s ends with the first m bytes of the terminator.
  ghost predicate EndsWith(s: Bytes, m: nat) {
    m <= |s| && m <= |END| && s[|s| - m..] == END[..m]
  }

  // The state of the matcher after it has read s: collected is what it has taken for text, and match, the
  // number of terminator bytes held back, is as large as it can be.
  ghost predicate Matching(s: Bytes, collected: Bytes, match_: nat) {
    && match_ < |END| && collected + END[..match_] == s
    && (forall m: nat :: EndsWith(s, m) ==> m <= match_)
    && (forall i: nat :: !EndAt(s, i))
  }

  lemma EndAtIsEndsWith(s: Bytes, i: nat)
    ensures EndAt(s, i) ==> EndsWith(s[..i + |END|], |END|)
  {
    if EndAt(s, i) {
      assert s[..i + |END|][i..] == s[i..i + |END|];
    }
  }

  // A longer suffix of s + [c] that starts the terminator ends with c.
  lemma EndsWithLast(s: Bytes, c: Byte, m: nat)
    requires EndsWith(s + [c], m) && m > 0
    ensures EndsWith(s, m - 1) && c == END[m - 1]
  {
    var t := s + [c];
    assert t[|t| - m..][m - 1] == END[..m][m - 1];
    assert s[|s| - (m - 1)..] == t[|t| - m..][..m - 1];
    assert END[..m][..m - 1] == END[..m - 1];
  }

  // ESC is only the first byte of the terminator, so a shorter match is never nested in a longer one.
  lemma NoBorder(s: Bytes, m: nat, n: nat)
    requires EndsWith(s, m) && EndsWith(s, n) && n < |END|
    ensures m == 0 || m >= n
  {
    if 0 < m < n {
      EndsWithByte(s, n, n - m);
      EndsWithByte(s, m, 0);
    }
  }

  lemma EndsWithByte(s: Bytes, n: nat, j: nat)
    requires EndsWith(s, n) && j < n
    ensures s[|s| - n + j] == END[j]
  {
    assert s[|s| - n..][j] == END[..n][j];
  }

  // s is the text followed by the first terminator in it.
  ghost predicate CompletedBy(s: Bytes, text: Bytes) {
    s == text + END && forall i: nat :: EndAt(s, i) ==> i == |text|
  }

  lemma MatchStart()
    ensures Matching([], [], 0)
  {
    assert [] + END[..0] == [];
  }

  // The next byte carries the match on.
  lemma MatchMore(s: Bytes, collected: Bytes, k: nat, c: Byte)
    requires Matching(s, collected, k) && c == END[k]
    ensures k + 1 < |END| ==> Matching(s + [c], collected, k + 1)
    ensures k + 1 == |END| ==> CompletedBy(s + [c], collected)
  {
    var t := s + [c];
    assert END[..k] + [c] == END[..k + 1];
    assert collected + END[..k + 1] == t;
    assert t[|t| - (k + 1)..] == END[..k + 1];
    forall m: nat | EndsWith(t, m) ensures m <= k + 1 {
      if m > 0 { EndsWithLast(s, c, m); }
    }
    NewEnd(s, c);
  }

  // A terminator that s does not hold can only be the end of s + [c].
  lemma NewEnd(s: Bytes, c: Byte)
    requires forall i: nat :: !EndAt(s, i)
    ensures forall i: nat :: EndAt(s + [c], i) ==> i + |END| == |s| + 1 && EndsWith(s + [c], |END|)
  {
    var t := s + [c];
    forall i: nat | EndAt(t, i) ensures i + |END| == |s| + 1 && EndsWith(t, |END|) {
      EndAtInPrefix(s, c, i);
      EndAtIsEndsWith(t, i);
      assert t[..|t|] == t;
    }
  }

  lemma EndAtInPrefix(s: Bytes, c: Byte, i: nat)
    ensures EndAt(s + [c], i) && i + |END| <= |s| ==> EndAt(s, i)
  {
    if i + |END| <= |s| { assert s[i..i + |END|] == (s + [c])[i..i + |END|]; }
  }

  // The next byte breaks the match: what was held back is text, and so is the byte unless it is ESC.
  lemma MatchBroken(s: Bytes, collected: Bytes, k: nat, c: Byte)
    requires Matching(s, collected, k) && c != END[k]
    ensures c == END[0] ==> k > 0 && Matching(s + [c], collected + END[..k], 1)
    ensures c != END[0] ==> Matching(s + [c], collected + END[..k] + [c], 0)
  {
    var t := s + [c];
    var k' := if c == END[0] then 1 else 0;
    forall m: nat | EndsWith(t, m) ensures m <= k' {
      if m > 0 {
        EndsWithLast(s, c, m);
        assert s[|s| - k..] == END[..k];
        NoBorder(s, m - 1, k);
      }
    }
    NewEnd(s, c);
    assert END[..1] == [END[0]];
    assert END[..0] == [];
    assert collected + END[..k] + [c] + [] == collected + END[..k] + [c];
  }

  // What a paste read from this input holds: everything before the first terminator; without one,
  // everything but the terminator bytes that were still held back when the input ended.
  ghost predicate IsBody(input: Bytes, body: Bytes, rest: Bytes) {
    || (&& body + END + rest == input
        && (forall i: nat :: EndAt(input, i) ==> i >= |body|))
    || (&& rest == []
        && (forall i: nat :: !EndAt(input, i))
        && exists k: nat :: Matching(input, body, k))
  }

  lemma NextByte(consumed: Bytes, input: Bytes, all: Bytes)
    requires consumed + input == all && input != []
    ensures consumed + [input[0]] + input[1..] == all
  {}

  lemma NoneHeldBack(body: Bytes)
    ensures body + END[..0] == body
  {}

  lemma NoTerminator(s: Bytes, body: Bytes, k: nat)
    requires Matching(s, body, k)
    ensures IsBody(s, body, [])
  {}

  // The terminator is complete: it is the first one, wherever the input goes on to.
  lemma Terminated(s: Bytes, body: Bytes, rest: Bytes)
    requires CompletedBy(s, body)
    ensures IsBody(s + rest, body, rest)
  {
    forall i: nat | EndAt(s + rest, i) ensures i >= |body| {
      if i + |END| <= |s| {
        assert s[i..i + |END|] == (s + rest)[i..i + |END|];
        assert EndAt(s, i);
      }
    }
  }

  /** There is one way to read a paste. */
  lemma BodyUnique(input: Bytes, b1: Bytes, r1: Bytes, b2: Bytes, r2: Bytes)
    requires IsBody(input, b1, r1) && IsBody(input, b2, r2)
    ensures b1 == b2 && r1 == r2
  {
    if exists i: nat :: EndAt(input, i) {
      BodyBeforeEnd(input, b1, r1);
      BodyBeforeEnd(input, b2, r2);
    } else {
      BodyNoEnd(input, b1, r1);
      BodyNoEnd(input, b2, r2);
      var k1: nat :| Matching(input, b1, k1);
      var k2: nat :| Matching(input, b2, k2);
      assert input[|input| - k1..] == END[..k1] && EndsWith(input, k1);
      assert input[|input| - k2..] == END[..k2] && EndsWith(input, k2);
      assert b1 == input[..|input| - k1] && b2 == input[..|input| - k2];
    }
  }

  lemma BodyBeforeEnd(input: Bytes, body: Bytes, rest: Bytes)
    requires IsBody(input, body, rest) && exists i: nat :: EndAt(input, i)
    ensures body + END + rest == input && EndAt(input, |body|)
    ensures forall i: nat :: EndAt(input, i) ==> i >= |body|
    ensures body == input[..|body|] && rest == input[|body| + |END|..]
  {
    assert input[|body|..|body| + |END|] == END;
  }

  lemma BodyNoEnd(input: Bytes, body: Bytes, rest: Bytes)
    requires IsBody(input, body, rest) && !exists i: nat :: EndAt(input, i)
    ensures rest == [] && exists k: nat :: Matching(input, body, k)
  {
    if body + END + rest == input {
      assert input[|body|..|body| + |END|] == END;
      assert EndAt(input, |body|);
    }
  }

  // ---------- newlines ----------

  /** CR and CRLF become LF. */
  function Normal(s: Bytes): (n: Bytes) {
    if s == [] then []
    else if s[0] == CR then [LF] + Normal(if |s| > 1 && s[1] == LF then s[2..] else s[1..])
    else [s[0]] + Normal(s[1..])
  }

  lemma {:induction false} NormalCopies(a: Bytes, b: Bytes)
    requires forall i :: 0 <= i < |a| ==> a[i] != CR
    ensures Normal(a + b) == a + Normal(b)
  {
    if a == [] {
      assert a + b == b;
    } else {
      NormalCopies(a[1..], b);
      assert (a + b)[1..] == a[1..] + b;
    }
  }

  /** The result has no CR, is no longer than the text, and is empty only if the text is; a text without CR
      is its own result. */
  lemma {:induction false} NormalIsClean(s: Bytes)
    ensures forall i :: 0 <= i < |Normal(s)| ==> Normal(s)[i] != CR
    ensures |Normal(s)| <= |s| && (Normal(s) == [] <==> s == [])
    ensures (forall i :: 0 <= i < |s| ==> s[i] != CR) ==> Normal(s) == s
  {
    if s != [] {
      if s[0] == CR {
        NormalIsClean(if |s| > 1 && s[1] == LF then s[2..] else s[1..]);
      } else {
        NormalIsClean(s[1..]);
        assert (forall i :: 0 <= i < |s| ==> s[i] != CR) ==> s == [s[0]] + s[1..];
      }
    }
  }

  datatype Newline = Cr | CrLf | Lf

  function Ending(n: Newline): Bytes {
    match n case Cr => [CR] case CrLf => [CR, LF] case Lf => [LF]
  }

  // Lines, each with the newline that follows it, and a last line without one.
  datatype Rows = Last(row: Bytes) | Row(row: Bytes, newline: Newline, rest: Rows)

  ghost predicate RowsOk(rows: Rows) {
    && (forall i :: 0 <= i < |rows.row| ==> rows.row[i] != CR && rows.row[i] != LF)
    && (rows.Row? ==>
          RowsOk(rows.rest) && !(rows.newline.Cr? && rows.rest.Row? && rows.rest.row == [] && rows.rest.newline.Lf?))
  }

  function Written(rows: Rows): Bytes {
    match rows
    case Last(row) => row
    case Row(row, newline, rest) => row + Ending(newline) + Written(rest)
  }

  function WrittenUnix(rows: Rows): Bytes {
    match rows
    case Last(row) => row
    case Row(row, newline, rest) => row + [LF] + WrittenUnix(rest)
  }

  /** Lines ended by any mix of CR, CRLF and LF come out ended by LF, line for line. (A CR followed by an
      empty line that ends in LF is the same bytes as a CRLF, so that mix is not counted as such.) */
  lemma {:induction false} NormalKeepsLines(rows: Rows)
    requires RowsOk(rows)
    ensures Normal(Written(rows)) == WrittenUnix(rows)
  {
    match rows
    case Last(row) =>
      NormalIsClean(row);
    case Row(row, newline, rest) =>
      NormalKeepsLines(rest);
      WrittenStart(rest);
      NormalAfterRow(row, newline, Written(rest));
  }

  lemma NormalAfterRow(row: Bytes, newline: Newline, t: Bytes)
    requires forall i :: 0 <= i < |row| ==> row[i] != CR
    requires newline.Cr? ==> t == [] || t[0] != LF
    ensures Normal(row + Ending(newline) + t) == row + [LF] + Normal(t)
  {
    var u := Ending(newline) + t;
    assert u[|Ending(newline)|..] == t;
    assert Normal(u) == [LF] + Normal(t);
    Assoc(row, Ending(newline), t);
    NormalCopies(row, u);
    Assoc(row, [LF], Normal(t));
  }

  lemma WrittenStart(rows: Rows)
    requires RowsOk(rows)
    ensures Written(rows) != [] && Written(rows)[0] == LF ==> rows.Row? && rows.row == [] && rows.newline.Lf?
  {
    if rows.row != [] { assert Written(rows)[0] == rows.row[0]; }
  }

  // The same rule on runes.
  function NormalRunes(rs: seq<Rune>): seq<Rune> {
    if rs == [] then []
    else if rs[0] == CR then [LF] + NormalRunes(if |rs| > 1 && rs[1] == LF then rs[2..] else rs[1..])
    else [rs[0]] + NormalRunes(rs[1..])
  }

  /** On a well-formed text the rule splits no character: it is the same rule on its runes. */
  lemma {:induction false} NormalOfRunes(rs: seq<Rune>)
    ensures Normal(Encode(rs)) == Encode(NormalRunes(rs))
    decreases |rs|
  {
    hide Encode1, Normal;
    if rs == [] {
      NormalOfNone();
    } else {
      var rest := Encode(rs[1..]);
      NormalFirst(rs[0], rest);
      if rs[0] == CR {
        LfFirst(rs[1..]);
        var rs' := if |rs| > 1 && rs[1] == LF then rs[2..] else rs[1..];
        NormalOfRunes(rs');
        assert |rs| > 1 ==> rs[1..][1..] == rs[2..];
        EncodeCons(LF, NormalRunes(rs'));
        AsciiOne(LF);
      } else {
        NormalOfRunes(rs[1..]);
        EncodeCons(rs[0], NormalRunes(rs[1..]));
      }
    }
  }

  lemma NormalOfNone()
    ensures Normal([]) == []
  {}

  lemma EncodeCons(r: Rune, rs: seq<Rune>)
    ensures Encode([r] + rs) == Encode1(r) + Encode(rs)
  {
    hide Encode1;
    assert ([r] + rs)[1..] == rs;
  }

  lemma AsciiOne(b: Byte)
    requires b < 0x80
    ensures Encode1(b) == [b]
  {}

  // A text starts with the byte LF exactly when its first rune is LF.
  lemma LfFirst(rs: seq<Rune>)
    ensures var t := Encode(rs);
            && (t != [] && t[0] == LF <==> rs != [] && rs[0] == LF)
            && (rs != [] && rs[0] == LF ==> t[1..] == Encode(rs[1..]))
  {
    if rs != [] {
      assert Encode(rs)[0] == Encode1(rs[0])[0];
    }
  }

  lemma NormalFirst(r: Rune, t: Bytes)
    ensures r == CR ==> Normal(Encode1(r) + t) == [LF] + Normal(if t != [] && t[0] == LF then t[1..] else t)
    ensures r != CR ==> Normal(Encode1(r) + t) == Encode1(r) + Normal(t)
  {
    if r == CR {
      var s := Encode1(r) + t;
      assert Encode1(r) == [CR];
      assert s[1..] == t;
      assert |s| > 1 ==> s[2..] == t[1..];
    } else {
      NormalCopies(Encode1(r), t);
    }
  }

  /** A well-formed text stays well formed. */
  lemma NormalWF(s: Bytes)
    requires WF(s)
    ensures WF(Normal(s)) && Runes(Normal(s)) == NormalRunes(Runes(s))
  {
    hide Encode, Normal;
    NormalOfRunes(Runes(s));
    RunesUnique(NormalRunes(Runes(s)));
  }

  // The state of the normalising loop: done is written, the text from r on is still to be read.
  ghost predicate Normalising(done: Bytes, was: Bytes, r: nat) {
    r <= |was| && done + Normal(was[r..]) == Normal(was)
  }

  lemma NormalisingStart(was: Bytes)
    ensures Normalising([], was, 0)
  {
    assert was[0..] == was;
    assert [] + Normal(was) == Normal(was);
  }

  lemma NormalisingNext(done: Bytes, was: Bytes, r: nat)
    requires Normalising(done, was, r) && r < |was|
    ensures was[r] == CR && r + 1 < |was| && was[r+1] == LF ==> Normalising(done + [LF], was, r + 2)
    ensures was[r] == CR && !(r + 1 < |was| && was[r+1] == LF) ==> Normalising(done + [LF], was, r + 1)
    ensures was[r] != CR ==> Normalising(done + [was[r]], was, r + 1)
  {
    var t := was[r..];
    assert t[1..] == was[r+1..];
    if r + 1 < |was| { assert t[2..] == was[r+2..]; }
    Assoc(done, [LF], Normal(t[1..]));
    Assoc(done, [t[0]], Normal(t[1..]));
    if |t| > 1 { Assoc(done, [LF], Normal(t[2..])); }
  }

  lemma NormalisingEnd(done: Bytes, was: Bytes)
    requires Normalising(done, was, |was|)
    ensures done == Normal(was)
  {
    assert was[|was|..] == [] && done + [] == done;
  }

  /** The in-place loop of linenoiseEditPaste. */
  method Normalise(buf: array<Byte>, len: nat) returns (w: nat)
    requires len <= buf.Length
    modifies buf
    ensures w <= len && buf[..w] == Normal(old(buf[..len]))
  {
    hide Normalising, Normal;
    ghost var was := buf[..len];
    ghost var done: Bytes := [];
    var r := 0;
    w := 0;
    NormalisingStart(was);
    while r < len
      invariant w <= r <= len && buf[..w] == done
      invariant forall i :: r <= i < len ==> buf[i] == was[i]
      invariant Normalising(done, was, r)
    {
      NormalisingNext(done, was, r);
      done := done + [if buf[r] == CR then LF else buf[r]];
      if buf[r] == CR {
        var skip := if r + 1 < len && buf[r+1] == LF then 2 else 1;
        buf[w] := LF;
        r := r + skip;
      } else {
        buf[w] := buf[r];
        r := r + 1;
      }
      w := w + 1;
    }
    NormalisingEnd(done, was);
  }

  // ---------- folding ----------

  ghost predicate HasLf(s: Bytes) {
    exists i :: 0 <= i < |s| && s[i] == LF
  }

  /** shouldFoldText */
  ghost predicate ShouldFold(s: Bytes) {
    HasLf(s) || |s| >= FOLD_THRESHOLD
  }

  method ShouldFoldText(s: Bytes) returns (yes: bool)
    ensures yes <==> ShouldFold(s)
  {
    var j := 0;
    while j < |s|
      invariant j <= |s| && forall i :: 0 <= i < j ==> s[i] != LF
    {
      if s[j] == LF { return true; }
      j := j + 1;
    }
    return |s| >= FOLD_THRESHOLD;
  }

  // ---------- the temporary buffer ----------

  class PasteBuffer {
    var buf: array<Byte>    // of `cap` bytes; none at first
    var len: nat

    ghost predicate Valid()
      reads this
    {
      len <= buf.Length <= PASTE_MAX
    }

    ghost function Text(): Bytes
      requires Valid()
      reads this, buf
    {
      buf[..len]
    }

    constructor ()
      ensures Valid() && Text() == [] && fresh(buf)
    {
      buf := new Byte[0];
      len := 0;
    }

    /** pasteBufferReserve: it fails exactly when the bytes would pass the cap, and never takes more than the cap. */
    method Reserve(need: nat) returns (ok: bool)
      requires Valid()
      modifies `buf
      ensures Valid() && Text() == old(Text())
      ensures ok <==> len + need <= PASTE_MAX
      ensures ok ==> len + need <= buf.Length
      ensures buf == old(buf) || fresh(buf)
    {
      if buf.Length >= len + need {
        return true;
      }
      var want := if buf.Length != 0 then buf.Length else 64;
      while want < len + need
        invariant 0 < want <= PASTE_MAX
        decreases len + need - want
      {
        var doubled := want * 2;
        if doubled <= want || doubled > PASTE_MAX {
          want := PASTE_MAX;
          break;
        }
        want := doubled;
      }
      if want < len + need {
        return false;
      }
      var nb := new Byte[want];
      forall i | 0 <= i < len { nb[i] := buf[i]; }
      assert nb[..len] == buf[..len];
      buf := nb;
      return true;
    }

    method Append(s: Bytes)
      requires Valid() && len + |s| <= buf.Length
      modifies `len, buf
      ensures Valid() && Text() == old(Text()) + s && buf == old(buf)
    {
      forall i | 0 <= i < |s| { buf[len + i] := s[i]; }
      len := len + |s|;
      assert buf[..len] == old(buf[..len]) + s;
    }
  }
}
