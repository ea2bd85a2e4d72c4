/** Display widths: the per-code-point table, terminal control sequences, and the width of a text. */
module Widths {
  import opened Utf8
  import opened Graphemes

  // The ranges that utf8CharWidth shows in two columns.
  predicate IsWide(cp: int) {
    && cp >= 0x1100
    && (|| cp <= 0x115F
        || cp == 0x2329 || cp == 0x232A
        || 0x231A <= cp <= 0x231B
        || 0x23E9 <= cp <= 0x23F3
        || 0x23F8 <= cp <= 0x23FA
        || 0x25AA <= cp <= 0x25AB
        || 0x25B6 <= cp <= 0x25C0
        || 0x25FB <= cp <= 0x25FE
        || 0x2600 <= cp <= 0x26FF
        || 0x2700 <= cp <= 0x27BF
        || 0x2934 <= cp <= 0x2935
        || 0x2B05 <= cp <= 0x2B07
        || 0x2B1B <= cp <= 0x2B1C
        || cp == 0x2B50 || cp == 0x2B55
        || (0x2E80 <= cp <= 0xA4CF && cp != 0x303F)
        || 0xAC00 <= cp <= 0xD7A3
        || 0xF900 <= cp <= 0xFAFF
        || 0xFE10 <= cp <= 0xFE1F
        || 0xFE30 <= cp <= 0xFE6F
        || 0xFF00 <= cp <= 0xFF60
        || 0xFFE0 <= cp <= 0xFFE6
        || 0x1F1E6 <= cp <= 0x1F1FF
        || 0x1F300 <= cp <= 0x1F64F
        || 0x1F680 <= cp <= 0x1F6FF
        || 0x1F900 <= cp <= 0x1F9FF
        || 0x1FA00 <= cp <= 0x1FAFF
        || 0x20000 <= cp <= 0x2FFFF)
  }

  /** utf8CharWidth */
  function CharWidth(cp: int): (w: nat)
    ensures w <= 2
    ensures IsExtend(cp) ==> w == 0
  {
    if cp < 32 || 0x7F <= cp < 0xA0 then 0
    else if IsCombiningMark(cp) || IsVariationSelector(cp) || IsSkinToneModifier(cp) || IsZWJ(cp) then 0
    else if IsWide(cp) then 2
    else 1
  }

  /** Control characters and what extends a cluster take no column, and nothing else does. */
  lemma NoColumnIff(cp: Rune)
    ensures CharWidth(cp) == 0 <==>
            || cp <= 0x1F || 0x7F <= cp <= 0x9F
            || 0x300 <= cp <= 0x36F || 0x1AB0 <= cp <= 0x1AFF || 0x1DC0 <= cp <= 0x1DFF || 0x20D0 <= cp <= 0x20FF
            || 0xFE20 <= cp <= 0xFE2F || cp == 0xFE0E || cp == 0xFE0F || 0x1F3FB <= cp <= 0x1F3FF || cp == 0x200D
  {}

  /** Printable ASCII, Latin, Greek and Cyrillic letters take one column; Chinese, Japanese and Korean characters, fullwidth
      forms, flags and emoji take two. */
  lemma ColumnsOf(cp: Rune)
    ensures 0x20 <= cp <= 0x7E || 0xA0 <= cp <= 0x2FF || 0x370 <= cp <= 0x52F ==> CharWidth(cp) == 1
    ensures 0x3041 <= cp <= 0x30FF || 0x4E00 <= cp <= 0x9FFF || 0xAC00 <= cp <= 0xD7A3 || 0xFF01 <= cp <= 0xFF60 ==>
              CharWidth(cp) == 2
    ensures 0x1F1E6 <= cp <= 0x1F1FF || 0x1F600 <= cp <= 0x1F64F || 0x20000 <= cp <= 0x2FFFF ==> CharWidth(cp) == 2
  {}

  // ---------- control sequences ----------

  predicate IsParameter(b: Byte) { 0x30 <= b <= 0x3f }
  predicate IsIntermediate(b: Byte) { 0x20 <= b <= 0x2f }
  predicate IsFinal(b: Byte) { 0x40 <= b <= 0x7e }

  // A control sequence of section 5.4 of ECMA-48 whose parameter bytes end at j.
  ghost predicate CsiAt(t: Bytes, j: nat) {
    && 2 <= j < |t| && t[0] == ESC && t[1] == BRACKET
    && (forall k :: 2 <= k < j ==> IsParameter(t[k]))
    && (forall k :: j <= k < |t| - 1 ==> IsIntermediate(t[k]))
    && IsFinal(t[|t| - 1])
  }

  ghost predicate IsCsi(t: Bytes) {
    exists j :: CsiAt(t, j)
  }

  // The text starts with a control sequence of n bytes.
  ghost predicate CsiPrefix(s: Bytes, n: nat) {
    n <= |s| && IsCsi(s[..n])
  }

  lemma CsiShape(s: Bytes, n: nat) returns (j: nat)
    requires CsiPrefix(s, n)
    ensures 2 <= j < n <= |s| && s[0] == ESC && s[1] == BRACKET
    ensures forall k :: 2 <= k < j ==> IsParameter(s[k])
    ensures forall k :: j <= k < n - 1 ==> IsIntermediate(s[k])
    ensures IsFinal(s[n - 1])
  {
    j :| CsiAt(s[..n], j);
    assert s[n - 1] == s[..n][n - 1];
    assert forall k :: 0 <= k < n ==> s[k] == s[..n][k];
  }

  lemma CsiPrefixUnique(s: Bytes, m: nat, n: nat)
    requires CsiPrefix(s, m) && CsiPrefix(s, n)
    ensures m == n
  {
    var i := CsiShape(s, m);
    var j := CsiShape(s, n);
  }

  ghost function CsiLen(s: Bytes): (n: nat)
    ensures n > 0 ==> CsiPrefix(s, n)
    ensures n == 0 ==> forall m: nat :: !CsiPrefix(s, m)
  {
    if exists m: nat :: CsiPrefix(s, m) then
      (var m: nat :| CsiPrefix(s, m); m)
    else 0
  }

  /** ansiEscapeLen, on the len bytes that start at an ESC. It finds the one prefix that is a control
      sequence, and returns zero exactly when there is none. */
  method AnsiEscapeLen(s: Bytes) returns (n: nat)
    requires s != [] && s[0] == ESC
    ensures forall m: nat :: CsiPrefix(s, m) <==> n > 0 && m == n
  {
    if |s| < 2 || s[1] != BRACKET {
      forall m: nat ensures !CsiPrefix(s, m) {
        if CsiPrefix(s, m) { var j := CsiShape(s, m); }
      }
      return 0;
    }
    var i := 2;
    while i < |s| && IsParameter(s[i])
      invariant 2 <= i <= |s| && forall k :: 2 <= k < i ==> IsParameter(s[k])
    {
      i := i + 1;
    }
    ghost var j := i;
    while i < |s| && IsIntermediate(s[i])
      invariant j <= i <= |s| && forall k :: j <= k < i ==> IsIntermediate(s[k])
    {
      i := i + 1;
    }
    if i >= |s| || !IsFinal(s[i]) {
      NoCsi(s, j, i);
      return 0;
    }
    assert CsiAt(s[..i+1], j);
    forall m: nat | CsiPrefix(s, m) ensures m == i + 1 {
      CsiPrefixUnique(s, m, i + 1);
    }
    return i + 1;
  }

  lemma NoCsi(s: Bytes, j: nat, i: nat)
    requires 2 <= j <= i <= |s|
    requires forall k :: 2 <= k < j ==> IsParameter(s[k])
    requires forall k :: j <= k < i ==> IsIntermediate(s[k])
    requires j < |s| ==> !IsParameter(s[j])
    requires i < |s| ==> !IsIntermediate(s[i]) && !IsFinal(s[i])
    ensures forall m: nat :: !CsiPrefix(s, m)
  {
    forall m: nat ensures !CsiPrefix(s, m) {
      if CsiPrefix(s, m) { var h := CsiShape(s, m); }
    }
  }

  // ---------- the width of a text ----------

  // A control sequence is made of ASCII bytes: what follows it starts on a character boundary.
  lemma CsiCut(s: Bytes)
    requires WF(s) && CsiLen(s) > 0
    ensures CsiLen(s) <= |s| && WF(s[CsiLen(s)..])
  {
    var n := CsiLen(s);
    var j := CsiShape(s, n);
    AfterAscii(s, n - 1);
    WFCut(s, n);
  }

  lemma AfterAscii(s: Bytes, p: nat)
    requires WF(s) && p < |s| && s[p] < 0x80
    ensures Bound(s, p + 1)
  {
    hide Encode1;
    DecodeForward(s, p);
    assert ByteLen(s[p]) == 1;
  }

  lemma FirstRune(s: Bytes)
    requires WF(s) && s != []
    ensures Runes(s) != []
    ensures var r := Runes(s)[0];
            0 < |Encode1(r)| <= |s| && WF(s[|Encode1(r)|..]) && Runes(s) == [r] + Runes(s[|Encode1(r)|..])
    ensures |Encode1(Runes(s)[0])| == ByteLen(s[0]) && DecodeChar(s, 0) == (Runes(s)[0], ByteLen(s[0]))
  {
    hide Encode1;
    WFStart(s);
    DecodeForward(s, 0);
    assert s[0..] == s;
  }

  // What utf8StrWidth adds up from here on; z is its `after_zwj`.
  ghost function Width(s: Bytes, z: bool): nat
    requires WF(s)
    decreases |s|
  {
    if s == [] then 0
    else if CsiLen(s) > 0 then
      CsiCut(s);
      Width(s[CsiLen(s)..], z)
    else
      FirstRune(s);
      var r := Runes(s)[0];
      (if z then 0 else CharWidth(r)) + Width(s[|Encode1(r)|..], IsZWJ(r))
  }

  /** utf8StrWidth */
  method StrWidth(s: Bytes, len: nat) returns (width: nat)
    requires len <= |s| && WF(s[..len])
    ensures width == Width(s[..len], false)
  {
    hide *;
    ghost var t := s[..len];
    assert t[0..] == t;
    width := 0;
    var i := 0;
    var afterZwj := false;
    while i < len
      invariant i <= len && WF(t[i..])
      invariant width + Width(t[i..], afterZwj) == Width(t, false)
    {
      WidthStep(t[i..], afterZwj);
      assert t[i..][0] == s[i];
      assert s[i..len] == t[i..];
      DecodePart(s, i, len);
      var (cp, clen) := DecodeChar(s, i);
      var skip := 0;
      if cp == ESC {
        skip := AnsiEscapeLen(s[i..len]);
        CsiLenIs(t[i..], skip);
      } else {
        NotCsi(t[i..]);
      }
      if skip > 0 {
        assert t[i..][skip..] == t[i + skip..];
        i := i + skip;
        continue;
      }
      assert t[i..][clen..] == t[i + clen..];
      if afterZwj {
        afterZwj := false;
      } else {
        width := width + CharWidth(cp);
      }
      if IsZWJ(cp) {
        afterZwj := true;
      }
      i := i + clen;
    }
    WidthEmpty(t[i..], afterZwj);
  }

  lemma WidthEmpty(s: Bytes, z: bool)
    requires s == [] && WF(s)
    ensures Width(s, z) == 0
  {}

  lemma WidthStep(s: Bytes, z: bool)
    requires WF(s) && s != []
    ensures CsiLen(s) > 0 ==> CsiLen(s) <= |s| && WF(s[CsiLen(s)..]) && Width(s, z) == Width(s[CsiLen(s)..], z)
    ensures ByteLen(s[0]) <= |s| && 0 < DecodeChar(s, 0).1 <= |s|
    ensures CsiLen(s) == 0 ==>
              var (cp, n) := DecodeChar(s, 0);
              WF(s[n..]) && Width(s, z) == (if z then 0 else CharWidth(cp)) + Width(s[n..], IsZWJ(cp))
    ensures DecodeChar(s, 0).0 == ESC <==> s[0] == ESC
  {
    hide Encode1;
    FirstRune(s);
    AsciiFirst(s);
    if CsiLen(s) > 0 { CsiCut(s); }
  }

  lemma AsciiFirst(s: Bytes)
    requires WF(s) && s != []
    ensures Runes(s) != []
    ensures Runes(s)[0] < 0x80 <==> s[0] < 0x80
    ensures s[0] < 0x80 ==> Runes(s)[0] == s[0]
  {
    hide DecodeChar;
    var rs := Runes(s);
    assert Encode(rs)[0] == Encode1(rs[0])[0];
  }

  lemma DecodePart(s: Bytes, i: nat, len: nat)
    requires i < len <= |s| && i + ByteLen(s[i]) <= len
    ensures DecodeChar(s, i) == DecodeChar(s[i..len], 0)
  {
    assert s == s[..i] + s[i..len] + s[len..];
    DecodeLocal(s[..i], s[i..len], s[len..]);
  }

  lemma CsiLenIs(s: Bytes, n: nat)
    requires forall m: nat :: CsiPrefix(s, m) <==> n > 0 && m == n
    ensures CsiLen(s) == n
  {
    if n > 0 { assert CsiPrefix(s, n); }
  }

  lemma NotCsi(s: Bytes)
    requires s != [] && s[0] != ESC
    ensures CsiLen(s) == 0
  {
    if CsiLen(s) > 0 { var j := CsiShape(s, CsiLen(s)); }
  }

  // ---------- control sequences take no width ----------

  predicate NoEsc(rs: seq<Rune>) {
    forall i :: 0 <= i < |rs| ==> rs[i] != ESC
  }

  // The width of a text without control sequences; z says that a joiner came just before.
  function RunesWidth(rs: seq<Rune>, z: bool): nat {
    if rs == [] then 0
    else (if z then 0 else CharWidth(rs[0])) + RunesWidth(rs[1..], IsZWJ(rs[0]))
  }

  function EndsJoined(rs: seq<Rune>, z: bool): bool {
    if rs == [] then z else IsZWJ(rs[|rs| - 1])
  }

  lemma {:induction false} RunesWidthConcat(a: seq<Rune>, b: seq<Rune>, z: bool)
    ensures RunesWidth(a + b, z) == RunesWidth(a, z) + RunesWidth(b, EndsJoined(a, z))
    ensures EndsJoined(a + b, z) == EndsJoined(b, EndsJoined(a, z))
  {
    hide CharWidth;
    if a == [] {
      assert a + b == b;
    } else {
      assert (a + b)[1..] == a[1..] + b;
      RunesWidthConcat(a[1..], b, IsZWJ(a[0]));
    }
  }

  // One step of utf8StrWidth over a rune that is not ESC.
  lemma WidthOfRune(r: Rune, t: Bytes, z: bool)
    requires r != ESC && WF(t)
    ensures WF(Encode1(r) + t)
    ensures Width(Encode1(r) + t, z) == (if z then 0 else CharWidth(r)) + Width(t, IsZWJ(r))
  {
    hide Encode1, CharWidth, DecodeChar, Encode;
    var s := Encode1(r) + t;
    EncodeSingle(r);
    RunesUnique([r]);
    WFConcat(Encode([r]), t);
    DecodeInvertsEncode([], r, t);
    assert s == [] + Encode1(r) + t;
    assert s[|Encode1(r)|..] == t;
    WidthStep(s, z);
    NotCsi(s);
  }

  // utf8StrWidth goes through a text without ESC rune by rune, whatever follows.
  lemma {:induction false} WidthOfRunes(rs: seq<Rune>, t: Bytes, z: bool)
    requires NoEsc(rs) && WF(t)
    ensures WF(Encode(rs) + t) && Width(Encode(rs) + t, z) == RunesWidth(rs, z) + Width(t, EndsJoined(rs, z))
    decreases |rs|
  {
    hide Encode1, CharWidth, Width;
    if rs == [] {
      assert Encode(rs) + t == t;
    } else {
      Assoc(Encode1(rs[0]), Encode(rs[1..]), t);
      WidthOfRunes(rs[1..], t, IsZWJ(rs[0]));
      WidthOfRune(rs[0], Encode(rs[1..]) + t, z);
    }
  }

  lemma {:induction false} AsciiIsWF(s: Bytes)
    requires forall i :: 0 <= i < |s| ==> s[i] < 0x80
    ensures WF(s) && Runes(s) == s && Encode(s) == s
  {
    if s == [] {
      WFEmpty();
    } else {
      AsciiIsWF(s[1..]);
      assert s == Encode1(s[0]) + s[1..];
    }
    RunesUnique(s);
  }

  lemma WidthOfCsi(c: Bytes, t: Bytes, z: bool)
    requires IsCsi(c) && WF(t)
    ensures WF(c + t) && Width(c + t, z) == Width(t, z)
  {
    hide Encode1, Encode;
    assert c[..|c|] == c;
    var j := CsiShape(c, |c|);
    AsciiIsWF(c);
    WFConcat(c, t);
    var s := c + t;
    assert s[..|c|] == c;
    assert CsiPrefix(s, |c|);
    CsiPrefixUnique(s, CsiLen(s), |c|);
    assert s[|c|..] == t;
  }

  // A text with control sequences put in anywhere, as prompts carry them for colours.
  datatype Piece = Verbatim(runes: seq<Rune>) | Control(csi: Bytes)

  ghost predicate PieceOk(p: Piece) {
    match p
    case Verbatim(rs) => NoEsc(rs)
    case Control(c) => IsCsi(c)
  }

  function Styled(ps: seq<Piece>): Bytes {
    if ps == [] then []
    else (match ps[0] case Verbatim(rs) => Encode(rs) case Control(c) => c) + Styled(ps[1..])
  }

  function Unstyled(ps: seq<Piece>): seq<Rune> {
    if ps == [] then []
    else (if ps[0].Verbatim? then ps[0].runes else []) + Unstyled(ps[1..])
  }

  /** Control sequences put anywhere into a text without ESC, between a joiner and the character it joins
      included, leave its width as it was. */
  lemma {:induction false} StyleHasNoWidth(ps: seq<Piece>, z: bool)
    requires forall i :: 0 <= i < |ps| ==> PieceOk(ps[i])
    ensures WF(Styled(ps)) && WF(Encode(Unstyled(ps)))
    ensures Width(Styled(ps), z) == Width(Encode(Unstyled(ps)), z) == RunesWidth(Unstyled(ps), z)
    ensures NoEsc(Unstyled(ps))
  {
    hide Encode1, Encode, CharWidth, RunesWidth;
    if ps == [] {
      WFEmpty();
      RunesUnique([]);
      RunesWidthOfNone(z);
    } else {
      match ps[0]
      case Verbatim(rs) =>
        var z' := EndsJoined(rs, z);
        StyleHasNoWidth(ps[1..], z');
        WidthOfRunes(rs, Styled(ps[1..]), z);
        RunesWidthConcat(rs, Unstyled(ps[1..]), z);
      case Control(c) =>
        StyleHasNoWidth(ps[1..], z);
        WidthOfCsi(c, Styled(ps[1..]), z);
        assert Unstyled(ps) == Unstyled(ps[1..]);
    }
    PlainWidth(Unstyled(ps), z);
  }

  lemma RunesWidthOfNone(z: bool)
    ensures RunesWidth([], z) == 0 && Encode([]) == []
  {}

  lemma PlainWidth(rs: seq<Rune>, z: bool)
    requires NoEsc(rs)
    ensures WF(Encode(rs)) && Width(Encode(rs), z) == RunesWidth(rs, z)
  {
    hide Encode1, Encode, CharWidth, RunesWidth;
    WFEmpty();
    WidthOfRunes(rs, [], z);
    assert Encode(rs) + [] == Encode(rs);
  }
}
