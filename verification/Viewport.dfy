/** The single-line view: a window of the shown text, trimmed cluster by cluster from both sides until the
    prompt, the cursor and the rest fit the columns of the terminal. */
module Viewport {
  import opened Utf8
  import opened Graphemes
  import opened Widths
  import opened Folds
  import opened Editors
  import opened Render
  import opened Terminal
  import opened Rows

  // Texts whose clusters are a character and the marks that extend it.
  predicate Plain(rs: seq<Rune>) {
    forall i :: 0 <= i < |rs| ==> rs[i] != ESC && !IsZWJ(rs[i]) && !IsRegionalIndicator(rs[i])
  }

  // A cluster starts at rune k, or the text ends there.
  predicate ClusterStart(rs: seq<Rune>, k: nat) {
    k == 0 || k == |rs| || (k < |rs| && !IsExtend(rs[k]))
  }

  // The columns that the runes from i to j take.
  function Cols(rs: seq<Rune>, i: nat, j: nat): nat
    requires i <= j <= |rs|
  {
    RunesWidth(rs[i..j], false)
  }

  lemma PlainPart(rs: seq<Rune>, i: nat, j: nat)
    requires Plain(rs) && i <= j <= |rs|
    ensures Plain(rs[i..j]) && NoEsc(rs[i..j]) && NoFlags(rs[i..j])
  {
    assert forall k :: 0 <= k < j - i ==> rs[i..j][k] == rs[i + k];
  }

  lemma ColsSplit(rs: seq<Rune>, i: nat, j: nat, k: nat)
    requires Plain(rs) && i <= j <= k <= |rs|
    ensures Cols(rs, i, k) == Cols(rs, i, j) + Cols(rs, j, k)
  {
    hide RunesWidth, IsZWJ;
    assert rs[i..k] == rs[i..j] + rs[j..k];
    RunesWidthConcat(rs[i..j], rs[j..k], false);
    if i < j { assert rs[i..j][j - i - 1] == rs[j - 1]; }
  }

  // A cluster is as wide as its first rune.
  lemma {:induction false} ColsOfCluster(rs: seq<Rune>, i: nat, j: nat)
    requires Plain(rs) && i < j <= |rs|
    requires forall k :: i < k < j ==> IsExtend(rs[k])
    ensures Cols(rs, i, j) == CharWidth(rs[i])
    decreases j
  {
    hide CharWidth, IsExtend, IsZWJ;
    if j == i + 1 {
      ColsOfOne(rs, i);
    } else {
      ColsOfCluster(rs, i, j - 1);
      ColsSplit(rs, i, j - 1, j);
      ColsOfOne(rs, j - 1);
      assert IsExtend(rs[j-1]);
    }
  }

  lemma ColsOfOne(rs: seq<Rune>, i: nat)
    requires i < |rs|
    ensures Cols(rs, i, i + 1) == CharWidth(rs[i])
  {
    hide CharWidth;
    assert rs[i..i+1] == [rs[i]];
    assert [rs[i]][1..] == [];
    assert RunesWidth([rs[i]], false) == CharWidth(rs[i]) + RunesWidth([], IsZWJ(rs[i]));
  }

  lemma ColsOfNone(rs: seq<Rune>, i: nat)
    requires i <= |rs|
    ensures Cols(rs, i, i) == 0
  {
    assert rs[i..i] == [];
  }

  // ---------- clusters of a plain text ----------

  lemma NextOfPlain(rs: seq<Rune>, k: nat)
    requires Plain(rs) && k < |rs|
    ensures var e := NextEnd(rs, k);
            && k < e <= |rs| && ClusterStart(rs, e)
            && forall i :: k < i < e ==> IsExtend(rs[i])
  {
    hide IsExtend;
    ScanNextInside(rs, k + 1);
    forall i | k < i < NextEnd(rs, k) ensures IsExtend(rs[i]) {
      assert !IsZWJ(rs[i-1]);
    }
  }

  lemma {:induction false} ScanPrevOfPlain(rs: seq<Rune>, k: nat)
    requires Plain(rs) && k < |rs|
    ensures var b := ScanPrev(rs, k);
            && b <= k && (b == 0 || !IsExtend(rs[b]))
            && forall i :: b < i <= k ==> IsExtend(rs[i])
    decreases k
  {
    hide IsExtend, IsZWJ, IsRegionalIndicator;
    ScanPrevStep(rs, k);
    if k > 0 && IsExtend(rs[k]) { ScanPrevOfPlain(rs, k - 1); }
  }

  // What the first loop steps over, in the part of the text from a to b.
  lemma StepAhead(rs: seq<Rune>, a: nat, b: nat)
    requires Plain(rs) && a < b <= |rs| && ClusterStart(rs, b)
    ensures var t := Encode(rs[a..b]);
            var e := a + NextEnd(rs[a..b], 0);
            && a < e <= b && ClusterStart(rs, e)
            && (forall i :: a < i < e ==> IsExtend(rs[i]))
            && t != [] && WF(t) && WF(t[0..]) && NextLen(t, 0) == Size(rs[a..e]) <= |t|
            && t[..Size(rs[a..e])] == Encode(rs[a..e]) && t[Size(rs[a..e])..] == Encode(rs[e..b])
            && Cols(rs, a, e) == CharWidth(rs[a])
  {
    hide *;
    var s := rs[a..b];
    var t, n := Encode(s), NextEnd(s, 0);
    PlainPart(rs, a, b);
    NextOfPlain(s, 0);
    ClusterInPart(rs, a, b, n);
    NextOfText(s);
    PartOfPart(rs, a, b, n);
    ColsOfCluster(rs, a, a + n);
  }

  lemma ClusterInPart(rs: seq<Rune>, a: nat, b: nat, n: nat)
    requires a < b <= |rs| && ClusterStart(rs, b) && 0 < n <= b - a && ClusterStart(rs[a..b], n)
    requires forall i :: 0 < i < n ==> IsExtend(rs[a..b][i])
    ensures ClusterStart(rs, a + n) && forall i :: a < i < a + n ==> IsExtend(rs[i])
  {
    hide IsExtend;
    assert forall i :: a <= i < b ==> rs[i] == rs[a..b][i - a];
  }

  lemma NextOfText(s: seq<Rune>)
    requires s != []
    ensures var t, n := Encode(s), NextEnd(s, 0);
            && t != [] && WF(t) && WF(t[0..]) && NextLen(t, 0) == Size(s[..n]) <= |t|
            && t[..Size(s[..n])] == Encode(s[..n]) && t[Size(s[..n])..] == Encode(s[n..])
  {
    hide Encode, Encode1, NextEnd, DecodeChar, ByteLen;
    var t, n := Encode(s), NextEnd(s, 0);
    EncodeStart(s);
    RunesUnique(s);
    assert t[0..] == t;
    EncodeSplit(s, n);
    NextEndInside(s);
  }

  lemma NextEndInside(s: seq<Rune>)
    requires s != []
    ensures 0 < NextEnd(s, 0) <= |s|
  {
  }

  lemma PartOfPart(rs: seq<Rune>, a: nat, b: nat, n: nat)
    requires a + n <= b <= |rs|
    ensures rs[a..b][..n] == rs[a..a + n] && rs[a..b][n..] == rs[a + n..b]
    ensures a < b ==> rs[a..b] != [] && rs[a..b][0] == rs[a]
  {}

  // What the second loop takes off the end of the part from a to b.
  lemma StepBack(rs: seq<Rune>, a: nat, b: nat)
    requires Plain(rs) && a < b <= |rs| && ClusterStart(rs, a)
    ensures var t := Encode(rs[a..b]);
            var p := a + PrevStart(rs[a..b], b - a);
            && a <= p < b && ClusterStart(rs, p)
            && (forall i :: p < i < b ==> IsExtend(rs[i]))
            && WF(t) && WF(t[..|t|]) && PrevLen(t, |t|) == Size(rs[p..b])
            && t == Encode(rs[a..p]) + Encode(rs[p..b])
            && Cols(rs, p, b) == CharWidth(rs[p])
  {
    hide *;
    var s := rs[a..b];
    var n := PrevStart(s, b - a);
    PartLen(rs, a, b);
    PlainPart(rs, a, b);
    PrevStartIs(s);
    ScanPrevOfPlain(s, |s| - 1);
    ClusterBackInPart(rs, a, b, n);
    PrevOfText(s);
    PartOfPart(rs, a, b, n);
    ColsOfCluster(rs, a + n, b);
  }

  lemma PartLen(rs: seq<Rune>, a: nat, b: nat)
    requires a <= b <= |rs|
    ensures |rs[a..b]| == b - a
  {}

  lemma PrevStartIs(s: seq<Rune>)
    requires s != []
    ensures PrevStart(s, |s|) == ScanPrev(s, |s| - 1) < |s|
  {}

  lemma ClusterBackInPart(rs: seq<Rune>, a: nat, b: nat, n: nat)
    requires a < b <= |rs| && ClusterStart(rs, a) && n < b - a && (n == 0 || !IsExtend(rs[a..b][n]))
    requires forall i :: n < i <= b - a - 1 ==> IsExtend(rs[a..b][i])
    ensures ClusterStart(rs, a + n) && forall i :: a + n < i < b ==> IsExtend(rs[i])
  {
    hide IsExtend;
    assert forall i :: a <= i < b ==> rs[i] == rs[a..b][i - a];
  }

  lemma PrevOfText(s: seq<Rune>)
    requires s != []
    ensures var t, n := Encode(s), PrevStart(s, |s|);
            && WF(t) && WF(t[..|t|]) && PrevLen(t, |t|) == Size(s[n..])
            && t == Encode(s[..n]) + Encode(s[n..])
  {
    hide Encode, Encode1, PrevStart;
    var t, n := Encode(s), PrevStart(s, |s|);
    EncodeNotEmpty(s);
    RunesUnique(s);
    assert t[..|t|] == t;
    EncodeSplit(s, n);
  }

  lemma EncodeNotEmpty(s: seq<Rune>)
    requires s != []
    ensures Encode(s) != []
  {
    EncodeStart(s);
  }

  /** utf8SingleCharWidth, on a text of the runes rs: the columns that a cluster takes, which are those of its first
      rune. */
  method SingleCharWidth(s: Bytes, len: nat, ghost rs: seq<Rune>) returns (w: nat)
    requires len <= |s| && s[..len] == Encode(rs)
    ensures rs == [] ==> w == 0
    ensures rs != [] ==> w == CharWidth(rs[0])
    ensures Plain(rs) && (forall i :: 0 < i < |rs| ==> IsExtend(rs[i])) ==> w == Cols(rs, 0, |rs|)
  {
    hide Encode, Encode1, DecodeChar, ByteLen, CharWidth, IsExtend, Plain;
    if len == 0 {
      NoRunes(rs);
      return 0;
    }
    FirstOf(s, len, rs);
    if Plain(rs) && forall i :: 0 < i < |rs| ==> IsExtend(rs[i]) {
      ColsOfCluster(rs, 0, |rs|);
    }
    var (cp, clen) := DecodeChar(s, 0);
    return CharWidth(cp);
  }

  lemma NoRunes(rs: seq<Rune>)
    requires |Encode(rs)| == 0
    ensures rs == [] && Cols(rs, 0, |rs|) == 0
  {
    if rs != [] {
      EncodeStart(rs);
    }
  }

  // The first code point of a text.
  lemma FirstOf(s: Bytes, len: nat, rs: seq<Rune>)
    requires 0 < len <= |s| && s[..len] == Encode(rs)
    ensures rs != [] && ByteLen(s[0]) <= |s| && DecodeChar(s, 0).0 == rs[0]
  {
    hide Encode, Encode1, DecodeChar, ByteLen;
    NoBytes(rs);
    EncodeNext(rs, 0);
    assert rs[0..] == rs;
    DecodeInvertsEncode([], rs[0], Encode(rs[1..]) + s[len..]);
    assert s == s[..len] + s[len..];
    assert s == [] + Encode1(rs[0]) + (Encode(rs[1..]) + s[len..]);
  }

  lemma NoBytes(rs: seq<Rune>)
    ensures rs == [] ==> Encode(rs) == []
  {
  }

  // ---------- the window ----------

  // The text from a up to the cursor c fits beside the prompt, and no cluster more of it would.
  ghost predicate LeftTrim(rs: seq<Rune>, c: nat, pwidth: nat, cols: nat, a: nat) {
    && a <= c <= |rs| && ClusterStart(rs, a)
    && pwidth + Cols(rs, a, c) < cols
    && forall k: nat :: k < a && ClusterStart(rs, k) ==> pwidth + Cols(rs, k, c) >= cols
  }

  // The text from a to b fits the terminal, and no cluster more of it would.
  ghost predicate RightTrim(rs: seq<Rune>, a: nat, c: nat, pwidth: nat, cols: nat, b: nat) {
    && a <= c <= b <= |rs| && ClusterStart(rs, b)
    && pwidth + Cols(rs, a, b) <= cols
    && forall k: nat :: b < k <= |rs| && ClusterStart(rs, k) ==> pwidth + Cols(rs, a, k) > cols
  }

  // Each cluster start before e, but not before a, is a: between them there are only marks.
  lemma NoStartBetween(rs: seq<Rune>, a: nat, e: nat, k: nat)
    requires a < k < e <= |rs| && (forall i :: a < i < e ==> IsExtend(rs[i]))
    ensures !ClusterStart(rs, k)
  {}

  // The first len bytes of a buffer, cut in two after k bytes, and before the last k.
  lemma CutFront(s: Bytes, len: nat, k: nat)
    requires k <= len <= |s|
    ensures s[..len][..k] == s[..k] && s[..len][k..] == s[k..][..len - k]
  {}

  lemma CutBack(s: Bytes, len: nat, k: nat)
    requires k <= len <= |s|
    ensures s[..len][..len - k] == s[..len - k] && s[..len][len - k..] == s[len - k..][..k]
  {}

  /** The two trimming loops of refreshSingleLine, on a shown text of the runes rs with the cursor before rune c.
      They end without taking more than there is, keep both column counts true, and leave the largest window of
      whole clusters around the cursor that fits. */
  method Trim(render: Bytes, len0: nat, pos0: nat, pwidth: nat, cols: nat, ghost rs: seq<Rune>, ghost c: nat)
    returns (buf: Bytes, len: nat, pos: nat, poscol: nat, lencol: nat, ghost a: nat, ghost b: nat)
    requires len0 <= |render| && render[..len0] == Encode(rs)
    requires Plain(rs) && c <= |rs| && ClusterStart(rs, c) && pos0 == Size(rs[..c])
    requires pwidth < cols
    ensures LeftTrim(rs, c, pwidth, cols, a) && RightTrim(rs, a, c, pwidth, cols, b)
    ensures len <= |buf| && buf[..len] == Encode(rs[a..b])
    ensures pos == Size(rs[a..c]) && poscol == Cols(rs, a, c) && lencol == Cols(rs, a, b)
  {
    hide Encode, Encode1, RunesWidth, CharWidth, IsExtend, IsZWJ, ClusterStart, Plain, NextEnd, PrevStart, NextLen, PrevLen, DecodeChar, ByteLen, WF, LeftState, RightState, LeftTrim, RightTrim;
    buf, len, pos, a, b := render, len0, pos0, 0, |rs|;
    WholeIs(rs);
    SizePart(rs, c);
    RunesUnique(rs);
    RunesUnique(rs[..c]);
    PlainPart(rs, 0, c);
    PlainPart(rs, 0, |rs|);
    assert buf[..pos] == buf[..len][..pos];
    poscol := StrWidthOf(buf, pos, rs[..c]);
    lencol := StrWidthOf(buf, len, rs);
    LeftStart(rs, c, pwidth, cols);
    while pwidth + poscol >= cols
      invariant a <= c <= |rs| && LeftState(rs, c, pwidth, cols, a) && len <= |buf| && buf[..len] == Encode(rs[a..])
      invariant pos == Size(rs[a..c]) && poscol == Cols(rs, a, c) && lencol == Cols(rs, a, |rs|)
      decreases c - a
    {
      ColsOfNone(rs, a);
      LeftStep(rs, c, pwidth, cols, a);
      ghost var t := buf[..len];
      var clen := NextCharLen(buf, 0, len);
      CutFront(buf, len, clen);
      var cwidth := SingleCharWidth(buf, clen, rs[a..a + NextEnd(rs[a..], 0)]);
      buf := buf[clen..];
      len := len - clen;
      pos := pos - clen;
      poscol := poscol - cwidth;
      lencol := lencol - cwidth;
      a := a + NextEnd(rs[a..], 0);
    }
    LeftDone(rs, c, pwidth, cols, a);
    while pwidth + lencol > cols
      invariant a <= c <= b <= |rs| && RightState(rs, a, c, pwidth, cols, b) && len <= |buf| && buf[..len] == Encode(rs[a..b])
      invariant lencol == Cols(rs, a, b)
      decreases b
    {
      RightStep(rs, a, c, pwidth, cols, b);
      ghost var t := buf[..len];
      assert t == buf[..|t|];
      PrevLenSame(buf, len);
      var clen := PrevCharLen(buf, len);
      CutBack(buf, len, clen);
      var cwidth := SingleCharWidth(buf[len - clen..], clen, rs[a + PrevStart(rs[a..b], b - a)..b]);
      len := len - clen;
      lencol := lencol - cwidth;
      b := a + PrevStart(rs[a..b], b - a);
    }
    RightDone(rs, a, c, pwidth, cols, b);
  }

  ghost predicate LeftState(rs: seq<Rune>, c: nat, pwidth: nat, cols: nat, a: nat) {
    && Plain(rs) && a <= c <= |rs| && ClusterStart(rs, a) && ClusterStart(rs, c)
    && forall k: nat :: k < a && ClusterStart(rs, k) ==> pwidth + Cols(rs, k, c) >= cols
  }

  ghost predicate RightState(rs: seq<Rune>, a: nat, c: nat, pwidth: nat, cols: nat, b: nat) {
    && Plain(rs) && a <= c <= b <= |rs| && ClusterStart(rs, a) && ClusterStart(rs, b) && ClusterStart(rs, c)
    && pwidth + Cols(rs, a, c) < cols
    && forall k: nat :: b < k <= |rs| && ClusterStart(rs, k) ==> pwidth + Cols(rs, a, k) > cols
  }

  lemma LeftStart(rs: seq<Rune>, c: nat, pwidth: nat, cols: nat)
    requires Plain(rs) && c <= |rs| && ClusterStart(rs, c)
    ensures LeftState(rs, c, pwidth, cols, 0)
  {}

  lemma RightDone(rs: seq<Rune>, a: nat, c: nat, pwidth: nat, cols: nat, b: nat)
    requires RightState(rs, a, c, pwidth, cols, b) && pwidth + Cols(rs, a, b) <= cols
    ensures RightTrim(rs, a, c, pwidth, cols, b)
  {}

  lemma LeftStep(rs: seq<Rune>, c: nat, pwidth: nat, cols: nat, a: nat)
    requires LeftState(rs, c, pwidth, cols, a) && pwidth < cols <= pwidth + Cols(rs, a, c)
    ensures a < c && rs[a..] == rs[a..|rs|] && rs[a..] != []
    ensures var t, e := Encode(rs[a..]), a + NextEnd(rs[a..], 0);
            && a < e <= c && LeftState(rs, c, pwidth, cols, e)
            && t != [] && WF(t) && WF(t[0..]) && NextLen(t, 0) == Size(rs[a..e]) <= |t| && NextLen(t, 0) > 0
            && t[..Size(rs[a..e])] == Encode(rs[a..e]) && t[Size(rs[a..e])..] == Encode(rs[e..])
            && rs[a..e][0] == rs[a]
            && Size(rs[a..c]) == NextLen(t, 0) + Size(rs[e..c])
            && Cols(rs, a, c) == CharWidth(rs[a]) + Cols(rs, e, c)
            && Cols(rs, a, |rs|) == CharWidth(rs[a]) + Cols(rs, e, |rs|)
  {
    hide Encode, Encode1, RunesWidth, CharWidth, IsExtend, NextLen, NextEnd, DecodeChar, ByteLen, Plain, WF;
    ColsOfNone(rs, a);
    assert rs[a..] == rs[a..|rs|];
    StepAhead(rs, a, |rs|);
    var e := a + NextEnd(rs[a..], 0);
    assert rs[e..] == rs[e..|rs|];
    ColsSplit(rs, a, e, c);
    ColsSplit(rs, a, e, |rs|);
    SizeSplit(rs, a, e, c);
    PieceNotEmpty(rs, a, e);
    forall k: nat | k < e && ClusterStart(rs, k) ensures pwidth + Cols(rs, k, c) >= cols {
      if k > a { NoStartBetween(rs, a, e, k); }
    }
  }

  lemma PieceNotEmpty(rs: seq<Rune>, a: nat, e: nat)
    requires a < e <= |rs|
    ensures Size(rs[a..e]) > 0
  {
    EncodeStart(rs[a..e]);
  }

  lemma SizeSplit(rs: seq<Rune>, a: nat, e: nat, c: nat)
    requires a <= e <= c <= |rs|
    ensures Size(rs[a..c]) == Size(rs[a..e]) + Size(rs[e..c])
  {
    hide Encode;
    assert rs[a..c] == rs[a..e] + rs[e..c];
    EncodeConcat(rs[a..e], rs[e..c]);
  }

  lemma LeftDone(rs: seq<Rune>, c: nat, pwidth: nat, cols: nat, a: nat)
    requires LeftState(rs, c, pwidth, cols, a) && pwidth + Cols(rs, a, c) < cols
    ensures LeftTrim(rs, c, pwidth, cols, a) && RightState(rs, a, c, pwidth, cols, |rs|)
    ensures rs[a..] == rs[a..|rs|]
  {}

  lemma RightStep(rs: seq<Rune>, a: nat, c: nat, pwidth: nat, cols: nat, b: nat)
    requires RightState(rs, a, c, pwidth, cols, b) && pwidth + Cols(rs, a, b) > cols
    ensures a < b && |rs[a..b]| == b - a
    ensures var t, p := Encode(rs[a..b]), a + PrevStart(rs[a..b], b - a);
            && c <= p < b && RightState(rs, a, c, pwidth, cols, p)
            && WF(t) && WF(t[..|t|]) && PrevLen(t, |t|) == Size(rs[p..b]) <= |t| && PrevLen(t, |t|) > 0
            && t[..|t| - PrevLen(t, |t|)] == Encode(rs[a..p])
            && t[|t| - PrevLen(t, |t|)..] == Encode(rs[p..b])
            && Cols(rs, a, b) == Cols(rs, a, p) + CharWidth(rs[p])
  {
    hide Encode, Encode1, RunesWidth, CharWidth, IsExtend, PrevLen, PrevStart, Plain, WF;
    StepBack(rs, a, b);
    var p := a + PrevStart(rs[a..b], b - a);
    ColsSplit(rs, a, p, b);
    PieceNotEmpty(rs, p, b);
    forall k: nat | p < k <= |rs| && ClusterStart(rs, k) ensures pwidth + Cols(rs, a, k) > cols {
      if k < b { NoStartBetween(rs, p, b, k); }
    }
  }

  lemma WholeIs(rs: seq<Rune>)
    ensures rs[0..] == rs && rs[0..|rs|] == rs
  {}

  lemma SizePart(rs: seq<Rune>, c: nat)
    requires c <= |rs|
    ensures Size(rs[..c]) <= Size(rs) && rs[0..c] == rs[..c]
    ensures Encode(rs)[..Size(rs[..c])] == Encode(rs[..c])
  {
    hide Encode1;
    EncodeSplit(rs, c);
  }

  // utf8StrWidth of a plain text is the sum over its runes.
  method StrWidthOf(s: Bytes, len: nat, ghost rs: seq<Rune>) returns (w: nat)
    requires len <= |s| && s[..len] == Encode(rs) && NoEsc(rs)
    ensures w == RunesWidth(rs, false)
  {
    hide Encode, RunesWidth;
    PlainWidth(rs, false);
    w := StrWidth(s, len);
  }

  // What is sent to the terminal: CR, the prompt, the window, EL, CR, and CUF to the cursor's column.
  function Painted(prompt: Bytes, window: Bytes, column: nat): Bytes {
    [CR] + prompt + window + [ESC, BRACKET, 0x30, 0x4B] + ([CR] + ([ESC, BRACKET] + Number(column) + [0x43]))
  }

  lemma RunTwo(t: Term, a: Op, b: Op, cols: nat)
    requires cols > 0
    ensures Run(t, [a, b], cols) == Exec(Exec(t, a, cols), b, cols)
  {
    hide Exec, Run;
    RunNone(t, cols);
    RunSnoc(t, [], a, cols);
    RunSnoc(t, [a], b, cols);
    assert [] + [a] == [a] && [a] + [b] == [a, b];
  }

  // The output shows the largest window of whole clusters around the cursor that fits beside the prompt, and puts the
  // cursor to its column, which is on the screen.
  ghost predicate Shows(output: Bytes, prompt: Bytes, rs: seq<Rune>, c: nat, cols: nat)
    requires WF(prompt)
  {
    var pwidth := Width(prompt, false);
    exists a: nat, b: nat :: ShowsWindow(output, prompt, pwidth, rs, a, c, b, cols)
  }

  ghost predicate ShowsWindow(output: Bytes, prompt: Bytes, pwidth: nat, rs: seq<Rune>, a: nat, c: nat, b: nat, cols: nat) {
    && LeftTrim(rs, c, pwidth, cols, a) && RightTrim(rs, a, c, pwidth, cols, b)
    && pwidth + Cols(rs, a, c) < cols
    && output == Painted(prompt, Encode(rs[a..b]), pwidth + Cols(rs, a, c))
  }

  /** There is only one such output. */
  lemma ShownOnce(o1: Bytes, o2: Bytes, prompt: Bytes, rs: seq<Rune>, c: nat, cols: nat)
    requires WF(prompt) && Shows(o1, prompt, rs, c, cols) && Shows(o2, prompt, rs, c, cols)
    ensures o1 == o2
  {
    hide Encode, Width, Cols, Painted, ClusterStart;
    var pwidth := Width(prompt, false);
    var a1: nat, b1: nat :| ShowsWindow(o1, prompt, pwidth, rs, a1, c, b1, cols);
    var a2: nat, b2: nat :| ShowsWindow(o2, prompt, pwidth, rs, a2, c, b2, cols);
    WindowUnique(rs, c, pwidth, cols, a1, b1, a2, b2);
  }

  lemma WindowUnique(rs: seq<Rune>, c: nat, pwidth: nat, cols: nat, a1: nat, b1: nat, a2: nat, b2: nat)
    requires LeftTrim(rs, c, pwidth, cols, a1) && RightTrim(rs, a1, c, pwidth, cols, b1)
    requires LeftTrim(rs, c, pwidth, cols, a2) && RightTrim(rs, a2, c, pwidth, cols, b2)
    ensures a1 == a2 && b1 == b2
  {
    hide Cols, ClusterStart;
  }

  // ---------- whether the cursor gets to its column ----------

  // The column at which the cursor is to be, behind the prompt and the window that starts at rune a.
  function Column(rs: seq<Rune>, a: nat, c: nat, pwidth: nat): nat
    requires a <= c <= |rs|
  {
    pwidth + Cols(rs, a, c)
  }

  // Wherever the terminal's cursor was, the moves that a refresh ends with put it to its column.
  ghost predicate Reached(rs: seq<Rune>, c: nat, pwidth: nat, cols: nat)
    requires cols > 0
  {
    exists a: nat :: LeftTrim(rs, c, pwidth, cols, a) && ReachedFrom(Column(rs, a, c, pwidth), cols)
  }

  ghost predicate ReachedFrom(column: nat, cols: nat)
    requires cols > 0
  {
    forall t: Term :: Run(t, [Return, Forward(column)], cols).col == column
  }

  // A move by 0 columns is one by 1.
  lemma ReachedFromIff(column: nat, cols: nat)
    requires column < cols
    ensures ReachedFrom(column, cols) <==> column > 0 || cols == 1
  {
    hide Run;
    forall t: Term ensures Run(t, [Return, Forward(column)], cols).col
                           == if Times(column) < cols then Times(column) else cols - 1 {
      RunTwo(t, Return, Forward(column), cols);
    }
    var t := BlankTop();
    assert Run(t, [Return, Forward(column)], cols).col == if Times(column) < cols then Times(column) else cols - 1;
  }

  lemma TrimUnique(rs: seq<Rune>, c: nat, pwidth: nat, cols: nat, a1: nat, a2: nat)
    requires LeftTrim(rs, c, pwidth, cols, a1) && LeftTrim(rs, c, pwidth, cols, a2)
    ensures a1 == a2
  {
    hide Cols, ClusterStart;
  }

  /** After a refresh with its window at rune a, the terminal's cursor is where it should be if and only if prompt and window
      take a column before the cursor, or the terminal has no second column. On a terminal of three columns or more this
      says: if and only if the prompt has a width, or the text before the cursor has. */
  lemma CursorReachedIff(rs: seq<Rune>, c: nat, pwidth: nat, cols: nat, a: nat)
    requires Plain(rs) && LeftTrim(rs, c, pwidth, cols, a)
    ensures a <= c <= |rs| && cols > 0
    ensures Reached(rs, c, pwidth, cols) <==> pwidth > 0 || Cols(rs, a, c) > 0 || cols == 1
    ensures cols > 2 ==> (Reached(rs, c, pwidth, cols) <==> pwidth > 0 || Cols(rs, 0, c) > 0)
  {
    hide Cols, ReachedFrom, LeftTrim, Plain;
    LeftTrimFits(rs, c, pwidth, cols, a);
    ReachedFromIff(Column(rs, a, c, pwidth), cols);
    forall b: nat | LeftTrim(rs, c, pwidth, cols, b) ensures b == a {
      TrimUnique(rs, c, pwidth, cols, a, b);
    }
    if cols > 2 && pwidth == 0 {
      WindowHasWidth(rs, c, cols, a);
    }
  }

  // The trimming stops before it takes the last column: a cluster is two columns wide at most.
  lemma WindowHasWidth(rs: seq<Rune>, c: nat, cols: nat, a: nat)
    requires Plain(rs) && LeftTrim(rs, c, 0, cols, a) && cols > 2
    ensures a <= c <= |rs| && (Cols(rs, a, c) > 0 <==> Cols(rs, 0, c) > 0)
  {
    hide Cols, Plain, ClusterStart, CharWidth;
    if a > 0 {
      var k := ClusterBefore(rs, a);
      ColsSplit(rs, k, a, c);
      ColsSplit(rs, 0, a, c);
      TwoAtMost(rs[k]);
    }
  }

  lemma TwoAtMost(r: Rune)
    ensures CharWidth(r) <= 2
  {
    hide IsExtend, IsWide;
  }

  lemma ClusterBefore(rs: seq<Rune>, a: nat) returns (k: nat)
    requires Plain(rs) && 0 < a <= |rs|
    ensures k < a && ClusterStart(rs, k) && Cols(rs, k, a) == CharWidth(rs[k])
  {
    hide Cols, IsExtend, CharWidth, Plain, ScanPrev;
    ScanPrevOfPlain(rs, a - 1);
    k := ScanPrev(rs, a - 1);
    ColsOfCluster(rs, k, a);
  }

  /** With an empty prompt the refresh of an empty line leaves the cursor one column too far. */
  method RefreshEmpty() returns (l: Editor, output: Bytes)
    ensures l.Valid() && l.View() == Lines.EMPTY && WF([]) && Shows(output, [], [], 0, 80)
    ensures !Reached([], 0, 0, 80)
    ensures output == [CR, ESC] + Ascii("[0K") + [CR, ESC] + Ascii("[0C")
  {
    hide Width, LeftTrim, RightTrim, Reached, Cols, Rendered, ShownAt, Ascii;
    l := new Editor(4096, 1024 * 1024, false, []);
    NothingShown();
    output := RefreshSingleLine(l, [], 80, [], 0);
    CursorReachedIff([], 0, 0, 80, 0);
    NothingPainted(output);
  }

  lemma NothingShown()
    ensures Ordered([], 0) && Rendered([], []) == Encode([]) == [] && ShownAt([], [], 0) == Size([]) == 0
    ensures WF([]) && Width([], false) == 0 && Plain([]) && ClusterStart([], 0)
    ensures LeftTrim([], 0, 0, 80, 0) && Cols([], 0, 0) == 0
  {
    WFEmpty();
    WidthEmpty([], false);
  }

  lemma NothingPainted(output: Bytes)
    requires WF([]) && Shows(output, [], [], 0, 80)
    ensures output == [CR, ESC] + Ascii("[0K") + [CR, ESC] + Ascii("[0C")
  {
    hide Width, LeftTrim, RightTrim, ClusterStart, Cols, Sent, Encode, Ascii, Plain;
    NothingShown();
    var a: nat, b: nat :| ShowsWindow(output, [], 0, [], a, 0, b, 80);
    WindowIsEmpty(a, 0, b, 80);
    NothingSent();
  }

  lemma WindowIsEmpty(a: nat, c: nat, b: nat, cols: nat)
    requires c == 0 && LeftTrim([], c, 0, cols, a) && RightTrim([], a, c, 0, cols, b)
    ensures a == b == 0
  {}

  lemma NothingSent()
    ensures Encode([]) == []
    ensures Painted([], [], 0) == [CR, ESC] + Ascii("[0K") + [CR, ESC] + Ascii("[0C")
  {
    assert Number(0) == [0x30];
    assert Ascii("[0C") == [BRACKET, 0x30, 0x43];
    AsciiBytes();
  }

  // The bytes of the moves that the view sends.
  lemma SentIs(column: nat)
    ensures Sent(Return) == [CR] && Sent(EraseRight) == [ESC, BRACKET, 0x30, 0x4B]
    ensures Sent(Forward(column)) == [ESC, BRACKET] + Number(column) + [0x43]
  {
    hide Number, Ascii;
    AsciiBytes();
    assert [ESC] + [BRACKET, 0x30, 0x4B] == [ESC, BRACKET, 0x30, 0x4B] && [ESC] + [BRACKET] == [ESC, BRACKET];
  }


  // ---------- the row on the screen ----------

  // The row of the cursor holds the prompt, then the window, then nothing; in a full row an eager terminal erases the last
  // column. No other row has changed.
  ghost predicate RowIs(u: Term, t: Term, prompt: seq<Cell>, window: seq<Cell>, cols: nat)
    requires cols > 0
  {
    && u.row == t.row && |prompt| + |window| <= cols
    && (forall k: int :: 0 <= k < cols ==> CellIs(u, t.row, k, prompt, window, t.eager, cols))
    && forall r: int, k: int :: r != t.row && 0 <= k < cols ==> u.at(r, k) == t.at(r, k)
  }

  ghost predicate CellIs(u: Term, row: int, k: int, prompt: seq<Cell>, window: seq<Cell>, eager: bool, cols: nat)
    requires 0 <= k < cols
  {
    u.at(row, k) ==
    if k < |prompt| then prompt[k]
    else if k < |prompt| + |window| && !(eager && |prompt| + |window| == cols && k == cols - 1) then window[k - |prompt|]
    else Blank
  }

  // The bytes say the characters of prompt and window between the moves. From any terminal, they leave both on the cursor's
  // row, and the cursor on its column exactly under the condition that CursorReachedIff gives.
  ghost predicate ShownOn(output: Bytes, prompt: Bytes, rs: seq<Rune>, a: nat, c: nat, b: nat, cols: nat, t: Term)
    requires WF(prompt) && cols > 0
  {
    && WF(output) && a <= c <= |rs| && a <= b <= |rs|
    && Read(output) == [Return] + Puts(Letters(prompt) + rs[a..b]) + [EraseRight] + [Return]
                       + [Forward(Width(prompt, false) + Cols(rs, a, c))]
    && var u := Run(t, Read(output), cols);
       && RowIs(u, t, Lay(Letters(prompt)), Lay(rs[a..b]), cols)
       && |Lay(Letters(prompt))| == Width(prompt, false) && |Lay(rs[a..b])| == Cols(rs, a, b)
       && (u.col == Width(prompt, false) + Cols(rs, a, c) <==> Width(prompt, false) > 0 || Cols(rs, a, c) > 0 || cols == 1)
  }

  /** What a terminal does on the bytes of a refresh. */
  lemma WindowShown(output: Bytes, prompt: Bytes, rs: seq<Rune>, a: nat, c: nat, b: nat, cols: nat, t: Term)
    requires WF(prompt) && Steady(prompt) && !EndsJoined(Letters(prompt), false) && Plain(rs) && Printable(rs)
    requires cols > 0 && ShowsWindow(output, prompt, Width(prompt, false), rs, a, c, b, cols)
    ensures ShownOn(output, prompt, rs, a, c, b, cols, t)
  {
    hide WF, Steady, Letters, Says, Lay, Plain, Printable, Width, Encode, Puts, EndsJoined, LeftTrim, RightTrim, Run, Read, Painted,
      Cols, RowIs, Exec, NoSplit;
    TrimBounds(rs, a, c, b, Width(prompt, false), cols);
    ColsAre(rs, a, b);
    var p, w, n := Letters(prompt), rs[a..b], Width(prompt, false) + Cols(rs, a, c);
    PaintedSays(prompt, rs, a, b, n);
    var ops := [Return] + Puts(p + w) + [EraseRight] + [Return] + [Forward(n)];
    SaysAll(output, ops);
    SaysSteady(prompt, false);
    LayWidth(p);
    LayWidth(w);
    LayConcat(p, w);
    OneRowFits(p + w, cols);
    RowWritten(t, p, w, n, cols);
    ColumnIs(t, [Return] + Puts(p + w) + [EraseRight], n, cols);
  }

  // For the window that the trimming leaves.
  ghost predicate ShownEverywhere(output: Bytes, prompt: Bytes, rs: seq<Rune>, c: nat, cols: nat)
    requires WF(prompt) && cols > 0
  {
    exists a: nat, b: nat ::
      && ShowsWindow(output, prompt, Width(prompt, false), rs, a, c, b, cols)
      && forall t: Term :: ShownOn(output, prompt, rs, a, c, b, cols, t)
  }

  lemma WindowShownEverywhere(output: Bytes, prompt: Bytes, rs: seq<Rune>, a: nat, c: nat, b: nat, cols: nat)
    requires WF(prompt) && Steady(prompt) && !EndsJoined(Letters(prompt), false) && Plain(rs) && Printable(rs)
    requires cols > 0 && ShowsWindow(output, prompt, Width(prompt, false), rs, a, c, b, cols)
    ensures ShownEverywhere(output, prompt, rs, c, cols)
  {
    hide WF, Steady, Letters, Plain, Printable, Width, EndsJoined, ShowsWindow, ShownOn;
    forall t: Term ensures ShownOn(output, prompt, rs, a, c, b, cols, t) {
      WindowShown(output, prompt, rs, a, c, b, cols, t);
    }
  }

  lemma ColsAre(rs: seq<Rune>, a: nat, b: nat)
    requires a <= b <= |rs|
    ensures Cols(rs, a, b) == RunesWidth(rs[a..b], false)
  {
    hide RunesWidth;
  }

  lemma TrimBounds(rs: seq<Rune>, a: nat, c: nat, b: nat, pwidth: nat, cols: nat)
    requires LeftTrim(rs, c, pwidth, cols, a) && RightTrim(rs, a, c, pwidth, cols, b)
    ensures a <= c <= b <= |rs| && pwidth + Cols(rs, a, b) <= cols && pwidth + Cols(rs, a, c) < cols
  {
    hide Cols, ClusterStart;
  }

  lemma PaintedSays(prompt: Bytes, rs: seq<Rune>, a: nat, b: nat, n: nat)
    requires WF(prompt) && Steady(prompt) && Printable(rs) && a <= b <= |rs|
    ensures Says(Painted(prompt, Encode(rs[a..b]), n),
                 [Return] + Puts(Letters(prompt) + rs[a..b]) + [EraseRight] + [Return] + [Forward(n)])
  {
    hide WF, Steady, Letters, Says, Encode, Puts, Number, Sent;
    var p, w := Letters(prompt), rs[a..b];
    PrintablePart(rs, a, b);
    SaysSteady(prompt, false);
    SaysRunes(w);
    PutsConcat(p, w);
    SentIs(n);
    SentSays(Return);
    SentSays(EraseRight);
    SentSays(Forward(n));
    SaysConcat(Sent(Return), [Return], prompt, Puts(p));
    SaysConcat([CR] + prompt, [Return] + Puts(p), Encode(w), Puts(w));
    SaysConcat([CR] + prompt + Encode(w), [Return] + Puts(p) + Puts(w), Sent(EraseRight), [EraseRight]);
    SaysConcat(Sent(Return), [Return], Sent(Forward(n)), [Forward(n)]);
    SaysConcat([CR] + prompt + Encode(w) + Sent(EraseRight), [Return] + Puts(p) + Puts(w) + [EraseRight],
               Sent(Return) + Sent(Forward(n)), [Return] + [Forward(n)]);
    AssocOps([Return], Puts(p), Puts(w));
    AssocOps([Return] + Puts(p + w) + [EraseRight], [Return], [Forward(n)]);
  }

  lemma PrintablePart(rs: seq<Rune>, a: nat, b: nat)
    requires Printable(rs) && a <= b <= |rs|
    ensures Printable(rs[a..b])
  {
    hide IsPrintable;
  }

  lemma ColumnIs(t: Term, ops: seq<Op>, n: nat, cols: nat)
    requires n < cols
    ensures var u := Run(t, ops + [Return] + [Forward(n)], cols);
            && u.row == Run(t, ops, cols).row && u.at == Run(t, ops, cols).at
            && (u.col == n <==> n > 0 || cols == 1)
  {
    hide Run;
    RunSnoc(t, ops, Return, cols);
    RunSnoc(t, ops + [Return], Forward(n), cols);
  }

  lemma RowWritten(t: Term, p: seq<Rune>, w: seq<Rune>, n: nat, cols: nat)
    requires cols > 0 && n < cols && NoSplit(p + w, cols) && Lay(p + w) == Lay(p) + Lay(w) && |Lay(p + w)| <= cols
    requires |Lay(p)| < cols
    ensures RowIs(Run(t, [Return] + Puts(p + w) + [EraseRight] + [Return] + [Forward(n)], cols), t, Lay(p), Lay(w), cols)
  {
    hide Run, Puts, Lay, NoSplit, Exec, RowIs;
    var s := Exec(t, Return, cols);
    ReturnIs(t, cols);
    PutsHold(s, p + w, cols);
    RunOne(t, Return, cols);
    RunConcat(t, [Return], Puts(p + w), cols);
    var v := Run(s, Puts(p + w), cols);
    RunSnoc(t, [Return] + Puts(p + w), EraseRight, cols);
    RestErased(v, s, t, Lay(p), Lay(w), cols);
    ColumnIs(t, [Return] + Puts(p + w) + [EraseRight], n, cols);
    SameRow(Exec(v, EraseRight, cols), Run(t, [Return] + Puts(p + w) + [EraseRight] + [Return] + [Forward(n)], cols), t,
            Lay(p), Lay(w), cols);
  }

  lemma ReturnIs(t: Term, cols: nat)
    requires cols > 0
    ensures var s := Exec(t, Return, cols);
            s.row == t.row && s.col == 0 && !s.wrap && !s.join && s.at == t.at && s.eager == t.eager
  {}

  lemma SameRow(u: Term, v: Term, t: Term, p: seq<Cell>, w: seq<Cell>, cols: nat)
    requires cols > 0 && RowIs(u, t, p, w, cols) && u.at == v.at && u.row == v.row
    ensures RowIs(v, t, p, w, cols)
  {
    forall k: int | 0 <= k < cols ensures CellIs(v, t.row, k, p, w, t.eager, cols) {
      assert CellIs(u, t.row, k, p, w, t.eager, cols);
    }
  }

  lemma RestErased(v: Term, s: Term, t: Term, p: seq<Cell>, w: seq<Cell>, cols: nat)
    requires cols > 0 && |p| < cols && |p| + |w| <= cols && s.row == t.row && s.at == t.at && v.eager == t.eager
    requires AtIndex(v, t.row, |p + w|, cols) && Holds(v, s, t.row, p + w, cols)
    ensures RowIs(Exec(v, EraseRight, cols), t, p, w, cols)
  {
    hide AtIndex, IndexOf;
    EndOfRow(v, t.row, |p + w|, cols);
    var u := Exec(v, EraseRight, cols);
    forall r: int, k: int | 0 <= k < cols
      ensures r == t.row ==> CellIs(u, r, k, p, w, t.eager, cols)
      ensures r != t.row ==> u.at(r, k) == t.at(r, k)
    {
      assert HeldAt(v, s, t.row, p + w, r, k, cols);
      OneRowIndex(t.row, r, k, cols);
    }
  }

  lemma EndOfRow(v: Term, row: int, n: nat, cols: nat)
    requires 0 < cols && n <= cols && AtIndex(v, row, n, cols)
    ensures v.row == row && (n < cols ==> v.col == n && !v.wrap) && (n == cols ==> v.col == cols - 1 && v.wrap)
  {
    if n > 0 {
      NextIndex(n, cols);
      if n < cols {
        DivOf(n, 0, n, cols);
        DivOf(n - 1, 0, n - 1, cols);
      } else {
        DivOf(n, 1, 0, cols);
        DivOf(n - 1, 0, n - 1, cols);
      }
    }
  }

  lemma OneRowIndex(top: int, r: int, k: int, cols: nat)
    requires 0 <= k < cols
    ensures r == top ==> IndexOf(top, r, k, cols) == k
    ensures r < top ==> IndexOf(top, r, k, cols) < 0
    ensures r > top ==> IndexOf(top, r, k, cols) >= cols
  {
    IndexSign(top, r, k, cols);
    if r > top {
      MulLess(0, r - top, cols);
    }
  }

  /** refreshSingleLine, without hints and outside mask mode. */
  method RefreshSingleLine(l: Editor, prompt: Bytes, cols: nat, ghost rs: seq<Rune>, ghost c: nat) returns (output: Bytes)
    requires l.Valid() && !l.masked && Ordered(l.folds.folds, l.len)
    requires WF(prompt) && Width(prompt, false) < cols
    requires Rendered(l.View().text, l.folds.folds) == Encode(rs) && Plain(rs)
    requires c <= |rs| && ClusterStart(rs, c) && ShownAt(l.View().text, l.folds.folds, l.pos) == Size(rs[..c])
    ensures Shows(output, prompt, rs, c, cols)
    ensures Steady(prompt) && !EndsJoined(Letters(prompt), false) && Printable(rs) ==>
              ShownEverywhere(output, prompt, rs, c, cols)
    ensures cols > 2 ==> (Reached(rs, c, Width(prompt, false), cols) <==> Width(prompt, false) > 0 || Cols(rs, 0, c) > 0)
  {
    hide Steady, Letters, EndsJoined, Printable, ShownEverywhere, Reached, Encode, Encode1, Plain, ClusterStart, LeftTrim, RightTrim, Width, Cols, Rendered, ShownAt, Shown, Sent, Ordered;
    assert prompt[..|prompt|] == prompt;
    var pwidth := StrWidth(prompt, |prompt|);
    var render, rlen, rpos := RenderBuffer(l);
    var buf, len, pos, poscol, lencol;
    ghost var a, b;
    buf, len, pos, poscol, lencol, a, b := Trim(render[..], rlen, rpos, pwidth, cols, rs, c);
    LeftTrimFits(rs, c, pwidth, cols, a);
    CursorReachedIff(rs, c, pwidth, cols, a);
    SentIs(poscol + pwidth);
    output := Sent(Return) + prompt + buf[..len] + Sent(EraseRight) + (Sent(Return) + Sent(Forward(poscol + pwidth)));
    assert ShowsWindow(output, prompt, pwidth, rs, a, c, b, cols);
    if Steady(prompt) && !EndsJoined(Letters(prompt), false) && Printable(rs) {
      WindowShownEverywhere(output, prompt, rs, a, c, b, cols);
    }
  }

  lemma LeftTrimFits(rs: seq<Rune>, c: nat, pwidth: nat, cols: nat, a: nat)
    requires LeftTrim(rs, c, pwidth, cols, a)
    ensures a <= c <= |rs| && pwidth + Cols(rs, a, c) < cols
  {}
}
