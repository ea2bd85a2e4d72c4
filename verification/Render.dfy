/** What the terminal shows of the line: the text with every fold replaced by its marker, and the cursor
    carried over into that. */
module Render {
  import opened Utf8
  import opened Numerals
  import opened Folds
  import opened Lines
  import opened Paste
  import opened Memory
  import opened Editors

  // ---------- markers ----------

  function Ascii(s: string): (b: Bytes)
    requires forall i :: 0 <= i < |s| ==> ' ' <= s[i] <= '~'
    ensures |b| == |s| && forall i :: 0 <= i < |b| ==> 32 <= b[i] < 127
  {
    seq(|s|, i requires 0 <= i < |s| => s[i] as int)
  }

  // `%zu`
  function Number(n: nat): Bytes {
    Ascii(Decimal(n))
  }

  function Newlines(s: Bytes): nat {
    if s == [] then 0 else Newlines(s[..|s| - 1]) + (if s[|s| - 1] == LF then 1 else 0)
  }

  /** foldSetRenderedText: what is shown instead of the hidden bytes. */
  function Marker(hidden: Bytes): Bytes {
    var lines := 1 + Newlines(hidden);
    if lines > 1 then Ascii("[... ") + Number(lines) + Ascii(" pasted lines ...]")
    else Ascii("[... ") + Number(|hidden|) + Ascii(" pasted chars ...]")
  }

  const DISPLAY_SIZE := 64    // of the buffer a marker is written to, with its closing NUL

  lemma {:induction false} DecimalLength(n: nat, k: nat)
    requires k > 0 && n < Power10(k)
    ensures |Decimal(n)| <= k
  {
    assert Power10(1) == 10 * Power10(0);
    if n >= 10 {
      DecimalLength(n / 10, k - 1);
    }
  }

  function Power10(k: nat): nat {
    if k == 0 then 1 else 10 * Power10(k - 1)
  }

  lemma NewlinesBound(s: Bytes)
    ensures Newlines(s) <= |s|
  {
    if s != [] { NewlinesBound(s[..|s| - 1]); }
  }

  /** A marker is printable ASCII, never empty, and always fits its buffer: the length that snprintf reports is
      the number of bytes it wrote. */
  lemma MarkerFits(hidden: Bytes)
    requires |hidden| < SIZE_MAX
    ensures 0 < |Marker(hidden)| < DISPLAY_SIZE
    ensures forall i :: 0 <= i < |Marker(hidden)| ==> 32 <= Marker(hidden)[i] < 127
  {
    NewlinesBound(hidden);
    Twenty();
    DecimalLength(1 + Newlines(hidden), 20);
    DecimalLength(|hidden|, 20);
  }

  lemma Twenty()
    ensures SIZE_MAX + 1 < Power10(20)
  {
    Step5(0); Step5(5); Step5(10); Step5(15);
  }

  lemma Step5(k: nat)
    ensures Power10(k + 5) == 100000 * Power10(k)
  {
    assert Power10(k + 1) == 10 * Power10(k);
    assert Power10(k + 2) == 10 * Power10(k + 1);
    assert Power10(k + 3) == 10 * Power10(k + 2);
    assert Power10(k + 4) == 10 * Power10(k + 3);
    assert Power10(k + 5) == 10 * Power10(k + 4);
  }

  // ---------- the rendered line ----------

  function EndOf(fs: seq<Fold>): int {
    if fs == [] then 0 else fs[|fs| - 1].end
  }

  // What is shown up to the end of the last fold.
  function Shown(text: Bytes, fs: seq<Fold>): Bytes
    requires Ordered(fs, |text|)
  {
    if fs == [] then []
    else
      var g, f := fs[..|fs| - 1], fs[|fs| - 1];
      OrderedWider(g, f.start, |text|);
      EndInside(g, f.start);
      Shown(text, g) + text[EndOf(g)..f.start] + Marker(text[f.start..f.end])
  }

  lemma EndInside(fs: seq<Fold>, m: int)
    requires Ordered(fs, m) && m >= 0
    ensures 0 <= EndOf(fs) <= m
  {}

  function Rendered(text: Bytes, fs: seq<Fold>): Bytes
    requires Ordered(fs, |text|)
  {
    EndInside(fs, |text|);
    Shown(text, fs) + text[EndOf(fs)..]
  }

  // Where the byte offset p of the text is shown.
  function ShownAt(text: Bytes, fs: seq<Fold>, p: nat): int
    requires Ordered(fs, |text|)
  {
    if fs == [] then p
    else
      var g, f := fs[..|fs| - 1], fs[|fs| - 1];
      OrderedWider(g, f.start, |text|);
      if p >= f.end then |Shown(text, fs)| + (p - f.end)
      else if p > f.start then |Shown(text, fs)|
      else ShownAt(text, g, p)
  }

  // In mask mode nothing is folded.
  ghost function Visible(l: Line, masked: bool): seq<Fold> {
    if masked then [] else l.folds
  }

  // ---------- properties of the cursor map ----------

  lemma ShownLast(text: Bytes, fs: seq<Fold>)
    requires Ordered(fs, |text|) && fs != []
    ensures var g, f := fs[..|fs| - 1], fs[|fs| - 1];
            && Ordered(g, |text|) && 0 <= EndOf(g) <= f.start < f.end <= |text|
            && Shown(text, fs) == Shown(text, g) + text[EndOf(g)..f.start] + Marker(text[f.start..f.end])
            && |Shown(text, fs)| == |Shown(text, g)| + (f.start - EndOf(g)) + |Marker(text[f.start..f.end])|
  {
    hide Marker;
    var g, f := fs[..|fs| - 1], fs[|fs| - 1];
    OrderedWider(g, f.start, |text|);
    EndInside(g, f.start);
  }

  // Before the last fold ends, the cursor is shown no later than its marker ends.
  lemma {:induction false} ShownAtBound(text: Bytes, fs: seq<Fold>, p: nat)
    requires Ordered(fs, |text|)
    ensures 0 <= ShownAt(text, fs, p)
    ensures p >= EndOf(fs) ==> ShownAt(text, fs, p) == |Shown(text, fs)| + (p - EndOf(fs))
    ensures p <= EndOf(fs) ==> ShownAt(text, fs, p) <= |Shown(text, fs)|
  {
    hide Marker, Shown;
    if fs != [] {
      ShownLast(text, fs);
      ShownAtBound(text, fs[..|fs| - 1], p);
    } else {
      ShownNone(text);
    }
  }

  lemma ShownNone(text: Bytes)
    ensures Shown(text, []) == []
  {}

  /** The shown cursor moves right when the cursor does, and stays within what is shown. */
  lemma {:induction false} ShownAtMonotone(text: Bytes, fs: seq<Fold>, p: nat, q: nat)
    requires Ordered(fs, |text|) && p <= q <= |text|
    ensures 0 <= ShownAt(text, fs, p) <= ShownAt(text, fs, q) <= |Rendered(text, fs)|
  {
    hide Marker, Shown;
    EndInside(fs, |text|);
    ShownAtBound(text, fs, p);
    ShownAtBound(text, fs, q);
    if fs != [] {
      var g := fs[..|fs| - 1];
      ShownLast(text, fs);
      ShownAtBound(text, g, p);
      if q <= fs[|fs| - 1].start { ShownAtMonotone(text, g, p, q); }
    }
  }

  // The folds that end at or before p.
  function Before(fs: seq<Fold>, p: int): seq<Fold> {
    if fs == [] || fs[|fs| - 1].end <= p then fs else Before(fs[..|fs| - 1], p)
  }

  lemma {:induction false} ShownPart(text: Bytes, fs: seq<Fold>, p: nat)
    requires Ordered(fs, p) && p <= |text|
    ensures Ordered(fs, |text|) && Shown(text[..p], fs) == Shown(text, fs)
  {
    hide Marker;
    OrderedWider(fs, p, |text|);
    if fs != [] {
      var g, f := fs[..|fs| - 1], fs[|fs| - 1];
      OrderedWider(g, f.start, p);
      EndInside(g, f.start);
      ShownPart(text, g, p);
      ShownLast(text, fs);
      assert text[..p][EndOf(g)..f.start] == text[EndOf(g)..f.start];
      assert text[..p][f.start..f.end] == text[f.start..f.end];
    }
  }

  /** A cursor in no fold is shown where the text before it, rendered by itself, ends. */
  lemma {:induction false} ShownAtOutside(text: Bytes, fs: seq<Fold>, p: nat)
    requires Ordered(fs, |text|) && p <= |text|
    requires forall i :: 0 <= i < |fs| ==> !Inside(p, fs[i])
    ensures Ordered(Before(fs, p), p) && ShownAt(text, fs, p) == |Rendered(text[..p], Before(fs, p))|
  {
    hide Marker, Shown;
    if fs == [] || fs[|fs| - 1].end <= p {
      EndInside(fs, |text|);
      OrderedNarrower(fs, |text|, p);
      ShownPart(text, fs, p);
      EndInside(fs, p);
      ShownAtBound(text, fs, p);
    } else {
      var g := fs[..|fs| - 1];
      assert !Inside(p, fs[|fs| - 1]);
      assert forall i :: 0 <= i < |g| ==> g[i] == fs[i];
      ShownLast(text, fs);
      ShownAtOutside(text, g, p);
    }
  }

  lemma OrderedNarrower(fs: seq<Fold>, m: int, p: int)
    requires Ordered(fs, m) && EndOf(fs) <= p
    ensures Ordered(fs, p)
  {}

  /** A cursor strictly inside fold k is shown right after that fold's marker. */
  lemma {:induction false} ShownAtInside(text: Bytes, fs: seq<Fold>, p: nat, k: nat)
    requires Ordered(fs, |text|) && k < |fs| && Inside(p, fs[k])
    ensures Ordered(fs[..k+1], |text|) && ShownAt(text, fs, p) == |Shown(text, fs[..k+1])|
  {
    hide Marker, Shown;
    if k == |fs| - 1 {
      assert fs[..k+1] == fs;
    } else {
      var g := fs[..|fs| - 1];
      ShownLast(text, fs);
      OrderedAt(fs, |text|);
      assert g[k] == fs[k] && g[..k+1] == fs[..k+1];
      ShownAtInside(text, g, p, k);
    }
  }

  // ---------- the rendering loop ----------

  datatype RenderFold = RenderFold(start: int, end: int, display: Bytes)

  method CountLines(s: Bytes) returns (lines: nat)
    ensures lines == 1 + Newlines(s)
  {
    lines := 1;
    var j := 0;
    while j < |s|
      invariant j <= |s| && lines == 1 + Newlines(s[..j])
    {
      assert s[..j+1][..j] == s[..j];
      if s[j] == LF { lines := lines + 1; }
      j := j + 1;
    }
    assert s[..j] == s;
  }

  lemma PartOfPrefix(s: Bytes, n: nat, start: nat, end: nat)
    requires start <= end <= n <= |s|
    ensures s[..n][start..end] == s[start..end]
  {}

  /** foldSetRenderedText */
  method SetRenderedText(l: Editor, start: nat, end: nat) returns (display: Bytes)
    requires l.Valid() && start <= end <= l.len
    ensures display == Marker(l.View().text[start..end])
  {
    hide Number, Ascii, Newlines, Fine;
    ghost var text := l.View().text;
    PartOfPrefix(l.buf[..], l.len, start, end);
    var hidden := end - start;
    var lines := CountLines(l.buf[..][start..end]);
    if lines > 1 {
      display := Ascii("[... ") + Number(lines) + Ascii(" pasted lines ...]");
    } else {
      display := Ascii("[... ") + Number(hidden) + Ascii(" pasted chars ...]");
    }
  }

  // The folds with the markers that are shown for them.
  ghost predicate Marked(text: Bytes, fs: seq<Fold>, rs: seq<RenderFold>) {
    && |rs| == |fs|
    && forall i :: 0 <= i < |fs| ==>
         && 0 <= fs[i].start <= fs[i].end <= |text|
         && rs[i] == RenderFold(fs[i].start, fs[i].end, Marker(text[fs[i].start..fs[i].end]))
  }

  /** linenoiseGetRenderFolds */
  method GetRenderFolds(l: Editor) returns (rs: seq<RenderFold>)
    requires l.Valid()
    ensures Marked(l.View().text, Visible(l.View(), l.masked), rs)
  {
    hide Marker;
    ghost var text, fs := l.View().text, l.folds.folds;
    OrderedAt(fs, |text|);
    rs := [];
    if l.len == 0 || l.masked {
      return;
    }
    var j := 0;
    while j < l.folds.count
      invariant 0 <= j <= l.folds.count && Marked(text, fs[..j], rs)
    {
      var start, end := l.folds.starts[j], l.folds.ends[j];
      assert fs[j] == Fold(start, end);
      if start >= end || end > l.len {
        assert false;     // the folds of a valid line are non-empty and inside it: none is skipped
      }
      var display := SetRenderedText(l, start, end);
      rs := rs + [RenderFold(start, end, display)];
      j := j + 1;
    }
    assert fs[..j] == fs;
  }

  // The first j folds take what they take in the whole.
  lemma {:induction false} ShownPrefix(text: Bytes, fs: seq<Fold>, j: nat)
    requires Ordered(fs, |text|) && j <= |fs|
    ensures Ordered(fs[..j], |text|) && 0 <= EndOf(fs[..j]) <= |text|
    ensures |Shown(text, fs[..j])| <= |Shown(text, fs)|
    ensures j < |fs| ==> |Shown(text, fs[..j])| + (fs[j].start - EndOf(fs[..j])) <= |Shown(text, fs)|
    ensures j < |fs| ==> EndOf(fs[..j]) <= fs[j].start
  {
    hide Marker, Shown;
    EndInside(fs, |text|);
    if j == |fs| {
      assert fs[..j] == fs;
    } else {
      var g := fs[..|fs| - 1];
      ShownLast(text, fs);
      assert g[..j] == fs[..j];
      ShownPrefix(text, g, j);
      if j < |g| { assert g[j] == fs[j]; }
      EndInside(g, |text|);
    }
  }

  lemma ShownNext(text: Bytes, fs: seq<Fold>, j: nat)
    requires Ordered(fs, |text|) && j < |fs|
    ensures Ordered(fs[..j], |text|) && Ordered(fs[..j+1], |text|)
    ensures var f := fs[j];
            && 0 <= EndOf(fs[..j]) <= f.start < f.end <= |text| && EndOf(fs[..j+1]) == f.end
            && Shown(text, fs[..j+1]) == Shown(text, fs[..j]) + text[EndOf(fs[..j])..f.start] + Marker(text[f.start..f.end])
  {
    hide Marker;
    ShownPrefix(text, fs, j);
    ShownPrefix(text, fs, j + 1);
    assert fs[..j+1][..j] == fs[..j];
    ShownLast(text, fs[..j+1]);
  }

  // Where the cursor is shown is decided by the folds up to the first that starts at or after it.
  lemma {:induction false} ShownAtPrefix(text: Bytes, fs: seq<Fold>, p: nat, j: nat)
    requires Ordered(fs, |text|) && j <= |fs| && (j < |fs| ==> p <= fs[j].start)
    ensures Ordered(fs[..j], |text|) && ShownAt(text, fs, p) == ShownAt(text, fs[..j], p)
  {
    hide Marker, Shown;
    if j == |fs| {
      assert fs[..j] == fs;
    } else {
      var g := fs[..|fs| - 1];
      OrderedAt(fs, |text|);
      ShownLast(text, fs);
      assert g[..j] == fs[..j];
      if j < |g| { assert g[j] == fs[j]; }
      ShownAtPrefix(text, g, p, j);
    }
  }

  // The three places where the loop sets the position, for a cursor that fold j is the first to reach.
  lemma PositionAt(text: Bytes, fs: seq<Fold>, p: nat, j: nat)
    requires Ordered(fs, |text|) && j < |fs| && EndOf(fs[..j]) <= p
    ensures Ordered(fs[..j], |text|) && Ordered(fs[..j+1], |text|)
    ensures p <= fs[j].start ==> ShownAt(text, fs, p) == |Shown(text, fs[..j])| + (p - EndOf(fs[..j]))
    ensures fs[j].start < p <= fs[j].end ==> ShownAt(text, fs, p) == |Shown(text, fs[..j+1])|
  {
    hide Marker, Shown;
    ShownPrefix(text, fs, j);
    ShownPrefix(text, fs, j + 1);
    OrderedAt(fs, |text|);
    if p <= fs[j].start {
      ShownAtPrefix(text, fs, p, j);
      ShownAtBound(text, fs[..j], p);
    } else if p <= fs[j].end {
      ShownAtPrefix(text, fs, p, j + 1);
      ShownLast(text, fs[..j+1]);
      ShownAtBound(text, fs[..j+1], p);
    }
  }

  // The length that the first loop computes.
  function TotalLen(len: int, rs: seq<RenderFold>): int {
    if rs == [] then len
    else TotalLen(len, rs[..|rs| - 1]) - (rs[|rs| - 1].end - rs[|rs| - 1].start) + |rs[|rs| - 1].display|
  }

  lemma {:induction false} TotalLenIs(text: Bytes, fs: seq<Fold>, rs: seq<RenderFold>)
    requires Ordered(fs, |text|) && Marked(text, fs, rs)
    ensures TotalLen(|text|, rs) == |Rendered(text, fs)|
  {
    hide Marker, Shown;
    EndInside(fs, |text|);
    if fs != [] {
      ShownLast(text, fs);
      TotalLenIs(text, fs[..|fs| - 1], rs[..|rs| - 1]);
    } else {
      ShownNone(text);
    }
  }

  // What has been copied after j folds: src is how far the text is used, shown is what is written.
  ghost predicate Copied(shown: Bytes, src: int, text: Bytes, fs: seq<Fold>, j: nat) {
    && Ordered(fs, |text|) && j <= |fs| && Ordered(fs[..j], |text|)
    && 0 <= src == EndOf(fs[..j]) <= |text| && shown == Shown(text, fs[..j])
  }

  // The shown position after j folds: found, or still to come.
  ghost predicate PosState(posSet: bool, pos: int, text: Bytes, fs: seq<Fold>, p: nat, j: nat) {
    && Ordered(fs, |text|) && j <= |fs|
    && if posSet then pos == ShownAt(text, fs, p) else EndOf(fs[..j]) <= p
  }

  lemma CopyStarts(text: Bytes, fs: seq<Fold>, p: nat)
    requires Ordered(fs, |text|)
    ensures Copied([], 0, text, fs, 0) && PosState(false, 0, text, fs, p, 0)
  {
    assert fs[..0] == [];
    ShownNone(text);
  }

  lemma CopyNext(shown: Bytes, src: int, text: Bytes, fs: seq<Fold>, rs: seq<RenderFold>, j: nat)
    requires Marked(text, fs, rs) && Copied(shown, src, text, fs, j) && j < |fs|
    ensures var f := rs[j];
            && 0 <= src <= f.start <= f.end <= |text|
            && |shown| + (f.start - src) + |f.display| <= |Rendered(text, fs)|
            && Copied(shown + text[src..f.start] + f.display, f.end, text, fs, j + 1)
  {
    hide Marker, Shown;
    EndInside(fs, |text|);
    ShownNext(text, fs, j);
    ShownPrefix(text, fs, j + 1);
  }

  // The cursor against fold j: at its start or before, up to its end, or past it.
  lemma PosNext(posSet: bool, pos: int, shown: Bytes, src: int, text: Bytes, fs: seq<Fold>, rs: seq<RenderFold>, p: nat, j: nat)
    requires Marked(text, fs, rs) && Copied(shown, src, text, fs, j) && j < |fs|
    requires PosState(posSet, pos, text, fs, p, j)
    ensures var f, d := rs[j], |shown|;
            && (posSet ==> PosState(true, pos, text, fs, p, j + 1))
            && (!posSet && p <= f.start ==> PosState(true, d + (p - src), text, fs, p, j + 1))
            && (!posSet && f.start < p <= f.end ==> PosState(true, d + (f.start - src) + |f.display|, text, fs, p, j + 1))
            && (!posSet && p > f.end ==> PosState(false, pos, text, fs, p, j + 1))
  {
    hide Marker, Shown, ShownAt;
    ShownNext(text, fs, j);
    if !posSet { PositionAt(text, fs, p, j); }
  }

  lemma CopyEnds(shown: Bytes, src: int, text: Bytes, fs: seq<Fold>, posSet: bool, pos: int, p: nat)
    requires Copied(shown, src, text, fs, |fs|) && PosState(posSet, pos, text, fs, p, |fs|)
    ensures shown + text[src..] == Rendered(text, fs)
    ensures (if posSet then pos else |shown| + (p - src)) == ShownAt(text, fs, p)
  {
    hide Marker, Shown;
    assert fs[..|fs|] == fs;
    ShownAtBound(text, fs, p);
  }

  lemma NothingFolded(text: Bytes, p: nat)
    ensures Rendered(text, []) == text && ShownAt(text, [], p) == p
  {
    ShownNone(text);
  }

  /** linenoiseRenderBuffer: it fills exactly the length it computed. */
  method RenderBuffer(l: Editor) returns (out: array<Byte>, outlen: nat, outpos: int)
    requires l.Valid()
    ensures Ordered(Visible(l.View(), l.masked), l.len)
    ensures fresh(out) && out.Length == outlen + 1 && out[outlen] == 0
    ensures out[..][..outlen] == Rendered(l.View().text, Visible(l.View(), l.masked))
    ensures outpos == ShownAt(l.View().text, Visible(l.View(), l.masked), l.pos)
  {
    hide Marker, Shown, Rendered, ShownAt;
    var rs := GetRenderFolds(l);
    if |rs| == 0 {
      NothingFolded(l.View().text, l.pos);
      assert Visible(l.View(), l.masked) == [];
      out := new Byte[l.len + 1];
      Append(out, 0, l.buf[..][..l.len]);
      outlen, outpos := l.len, l.pos;
    } else {
      out, outlen, outpos := RenderFolds(l, rs);
    }
    OverAfter(out[..], outlen, outlen, 0);
    ghost var s := out[..];
    out[outlen] := 0;
    assert out[..] == s[outlen := 0];
  }

  method TotalOf(len: nat, rs: seq<RenderFold>) returns (total: int)
    ensures total == TotalLen(len, rs)
  {
    total := len;
    var j := 0;
    while j < |rs|
      invariant j <= |rs| && total == TotalLen(len, rs[..j])
    {
      assert rs[..j+1][..j] == rs[..j];
      total := total - (rs[j].end - rs[j].start);
      total := total + |rs[j].display|;
      j := j + 1;
    }
    assert rs[..j] == rs;
  }

  // One turn of the loop: the gap before the fold is copied, the fold is replaced by its marker.
  method RenderOne(l: Editor, f: RenderFold, r: array<Byte>, at: nat, src: int, p: int, known: bool)
    returns (dst: nat, pos: int, posSet: bool)
    requires l.Valid() && r != l.buf && 0 <= src <= f.start <= f.end <= l.len
    requires at + (f.start - src) + |f.display| < r.Length
    modifies r
    ensures dst == at + (f.start - src) + |f.display|
    ensures r[..][..dst] == old(r[..][..at]) + l.View().text[src..f.start] + f.display
    ensures known ==> posSet && pos == p
    ensures !known && l.pos <= f.start ==> posSet && pos == at + (l.pos - src)
    ensures !known && f.start < l.pos <= f.end ==> posSet && pos == dst
    ensures !known && l.pos > f.end ==> !posSet && pos == p
  {
    hide Ordered;
    dst, pos, posSet := at, p, known;
    var gap := f.start - src;
    if !posSet && l.pos <= f.start {
      pos := dst + (l.pos - src);
      posSet := true;
    }
    assert l.buf[..][src..f.start] == l.View().text[src..f.start];
    Append(r, dst, l.buf[..][src..f.start]);
    dst := dst + gap;
    if !posSet && l.pos < f.end {
      pos := dst + |f.display|;
      posSet := true;
    }
    Append(r, dst, f.display);
    dst := dst + |f.display|;
    if !posSet && l.pos == f.end {
      pos := dst;
      posSet := true;
    }
  }

  // Gaps are copied, folded ranges are replaced by their markers.
  method RenderFolds(l: Editor, rs: seq<RenderFold>) returns (r: array<Byte>, len: nat, pos: int)
    requires l.Valid() && Marked(l.View().text, l.folds.folds, rs)
    ensures fresh(r) && r.Length == len + 1
    ensures r[..][..len] == Rendered(l.View().text, l.folds.folds)
    ensures pos == ShownAt(l.View().text, l.folds.folds, l.pos)
  {
    hide Marker, Shown, Rendered, ShownAt, Copied, PosState, Ordered;
    ghost var text, fs := l.View().text, l.folds.folds;
    TotalLenIs(text, fs, rs);
    var total := TotalOf(l.len, rs);
    len := total;
    r := new Byte[len + 1];
    var src: int, dst: nat, posSet, j := 0, 0, false, 0;
    pos := 0;
    CopyStarts(text, fs, l.pos);
    while j < |rs|
      invariant j <= |rs| && 0 <= dst <= len
      invariant Copied(r[..][..dst], src, text, fs, j)
      invariant PosState(posSet, pos, text, fs, l.pos, j)
    {
      CopyNext(r[..][..dst], src, text, fs, rs, j);
      PosNext(posSet, pos, r[..][..dst], src, text, fs, rs, l.pos, j);
      dst, pos, posSet := RenderOne(l, rs[j], r, dst, src, pos, posSet);
      src := rs[j].end;
      j := j + 1;
    }
    CopyEnds(r[..][..dst], src, text, fs, posSet, pos, l.pos);
    CopiedBound(r[..][..dst], src, text, fs);
    if !posSet {
      pos := dst + (l.pos - src);
    }
    assert l.buf[..][src..l.len] == text[src..];
    Append(r, dst, l.buf[..][src..l.len]);
  }

  lemma CopiedBound(shown: Bytes, src: int, text: Bytes, fs: seq<Fold>)
    requires Copied(shown, src, text, fs, |fs|)
    ensures 0 <= src <= |text|
  {}

  // ---------- newlines are not shown ----------

  ghost predicate NoLf(s: Bytes) {
    forall i :: 0 <= i < |s| ==> s[i] != LF
  }

  lemma NoLfConcat(a: Bytes, b: Bytes)
    requires NoLf(a) && NoLf(b)
    ensures NoLf(a + b)
  {}

  lemma NotInGap(l: Line, j: nat, i: nat)
    requires Fine(l) && j <= |l.folds|
    requires j > 0 ==> l.folds[j-1].end <= i
    requires i < if j < |l.folds| then l.folds[j].start else |l.text|
    ensures !InFold(l.folds, i)
  {
    OrderedAt(l.folds, |l.text|);
  }

  // The text between two folds, or after the last, is in no fold.
  lemma GapNoLf(l: Line, j: nat)
    requires Fine(l) && LfFolded(l) && j <= |l.folds|
    ensures var p, q := EndOf(l.folds[..j]), if j < |l.folds| then l.folds[j].start else |l.text|;
            0 <= p <= q <= |l.text| && NoLf(l.text[p..q])
  {
    hide Shown, Marker;
    ShownPrefix(l.text, l.folds, j);
    OrderedAt(l.folds, |l.text|);
    EndInside(l.folds, |l.text|);
    assert l.folds[..|l.folds|] == l.folds;
    var p, q := EndOf(l.folds[..j]), if j < |l.folds| then l.folds[j].start else |l.text|;
    assert j > 0 ==> p == l.folds[j-1].end;
    forall i | 0 <= i < q - p ensures l.text[p..q][i] != LF {
      NotInGap(l, j, p + i);
    }
  }

  lemma {:induction false} ShownNoLf(l: Line, j: nat)
    requires Fine(l) && LfFolded(l) && j <= |l.folds| && |l.text| < SIZE_MAX
    ensures Ordered(l.folds[..j], |l.text|) && NoLf(Shown(l.text, l.folds[..j]))
  {
    hide Shown, Marker, LfFolded, Fine, Ordered;
    FineOrdered(l);
    ShownPrefix(l.text, l.folds, j);
    if j == 0 {
      assert l.folds[..0] == [];
      ShownNone(l.text);
    } else {
      ShownNoLf(l, j - 1);
      ShownNext(l.text, l.folds, j - 1);
      GapNoLf(l, j - 1);
      var f := l.folds[j-1];
      MarkerFits(l.text[f.start..f.end]);
      NoLfConcat(Shown(l.text, l.folds[..j-1]), l.text[EndOf(l.folds[..j-1])..f.start]);
      NoLfConcat(Shown(l.text, l.folds[..j-1]) + l.text[EndOf(l.folds[..j-1])..f.start], Marker(l.text[f.start..f.end]));
    }
  }

  lemma FineOrdered(l: Line)
    requires Fine(l)
    ensures Ordered(l.folds, |l.text|)
  {}

  /** When every newline lies in a fold, nothing that is shown is a newline. */
  lemma RenderedNoLf(l: Line)
    requires Fine(l) && LfFolded(l) && |l.text| < SIZE_MAX
    ensures !HasLf(Rendered(l.text, l.folds))
  {
    hide Shown, Marker, LfFolded;
    ShownNoLf(l, |l.folds|);
    assert l.folds[..|l.folds|] == l.folds;
    GapNoLf(l, |l.folds|);
    EndInside(l.folds, |l.text|);
    assert l.text[EndOf(l.folds)..|l.text|] == l.text[EndOf(l.folds)..];
    NoLfConcat(Shown(l.text, l.folds), l.text[EndOf(l.folds)..]);
  }
}
