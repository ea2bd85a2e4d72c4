/** Links into the repository as they stand in a line: how a link is written, how GH_LINK reads it, and for which tags
    reading gives back what was written. */
module SourceLinks {
  import opened Options
  import opened Numerals
  import opened DocLinks
  import opened Repin

  const GH_ROOT := "https://github.com/artgins/yunetas"

  // ---------- writing ----------

  function KindText(kind: GhKind): string {
    match kind case Blob => "blob" case Tree => "tree"
  }

  function RelText(rel: Option<string>): string {
    match rel case None => [] case Some(path) => "/" + path
  }

  function AnchorText(anchor: Anchor): string {
    match anchor
    case NoAnchor => []
    case At(line) => "#L" + Decimal(line)
    case Range(first, last) => "#L" + first + "-L" + last
  }

  /** The address of a link, up to its closing parenthesis. */
  function Address(kind: GhKind, tag: string, rel: Option<string>, anchor: Anchor): string {
    GH_ROOT + "/" + KindText(kind) + "/" + tag + RelText(rel) + AnchorText(anchor)
  }

  function Printed(t: Token): string {
    match t
    case Text(s) => s
    case Link(txt, kind, tag, rel, anchor) => "[" + txt + "](" + Address(kind, tag, rel, anchor) + ")"
  }

  // ---------- reading ----------

  function Starts(s: string, p: string): bool {
    |p| <= |s| && s[..|p|] == p
  }

  predicate IsTagChar(c: char) { c != '/' && c != ')' && c != '#' }

  predicate IsRelChar(c: char) { c != ')' && c != '#' }

  function TagRun(s: string): (n: nat)
    ensures n <= |s| && forall i :: 0 <= i < n ==> IsTagChar(s[i])
  {
    if s != [] && IsTagChar(s[0]) then 1 + TagRun(s[1..]) else 0
  }

  function RelRun(s: string): (n: nat)
    ensures n <= |s| && forall i :: 0 <= i < n ==> IsRelChar(s[i])
  {
    if s != [] && IsRelChar(s[0]) then 1 + RelRun(s[1..]) else 0
  }

  // `int` on digits.
  function Number(s: string): nat
    requires forall i :: 0 <= i < |s| ==> IsDigit(s[i])
  {
    if s == [] then 0
    else
      assert IsDigit(s[|s| - 1]);
      Number(s[..|s| - 1]) * 10 + (s[|s| - 1] - '0') as nat
  }

  // What the pattern finds in an address, and what follows the closing parenthesis.
  datatype Found = Found(kind: GhKind, tag: string, rel: Option<string>, anchor: Anchor, rest: string)

  function ReadAnchor(kind: GhKind, tag: string, rel: Option<string>, s: string): Option<Found> {
    if Starts(s, ")") then Some(Found(kind, tag, rel, NoAnchor, s[1..]))
    else if !Starts(s, "#L") then None
    else
      var d := DigitsFirst(s[2..]);
      var w := s[2 + d..];
      if d == 0 then None
      else if Starts(w, ")") then Some(Found(kind, tag, rel, At(Number(s[2..][..d])), w[1..]))
      else if !Starts(w, "-L") then None
      else
        var e := DigitsFirst(w[2..]);
        if e > 0 && Starts(w[2 + e..], ")") then
          Some(Found(kind, tag, rel, Range(s[2..][..d], w[2..][..e]), w[2 + e..][1..]))
        else None
  }

  function ReadTag(kind: GhKind, s: string): Option<Found> {
    var n := TagRun(s);
    if n == 0 then None
    else if n < |s| && s[n] == '/' then
      var u := s[n..][1..];
      var m := RelRun(u);
      if m == 0 then None else ReadAnchor(kind, s[..n], Some(u[..m]), u[m..])
    else ReadAnchor(kind, s[..n], None, s[n..])
  }

  /** The address part of GH_LINK, with its closing parenthesis. No part of it can be shorter than as long as it can be,
      so nothing is lost by reading it without going back. */
  function ReadAddress(s: string): Option<Found> {
    var p := GH_ROOT + "/";
    if !Starts(s, p) then None
    else
      var u := s[|p|..];
      if Starts(u, "blob/") then ReadTag(Blob, u[5..])
      else if Starts(u, "tree/") then ReadTag(Tree, u[5..])
      else None
  }

  // ---------- reading gives back what was written ----------

  predicate TagOk(tag: string) {
    tag != [] && forall i :: 0 <= i < |tag| ==> IsTagChar(tag[i])
  }

  predicate RelOk(rel: Option<string>) {
    rel.Some? ==> rel.value != [] && forall i :: 0 <= i < |rel.value| ==> IsRelChar(rel.value[i])
  }

  predicate AnchorOk(anchor: Anchor) {
    match anchor
    case Range(first, last) => AllDigits(first) && AllDigits(last)
    case _ => true
  }

  predicate AllDigits(s: string) {
    s != [] && forall i :: 0 <= i < |s| ==> IsDigit(s[i])
  }

  lemma StartsIs(p: string, rest: string)
    ensures Starts(p + rest, p) && (p + rest)[|p|..] == rest
  {
    assert (p + rest)[..|p|] == p;
  }

  lemma {:induction false} TagRunIs(a: string, rest: string)
    requires (forall i :: 0 <= i < |a| ==> IsTagChar(a[i])) && (rest != [] ==> !IsTagChar(rest[0]))
    ensures TagRun(a + rest) == |a|
  {
    if a == [] {
      assert a + rest == rest;
    } else {
      assert (a + rest)[1..] == a[1..] + rest;
      TagRunIs(a[1..], rest);
    }
  }

  lemma {:induction false} RelRunIs(a: string, rest: string)
    requires (forall i :: 0 <= i < |a| ==> IsRelChar(a[i])) && (rest != [] ==> !IsRelChar(rest[0]))
    ensures RelRun(a + rest) == |a|
  {
    if a == [] {
      assert a + rest == rest;
    } else {
      assert (a + rest)[1..] == a[1..] + rest;
      RelRunIs(a[1..], rest);
    }
  }

  lemma {:induction false} DigitsFirstIs(a: string, rest: string)
    requires (forall i :: 0 <= i < |a| ==> IsDigit(a[i])) && (rest != [] ==> !IsDigit(rest[0]))
    ensures DigitsFirst(a + rest) == |a|
  {
    if a == [] {
      assert a + rest == rest;
    } else {
      assert (a + rest)[1..] == a[1..] + rest;
      DigitsFirstIs(a[1..], rest);
    }
  }

  lemma {:induction false} NumberOfDecimal(n: nat)
    ensures AllDigits(Decimal(n)) && Number(Decimal(n)) == n
  {
    DecimalDigits(n);
    if n >= 10 {
      NumberOfDecimal(n / 10);
      OneDigit(n % 10);
      var s := Decimal(n);
      assert s[..|s| - 1] == Decimal(n / 10) && s[|s| - 1] == Decimal(n % 10)[0];
    } else {
      OneDigit(n);
    }
  }

  lemma OneDigit(n: nat)
    requires n < 10
    ensures |Decimal(n)| == 1 && IsDigit(Decimal(n)[0]) && (Decimal(n)[0] - '0') as nat == n && Number(Decimal(n)) == n
  {
    assert Decimal(n)[..0] == [];
  }

  // Digits after a mark, closed by text that does not go on with a digit.
  lemma DigitsPart(mark: string, digits: string, rest: string)
    requires |mark| == 2 && AllDigits(digits) && (rest != [] ==> !IsDigit(rest[0]))
    ensures var s := mark + digits + rest;
            && Starts(s, mark) && DigitsFirst(s[2..]) == |digits| && s[2..][..|digits|] == digits && s[2 + |digits|..] == rest
            && (digits + rest == s[2..])
  {
    var s := mark + digits + rest;
    assert s == mark + (digits + rest);
    StartsIs(mark, digits + rest);
    DigitsFirstIs(digits, rest);
    assert (digits + rest)[..|digits|] == digits;
    assert s[2 + |digits|..] == rest;
  }

  lemma AnchorBack(kind: GhKind, tag: string, rel: Option<string>, anchor: Anchor, rest: string)
    requires AnchorOk(anchor)
    ensures ReadAnchor(kind, tag, rel, AnchorText(anchor) + ")" + rest) == Some(Found(kind, tag, rel, anchor, rest))
  {
    hide Decimal, DigitsFirst, Number, Starts;
    match anchor
    case NoAnchor =>
      assert AnchorText(anchor) + ")" + rest == ")" + rest;
      StartsIs(")", rest);
    case At(line) => AtBack(kind, tag, rel, line, rest);
    case Range(first, last) => RangeBack(kind, tag, rel, first, last, rest);
  }

  lemma HashStarts(s: string)
    requires Starts(s, "#L")
    ensures !Starts(s, ")")
  {
    assert s[0] == s[..2][0];
  }

  lemma DashStarts(s: string)
    requires Starts(s, "-L")
    ensures !Starts(s, ")") && !IsDigit(s[0])
  {
    assert s[0] == s[..2][0];
  }

  lemma AtBack(kind: GhKind, tag: string, rel: Option<string>, line: nat, rest: string)
    ensures ReadAnchor(kind, tag, rel, AnchorText(At(line)) + ")" + rest) == Some(Found(kind, tag, rel, At(line), rest))
  {
    hide Decimal, DigitsFirst, Number, Starts;
    var s := AnchorText(At(line)) + ")" + rest;
    NumberOfDecimal(line);
    assert s == "#L" + Decimal(line) + (")" + rest);
    DigitsPart("#L", Decimal(line), ")" + rest);
    HashStarts(s);
    StartsIs(")", rest);
  }

  lemma RangeText(first: string, last: string, rest: string)
    ensures AnchorText(Range(first, last)) + ")" + rest == "#L" + first + ("-L" + last + (")" + rest))
  {
    assert ("#L" + first) + "-L" + last == ("#L" + first) + ("-L" + last);
  }

  lemma RangeBack(kind: GhKind, tag: string, rel: Option<string>, first: string, last: string, rest: string)
    requires AllDigits(first) && AllDigits(last)
    ensures var anchor := Range(first, last);
            ReadAnchor(kind, tag, rel, AnchorText(anchor) + ")" + rest) == Some(Found(kind, tag, rel, anchor, rest))
  {
    hide Decimal, DigitsFirst, Number, Starts;
    var s := AnchorText(Range(first, last)) + ")" + rest;
    var w := "-L" + last + (")" + rest);
    RangeText(first, last, rest);
    DigitsPart("-L", last, ")" + rest);
    DashStarts(w);
    DigitsPart("#L", first, w);
    HashStarts(s);
    StartsIs(")", rest);
  }

  lemma AnchorStarts(anchor: Anchor, rest: string)
    ensures var a := AnchorText(anchor) + ")" + rest; a != [] && (a[0] == ')' || a[0] == '#')
  {
    hide Decimal;
  }

  // What follows the tag of an address, or its path: neither goes on with one of its own characters.
  lemma Ends(rel: Option<string>, anchor: Anchor, rest: string)
    requires RelOk(rel) && AnchorOk(anchor)
    ensures var a, t := AnchorText(anchor) + ")" + rest, RelText(rel) + (AnchorText(anchor) + ")" + rest);
            && a != [] && !IsRelChar(a[0]) && !IsTagChar(a[0]) && a[0] != '/'
            && t != [] && !IsTagChar(t[0]) && (t[0] == '/' <==> rel.Some?)
            && (rel.Some? ==> t[1..] == rel.value + a)
  {
    hide AnchorText, RelOk, AnchorOk;
    var a := AnchorText(anchor) + ")" + rest;
    AnchorStarts(anchor, rest);
    RelInFront(rel, a);
  }

  lemma RelInFront(rel: Option<string>, a: string)
    ensures rel.None? ==> RelText(rel) + a == a
    ensures rel.Some? ==> RelText(rel) + a == "/" + (rel.value + a)
  {}

  lemma TagBack(kind: GhKind, tag: string, rel: Option<string>, anchor: Anchor, rest: string)
    requires TagOk(tag) && RelOk(rel) && AnchorOk(anchor)
    ensures ReadTag(kind, tag + (RelText(rel) + (AnchorText(anchor) + ")" + rest))) == Some(Found(kind, tag, rel, anchor, rest))
  {
    hide AnchorText, RelText, ReadAnchor, IsTagChar, IsRelChar, TagRun, RelRun;
    var a := AnchorText(anchor) + ")" + rest;
    var t := RelText(rel) + a;
    var s := tag + t;
    Ends(rel, anchor, rest);
    TagRunIs(tag, t);
    assert s[..|tag|] == tag && s[|tag|..] == t && s[|tag|] == t[0];
    if rel.None? {
      NoRel(a);
    }
    AnchorBack(kind, tag, rel, anchor, rest);
    if rel.Some? {
      assert s[|tag|..][1..] == rel.value + a;
      RelRunIs(rel.value, a);
      assert (rel.value + a)[..|rel.value|] == rel.value && (rel.value + a)[|rel.value|..] == a;
    }
  }

  lemma NoRel(a: string)
    ensures RelText(None) + a == a
  {
  }

  lemma AddressParts(kind: GhKind, tag: string, rel: Option<string>, anchor: Anchor, rest: string)
    ensures var v := tag + (RelText(rel) + (AnchorText(anchor) + ")" + rest));
            var s := Address(kind, tag, rel, anchor) + ")" + rest;
            && s == (GH_ROOT + "/") + ((KindText(kind) + "/") + v)
            && ReadAddress(s) == ReadTag(kind, v)
  {
    hide AnchorText, RelText, ReadTag, Starts;
    var a := AnchorText(anchor) + ")" + rest;
    var v := tag + (RelText(rel) + a);
    var head := GH_ROOT + "/" + KindText(kind) + "/" + tag;
    var s := Address(kind, tag, rel, anchor) + ")" + rest;
    assert s == head + (RelText(rel) + a);
    assert head == (GH_ROOT + "/") + ((KindText(kind) + "/") + tag);
    assert s == (GH_ROOT + "/") + ((KindText(kind) + "/") + v);
    StartsIs(GH_ROOT + "/", (KindText(kind) + "/") + v);
    if kind == Blob {
      assert KindText(kind) + "/" == "blob/";
      StartsIs("blob/", v);
    } else {
      assert KindText(kind) + "/" == "tree/";
      StartsIs("tree/", v);
      KindStarts(v);
    }
  }

  lemma KindStarts(v: string)
    ensures !Starts("tree/" + v, "blob/")
  {
    var s := "tree/" + v;
    assert s[..5][0] == 't';
  }

  lemma FoundTag(kind: GhKind, s: string)
    ensures ReadTag(kind, s).Some? ==> TagOk(ReadTag(kind, s).value.tag)
  {
    hide ReadAnchor, IsTagChar, TagRun, RelRun;
    var n := TagRun(s);
    AnchorFinds(kind, s[..n], None, s[n..]);
    if n < |s| && s[n] == '/' {
      var u := s[n..][1..];
      AnchorFinds(kind, s[..n], Some(u[..RelRun(u)]), u[RelRun(u)..]);
    }
  }

  lemma AnchorFinds(kind: GhKind, tag: string, rel: Option<string>, s: string)
    ensures var r := ReadAnchor(kind, tag, rel, s); r.Some? ==> r.value.kind == kind && r.value.tag == tag && r.value.rel == rel
  {
    hide DigitsFirst, Number, Starts;
  }

  /** A written address is read back as kind, tag, path and anchor if and only if the tag is not empty and has no slash,
      closing parenthesis or hash in it. */
  lemma ReadBackIff(kind: GhKind, tag: string, rel: Option<string>, anchor: Anchor, rest: string)
    requires RelOk(rel) && AnchorOk(anchor)
    ensures ReadAddress(Address(kind, tag, rel, anchor) + ")" + rest) == Some(Found(kind, tag, rel, anchor, rest)) <==> TagOk(tag)
  {
    hide AnchorText, RelText, ReadTag, ReadAddress, Address, TagOk;
    var v := tag + (RelText(rel) + (AnchorText(anchor) + ")" + rest));
    AddressParts(kind, tag, rel, anchor, rest);
    FoundTag(kind, v);
    if TagOk(tag) {
      TagBack(kind, tag, rel, anchor, rest);
    }
  }

  // ---------- whole links ----------

  function TickRun(s: string): (n: nat)
    ensures n <= |s| && forall i :: 0 <= i < n ==> s[i] != TICK
    ensures n < |s| ==> s[n] == TICK
  {
    if s != [] && s[0] != TICK then 1 + TickRun(s[1..]) else 0
  }

  function TextRun(s: string): (n: nat)
    ensures n <= |s| && forall i :: 0 <= i < n ==> s[i] != ']'
    ensures n < |s| ==> s[n] == ']'
  {
    if s != [] && s[0] != ']' then 1 + TextRun(s[1..]) else 0
  }

  // A link whose text is the first n characters of s, and what follows it.
  function ReadAfter(s: string, n: nat): Option<(Token, string)>
    requires n <= |s|
  {
    if n == 0 || !Starts(s[n..], "](") then None
    else
      match ReadAddress(s[n..][2..])
      case None => None
      case Some(f) => Some((Link(s[..n], f.kind, f.tag, f.rel, f.anchor), f.rest))
  }

  /** GH_LINK at the start of s: the text in backticks if that leads to a link, else up to the first bracket. */
  function ReadLink(s: string): Option<(Token, string)> {
    if s == [] || s[0] != '[' then None
    else
      var u := s[1..];
      var ticked := if u != [] && u[0] == TICK && TickRun(u[1..]) > 0 && TickRun(u[1..]) < |u| - 1
                    then ReadAfter(u, TickRun(u[1..]) + 2) else None;
      if ticked.Some? then ticked else ReadAfter(u, TextRun(u))
  }

  // A text that the pattern reads whole: in backticks, or without a closing bracket and without a lone backtick in front.
  predicate IsTicked(txt: string) {
    |txt| > 2 && txt[0] == TICK && txt[|txt| - 1] == TICK && forall i :: 0 < i < |txt| - 1 ==> txt[i] != TICK
  }

  predicate IsOpen(txt: string) {
    && txt != [] && (forall i :: 0 <= i < |txt| ==> txt[i] != ']')
    && (txt[0] == TICK ==> exists i :: 0 < i < |txt| && txt[i] == TICK)
  }

  predicate LinkOk(t: Token) {
    t.Link? && (IsTicked(t.txt) || IsOpen(t.txt)) && TagOk(t.tag) && RelOk(t.rel) && AnchorOk(t.anchor)
  }

  lemma {:induction false} TickRunIs(a: string, rest: string)
    requires (forall i :: 0 <= i < |a| ==> a[i] != TICK) && (rest != [] ==> rest[0] == TICK)
    ensures TickRun(a + rest) == |a|
  {
    if a == [] {
      assert a + rest == rest;
    } else {
      assert (a + rest)[1..] == a[1..] + rest;
      TickRunIs(a[1..], rest);
    }
  }

  lemma {:induction false} TextRunIs(a: string, rest: string)
    requires (forall i :: 0 <= i < |a| ==> a[i] != ']') && (rest != [] ==> rest[0] == ']')
    ensures TextRun(a + rest) == |a|
  {
    if a == [] {
      assert a + rest == rest;
    } else {
      assert (a + rest)[1..] == a[1..] + rest;
      TextRunIs(a[1..], rest);
    }
  }

  // The text of a link, and what is read after it.
  lemma AfterText(t: Token, rest: string)
    requires LinkOk(t)
    ensures var tail := "](" + (Address(t.kind, t.tag, t.rel, t.anchor) + ")" + rest);
            && tail[0] == ']' && Printed(t) + rest == "[" + (t.txt + tail)
            && ReadAfter(t.txt + tail, |t.txt|) == Some((t, rest))
  {
    hide Address, ReadAddress, Starts, TagOk, RelOk, AnchorOk;
    var address := Address(t.kind, t.tag, t.rel, t.anchor) + ")" + rest;
    var tail := "](" + address;
    var u := t.txt + tail;
    assert Printed(t) + rest == "[" + u;
    assert u[..|t.txt|] == t.txt && u[|t.txt|..] == tail;
    StartsIs("](", address);
    ReadBackIff(t.kind, t.tag, t.rel, t.anchor, rest);
  }

  lemma TickedRun(txt: string, tail: string)
    requires IsTicked(txt)
    ensures var u := txt + tail; u[0] == TICK && TickRun(u[1..]) == |txt| - 2 && |u| > |txt| - 1
  {
    var inner := txt[1..|txt| - 1];
    assert (txt + tail)[1..] == inner + ([TICK] + tail);
    assert forall i :: 0 <= i < |inner| ==> inner[i] == txt[i + 1];
    TickRunIs(inner, [TICK] + tail);
  }

  // A text that is not in backticks is not taken for one that is.
  lemma OpenRun(txt: string, tail: string)
    requires IsOpen(txt) && !IsTicked(txt) && txt[0] == TICK && tail != []
    ensures var u := txt + tail; var n := TickRun(u[1..]); n > 0 && n < |u| - 1 ==> ReadAfter(u, n + 2).None?
  {
    hide ReadAddress;
    var u := txt + tail;
    var n := TickRun(u[1..]);
    var i :| 0 < i < |txt| && txt[i] == TICK;
    assert u[1..][i - 1] == TICK;
    assert forall j :: 0 <= j < n ==> u[1..][j] == u[j + 1];
    assert n <= i - 1;
    assert u[1..][n] == TICK && u[1..][n] == u[n + 1] == txt[n + 1];
    if n > 0 {
      assert forall j :: 0 < j < n + 1 ==> txt[j] == u[1..][j - 1];
      assert n + 2 < |txt|;
      assert u[n + 2..][0] == txt[n + 2] != ']';
      NoStart(u[n + 2..]);
    }
  }

  lemma NoStart(s: string)
    requires s != [] && s[0] != ']'
    ensures !Starts(s, "](")
  {
    if |s| >= 2 {
      assert s[..2][0] == s[0];
    }
  }

  /** A link whose text, tag and path the pattern can read is read back as it was written, whatever follows it. */
  lemma LinkBack(t: Token, rest: string)
    requires LinkOk(t)
    ensures ReadLink(Printed(t) + rest) == Some((t, rest))
  {
    hide Printed, ReadAfter, TickRun, TextRun, IsTicked, IsOpen, Address;
    var tail := "](" + (Address(t.kind, t.tag, t.rel, t.anchor) + ")" + rest);
    var u := t.txt + tail;
    AfterText(t, rest);
    assert (Printed(t) + rest)[1..] == u;
    if IsTicked(t.txt) {
      TickedRun(t.txt, tail);
      TickedIsLong(t.txt);
    } else {
      OpenIsText(t.txt);
      TextRunIs(t.txt, tail);
      assert u[0] == t.txt[0];
      if t.txt[0] == TICK {
        OpenRun(t.txt, tail);
      }
    }
  }

  lemma TickedIsLong(txt: string)
    requires IsTicked(txt)
    ensures |txt| > 2
  {
  }

  lemma OpenIsText(txt: string)
    requires IsOpen(txt)
    ensures txt != [] && forall i :: 0 <= i < |txt| ==> txt[i] != ']'
  {
  }

  // ---------- re-pinned links are read back ----------

  lemma TagIsRead(tag: string)
    requires IsTag(tag)
    ensures tag != [] && TagOk(tag) && forall i :: 0 <= i < |tag| ==> tag[i] != TICK && tag[i] != ']'
  {
  }

  lemma NewTextReads(t: Token, tag: string)
    requires LinkOk(t) && IsTag(tag)
    ensures IsTicked(NewText(t, tag)) || IsOpen(NewText(t, tag))
  {
    hide IsVersion, IsTag, Replace, IsTagPart, TagOk, RelOk, AnchorOk;
    var txt := t.txt;
    if TagOf(txt) == Some(t.tag) {
      ReplaceTag(txt, tag);
      TagIsRead(tag);
      TagTextForms(txt, tag);
    }
  }

  lemma TagTextForms(txt: string, tag: string)
    requires (IsTicked(txt) || IsOpen(txt)) && IsVersion(Inside(txt)) && tag != []
    requires forall i :: 0 <= i < |tag| ==> tag[i] != TICK && tag[i] != ']'
    ensures var u := Before(txt) + tag + After(txt); IsTicked(u) || IsOpen(u)
  {
    hide IsVersion;
    var a := Inside(txt);
    VersionChars(a);
    if Before(txt) == [TICK] {
      if After(txt) == [] {
        LoneTick(txt, a);
      }
      TickedTag(tag);
    } else {
      OpenTag(tag, After(txt));
    }
  }

  lemma TickedTag(tag: string)
    requires tag != [] && forall i :: 0 <= i < |tag| ==> tag[i] != TICK && tag[i] != ']'
    ensures IsTicked([TICK] + tag + [TICK])
  {}

  lemma OpenTag(tag: string, after: string)
    requires tag != [] && forall i :: 0 <= i < |tag| ==> tag[i] != TICK && tag[i] != ']'
    requires after == [] || after == [TICK]
    ensures IsOpen([] + tag + after)
  {
    var u := [] + tag + after;
    assert forall i :: 0 <= i < |u| ==> u[i] != ']';
    assert u[0] == tag[0];
  }

  // A version behind a lone backtick is no text that the pattern reads whole.
  lemma LoneTick(txt: string, a: string)
    requires Before(txt) == [TICK] && After(txt) == [] && a == Inside(txt)
    requires IsVersion(a)
    ensures !IsTicked(txt) && !IsOpen(txt)
  {
    hide IsVersion;
    VersionChars(a);
    assert txt == [TICK] + a;
    assert forall i :: 0 < i < |txt| ==> txt[i] == a[i - 1] && txt[i] != TICK;
  }

  lemma LocatorReads(txt: string, n: nat)
    requires (IsTicked(txt) || IsOpen(txt)) && IsLocator(txt)
    ensures IsTicked(WithLine(txt, n)) || IsOpen(WithLine(txt, n))
  {
    hide IsLocator, Decimal, DigitsLast, WithLine;
    WithLineIs(txt, n);
    DecimalDigits(n);
    LocatorSplits(txt);
    var head, tail := txt[..|Bare(txt)| - DigitsLast(Bare(txt))], txt[|Bare(txt)|..];
    NewDigits(txt, head, Decimal(n), tail);
  }

  lemma LocatorSplits(txt: string)
    requires IsLocator(txt)
    ensures var t := Bare(txt);
            var d := DigitsLast(t);
            && t[..|t| - d] == txt[..|t| - d] && |t| - d > 0 && txt[|t| - d - 1] == ':' && d > 0
            && (txt[|t|..] == [] || txt[|t|..] == [TICK])
            && forall i :: |t| - d <= i < |t| ==> IsDigit(txt[i])
  {
    hide DigitsLast;
    var t := Bare(txt);
    assert forall i :: 0 <= i < |t| ==> t[i] == txt[i];
  }

  lemma NewDigits(txt: string, head: string, digits: string, tail: string)
    requires IsTicked(txt) || IsOpen(txt)
    requires head != [] && |head| + |tail| < |txt| && txt[..|head|] == head && txt[|txt| - |tail|..] == tail
    requires head[|head| - 1] == ':' && (tail == [] || tail == [TICK])
    requires forall i :: |head| <= i < |txt| - |tail| ==> IsDigit(txt[i])
    requires digits != [] && forall i :: 0 <= i < |digits| ==> IsDigit(digits[i])
    ensures var u := head + digits + tail; IsTicked(u) || IsOpen(u)
  {
    var u := head + digits + tail;
    assert forall i :: 0 <= i < |head| ==> head[i] == txt[i] == u[i];
    assert tail == [TICK] ==> txt[|txt| - 1] == TICK;
    assert !IsDigit(TICK);
    if IsTicked(txt) {
      assert tail == [TICK];
      assert IsTicked(u);
    } else {
      assert forall i :: 0 <= i < |u| ==> u[i] != ']';
      if txt[0] == TICK {
        var i :| 0 < i < |txt| && txt[i] == TICK;
        if i < |head| {
          assert u[i] == TICK;
        } else {
          assert u[|u| - 1] == TICK;
        }
      }
    }
  }

  lemma MovedReads(t: Token, m: map<nat, nat>, defs: Defs, tag: string)
    requires LinkOk(t) && IsTag(tag)
    ensures LinkOk(Moved(t, m, defs, tag))
  {
    hide NewText, WithLine, IsLocator, IsTicked, IsOpen, SymbolOf, IsTag, TagOk;
    TagIsRead(tag);
    NewTextReads(t, tag);
    if Twin(t, m) {
      if IsLocator(t.txt) {
        LocatorReads(t.txt, m[t.anchor.line]);
      } else {
        NoLocator(t.txt, m[t.anchor.line]);
      }
    }
  }

  lemma NoLocator(txt: string, n: nat)
    requires !IsLocator(txt)
    ensures WithLine(txt, n) == txt
  {
  }

  /** Re-pinned to such a tag, every link of a line is written so that it is read back as that link: what a second run
      sees are the links that the first run made. */
  lemma SecondRunSees(ts: seq<Token>, defs: Defs, tag: string, i: nat, rest: string)
    requires i < |ts| && LinkOk(ts[i]) && IsTag(tag)
    ensures var us := RepinLine(ts, defs, tag);
            LinkOk(us[i]) && ReadLink(Printed(us[i]) + rest) == Some((us[i], rest))
  {
    hide LinkOk, AnchorMap, Moved, Printed, ReadLink;
    MovedReads(ts[i], AnchorMap(ts, defs), defs, tag);
    LinkBack(RepinLine(ts, defs, tag)[i], rest);
  }

  // ---------- a tag with a slash ----------

  // The part before the slash is read as the tag, the part after it goes to the path.
  lemma SlashTagReads(kind: GhKind, a: string, b: string, path: string, anchor: Anchor, rest: string)
    requires TagOk(a) && RelOk(Some(path)) && AnchorOk(anchor) && forall i :: 0 <= i < |b| ==> IsRelChar(b[i])
    ensures RelOk(Some(b + "/" + path))
    ensures Address(kind, a + "/" + b, Some(path), anchor) == Address(kind, a, Some(b + "/" + path), anchor)
    ensures ReadAddress(Address(kind, a + "/" + b, Some(path), anchor) + ")" + rest)
            == Some(Found(kind, a, Some(b + "/" + path), anchor, rest))
  {
    hide ReadAddress, TagOk, AnchorText;
    assert RelOk(Some(b + "/" + path));
    SameAddress(kind, a, b, path, anchor);
    ReadBackIff(kind, a, Some(b + "/" + path), anchor, rest);
  }

  lemma SameAddress(kind: GhKind, a: string, b: string, path: string, anchor: Anchor)
    ensures Address(kind, a + "/" + b, Some(path), anchor) == Address(kind, a, Some(b + "/" + path), anchor)
  {
    hide AnchorText, KindText;
    SlashMoves(GH_ROOT + "/" + KindText(kind) + "/", a, "/", b, path);
  }

  lemma Regroup(x: string, y: string, z: string)
    ensures x + (y + z) == (x + y) + z
  {}

  lemma SlashMoves(head: string, a: string, s: string, b: string, path: string)
    ensures head + (a + s + b) + (s + path) == head + a + (s + (b + s + path))
  {
    Regroup(a, s, b);
    Regroup(head, a, s + b);
    Regroup(head + a, s + b, s + path);
    Regroup(s, b, s + path);
    Regroup(b, s, path);
  }

  /** For a tag with a slash re-pinning is not idempotent, on any link to a file: the second run reads another tag and
      another path, counts a tag as changed, and writes a longer link. */
  lemma SlashTagMovesTwice(t: Token, a: string, b: string, m: map<nat, nat>, m2: map<nat, nat>, defs: Defs)
    requires LinkOk(t) && t.rel.Some? && t.anchor == NoAnchor && TagOf(t.txt).None?
    requires TagOk(a) && forall i :: 0 <= i < |b| ==> IsRelChar(b[i])
    ensures var tag := a + "/" + b;
            var u := Moved(t, m, defs, tag);
            var v := Link(t.txt, t.kind, a, Some(b + "/" + t.rel.value), NoAnchor);
            && u == Link(t.txt, t.kind, tag, t.rel, NoAnchor)
            && ReadLink(Printed(u)) == Some((v, []))
            && TagCount([v], tag) == 1
            && |Printed(Moved(v, m2, defs, tag))| > |Printed(u)|
  {
    hide TagOk, IsTicked, IsOpen, ReadLink, Address, KindText, TagOf;
    var tag := a + "/" + b;
    var u := Moved(t, m, defs, tag);
    var v := Link(t.txt, t.kind, a, Some(b + "/" + t.rel.value), NoAnchor);
    SlashTagReads(t.kind, a, b, t.rel.value, NoAnchor, []);
    assert Printed(u) == Printed(v);
    assert Printed(v) + [] == Printed(v);
    LinkBack(v, []);
    OtherTag(v, a, b, tag);
    AddressLength(t.kind, tag, t.rel.value);
    AddressLength(t.kind, tag, b + "/" + t.rel.value);
  }

  lemma OtherTag(v: Token, a: string, b: string, tag: string)
    requires v.Link? && v.tag == a && tag == a + "/" + b
    ensures TagCount([v], tag) == 1
  {
    assert |tag| > |a|;
    assert [v][..0] == [];
  }

  lemma AddressLength(kind: GhKind, tag: string, path: string)
    ensures |Address(kind, tag, Some(path), NoAnchor)| == |Address(kind, tag, None, NoAnchor)| + 1 + |path|
  {
  }

  /** Such a tag is release/7.9.3: the second run reads the tag release. */
  lemma SlashTagExample()
    ensures var t := Link("the file", Blob, "7.9.2", Some("a.c"), NoAnchor);
            var tag := "release/7.9.3";
            var u := Moved(t, map[], map[], tag);
            && ReadLink(Printed(u)) == Some((Link("the file", Blob, "release", Some("7.9.3/a.c"), NoAnchor), []))
            && |Printed(Moved(ReadLink(Printed(u)).value.0, map[], map[], tag))| > |Printed(u)|
  {
    hide Moved, ReadLink, Printed, TagOf;
    var t := Link("the file", Blob, "7.9.2", Some("a.c"), NoAnchor);
    NoTag(t.txt);
    assert "release" + "/" + "7.9.3" == "release/7.9.3" && "7.9.3" + "/" + "a.c" == "7.9.3/a.c";
    assert IsOpen(t.txt);
    SlashTagMovesTwice(t, "release", "7.9.3", map[], map[], map[]);
  }

  lemma NoTag(txt: string)
    requires txt == "the file"
    ensures TagOf(txt).None?
  {
    assert Inside(txt) == txt;
    assert DigitsFirst(txt) == 0;
  }

  // ---------- what a text names ----------

  /** A symbol is named by its bare name, with () behind it, between backticks, or both, and with space around. */
  lemma SymbolForms(name: string)
    requires IsIdentifier(name)
    ensures SymbolOf(name) == SymbolOf(name + "()") == SymbolOf("`" + name + "`") == SymbolOf("`" + name + "()" + "`") == Some(name)
    ensures SymbolOf(" " + name + " ") == Some(name)
  {
    hide IsIdentifier, IsIdent, IsIdentStart, IsSpace, StripLeft, StripRight, Untick, Uncall;
    IdentifierEnds(name);
    Unstripped(name);
    Unstripped(name + "()");
    Unstripped("`" + name + "`");
    assert "`" + name + "()" + "`" == "`" + (name + "()") + "`";
    Unstripped("`" + name + "()" + "`");
    UntickIs(name);
    UntickIs(name + "()");
    Untouched(name);
    UncallIs(name);
    SpacesOff(name);
  }

  lemma IdentifierEnds(name: string)
    requires IsIdentifier(name)
    ensures name != [] && !IsSpace(name[0]) && !IsSpace(name[|name| - 1]) && name[0] != TICK && name[|name| - 1] != ')'
    ensures !IsSpace(TICK) && !IsSpace(')')
  {}

  lemma UntickIs(t: string)
    ensures Untick("`" + t + "`") == t
  {
    var u := "`" + t + "`";
    assert u[1..|u| - 1] == t;
  }

  lemma Untouched(name: string)
    requires name != [] && name[0] != TICK && name[|name| - 1] != ')'
    ensures Untick(name) == name && Uncall(name) == name && Untick(name + "()") == name + "()"
  {
    Uncalled(name);
    assert (name + "()")[0] == name[0];
  }

  lemma UncallIs(name: string)
    ensures Uncall(name + "()") == name
  {
    var t := name + "()";
    assert t[..|t| - 2] == name && t[|t| - 2..] == "()";
  }

  lemma SpacesOff(name: string)
    requires name != [] && !IsSpace(name[0]) && !IsSpace(name[|name| - 1])
    ensures StripRight(StripLeft(" " + name + " ")) == name
  {
    var u := " " + name + " ";
    assert IsSpace(' ') && u[1..] == name + " ";
    assert (name + " ")[0] == name[0];
    assert StripLeft(name + " ") == name + " ";
    assert (name + " ")[..|name|] == name;
    Unstripped(name);
  }

  /** Two or three numbers with dots between them are a version. */
  lemma VersionForms(a: string, b: string, c: string)
    requires AllDigits(a) && AllDigits(b) && AllDigits(c)
    ensures IsVersion(a + "." + b) && IsVersion(a + "." + b + "." + c)
  {
    hide DigitsFirst;
    TwoNumbers(a, b, []);
    TwoNumbers(a, b, "." + c);
    assert a + "." + b + [] == a + "." + b && a + "." + b + ("." + c) == a + "." + b + "." + c;
    DigitsFirstIs(c, []);
    assert c + [] == c && ("." + c)[1..] == c;
  }

  lemma TwoNumbers(a: string, b: string, rest: string)
    requires AllDigits(a) && AllDigits(b) && (rest != [] ==> !IsDigit(rest[0]))
    ensures var t := a + "." + b + rest;
            && DigitsFirst(t) == |a| && t[|a|] == '.' && DigitsFirst(t[|a| + 1..]) == |b| && t[|a| + 1 + |b|..] == rest
  {
    hide DigitsFirst;
    var t := a + "." + b + rest;
    assert t == a + ("." + b + rest) && t[|a| + 1..] == b + rest;
    DigitsFirstIs(a, "." + b + rest);
    DigitsFirstIs(b, rest);
  }
}
