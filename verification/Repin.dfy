/** Moving the links of a documentation line into the source tree to another release: the tag, the line of each symbol's
    definition, and the locators next to it. */
module Repin {
  import opened Options
  import opened Numerals
  import opened DocLinks

  datatype GhKind = Blob | Tree

  // The part of the address after the path. A range of lines is kept as it is written.
  datatype Anchor = NoAnchor | At(line: nat) | Range(first: string, last: string)

  // A line, cut at its links into the repository.
  datatype Token =
    | Text(s: string)
    | Link(txt: string, kind: GhKind, tag: string, rel: Option<string>, anchor: Anchor)

  // The line on which each file defines each symbol.
  type Defs = map<(string, string), nat>

  // ---------- what the text of a link says ----------

  function StripLeft(t: string): (r: string)
    ensures forall c :: c in t ==> c in r || IsSpace(c)
  {
    if t != [] && IsSpace(t[0]) then StripLeft(t[1..]) else t
  }

  function StripRight(t: string): (r: string)
    ensures forall c :: c in t ==> c in r || IsSpace(c)
  {
    if t != [] && IsSpace(t[|t| - 1]) then StripRight(t[..|t| - 1]) else t
  }

  function Untick(t: string): (r: string)
    ensures forall c :: c in t ==> c in r || c == TICK
  {
    if t != [] && t[0] == TICK && t[|t| - 1] == TICK then
      if |t| == 1 then [] else assert t == [t[0]] + t[1..|t| - 1] + [t[|t| - 1]]; t[1..|t| - 1]
    else t
  }

  function Uncall(t: string): (r: string)
    ensures forall c :: c in t ==> c in r || c == '(' || c == ')'
  {
    if |t| >= 2 && t[|t| - 2..] == "()" then assert t == t[..|t| - 2] + t[|t| - 2..]; t[..|t| - 2] else t
  }

  predicate IsIdentifier(t: string) {
    t != [] && IsIdentStart(t[0]) && forall i :: 0 <= i < |t| ==> IsIdent(t[i])
  }

  // symbol_of_text.
  function SymbolOf(txt: string): Option<string> {
    var t := Uncall(Untick(StripRight(StripLeft(txt))));
    if IsIdentifier(t) then Some(t) else None
  }

  predicate IsDigit(c: char) { '0' <= c <= '9' }

  // How many digits t starts with.
  function DigitsFirst(t: string): (n: nat)
    ensures n <= |t| && forall i :: 0 <= i < n ==> IsDigit(t[i])
    ensures n < |t| ==> !IsDigit(t[n])
  {
    if t != [] && IsDigit(t[0]) then 1 + DigitsFirst(t[1..]) else 0
  }

  // Two or three numbers with dots between them.
  predicate IsVersion(t: string) {
    var a := DigitsFirst(t);
    && 0 < a < |t| && t[a] == '.'
    && var b := DigitsFirst(t[a + 1..]);
       && b > 0
       && var rest := t[a + 1 + b..];
          rest == [] || (rest[0] == '.' && |rest| > 1 && DigitsFirst(rest[1..]) == |rest| - 1)
  }

  function Before(txt: string): string { if txt != [] && txt[0] == TICK then [TICK] else [] }

  function After(txt: string): string { if |txt| > 1 && txt[|txt| - 1] == TICK then [TICK] else [] }

  function Inside(txt: string): (t: string)
    ensures Before(txt) + t + After(txt) == txt
  {
    assert Before(txt) == txt[..|Before(txt)|] && After(txt) == txt[|txt| - |After(txt)|..];
    Parts(txt, |Before(txt)|, |txt| - |After(txt)|);
    txt[|Before(txt)|..|txt| - |After(txt)|]
  }

  lemma Parts(t: string, i: nat, j: nat)
    requires i <= j <= |t|
    ensures t[..i] + t[i..j] + t[j..] == t
  {}

  // TAG_TEXT: the version that is all the text.
  function TagOf(txt: string): (r: Option<string>)
    ensures r.Some? ==> r.value != []
  {
    if IsVersion(Inside(txt)) then Some(Inside(txt)) else None
  }

  // str.replace.
  function Replace(t: string, a: string, b: string): string
    requires a != []
  {
    if |t| < |a| then t
    else if t[..|a|] == a then b + Replace(t[|a|..], a, b)
    else [t[0]] + Replace(t[1..], a, b)
  }

  // How many digits t ends with.
  function DigitsLast(t: string): (n: nat)
    ensures n <= |t| && forall i :: |t| - n <= i < |t| ==> IsDigit(t[i])
    ensures n < |t| ==> !IsDigit(t[|t| - 1 - n])
  {
    if t != [] && IsDigit(t[|t| - 1]) then 1 + DigitsLast(t[..|t| - 1]) else 0
  }

  function Bare(txt: string): (t: string)
    ensures |t| <= |txt|
  {
    if txt != [] && txt[|txt| - 1] == TICK then txt[..|txt| - 1] else txt
  }

  predicate EndsInLine(t: string) {
    var d := DigitsLast(t);
    d > 0 && d < |t| && t[|t| - 1 - d] == ':'
  }

  // FILELINE_TEXT: the text ends in a colon and a line number.
  predicate IsLocator(txt: string) {
    EndsInLine(Bare(txt))
  }

  // FILELINE_TEXT.sub: the same text for line n.
  function WithLine(txt: string, n: nat): string {
    var t := Bare(txt);
    if IsLocator(txt) then t[..|t| - DigitsLast(t)] + Decimal(n) + txt[|t|..] else txt
  }

  // ---------- the rewriting ----------

  // Links to one line of a file.
  predicate Anchored(t: Token) { t.Link? && t.anchor.At? && t.rel.Some? }

  // Where the symbol that a link names is defined now.
  function DefOf(t: Token, defs: Defs): Option<nat> {
    if !Anchored(t) || SymbolOf(t.txt).None? then None
    else
      var key := (SymbolOf(t.txt).value, t.rel.value);
      if key in defs then Some(defs[key]) else None
  }

  // The first pass: old lines of symbols and their new ones.
  function AnchorMap(ts: seq<Token>, defs: Defs): map<nat, nat> {
    if ts == [] then map[]
    else
      var t := ts[|ts| - 1];
      var m := AnchorMap(ts[..|ts| - 1], defs);
      if DefOf(t, defs).Some? then m[t.anchor.line := DefOf(t, defs).value] else m
  }

  function NewText(t: Token, tag: string): string
    requires t.Link?
  {
    if TagOf(t.txt).Some? && TagOf(t.txt).value == t.tag then Replace(t.txt, t.tag, tag) else t.txt
  }

  // A locator: it names no symbol, but the line that a symbol link was moved from.
  predicate Twin(t: Token, m: map<nat, nat>) {
    Anchored(t) && SymbolOf(t.txt).None? && t.anchor.line in m
  }

  // The line that the second pass gives to a link, if it does.
  function NewLine(t: Token, m: map<nat, nat>, defs: Defs): Option<nat> {
    if Twin(t, m) then Some(m[t.anchor.line]) else DefOf(t, defs)
  }

  function Moved(t: Token, m: map<nat, nat>, defs: Defs, tag: string): Token {
    if t.Text? then t
    else
      Link(if Twin(t, m) then WithLine(t.txt, m[t.anchor.line]) else NewText(t, tag),
           t.kind, tag, t.rel,
           if NewLine(t, m, defs).Some? then At(NewLine(t, m, defs).value) else t.anchor)
  }

  function MovedAll(ts: seq<Token>, m: map<nat, nat>, defs: Defs, tag: string): (r: seq<Token>)
    ensures |r| == |ts| && forall i :: 0 <= i < |ts| ==> r[i] == Moved(ts[i], m, defs, tag)
  {
    if ts == [] then []
    else MovedAll(ts[..|ts| - 1], m, defs, tag) + [Moved(ts[|ts| - 1], m, defs, tag)]
  }

  function RepinLine(ts: seq<Token>, defs: Defs, tag: string): seq<Token> {
    MovedAll(ts, AnchorMap(ts, defs), defs, tag)
  }

  // The counts that it returns: tags changed, anchors computed, and anchors among them that changed.
  function TagCount(ts: seq<Token>, tag: string): nat {
    if ts == [] then 0
    else TagCount(ts[..|ts| - 1], tag) + if ts[|ts| - 1].Link? && ts[|ts| - 1].tag != tag then 1 else 0
  }

  function AnchorCount(ts: seq<Token>, m: map<nat, nat>, defs: Defs): nat {
    if ts == [] then 0
    else AnchorCount(ts[..|ts| - 1], m, defs) + if NewLine(ts[|ts| - 1], m, defs).Some? then 1 else 0
  }

  predicate Drifts(t: Token, m: map<nat, nat>, defs: Defs) {
    NewLine(t, m, defs).Some? && t.anchor != At(NewLine(t, m, defs).value)
  }

  function DriftCount(ts: seq<Token>, m: map<nat, nat>, defs: Defs): nat {
    if ts == [] then 0
    else DriftCount(ts[..|ts| - 1], m, defs) + if Drifts(ts[|ts| - 1], m, defs) then 1 else 0
  }

  // The symbols without a definition, with their files.
  function Missing(ts: seq<Token>, defs: Defs): seq<(string, string)> {
    if ts == [] then []
    else
      var t := ts[|ts| - 1];
      Missing(ts[..|ts| - 1], defs)
      + if Anchored(t) && SymbolOf(t.txt).Some? && DefOf(t, defs).None? then [(t.rel.value, SymbolOf(t.txt).value)] else []
  }

  // ---------- the counts ----------

  function Retagged(ts: seq<Token>, tag: string): set<int> {
    set i | 0 <= i < |ts| && ts[i].Link? && ts[i].tag != tag
  }

  function Relined(ts: seq<Token>, m: map<nat, nat>, defs: Defs): set<int> {
    set i | 0 <= i < |ts| && NewLine(ts[i], m, defs).Some?
  }

  function Drifting(ts: seq<Token>, m: map<nat, nat>, defs: Defs): set<int> {
    set i | 0 <= i < |ts| && NewLine(ts[i], m, defs).Some? && ts[i].anchor != At(NewLine(ts[i], m, defs).value)
  }

  /** The counts are those of the links concerned: whose tag is another, that get a computed line, and whose line moves. */
  lemma {:induction false} CountsAre(ts: seq<Token>, tag: string, m: map<nat, nat>, defs: Defs)
    ensures TagCount(ts, tag) == |Retagged(ts, tag)|
    ensures AnchorCount(ts, m, defs) == |Relined(ts, m, defs)|
    ensures DriftCount(ts, m, defs) == |Drifting(ts, m, defs)|
  {
    hide NewLine, Retagged, Relined, Drifting;
    if ts == [] {
      NothingCounted(tag, m, defs);
    } else {
      CountsAre(ts[..|ts| - 1], tag, m, defs);
      OneTagMore(ts, tag);
      OneLineMore(ts, m, defs);
    }
  }

  lemma NothingCounted(tag: string, m: map<nat, nat>, defs: Defs)
    ensures Retagged([], tag) == {} && Relined([], m, defs) == {} && Drifting([], m, defs) == {}
  {}

  lemma OneTagMore(ts: seq<Token>, tag: string)
    requires ts != []
    ensures var n := |ts| - 1;
            |Retagged(ts, tag)| == |Retagged(ts[..n], tag)| + if ts[n].Link? && ts[n].tag != tag then 1 else 0
  {
    var n := |ts| - 1;
    assert Retagged(ts, tag) == Retagged(ts[..n], tag) + if ts[n].Link? && ts[n].tag != tag then {n} else {};
  }

  lemma OneLineMore(ts: seq<Token>, m: map<nat, nat>, defs: Defs)
    requires ts != []
    ensures var n := |ts| - 1;
            && |Relined(ts, m, defs)| == |Relined(ts[..n], m, defs)| + (if NewLine(ts[n], m, defs).Some? then 1 else 0)
            && |Drifting(ts, m, defs)| == |Drifting(ts[..n], m, defs)| + (if Drifts(ts[n], m, defs) then 1 else 0)
  {
    hide NewLine, Relined, Drifting;
    OneRelined(ts, m, defs);
    OneDrifting(ts, m, defs);
  }

  lemma OneRelined(ts: seq<Token>, m: map<nat, nat>, defs: Defs)
    requires ts != []
    ensures var n := |ts| - 1;
            n !in Relined(ts[..n], m, defs)
            && Relined(ts, m, defs) == Relined(ts[..n], m, defs) + if NewLine(ts[n], m, defs).Some? then {n} else {}
  {
    hide NewLine;
    var n := |ts| - 1;
    forall i ensures i in Relined(ts, m, defs) <==> i in Relined(ts[..n], m, defs) || (i == n && NewLine(ts[n], m, defs).Some?) {
      assert 0 <= i < n ==> ts[..n][i] == ts[i];
    }
  }

  lemma OneDrifting(ts: seq<Token>, m: map<nat, nat>, defs: Defs)
    requires ts != []
    ensures var n := |ts| - 1;
            n !in Drifting(ts[..n], m, defs)
            && Drifting(ts, m, defs) == Drifting(ts[..n], m, defs) + if Drifts(ts[n], m, defs) then {n} else {}
  {
    hide NewLine;
    var n := |ts| - 1;
    forall i ensures i in Drifting(ts, m, defs) <==> i in Drifting(ts[..n], m, defs) || (i == n && Drifts(ts[n], m, defs)) {
      assert 0 <= i < n ==> ts[..n][i] == ts[i];
    }
  }

  /** Missing are the symbols of the links to one line of a file that have no definition there, in the order of the links. */
  lemma {:induction false} MissingAre(ts: seq<Token>, defs: Defs)
    ensures forall x :: x in Missing(ts, defs) <==>
              exists i :: 0 <= i < |ts| && ts[i].Link? && ts[i].anchor.At? && ts[i].rel.Some? && SymbolOf(ts[i].txt) == Some(x.1)
                && ts[i].rel.value == x.0 && (x.1, x.0) !in defs
  {
    hide SymbolOf;
    if ts != [] {
      var n := |ts| - 1;
      MissingAre(ts[..n], defs);
      assert forall i :: 0 <= i < n ==> ts[..n][i] == ts[i];
    }
  }

  // ---------- texts that change stay what they are ----------

  lemma SymbolChars(txt: string, c: char)
    requires SymbolOf(txt).Some? && c in txt
    ensures IsIdent(c) || IsSpace(c) || c == TICK || c == '(' || c == ')'
  {
    hide IsIdent, IsSpace;
  }

  lemma NoSymbol(txt: string)
    requires '.' in txt || ':' in txt
    ensures SymbolOf(txt).None?
  {
    hide SymbolOf;
    if SymbolOf(txt).Some? {
      SymbolChars(txt, if '.' in txt then '.' else ':');
    }
  }

  lemma VersionChars(t: string)
    requires IsVersion(t)
    ensures |t| >= 3 && '.' in t && IsDigit(t[0]) && forall i :: 0 <= i < |t| ==> IsDigit(t[i]) || t[i] == '.'
  {
    var a := DigitsFirst(t);
    var b := DigitsFirst(t[a + 1..]);
    var rest := t[a + 1 + b..];
    assert forall i :: a < i < a + 1 + b ==> t[i] == t[a + 1..][i - a - 1];
    assert forall i :: a + 1 + b <= i < |t| ==> t[i] == rest[i - a - 1 - b];
    if rest != [] {
      assert forall i :: 0 < i < |rest| ==> rest[i] == rest[1..][i - 1];
    }
  }

  // The version is replaced where it is, and nowhere else.
  lemma ReplaceTag(txt: string, tag: string)
    requires IsVersion(Inside(txt))
    ensures Inside(txt) != [] && Replace(txt, Inside(txt), tag) == Before(txt) + tag + After(txt)
  {
    hide IsVersion;
    var a, before, after := Inside(txt), Before(txt), After(txt);
    VersionChars(a);
    ReplaceAt(a, tag, after);
    if before == [] {
      assert txt == a + after;
      assert tag + after == [] + tag + after;
    } else {
      assert txt[0] == TICK && txt[1..] == a + after;
      assert txt[..|a|] != a by {
        assert txt[..|a|][0] == TICK;
      }
      assert [TICK] + (tag + after) == [TICK] + tag + after;
    }
  }

  lemma ReplaceAt(a: string, tag: string, after: string)
    requires |a| > |after|
    ensures Replace(a + after, a, tag) == tag + after
  {
    assert (a + after)[..|a|] == a && (a + after)[|a|..] == after;
  }

  lemma {:induction false} ReplaceSame(t: string, a: string)
    requires a != []
    ensures Replace(t, a, a) == t
  {
    if |t| < |a| {
    } else if t[..|a|] == a {
      ReplaceSame(t[|a|..], a);
    } else {
      ReplaceSame(t[1..], a);
    }
  }

  lemma {:induction false} DigitsLastIs(t: string, n: nat)
    requires n < |t| && !IsDigit(t[|t| - 1 - n]) && forall i :: |t| - n <= i < |t| ==> IsDigit(t[i])
    ensures DigitsLast(t) == n
  {
    if n > 0 {
      DigitsLastIs(t[..|t| - 1], n - 1);
    }
  }

  // A locator for line n is one for line m by the text in front of the number.
  lemma WithLineIs(txt: string, n: nat)
    requires IsLocator(txt)
    ensures var t := Bare(txt);
            var u := WithLine(txt, n);
            var head := t[..|t| - DigitsLast(t)];
            && IsLocator(u) && Bare(u) == head + Decimal(n) && u[|Bare(u)|..] == txt[|t|..]
            && DigitsLast(Bare(u)) == |Decimal(n)| && head != [] && head[|head| - 1] == ':'
            && u == head + Decimal(n) + txt[|t|..]
  {
    hide Decimal, Bare, DigitsLast, IsDigit;
    var t := Bare(txt);
    var d := DigitsLast(t);
    var head, tail := t[..|t| - d], txt[|t|..];
    var body := head + Decimal(n);
    DecimalDigits(n);
    ColonIsNoDigit();
    assert body[|body| - 1 - |Decimal(n)|] == ':';
    DigitsLastIs(body, |Decimal(n)|);
    BareIs(body, tail, txt);
  }

  lemma ColonIsNoDigit()
    ensures !IsDigit(':')
  {
  }

  lemma DecimalDigits(n: nat)
    ensures Decimal(n) != [] && forall i :: 0 <= i < |Decimal(n)| ==> IsDigit(Decimal(n)[i])
  {
  }

  lemma BareIs(body: string, tail: string, txt: string)
    requires body != [] && IsDigit(body[|body| - 1]) && tail == txt[|Bare(txt)|..]
    ensures Bare(body + tail) == body && (body + tail)[|body|..] == tail
  {
    if tail == [] {
      assert body + tail == body;
    } else {
      assert (body + tail)[..|body|] == body;
      assert tail == [TICK];
    }
  }

  lemma WithLineTwice(txt: string, n: nat)
    ensures WithLine(WithLine(txt, n), n) == WithLine(txt, n)
  {
    hide Bare, IsLocator, Decimal, DigitsLast;
    if IsLocator(txt) {
      WithLineIs(txt, n);
      var t := Bare(txt);
      var head := t[..|t| - DigitsLast(t)];
      assert (head + Decimal(n))[..|head|] == head;
    }
  }

  lemma LocatorHasColon(txt: string)
    requires IsLocator(txt)
    ensures ':' in txt
  {
    var t := Bare(txt);
    assert txt[|t| - 1 - DigitsLast(t)] == ':';
  }

  // A character that can stand in a tag without being taken for another part of the link.
  predicate IsTagPart(c: char) {
    c != '/' && c != ')' && c != '#' && c != ']' && c != TICK
  }

  // A tag that is read back whole from the address and the text of a link.
  predicate IsTag(tag: string) {
    tag != [] && forall i :: 0 <= i < |tag| ==> IsTagPart(tag[i])
  }

  // A tag of a release: as the text of a link it names neither a symbol nor a line.
  predicate IsRelease(tag: string) {
    IsTag(tag) && SymbolOf(tag).None? && !IsLocator(tag)
  }

  // ---------- a tag between backticks ----------

  // What is left without the space at both ends: a slice that starts and ends with no space.
  lemma {:induction false} StripLeftIs(u: string)
    ensures var r := StripLeft(u);
            |r| <= |u| && r == u[|u| - |r|..] && (r != [] ==> !IsSpace(r[0])) && (u != [] && !IsSpace(u[|u| - 1]) ==> r != [])
  {
    hide IsSpace;
    if u != [] && IsSpace(u[0]) {
      var v := u[1..];
      StripLeftIs(v);
      assert v[|v| - |StripLeft(v)|..] == u[|u| - |StripLeft(v)|..];
    }
  }

  lemma {:induction false} StripRightIs(u: string)
    ensures var r := StripRight(u);
            |r| <= |u| && r == u[..|r|] && (r != [] ==> !IsSpace(r[|r| - 1])) && (u != [] && !IsSpace(u[0]) ==> r != [])
  {
    hide IsSpace;
    if u != [] && IsSpace(u[|u| - 1]) {
      var v := u[..|u| - 1];
      StripRightIs(v);
      assert v[..|StripRight(v)|] == u[..|StripRight(v)|];
    }
  }

  lemma Unstripped(u: string)
    requires u != []
    ensures !IsSpace(u[0]) ==> StripLeft(u) == u
    ensures !IsSpace(u[|u| - 1]) ==> StripRight(u) == u
  {
    hide IsSpace;
  }

  lemma NoSpaces()
    ensures !IsSpace(TICK) && !IsIdent(TICK) && forall c :: IsIdent(c) ==> !IsSpace(c)
  {}

  lemma Uncalled(t: string)
    requires t == [] || t[|t| - 1] != ')'
    ensures Uncall(t) == t
  {
    if |t| >= 2 {
      assert t[|t| - 2..][1] == t[|t| - 1];
    }
  }

  // A tag between two backticks that names a symbol names it without them.
  lemma TickedSymbol(tag: string)
    requires IsTag(tag) && SymbolOf([TICK] + tag + [TICK]).Some?
    ensures SymbolOf(tag).Some?
  {
    hide StripLeft, StripRight, IsSpace, IsIdent, IsIdentStart, Uncall;
    NoSpaces();
    var u := [TICK] + tag + [TICK];
    Unstripped(u);
    assert Untick(u) == tag;
    Uncalled(tag);
    Unstripped(tag);
  }

  // A backtick on one side only is part of no symbol.
  lemma HalfTicked(t: string)
    requires t != [] && t[|t| - 1] != ')' && (t[0] == TICK || t[|t| - 1] == TICK)
    requires |t| > 1 ==> t[0] != TICK || t[|t| - 1] != TICK
    ensures !IsIdentifier(Uncall(Untick(t)))
  {
    hide Uncall;
    Uncalled(t);
    Uncalled([]);
  }

  lemma LeftTick(u: string)
    requires u != [] && u[0] == TICK && forall i :: 0 < i < |u| ==> IsTagPart(u[i])
    ensures SymbolOf(u).None?
  {
    hide StripLeft, StripRight, IsSpace, IsIdent, IsIdentStart, Uncall, Untick, IsIdentifier;
    NoSpaces();
    Unstripped(u);
    StripRightIs(u);
    var t := StripRight(u);
    assert t != [] && t[0] == u[0] && t[|t| - 1] == u[|t| - 1];
    HalfTicked(t);
  }

  lemma RightTick(u: string)
    requires u != [] && u[|u| - 1] == TICK && forall i :: 0 <= i < |u| - 1 ==> IsTagPart(u[i])
    ensures SymbolOf(u).None?
  {
    hide StripLeft, StripRight, IsSpace, IsIdent, IsIdentStart, Uncall, Untick, IsIdentifier;
    NoSpaces();
    StripLeftIs(u);
    var t := StripLeft(u);
    assert t != [] && t[0] == u[|u| - |t|] && t[|t| - 1] == u[|u| - 1];
    Unstripped(t);
    HalfTicked(t);
  }

  lemma LineBehindTick(t: string)
    requires t != [] && t[0] == TICK
    ensures EndsInLine(t) ==> EndsInLine(t[1..])
  {
    hide DigitsLast;
    var tag := t[1..];
    var d := DigitsLast(t);
    if EndsInLine(t) {
      assert |t| - 1 - d > 0;
      assert forall i :: |tag| - d <= i < |tag| ==> tag[i] == t[i + 1];
      assert tag[|tag| - 1 - d] == t[|t| - 1 - d];
      ColonIsNoDigit();
      DigitsLastIs(tag, d);
    }
  }

  // Backticks round a tag make no locator of it.
  lemma TickedLocator(before: string, tag: string, after: string)
    requires IsTag(tag) && (before == [] || before == [TICK]) && (after == [] || after == [TICK])
    requires IsLocator(before + tag + after)
    ensures IsLocator(tag)
  {
    hide EndsInLine, Bare, IsTagPart;
    LastOfTag(before, tag);
    BareOfTag(before + tag, after);
    BareOfTag(tag, []);
    assert tag + [] == tag;
    if before == [] {
      assert before + tag == tag;
    } else {
      LineBehindTick(before + tag);
      assert (before + tag)[1..] == tag;
    }
  }

  lemma LastOfTag(before: string, tag: string)
    requires IsTag(tag)
    ensures tag[|tag| - 1] != TICK && (before + tag)[|before + tag| - 1] != TICK
  {}

  lemma BareOfTag(t: string, after: string)
    requires t != [] && t[|t| - 1] != TICK && (after == [] || after == [TICK])
    ensures Bare(t + after) == t
  {
    if after == [TICK] {
      assert (t + after)[..|t|] == t;
    } else {
      assert t + after == t;
    }
  }

  // The text of a link with the tag of a release in it names neither a symbol nor a line.
  lemma ReleaseText(before: string, tag: string, after: string)
    requires IsRelease(tag) && (before == [] || before == [TICK]) && (after == [] || after == [TICK])
    ensures SymbolOf(before + tag + after).None? && !IsLocator(before + tag + after)
  {
    hide SymbolOf, IsLocator, IsTagPart;
    var u := before + tag + after;
    if IsLocator(u) {
      TickedLocator(before, tag, after);
    }
    LeftTick([TICK] + tag);
    RightTick(tag + [TICK]);
    assert [] + tag + [] == tag && [] + tag + [TICK] == tag + [TICK] && [TICK] + tag + [] == [TICK] + tag;
    if SymbolOf([TICK] + tag + [TICK]).Some? {
      TickedSymbol(tag);
    }
  }

  // The text with the tag in it replaced: it names the new tag, or nothing has changed.
  lemma NewTextStays(t: Token, tag: string)
    requires t.Link? && IsRelease(tag)
    ensures var u := NewText(t, tag);
            && NewText(Link(u, t.kind, tag, t.rel, t.anchor), tag) == u
            && (SymbolOf(u).Some? <==> SymbolOf(t.txt).Some?)
            && (SymbolOf(t.txt).Some? ==> u == t.txt)
            && (u != t.txt ==> !IsLocator(u) && !IsLocator(t.txt))
  {
    hide SymbolOf, IsLocator, Replace, IsVersion, Inside, Before, After, IsRelease;
    var u := NewText(t, tag);
    if TagOf(t.txt) == Some(t.tag) {
      ReplaceTag(t.txt, tag);
      VersionText(t.txt);
      Sides(t.txt);
      ReleaseText(Before(t.txt), tag, After(t.txt));
    }
    if TagOf(u) == Some(tag) {
      ReplaceSame(u, tag);
    }
  }

  lemma Sides(txt: string)
    ensures Before(txt) == [] || Before(txt) == [TICK]
    ensures After(txt) == [] || After(txt) == [TICK]
  {}

  lemma VersionText(txt: string)
    requires IsVersion(Inside(txt))
    ensures SymbolOf(txt).None? && !IsLocator(txt)
  {
    hide IsVersion, IsLocator, Inside, SymbolOf;
    var a := Inside(txt);
    VersionChars(a);
    assert txt == Before(txt) + a + After(txt);
    assert ':' !in txt && '.' in txt;
    NoSymbol(txt);
    if IsLocator(txt) {
      LocatorHasColon(txt);
    }
  }

  lemma TwinTextStays(txt: string, n: nat)
    requires SymbolOf(txt).None?
    ensures SymbolOf(WithLine(txt, n)).None?
  {
    hide SymbolOf, IsLocator, Decimal, Bare, DigitsLast;
    if IsLocator(txt) {
      WithLineIs(txt, n);
      var t := Bare(txt);
      var head := t[..|t| - DigitsLast(t)];
      assert (head + Decimal(n) + txt[|t|..])[|head| - 1] == ':';
      NoSymbol(WithLine(txt, n));
    }
  }

  // ---------- the second run ----------

  // The lines that the symbol links of the line are moved to.
  predicate IsTarget(ts: seq<Token>, defs: Defs, i: nat, n: nat) {
    i < |ts| && DefOf(ts[i], defs) == Some(n)
  }

  ghost predicate Targets(ts: seq<Token>, defs: Defs, n: nat) {
    exists i: nat :: IsTarget(ts, defs, i, n)
  }

  /** A locator that the next run moves: no symbol of the line was at its line, one is now, and its text says another. */
  ghost predicate Stale(ts: seq<Token>, defs: Defs, i: nat) {
    && i < |ts| && Anchored(ts[i]) && SymbolOf(ts[i].txt).None?
    && ts[i].anchor.line !in AnchorMap(ts, defs)
    && Targets(ts, defs, ts[i].anchor.line)
    && WithLine(ts[i].txt, ts[i].anchor.line) != ts[i].txt
  }

  ghost predicate AnyStale(ts: seq<Token>, defs: Defs) {
    exists i: nat :: Stale(ts, defs, i)
  }

  lemma {:induction false} MapTargets(ts: seq<Token>, defs: Defs)
    ensures forall n: nat :: n in AnchorMap(ts, defs) ==> Targets(ts, defs, AnchorMap(ts, defs)[n])
  {
    hide DefOf;
    if ts != [] {
      var rest := ts[..|ts| - 1];
      MapTargets(rest, defs);
      var m := AnchorMap(rest, defs);
      forall n: nat | n in m ensures Targets(ts, defs, m[n]) {
        var i: nat :| IsTarget(rest, defs, i, m[n]);
        assert IsTarget(ts, defs, i, m[n]);
      }
      if DefOf(ts[|ts| - 1], defs).Some? {
        assert IsTarget(ts, defs, |ts| - 1, DefOf(ts[|ts| - 1], defs).value);
      }
    }
  }

  // After a run every symbol link is at its definition.
  lemma MovedDef(t: Token, m: map<nat, nat>, defs: Defs, tag: string)
    requires IsRelease(tag)
    ensures var u := Moved(t, m, defs, tag);
            && DefOf(u, defs) == DefOf(t, defs)
            && (DefOf(t, defs).Some? ==> u.anchor == At(DefOf(t, defs).value))
            && (t.Link? ==> u.Link? && u.tag == tag && (SymbolOf(u.txt).Some? <==> SymbolOf(t.txt).Some?))
            && (Anchored(u) <==> Anchored(t))
  {
    hide SymbolOf, WithLine, NewText, IsRelease;
    if t.Link? {
      NewTextStays(t, tag);
      if Twin(t, m) {
        TwinTextStays(t.txt, m[t.anchor.line]);
      }
    }
  }

  ghost predicate IsIdentity(m: map<nat, nat>) {
    forall n: nat :: n in m ==> m[n] == n
  }

  // The second run's map leaves every line that it has where it is, and it has exactly the targets.
  lemma {:induction false} SecondMap(ts: seq<Token>, us: seq<Token>, m: map<nat, nat>, defs: Defs, tag: string)
    requires IsRelease(tag) && |us| == |ts| && forall i :: 0 <= i < |ts| ==> us[i] == Moved(ts[i], m, defs, tag)
    ensures var m2 := AnchorMap(us, defs);
            && IsIdentity(m2)
            && (forall n: nat :: n in m2 <==> Targets(ts, defs, n))
  {
    hide DefOf, Moved, IsRelease;
    if ts == [] {
      assert forall n, i :: !IsTarget(ts, defs, i, n);
    } else {
      var k := |ts| - 1;
      SecondMap(ts[..k], us[..k], m, defs, tag);
      MovedDef(ts[k], m, defs, tag);
      forall n: nat ensures Targets(ts, defs, n) <==> Targets(ts[..k], defs, n) || DefOf(ts[k], defs) == Some(n) {
        TargetsSnoc(ts, defs, n);
      }
    }
  }

  lemma TargetsSnoc(ts: seq<Token>, defs: Defs, n: nat)
    requires ts != []
    ensures Targets(ts, defs, n) <==> Targets(ts[..|ts| - 1], defs, n) || DefOf(ts[|ts| - 1], defs) == Some(n)
  {
    hide DefOf;
    var k := |ts| - 1;
    if Targets(ts, defs, n) {
      var i: nat :| IsTarget(ts, defs, i, n);
      assert i < k ==> IsTarget(ts[..k], defs, i, n);
    }
    if Targets(ts[..k], defs, n) {
      var i: nat :| IsTarget(ts[..k], defs, i, n);
      assert IsTarget(ts, defs, i, n);
    }
    if DefOf(ts[k], defs) == Some(n) {
      assert IsTarget(ts, defs, k, n);
    }
  }

  // One link in the second run.
  lemma MovedTwice(t: Token, m: map<nat, nat>, m2: map<nat, nat>, defs: Defs, tag: string)
    requires IsRelease(tag)
    requires IsIdentity(m2)
    requires Anchored(t) && t.anchor.line in m ==> m[t.anchor.line] in m2
    ensures var u := Moved(t, m, defs, tag);
            && (Moved(u, m2, defs, tag) == u <==>
                !(Twin(t, m2) && !Twin(t, m) && WithLine(t.txt, t.anchor.line) != t.txt))
            && !Drifts(u, m2, defs)
  {
    hide SymbolOf, IsLocator, NewText, DefOf, IsRelease;
    var u := Moved(t, m, defs, tag);
    DefIsSymbol(u, defs);
    if t.Link? {
      MovedDef(t, m, defs, tag);
      NewTextStays(t, tag);
      DefIsSymbol(t, defs);
      if Twin(t, m) {
        WithLineTwice(t.txt, m[t.anchor.line]);
      } else {
        NewTextTwice(t, u, tag);
      }
    }
  }

  lemma DefIsSymbol(t: Token, defs: Defs)
    ensures DefOf(t, defs).Some? ==> Anchored(t) && SymbolOf(t.txt).Some?
  {
  }

  lemma NewTextTwice(t: Token, u: Token, tag: string)
    requires t.Link? && IsRelease(tag) && u.Link? && u.txt == NewText(t, tag) && u.tag == tag
    ensures NewText(u, tag) == u.txt
    ensures forall n: nat :: WithLine(u.txt, n) != u.txt <==> WithLine(t.txt, n) != t.txt
  {
    hide NewText, SymbolOf, IsLocator, IsRelease;
    NewTextStays(t, tag);
    SameTexts(u, Link(u.txt, t.kind, tag, t.rel, t.anchor), tag);
  }

  lemma SameTexts(t: Token, u: Token, tag: string)
    requires t.Link? && u.Link? && t.txt == u.txt && t.tag == u.tag
    ensures NewText(t, tag) == NewText(u, tag)
  {
  }

  /** Re-pinning a line to the same release again changes it exactly if it has a stale locator. */
  lemma RepinTwiceIff(ts: seq<Token>, defs: Defs, tag: string)
    requires IsRelease(tag)
    ensures var us := RepinLine(ts, defs, tag);
            RepinLine(us, defs, tag) == us <==> !AnyStale(ts, defs)
  {
    hide AnchorMap, Moved, SymbolOf, WithLine, Targets, Drifts, IsRelease;
    var m := AnchorMap(ts, defs);
    var us := RepinLine(ts, defs, tag);
    var m2 := AnchorMap(us, defs);
    var vs := RepinLine(us, defs, tag);
    MapTargets(ts, defs);
    SecondMap(ts, us, m, defs, tag);
    forall i | 0 <= i < |ts| ensures vs[i] == us[i] <==> !Stale(ts, defs, i) {
      MovedTwice(ts[i], m, m2, defs, tag);
    }
    if exists i: nat :: Stale(ts, defs, i) {
      var i: nat :| Stale(ts, defs, i);
      assert vs[i] != us[i];
    }
  }

  /** In any case the second run finds every tag and every computed anchor as they should be. */
  lemma NothingDrifts(ts: seq<Token>, defs: Defs, tag: string)
    requires IsRelease(tag)
    ensures var us := RepinLine(ts, defs, tag);
            TagCount(us, tag) == 0 && DriftCount(us, AnchorMap(us, defs), defs) == 0
  {
    hide AnchorMap, Moved, DefOf, WithLine, Targets, Drifts, TagCount, DriftCount, SymbolOf, IsRelease;
    var m := AnchorMap(ts, defs);
    var us := RepinLine(ts, defs, tag);
    MapTargets(ts, defs);
    SecondMap(ts, us, m, defs, tag);
    forall i | 0 <= i < |us| ensures !Drifts(us[i], AnchorMap(us, defs), defs) && (us[i].Link? ==> us[i].tag == tag) {
      MovedTwice(ts[i], m, AnchorMap(us, defs), defs, tag);
      MovedTag(ts[i], m, defs, tag);
    }
    NoCounts(us, AnchorMap(us, defs), defs, tag);
  }

  lemma MovedTag(t: Token, m: map<nat, nat>, defs: Defs, tag: string)
    ensures Moved(t, m, defs, tag).Link? ==> Moved(t, m, defs, tag).tag == tag
  {
  }

  lemma {:induction false} NoCounts(ts: seq<Token>, m: map<nat, nat>, defs: Defs, tag: string)
    requires forall i :: 0 <= i < |ts| ==> !Drifts(ts[i], m, defs) && (ts[i].Link? ==> ts[i].tag == tag)
    ensures TagCount(ts, tag) == 0 && DriftCount(ts, m, defs) == 0
  {
    hide Drifts;
    if ts != [] {
      NoCounts(ts[..|ts| - 1], m, defs, tag);
    }
  }

  /** Where every locator says the line that it points to, re-pinning is idempotent. */
  lemma RepinTwice(ts: seq<Token>, defs: Defs, tag: string)
    requires IsRelease(tag)
    requires forall i :: 0 <= i < |ts| && Anchored(ts[i]) && SymbolOf(ts[i].txt).None? && IsLocator(ts[i].txt) ==>
               WithLine(ts[i].txt, ts[i].anchor.line) == ts[i].txt
    ensures RepinLine(RepinLine(ts, defs, tag), defs, tag) == RepinLine(ts, defs, tag)
  {
    hide AnchorMap, Anchored, SymbolOf, IsLocator, Targets, RepinLine, IsRelease;
    RepinTwiceIff(ts, defs, tag);
  }

  /** It is not idempotent on every line: here the symbol moves from line 10 to line 20, and the locator, which says
      line 5 and points to line 20, follows only in the second run. */
  lemma RepinMovesTwice(tag: string)
    requires IsRelease(tag)
    ensures var ts := [Link("fun", Blob, tag, Some("a.c"), At(10)), Text(" at "), Link("a.c:5", Blob, tag, Some("a.c"), At(20))];
            var defs := map[("fun", "a.c") := 20];
            RepinLine(RepinLine(ts, defs, tag), defs, tag) != RepinLine(ts, defs, tag)
  {
    hide *;
    var ts := [Link("fun", Blob, tag, Some("a.c"), At(10)), Text(" at "), Link("a.c:5", Blob, tag, Some("a.c"), At(20))];
    var defs: Defs := map[("fun", "a.c") := 20];
    RepinTwiceIff(ts, defs, tag);
    FunIsSymbol();
    LocatorIsNone("a.c:5");
    OtherLine();
    BothAnchored(ts);
    ThirdIsStale(ts, defs, "fun", "a.c:5");
  }

  lemma ThirdIsStale(ts: seq<Token>, defs: Defs, sym: string, txt: string)
    requires |ts| == 3 && ts[1].Text? && Anchored(ts[0]) && Anchored(ts[2])
    requires SymbolOf(ts[0].txt) == Some(sym) && defs == map[(sym, ts[0].rel.value) := 20] && ts[0].anchor == At(10)
    requires ts[2].txt == txt && SymbolOf(txt).None? && ts[2].anchor == At(20) && WithLine(txt, 20) != txt
    ensures AnyStale(ts, defs)
  {
    hide SymbolOf, WithLine, AnchorMap;
    assert IsTarget(ts, defs, 0, 20);
    OnlyMap(ts, defs);
    assert Stale(ts, defs, 2);
  }

  lemma LocatorIsNone(txt: string)
    requires txt == "a.c:5"
    ensures SymbolOf(txt).None?
  {
    assert txt[3] == ':';
    NoSymbol(txt);
  }

  lemma BothAnchored(ts: seq<Token>)
    requires |ts| == 3 && ts[0].Link? && ts[0].anchor.At? && ts[0].rel.Some? && ts[2].Link? && ts[2].anchor.At? && ts[2].rel.Some?
    ensures Anchored(ts[0]) && Anchored(ts[2])
  {
  }

  lemma FunIsSymbol()
    ensures SymbolOf("fun") == Some("fun")
  {
    assert !IsSpace('f') && !IsSpace('n');
    assert StripLeft("fun") == "fun";
    assert StripRight("fun") == "fun";
  }

  lemma OtherLine()
    ensures WithLine("a.c:5", 20) != "a.c:5"
  {
    hide Decimal, WithLine, DigitsLast, Bare, IsLocator;
    var txt := "a.c:5";
    FiveAtEnd(txt);
    WithLineIs(txt, 20);
    TwoDigits();
    assert |WithLine(txt, 20)| == 6;
  }

  lemma FiveAtEnd(txt: string)
    requires txt == "a.c:5"
    ensures Bare(txt) == txt && IsLocator(txt) && DigitsLast(txt) == 1
  {
    hide DigitsLast;
    assert |txt| == 5 && txt[3] == ':' && txt[4] == '5';
    DigitsLastIs(txt, 1);
  }

  lemma TwoDigits()
    ensures Decimal(20) == "20" && Decimal(21) == "21"
  {
    assert Decimal(2) == "2" && Decimal(0) == "0" && Decimal(1) == "1";
  }

  lemma OnlyMap(ts: seq<Token>, defs: Defs)
    requires |ts| == 3 && DefOf(ts[0], defs) == Some(20) && DefOf(ts[1], defs).None? && DefOf(ts[2], defs).None?
    requires ts[0].Link? && ts[0].anchor == At(10)
    ensures 20 !in AnchorMap(ts, defs)
  {
    hide DefOf;
    assert ts[..2][..1] == ts[..1];
    assert ts[..1][..0] == [];
    assert AnchorMap(ts[..1], defs) == map[10 := 20];
    assert AnchorMap(ts[..2], defs) == map[10 := 20];
  }

  /** Nor for a tag that could be a symbol: the text that named the old release names a symbol after the first run, and the second
      takes the link to be that symbol's. */
  lemma SymbolTagMovesTwice(tag: string)
    requires SymbolOf(tag).Some?
    ensures var t := Link("7.9.2", Blob, "7.9.2", Some("a.c"), At(10));
            var defs := map[(SymbolOf(tag).value, "a.c") := 20];
            && RepinLine([t], defs, tag) == [Link(tag, Blob, tag, Some("a.c"), At(10))]
            && RepinLine(RepinLine([t], defs, tag), defs, tag) == [Link(tag, Blob, tag, Some("a.c"), At(20))]
  {
    hide SymbolOf, RepinLine, NewText;
    var t := Link("7.9.2", Blob, "7.9.2", Some("a.c"), At(10));
    var u := Link(tag, Blob, tag, Some("a.c"), At(10));
    var defs: Defs := map[(SymbolOf(tag).value, "a.c") := 20];
    VersionTaken(t, tag);
    OneStays(t, defs, tag);
    SymbolIsNoVersion(u, tag);
    OneMoves(u, defs, tag);
  }

  lemma VersionTaken(t: Token, tag: string)
    requires t.Link? && t.txt == "7.9.2" && t.tag == "7.9.2"
    ensures NewText(t, tag) == tag && SymbolOf(t.txt).None?
  {
    hide IsVersion, SymbolOf, Replace, Inside, Before, After;
    NoTicks(t.txt);
    NoSymbol(t.txt);
    IsAVersion(t.txt);
    ReplaceTag(t.txt, tag);
    Unquoted(tag);
  }

  lemma NoTicks(txt: string)
    requires txt == "7.9.2"
    ensures '.' in txt && Inside(txt) == txt && Before(txt) == [] && After(txt) == []
  {
    assert |txt| == 5 && txt[0] == '7' && txt[1] == '.' && txt[4] == '2';
    assert txt[0..5] == txt;
  }

  lemma Unquoted(tag: string)
    ensures [] + tag + [] == tag
  {}

  lemma IsAVersion(t: string)
    requires t == "7.9.2"
    ensures IsVersion(t)
  {
    assert DigitsFirst(t[1..]) == 0 && DigitsFirst(t) == 1;
    assert DigitsFirst(t[3..]) == 0 && t[2..][1..] == t[3..] && DigitsFirst(t[2..]) == 1;
    assert DigitsFirst(t[5..]) == 0 && t[4..][1..] == t[5..] && DigitsFirst(t[4..]) == 1;
    assert t[2 + 1..] == t[3..] && t[3..][1..] == t[4..];
  }

  lemma SymbolIsNoVersion(u: Token, tag: string)
    requires u.Link? && SymbolOf(u.txt).Some?
    ensures NewText(u, tag) == u.txt
  {
    hide IsVersion, SymbolOf, Replace, Inside, IsLocator;
    if IsVersion(Inside(u.txt)) {
      VersionText(u.txt);
    }
  }

  lemma OneStays(t: Token, defs: Defs, tag: string)
    requires Anchored(t) && SymbolOf(t.txt).None?
    ensures RepinLine([t], defs, tag) == [t.(txt := NewText(t, tag), tag := tag)]
  {
    hide SymbolOf, NewText, WithLine;
    assert [t][..0] == [];
    assert AnchorMap([t], defs) == map[];
  }

  lemma OneMoves(t: Token, defs: Defs, tag: string)
    requires Anchored(t) && SymbolOf(t.txt).Some? && (SymbolOf(t.txt).value, t.rel.value) in defs
    ensures RepinLine([t], defs, tag)
            == [t.(txt := NewText(t, tag), tag := tag, anchor := At(defs[(SymbolOf(t.txt).value, t.rel.value)]))]
  {
    hide SymbolOf, NewText, WithLine;
    assert [t][..0] == [];
  }

  // ---------- for which tags it is idempotent ----------

  // Re-pinning to the tag a second time changes no line without a stale locator, wherever the symbols are defined.
  ghost predicate Idempotent(tag: string) {
    forall ts: seq<Token>, defs: Defs :: !AnyStale(ts, defs) ==>
      RepinLine(RepinLine(ts, defs, tag), defs, tag) == RepinLine(ts, defs, tag)
  }

  /** It is idempotent but for stale locators if and only if the tag names neither a symbol nor a line. */
  lemma IdempotentIff(tag: string)
    requires IsTag(tag)
    ensures Idempotent(tag) <==> SymbolOf(tag).None? && !IsLocator(tag)
  {
    hide *;
    ReleaseIs(tag);
    if SymbolOf(tag).Some? {
      SymbolTagFails(tag);
    } else if IsLocator(tag) {
      LocatorTagFails(tag);
    } else {
      ReleaseIdempotent(tag);
    }
  }

  lemma ReleaseIs(tag: string)
    requires IsTag(tag)
    ensures IsRelease(tag) <==> SymbolOf(tag).None? && !IsLocator(tag)
  {}

  lemma ReleaseIdempotent(tag: string)
    requires IsRelease(tag)
    ensures Idempotent(tag)
  {
    hide IsRelease, RepinLine, Stale;
    forall ts: seq<Token>, defs: Defs | !AnyStale(ts, defs)
      ensures RepinLine(RepinLine(ts, defs, tag), defs, tag) == RepinLine(ts, defs, tag)
    {
      RepinTwiceIff(ts, defs, tag);
    }
  }

  lemma Fails(tag: string, ts: seq<Token>, defs: Defs)
    requires !AnyStale(ts, defs) && RepinLine(RepinLine(ts, defs, tag), defs, tag) != RepinLine(ts, defs, tag)
    ensures !Idempotent(tag)
  {
    hide RepinLine, AnyStale;
  }

  lemma SymbolTagFails(tag: string)
    requires SymbolOf(tag).Some?
    ensures !Idempotent(tag)
  {
    hide *;
    var t := Link("7.9.2", Blob, "7.9.2", Some("a.c"), At(10));
    var defs: Defs := map[(SymbolOf(tag).value, "a.c") := 20];
    SymbolTagMovesTwice(tag);
    VersionTaken(t, tag);
    NotStale(t.txt);
    OneNotStale([t], defs);
    Fails(tag, [t], defs);
  }

  lemma NotStale(txt: string)
    requires txt == "7.9.2"
    ensures forall n: nat :: WithLine(txt, n) == txt
  {
    hide IsVersion, Inside, Before, After, SymbolOf, IsLocator;
    NoTicks(txt);
    IsAVersion(txt);
    VersionText(txt);
  }

  lemma OneNotStale(ts: seq<Token>, defs: Defs)
    requires forall i, n: nat :: 0 <= i < |ts| && ts[i].Link? && SymbolOf(ts[i].txt).None? ==> WithLine(ts[i].txt, n) == ts[i].txt
    ensures !AnyStale(ts, defs)
  {
    hide SymbolOf, WithLine, AnchorMap, Targets;
  }

  /** Nor for a tag that ends in a colon and a number: the text that named the old release then names a line, and the
      second run takes the link to follow the symbol that has been moved to its line. */
  lemma LocatorTagMovesTwice(tag: string, n: nat)
    requires SymbolOf(tag).None? && WithLine(tag, n) != tag && n != 10
    ensures var f, t := Link("fun", Blob, "7.9.2", Some("a.c"), At(10)), Link("7.9.2", Blob, "7.9.2", Some("a.c"), At(n));
            var defs := map[("fun", "a.c") := n];
            var f', u := Link("fun", Blob, tag, Some("a.c"), At(n)), Link(tag, Blob, tag, Some("a.c"), At(n));
            && RepinLine([f, t], defs, tag) == [f', u]
            && RepinLine([f', u], defs, tag)[1].txt == WithLine(tag, n)
  {
    hide SymbolOf, RepinLine, NewText, WithLine;
    var f, t := Link("fun", Blob, "7.9.2", Some("a.c"), At(10)), Link("7.9.2", Blob, "7.9.2", Some("a.c"), At(n));
    var defs: Defs := map[("fun", "a.c") := n];
    var f', u := Link("fun", Blob, tag, Some("a.c"), At(n)), Link(tag, Blob, tag, Some("a.c"), At(n));
    FunIsSymbol();
    SymbolIsNoVersion(f, tag);
    SymbolIsNoVersion(f', tag);
    VersionTaken(t, tag);
    TwoRepinned(f, t, defs, tag, n);
    TwoRepinned(f', u, defs, tag, n);
  }

  // A symbol link that is moved to line n, and a link at that line that names no symbol.
  lemma TwoRepinned(f: Token, t: Token, defs: Defs, tag: string, n: nat)
    requires Anchored(f) && SymbolOf(f.txt).Some? && defs == map[(SymbolOf(f.txt).value, f.rel.value) := n]
    requires NewText(f, tag) == f.txt
    requires Anchored(t) && SymbolOf(t.txt).None? && t.anchor == At(n)
    ensures var r := RepinLine([f, t], defs, tag);
            && r == [f.(tag := tag, anchor := At(n)),
                     t.(tag := tag, txt := if f.anchor == At(n) then WithLine(t.txt, n) else NewText(t, tag))]
  {
    hide SymbolOf, NewText, WithLine;
    assert [f, t][..1] == [f] && [f][..0] == [];
    assert AnchorMap([f], defs) == map[f.anchor.line := n];
    assert AnchorMap([f, t], defs) == map[f.anchor.line := n];
  }

  lemma LocatorTagFails(tag: string)
    requires SymbolOf(tag).None? && IsLocator(tag)
    ensures !Idempotent(tag)
  {
    hide *;
    var n := OtherNumber(tag);
    var f, t := Link("fun", Blob, "7.9.2", Some("a.c"), At(10)), Link("7.9.2", Blob, "7.9.2", Some("a.c"), At(n));
    var defs: Defs := map[("fun", "a.c") := n];
    LocatorTagMovesTwice(tag, n);
    FunIsSymbol();
    NotStale(t.txt);
    OneNotStale([f, t], defs);
    Fails(tag, [f, t], defs);
  }

  lemma OtherNumber(tag: string) returns (n: nat)
    requires IsLocator(tag)
    ensures n != 10 && WithLine(tag, n) != tag
  {
    hide IsLocator, WithLine, Decimal, DigitsLast, Bare;
    n := if WithLine(tag, 20) != tag then 20 else 21;
    TwoDigits();
    WithLineIs(tag, 20);
    WithLineIs(tag, 21);
    var t := Bare(tag);
    SameEnds(t[..|t| - DigitsLast(t)], Decimal(20), Decimal(21), tag[|t|..]);
  }

  lemma SameEnds(head: string, a: string, b: string, tail: string)
    requires a != b && |a| == |b|
    ensures head + a + tail != head + b + tail
  {
    assert (head + a + tail)[|head|..|head| + |a|] == a && (head + b + tail)[|head|..|head| + |b|] == b;
  }

  // ---------- the two passes ----------

  method FirstPass(ts: seq<Token>, defs: Defs) returns (m: map<nat, nat>)
    ensures m == AnchorMap(ts, defs)
  {
    hide SymbolOf;
    m := map[];
    var i := 0;
    while i < |ts|
      invariant i <= |ts| && m == AnchorMap(ts[..i], defs)
    {
      var t := ts[i];
      assert ts[..i + 1][..i] == ts[..i];
      if t.Link? && t.anchor.At? {
        var sym := SymbolOf(t.txt);
        if sym.Some? && t.rel.Some? && (sym.value, t.rel.value) in defs {
          m := m[t.anchor.line := defs[(sym.value, t.rel.value)]];
        }
      }
      i := i + 1;
    }
    assert ts[..i] == ts;
  }

  // A link in the second pass: its new text, its new line if it gets one, and the symbol that has no definition.
  method MoveLink(t: Token, m: map<nat, nat>, defs: Defs, tag: string)
    returns (u: Token, newLine: Option<nat>, lost: seq<(string, string)>)
    requires t.Link?
    ensures u == Moved(t, m, defs, tag) && newLine == NewLine(t, m, defs)
    ensures lost == if Anchored(t) && SymbolOf(t.txt).Some? && DefOf(t, defs).None?
                    then [(t.rel.value, SymbolOf(t.txt).value)] else []
  {
    hide SymbolOf, WithLine;
    var txt := t.txt;
    newLine, lost := None, [];
    var tagTxt := TagOf(t.txt);
    if tagTxt.Some? && tagTxt.value == t.tag {
      txt := Replace(t.txt, t.tag, tag);
    }
    if t.anchor.At? && t.rel.Some? {
      var sym := SymbolOf(t.txt);
      if sym.Some? {
        if (sym.value, t.rel.value) in defs {
          newLine := Some(defs[(sym.value, t.rel.value)]);
        } else {
          lost := [(t.rel.value, sym.value)];
        }
      } else if t.anchor.line in m {
        newLine := Some(m[t.anchor.line]);
        txt := WithLine(t.txt, newLine.value);
      }
    }
    var anchor := if t.anchor.At? && newLine.Some? then At(newLine.value) else t.anchor;
    u := Link(txt, t.kind, tag, t.rel, anchor);
  }

  /** repin_line. */
  method Repin(ts: seq<Token>, defs: Defs, tag: string)
    returns (out: seq<Token>, nTag: nat, nAnchor: nat, nDrift: nat, missing: seq<(string, string)>)
    ensures out == RepinLine(ts, defs, tag) && missing == Missing(ts, defs)
    ensures nTag == TagCount(ts, tag) && nAnchor == AnchorCount(ts, AnchorMap(ts, defs), defs)
    ensures nDrift == DriftCount(ts, AnchorMap(ts, defs), defs)
  {
    hide *;
    var m := FirstPass(ts, defs);
    out, missing, nTag, nAnchor, nDrift := [], [], 0, 0, 0;
    var i := 0;
    NothingDone(m, defs, tag);
    assert ts[..0] == [];
    while i < |ts|
      invariant i <= |ts| && Done(ts[..i], m, defs, tag, out, nTag, nAnchor, nDrift, missing)
    {
      var t := ts[i];
      DoneNext(ts[..i], t, m, defs, tag, out, nTag, nAnchor, nDrift, missing);
      assert ts[..i + 1] == ts[..i] + [t];
      if t.Text? {
        TextMoves(t, m, defs, tag);
        NothingMore(missing);
        out := out + [t];
      } else {
        var u, newLine, lost := MoveLink(t, m, defs, tag);
        NewLineIsAt(t, m, defs);
        missing := missing + lost;
        if newLine.Some? {
          nAnchor := nAnchor + 1;
          if newLine.value != t.anchor.line {
            nDrift := nDrift + 1;
          }
        }
        if t.tag != tag {
          nTag := nTag + 1;
        }
        out := out + [u];
      }
      i := i + 1;
    }
    assert ts[..i] == ts;
    AllDone(ts, m, defs, tag, out, nTag, nAnchor, nDrift, missing);
  }

  // What the second pass has put out and counted for the tokens so far.
  ghost predicate Done(ts: seq<Token>, m: map<nat, nat>, defs: Defs, tag: string,
                       out: seq<Token>, nTag: nat, nAnchor: nat, nDrift: nat, missing: seq<(string, string)>) {
    && out == MovedAll(ts, m, defs, tag) && missing == Missing(ts, defs)
    && nTag == TagCount(ts, tag) && nAnchor == AnchorCount(ts, m, defs) && nDrift == DriftCount(ts, m, defs)
  }

  lemma NothingDone(m: map<nat, nat>, defs: Defs, tag: string)
    ensures Done([], m, defs, tag, [], 0, 0, 0, [])
  {
  }

  lemma NothingMore(s: seq<(string, string)>)
    ensures s + [] == s
  {
  }

  lemma AllDone(ts: seq<Token>, m: map<nat, nat>, defs: Defs, tag: string,
                out: seq<Token>, nTag: nat, nAnchor: nat, nDrift: nat, missing: seq<(string, string)>)
    requires m == AnchorMap(ts, defs) && Done(ts, m, defs, tag, out, nTag, nAnchor, nDrift, missing)
    ensures out == RepinLine(ts, defs, tag) && missing == Missing(ts, defs)
    ensures nTag == TagCount(ts, tag) && nAnchor == AnchorCount(ts, m, defs) && nDrift == DriftCount(ts, m, defs)
  {
    hide MovedAll, Missing, TagCount, AnchorCount, DriftCount, AnchorMap;
  }

  lemma DoneNext(ts: seq<Token>, t: Token, m: map<nat, nat>, defs: Defs, tag: string,
                 out: seq<Token>, nTag: nat, nAnchor: nat, nDrift: nat, missing: seq<(string, string)>)
    requires Done(ts, m, defs, tag, out, nTag, nAnchor, nDrift, missing)
    ensures var line := NewLine(t, m, defs);
            var lost := if Anchored(t) && SymbolOf(t.txt).Some? && DefOf(t, defs).None?
                        then [(t.rel.value, SymbolOf(t.txt).value)] else [];
            Done(ts + [t], m, defs, tag, out + [Moved(t, m, defs, tag)],
                 if t.Link? && t.tag != tag then nTag + 1 else nTag,
                 if line.Some? then nAnchor + 1 else nAnchor,
                 if line.Some? && t.anchor != At(line.value) then nDrift + 1 else nDrift,
                 missing + lost)
  {
    hide SymbolOf, DefOf, Moved, NewLine, MovedAll, Missing, TagCount, AnchorCount, DriftCount;
    OneMoreMoved(ts, t, m, defs, tag);
    OneMoreCounted(ts, t, m, defs, tag);
    NewLineIsAt(t, m, defs);
  }

  lemma OneMoreMoved(ts: seq<Token>, t: Token, m: map<nat, nat>, defs: Defs, tag: string)
    ensures MovedAll(ts + [t], m, defs, tag) == MovedAll(ts, m, defs, tag) + [Moved(t, m, defs, tag)]
    ensures Missing(ts + [t], defs)
            == Missing(ts, defs)
               + if Anchored(t) && SymbolOf(t.txt).Some? && DefOf(t, defs).None? then [(t.rel.value, SymbolOf(t.txt).value)] else []
  {
    hide SymbolOf, DefOf, Moved;
    var all := ts + [t];
    assert all[..|all| - 1] == ts;
  }

  lemma OneMoreCounted(ts: seq<Token>, t: Token, m: map<nat, nat>, defs: Defs, tag: string)
    ensures TagCount(ts + [t], tag) == TagCount(ts, tag) + if t.Link? && t.tag != tag then 1 else 0
    ensures AnchorCount(ts + [t], m, defs) == AnchorCount(ts, m, defs) + if NewLine(t, m, defs).Some? then 1 else 0
    ensures DriftCount(ts + [t], m, defs) == DriftCount(ts, m, defs) + if Drifts(t, m, defs) then 1 else 0
  {
    hide NewLine, Drifts;
    var all := ts + [t];
    assert all[..|all| - 1] == ts;
  }

  lemma TextMoves(t: Token, m: map<nat, nat>, defs: Defs, tag: string)
    requires t.Text?
    ensures Moved(t, m, defs, tag) == t && NewLine(t, m, defs).None? && DefOf(t, defs).None? && !Anchored(t)
  {
  }

  lemma NewLineIsAt(t: Token, m: map<nat, nat>, defs: Defs)
    ensures NewLine(t, m, defs).Some? ==> t.Link? && t.anchor.At?
  {
  }

  // ---------- one run ----------

  /** A locator follows the symbol link next to it: the last one that was at the same line. */
  lemma TwinFollows(ts: seq<Token>, defs: Defs, tag: string, i: nat, j: nat, n: nat)
    requires i < |ts| && j < |ts| && IsTarget(ts, defs, j, n)
    requires Anchored(ts[i]) && SymbolOf(ts[i].txt).None? && ts[i].anchor == ts[j].anchor
    requires forall k :: j < k < |ts| && ts[k].Link? && ts[k].anchor == ts[j].anchor ==> DefOf(ts[k], defs).None?
    ensures var us := RepinLine(ts, defs, tag);
            && us[i].Link? && us[i].anchor == us[j].anchor == At(n)
            && (IsLocator(ts[i].txt) ==>
                  var t := Bare(ts[i].txt);
                  us[i].txt == t[..|t| - DigitsLast(t)] + Decimal(n) + ts[i].txt[|t|..])
  {
    hide AnchorMap, SymbolOf, Bare, IsLocator, DigitsLast, Decimal, NewText;
    LastTarget(ts, defs, j, n);
    assert SymbolOf(ts[j].txt).Some?;
    if IsLocator(ts[i].txt) {
      WithLineIs(ts[i].txt, n);
    }
  }

  lemma {:induction false} LastTarget(ts: seq<Token>, defs: Defs, j: nat, n: nat)
    requires IsTarget(ts, defs, j, n)
    requires forall k :: j < k < |ts| && ts[k].Link? && ts[k].anchor == ts[j].anchor ==> DefOf(ts[k], defs).None?
    ensures var m := AnchorMap(ts, defs); ts[j].anchor.line in m && m[ts[j].anchor.line] == n
  {
    hide SymbolOf;
    var rest := ts[..|ts| - 1];
    if j < |rest| {
      assert rest[j] == ts[j];
      assert forall k :: j < k < |rest| ==> rest[k] == ts[k];
      LastTarget(rest, defs, j, n);
    }
  }

  /** Whatever else is on the line stays: the text between the links, the kind and the path of each link, ranges of
      lines, and the text and the line of every link that names no symbol and no line that one was at. */
  lemma RepinKeeps(ts: seq<Token>, defs: Defs, tag: string, i: nat)
    requires i < |ts|
    ensures var us := RepinLine(ts, defs, tag);
            && |us| == |ts|
            && (ts[i].Text? ==> us[i] == ts[i])
            && (ts[i].Link? ==>
                  && us[i] == Link(us[i].txt, ts[i].kind, tag, ts[i].rel, us[i].anchor)
                  && (!Anchored(ts[i]) ==> us[i].anchor == ts[i].anchor)
                  && (us[i].anchor != ts[i].anchor ==>
                        us[i].anchor.At? && exists j: nat :: IsTarget(ts, defs, j, us[i].anchor.line)))
  {
    hide AnchorMap, SymbolOf, WithLine, NewText;
    MapTargets(ts, defs);
    if DefOf(ts[i], defs).Some? {
      assert IsTarget(ts, defs, i, DefOf(ts[i], defs).value);
    }
  }
}
