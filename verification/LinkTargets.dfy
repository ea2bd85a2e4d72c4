/** Where the links that a page comes to have point, said of the labels and the definitions themselves; and that it is the
    first mention of a symbol that becomes a link. */
module LinkTargets {
  import opened Options
  import opened Numerals
  import opened DocLinks
  import R = Repin
  import S = SourceLinks

  // ---------- the four targets ----------

  // A letter of a name as it stands in a label.
  predicate Lowered(c: char, d: char) {
    if 'A' <= c <= 'Z' then 'a' <= d <= 'z' && d - 'a' == c - 'A' else if c == '_' then d == '-' else d == c
  }

  predicate GclassLabel(lbl: string, name: string) {
    && |lbl| == 7 + |name| && lbl[..7] == "gclass-"
    && forall j :: 0 <= j < |name| ==> Lowered(name[j], lbl[7 + j])
  }

  // A label of a gclass that is not on the page itself.
  ghost predicate GclassTarget(ix: Index, name: string, lbl: string) {
    |name| >= 2 && name[..2] == "C_" && GclassLabel(lbl, name) && lbl in ix.gclasses && lbl !in ix.own
  }

  ghost predicate HasGclass(ix: Index, name: string) {
    exists lbl :: GclassTarget(ix, name, lbl)
  }

  predicate HasTool(ix: Index, name: string) {
    name in ix.tools && ix.tools[name] !in ix.own
  }

  // A documented function that is defined somewhere.
  predicate HasEntry(ix: Index, name: string) {
    name in ix.paths && ix.paths[name] != [] && name in ix.funcs && name !in ix.own
  }

  // A function that is defined in one file, at a known line.
  predicate HasSource(ix: Index, name: string) {
    name in ix.paths && |ix.paths[name]| == 1 && (name, ix.paths[name][0]) in ix.lines
  }

  // The address leads to the definition: whoever reads it finds the release, the file and the line.
  ghost predicate LeadsTo(ix: Index, name: string, url: string)
    requires HasSource(ix, name)
  {
    var path := ix.paths[name][0];
    var line := ix.lines[(name, path)];
    && url == "https://github.com/artgins/yunetas/blob/" + ix.tag + "/" + path + "#L" + Decimal(line)
    && (S.TagOk(ix.tag) && S.RelOk(Some(path)) ==>
          forall rest :: S.ReadAddress(url + ")" + rest) == Some(S.Found(R.Blob, ix.tag, Some(path), R.At(line), rest)))
  }

  // The link does not dangle, and it is the best that there is: a gclass before a tool, a tool before an entry of the
  // documentation, and an entry before the source.
  ghost predicate Leads(ix: Index, name: string, goal: Goal) {
    match goal.kind
    case Gclass => exists lbl :: GclassTarget(ix, name, lbl) && goal.url == "#" + lbl
    case Tool => !HasGclass(ix, name) && HasTool(ix, name) && goal.url == "#" + ix.tools[name]
    case Func =>
      && !HasGclass(ix, name) && !HasTool(ix, name)
      && if HasEntry(ix, name) then goal.url == "#" + name else HasSource(ix, name) && LeadsTo(ix, name, goal.url)
  }

  ghost predicate HasTarget(ix: Index, name: string) {
    HasGclass(ix, name) || HasTool(ix, name) || HasEntry(ix, name) || HasSource(ix, name)
  }

  lemma {:induction false} DashedIs(name: string)
    ensures |Dashed(name)| == |name| && forall j :: 0 <= j < |name| ==> Lowered(name[j], Dashed(name)[j])
  {
    if name != [] {
      DashedIs(name[1..]);
      assert forall j :: 0 < j < |name| ==> name[j] == name[1..][j - 1] && Dashed(name)[j] == Dashed(name[1..])[j - 1];
    }
  }

  lemma LabelIs(name: string)
    ensures GclassLabel("gclass-" + Dashed(name), name)
    ensures forall other :: GclassLabel(other, name) ==> other == "gclass-" + Dashed(name)
  {
    DashedIs(name);
    var l := "gclass-" + Dashed(name);
    assert l[..7] == "gclass-";
    forall other | GclassLabel(other, name) ensures other == l {
      assert other == other[..7] + other[7..];
      forall j | 0 <= j < |name| ensures other[7..][j] == Dashed(name)[j] {
        assert Lowered(name[j], other[7 + j]) && Lowered(name[j], Dashed(name)[j]);
      }
      assert other[7..] == Dashed(name);
    }
  }

  lemma GclassIff(ix: Index, name: string)
    ensures var target := "gclass-" + Dashed(name);
            HasGclass(ix, name) <==> |name| >= 2 && name[..2] == "C_" && target in ix.gclasses && target !in ix.own
    ensures HasGclass(ix, name) ==> GclassTarget(ix, name, "gclass-" + Dashed(name))
  {
    hide GclassLabel;
    LabelIs(name);
    var target := "gclass-" + Dashed(name);
    if |name| >= 2 && name[..2] == "C_" && target in ix.gclasses && target !in ix.own {
      assert GclassTarget(ix, name, target);
    }
  }

  lemma SourceLeads(ix: Index, name: string)
    requires HasSource(ix, name)
    ensures var path := ix.paths[name][0];
            LeadsTo(ix, name, GH_BLOB + ix.tag + "/" + path + "#L" + Decimal(ix.lines[(name, path)]))
  {
    hide S.ReadAddress, Decimal, S.TagOk, S.RelOk;
    var path := ix.paths[name][0];
    var line := ix.lines[(name, path)];
    var url := GH_BLOB + ix.tag + "/" + path + "#L" + Decimal(line);
    AddressIs(ix.tag, path, line);
    if S.TagOk(ix.tag) && S.RelOk(Some(path)) {
      forall rest ensures S.ReadAddress(url + ")" + rest) == Some(S.Found(R.Blob, ix.tag, Some(path), R.At(line), rest)) {
        S.ReadBackIff(R.Blob, ix.tag, Some(path), R.At(line), rest);
      }
    }
  }

  lemma AddressIs(tag: string, path: string, line: nat)
    ensures S.Address(R.Blob, tag, Some(path), R.At(line)) == GH_BLOB + tag + "/" + path + "#L" + Decimal(line)
  {
    hide Decimal;
    assert S.GH_ROOT + "/" + "blob" + "/" == GH_BLOB;
    var head := GH_BLOB + tag;
    assert head + ("/" + path) == head + "/" + path;
    assert (head + "/" + path) + ("#L" + Decimal(line)) == head + "/" + path + "#L" + Decimal(line);
  }

  /** A symbol has a goal if and only if one of the four targets is there, and the goal leads to the best of them. */
  lemma GoalLeads(ix: Index, name: string)
    ensures GoalOf(ix, name).Some? <==> HasTarget(ix, name)
    ensures GoalOf(ix, name).Some? ==> Leads(ix, name, GoalOf(ix, name).value)
  {
    hide GclassTarget, LeadsTo, HasGclass;
    GclassIff(ix, name);
    if HasSource(ix, name) {
      SourceLeads(ix, name);
    }
  }

  // ---------- on a page ----------

  // Every link that comes in is for a symbol, and points where the rule says.
  ghost predicate GoalsOk(ix: Index, ps: seq<Piece>) {
    forall i :: 0 <= i < |ps| && ps[i].Wrap? ==> IsSymbol(ps[i].inner) && GoalOf(ix, NameOf(ps[i].inner)) == Some(ps[i].goal)
  }

  lemma GoalsCons(ix: Index, p: Piece, ps: seq<Piece>)
    requires GoalsOk(ix, ps)
    requires p.Wrap? ==> IsSymbol(p.inner) && GoalOf(ix, NameOf(p.inner)) == Some(p.goal)
    ensures GoalsOk(ix, [p] + ps)
  {
    hide GoalOf, NameOf, IsSymbol;
  }

  lemma {:induction false} SubGoals(ix: Index, bracket: bool, s: string, seen: set<string>)
    ensures GoalsOk(ix, Sub(ix, bracket, s, seen))
    decreases |s|
  {
    hide SpanLen, GoalOf, NameOf, IsSymbol, IsSpan, GoalsOk, Sub, Keeps;
    var n := if bracket then 0 else SpanLen(s);
    if s == [] {
      NothingDeparts(ix, bracket, seen);
      NoGoals(ix);
    } else if n == 0 {
      SubPlain(ix, bracket, s, seen);
      SubGoals(ix, s[0] == '[', s[1..], seen);
      GoalsCons(ix, Copy(s[..1]), Sub(ix, s[0] == '[', s[1..], seen));
    } else if Keeps(ix, s, seen) {
      SubKept(ix, s, n, seen);
      SubGoals(ix, false, s[n..], seen);
      GoalsCons(ix, Copy(s[..n]), Sub(ix, false, s[n..], seen));
    } else {
      var inner := s[1..n - 1];
      var name := NameOf(inner);
      SubWrapped(ix, s, n, inner, name, seen);
      SubGoals(ix, false, s[n..], seen + {name});
      GoalsCons(ix, Wrap(inner, GoalOf(ix, name).value), Sub(ix, false, s[n..], seen + {name}));
    }
  }

  lemma NoGoals(ix: Index)
    ensures GoalsOk(ix, [])
  {}

  // The line of pieces comes from a line outside the code blocks, or has no link.
  lemma {:induction false} PageGoals(ix: Index, lines: seq<string>, inFence: bool, seen: set<string>, l: nat)
    requires l < |lines|
    ensures GoalsOk(ix, Page(ix, lines, inFence, seen)[l])
    decreases |lines|
  {
    hide GoalsOk, Sub, IsFence, SetOf, Names;
    if IsFence(lines[0]) || inFence {
      PageSkips(ix, lines, inFence, seen);
      CopyGoals(ix, lines[0]);
      if l > 0 {
        PageGoals(ix, lines[1..], if IsFence(lines[0]) then !inFence else inFence, seen, l - 1);
      }
    } else {
      var ps := Sub(ix, false, lines[0], seen);
      PageSubs(ix, lines, seen);
      SubGoals(ix, false, lines[0], seen);
      if l > 0 {
        PageGoals(ix, lines[1..], false, seen + SetOf(Names(ps)), l - 1);
      }
    }
  }

  lemma CopyGoals(ix: Index, t: string)
    ensures GoalsOk(ix, [Copy(t)])
  {}

  /** No link that a page comes to have dangles: each wraps a symbol and leads to the best target that the symbol has. */
  lemma NoneDangles(ix: Index, text: string, l: nat, i: nat)
    requires l < |Pieces(ix, text)| && i < |Pieces(ix, text)[l]| && Pieces(ix, text)[l][i].Wrap?
    ensures var p := Pieces(ix, text)[l][i];
            && IsSymbol(p.inner) && Leads(ix, NameOf(p.inner), p.goal)
            && Shown(p) == "[`" + p.inner + "`](" + p.goal.url + ")"
  {
    hide Leads, GoalOf, NameOf, IsSymbol, Page, SplitLines;
    PageGoals(ix, SplitLines(text), false, Linked(text), l);
    GoalLeads(ix, NameOf(Pieces(ix, text)[l][i].inner));
  }

  /** Linked come to be exactly the symbols that a page mentions outside its code blocks, does not link yet, and that have one
      of the four targets. */
  lemma LinksThoseWithTarget(ix: Index, text: string, name: string)
    requires Clean(ix)
    ensures name in PageNames(Pieces(ix, text)) <==>
            name in PageMentioned(SplitLines(text), false) && name !in LinkedNames(text) && HasTarget(ix, name)
  {
    hide HasTarget, GoalOf, PageNames, Pieces, PageMentioned, SplitLines, LinkedNames, Leads, Clean, LinkSymbols;
    LinksFirstMentions(ix, text);
    GoalLeads(ix, name);
  }

  // ---------- the first mention ----------

  lemma {:induction false} SubMentions(ix: Index, bracket: bool, s: string, seen: set<string>, i: nat)
    requires i < |Sub(ix, bracket, s, seen)| && Sub(ix, bracket, s, seen)[i].Wrap?
    ensures Sub(ix, bracket, SourceAll(Sub(ix, bracket, s, seen)[..i]), seen) == Sub(ix, bracket, s, seen)[..i]
    ensures var rest := SourceAll(Sub(ix, bracket, s, seen)[i..]); rest != [] && rest[0] == TICK
    decreases |s|
  {
    hide *;
    var ps := Sub(ix, bracket, s, seen);
    var n := if bracket then 0 else SpanLen(s);
    if s == [] {
      NothingDeparts(ix, bracket, seen);
    } else if n == 0 {
      SubPlain(ix, bracket, s, seen);
      PrefixPlain(ix, bracket, s, seen, i);
    } else if Keeps(ix, s, seen) {
      SubKept(ix, s, n, seen);
      PrefixKept(ix, s, n, seen, i);
    } else {
      PrefixWrapped(ix, s, n, seen, i);
    }
  }

  lemma PrefixPlain(ix: Index, bracket: bool, s: string, seen: set<string>, i: nat)
    requires s != [] && (bracket || SpanLen(s) == 0) && i < |Sub(ix, bracket, s, seen)| && Sub(ix, bracket, s, seen)[i].Wrap?
    ensures Sub(ix, bracket, SourceAll(Sub(ix, bracket, s, seen)[..i]), seen) == Sub(ix, bracket, s, seen)[..i]
    ensures var rest := SourceAll(Sub(ix, bracket, s, seen)[i..]); rest != [] && rest[0] == TICK
    decreases |s|, 0
  {
    hide *;
    SubPlain(ix, bracket, s, seen);
    var qs := Sub(ix, s[0] == '[', s[1..], seen);
    CopyParts(Copy(s[..1]), qs, i);
    SubMentions(ix, s[0] == '[', s[1..], seen, i - 1);
    Cons(Copy(s[..1]), qs[..i - 1]);
    var u := SourceAll(qs[..i - 1]);
    SourceOfSub(ix, s[0] == '[', s[1..], seen);
    SourceSplit(qs, i - 1);
    CutBefore(s, u, SourceAll(qs[i - 1..]), bracket);
    PlainOfPrefix(ix, bracket, s, u, seen);
    SourceOfKept(s, 1);
  }

  lemma PlainOfPrefix(ix: Index, bracket: bool, s: string, u: string, seen: set<string>)
    requires s != [] && (bracket || SpanLen(s[..1] + u) == 0)
    ensures Sub(ix, bracket, s[..1] + u, seen) == [Copy(s[..1])] + Sub(ix, s[0] == '[', u, seen)
  {
    hide SpanLen, Sub, GoalOf;
    var t := s[..1] + u;
    assert t[..1] == s[..1] && t[1..] == u && t[0] == s[0];
    SubPlain(ix, bracket, t, seen);
  }

  lemma {:induction false} SourceSplit(ps: seq<Piece>, i: nat)
    requires i <= |ps|
    ensures SourceAll(ps) == SourceAll(ps[..i]) + SourceAll(ps[i..])
  {
    hide SourceAll, Source;
    if i == 0 {
      assert ps[..0] == [] && ps[0..] == ps;
      NoSource(SourceAll(ps));
    } else {
      var qs := ps[1..];
      SourceSplit(qs, i - 1);
      assert ps == [ps[0]] + qs && ps[..i] == [ps[0]] + qs[..i - 1] && qs[i - 1..] == ps[i..];
      Cons(ps[0], qs);
      Cons(ps[0], qs[..i - 1]);
      AssocText(Source(ps[0]), SourceAll(qs[..i - 1]), SourceAll(ps[i..]));
    }
  }

  lemma NoSource(t: string)
    ensures SourceAll([]) + t == t
  {}

  lemma AssocText(a: string, b: string, c: string)
    ensures (a + b) + c == a + (b + c)
  {}

  // Where no span starts, none starts in a shorter text either that ends before a backtick.
  lemma CutBefore(s: string, u: string, rest: string, bracket: bool)
    requires s != [] && s[1..] == u + rest && rest != [] && rest[0] == TICK && (bracket || SpanLen(s) == 0)
    ensures bracket || SpanLen(s[..1] + u) == 0
  {
    hide SpanLen, IsSpan, IsSymbol;
    var t := s[..1] + u;
    assert s == t + rest;
    if SpanLen(t) > 0 {
      SpanLonger(t, rest);
    }
  }

  lemma SpanLonger(t: string, rest: string)
    requires SpanLen(t) > 0 && (rest == [] || rest[0] != ']')
    ensures SpanLen(t + rest) == SpanLen(t)
  {
    hide IsSymbol, SymbolLen;
    var n := SpanLen(t);
    var m := n - 2;
    assert IsSpan(t[..n]);
    assert t[..n][1..n - 1] == t[1..][..m];
    var s := t + rest;
    assert s[1..][..m] == t[1..][..m] && s[1..][m] == TICK;
    SymbolLenIs(s[1..], m);
  }

  lemma PrefixKept(ix: Index, s: string, n: nat, seen: set<string>, i: nat)
    requires n == SpanLen(s) > 0 && Keeps(ix, s, seen) && i < |Sub(ix, false, s, seen)| && Sub(ix, false, s, seen)[i].Wrap?
    ensures Sub(ix, false, SourceAll(Sub(ix, false, s, seen)[..i]), seen) == Sub(ix, false, s, seen)[..i]
    ensures var rest := SourceAll(Sub(ix, false, s, seen)[i..]); rest != [] && rest[0] == TICK
    decreases |s|, 0
  {
    hide *;
    SubKept(ix, s, n, seen);
    var qs := Sub(ix, false, s[n..], seen);
    CopyParts(Copy(s[..n]), qs, i);
    SubMentions(ix, false, s[n..], seen, i - 1);
    Cons(Copy(s[..n]), qs[..i - 1]);
    var u := SourceAll(qs[..i - 1]);
    SourceOfSub(ix, false, s[n..], seen);
    SourceSplit(qs, i - 1);
    SpanOfPrefix(s, n, u, SourceAll(qs[i - 1..]));
    KeptOfPrefix(ix, s, n, u, seen);
    SourceOfKept(s, n);
  }

  lemma SourceOfKept(s: string, n: nat)
    requires n <= |s|
    ensures Source(Copy(s[..n])) == s[..n]
  {}

  lemma CopyParts(p: Piece, qs: seq<Piece>, i: nat)
    requires p.Copy? && i < |[p] + qs| && ([p] + qs)[i].Wrap?
    ensures i > 0 && i - 1 < |qs| && ([p] + qs)[i] == qs[i - 1]
    ensures ([p] + qs)[i..] == qs[i - 1..] && ([p] + qs)[..i] == [p] + qs[..i - 1]
  {}

  lemma KeptOfPrefix(ix: Index, s: string, n: nat, u: string, seen: set<string>)
    requires n == SpanLen(s) > 0 && Keeps(ix, s, seen) && SpanLen(s[..n] + u) == n
    ensures Sub(ix, false, s[..n] + u, seen) == [Copy(s[..n])] + Sub(ix, false, u, seen)
  {
    hide SpanLen, Sub, IsSymbol, GoalOf, NameOf, IsSpan;
    var t := s[..n] + u;
    assert t[..n] == s[..n] && t[n..] == u && t[1..n - 1] == s[1..n - 1];
    SubKept(ix, t, n, seen);
  }

  lemma SpanOfPrefix(s: string, n: nat, u: string, rest: string)
    requires n == SpanLen(s) > 0 && s[n..] == u + rest
    ensures SpanLen(s[..n] + u) == n
  {
    hide IsSymbol, SymbolLen;
    var m := n - 2;
    var t := s[..n] + u;
    assert IsSpan(s[..n]);
    assert s[..n][1..n - 1] == t[1..][..m] && t[1..][m] == s[..n][n - 1] == TICK;
    SymbolLenIs(t[1..], m);
    assert n < |t| ==> t[n] == u[0] == s[n..][0] == s[n];
  }

  lemma PrefixWrapped(ix: Index, s: string, n: nat, seen: set<string>, i: nat)
    requires n == SpanLen(s) > 0 && !Keeps(ix, s, seen) && i < |Sub(ix, false, s, seen)| && Sub(ix, false, s, seen)[i].Wrap?
    ensures Sub(ix, false, SourceAll(Sub(ix, false, s, seen)[..i]), seen) == Sub(ix, false, s, seen)[..i]
    ensures var rest := SourceAll(Sub(ix, false, s, seen)[i..]); rest != [] && rest[0] == TICK
    decreases |s|, 0
  {
    hide SpanLen, Sub, SourceAll, IsSymbol, GoalOf, NameOf, IsSpan;
    var inner := s[1..n - 1];
    var name := NameOf(inner);
    SubWrapped(ix, s, n, inner, name, seen);
    var w := Wrap(inner, GoalOf(ix, name).value);
    var qs := Sub(ix, false, s[n..], seen + {name});
    var ps := [w] + qs;
    if i == 0 {
      assert ps[..0] == [] && ps[0..] == ps;
      Cons(w, qs);
      SourceEmpty(ix, seen);
    } else {
      assert ps[i] == qs[i - 1] && ps[i..] == qs[i - 1..] && ps[..i] == [w] + qs[..i - 1];
      SubMentions(ix, false, s[n..], seen + {name}, i - 1);
      Cons(w, qs[..i - 1]);
      var u := SourceAll(qs[..i - 1]);
      SourceOfSub(ix, false, s[n..], seen + {name});
      SourceSplit(qs, i - 1);
      SpanOfPrefix(s, n, u, SourceAll(qs[i - 1..]));
      WrapOfPrefix(ix, s, n, u, seen);
    }
  }

  lemma SourceEmpty(ix: Index, seen: set<string>)
    ensures SourceAll([]) == [] && Sub(ix, false, [], seen) == []
  {
    NothingDeparts(ix, false, seen);
  }

  lemma WrapOfPrefix(ix: Index, s: string, n: nat, u: string, seen: set<string>)
    requires n == SpanLen(s) > 0 && !Keeps(ix, s, seen) && SpanLen(s[..n] + u) == n
    ensures var inner := s[1..n - 1];
            var name := NameOf(inner);
            && GoalOf(ix, name).Some?
            && Sub(ix, false, "`" + inner + "`" + u, seen) == [Wrap(inner, GoalOf(ix, name).value)] + Sub(ix, false, u, seen + {name})
  {
    hide SpanLen, Sub, IsSymbol, GoalOf, NameOf, IsSpan;
    var inner := s[1..n - 1];
    var t := s[..n] + u;
    SubWrapped(ix, s, n, inner, NameOf(inner), seen);
    assert s[..n] == "`" + inner + "`" by { assert s == "`" + inner + "`" + s[n..]; }
    assert t[1..n - 1] == inner && t[n..] == u;
    SubWrapped(ix, t, n, inner, NameOf(inner), seen);
  }

  lemma NamesSplit(ps: seq<Piece>, i: nat)
    requires i < |ps| && ps[i].Wrap?
    ensures Names(ps) == Names(ps[..i]) + [NameOf(ps[i].inner)] + Names(ps[i + 1..])
  {
    hide Names, NameOf;
    var before, after := ps[..i], ps[i + 1..];
    assert ps == before + ([ps[i]] + after);
    NamesConcat(before, [ps[i]] + after);
    Cons(ps[i], after);
    AssocNames(Names(before), [NameOf(ps[i].inner)], Names(after));
  }

  lemma {:induction false} NamesConcat(a: seq<Piece>, b: seq<Piece>)
    ensures Names(a + b) == Names(a) + Names(b)
  {
    hide Names, NameOf;
    NoNamesYet();
    if a == [] {
      assert a + b == b;
    } else {
      var qs := a[1..];
      NamesConcat(qs, b);
      FirstPiece(a, b);
      Cons(a[0], qs);
      Cons(a[0], qs + b);
      AssocNames(if a[0].Wrap? then [NameOf(a[0].inner)] else [], Names(qs), Names(b));
      NothingInFront(Names(qs));
      NothingInFront(Names(qs) + Names(b));
    }
  }

  lemma FirstPiece(a: seq<Piece>, b: seq<Piece>)
    requires a != []
    ensures a == [a[0]] + a[1..] && a + b == [a[0]] + (a[1..] + b)
  {}

  lemma NothingInFront(names: seq<string>)
    ensures [] + names == names
  {}

  lemma AssocNames(a: seq<string>, b: seq<string>, c: seq<string>)
    ensures (a + b) + c == a + (b + c)
  {}

  lemma NoNamesYet()
    ensures Names([]) == []
  {}

  // On its line nothing before the link mentions the symbol.
  lemma FirstOnLine(ix: Index, s: string, seen: set<string>, i: nat)
    requires i < |Sub(ix, false, s, seen)| && Sub(ix, false, s, seen)[i].Wrap?
    ensures var ps := Sub(ix, false, s, seen);
            var name := NameOf(ps[i].inner);
            name !in Mentioned(false, SourceAll(ps[..i])) && name !in seen && name in Names(ps)
  {
    hide Sub, Names, NameOf, Mentioned, SourceAll, GoalOf, IsSymbol;
    var ps := Sub(ix, false, s, seen);
    var name := NameOf(ps[i].inner);
    SubMentions(ix, false, s, seen, i);
    SubNames(ix, false, s, seen);
    SubNames(ix, false, SourceAll(ps[..i]), seen);
    NamesSplit(ps, i);
    SubGoals(ix, false, s, seen);
    OnlyOnce(Names(ps[..i]), name, Names(ps[i + 1..]), seen);
  }

  lemma OnlyOnce(before: seq<string>, name: string, after: seq<string>, seen: set<string>)
    requires Apart(before + [name] + after, seen)
    ensures name !in before && name !in seen && name in before + [name] + after
  {
    var all := before + [name] + after;
    assert all[|before|] == name;
    assert forall j :: 0 <= j < |before| ==> all[j] == before[j] && all[j] != all[|before|];
  }

  lemma {:induction false} FirstOnPage(ix: Index, lines: seq<string>, inFence: bool, seen: set<string>, l: nat, i: nat)
    requires l < |lines|
    requires var page: seq<seq<Piece>> := Page(ix, lines, inFence, seen); i < |page[l]| && page[l][i].Wrap?
    ensures var ps := Page(ix, lines, inFence, seen)[l];
            var name := NameOf(ps[i].inner);
            && name !in PageMentioned(lines[..l], inFence) && name !in Mentioned(false, SourceAll(ps[..i])) && name !in seen
    decreases |lines|
  {
    hide Sub, Names, NameOf, Mentioned, SourceAll, GoalOf, IsSymbol, IsFence, SetOf, PageMentioned;
    var page: seq<seq<Piece>> := Page(ix, lines, inFence, seen);
    var name := NameOf(page[l][i].inner);
    NothingMentioned(inFence);
    if IsFence(lines[0]) || inFence {
      var f := if IsFence(lines[0]) then !inFence else inFence;
      PageSkips(ix, lines, inFence, seen);
      assert l > 0;
      FirstOnPage(ix, lines[1..], f, seen, l - 1, i);
      assert lines[..l][1..] == lines[1..][..l - 1] && lines[..l][0] == lines[0];
      PageSkips(ix, lines[..l], inFence, seen);
    } else {
      var ps := Sub(ix, false, lines[0], seen);
      PageSubs(ix, lines, seen);
      if l == 0 {
        FirstOnLine(ix, lines[0], seen, i);
        assert lines[..0] == [];
      } else {
        FirstOnPage(ix, lines[1..], false, seen + SetOf(Names(ps)), l - 1, i);
        assert lines[..l][1..] == lines[1..][..l - 1] && lines[..l][0] == lines[0];
        PageSubs(ix, lines[..l], seen);
        SubNames(ix, false, lines[0], seen);
        PageGoals(ix, lines, false, seen, l);
        InSetOf(Names(ps), name);
      }
    }
  }

  lemma NothingMentioned(inFence: bool)
    ensures PageMentioned([], inFence) == {}
  {}

  lemma InSetOf(names: seq<string>, name: string)
    ensures name in SetOf(names) <==> name in names
  {}

  /** It is the first mention that becomes a link: neither the lines before, outside the code blocks, nor what stands before it
      on its line mentions the symbol, and the page did not link it. */
  lemma FirstMention(ix: Index, text: string, l: nat, i: nat)
    requires l < |Pieces(ix, text)| && i < |Pieces(ix, text)[l]| && Pieces(ix, text)[l][i].Wrap?
    ensures var ps := Pieces(ix, text)[l];
            var name := NameOf(ps[i].inner);
            && l < |SplitLines(text)|
            && name !in PageMentioned(SplitLines(text)[..l], false) && name !in Mentioned(false, SourceAll(ps[..i]))
            && name !in LinkedNames(text)
  {
    hide Page, SplitLines, NameOf, PageMentioned, Mentioned, SourceAll, LinkedNames;
    FirstOnPage(ix, SplitLines(text), false, Linked(text), l, i);
  }

  // ---------- code blocks ----------

  // k characters of space, then three backticks or three tildes.
  predicate FenceAt(line: string, k: nat) {
    && k + 3 <= |line| && (forall i :: 0 <= i < k ==> IsSpace(line[i]))
    && (line[k..k + 3] == "```" || line[k..k + 3] == "~~~")
  }

  /** A line opens or closes a code block if and only if three backticks or three tildes come first on it, behind space. */
  lemma {:induction false} FenceIff(line: string)
    ensures IsFence(line) <==> exists k: nat :: FenceAt(line, k)
  {
    hide IsSpace, FenceAt;
    if line != [] && IsSpace(line[0]) {
      FenceIff(line[1..]);
      FenceBehind(line);
    } else {
      FenceInFront(line);
    }
  }

  lemma FenceBehind(line: string)
    requires line != [] && IsSpace(line[0])
    ensures (exists k: nat :: FenceAt(line, k)) <==> exists k: nat :: FenceAt(line[1..], k)
  {
    hide IsSpace, FenceAt;
    if k: nat :| FenceAt(line, k) {
      FenceNotAtSpace(line, k);
      FenceShift(line, k - 1);
    }
    if k: nat :| FenceAt(line[1..], k) {
      FenceShift(line, k);
    }
  }

  lemma FenceShift(line: string, k: nat)
    requires line != [] && IsSpace(line[0])
    ensures FenceAt(line, k + 1) <==> FenceAt(line[1..], k)
  {
    hide IsSpace;
    if k + 4 <= |line| {
      assert line[1..][k..k + 3] == line[k + 1..k + 4];
    }
    assert forall i :: 0 <= i < |line| - 1 ==> line[1..][i] == line[i + 1];
  }

  lemma FenceInFront(line: string)
    requires line != [] ==> !IsSpace(line[0])
    ensures IsFence(line) <==> exists k: nat :: FenceAt(line, k)
  {
    hide IsSpace;
    if |line| >= 3 {
      assert line[0..3] == line[..3];
      assert FenceAt(line, 0) <==> IsFence(line);
    }
    assert forall k: nat :: FenceAt(line, k) ==> k == 0;
  }

  lemma NoFenceSpace()
    ensures !IsSpace('`') && !IsSpace('~')
  {}

  lemma FenceNotAtSpace(line: string, k: nat)
    requires FenceAt(line, k) && IsSpace(line[0])
    ensures k > 0
  {
    hide IsSpace;
    NoFenceSpace();
    assert line[k] == line[k..k + 3][0];
  }

  // ---------- the counts ----------

  // The kinds of the links that come in.
  function Kinds(page: seq<seq<Piece>>): multiset<Kind> {
    if page == [] then multiset{} else LineKinds(page[0]) + Kinds(page[1..])
  }

  function LineKinds(ps: seq<Piece>): multiset<Kind> {
    if ps == [] then multiset{} else (if ps[0].Wrap? then multiset{ps[0].goal.kind} else multiset{}) + LineKinds(ps[1..])
  }

  lemma {:induction false} LineCount(ps: seq<Piece>, kind: Kind)
    ensures Count(ps, kind) == LineKinds(ps)[kind]
    ensures Count(ps, Gclass) + Count(ps, Tool) + Count(ps, Func) == |Names(ps)|
  {
    if ps != [] {
      LineCount(ps[1..], kind);
    }
  }

  /** The counts are those of the links that come in, each counted by its kind. */
  lemma {:induction false} CountsAre(page: seq<seq<Piece>>, kind: Kind)
    ensures PageCount(page, kind) == Kinds(page)[kind]
    ensures PageCount(page, Gclass) + PageCount(page, Tool) + PageCount(page, Func) == |PageNames(page)|
  {
    hide Count, Names, LineKinds;
    if page != [] {
      CountsAre(page[1..], kind);
      LineCount(page[0], kind);
    }
  }
}
