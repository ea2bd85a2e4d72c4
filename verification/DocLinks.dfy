/** Linking the symbols of a documentation page: the first mention of each symbol that has somewhere to point to becomes
    a link, unless the page links that symbol already. */
module DocLinks {
  import opened Options
  import opened Numerals

  // ---------- characters ----------

  const TICK := '`'

  predicate IsIdentStart(c: char) { 'A' <= c <= 'Z' || 'a' <= c <= 'z' || c == '_' }

  predicate IsIdent(c: char) { IsIdentStart(c) || '0' <= c <= '9' }

  // Where str.splitlines ends a line. Reading a file has already turned every \r into \n.
  predicate IsBreak(c: char) {
    || '\n' <= c <= '\r' || '\U{1c}' <= c <= '\U{1e}' || c == '\U{85}' || c == '\U{2028}' || c == '\U{2029}'
  }

  // What \s matches.
  predicate IsSpace(c: char) {
    || IsBreak(c) || c == ' ' || c == '\t' || c == '\U{1f}' || c == '\U{a0}' || c == '\U{1680}'
    || '\U{2000}' <= c <= '\U{200a}' || c == '\U{202f}' || c == '\U{205f}' || c == '\U{3000}'
  }

  // ---------- symbols, spans and links in a text ----------

  predicate IsName(t: string) {
    |t| >= 3 && IsIdentStart(t[0]) && forall i :: 0 <= i < |t| ==> IsIdent(t[i])
  }

  // A name, or a name and (): what the group of SYMBOL_SPAN matches.
  predicate IsSymbol(t: string) {
    IsName(t) || (|t| > 2 && t[|t| - 2..] == "()" && IsName(t[..|t| - 2]))
  }

  function NameOf(inner: string): (name: string)
    ensures IsSymbol(inner) ==> IsName(name)
  {
    hide IsName;
    if |inner| >= 2 && inner[|inner| - 2..] == "()" then
      NoNameEnds(inner);
      inner[..|inner| - 2]
    else inner
  }

  lemma NoNameEnds(t: string)
    requires |t| >= 2 && t[|t| - 2..] == "()"
    ensures !IsName(t)
  {
    assert t[|t| - 1] == t[|t| - 2..][1];
    assert !IsIdent(t[|t| - 1]);
  }

  function IdentLen(s: string): (n: nat)
    ensures n <= |s| && forall i :: 0 <= i < n ==> IsIdent(s[i])
    ensures n < |s| ==> !IsIdent(s[n])
  {
    if s != [] && IsIdent(s[0]) then 1 + IdentLen(s[1..]) else 0
  }

  // How long the symbol at the start of s is; 0 if there is none.
  function SymbolLen(s: string): (n: nat)
    ensures n <= |s| && (n > 0 ==> IsSymbol(s[..n]))
  {
    var k := IdentLen(s);
    if k < 3 || !IsIdentStart(s[0]) then 0
    else if k + 2 <= |s| && s[k..k + 2] == "()" then assert s[..k + 2][..k] == s[..k]; k + 2
    else k
  }

  // SYMBOL_SPAN at the start of s, but for the look behind: its length, or 0.
  function SpanLen(s: string): (n: nat)
    ensures n <= |s| && (n > 0 ==> n > 2 && IsSpan(s[..n]) && (n < |s| ==> s[n] != ']'))
  {
    if s == [] || s[0] != TICK then 0
    else
      var m := SymbolLen(s[1..]);
      if m == 0 || m + 1 >= |s| || s[m + 1] != TICK || (m + 2 < |s| && s[m + 2] == ']') then 0
      else assert s[..m + 2][1..m + 1] == s[1..][..m]; m + 2
  }

  predicate IsSpan(t: string) {
    |t| > 2 && t[0] == TICK && t[|t| - 1] == TICK && IsSymbol(t[1..|t| - 1])
  }

  // LINKED_SYMBOL at the start of s: its length, or 0.
  function LinkLen(s: string): (n: nat)
    ensures n <= |s| && (n > 0 ==> n > 5 && IsLink(s[..n]))
  {
    if |s| < 2 || s[0] != '[' || s[1] != TICK then 0
    else
      var m := SymbolLen(s[2..]);
      if m == 0 || m + 5 > |s| || s[m + 2..m + 5] != "`](" then 0
      else
        assert s[..m + 5][2..m + 2] == s[2..][..m];
        assert s[..m + 5][m + 2..] == s[m + 2..m + 5];
        m + 5
  }

  predicate IsLink(t: string) {
    |t| > 5 && t[0] == '[' && t[1] == TICK && t[|t| - 3..] == "`](" && IsSymbol(t[2..|t| - 3])
  }

  // The symbols that a text links, each as often as it does: what findall returns. Two links cannot overlap.
  function LinkedNames(s: string): multiset<string> {
    if s == [] then multiset{} else LinkedHere(s) + LinkedNames(s[1..])
  }

  function LinkedHere(s: string): multiset<string> {
    var n := LinkLen(s);
    if n > 0 then multiset{NameOf(s[2..n - 3])} else multiset{}
  }

  // FENCE: a line that opens or closes a code block.
  predicate IsFence(line: string) {
    if line != [] && IsSpace(line[0]) then IsFence(line[1..])
    else |line| >= 3 && (line[..3] == "```" || line[..3] == "~~~")
  }

  // ---------- uniqueness ----------

  lemma {:induction false} IdentLenIs(s: string, n: nat)
    requires n < |s| && !IsIdent(s[n]) && forall i :: 0 <= i < n ==> IsIdent(s[i])
    ensures IdentLen(s) == n
  {
    if n > 0 {
      IdentLenIs(s[1..], n - 1);
    }
  }

  lemma SymbolLenIs(s: string, n: nat)
    requires n < |s| && IsSymbol(s[..n]) && s[n] == TICK
    ensures SymbolLen(s) == n
  {
    hide SymbolLen, IsName;
    if IsName(s[..n]) {
      NameLenIs(s, n);
    } else {
      assert s[..n][..n - 2] == s[..n - 2] && s[..n][n - 2..] == s[n - 2..n];
      CallLenIs(s, n);
    }
  }

  lemma NameLenIs(s: string, n: nat)
    requires n < |s| && IsName(s[..n]) && s[n] == TICK
    ensures SymbolLen(s) == n
  {
    hide IdentLen;
    assert forall i :: 0 <= i < n ==> s[i] == s[..n][i];
    IdentLenIs(s, n);
    if n + 2 <= |s| {
      assert s[n..n + 2][0] == TICK;
    }
  }

  lemma CallLenIs(s: string, n: nat)
    requires 2 < n < |s| && s[n - 2..n] == "()" && IsName(s[..n - 2])
    ensures SymbolLen(s) == n
  {
    hide IdentLen;
    var k := n - 2;
    assert s[k] == s[k..n][0];
    assert forall i :: 0 <= i < k ==> s[i] == s[..k][i];
    IdentLenIs(s, k);
  }

  lemma SpanLenIs(s: string, n: nat)
    requires n <= |s| && IsSpan(s[..n]) && (n < |s| ==> s[n] != ']')
    ensures SpanLen(s) == n
  {
    assert s[1..][..n - 2] == s[..n][1..n - 1];
    SymbolLenIs(s[1..], n - 2);
  }

  lemma LinkLenIs(s: string, n: nat)
    requires n <= |s| && IsLink(s[..n])
    ensures LinkLen(s) == n
  {
    assert s[2..][..n - 5] == s[..n][2..n - 3];
    assert s[n - 3..n] == s[..n][n - 3..];
    assert s[n - 3] == s[n - 3..n][0];
    SymbolLenIs(s[2..], n - 5);
  }

  // A symbol has no backtick, bracket or line break in it.
  predicate Inert(t: string) {
    forall i :: 0 <= i < |t| ==> t[i] != TICK && t[i] != '[' && t[i] != ']' && !IsBreak(t[i])
  }

  lemma SymbolInert(t: string)
    requires IsSymbol(t)
    ensures Inert(t)
  {
    if !IsName(t) {
      var k := |t| - 2;
      assert t == t[..k] + t[k..];
      assert forall i :: 0 <= i < k ==> t[i] == t[..k][i];
    }
  }

  // ---------- where a symbol points ----------

  // What the labels and the definitions of the sources say, for one page: the labels of the gclasses, the tools, the
  // documented functions and the page itself, the files that define each function, and the line of the definition.
  datatype Index = Index(gclasses: set<string>, tools: map<string, string>, funcs: set<string>, own: set<string>,
                         paths: map<string, seq<string>>, lines: map<(string, string), nat>, tag: string)

  datatype Kind = Gclass | Tool | Func
  datatype Goal = Goal(kind: Kind, url: string)

  function Dashed(name: string): (r: string)
    ensures |r| == |name|
  {
    if name == [] then []
    else
      [if 'A' <= name[0] <= 'Z' then name[0] - 'A' + 'a' else if name[0] == '_' then '-' else name[0]] + Dashed(name[1..])
  }

  const GH_BLOB := "https://github.com/artgins/yunetas/blob/"

  function GoalOf(ix: Index, name: string): Option<Goal> {
    var target := "gclass-" + Dashed(name);
    if |name| >= 2 && name[..2] == "C_" && target in ix.gclasses && target !in ix.own then Some(Goal(Gclass, "#" + target))
    else if name in ix.tools && ix.tools[name] !in ix.own then Some(Goal(Tool, "#" + ix.tools[name]))
    else if name !in ix.paths || ix.paths[name] == [] then None
    else if name in ix.funcs && name !in ix.own then Some(Goal(Func, "#" + name))
    else if |ix.paths[name]| == 1 && (name, ix.paths[name][0]) in ix.lines then
      var path := ix.paths[name][0];
      Some(Goal(Func, GH_BLOB + ix.tag + "/" + path + "#L" + Decimal(ix.lines[(name, path)])))
    else None
  }

  predicate Plain(t: string) {
    forall i :: 0 <= i < |t| ==> t[i] != TICK && !IsBreak(t[i])
  }

  // No label, file name or tag has a backtick or a line break in it.
  ghost predicate Clean(ix: Index) {
    && Plain(ix.tag)
    && (forall name :: name in ix.tools ==> Plain(ix.tools[name]))
    && (forall name, i :: name in ix.paths && 0 <= i < |ix.paths[name]| ==> Plain(ix.paths[name][i]))
  }

  lemma PlainConcat(a: string, b: string)
    requires Plain(a) && Plain(b)
    ensures Plain(a + b)
  {
  }

  lemma {:induction false} DashedPlain(name: string)
    requires Plain(name)
    ensures Plain(Dashed(name))
  {
    if name != [] {
      DashedPlain(name[1..]);
    }
  }

  lemma NamePlain(name: string)
    requires IsName(name)
    ensures Plain(name)
  {
    hide IsBreak;
    forall i | 0 <= i < |name| ensures name[i] != TICK && !IsBreak(name[i]) {
      IdentPlain(name[i]);
    }
  }

  lemma IdentPlain(c: char)
    requires IsIdent(c)
    ensures c != TICK && !IsBreak(c)
  {
  }

  lemma GoalPlain(ix: Index, name: string)
    requires Clean(ix) && IsName(name)
    ensures GoalOf(ix, name).Some? ==> Plain(GoalOf(ix, name).value.url)
  {
    hide Plain, IsName, IsBreak, Decimal, Dashed;
    var goal := GoalOf(ix, name);
    NamePlain(name);
    DashedPlain(name);
    ConstPlain();
    PlainConcat("gclass-", Dashed(name));
    PlainConcat("#", "gclass-" + Dashed(name));
    PlainConcat("#", name);
    if goal.Some? {
      if goal.value.kind == Tool {
        PlainConcat("#", ix.tools[name]);
      } else if goal.value.kind == Func && goal.value.url != "#" + name {
        var path := ix.paths[name][0];
        DecimalPlain(ix.lines[(name, path)]);
        PlainConcat(GH_BLOB, ix.tag);
        PlainConcat(GH_BLOB + ix.tag, "/");
        PlainConcat(GH_BLOB + ix.tag + "/", path);
        PlainConcat(GH_BLOB + ix.tag + "/" + path, "#L");
        PlainConcat(GH_BLOB + ix.tag + "/" + path + "#L", Decimal(ix.lines[(name, path)]));
      }
    }
  }

  lemma ConstPlain()
    ensures Plain("gclass-") && Plain("#") && Plain("/") && Plain("#L") && Plain(GH_BLOB)
  {
  }

  lemma DecimalPlain(n: nat)
    ensures Plain(Decimal(n))
  {
    var r := Decimal(n);
    assert forall i :: 0 <= i < |r| ==> '0' <= r[i] <= '9';
  }

  // ---------- rewriting a line ----------

  // A line after rewriting: text that stayed, and spans that became links.
  datatype Piece = Copy(text: string) | Wrap(inner: string, goal: Goal)

  function Shown(p: Piece): string {
    match p
    case Copy(text) => text
    case Wrap(inner, goal) => "[`" + inner + "`](" + goal.url + ")"
  }

  function Source(p: Piece): string {
    match p
    case Copy(text) => text
    case Wrap(inner, _) => "`" + inner + "`"
  }

  function ShownAll(ps: seq<Piece>): string { if ps == [] then [] else Shown(ps[0]) + ShownAll(ps[1..]) }

  function SourceAll(ps: seq<Piece>): string { if ps == [] then [] else Source(ps[0]) + SourceAll(ps[1..]) }

  // The names of the symbols that became links.
  function Names(ps: seq<Piece>): seq<string> {
    if ps == [] then []
    else (if ps[0].Wrap? then [NameOf(ps[0].inner)] else []) + Names(ps[1..])
  }

  function Count(ps: seq<Piece>, kind: Kind): nat {
    if ps == [] then 0 else (if ps[0].Wrap? && ps[0].goal.kind == kind then 1 else 0) + Count(ps[1..], kind)
  }

  function SetOf(names: seq<string>): set<string> { set name | name in names }

  // SYMBOL_SPAN.sub on the rest s of a line, of which `bracket` says if the character before it is a bracket.
  function Sub(ix: Index, bracket: bool, s: string, seen: set<string>): (ps: seq<Piece>)
    decreases |s|
  {
    var n := if bracket then 0 else SpanLen(s);
    if s == [] then []
    else if n == 0 then [Copy(s[..1])] + Sub(ix, s[0] == '[', s[1..], seen)
    else
      var inner := s[1..n - 1];
      var name := NameOf(inner);
      var goal := GoalOf(ix, name);
      if name in seen || goal.None? then [Copy(s[..n])] + Sub(ix, false, s[n..], seen)
      else [Wrap(inner, goal.value)] + Sub(ix, false, s[n..], seen + {name})
  }

  // The whole page, line by line; code blocks stay as they are.
  function Page(ix: Index, lines: seq<string>, inFence: bool, seen: set<string>): (pages: seq<seq<Piece>>)
    ensures |pages| == |lines|
  {
    if lines == [] then []
    else if IsFence(lines[0]) then [[Copy(lines[0])]] + Page(ix, lines[1..], !inFence, seen)
    else if inFence then [[Copy(lines[0])]] + Page(ix, lines[1..], inFence, seen)
    else
      var ps := Sub(ix, false, lines[0], seen);
      [ps] + Page(ix, lines[1..], inFence, seen + SetOf(Names(ps)))
  }

  // ---------- one step of the rewriting ----------

  lemma SubPlain(ix: Index, bracket: bool, s: string, seen: set<string>)
    requires s != [] && (bracket || SpanLen(s) == 0)
    ensures Sub(ix, bracket, s, seen) == [Copy(s[..1])] + Sub(ix, s[0] == '[', s[1..], seen)
    ensures s == s[..1] + s[1..]
  {
    hide SpanLen, GoalOf, NameOf, IsSymbol, IsSpan;
  }

  // The span at the start of s is kept if its name was seen before or points nowhere.
  predicate Keeps(ix: Index, s: string, seen: set<string>)
    requires SpanLen(s) > 0
  {
    NameOf(s[1..SpanLen(s) - 1]) in seen || GoalOf(ix, NameOf(s[1..SpanLen(s) - 1])).None?
  }

  lemma SubKept(ix: Index, s: string, n: nat, seen: set<string>)
    requires n == SpanLen(s) > 0 && Keeps(ix, s, seen)
    ensures Sub(ix, false, s, seen) == [Copy(s[..n])] + Sub(ix, false, s[n..], seen)
    ensures s == s[..n] + s[n..]
  {
    hide SpanLen, GoalOf, NameOf, IsSymbol, IsSpan;
  }

  lemma SubWrapped(ix: Index, s: string, n: nat, inner: string, name: string, seen: set<string>)
    requires n == SpanLen(s) > 0 && !Keeps(ix, s, seen) && inner == s[1..n - 1] && name == NameOf(inner)
    ensures GoalOf(ix, name).Some? && name !in seen
    ensures Sub(ix, false, s, seen) == [Wrap(inner, GoalOf(ix, name).value)] + Sub(ix, false, s[n..], seen + {name})
    ensures IsSymbol(inner) && s == "`" + inner + "`" + s[n..]
  {
    hide SpanLen, GoalOf, NameOf, IsSymbol, IsName;
    assert s[..n][1..n - 1] == inner;
    assert s[..n] == "`" + inner + "`";
    assert s == s[..n] + s[n..];
  }

  lemma Cons(p: Piece, ps: seq<Piece>)
    ensures ShownAll([p] + ps) == Shown(p) + ShownAll(ps) && SourceAll([p] + ps) == Source(p) + SourceAll(ps)
    ensures Names([p] + ps) == if p.Wrap? then [NameOf(p.inner)] + Names(ps) else Names(ps)
    ensures FirstWrap([p] + ps) == if p.Wrap? then 0 else |p.text| + FirstWrap(ps)
    ensures NoWrap([p] + ps) <==> p.Copy? && NoWrap(ps)
  {
    var qs := [p] + ps;
    assert qs[1..] == ps;
    assert p.Copy? && NoWrap(ps) ==> NoWrap(qs);
    assert NoWrap(qs) ==> qs[0].Copy? && forall i :: 0 <= i < |ps| ==> ps[i] == qs[i + 1];
  }

  // ---------- erasing the links ----------

  lemma {:induction false} SourceOfSub(ix: Index, bracket: bool, s: string, seen: set<string>)
    ensures SourceAll(Sub(ix, bracket, s, seen)) == s
    decreases |s|
  {
    hide *;
    var n := if bracket then 0 else SpanLen(s);
    if s == [] {
      SourceOfNothing(ix, bracket, seen);
    } else if n == 0 {
      SubPlain(ix, bracket, s, seen);
      SourceOfCopy(s[..1], Sub(ix, s[0] == '[', s[1..], seen));
      SourceOfSub(ix, s[0] == '[', s[1..], seen);
    } else if Keeps(ix, s, seen) {
      SubKept(ix, s, n, seen);
      SourceOfCopy(s[..n], Sub(ix, false, s[n..], seen));
      SourceOfSub(ix, false, s[n..], seen);
    } else {
      var inner := s[1..n - 1];
      var name := NameOf(inner);
      SubWrapped(ix, s, n, inner, name, seen);
      SourceOfWrap(inner, GoalOf(ix, name).value, Sub(ix, false, s[n..], seen + {name}));
      SourceOfSub(ix, false, s[n..], seen + {name});
    }
  }

  lemma SourceOfNothing(ix: Index, bracket: bool, seen: set<string>)
    ensures SourceAll(Sub(ix, bracket, [], seen)) == []
  {
  }

  lemma SourceOfCopy(t: string, ps: seq<Piece>)
    ensures SourceAll([Copy(t)] + ps) == t + SourceAll(ps)
  {
    hide SourceAll;
    Cons(Copy(t), ps);
  }

  lemma SourceOfWrap(inner: string, goal: Goal, ps: seq<Piece>)
    ensures SourceAll([Wrap(inner, goal)] + ps) == "`" + inner + "`" + SourceAll(ps)
  {
    hide SourceAll;
    Cons(Wrap(inner, goal), ps);
  }

  // ---------- where the rewritten line first differs ----------

  function FirstWrap(ps: seq<Piece>): nat {
    if ps == [] || ps[0].Wrap? then 0 else |ps[0].text| + FirstWrap(ps[1..])
  }

  // Up to k the texts agree; there, if not at the end, a span of s that no bracket precedes is a link in t.
  predicate Departs(s: string, t: string, k: nat) {
    && k <= |s| && k <= |t| && s[..k] == t[..k]
    && (if k == |s| then |t| == k
        else k + 1 < |s| && k < |t| && s[k] == TICK && IsIdentStart(s[k + 1]) && t[k] == '[' && (k > 0 ==> s[k - 1] != '['))
  }

  lemma DepartsAfter(a: string, s: string, t: string, k: nat)
    requires Departs(s, t, k) && a != [] && (k == 0 && s != [] ==> a[|a| - 1] != '[')
    ensures Departs(a + s, a + t, |a| + k)
  {
    assert (a + s)[..|a| + k] == a + s[..k];
    assert (a + t)[..|a| + k] == a + t[..k];
  }

  lemma {:induction false} SubDeparts(ix: Index, bracket: bool, s: string, seen: set<string>)
    ensures var ps := Sub(ix, bracket, s, seen);
            && Departs(s, ShownAll(ps), FirstWrap(ps))
            && (FirstWrap(ps) == 0 && s != [] ==> !bracket)
    decreases |s|
  {
    hide *;
    var n := if bracket then 0 else SpanLen(s);
    if s == [] {
      NothingDeparts(ix, bracket, seen);
    } else if n == 0 {
      SubDeparts(ix, s[0] == '[', s[1..], seen);
      SubPlain(ix, bracket, s, seen);
      CopyDeparts(s, 1, Sub(ix, s[0] == '[', s[1..], seen));
    } else if Keeps(ix, s, seen) {
      SubDeparts(ix, false, s[n..], seen);
      SubKept(ix, s, n, seen);
      SpanEnds(s, n);
      CopyDeparts(s, n, Sub(ix, false, s[n..], seen));
    } else {
      var inner := s[1..n - 1];
      SubWrapped(ix, s, n, inner, NameOf(inner), seen);
      WrapDeparts(s, inner, GoalOf(ix, NameOf(inner)).value, s[n..], Sub(ix, false, s[n..], seen + {NameOf(inner)}));
    }
  }

  lemma NothingDeparts(ix: Index, bracket: bool, seen: set<string>)
    ensures var ps := Sub(ix, bracket, [], seen); ps == [] && ShownAll(ps) == [] && Departs([], ShownAll(ps), FirstWrap(ps))
  {
  }

  lemma SpanEnds(s: string, n: nat)
    requires n == SpanLen(s) > 0
    ensures s[n - 1] == TICK != '['
  {
    assert s[..n][n - 1] == TICK;
  }

  lemma CopyDeparts(s: string, n: nat, ps: seq<Piece>)
    requires 0 < n <= |s| && Departs(s[n..], ShownAll(ps), FirstWrap(ps))
    requires FirstWrap(ps) == 0 && n < |s| ==> s[n - 1] != '['
    ensures var qs := [Copy(s[..n])] + ps;
            Departs(s, ShownAll(qs), FirstWrap(qs)) && FirstWrap(qs) > 0
  {
    hide Departs, ShownAll, FirstWrap;
    Cons(Copy(s[..n]), ps);
    DepartsAfter(s[..n], s[n..], ShownAll(ps), FirstWrap(ps));
    assert s == s[..n] + s[n..];
  }

  lemma WrapDeparts(s: string, inner: string, goal: Goal, rest: string, ps: seq<Piece>)
    requires IsSymbol(inner) && s == "`" + inner + "`" + rest
    ensures var qs := [Wrap(inner, goal)] + ps;
            Departs(s, ShownAll(qs), FirstWrap(qs))
  {
    hide IsSymbol;
    SymbolStart(inner);
    assert s[1] == inner[0];
  }

  lemma SymbolStart(t: string)
    requires IsSymbol(t)
    ensures t != [] && IsIdentStart(t[0])
  {
    if !IsName(t) {
      assert t[..|t| - 2][0] == t[0];
    }
  }

  // ---------- the second time nothing matches that did not match before ----------

  lemma SpanInert(t: string)
    requires IsSpan(t)
    ensures forall i :: 0 <= i < |t| ==> t[i] != '[' && t[i] != ']' && !IsBreak(t[i])
    ensures forall i :: 0 < i < |t| - 1 ==> t[i] != TICK
  {
    hide IsBreak;
    SymbolInert(t[1..|t| - 1]);
    TickPlain();
    assert forall i :: 0 < i < |t| - 1 ==> t[i] == t[1..|t| - 1][i - 1];
  }

  lemma TickPlain()
    ensures !IsBreak(TICK) && !IsBreak('[') && !IsBreak(']') && !IsBreak('(') && !IsBreak(')')
  {
  }

  lemma NoNewSpan(s: string, t: string, k: nat)
    requires Departs(s, t, k) && k > 0 && SpanLen(s) == 0
    ensures SpanLen(t) == 0
  {
    hide SpanLen, IsBreak;
    var n := SpanLen(t);
    if n > 0 {
      SpanInert(t[..n]);
      assert forall i :: 0 <= i < n ==> t[i] == t[..n][i];
      assert k >= n;
      assert s[..n] == s[..k][..n] == t[..k][..n] == t[..n];
      assert n < |s| ==> s[n] != ']' by {
        if n < k {
          assert s[n] == s[..k][n] == t[..k][n];
        }
      }
      SpanLenIs(s, n);
    }
  }

  lemma SameSpan(s: string, n: nat, t: string, k: nat)
    requires 0 < n <= |s| && SpanLen(s) == n && Departs(s[n..], t, k)
    ensures SpanLen(s[..n] + t) == n
  {
    hide SpanLen;
    var r := s[..n] + t;
    assert r[..n] == s[..n];
    if t != [] && k > 0 {
      assert t[0] == t[..k][0] == s[n..][..k][0] == s[n];
    }
    SpanLenIs(r, n);
  }

  // ---------- rewriting again changes nothing ----------

  ghost predicate NoWrap(ps: seq<Piece>) { forall i :: 0 <= i < |ps| ==> ps[i].Copy? }

  lemma {:induction false} NoWrapSame(ps: seq<Piece>)
    requires NoWrap(ps)
    ensures ShownAll(ps) == SourceAll(ps) && Names(ps) == []
    ensures forall kind :: Count(ps, kind) == 0
  {
    if ps != [] {
      NoWrapSame(ps[1..]);
    }
  }

  // Text without a backtick is copied.
  lemma {:induction false} CopyRun(ix: Index, bracket: bool, t: string, rest: string, seen: set<string>)
    requires t != [] && forall i :: 0 <= i < |t| ==> t[i] != TICK
    requires NoWrap(Sub(ix, t[|t| - 1] == '[', rest, seen))
    ensures NoWrap(Sub(ix, bracket, t + rest, seen))
    decreases |t|
  {
    hide *;
    if |t| > 1 {
      CopyRun(ix, t[0] == '[', t[1..], rest, seen);
      CopyFirst(ix, bracket, t[0], t[1..] + rest, seen);
      assert [t[0]] + (t[1..] + rest) == t + rest;
    } else {
      CopyFirst(ix, bracket, t[0], rest, seen);
      assert [t[0]] + rest == t + rest;
    }
  }

  // A character before text that has no link to add.
  lemma CopyFirst(ix: Index, bracket: bool, c: char, rest: string, seen: set<string>)
    requires c != TICK || bracket || SpanLen([c] + rest) == 0
    requires NoWrap(Sub(ix, c == '[', rest, seen))
    ensures NoWrap(Sub(ix, bracket, [c] + rest, seen))
  {
    hide NoWrap, Sub;
    var s := [c] + rest;
    assert c != TICK ==> SpanLen(s) == 0;
    SubPlain(ix, bracket, s, seen);
    assert s[1..] == rest;
    Cons(Copy(s[..1]), Sub(ix, c == '[', rest, seen));
  }

  lemma NoSpanHere(rest: string)
    requires rest != [] && !IsIdent(rest[0])
    ensures SpanLen([TICK] + rest) == 0
  {
    var s := [TICK] + rest;
    assert s[1..] == rest;
    assert IdentLen(rest) == 0;
  }

  lemma WrapStays(ix: Index, inner: string, goal: Goal, rest: string, seen: set<string>)
    requires IsSymbol(inner) && Plain(goal.url)
    requires NoWrap(Sub(ix, false, rest, seen))
    ensures NoWrap(Sub(ix, false, Shown(Wrap(inner, goal)) + rest, seen))
  {
    hide NoWrap, Sub, SpanLen, IsSymbol, IsBreak, Plain, Inert;
    var tail := "](" + goal.url + ")";
    TailHasNoTick(goal.url);
    CopyRun(ix, false, tail, rest, seen);
    NoSpanHere(tail + rest);
    CopyFirst(ix, false, TICK, tail + rest, seen);
    InnerHasNoTick(inner);
    CopyRun(ix, false, inner, [TICK] + (tail + rest), seen);
    CopyFirst(ix, true, TICK, inner + ([TICK] + (tail + rest)), seen);
    CopyFirst(ix, false, '[', [TICK] + (inner + ([TICK] + (tail + rest))), seen);
    ShownNests(inner, goal, rest);
  }

  lemma ShownNests(inner: string, goal: Goal, rest: string)
    ensures Shown(Wrap(inner, goal)) + rest == ['['] + ([TICK] + (inner + ([TICK] + ("](" + goal.url + ")" + rest))))
  {
    var a := inner + ([TICK] + ("](" + goal.url + ")" + rest));
    assert ['['] + ([TICK] + a) == "[`" + a;
    var b := "](" + goal.url + ")";
    assert [TICK] + (b + rest) == ([TICK] + b) + rest;
    assert [TICK] + b == "`](" + goal.url + ")";
    assert "[`" + (inner + (([TICK] + b) + rest)) == (("[`" + inner) + ([TICK] + b)) + rest;
    assert ("[`" + inner) + ("`](" + goal.url + ")") == "[`" + inner + "`](" + goal.url + ")";
  }

  lemma TailHasNoTick(url: string)
    requires Plain(url)
    ensures var tail := "](" + url + ")"; tail[|tail| - 1] != '[' && forall i :: 0 <= i < |tail| ==> tail[i] != TICK
  {
    hide IsBreak;
  }

  lemma InnerHasNoTick(inner: string)
    requires IsSymbol(inner)
    ensures inner != [] && inner[|inner| - 1] != '[' && forall i :: 0 <= i < |inner| ==> inner[i] != TICK
  {
    hide IsBreak;
    SymbolInert(inner);
  }

  lemma {:induction false} SubTwice(ix: Index, bracket: bool, s: string, seen: set<string>, seen2: set<string>)
    requires Clean(ix) && seen + SetOf(Names(Sub(ix, bracket, s, seen))) <= seen2
    ensures NoWrap(Sub(ix, bracket, ShownAll(Sub(ix, bracket, s, seen)), seen2))
    decreases |s|
  {
    hide *;
    var n := if bracket then 0 else SpanLen(s);
    if s == [] {
      NothingDeparts(ix, bracket, seen);
      NothingDeparts(ix, bracket, seen2);
      EmptyNoWrap();
    } else if n == 0 {
      var qs := Sub(ix, s[0] == '[', s[1..], seen);
      SubPlain(ix, bracket, s, seen);
      Cons(Copy(s[..1]), qs);
      SubTwice(ix, s[0] == '[', s[1..], seen, seen2);
      PlainTwice(ix, bracket, s, seen, seen2);
    } else if Keeps(ix, s, seen) {
      var qs := Sub(ix, false, s[n..], seen);
      SubKept(ix, s, n, seen);
      Cons(Copy(s[..n]), qs);
      SubTwice(ix, false, s[n..], seen, seen2);
      SubDeparts(ix, false, s[n..], seen);
      KeptTwice(ix, s, n, ShownAll(qs), FirstWrap(qs), seen, seen2);
      IsShownCopy(s[..n]);
    } else {
      var inner := s[1..n - 1];
      var name := NameOf(inner);
      var qs := Sub(ix, false, s[n..], seen + {name});
      SubWrapped(ix, s, n, inner, name, seen);
      var goal := GoalOf(ix, name).value;
      Cons(Wrap(inner, goal), qs);
      MoreNames(seen, name, Names(qs), seen2);
      SubTwice(ix, false, s[n..], seen + {name}, seen2);
      GoalPlain(ix, name);
      WrapStays(ix, inner, goal, ShownAll(qs), seen2);
    }
  }

  lemma EmptyNoWrap()
    ensures NoWrap([])
  {
  }

  lemma IsShownCopy(t: string)
    ensures Shown(Copy(t)) == t
  {
  }

  lemma MoreNames(seen: set<string>, name: string, names: seq<string>, seen2: set<string>)
    requires seen + SetOf([name] + names) <= seen2
    ensures seen + {name} + SetOf(names) <= seen2
  {
    assert ([name] + names)[0] == name;
    assert forall x :: x in names ==> x in [name] + names;
  }

  lemma PlainTwice(ix: Index, bracket: bool, s: string, seen: set<string>, seen2: set<string>)
    requires s != [] && (bracket || SpanLen(s) == 0)
    requires NoWrap(Sub(ix, s[0] == '[', ShownAll(Sub(ix, s[0] == '[', s[1..], seen)), seen2))
    ensures NoWrap(Sub(ix, bracket, ShownAll(Sub(ix, bracket, s, seen)), seen2))
  {
    hide *;
    var qs := Sub(ix, s[0] == '[', s[1..], seen);
    SubPlain(ix, bracket, s, seen);
    Cons(Copy(s[..1]), qs);
    IsShownCopy(s[..1]);
    SubDeparts(ix, bracket, s, seen);
    SubDeparts(ix, s[0] == '[', s[1..], seen);
    assert s[..1] == [s[0]];
    var out := [s[0]] + ShownAll(qs);
    if !bracket {
      NoNewSpan(s, out, FirstWrap(Sub(ix, bracket, s, seen)));
    }
    CopyFirst(ix, bracket, s[0], ShownAll(qs), seen2);
  }

  lemma KeptTwice(ix: Index, s: string, n: nat, t: string, k: nat, seen: set<string>, seen2: set<string>)
    requires n == SpanLen(s) > 0 && Keeps(ix, s, seen) && Departs(s[n..], t, k) && seen <= seen2
    requires NoWrap(Sub(ix, false, t, seen2))
    ensures NoWrap(Sub(ix, false, s[..n] + t, seen2))
  {
    hide SpanLen, Sub, GoalOf, Departs, NoWrap;
    SameSpan(s, n, t, k);
    var out := s[..n] + t;
    assert out[1..n - 1] == s[1..n - 1] && out[n..] == t && out[..n] == s[..n];
    SubKept(ix, out, n, seen2);
    Cons(Copy(out[..n]), Sub(ix, false, t, seen2));
  }

  // ---------- code blocks and line breaks ----------

  /** A line that is no fence does not become one. */
  lemma {:induction false} NoNewFence(s: string, t: string, k: nat)
    requires Departs(s, t, k) && !IsFence(s)
    ensures !IsFence(t)
    decreases |s|
  {
    if s != [] && IsSpace(s[0]) && k > 0 {
      assert s[0] == s[..k][0] == t[..k][0] == t[0];
      assert s[1..][..k - 1] == s[..k][1..] == t[..k][1..] == t[1..][..k - 1];
      NoNewFence(s[1..], t[1..], k - 1);
    } else if |t| >= 3 {
      if k >= 3 {
        assert s[..3] == s[..k][..3] == t[..k][..3] == t[..3];
        assert s[0] == s[..3][0];
      } else {
        assert t[..3][k] == '[' && (k > 0 ==> t[0] == t[..k][0] == s[..k][0]);
        assert !IsSpace('[');
      }
    }
  }

  // A line of a text: a break at most at its end.
  predicate IsLine(l: string) {
    l != [] && forall i :: 0 <= i < |l| - 1 ==> !IsBreak(l[i])
  }

  function LineLen(s: string): (n: nat)
    requires s != []
    ensures 0 < n <= |s| && IsLine(s[..n]) && (n < |s| ==> IsBreak(s[n - 1]))
  {
    if IsBreak(s[0]) || |s| == 1 then 1
    else
      var n := LineLen(s[1..]);
      assert s[..n + 1][1..] == s[1..][..n];
      LineCons(s[..n + 1]);
      n + 1
  }

  lemma LineCons(l: string)
    requires l != [] && !IsBreak(l[0]) && IsLine(l[1..])
    ensures IsLine(l)
  {
    hide IsBreak;
    assert forall i :: 0 < i < |l| ==> l[i] == l[1..][i - 1];
  }

  // str.splitlines, keeping the ends.
  function SplitLines(s: string): (ls: seq<string>)
    decreases |s|
  {
    if s == [] then [] else [s[..LineLen(s)]] + SplitLines(s[LineLen(s)..])
  }

  function Join(ls: seq<string>): string { if ls == [] then [] else ls[0] + Join(ls[1..]) }

  predicate EndsInBreak(l: string) {
    l != [] && IsBreak(l[|l| - 1])
  }

  ghost predicate LinesOk(ls: seq<string>) {
    && (forall i :: 0 <= i < |ls| ==> IsLine(ls[i]))
    && (forall i :: 0 <= i < |ls| - 1 ==> EndsInBreak(ls[i]))
  }

  lemma LinesOkCons(l: string, ls: seq<string>)
    requires IsLine(l) && LinesOk(ls) && (ls != [] ==> EndsInBreak(l))
    ensures LinesOk([l] + ls)
  {
    hide IsLine, EndsInBreak;
  }

  lemma {:induction false} JoinOfSplit(s: string)
    ensures Join(SplitLines(s)) == s && LinesOk(SplitLines(s))
    decreases |s|
  {
    hide IsBreak, IsLine, LineLen, LinesOk;
    if s == [] {
      NoLinesOk();
    } else {
      var n := LineLen(s);
      JoinOfSplit(s[n..]);
      SplitFirst(s, n);
      if n < |s| {
        assert s[..n][n - 1] == s[n - 1];
      }
      LinesOkCons(s[..n], SplitLines(s[n..]));
    }
  }

  lemma NoLinesOk()
    ensures LinesOk([])
  {
  }

  lemma SplitFirst(s: string, n: nat)
    requires s != [] && n == LineLen(s)
    ensures SplitLines(s) == [s[..n]] + SplitLines(s[n..])
    ensures Join([s[..n]] + SplitLines(s[n..])) == s[..n] + Join(SplitLines(s[n..]))
    ensures s == s[..n] + s[n..]
  {
    hide IsBreak, IsLine, LineLen;
  }

  lemma {:induction false} LineLenIs(l: string, rest: string)
    requires IsLine(l) && (rest != [] ==> IsBreak(l[|l| - 1]))
    ensures LineLen(l + rest) == |l|
  {
    var s := l + rest;
    if |l| > 1 {
      assert s[1..] == l[1..] + rest;
      LineLenIs(l[1..], rest);
    }
  }

  lemma {:induction false} SplitOfJoin(ls: seq<string>)
    requires LinesOk(ls)
    ensures SplitLines(Join(ls)) == ls
  {
    hide IsBreak, IsLine;
    if ls != [] {
      var rest := Join(ls[1..]);
      SplitOfJoin(ls[1..]);
      LineNotEmpty(ls[0]);
      if |ls| == 1 {
        assert rest == [];
      }
      LineLenIs(ls[0], rest);
      assert (ls[0] + rest)[..|ls[0]|] == ls[0] && (ls[0] + rest)[|ls[0]|..] == rest;
    }
  }

  lemma LineNotEmpty(l: string)
    requires IsLine(l)
    ensures l != []
  {
  }

  // The end of a line, as far as line breaks go.
  ghost predicate EndsAlike(s: string, t: string) {
    IsLine(s) && IsLine(t) && (IsBreak(s[|s| - 1]) <==> IsBreak(t[|t| - 1]))
  }

  lemma PrefixAlike(a: string, b: string, s: string, t: string)
    requires EndsAlike(s, t) && forall i :: 0 <= i < |b| ==> !IsBreak(b[i])
    requires IsLine(a + s)
    ensures EndsAlike(a + s, b + t)
  {
    hide IsBreak;
    assert (a + s)[|a + s| - 1] == s[|s| - 1];
    assert (b + t)[|b + t| - 1] == t[|t| - 1];
  }

  lemma ShownUnbroken(inner: string, goal: Goal)
    requires IsSymbol(inner) && Plain(goal.url)
    ensures var t := Shown(Wrap(inner, goal)); t != [] && forall i :: 0 <= i < |t| ==> !IsBreak(t[i])
  {
    hide IsSymbol;
    SymbolInert(inner);
  }

  lemma LineRest(s: string, n: nat)
    requires IsLine(s) && n < |s|
    ensures IsLine(s[n..]) && forall i :: 0 <= i < n ==> !IsBreak(s[..n][i])
  {
    hide IsBreak;
  }

  lemma {:induction false} SubEndsAlike(ix: Index, bracket: bool, s: string, seen: set<string>)
    requires Clean(ix) && IsLine(s)
    ensures EndsAlike(s, ShownAll(Sub(ix, bracket, s, seen)))
    decreases |s|
  {
    hide *;
    LineNotEmpty(s);
    var n := if bracket then 0 else SpanLen(s);
    if n == 0 {
      var qs := Sub(ix, s[0] == '[', s[1..], seen);
      SubPlain(ix, bracket, s, seen);
      Cons(Copy(s[..1]), qs);
      IsShownCopy(s[..1]);
      if |s| > 1 {
        LineRest(s, 1);
        SubEndsAlike(ix, s[0] == '[', s[1..], seen);
      }
      CopyAlike(ix, s, 1, s[0] == '[', seen);
    } else if Keeps(ix, s, seen) {
      SubKept(ix, s, n, seen);
      Cons(Copy(s[..n]), Sub(ix, false, s[n..], seen));
      IsShownCopy(s[..n]);
      if n < |s| {
        LineRest(s, n);
        SubEndsAlike(ix, false, s[n..], seen);
      }
      CopyAlike(ix, s, n, false, seen);
    } else {
      var inner := s[1..n - 1];
      var name := NameOf(inner);
      SubWrapped(ix, s, n, inner, name, seen);
      var goal := GoalOf(ix, name).value;
      Cons(Wrap(inner, goal), Sub(ix, false, s[n..], seen + {name}));
      GoalPlain(ix, name);
      ShownUnbroken(inner, goal);
      if n < |s| {
        LineRest(s, n);
        SubEndsAlike(ix, false, s[n..], seen + {name});
        assert s == s[..n] + s[n..];
        PrefixAlike(s[..n], Shown(Wrap(inner, goal)), s[n..], ShownAll(Sub(ix, false, s[n..], seen + {name})));
      } else {
        NothingDeparts(ix, false, seen + {name});
        LastWrapAlike(s, Shown(Wrap(inner, goal)));
      }
    }
  }

  lemma CopyAlike(ix: Index, s: string, n: nat, bracket: bool, seen: set<string>)
    requires IsLine(s) && 0 < n <= |s|
    requires n < |s| ==> EndsAlike(s[n..], ShownAll(Sub(ix, bracket, s[n..], seen)))
    ensures EndsAlike(s, s[..n] + ShownAll(Sub(ix, bracket, s[n..], seen)))
  {
    hide Sub, ShownAll, IsBreak;
    if n < |s| {
      LineRest(s, n);
      assert s == s[..n] + s[n..];
      PrefixAlike(s[..n], s[..n], s[n..], ShownAll(Sub(ix, bracket, s[n..], seen)));
    } else {
      NothingDeparts(ix, bracket, seen);
      assert s[..n] + [] == s;
    }
  }

  lemma LastWrapAlike(s: string, t: string)
    requires IsLine(s) && SpanLen(s) == |s| && t != [] && forall i :: 0 <= i < |t| ==> !IsBreak(t[i])
    ensures EndsAlike(s, t + [])
  {
    hide SpanLen, IsBreak;
    TickPlain();
    SpanEnds(s, |s|);
    assert t + [] == t;
  }

  // ---------- which symbols a line comes to link ----------

  // The symbols named by the spans that the rewriting looks at.
  function Mentioned(bracket: bool, s: string): set<string>
    decreases |s|
  {
    var n := if bracket then 0 else SpanLen(s);
    if s == [] then {}
    else if n == 0 then Mentioned(s[0] == '[', s[1..])
    else {NameOf(s[1..n - 1])} + Mentioned(false, s[n..])
  }

  predicate Apart(names: seq<string>, seen: set<string>) {
    && (forall i :: 0 <= i < |names| ==> names[i] !in seen)
    && (forall i, j :: 0 <= i < j < |names| ==> names[i] != names[j])
  }

  // The names are those mentioned that point somewhere and were not seen before.
  ghost predicate AreNew(ix: Index, names: seq<string>, mentioned: set<string>, seen: set<string>) {
    forall name :: name in names <==> name in mentioned && name !in seen && GoalOf(ix, name).Some?
  }

  lemma NewCons(ix: Index, name: string, names: seq<string>, mentioned: set<string>, seen: set<string>)
    requires AreNew(ix, names, mentioned, seen + {name}) && Apart(names, seen + {name})
    requires GoalOf(ix, name).Some? && name !in seen
    ensures AreNew(ix, [name] + names, {name} + mentioned, seen) && Apart([name] + names, seen)
  {
    hide GoalOf;
  }

  lemma {:induction false} SubNames(ix: Index, bracket: bool, s: string, seen: set<string>)
    ensures var names := Names(Sub(ix, bracket, s, seen));
            AreNew(ix, names, Mentioned(bracket, s), seen) && Apart(names, seen)
    decreases |s|
  {
    hide SpanLen, GoalOf, NameOf, IsSymbol, IsSpan, AreNew, Apart, Sub, Names, Keeps;
    var n := if bracket then 0 else SpanLen(s);
    if s == [] {
      NothingDeparts(ix, bracket, seen);
      NoNames(ix, seen);
    } else if n == 0 {
      SubPlain(ix, bracket, s, seen);
      Cons(Copy(s[..1]), Sub(ix, s[0] == '[', s[1..], seen));
      SubNames(ix, s[0] == '[', s[1..], seen);
    } else if Keeps(ix, s, seen) {
      SubKept(ix, s, n, seen);
      Cons(Copy(s[..n]), Sub(ix, false, s[n..], seen));
      SubNames(ix, false, s[n..], seen);
      KeptNotNew(ix, s, n, Names(Sub(ix, false, s[n..], seen)), Mentioned(false, s[n..]), seen);
    } else {
      var inner := s[1..n - 1];
      var name := NameOf(inner);
      SubWrapped(ix, s, n, inner, name, seen);
      Cons(Wrap(inner, GoalOf(ix, name).value), Sub(ix, false, s[n..], seen + {name}));
      SubNames(ix, false, s[n..], seen + {name});
      NewCons(ix, name, Names(Sub(ix, false, s[n..], seen + {name})), Mentioned(false, s[n..]), seen);
    }
  }

  lemma NoNames(ix: Index, seen: set<string>)
    ensures Names([]) == [] && AreNew(ix, [], {}, seen) && Apart([], seen)
  {
  }

  lemma KeptNotNew(ix: Index, s: string, n: nat, names: seq<string>, mentioned: set<string>, seen: set<string>)
    requires n == SpanLen(s) > 0 && Keeps(ix, s, seen) && AreNew(ix, names, mentioned, seen)
    ensures AreNew(ix, names, {NameOf(s[1..n - 1])} + mentioned, seen)
  {
    hide SpanLen, GoalOf, NameOf, IsSymbol, IsSpan;
  }

  // ---------- how often each symbol is linked ----------

  // Text in which no link starts.
  predicate Linkless(t: string) {
    forall i :: 0 <= i < |t| && t[i] == '[' ==> i + 1 < |t| && t[i + 1] != TICK
  }

  lemma {:induction false} LinklessRun(t: string, rest: string)
    requires Linkless(t)
    ensures LinkedNames(t + rest) == LinkedNames(rest)
  {
    var s := t + rest;
    if t == [] {
      assert s == rest;
    } else {
      assert s[1..] == t[1..] + rest;
      assert forall i :: 0 <= i < |t| - 1 ==> t[1..][i] == t[i + 1];
      LinklessRun(t[1..], rest);
    }
  }

  lemma LinkFirst(s: string)
    requires s != []
    ensures LinkedNames(s) == LinkedHere(s) + LinkedNames(s[1..])
  {
    hide LinkedHere;
  }

  lemma LinkInert(t: string)
    requires IsLink(t)
    ensures forall i :: 0 < i < |t| ==> t[i] != '['
    ensures forall i :: 0 <= i < |t| ==> !IsBreak(t[i])
    ensures forall i :: 1 < i < |t| - 3 ==> t[i] != TICK
    ensures t[|t| - 3] == TICK && t[|t| - 2] == ']' && t[|t| - 1] == '('
  {
    hide IsBreak, IsSymbol;
    SymbolInert(t[2..|t| - 3]);
    TickPlain();
    assert forall i :: 1 < i < |t| - 3 ==> t[i] == t[2..|t| - 3][i - 2];
    assert forall i :: |t| - 3 <= i < |t| ==> t[i] == t[|t| - 3..][i - (|t| - 3)];
  }

  // Rewriting after a bracket makes no link of it, and breaks none.
  lemma SameLink(s: string, t: string, k: nat)
    requires Departs(s, t, k) && s != [] && t != [] && k > 1
    ensures LinkLen(s) == LinkLen(t)
    ensures s[..LinkLen(s)] == t[..LinkLen(s)]
  {
    hide LinkLen, IsBreak, IsLink;
    if LinkLen(s) > 0 {
      var n := LinkLen(s);
      LinkInert(s[..n]);
      assert forall i :: 0 <= i < n ==> s[i] == s[..n][i];
      assert k >= n;
      assert s[..n] == s[..k][..n] == t[..k][..n] == t[..n];
      LinkLenIs(t, n);
    } else if LinkLen(t) > 0 {
      var n := LinkLen(t);
      LinkInert(t[..n]);
      assert forall i :: 0 <= i < n ==> t[i] == t[..n][i];
      assert k >= n;
      assert s[..n] == s[..k][..n] == t[..k][..n] == t[..n];
      LinkLenIs(s, n);
    }
  }

  lemma CopyLinks(ix: Index, bracket: bool, s: string, seen: set<string>)
    requires s != [] && (bracket || SpanLen(s) == 0)
    requires var qs := Sub(ix, s[0] == '[', s[1..], seen);
             LinkedNames(ShownAll(qs)) == LinkedNames(s[1..]) + multiset(Names(qs))
    ensures var ps := Sub(ix, bracket, s, seen);
            LinkedNames(ShownAll(ps)) == LinkedNames(s) + multiset(Names(ps))
  {
    hide *;
    IsShownCopy(s[..1]);
    var qs := Sub(ix, s[0] == '[', s[1..], seen);
    var out := s[..1] + ShownAll(qs);
    SubPlain(ix, bracket, s, seen);
    Cons(Copy(s[..1]), qs);
    LinkFirst(s);
    LinkFirst(out);
    assert out[1..] == ShownAll(qs);
    HeadLinks(ix, bracket, s, seen);
    SameHere(s, out);
  }

  lemma SameHere(s: string, t: string)
    requires LinkLen(s) == LinkLen(t) && s[..LinkLen(s)] == t[..LinkLen(s)]
    ensures LinkedHere(s) == LinkedHere(t)
  {
    hide LinkLen, NameOf, IsLink;
    var n := LinkLen(s);
    assert n > 0 ==> s[2..n - 3] == s[..n][2..n - 3] == t[..n][2..n - 3] == t[2..n - 3];
  }

  lemma HeadLinks(ix: Index, bracket: bool, s: string, seen: set<string>)
    requires s != [] && (bracket || SpanLen(s) == 0)
    ensures var out := s[..1] + ShownAll(Sub(ix, s[0] == '[', s[1..], seen));
            LinkLen(s) == LinkLen(out) && s[..LinkLen(s)] == out[..LinkLen(s)]
  {
    hide SpanLen, GoalOf, NameOf, Sub, ShownAll, Names, Departs, FirstWrap, SymbolLen, IsLink;
    var qs := Sub(ix, s[0] == '[', s[1..], seen);
    var out := s[..1] + ShownAll(qs);
    if s[0] == '[' {
      SubDeparts(ix, true, s[1..], seen);
      if |s| == 1 {
        NothingDeparts(ix, true, seen);
      } else {
        DepartsAfter(s[..1], s[1..], ShownAll(qs), FirstWrap(qs));
        assert s == s[..1] + s[1..];
        SameLink(s, out, 1 + FirstWrap(qs));
      }
    }
  }

  lemma SpanLinkless(s: string, n: nat)
    requires n == SpanLen(s) > 0
    ensures Linkless(s[..n])
  {
    hide IsBreak;
    SpanInert(s[..n]);
  }

  lemma KeptLinks(s: string, n: nat, t: string, names: multiset<string>)
    requires n == SpanLen(s) > 0 && LinkedNames(t) == LinkedNames(s[n..]) + names
    ensures LinkedNames(s[..n] + t) == LinkedNames(s) + names
  {
    hide SpanLen, LinkedNames, Linkless;
    SpanLinkless(s, n);
    LinklessRun(s[..n], t);
    LinklessRun(s[..n], s[n..]);
    assert s == s[..n] + s[n..];
  }

  lemma WrapIsLink(inner: string, goal: Goal, rest: string)
    requires IsSymbol(inner) && Plain(goal.url)
    ensures LinkedNames(Shown(Wrap(inner, goal)) + rest) == multiset{NameOf(inner)} + LinkedNames(rest)
  {
    hide LinkedNames, Plain, NameOf, LinkLen;
    var t := Shown(Wrap(inner, goal));
    var s := t + rest;
    var n := |inner| + 5;
    assert s[..n] == "[`" + inner + "`](";
    LinkOf(inner);
    LinkLenIs(s, n);
    assert s[2..n - 3] == inner;
    LinkFirst(s);
    WrapTailLinkless(inner, goal.url);
    var tail := "`" + inner + "`](" + goal.url + ")";
    assert s[1..] == tail + rest;
    LinklessRun(tail, rest);
  }

  lemma LinkOf(inner: string)
    requires IsSymbol(inner)
    ensures IsLink("[`" + inner + "`](")
  {
    hide IsSymbol;
    var t := "[`" + inner + "`](";
    SymbolStart(inner);
    assert t[2..|t| - 3] == inner;
    assert t[|t| - 3..] == "`](";
  }

  lemma WrapTailLinkless(inner: string, url: string)
    requires IsSymbol(inner) && Plain(url)
    ensures Linkless("`" + inner + "`](" + url + ")")
  {
    hide IsSymbol, IsBreak;
    SymbolInert(inner);
  }

  lemma WrappedLinks(s: string, n: nat, inner: string, goal: Goal, t: string, names: seq<string>)
    requires n == SpanLen(s) > 0 && IsSymbol(inner) && Plain(goal.url) && s == "`" + inner + "`" + s[n..]
    requires LinkedNames(t) == LinkedNames(s[n..]) + multiset(names)
    ensures LinkedNames(Shown(Wrap(inner, goal)) + t) == LinkedNames(s) + multiset([NameOf(inner)] + names)
  {
    hide SpanLen, LinkedNames, Linkless, IsSymbol, Plain, NameOf, Shown;
    WrapIsLink(inner, goal, t);
    SpanLinkless(s, n);
    LinklessRun(s[..n], s[n..]);
    assert s == s[..n] + s[n..];
  }

  /** The links of the rewritten line are those of the line and the new ones. */
  lemma {:induction false} SubLinks(ix: Index, bracket: bool, s: string, seen: set<string>)
    requires Clean(ix)
    ensures var ps := Sub(ix, bracket, s, seen);
            LinkedNames(ShownAll(ps)) == LinkedNames(s) + multiset(Names(ps))
    decreases |s|
  {
    hide *;
    var n := if bracket then 0 else SpanLen(s);
    if s == [] {
      NothingDeparts(ix, bracket, seen);
      NoLinks();
    } else if n == 0 {
      SubLinks(ix, s[0] == '[', s[1..], seen);
      CopyLinks(ix, bracket, s, seen);
    } else if Keeps(ix, s, seen) {
      var qs := Sub(ix, false, s[n..], seen);
      SubKept(ix, s, n, seen);
      Cons(Copy(s[..n]), qs);
      IsShownCopy(s[..n]);
      SubLinks(ix, false, s[n..], seen);
      KeptLinks(s, n, ShownAll(qs), multiset(Names(qs)));
    } else {
      var inner := s[1..n - 1];
      var name := NameOf(inner);
      var qs := Sub(ix, false, s[n..], seen + {name});
      SubWrapped(ix, s, n, inner, name, seen);
      var goal := GoalOf(ix, name).value;
      Cons(Wrap(inner, goal), qs);
      SubLinks(ix, false, s[n..], seen + {name});
      GoalPlain(ix, name);
      WrappedLinks(s, n, inner, goal, ShownAll(qs), Names(qs));
    }
  }

  lemma NoLinks()
    ensures LinkedNames([]) == multiset{} && Names([]) == []
  {
  }

  // ---------- the page ----------

  function Texts(page: seq<seq<Piece>>): (ls: seq<string>)
    ensures |ls| == |page|
  {
    if page == [] then [] else [ShownAll(page[0])] + Texts(page[1..])
  }

  function Sources(page: seq<seq<Piece>>): (ls: seq<string>)
    ensures |ls| == |page|
  {
    if page == [] then [] else [SourceAll(page[0])] + Sources(page[1..])
  }

  function PageNames(page: seq<seq<Piece>>): seq<string> {
    if page == [] then [] else Names(page[0]) + PageNames(page[1..])
  }

  function PageCount(page: seq<seq<Piece>>, kind: Kind): nat {
    if page == [] then 0 else Count(page[0], kind) + PageCount(page[1..], kind)
  }

  // The symbols mentioned outside the code blocks.
  function PageMentioned(lines: seq<string>, inFence: bool): set<string> {
    if lines == [] then {}
    else if IsFence(lines[0]) then PageMentioned(lines[1..], !inFence)
    else if inFence then PageMentioned(lines[1..], inFence)
    else Mentioned(false, lines[0]) + PageMentioned(lines[1..], inFence)
  }

  ghost predicate NoLink(page: seq<seq<Piece>>) { forall i :: 0 <= i < |page| ==> NoWrap(page[i]) }

  lemma PageSkips(ix: Index, lines: seq<string>, inFence: bool, seen: set<string>)
    requires lines != [] && (IsFence(lines[0]) || inFence)
    ensures Page(ix, lines, inFence, seen)
            == [[Copy(lines[0])]] + Page(ix, lines[1..], if IsFence(lines[0]) then !inFence else inFence, seen)
    ensures PageMentioned(lines, inFence) == PageMentioned(lines[1..], if IsFence(lines[0]) then !inFence else inFence)
  {
    hide IsFence;
  }

  lemma PageSubs(ix: Index, lines: seq<string>, seen: set<string>)
    requires lines != [] && !IsFence(lines[0])
    ensures var ps := Sub(ix, false, lines[0], seen);
            Page(ix, lines, false, seen) == [ps] + Page(ix, lines[1..], false, seen + SetOf(Names(ps)))
    ensures PageMentioned(lines, false) == Mentioned(false, lines[0]) + PageMentioned(lines[1..], false)
  {
    hide IsFence, Sub, SetOf, Mentioned;
  }

  lemma PageCons(ps: seq<Piece>, page: seq<seq<Piece>>)
    ensures Texts([ps] + page) == [ShownAll(ps)] + Texts(page)
    ensures Sources([ps] + page) == [SourceAll(ps)] + Sources(page)
    ensures PageNames([ps] + page) == Names(ps) + PageNames(page)
    ensures NoLink([ps] + page) <==> NoWrap(ps) && NoLink(page)
  {
    hide NoWrap, ShownAll, SourceAll, Names;
    var qs := [ps] + page;
    assert qs[1..] == page;
    assert NoWrap(ps) && NoLink(page) ==> NoLink(qs);
    assert NoLink(qs) ==> NoWrap(qs[0]) && forall i :: 0 <= i < |page| ==> page[i] == qs[i + 1];
  }

  lemma CopyIs(l: string)
    ensures ShownAll([Copy(l)]) == l && SourceAll([Copy(l)]) == l && Names([Copy(l)]) == [] && NoWrap([Copy(l)])
  {
    assert l + [] == l;
  }

  /** Taking the added links away again gives back the page. */
  lemma {:induction false} SourceOfPage(ix: Index, lines: seq<string>, inFence: bool, seen: set<string>)
    ensures Sources(Page(ix, lines, inFence, seen)) == lines
  {
    hide *;
    if lines == [] {
      NoPage(ix, inFence, seen);
    } else if IsFence(lines[0]) || inFence {
      var f := if IsFence(lines[0]) then !inFence else inFence;
      PageSkips(ix, lines, inFence, seen);
      PageCons([Copy(lines[0])], Page(ix, lines[1..], f, seen));
      CopyIs(lines[0]);
      SourceOfPage(ix, lines[1..], f, seen);
      HeadTail(lines);
    } else {
      var ps := Sub(ix, false, lines[0], seen);
      PageSubs(ix, lines, seen);
      PageCons(ps, Page(ix, lines[1..], false, seen + SetOf(Names(ps))));
      SourceOfSub(ix, false, lines[0], seen);
      SourceOfPage(ix, lines[1..], false, seen + SetOf(Names(ps)));
      HeadTail(lines);
    }
  }

  lemma HeadTail(lines: seq<string>)
    requires lines != []
    ensures [lines[0]] + lines[1..] == lines
  {
  }

  lemma NoPage(ix: Index, inFence: bool, seen: set<string>)
    ensures var page := Page(ix, [], inFence, seen);
            && page == [] && Sources(page) == [] && Texts(page) == [] && PageNames(page) == [] && NoLink(page)
    ensures PageMentioned([], inFence) == {}
  {
  }

  // ---------- the page, a second time ----------

  lemma SetOfConcat(a: seq<string>, b: seq<string>)
    ensures SetOf(a + b) == SetOf(a) + SetOf(b)
  {
    assert forall x :: x in a + b <==> x in a || x in b;
  }

  lemma {:induction false} PageTwice(ix: Index, lines: seq<string>, inFence: bool, seen: set<string>, seen2: set<string>)
    requires Clean(ix) && seen + SetOf(PageNames(Page(ix, lines, inFence, seen))) <= seen2
    ensures NoLink(Page(ix, Texts(Page(ix, lines, inFence, seen)), inFence, seen2))
  {
    hide *;
    if lines == [] {
      NoPage(ix, inFence, seen);
      NoPage(ix, inFence, seen2);
    } else if IsFence(lines[0]) || inFence {
      var f := if IsFence(lines[0]) then !inFence else inFence;
      var rest := Page(ix, lines[1..], f, seen);
      PageSkips(ix, lines, inFence, seen);
      PageCons([Copy(lines[0])], rest);
      CopyIs(lines[0]);
      NoNames2(PageNames(rest));
      PageTwice(ix, lines[1..], f, seen, seen2);
      SkipTwice(ix, lines[0], Texts(rest), inFence, seen2);
    } else {
      var ps := Sub(ix, false, lines[0], seen);
      var seen1 := seen + SetOf(Names(ps));
      var rest := Page(ix, lines[1..], false, seen1);
      PageSubs(ix, lines, seen);
      PageCons(ps, rest);
      SetOfConcat(Names(ps), PageNames(rest));
      PageTwice(ix, lines[1..], false, seen1, seen2);
      SubsTwice(ix, lines[0], Texts(rest), seen, seen2);
    }
  }

  lemma NoNames2(names: seq<string>)
    ensures [] + names == names
  {
  }

  lemma SkipTwice(ix: Index, l: string, texts: seq<string>, inFence: bool, seen2: set<string>)
    requires IsFence(l) || inFence
    requires NoLink(Page(ix, texts, if IsFence(l) then !inFence else inFence, seen2))
    ensures NoLink(Page(ix, [l] + texts, inFence, seen2))
  {
    hide *;
    var f := if IsFence(l) then !inFence else inFence;
    assert ([l] + texts)[1..] == texts;
    PageSkips(ix, [l] + texts, inFence, seen2);
    PageCons([Copy(l)], Page(ix, texts, f, seen2));
    CopyIs(l);
  }

  lemma SubsTwice(ix: Index, l: string, texts: seq<string>, seen: set<string>, seen2: set<string>)
    requires Clean(ix) && !IsFence(l) && seen + SetOf(Names(Sub(ix, false, l, seen))) <= seen2
    requires NoLink(Page(ix, texts, false, seen2))
    ensures NoLink(Page(ix, [ShownAll(Sub(ix, false, l, seen))] + texts, false, seen2))
  {
    hide *;
    var ps := Sub(ix, false, l, seen);
    var l2 := ShownAll(ps);
    SubDeparts(ix, false, l, seen);
    NoNewFence(l, l2, FirstWrap(ps));
    SubTwice(ix, false, l, seen, seen2);
    var qs := Sub(ix, false, l2, seen2);
    NoNames3(qs);
    assert ([l2] + texts)[1..] == texts;
    PageSubs(ix, [l2] + texts, seen2);
    PlusNothing(seen2);
    PageCons(qs, Page(ix, texts, false, seen2));
  }

  lemma NoNames3(qs: seq<Piece>)
    requires NoWrap(qs)
    ensures Names(qs) == []
  {
    NoWrapSame(qs);
  }

  lemma PlusNothing(seen: set<string>)
    ensures seen + SetOf([]) == seen
  {
  }

  lemma {:induction false} NoLinkSame(page: seq<seq<Piece>>)
    requires NoLink(page)
    ensures Texts(page) == Sources(page) && PageNames(page) == []
    ensures forall kind :: PageCount(page, kind) == 0
  {
    hide NoWrap;
    if page != [] {
      NoWrapSame(page[0]);
      NoLinkSame(page[1..]);
    }
  }

  // ---------- the page's lines, links and names ----------

  lemma {:induction false} PageLines(ix: Index, lines: seq<string>, inFence: bool, seen: set<string>)
    requires Clean(ix) && LinesOk(lines)
    ensures LinesOk(Texts(Page(ix, lines, inFence, seen)))
  {
    hide *;
    if lines == [] {
      NoPage(ix, inFence, seen);
    } else if IsFence(lines[0]) || inFence {
      var f := if IsFence(lines[0]) then !inFence else inFence;
      PageSkips(ix, lines, inFence, seen);
      PageCons([Copy(lines[0])], Page(ix, lines[1..], f, seen));
      CopyIs(lines[0]);
      LinesOkTail(lines);
      PageLines(ix, lines[1..], f, seen);
      LinesOkCons(lines[0], Texts(Page(ix, lines[1..], f, seen)));
    } else {
      var ps := Sub(ix, false, lines[0], seen);
      var rest := Page(ix, lines[1..], false, seen + SetOf(Names(ps)));
      PageSubs(ix, lines, seen);
      PageCons(ps, rest);
      LinesOkTail(lines);
      PageLines(ix, lines[1..], false, seen + SetOf(Names(ps)));
      SubEndsAlike(ix, false, lines[0], seen);
      Alike(lines[0], ShownAll(ps));
      LinesOkCons(ShownAll(ps), Texts(rest));
    }
  }

  lemma LinesOkTail(lines: seq<string>)
    requires LinesOk(lines) && lines != []
    ensures LinesOk(lines[1..]) && IsLine(lines[0]) && (lines[1..] != [] ==> EndsInBreak(lines[0]))
  {
    hide IsLine, EndsInBreak;
  }

  lemma Alike(s: string, t: string)
    requires EndsAlike(s, t)
    ensures IsLine(t) && (EndsInBreak(s) ==> EndsInBreak(t))
  {
    hide IsBreak;
  }

  // No link reaches over the end of a line.
  lemma {:induction false} LinksOfLine(l: string, rest: string)
    requires rest != [] ==> EndsInBreak(l)
    ensures LinkedNames(l + rest) == LinkedNames(l) + LinkedNames(rest)
  {
    hide LinkLen, NameOf, IsBreak;
    if l == [] {
      assert l + rest == rest;
    } else if rest == [] {
      assert l + rest == l;
    } else {
      assert (l + rest)[1..] == l[1..] + rest;
      if |l| > 1 {
        assert l[1..][|l| - 2] == l[|l| - 1];
      } 
      LinkInLine(l, rest);
      if |l| > 1 {
        LinksOfLine(l[1..], rest);
      } else {
        assert l[1..] + rest == rest;
      }
      LinkFirst(l + rest);
      LinkFirst(l);
    }
  }

  lemma LinkInLine(l: string, rest: string)
    requires EndsInBreak(l)
    ensures var n := LinkLen(l); LinkLen(l + rest) == n && (n > 0 ==> (l + rest)[2..n - 3] == l[2..n - 3])
  {
    hide LinkLen, IsBreak, IsLink;
    if LinkLen(l) > 0 {
      assert (l + rest)[..LinkLen(l)] == l[..LinkLen(l)];
      LinkLenIs(l + rest, LinkLen(l));
    } else if LinkLen(l + rest) > 0 {
      var n := LinkLen(l + rest);
      LinkInert((l + rest)[..n]);
      assert forall i :: 0 <= i < n ==> (l + rest)[i] == (l + rest)[..n][i];
      assert (l + rest)[|l| - 1] == l[|l| - 1];
      assert (l + rest)[..n] == l[..n];
      LinkLenIs(l, n);
    }
  }

  lemma {:induction false} PageLinks(ix: Index, lines: seq<string>, inFence: bool, seen: set<string>)
    requires Clean(ix) && LinesOk(lines)
    ensures var page := Page(ix, lines, inFence, seen);
            LinkedNames(Join(Texts(page))) == LinkedNames(Join(lines)) + multiset(PageNames(page))
  {
    hide *;
    if lines == [] {
      NoPage(ix, inFence, seen);
      NoLinksAtAll();
    } else if IsFence(lines[0]) || inFence {
      var f := if IsFence(lines[0]) then !inFence else inFence;
      var rest := Page(ix, lines[1..], f, seen);
      PageSkips(ix, lines, inFence, seen);
      PageCons([Copy(lines[0])], rest);
      CopyIs(lines[0]);
      NoNames2(PageNames(rest));
      LinesOkTail(lines);
      PageLinks(ix, lines[1..], f, seen);
      PageLines(ix, lines[1..], f, seen);
      JoinLinks(lines, lines[0], Texts(rest), [], PageNames(rest));
    } else {
      var ps := Sub(ix, false, lines[0], seen);
      var rest := Page(ix, lines[1..], false, seen + SetOf(Names(ps)));
      PageSubs(ix, lines, seen);
      PageCons(ps, rest);
      LinesOkTail(lines);
      PageLinks(ix, lines[1..], false, seen + SetOf(Names(ps)));
      SubLinks(ix, false, lines[0], seen);
      SubEndsAlike(ix, false, lines[0], seen);
      Alike(lines[0], ShownAll(ps));
      JoinLinks(lines, ShownAll(ps), Texts(rest), Names(ps), PageNames(rest));
    }
  }

  lemma NoLinksAtAll()
    ensures Join([]) == [] && LinkedNames([]) == multiset{} && PageNames([]) == []
  {
  }

  lemma JoinLinks(lines: seq<string>, l: string, rest: seq<string>, names: seq<string>, more: seq<string>)
    requires lines != [] && LinesOk(lines) && |rest| == |lines| - 1
    requires EndsInBreak(lines[0]) ==> EndsInBreak(l)
    requires LinkedNames(l) == LinkedNames(lines[0]) + multiset(names)
    requires LinkedNames(Join(rest)) == LinkedNames(Join(lines[1..])) + multiset(more)
    ensures LinkedNames(Join([l] + rest)) == LinkedNames(Join(lines)) + multiset(names + more)
  {
    hide LinkedNames, IsLine, EndsInBreak;
    LinesOkTail(lines);
    assert ([l] + rest)[1..] == rest;
    if rest == [] {
      assert Join(rest) == [] && Join(lines[1..]) == [];
    }
    LinksOfLine(l, Join(rest));
    LinksOfLine(lines[0], Join(lines[1..]));
  }

  lemma {:induction false} PageNew(ix: Index, lines: seq<string>, inFence: bool, seen: set<string>)
    ensures var names := PageNames(Page(ix, lines, inFence, seen));
            AreNew(ix, names, PageMentioned(lines, inFence), seen) && Apart(names, seen)
  {
    hide *;
    if lines == [] {
      NoPage(ix, inFence, seen);
      NoNames(ix, seen);
    } else if IsFence(lines[0]) || inFence {
      var f := if IsFence(lines[0]) then !inFence else inFence;
      var rest := Page(ix, lines[1..], f, seen);
      PageSkips(ix, lines, inFence, seen);
      PageCons([Copy(lines[0])], rest);
      CopyIs(lines[0]);
      NoNames2(PageNames(rest));
      PageNew(ix, lines[1..], f, seen);
    } else {
      var ps := Sub(ix, false, lines[0], seen);
      var seen1 := seen + SetOf(Names(ps));
      var rest := Page(ix, lines[1..], false, seen1);
      PageSubs(ix, lines, seen);
      PageCons(ps, rest);
      SubNames(ix, false, lines[0], seen);
      PageNew(ix, lines[1..], false, seen1);
      NewConcat(ix, Names(ps), PageNames(rest), Mentioned(false, lines[0]), PageMentioned(lines[1..], false), seen);
    }
  }

  lemma NewConcat(ix: Index, a: seq<string>, b: seq<string>, m: set<string>, n: set<string>, seen: set<string>)
    requires AreNew(ix, a, m, seen) && Apart(a, seen)
    requires AreNew(ix, b, n, seen + SetOf(a)) && Apart(b, seen + SetOf(a))
    ensures AreNew(ix, a + b, m + n, seen) && Apart(a + b, seen)
  {
    hide GoalOf;
    assert forall x :: x in a + b <==> x in a || x in b;
  }

  // ---------- link_symbols_doc ----------

  ghost function Linked(text: string): set<string> { set name | name in LinkedNames(text) }

  ghost function Pieces(ix: Index, text: string): seq<seq<Piece>> {
    Page(ix, SplitLines(text), false, Linked(text))
  }

  /** The page with its symbols linked. */
  ghost function LinkSymbols(ix: Index, text: string): string { Join(Texts(Pieces(ix, text))) }

  /** Running it again finds nothing to link, for any page: all counts are 0 and the page stays as it is. */
  lemma LinkedOnce(ix: Index, text: string)
    requires Clean(ix)
    ensures var again := LinkSymbols(ix, text);
            && LinkSymbols(ix, again) == again
            && forall kind :: PageCount(Pieces(ix, again), kind) == 0
  {
    hide *;
    var lines, page, again := SplitLines(text), Pieces(ix, text), LinkSymbols(ix, text);
    PiecesIs(ix, text);
    JoinOfSplit(text);
    PageLines(ix, lines, false, Linked(text));
    SplitOfJoin(Texts(page));
    PageLinks(ix, lines, false, Linked(text));
    AllLinked(text, again, PageNames(page));
    PageTwice(ix, lines, false, Linked(text), Linked(again));
    PiecesIs(ix, again);
    NoLinkSame(Pieces(ix, again));
    SourceOfPage(ix, Texts(page), false, Linked(again));
  }

  lemma PiecesIs(ix: Index, text: string)
    ensures Pieces(ix, text) == Page(ix, SplitLines(text), false, Linked(text))
    ensures LinkSymbols(ix, text) == Join(Texts(Pieces(ix, text)))
  {
    hide Page, SplitLines, Linked, Join, Texts;
  }

  lemma AllLinked(text: string, again: string, names: seq<string>)
    requires LinkedNames(again) == LinkedNames(text) + multiset(names)
    ensures Linked(text) + SetOf(names) <= Linked(again)
  {
    hide LinkedNames;
  }

  /** Exactly the symbols that have somewhere to point to, that a code span outside the code blocks mentions, and that
      the page did not link yet come to be linked, each of them once; the links the page had stay. */
  lemma LinksFirstMentions(ix: Index, text: string)
    requires Clean(ix)
    ensures var names := PageNames(Pieces(ix, text));
            && LinkedNames(LinkSymbols(ix, text)) == LinkedNames(text) + multiset(names)
            && (forall i, j :: 0 <= i < j < |names| ==> names[i] != names[j])
            && (forall name :: name in names <==>
                  && name in PageMentioned(SplitLines(text), false)
                  && name !in LinkedNames(text)
                  && GoalOf(ix, name).Some?)
  {
    hide LinkedNames, Join, SplitLines, Page, PageNames, Texts, GoalOf, Names, PageMentioned, LinesOk, Clean;
    var lines := SplitLines(text);
    JoinOfSplit(text);
    PageLinks(ix, lines, false, Linked(text));
    PageNew(ix, lines, false, Linked(text));
  }

  /** Without the wrappers of the added links the page is the page that it was. */
  lemma ErasedLinks(ix: Index, text: string)
    ensures Join(Sources(Pieces(ix, text))) == text
    ensures Join(Texts(Pieces(ix, text))) == LinkSymbols(ix, text)
  {
    hide Join, SplitLines, Page, Sources, Linked, Texts;
    JoinOfSplit(text);
    SourceOfPage(ix, SplitLines(text), false, Linked(text));
  }

  // ---------- the loops ----------

  // The symbols that the page links already: set(LINKED_SYMBOL.findall(text)).
  method FindLinked(text: string) returns (seen: set<string>)
    ensures seen == Linked(text)
  {
    hide LinkLen, LinkedNames, NameOf, IsLink, IsSymbol, Linked, Found;
    seen := {};
    var pos := 0;
    FoundNothing(text);
    while pos < |text|
      invariant 0 <= pos <= |text| && Found(text, pos, seen)
    {
      var n := LinkLen(text[pos..]);
      FoundNext(text, pos, seen);
      if n > 0 {
        seen := seen + {NameOf(text[pos..][2..n - 3])};
        pos := pos + n;
      } else {
        pos := pos + 1;
      }
    }
    FoundAll(text, seen);
  }

  // What is seen are the links of the text before pos.
  ghost predicate Found(text: string, pos: nat, seen: set<string>) {
    pos <= |text| && forall name :: name in LinkedNames(text) <==> name in seen || name in LinkedNames(text[pos..])
  }

  lemma FoundNothing(text: string)
    ensures Found(text, 0, {})
  {
    hide LinkedNames;
    assert text[0..] == text;
  }

  lemma FoundNext(text: string, pos: nat, seen: set<string>)
    requires pos < |text| && Found(text, pos, seen)
    ensures var n := LinkLen(text[pos..]);
            if n > 0 then Found(text, pos + n, seen + {NameOf(text[pos..][2..n - 3])}) else Found(text, pos + 1, seen)
  {
    hide LinkLen, LinkedNames, NameOf, IsLink, IsSymbol;
    var s := text[pos..];
    var n := LinkLen(s);
    LinkFirst(s);
    assert s[1..] == text[pos + 1..];
    if n > 0 {
      LinksDoNotOverlap(s);
      assert s[n..] == text[pos + n..];
    }
  }

  lemma FoundAll(text: string, seen: set<string>)
    requires Found(text, |text|, seen)
    ensures seen == Linked(text)
  {
    hide LinkedNames;
    NoLinks();
    assert text[|text|..] == [];
  }

  lemma LinksDoNotOverlap(s: string)
    requires LinkLen(s) > 0
    ensures LinkedNames(s[1..]) == LinkedNames(s[LinkLen(s)..])
  {
    hide LinkLen, LinkedNames, IsBreak, IsLink;
    var n := LinkLen(s);
    LinkInert(s[..n]);
    var t := s[1..n];
    assert forall i :: 0 <= i < |t| ==> t[i] == s[..n][i + 1];
    LinklessRun(t, s[n..]);
    assert s[1..] == t + s[n..];
  }

  lemma {:induction false} Snoc(ps: seq<Piece>, p: Piece)
    ensures ShownAll(ps + [p]) == ShownAll(ps) + Shown(p)
    ensures Names(ps + [p]) == Names(ps) + if p.Wrap? then [NameOf(p.inner)] else []
    ensures forall kind :: Count(ps + [p], kind) == Count(ps, kind) + if p.Wrap? && p.goal.kind == kind then 1 else 0
  {
    hide NameOf, Shown;
    var qs := ps + [p];
    if ps == [] {
      assert qs == [p] && qs[1..] == [];
      assert Shown(p) + [] == Shown(p) == [] + Shown(p);
    } else {
      assert qs[1..] == ps[1..] + [p];
      Snoc(ps[1..], p);
      assert Shown(ps[0]) + (ShownAll(ps[1..]) + Shown(p)) == Shown(ps[0]) + ShownAll(ps[1..]) + Shown(p);
    }
  }

  predicate AfterBracket(line: string, pos: nat)
    requires pos <= |line|
  {
    pos > 0 && line[pos - 1] == '['
  }

  // What the replacing has done up to pos: the pieces, and the names seen.
  ghost predicate Replaced(ix: Index, line: string, seen0: set<string>, pos: nat, done: seq<Piece>, seen: set<string>) {
    && pos <= |line|
    && done + Sub(ix, AfterBracket(line, pos), line[pos..], seen) == Sub(ix, false, line, seen0)
    && seen == seen0 + SetOf(Names(done))
  }

  lemma ReplacedStart(ix: Index, line: string, seen: set<string>)
    ensures Replaced(ix, line, seen, 0, [], seen)
  {
    hide Sub;
    assert line[0..] == line;
    PlusNothing(seen);
  }

  // The piece at pos, and what is left after it.
  lemma ReplacedNext(ix: Index, line: string, seen0: set<string>, pos: nat, done: seq<Piece>, seen: set<string>,
                     p: Piece, n: nat, seen1: set<string>)
    requires Replaced(ix, line, seen0, pos, done, seen) && pos + n <= |line|
    requires Sub(ix, AfterBracket(line, pos), line[pos..], seen)
             == [p] + Sub(ix, AfterBracket(line, pos + n), line[pos + n..], seen1)
    requires seen1 == seen + if p.Wrap? then {NameOf(p.inner)} else {}
    ensures Replaced(ix, line, seen0, pos + n, done + [p], seen1)
  {
    hide Sub, NameOf, Names, Shown, ShownAll, AfterBracket, Count;
    var rest := Sub(ix, AfterBracket(line, pos + n), line[pos + n..], seen1);
    assert done + ([p] + rest) == (done + [p]) + rest;
    Snoc(done, p);
    SetOfConcat(Names(done), if p.Wrap? then [NameOf(p.inner)] else []);
  }

  lemma PlainNext(ix: Index, line: string, pos: nat, seen: set<string>)
    requires pos < |line| && (AfterBracket(line, pos) || SpanLen(line[pos..]) == 0)
    ensures Sub(ix, AfterBracket(line, pos), line[pos..], seen)
            == [Copy([line[pos]])] + Sub(ix, AfterBracket(line, pos + 1), line[pos + 1..], seen)
  {
    hide Sub, SpanLen;
    SubPlain(ix, AfterBracket(line, pos), line[pos..], seen);
    assert line[pos..][1..] == line[pos + 1..] && line[pos..][..1] == [line[pos]];
  }

  lemma SpanNext(ix: Index, line: string, pos: nat, n: nat, inner: string, seen: set<string>)
    requires pos < |line| && !AfterBracket(line, pos) && n == SpanLen(line[pos..]) > 0 && inner == line[pos + 1..pos + n - 1]
    ensures var name := NameOf(inner);
            var goal := GoalOf(ix, name);
            Sub(ix, AfterBracket(line, pos), line[pos..], seen)
            == if name in seen || goal.None? then
                 [Copy(line[pos..pos + n])] + Sub(ix, AfterBracket(line, pos + n), line[pos + n..], seen)
               else [Wrap(inner, goal.value)] + Sub(ix, AfterBracket(line, pos + n), line[pos + n..], seen + {name})
  {
    hide Sub, SpanLen, GoalOf, NameOf, IsSymbol, IsSpan;
    var s := line[pos..];
    assert s[1..n - 1] == inner && s[..n] == line[pos..pos + n] && s[n..] == line[pos + n..];
    SpanEnds(s, n);
    assert line[pos + n - 1] == s[n - 1];
    if Keeps(ix, s, seen) {
      SubKept(ix, s, n, seen);
    } else {
      SubWrapped(ix, s, n, inner, NameOf(inner), seen);
    }
  }

  lemma ReplacedEnd(ix: Index, line: string, seen0: set<string>, done: seq<Piece>, seen: set<string>)
    requires Replaced(ix, line, seen0, |line|, done, seen)
    ensures done == Sub(ix, false, line, seen0)
  {
    NothingDeparts(ix, AfterBracket(line, |line|), seen);
    assert done + [] == done;
  }

  ghost predicate Counts(ps: seq<Piece>, nf: nat, ng: nat, nt: nat) {
    nf == Count(ps, Func) && ng == Count(ps, Gclass) && nt == Count(ps, Tool)
  }

  // SYMBOL_SPAN.sub(repl, line), with the names seen and the counts as repl leaves them.
  method SubLine(ix: Index, line: string, seen0: set<string>)
    returns (out: string, seen: set<string>, nf: nat, ng: nat, nt: nat)
    ensures var ps := Sub(ix, false, line, seen0);
            && out == ShownAll(ps) && seen == seen0 + SetOf(Names(ps)) && Counts(ps, nf, ng, nt)
  {
    hide *;
    out, seen, nf, ng, nt := [], seen0, 0, 0, 0;
    var pos := 0;
    ghost var done: seq<Piece> := [];
    ReplacedStart(ix, line, seen0);
    NothingDone();
    while pos < |line|
      invariant pos <= |line|
      invariant Replaced(ix, line, seen0, pos, done, seen)
      invariant out == ShownAll(done) && Counts(done, nf, ng, nt)
    {
      var n := if AfterBracket(line, pos) then 0 else SpanLen(line[pos..]);
      if n == 0 {
        PlainNext(ix, line, pos, seen);
        ReplacedNext(ix, line, seen0, pos, done, seen, Copy([line[pos]]), 1, seen);
        ShownNext(done, Copy([line[pos]]), nf, ng, nt);
        done := done + [Copy([line[pos]])];
        out := out + [line[pos]];
        pos := pos + 1;
      } else {
        var inner := line[pos + 1..pos + n - 1];
        var name := NameOf(inner);
        var goal := GoalOf(ix, name);
        SpanNext(ix, line, pos, n, inner, seen);
        if name in seen || goal.None? {
          ReplacedNext(ix, line, seen0, pos, done, seen, Copy(line[pos..pos + n]), n, seen);
          ShownNext(done, Copy(line[pos..pos + n]), nf, ng, nt);
          done := done + [Copy(line[pos..pos + n])];
          out := out + line[pos..pos + n];
        } else {
          ReplacedNext(ix, line, seen0, pos, done, seen, Wrap(inner, goal.value), n, seen + {name});
          ShownNext(done, Wrap(inner, goal.value), nf, ng, nt);
          done := done + [Wrap(inner, goal.value)];
          seen := seen + {name};
          match goal.value.kind {
            case Gclass => ng := ng + 1;
            case Tool => nt := nt + 1;
            case Func => nf := nf + 1;
          }
          out := out + ("[`" + inner + "`](" + goal.value.url + ")");
        }
        pos := pos + n;
      }
    }
    ReplacedEnd(ix, line, seen0, done, seen);
    ReplacedSeen(ix, line, seen0, pos, done, seen);
  }

  lemma ShownNext(done: seq<Piece>, p: Piece, nf: nat, ng: nat, nt: nat)
    requires Counts(done, nf, ng, nt)
    ensures ShownAll(done + [p])
            == ShownAll(done) + if p.Copy? then p.text else "[`" + p.inner + "`](" + p.goal.url + ")"
    ensures Counts(done + [p],
                   nf + if p.Wrap? && p.goal.kind == Func then 1 else 0,
                   ng + if p.Wrap? && p.goal.kind == Gclass then 1 else 0,
                   nt + if p.Wrap? && p.goal.kind == Tool then 1 else 0)
  {
    hide ShownAll, Names, NameOf, Count;
    Snoc(done, p);
  }

  lemma NothingDone()
    ensures ShownAll([]) == [] && Counts([], 0, 0, 0)
  {
  }

  lemma ReplacedSeen(ix: Index, line: string, seen0: set<string>, pos: nat, done: seq<Piece>, seen: set<string>)
    requires Replaced(ix, line, seen0, pos, done, seen)
    ensures seen == seen0 + SetOf(Names(done))
  {
    hide Sub;
  }

  // How far the loop over the lines is: what it has put out, and what is left.
  ghost predicate Walked(ix: Index, page: seq<seq<Piece>>, lines: seq<string>, i: nat, inFence: bool, seen: set<string>,
                         out: string, nf: nat, ng: nat, nt: nat) {
    && i <= |lines|
    && var rest := Page(ix, lines[i..], inFence, seen);
       && out + Join(Texts(rest)) == Join(Texts(page))
       && nf + PageCount(rest, Func) == PageCount(page, Func)
       && ng + PageCount(rest, Gclass) == PageCount(page, Gclass)
       && nt + PageCount(rest, Tool) == PageCount(page, Tool)
  }

  lemma WalkedStart(ix: Index, lines: seq<string>, seen: set<string>)
    ensures Walked(ix, Page(ix, lines, false, seen), lines, 0, false, seen, [], 0, 0, 0)
  {
    hide Page, Join, Texts, PageCount;
    assert lines[0..] == lines;
  }

  lemma WalkedNext(ix: Index, page: seq<seq<Piece>>, lines: seq<string>, i: nat, inFence: bool, seen: set<string>,
                   out: string, nf: nat, ng: nat, nt: nat,
                   ps: seq<Piece>, inFence1: bool, seen1: set<string>, nf1: nat, ng1: nat, nt1: nat)
    requires Walked(ix, page, lines, i, inFence, seen, out, nf, ng, nt) && i < |lines|
    requires Page(ix, lines[i..], inFence, seen) == [ps] + Page(ix, lines[i + 1..], inFence1, seen1)
    requires Counts(ps, nf1, ng1, nt1)
    ensures Walked(ix, page, lines, i + 1, inFence1, seen1, out + ShownAll(ps), nf + nf1, ng + ng1, nt + nt1)
  {
    hide Page, ShownAll, Count;
    var rest := Page(ix, lines[i + 1..], inFence1, seen1);
    var all := [ps] + rest;
    assert all[1..] == rest;
    assert Texts(all) == [ShownAll(ps)] + Texts(rest);
    assert ([ShownAll(ps)] + Texts(rest))[1..] == Texts(rest);
    assert out + (ShownAll(ps) + Join(Texts(rest))) == (out + ShownAll(ps)) + Join(Texts(rest));
  }

  lemma WalkedEnd(ix: Index, page: seq<seq<Piece>>, lines: seq<string>, inFence: bool, seen: set<string>,
                  out: string, nf: nat, ng: nat, nt: nat)
    requires Walked(ix, page, lines, |lines|, inFence, seen, out, nf, ng, nt)
    ensures out == Join(Texts(page))
    ensures nf == PageCount(page, Func) && ng == PageCount(page, Gclass) && nt == PageCount(page, Tool)
  {
    assert lines[|lines|..] == [];
    assert out + [] == out;
  }

  lemma CopyCounts(l: string)
    ensures ShownAll([Copy(l)]) == l && Counts([Copy(l)], 0, 0, 0)
  {
    assert l + [] == l;
  }

  /** link_symbols_doc on the text of a page: the text that the file then has, and how many links of each kind are new.
      The file is written only if there are any. */
  method LinkSymbolsDoc(ix: Index, text: string) returns (doc: string, nf: nat, ng: nat, nt: nat)
    ensures doc == LinkSymbols(ix, text)
    ensures var page := Pieces(ix, text);
            nf == PageCount(page, Func) && ng == PageCount(page, Gclass) && nt == PageCount(page, Tool)
  {
    hide *;
    var seen := FindLinked(text);
    var lines := SplitLines(text);
    ghost var page := Pieces(ix, text);
    PiecesIs(ix, text);
    var out, inFence, i := [], false, 0;
    nf, ng, nt := 0, 0, 0;
    WalkedStart(ix, lines, seen);
    while i < |lines|
      invariant i <= |lines| && Walked(ix, page, lines, i, inFence, seen, out, nf, ng, nt)
    {
      var line := lines[i];
      assert lines[i..][0] == line && lines[i..][1..] == lines[i + 1..];
      if IsFence(line) || inFence {
        PageSkips(ix, lines[i..], inFence, seen);
        CopyCounts(line);
        ghost var f := if IsFence(line) then !inFence else inFence;
        WalkedNext(ix, page, lines, i, inFence, seen, out, nf, ng, nt, [Copy(line)], f, seen, 0, 0, 0);
        if IsFence(line) {
          inFence := !inFence;
        }
        out := out + line;
      } else {
        PageSubs(ix, lines[i..], seen);
        var newLine, seen1, f, g, t := SubLine(ix, line, seen);
        WalkedNext(ix, page, lines, i, false, seen, out, nf, ng, nt, Sub(ix, false, line, seen), false, seen1, f, g, t);
        out, seen, nf, ng, nt := out + newLine, seen1, nf + f, ng + g, nt + t;
      }
      i := i + 1;
    }
    WalkedEnd(ix, page, lines, inFence, seen, out, nf, ng, nt);
    if nf > 0 || ng > 0 || nt > 0 {
      doc := out;
    } else {
      doc := text;
      NoCountNoLink(page);
      NoLinkSame(page);
      ErasedLinks(ix, text);
    }
  }

  lemma {:induction false} NoCountNoWrap(ps: seq<Piece>)
    requires Counts(ps, 0, 0, 0)
    ensures NoWrap(ps)
  {
    if ps != [] {
      assert Count(ps, if ps[0].Wrap? then ps[0].goal.kind else Func) == 0;
      NoCountNoWrap(ps[1..]);
    }
  }

  lemma {:induction false} NoCountNoLink(page: seq<seq<Piece>>)
    requires PageCount(page, Func) == PageCount(page, Gclass) == PageCount(page, Tool) == 0
    ensures NoLink(page)
  {
    hide NoWrap, Count;
    if page != [] {
      NoCountNoWrap(page[0]);
      NoCountNoLink(page[1..]);
    }
  }
}
