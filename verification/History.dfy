/** The history: a bounded list without adjacent repeats, and the file it is saved to and loaded from. */
module Histories {
  import opened Utf8
  import opened Memory
  import opened Options

  // C strings: no byte is NUL.
  predicate NoNul(s: Bytes) {
    forall i :: 0 <= i < |s| ==> s[i] != 0
  }

  predicate AllNoNul(h: seq<Bytes>) {
    forall i :: 0 <= i < |h| ==> NoNul(h[i])
  }

  // ---------- the list ----------

  function AddedTo(h: seq<Bytes>, line: Bytes, max: nat): seq<Bytes> {
    if max == 0 || (h != [] && h[|h| - 1] == line) then h
    else if |h| == max then h[1..] + [line]
    else h + [line]
  }

  function LastOf(h: seq<Bytes>, n: nat): seq<Bytes> {
    if |h| <= n then h else h[|h| - n..]
  }

  datatype Op = Add(line: Bytes) | SetMax(len: int)

  datatype State = State(entries: seq<Bytes>, max: nat)

  function Do(s: State, op: Op): State {
    match op
    case Add(line) => s.(entries := AddedTo(s.entries, line, s.max))
    case SetMax(len) => if len < 1 then s else State(LastOf(s.entries, len), len)
  }

  function DoAll(s: State, ops: seq<Op>): State {
    if ops == [] then s else Do(DoAll(s, ops[..|ops| - 1]), ops[|ops| - 1])
  }

  // The lines added, in order, and the same without adjacent repeats.
  function Log(ops: seq<Op>): seq<Bytes> {
    if ops == [] then []
    else Log(ops[..|ops| - 1]) + (if ops[|ops| - 1].Add? then [ops[|ops| - 1].line] else [])
  }

  function Dedup(log: seq<Bytes>): seq<Bytes> {
    if log == [] then []
    else
      var d := Dedup(log[..|log| - 1]);
      if d != [] && d[|d| - 1] == log[|log| - 1] then d else d + [log[|log| - 1]]
  }

  predicate Suffix(s: seq<Bytes>, t: seq<Bytes>) {
    |s| <= |t| && t[|t| - |s|..] == s
  }

  lemma {:induction false} DedupLast(log: seq<Bytes>)
    ensures Dedup(log) == [] <==> log == []
    ensures log != [] ==> Dedup(log)[|Dedup(log)| - 1] == log[|log| - 1]
  {
    if log != [] { DedupLast(log[..|log| - 1]); }
  }

  lemma DedupSnoc(log: seq<Bytes>, line: Bytes)
    ensures Dedup(log + [line]) ==
            if Dedup(log) != [] && Dedup(log)[|Dedup(log)| - 1] == line then Dedup(log) else Dedup(log) + [line]
  {
    assert (log + [line])[..|log|] == log;
  }

  /** After any additions and changes of the maximum, the history is a suffix of the log without adjacent repeats,
      no longer than the maximum, and not empty once a line has been added. */
  lemma {:induction false} HistoryIsSuffix(max: nat, ops: seq<Op>)
    requires max > 0
    ensures var s, d := DoAll(State([], max), ops), Dedup(Log(ops));
            && s.max > 0 && |s.entries| <= s.max && Suffix(s.entries, d)
            && (s.entries == [] <==> d == [])
  {
    hide Dedup, LastOf, AddedTo, Suffix;
    NoneAdded();
    if ops != [] {
      var m := |ops| - 1;
      HistoryIsSuffix(max, ops[..m]);
      var s, d := DoAll(State([], max), ops[..m]), Dedup(Log(ops[..m]));
      match ops[m]
      case Add(line) =>
        DedupSnoc(Log(ops[..m]), line);
        AddKeepsSuffix(s, d, line);
      case SetMax(len) =>
        assert Log(ops) == Log(ops[..m]);
        if len >= 1 { LastOfSuffix(s.entries, d, len); }
    }
  }

  lemma NoneAdded()
    ensures Dedup([]) == [] && Suffix([], [])
  {}

  lemma AddKeepsSuffix(s: State, d: seq<Bytes>, line: Bytes)
    requires s.max > 0 && |s.entries| <= s.max && Suffix(s.entries, d) && (s.entries == [] <==> d == [])
    ensures var e := AddedTo(s.entries, line, s.max);
            var d' := if d != [] && d[|d| - 1] == line then d else d + [line];
            |e| <= s.max && Suffix(e, d') && e != [] && d' != []
  {
    hide Suffix;
    var h := s.entries;
    if h != [] {
      SuffixLast(h, d);
      SuffixTail(h, d);
      SuffixPut(h[1..], d, line);
    }
    SuffixPut(h, d, line);
  }

  lemma SuffixLast(h: seq<Bytes>, d: seq<Bytes>)
    requires Suffix(h, d) && h != []
    ensures d != [] && d[|d| - 1] == h[|h| - 1]
  {
    assert d[|d| - |h|..][|h| - 1] == d[|d| - 1];
  }

  lemma SuffixTail(h: seq<Bytes>, d: seq<Bytes>)
    requires Suffix(h, d) && h != []
    ensures Suffix(h[1..], d)
  {
    assert d[|d| - |h|..][1..] == d[|d| - |h| + 1..];
  }

  lemma SuffixPut(h: seq<Bytes>, d: seq<Bytes>, line: Bytes)
    requires Suffix(h, d)
    ensures Suffix(h + [line], d + [line])
  {
    assert (d + [line])[|d| - |h|..] == d[|d| - |h|..] + [line];
  }

  lemma LastOfSuffix(h: seq<Bytes>, d: seq<Bytes>, n: nat)
    requires Suffix(h, d) && n > 0
    ensures Suffix(LastOf(h, n), d) && |LastOf(h, n)| <= n && (LastOf(h, n) == [] <==> h == [])
  {
    if |h| > n { assert d[|d| - n..] == d[|d| - |h|..][|h| - n..]; }
  }

  /** With the maximum left alone, it is the longest such suffix. */
  lemma {:induction false} HistoryIsLongest(max: nat, ops: seq<Op>)
    requires max > 0 && forall i :: 0 <= i < |ops| ==> ops[i].Add?
    ensures DoAll(State([], max), ops) == State(LastOf(Dedup(Log(ops)), max), max)
  {
    hide Dedup, LastOf, AddedTo;
    if ops == [] {
      NoneAdded();
      LastOfFew([], max);
    } else {
      var m := |ops| - 1;
      HistoryIsLongest(max, ops[..m]);
      var d := Dedup(Log(ops[..m]));
      DedupSnoc(Log(ops[..m]), ops[m].line);
      LastOfSnoc(d, ops[m].line, max);
    }
  }

  lemma LastOfFew(d: seq<Bytes>, n: nat)
    ensures |d| <= n ==> LastOf(d, n) == d
    ensures |LastOf(d, n)| == if |d| <= n then |d| else n
  {}

  lemma LastOfLast(d: seq<Bytes>, n: nat)
    requires d != [] && n > 0
    ensures var h := LastOf(d, n); h != [] && h[|h| - 1] == d[|d| - 1]
  {}

  lemma LastOfPut(d: seq<Bytes>, line: Bytes, n: nat)
    requires n > 0 && |d| >= n
    ensures LastOf(d + [line], n) == LastOf(d, n)[1..] + [line]
  {
    assert d[|d| - n..][1..] == d[|d| + 1 - n..];
  }

  lemma LastOfSnoc(d: seq<Bytes>, line: Bytes, max: nat)
    requires max > 0
    ensures AddedTo(LastOf(d, max), line, max) ==
            LastOf(if d != [] && d[|d| - 1] == line then d else d + [line], max)
  {
    hide LastOf;
    LastOfFew(d, max);
    LastOfFew(d + [line], max);
    if d != [] {
      LastOfLast(d, max);
    }
    if |d| >= max {
      LastOfPut(d, line, max);
    }
  }

  // ---------- the file ----------

  // A newline inside an entry is kept as CR.
  function Escape(e: Bytes): Bytes {
    seq(|e|, i requires 0 <= i < |e| => if e[i] == LF then CR else e[i])
  }

  function Unescape(e: Bytes): Bytes {
    seq(|e|, i requires 0 <= i < |e| => if e[i] == CR then LF else e[i])
  }

  // The bytes before the first NUL, as C reads them.
  function CString(s: Bytes): Bytes {
    if s == [] || s[0] == 0 then [] else [s[0]] + CString(s[1..])
  }

  function FileOf(h: seq<Bytes>): Bytes {
    if h == [] then [] else FileOf(h[..|h| - 1]) + Escape(h[|h| - 1]) + [LF]
  }

  // Where the line at the start of s ends.
  function LineEnd(s: Bytes): (k: nat)
    ensures k <= |s| && (k < |s| ==> s[k] == LF) && forall i :: 0 <= i < k ==> s[i] != LF
  {
    if s == [] || s[0] == LF then 0 else 1 + LineEnd(s[1..])
  }

  // The records of a file; the last one need not be ended.
  function Records(s: Bytes): seq<Bytes> {
    if s == [] then []
    else
      var k := LineEnd(s);
      [s[..k]] + (if k < |s| then Records(s[k+1..]) else [])
  }

  function LoadedFrom(h: seq<Bytes>, max: nat, records: seq<Bytes>): seq<Bytes>
    decreases |records|
  {
    if records == [] then h
    else LoadedFrom(AddedTo(h, Unescape(CString(records[0])), max), max, records[1..])
  }

  function Escaped(h: seq<Bytes>): seq<Bytes> {
    seq(|h|, i requires 0 <= i < |h| => Escape(h[i]))
  }

  function Cleaned(h: seq<Bytes>): seq<Bytes> {
    seq(|h|, i requires 0 <= i < |h| => Unescape(Escape(h[i])))
  }

  // The file again, written from the front.
  function FileFront(h: seq<Bytes>): Bytes {
    if h == [] then [] else Escape(h[0]) + [LF] + FileFront(h[1..])
  }

  lemma {:induction false} FileFrontIs(h: seq<Bytes>)
    ensures FileFront(h) == FileOf(h)
  {
    hide Escape;
    if |h| <= 1 {
      if |h| == 1 { assert h[1..] == [] && h[..0] == []; }
    } else {
      var m := |h| - 1;
      FileFrontIs(h[..m]);
      FileFrontSnoc(h[..m], h[m]);
      assert h == h[..m] + [h[m]];
    }
  }

  lemma {:induction false} FileFrontSnoc(h: seq<Bytes>, e: Bytes)
    ensures FileFront(h + [e]) == FileFront(h) + (Escape(e) + [LF])
  {
    hide Escape;
    if h == [] {
      assert ([] + [e])[1..] == [];
      assert FileFront([]) == [];
    } else {
      FileFrontSnoc(h[1..], e);
      assert (h + [e])[1..] == h[1..] + [e];
      Assoc(Escape(h[0]) + [LF], FileFront(h[1..]), Escape(e) + [LF]);
    }
  }

  lemma {:induction false} LineEndAfter(a: Bytes, b: Bytes)
    requires forall i :: 0 <= i < |a| ==> a[i] != LF
    ensures LineEnd(a + [LF] + b) == |a|
  {
    var s := a + [LF] + b;
    assert s[|a|] == LF;
    assert forall i :: 0 <= i < |a| ==> s[i] == a[i];
  }

  /** Reading the file back gives one record an entry. */
  lemma {:induction false} RecordsOfFile(h: seq<Bytes>)
    ensures Records(FileFront(h)) == Escaped(h)
  {
    hide LineEnd, Records, Escaped;
    if h == [] {
      NothingRecorded();
    } else {
      RecordsOfFile(h[1..]);
      LineEndAfter(Escape(h[0]), FileFront(h[1..]));
      FirstRecord(Escape(h[0]), FileFront(h[1..]));
      EscapedFirst(h);
    }
  }

  lemma NothingRecorded()
    ensures Records([]) == Escaped([]) == []
  {}

  lemma FirstRecord(e: Bytes, rest: Bytes)
    requires LineEnd(e + [LF] + rest) == |e|
    ensures Records(e + [LF] + rest) == [e] + Records(rest)
  {
    hide LineEnd;
    var s := e + [LF] + rest;
    assert s[..|e|] == e && s[|e| + 1..] == rest;
    NothingRecorded();
  }

  lemma EscapedFirst(h: seq<Bytes>)
    requires h != []
    ensures Escaped(h) == [Escape(h[0])] + Escaped(h[1..])
  {
    hide Escape;
  }

  lemma {:induction false} CStringWhole(s: Bytes)
    requires NoNul(s)
    ensures CString(s) == s
  {
    if s != [] {
      CStringWhole(s[1..]);
      assert s == [s[0]] + s[1..];
    }
  }

  lemma {:induction false} LoadedIsDedup(pre: seq<Bytes>, max: nat, h: seq<Bytes>)
    requires max > 0 && AllNoNul(h)
    ensures LoadedFrom(LastOf(Dedup(pre), max), max, Escaped(h)) == LastOf(Dedup(pre + Cleaned(h)), max)
    decreases |h|
  {
    hide Escape, Unescape, Dedup, LastOf, AddedTo, CString;
    if h == [] {
      assert pre + Cleaned(h) == pre;
    } else {
      var line := Unescape(Escape(h[0]));
      EscapeNoNul(h[0]);
      CStringWhole(Escape(h[0]));
      assert Escaped(h)[1..] == Escaped(h[1..]);
      LastOfSnoc(Dedup(pre), line, max);
      DedupSnoc(pre, line);
      LoadedIsDedup(pre + [line], max, h[1..]);
      assert pre + Cleaned(h) == (pre + [line]) + Cleaned(h[1..]);
    }
  }

  lemma EscapeNoNul(e: Bytes)
    requires NoNul(e)
    ensures NoNul(Escape(e))
  {}

  /** Saving and loading into an empty history keeps, of the entries with CR read as newline, the last of those
      that do not repeat the one before. */
  lemma LoadOfSave(h: seq<Bytes>, max: nat)
    requires max > 0 && AllNoNul(h)
    ensures LoadedFrom([], max, Records(FileOf(h))) == LastOf(Dedup(Cleaned(h)), max)
  {
    FileFrontIs(h);
    RecordsOfFile(h);
    assert Dedup([]) == [];
    LoadedIsDedup([], max, h);
    assert [] + Cleaned(h) == Cleaned(h);
  }

  predicate NoCr(h: seq<Bytes>) {
    forall i, j :: 0 <= i < |h| && 0 <= j < |h[i]| ==> h[i][j] != CR
  }

  predicate NoRepeats(h: seq<Bytes>) {
    forall i :: 0 < i < |h| ==> h[i-1] != h[i]
  }

  lemma NoRepeatsSnoc(h: seq<Bytes>, e: Bytes)
    ensures NoRepeats(h + [e]) <==> NoRepeats(h) && (h != [] ==> h[|h| - 1] != e)
  {
    var t := h + [e];
    assert forall i :: 0 <= i < |h| ==> t[i] == h[i];
    if NoRepeats(t) && h != [] { assert t[|h| - 1] != t[|h|]; }
    if NoRepeats(t) {
      forall i | 0 < i < |h| ensures h[i-1] != h[i] { assert t[i-1] != t[i]; }
    }
  }

  lemma {:induction false} DedupNoRepeats(h: seq<Bytes>)
    ensures |Dedup(h)| <= |h|
    ensures NoRepeats(h) <==> Dedup(h) == h
    ensures |Dedup(h)| == |h| ==> Dedup(h) == h
  {
    hide NoRepeats, Dedup;
    if h == [] {
      NoneAdded();
      NoRepeatsNone();
    } else {
      var g, e := h[..|h| - 1], h[|h| - 1];
      DedupNoRepeats(g);
      DedupLast(g);
      assert h == g + [e];
      NoRepeatsSnoc(g, e);
      DedupSnoc(g, e);
    }
  }

  lemma NoRepeatsNone()
    ensures NoRepeats([])
  {}

  lemma CleanedIs(h: seq<Bytes>)
    ensures |Cleaned(h)| == |h| && NoCr(Cleaned(h)) && (NoCr(h) <==> Cleaned(h) == h)
  {
    if NoCr(h) {
      forall i | 0 <= i < |h| ensures Cleaned(h)[i] == h[i] {
        assert forall j :: 0 <= j < |h[i]| ==> Unescape(Escape(h[i]))[j] == h[i][j];
      }
    }
  }

  lemma {:induction false} DedupNoCr(h: seq<Bytes>)
    requires NoCr(h)
    ensures NoCr(Dedup(h))
  {
    if h != [] {
      var m := |h| - 1;
      assert forall i :: 0 <= i < m ==> h[..m][i] == h[i];
      DedupNoCr(h[..m]);
    }
  }

  /** The list comes back exactly as it was if and only if no entry holds a CR, no entry repeats the one before,
      and the maximum allows them all. */
  lemma RoundTripIff(h: seq<Bytes>, max: nat)
    requires max > 0 && AllNoNul(h)
    ensures LoadedFrom([], max, Records(FileOf(h))) == h <==> NoCr(h) && NoRepeats(h) && |h| <= max
  {
    hide Records, FileOf, LoadedFrom, Escape, Unescape;
    LoadOfSave(h, max);
    CleanedIs(h);
    var c := Cleaned(h);
    DedupNoRepeats(c);
    DedupNoRepeats(h);
    DedupNoCr(c);
    var r := LastOf(Dedup(c), max);
    if r == h {
      assert |Dedup(c)| == |c|;
      assert r == c;
    }
  }

  // ---------- the history in place ----------

  class History {
    var entries: seq<Bytes>    // the history array, of history_len strings
    var maxLen: nat            // history_max_len

    ghost predicate Valid()
      reads this
    {
      |entries| <= maxLen && AllNoNul(entries)
    }

    constructor (max: nat)
      ensures Valid() && entries == [] && maxLen == max
    {
      entries, maxLen := [], max;
    }

    /** linenoiseHistoryAdd */
    method Add(line: Bytes) returns (added: bool)
      requires Valid() && NoNul(line)
      modifies this
      ensures Valid() && maxLen == old(maxLen)
      ensures entries == AddedTo(old(entries), line, maxLen)
      ensures added <==> maxLen > 0 && !(old(entries) != [] && old(entries)[|old(entries)| - 1] == line)
    {
      if maxLen == 0 {
        return false;
      }
      if |entries| > 0 && entries[|entries| - 1] == line {
        return false;
      }
      if |entries| == maxLen {
        entries := entries[1..];
      }
      entries := entries + [line];
      return true;
    }

    /** linenoiseHistorySetMaxLen */
    method SetMaxLen(len: int) returns (ok: bool)
      requires Valid()
      modifies this
      ensures Valid() && (ok <==> len >= 1)
      ensures State(entries, maxLen) == Do(State(old(entries), old(maxLen)), SetMax(len))
    {
      if len < 1 {
        return false;
      }
      var tocopy := |entries|;
      if len < tocopy {
        tocopy := len;
      }
      entries := entries[|entries| - tocopy..];
      maxLen := len;
      return true;
    }

    /** linenoiseHistorySave: the bytes written. */
    method Save() returns (file: Bytes)
      requires Valid()
      ensures file == FileOf(entries)
    {
      file := [];
      var j := 0;
      while j < |entries|
        invariant j <= |entries| && file == FileOf(entries[..j])
      {
        assert entries[..j+1][..j] == entries[..j];
        var p := entries[j];
        var i := 0;
        ghost var start := file;
        assert Escape(p)[..0] == [];
        while i < |p|
          invariant i <= |p| && file == start + Escape(p)[..i]
        {
          file := file + [if p[i] == LF then CR else p[i]];
          i := i + 1;
        }
        assert Escape(p)[..i] == Escape(p);
        file := file + [LF];
        j := j + 1;
      }
      assert entries[..j] == entries;
    }

    /** linenoiseHistoryLoad, of a file of these bytes. */
    method Load(file: Bytes)
      requires Valid()
      modifies this
      ensures Valid() && maxLen == old(maxLen)
      ensures entries == LoadedFrom(old(entries), maxLen, Records(file))
    {
      var at := 0;
      while true
        invariant at <= |file| && Valid() && maxLen == old(maxLen)
        invariant LoadedFrom(entries, maxLen, Records(file[at..])) == LoadedFrom(old(entries), maxLen, Records(file))
        decreases |file| - at
      {
        RecordsNext(file, at);
        var line, next := ReadLine(file, at);
        if line == None {
          break;
        }
        var buf := CutAtNul(line.value);
        assert Records(file[at..]) == [line.value] + Records(file[next..]);
        var ok := Add(Unescape(buf));
        assert Records(file[at..])[1..] == Records(file[next..]);
        at := next;
      }
    }
  }

  // What C sees of a buffer that holds the bytes of a line and a closing NUL.
  method CutAtNul(s: Bytes) returns (c: Bytes)
    ensures c == CString(s) && NoNul(c) && NoNul(Unescape(c))
  {
    var j := 0;
    while j < |s| && s[j] != 0
      invariant j <= |s| && (forall i :: 0 <= i < j ==> s[i] != 0) && CString(s) == s[..j] + CString(s[j..])
    {
      assert s[j..][1..] == s[j+1..] && s[..j+1] == s[..j] + [s[j]];
      j := j + 1;
    }
    c := s[..j];
  }

  // The record at this place of the file.
  lemma RecordsNext(file: Bytes, at: nat)
    requires at <= |file|
    ensures at == |file| ==> Records(file[at..]) == []
    ensures at < |file| ==>
              var k := LineEnd(file[at..]);
              var next := if at + k < |file| then at + k + 1 else at + k;
              Records(file[at..]) == [file[at..at + k]] + Records(file[next..])
  {
    hide LineEnd, Records;
    if at < |file| {
      RecordsFirst(file[at..]);
      RestOf(file, at, LineEnd(file[at..]));
    } else {
      NoRecords(file[at..]);
    }
  }

  lemma NoRecords(s: Bytes)
    requires s == []
    ensures Records(s) == []
  {}

  lemma RestOf(file: Bytes, at: nat, k: nat)
    requires at + k <= |file|
    ensures file[at..][..k] == file[at..at + k]
    ensures at + k < |file| ==> file[at..][k+1..] == file[at + k + 1..]
    ensures at + k == |file| ==> file[at + k..] == []
  {}

  lemma RecordsFirst(s: Bytes)
    requires s != []
    ensures var k := LineEnd(s);
            Records(s) == [s[..k]] + Records(if k < |s| then s[k+1..] else [])
  {
    hide LineEnd;
  }

  method Doubled(buf: array<Byte>, len: nat) returns (bigger: array<Byte>)
    requires len <= buf.Length <= len + 1 && (buf.Length == 0 || buf.Length >= 16)
    ensures fresh(bigger) && bigger.Length >= 16 && len + 1 < bigger.Length && bigger[..][..len] == buf[..][..len]
  {
    hide *;
    var newcap := if buf.Length != 0 then buf.Length * 2 else 16;
    bigger := new Byte[newcap];
    Append(bigger, 0, buf[..][..len]);
    assert bigger[..][..0] + buf[..][..len] == buf[..][..len];
  }

  /** linenoiseReadLine: the next record of the file, read into a buffer that doubles as it fills. */
  method ReadLine(file: Bytes, at: nat) returns (line: Option<Bytes>, next: nat)
    requires at <= |file|
    ensures at == |file| ==> line == None && next == at
    ensures at < |file| ==>
              var k := LineEnd(file[at..]);
              line == Some(file[at..at + k]) && next == (if at + k < |file| then at + k + 1 else at + k)
  {
    hide *;
    var buf := new Byte[0];
    var len := 0;
    next := at;
    while true
      invariant next == at + len <= |file| && (len == 0 || len < buf.Length) && fresh(buf)
      invariant len <= buf.Length && buf[..][..len] == file[at..next] && (buf.Length == 0 || buf.Length >= 16)
      invariant len <= LineEnd(file[at..])
      decreases |file| - next
    {
      if len + 1 >= buf.Length {
        buf := Doubled(buf, len);
      }
      if next == |file| || file[next] == LF {
        LineEndAt(file[at..], len);
        if next == |file| && len == 0 {
          return None, next;
        }
        line := Some(buf[..][..len]);
        next := if next < |file| then next + 1 else next;
        return;
      }
      LineEndAt(file[at..], len);
      assert file[at..next + 1] == file[at..next] + [file[next]];
      Append(buf, len, [file[next]]);
      len := len + 1;
      next := next + 1;
    }
  }

  // The end of the line is the first newline, or the end of the file.
  lemma LineEndAt(s: Bytes, k: nat)
    requires k <= LineEnd(s)
    ensures LineEnd(s) == k <==> k == |s| || s[k] == LF
  {}
}
