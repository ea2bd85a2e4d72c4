/** Grapheme clusters by the editor's own rule, stepped over forwards and backwards.
    A text is reasoned about as a sequence of runes; the byte loops are proved to compute
    the sizes of the first and the last cluster of that sequence. */
module Graphemes {
  import opened Utf8

  const ZWJ: int := 0x200D

  predicate IsVariationSelector(cp: int) {
    cp == 0xFE0E || cp == 0xFE0F
  }

  predicate IsSkinToneModifier(cp: int) {
    0x1F3FB <= cp <= 0x1F3FF
  }

  predicate IsZWJ(cp: int) {
    cp == ZWJ
  }

  predicate IsRegionalIndicator(cp: int) {
    0x1F1E6 <= cp <= 0x1F1FF
  }

  predicate IsCombiningMark(cp: int) {
    || 0x0300 <= cp <= 0x036F
    || 0x1AB0 <= cp <= 0x1AFF
    || 0x1DC0 <= cp <= 0x1DFF
    || 0x20D0 <= cp <= 0x20FF
    || 0xFE20 <= cp <= 0xFE2F
  }

  /** isGraphemeExtend: the code point does not start a cluster of its own. */
  predicate IsExtend(cp: int) {
    IsVariationSelector(cp) || IsSkinToneModifier(cp) || IsZWJ(cp) || IsCombiningMark(cp)
  }

  /** What extends a cluster: combining marks, two variation selectors, the five skin tones, and the joiner. */
  lemma ExtendsIff(cp: Rune)
    ensures IsExtend(cp) <==>
            || 0x300 <= cp <= 0x36F || 0x1AB0 <= cp <= 0x1AFF || 0x1DC0 <= cp <= 0x1DFF || 0x20D0 <= cp <= 0x20FF
            || 0xFE20 <= cp <= 0xFE2F || cp == 0xFE0E || cp == 0xFE0F || 0x1F3FB <= cp <= 0x1F3FF || cp == 0x200D
    ensures IsZWJ(cp) <==> cp == 0x200D
    ensures IsRegionalIndicator(cp) <==> 0x1F1E6 <= cp <= 0x1F1FF
  {}

  // ---------- the rule on runes ----------

  // Where the loop of utf8NextCharLen stops when it is about to read rune k; ri is its `isRI`.
  function ScanNext(rs: seq<Rune>, k: nat, ri: bool): (e: nat)
    requires k <= |rs|
    ensures k <= e <= |rs|
    decreases |rs| - k
  {
    if k == |rs| then k
    else if IsZWJ(rs[k]) && k + 1 < |rs| then ScanNext(rs, k + 2, ri)
    else if IsExtend(rs[k]) then ScanNext(rs, k + 1, ri)
    else if ri && IsRegionalIndicator(rs[k]) then ScanNext(rs, k + 1, false)
    else k
  }

  // The end of the cluster that starts at rune k.
  function NextEnd(rs: seq<Rune>, k: nat): (e: nat)
    requires k < |rs|
    ensures k < e <= |rs|
  {
    ScanNext(rs, k + 1, IsRegionalIndicator(rs[k]))
  }

  // Where the loop of utf8PrevCharLen stops when the leftmost rune it has taken is k.
  function ScanPrev(rs: seq<Rune>, k: nat): (b: nat)
    requires k < |rs|
    ensures b <= k
    decreases k
  {
    if k == 0 then 0
    else if IsZWJ(rs[k-1]) then (if k == 1 then 0 else ScanPrev(rs, k - 2))
    else if IsExtend(rs[k]) then ScanPrev(rs, k - 1)
    else if IsRegionalIndicator(rs[k]) && IsRegionalIndicator(rs[k-1]) then k - 1
    else k
  }

  // The start of the cluster that ends just before rune k.
  function PrevStart(rs: seq<Rune>, k: nat): (b: nat)
    requires 0 < k <= |rs|
    ensures b < k
  {
    ScanPrev(rs, k - 1)
  }

  // ---------- the rule on bytes ----------

  ghost function FirstCluster(rs: seq<Rune>): seq<Rune>
    requires rs != []
  {
    rs[..NextEnd(rs, 0)]
  }

  ghost function LastCluster(rs: seq<Rune>): seq<Rune>
    requires rs != []
  {
    rs[PrevStart(rs, |rs|)..]
  }

  // The byte length of the first cluster of the text from p on.
  ghost function NextLen(s: Bytes, p: nat): nat
    requires p <= |s| && WF(s[p..])
  {
    if p == |s| then 0 else Size(FirstCluster(Runes(s[p..])))
  }

  // The byte length of the last cluster of the text before p.
  ghost function PrevLen(s: Bytes, p: nat): nat
    requires p <= |s| && WF(s[..p])
  {
    if p == 0 then 0 else Size(LastCluster(Runes(s[..p])))
  }

  // The byte offset of rune k.
  ghost function Off(rs: seq<Rune>, k: nat): nat
    requires k <= |rs|
  {
    Size(rs[..k])
  }

  /** utf8NextCharLen */
  method NextCharLen(buf: Bytes, pos: nat, len: nat) returns (total: nat)
    requires len <= |buf|
    requires pos < len ==> WF(buf[pos..len])
    ensures total == if pos < len then NextLen(buf[..len], pos) else 0
  {
    hide *;
    if pos >= len {
      return 0;
    }
    ghost var rs := Runes(buf[pos..len]);
    ghost var k := 1;
    OffEnds(rs, buf[pos..len]);
    ReadAt(buf, pos, len, rs, 0);
    var (cp, cplen) := DecodeChar(buf, pos);
    total := cplen;
    var curpos := pos + cplen;
    var isRI := IsRegionalIndicator(cp);
    ScanNextStart(rs);
    while curpos < len
      invariant 0 < k <= |rs| && curpos == pos + total <= len && total == Off(rs, k)
      invariant ScanNext(rs, k, isRI) == NextEnd(rs, 0)
      decreases |rs| - k
    {
      ReadAt(buf, pos, len, rs, k);
      ScanNextStep(rs, k, isRI);
      var (nextcp, nextlen) := DecodeChar(buf, curpos);
      if IsZWJ(nextcp) && curpos + nextlen < len {
        total := total + nextlen;
        curpos := curpos + nextlen;
        ReadAt(buf, pos, len, rs, k + 1);
        var (joined, joinedlen) := DecodeChar(buf, curpos);
        total := total + joinedlen;
        curpos := curpos + joinedlen;
        k := k + 2;
      } else if IsExtend(nextcp) {
        total := total + nextlen;
        curpos := curpos + nextlen;
        k := k + 1;
      } else if isRI && IsRegionalIndicator(nextcp) {
        total := total + nextlen;
        curpos := curpos + nextlen;
        isRI := false;
        k := k + 1;
      } else {
        break;
      }
    }
    ScanNextStep(rs, k, isRI);
    NextLenMeans(buf, pos, len, rs);
  }

  // What the forward loop reads at rune k of the well-formed range buf[pos..len].
  lemma ReadAt(buf: Bytes, pos: nat, len: nat, rs: seq<Rune>, k: nat)
    requires pos <= len <= |buf| && buf[pos..len] == Encode(rs)
    requires k <= |rs| && pos + Off(rs, k) < len
    ensures k < |rs| && Off(rs, k + 1) == Off(rs, k) + |Encode1(rs[k])|
    ensures var at := pos + Off(rs, k);
            && at + ByteLen(buf[at]) == at + |Encode1(rs[k])| <= len
            && DecodeChar(buf, at) == (rs[k], |Encode1(rs[k])|)
            && (at + |Encode1(rs[k])| < len <==> k + 1 < |rs|)
  {
    hide Encode1, Encode;
    WholeText(rs, k);
    EncodeAt(rs, k);
    WholeText(rs, k + 1);
    var pre, post := buf[..pos] + Encode(rs[..k]), Encode(rs[k+1..]) + buf[len..];
    assert buf == buf[..pos] + Encode(rs) + buf[len..];
    assert buf == pre + Encode1(rs[k]) + post;
    DecodeInvertsEncode(pre, rs[k], post);
  }

  lemma OffEnds(rs: seq<Rune>, s: Bytes)
    requires Encode(rs) == s
    ensures Off(rs, 0) == 0 && Off(rs, |rs|) == |s|
    ensures s != [] ==> rs != []
  {
    assert rs[..|rs|] == rs;
  }

  lemma ScanNextStart(rs: seq<Rune>)
    requires rs != []
    ensures NextEnd(rs, 0) == ScanNext(rs, 1, IsRegionalIndicator(rs[0]))
  {}

  lemma ScanNextStep(rs: seq<Rune>, k: nat, ri: bool)
    requires k <= |rs|
    ensures ScanNext(rs, k, ri) ==
            if k == |rs| then k
            else if IsZWJ(rs[k]) && k + 1 < |rs| then ScanNext(rs, k + 2, ri)
            else if IsExtend(rs[k]) then ScanNext(rs, k + 1, ri)
            else if ri && IsRegionalIndicator(rs[k]) then ScanNext(rs, k + 1, false)
            else k
    ensures k < |rs| ==> Off(rs, k) < Off(rs, |rs|)
  {
    WholeText(rs, k);
    assert rs[..|rs|] == rs;
  }

  lemma NextLenMeans(buf: Bytes, pos: nat, len: nat, rs: seq<Rune>)
    requires pos < len <= |buf| && WF(buf[pos..len]) && rs == Runes(buf[pos..len]) && rs != []
    ensures WF(buf[..len][pos..]) && NextLen(buf[..len], pos) == Off(rs, NextEnd(rs, 0))
  {
    assert buf[pos..len] == buf[..len][pos..];
  }

  lemma WholeText(rs: seq<Rune>, k: nat)
    requires k <= |rs|
    ensures Size(rs[..k]) == Size(rs) <==> k == |rs|
    ensures Size(rs[..k]) <= Size(rs)
  {
    hide Encode1;
    EncodeSplit(rs, k);
    if k == |rs| {
      assert rs[..k] == rs;
    } else {
      EncodeStart(rs[k..]);
    }
  }

  /** utf8PrevCharLen */
  method PrevCharLen(buf: Bytes, pos: nat) returns (total: nat)
    requires pos <= |buf| && WF(buf[..pos])
    ensures total == PrevLen(buf, pos)
  {
    hide *;
    PrevLenAtStart(buf);
    if pos == 0 {
      return 0;
    }
    ghost var rs := Runes(buf[..pos]);
    OffEnds(rs, buf[..pos]);
    ghost var k := |rs| - 1;
    var cp, cplen := DecodePrev(buf, pos);
    PrevLenMeans(buf, pos, rs);
    ReadBack(buf, pos, rs, |rs|);
    total := cplen;
    var curpos := pos - cplen;
    while curpos > 0
      invariant 0 <= k < |rs| && cp == rs[k]
      invariant curpos == Off(rs, k) && curpos + total == pos
      invariant ScanPrev(rs, k) == PrevStart(rs, |rs|)
      decreases curpos
    {
      ReadBack(buf, pos, rs, k);
      ScanPrevStep(rs, k);
      var prevcp, prevlen := DecodePrev(buf, curpos);
      if IsZWJ(prevcp) {
        total := total + prevlen;
        curpos := curpos - prevlen;
        k := k - 1;
        ReadBack(buf, pos, rs, k);
        prevcp, prevlen := DecodePrev(buf, curpos);
        if prevlen == 0 {
          break;
        }
        total := total + prevlen;
        curpos := curpos - prevlen;
        cp := prevcp;
        k := k - 1;
      } else if IsExtend(cp) {
        total := total + prevlen;
        curpos := curpos - prevlen;
        cp := prevcp;
        k := k - 1;
      } else if IsRegionalIndicator(cp) && IsRegionalIndicator(prevcp) {
        total := total + prevlen;
        curpos := curpos - prevlen;
        k := k - 1;
        break;
      } else {
        break;
      }
    }
    ReadBack(buf, pos, rs, k);
    if k == 0 { ScanPrevStep(rs, k); }
  }

  // What the backward loop reads just before rune k.
  lemma ReadBack(buf: Bytes, pos: nat, rs: seq<Rune>, k: nat)
    requires pos <= |buf| && buf[..pos] == Encode(rs) && k <= |rs|
    ensures Off(rs, k) <= pos && WF(buf[..Off(rs, k)]) && Runes(buf[..Off(rs, k)]) == rs[..k]
    ensures Off(rs, k) == 0 <==> k == 0
    ensures k > 0 ==> Off(rs, k) == Off(rs, k - 1) + |Encode1(rs[k-1])|
    ensures |Encode(rs)| == pos
  {
    hide Encode1, Encode;
    EncodeSplit(rs, k);
    assert buf[..Off(rs, k)] == buf[..pos][..Off(rs, k)];
    RunesUnique(rs[..k]);
    ReadBackStart(rs, k);
    if k > 0 { EncodeUpTo(rs, k - 1); }
  }

  lemma ReadBackStart(rs: seq<Rune>, k: nat)
    requires k <= |rs|
    ensures Size(rs[..k]) == 0 <==> k == 0
  {
    if k > 0 { EncodeStart(rs[..k]); }
  }

  lemma ScanPrevStep(rs: seq<Rune>, k: nat)
    requires k < |rs|
    ensures ScanPrev(rs, k) ==
            if k == 0 then 0
            else if IsZWJ(rs[k-1]) then (if k == 1 then 0 else ScanPrev(rs, k - 2))
            else if IsExtend(rs[k]) then ScanPrev(rs, k - 1)
            else if IsRegionalIndicator(rs[k]) && IsRegionalIndicator(rs[k-1]) then k - 1
            else k
  {}

  lemma PrevLenAtStart(buf: Bytes)
    ensures WF(buf[..0]) && PrevLen(buf, 0) == 0
  {
    WFEmpty();
  }

  lemma PrevLenMeans(buf: Bytes, pos: nat, rs: seq<Rune>)
    requires 0 < pos <= |buf| && WF(buf[..pos]) && rs == Runes(buf[..pos]) && rs != []
    ensures PrevStart(rs, |rs|) == ScanPrev(rs, |rs| - 1)
    ensures PrevLen(buf, pos) + Off(rs, PrevStart(rs, |rs|)) == pos
  {
    hide Encode, Encode1, ScanPrev;
    var b := PrevStart(rs, |rs|);
    EncodeSplit(rs, b);
  }

  // ---------- stepping stays inside the text, on character boundaries ----------

  /** One step right from a boundary moves, stays inside the text and ends on a boundary. */
  lemma NextLenStep(s: Bytes, p: nat)
    requires WF(s) && Bound(s, p) && p < |s|
    ensures WF(s[p..]) && 0 < NextLen(s, p) <= |s| - p && Bound(s, p + NextLen(s, p))
  {
    hide Encode1;
    WFCut(s, p);
    var rs := Runes(s[p..]);
    var e := NextEnd(rs, 0);
    WholeText(rs, e);
    ReadBackStart(rs, e);
    RuneIndexIsBound(rs, e);
  }

  /** One step left from a boundary moves, stays inside the text and ends on a boundary. */
  lemma PrevLenStep(s: Bytes, p: nat)
    requires WF(s) && Bound(s, p) && 0 < p
    ensures WF(s[..p]) && 0 < PrevLen(s, p) <= p && Bound(s, p - PrevLen(s, p))
  {
    hide Encode1;
    WFCut(s, p);
    var rs := Runes(s[..p]);
    var b := PrevStart(rs, |rs|);
    EncodeSplit(rs, b);
    ReadBackStart(rs[b..], |rs| - b);
    assert rs[b..][..|rs| - b] == rs[b..];
    RuneIndexIsBound(rs, b);
    WholeText(rs, b);
  }

  lemma PrevLenSame(s: Bytes, p: nat)
    requires p <= |s| && WF(s[..p])
    ensures WF(s[..p][..p]) && PrevLen(s[..p], p) == PrevLen(s, p)
  {
    assert s[..p][..p] == s[..p];
  }

  // ---------- left undoes right ----------

  // The cluster starts that stepping right from the beginning of the text reaches.
  function StepsTo(rs: seq<Rune>, n: nat): (k: nat)
    ensures k <= |rs|
  {
    if n == 0 then 0
    else
      var k := StepsTo(rs, n - 1);
      if k < |rs| then NextEnd(rs, k) else k
  }

  predicate NoFlags(rs: seq<Rune>) {
    forall i :: 0 <= i < |rs| ==> !IsRegionalIndicator(rs[i])
  }

  // Every rune that a scan passed extends its predecessor or is joined to it; the scan stops at a starter.
  lemma {:induction false} ScanNextInside(rs: seq<Rune>, k: nat)
    requires 0 < k <= |rs|
    ensures forall i :: k <= i < ScanNext(rs, k, false) ==> IsExtend(rs[i]) || IsZWJ(rs[i-1])
    ensures ScanNext(rs, k, false) < |rs| ==> !IsExtend(rs[ScanNext(rs, k, false)])
    decreases |rs| - k
  {
    if k < |rs| {
      if IsZWJ(rs[k]) && k + 1 < |rs| {
        ScanNextInside(rs, k + 2);
      } else if IsExtend(rs[k]) {
        ScanNextInside(rs, k + 1);
      }
    }
  }

  lemma StepsToStarter(rs: seq<Rune>, n: nat)
    requires NoFlags(rs) && n > 0 && StepsTo(rs, n) < |rs|
    ensures StepsTo(rs, n) > 0 && !IsExtend(rs[StepsTo(rs, n)])
  {
    ScanNextInside(rs, StepsTo(rs, n - 1) + 1);
  }

  // Scanning back from anywhere inside a cluster comes to its start and goes on as from there.
  lemma {:induction false} ScanPrevInside(rs: seq<Rune>, k: nat, i: nat)
    requires k <= i < |rs|
    requires k == 0 || !IsExtend(rs[k])
    requires forall j :: k < j <= i ==> IsExtend(rs[j]) || IsZWJ(rs[j-1])
    ensures ScanPrev(rs, i) == ScanPrev(rs, k)
    decreases i
  {
    if i > k {
      if IsZWJ(rs[i-1]) {
        if i >= 2 && i - 2 >= k { ScanPrevInside(rs, k, i - 2); }
      } else {
        ScanPrevInside(rs, k, i - 1);
      }
    }
  }

  lemma ClusterBack(rs: seq<Rune>, k: nat)
    requires NoFlags(rs) && k < |rs|
    requires k == 0 || !IsExtend(rs[k])
    ensures PrevStart(rs, NextEnd(rs, k)) == k <==> k == 0 || !IsZWJ(rs[k-1])
  {
    ScanNextInside(rs, k + 1);
    ScanPrevInside(rs, k, NextEnd(rs, k) - 1);
  }

  ghost predicate LeftUndoesRight(rs: seq<Rune>) {
    forall n: nat :: StepsTo(rs, n) < |rs| ==> PrevStart(rs, NextEnd(rs, StepsTo(rs, n))) == StepsTo(rs, n)
  }

  // No cluster start that stepping reaches follows a joiner directly.
  ghost predicate NoStartAfterJoiner(rs: seq<Rune>) {
    forall n: nat :: 0 < StepsTo(rs, n) < |rs| ==> !IsZWJ(rs[StepsTo(rs, n) - 1])
  }

  lemma LeftUndoesRightAtStarts(rs: seq<Rune>)
    requires NoFlags(rs)
    ensures LeftUndoesRight(rs) <==> NoStartAfterJoiner(rs)
  {
    forall n: nat | StepsTo(rs, n) < |rs|
      ensures PrevStart(rs, NextEnd(rs, StepsTo(rs, n))) == StepsTo(rs, n)
              <==> StepsTo(rs, n) == 0 || !IsZWJ(rs[StepsTo(rs, n) - 1])
    {
      if n > 0 { StepsToStarter(rs, n); }
      ClusterBack(rs, StepsTo(rs, n));
    }
  }

  // The number of joiners directly before rune k.
  function JoinersBefore(rs: seq<Rune>, k: nat): (n: nat)
    requires k <= |rs|
    ensures n <= k
  {
    if k > 0 && IsZWJ(rs[k-1]) then 1 + JoinersBefore(rs, k - 1) else 0
  }

  // They go in pairs, each joiner with the one that it joins. A joiner at the start of the text joins nothing: it is
  // the first rune of its cluster.
  predicate Paired(rs: seq<Rune>, k: nat)
    requires k <= |rs|
  {
    var n := JoinersBefore(rs, k);
    (if n == k && k > 0 then n - 1 else n) % 2 == 0
  }

  // The joiners before a rune that extends nothing do not go in pairs: the last one joins that rune.
  predicate JoinersJoin(rs: seq<Rune>) {
    forall k :: 0 < k < |rs| && IsZWJ(rs[k-1]) && !IsExtend(rs[k]) ==> !Paired(rs, k)
  }

  lemma PairedNext(rs: seq<Rune>, k: nat)
    requires 0 < k < |rs| && Paired(rs, k)
    ensures IsZWJ(rs[k]) ==> !Paired(rs, k + 1) && (k + 1 < |rs| ==> Paired(rs, k + 2))
    ensures !IsZWJ(rs[k]) ==> Paired(rs, k + 1)
  {
    assert JoinersBefore(rs, k + 1) == if IsZWJ(rs[k]) then 1 + JoinersBefore(rs, k) else 0;
    if k + 1 < |rs| {
      assert JoinersBefore(rs, k + 2) == if IsZWJ(rs[k+1]) then 1 + JoinersBefore(rs, k + 1) else 0;
    }
  }

  // A scan stops at the first rune that extends nothing and before which the joiners go in pairs.
  lemma {:induction false} ScanPairs(rs: seq<Rune>, k: nat)
    requires 0 < k <= |rs| && Paired(rs, k)
    ensures var e := ScanNext(rs, k, false);
            && (e < |rs| ==> Paired(rs, e))
            && forall b :: k <= b < |rs| && !IsExtend(rs[b]) && Paired(rs, b) ==> e <= b
    decreases |rs| - k
  {
    hide Paired;
    if k < |rs| {
      PairedNext(rs, k);
      if IsZWJ(rs[k]) && k + 1 < |rs| {
        ScanPairs(rs, k + 2);
      } else if IsExtend(rs[k]) && !IsZWJ(rs[k]) {
        ScanPairs(rs, k + 1);
      }
    }
  }

  lemma PairedAfterStart(rs: seq<Rune>, n: nat)
    requires NoFlags(rs) && StepsTo(rs, n) < |rs|
    ensures Paired(rs, StepsTo(rs, n) + 1)
  {
    hide StepsTo;
    if n > 0 {
      StepsToStarter(rs, n);
    } else {
      StepsToZero(rs);
      assert JoinersBefore(rs, 0) == 0;
    }
  }

  lemma StepsToZero(rs: seq<Rune>)
    ensures StepsTo(rs, 0) == 0
  {
  }

  lemma StartsPaired(rs: seq<Rune>, n: nat)
    requires NoFlags(rs) && n > 0 && StepsTo(rs, n) < |rs|
    ensures Paired(rs, StepsTo(rs, n))
  {
    hide Paired;
    var k := StepsTo(rs, n - 1);
    PairedAfterStart(rs, n - 1);
    ScanPairs(rs, k + 1);
  }

  // Stepping reaches every such rune.
  lemma {:induction false} Reaches(rs: seq<Rune>, b: nat, n: nat) returns (m: nat)
    requires NoFlags(rs) && 0 < b < |rs| && !IsExtend(rs[b]) && Paired(rs, b) && StepsTo(rs, n) <= b
    ensures StepsTo(rs, m) == b
    decreases b - StepsTo(rs, n)
  {
    hide Paired;
    m := n;
    if StepsTo(rs, n) < b {
      PairedAfterStart(rs, n);
      ScanPairs(rs, StepsTo(rs, n) + 1);
      m := Reaches(rs, b, n + 1);
    }
  }

  lemma StartsIff(rs: seq<Rune>)
    requires NoFlags(rs)
    ensures NoStartAfterJoiner(rs) <==> JoinersJoin(rs)
  {
    hide Paired, StepsTo;
    if NoStartAfterJoiner(rs) {
      forall k | 0 < k < |rs| && IsZWJ(rs[k-1]) && !IsExtend(rs[k]) ensures !Paired(rs, k) {
        StepsToZero(rs);
        if Paired(rs, k) {
          var n := Reaches(rs, k, 0);
        }
      }
    } else {
      var n: nat :| 0 < StepsTo(rs, n) < |rs| && IsZWJ(rs[StepsTo(rs, n) - 1]);
      StepsToZero(rs);
      StepsToStarter(rs, n);
      StartsPaired(rs, n);
    }
  }

  /** Without flags, a step left undoes the step right at every reachable cluster start if and only if each run of
      joiners before a rune that extends nothing is of odd length, or of even length if the text starts with it. */
  lemma LeftUndoesRightIff(rs: seq<Rune>)
    requires NoFlags(rs)
    ensures LeftUndoesRight(rs) <==> JoinersJoin(rs)
  {
    hide *;
    LeftUndoesRightAtStarts(rs);
    StartsIff(rs);
  }

  predicate JoinersApart(rs: seq<Rune>) {
    && (rs != [] ==> !IsZWJ(rs[0]))
    && forall i :: 0 < i < |rs| ==> !(IsZWJ(rs[i-1]) && IsZWJ(rs[i]))
  }

  /** It is so in every text without flags, a leading joiner or two joiners in a row. */
  lemma LeftUndoesRightWhenJoinersApart(rs: seq<Rune>)
    requires NoFlags(rs) && JoinersApart(rs)
    ensures LeftUndoesRight(rs)
  {
    hide StepsTo, LeftUndoesRight;
    forall k | 0 < k < |rs| && IsZWJ(rs[k-1]) ensures !Paired(rs, k) {
      assert k > 1;
      assert JoinersBefore(rs, k - 1) == 0;
    }
    LeftUndoesRightIff(rs);
  }

  // ---------- the same on bytes ----------

  lemma {:induction false} ScanNextShift(rs: seq<Rune>, k: nat, j: nat, ri: bool)
    requires k + j <= |rs|
    ensures ScanNext(rs, k + j, ri) == k + ScanNext(rs[k..], j, ri)
    decreases |rs| - k - j
  {
    if k + j < |rs| {
      assert rs[k..][j] == rs[k + j];
      if IsZWJ(rs[k+j]) && k + j + 1 < |rs| {
        ScanNextShift(rs, k, j + 2, ri);
      } else if IsExtend(rs[k+j]) {
        ScanNextShift(rs, k, j + 1, ri);
      } else if ri && IsRegionalIndicator(rs[k+j]) {
        ScanNextShift(rs, k, j + 1, false);
      }
    }
  }

  lemma {:induction false} ScanPrevPrefix(rs: seq<Rune>, m: nat, k: nat)
    requires k < m <= |rs|
    ensures ScanPrev(rs[..m], k) == ScanPrev(rs, k)
    decreases k
  {
    if k > 0 {
      if IsZWJ(rs[k-1]) {
        if k > 1 { ScanPrevPrefix(rs, m, k - 2); }
      } else if IsExtend(rs[k]) {
        ScanPrevPrefix(rs, m, k - 1);
      }
    }
  }

  lemma SizeBetween(rs: seq<Rune>, k: nat, e: nat)
    requires k <= e <= |rs|
    ensures Size(rs[..e]) == Size(rs[..k]) + Size(rs[k..e])
  {
    hide Encode1, Encode;
    EncodeSplit(rs[..e], k);
    assert rs[..e][..k] == rs[..k] && rs[..e][k..] == rs[k..e];
  }

  // NextLen and PrevLen at a rune index of a text.
  lemma NextLenAt(rs: seq<Rune>, k: nat)
    requires k < |rs|
    ensures var s, p := Encode(rs), Size(rs[..k]);
            p < |s| && WF(s[p..]) && p + NextLen(s, p) == Size(rs[..NextEnd(rs, k)])
  {
    hide Encode, Encode1, ScanNext;
    var s, p := Encode(rs), Size(rs[..k]);
    EncodeSplit(rs, k);
    assert s[p..] == Encode(rs[k..]);
    WholeText(rs, k);
    RunesUnique(rs[k..]);
    NextEndShift(rs, k);
    SizeBetween(rs, k, NextEnd(rs, k));
  }

  lemma NextEndShift(rs: seq<Rune>, k: nat)
    requires k < |rs|
    ensures FirstCluster(rs[k..]) == rs[k..NextEnd(rs, k)]
  {
    ScanNextShift(rs, k, 1, IsRegionalIndicator(rs[k]));
  }

  lemma PrevLenAt(rs: seq<Rune>, k: nat)
    requires 0 < k <= |rs|
    ensures var s, p := Encode(rs), Size(rs[..k]);
            p <= |s| && WF(s[..p]) && PrevLen(s, p) <= p && p - PrevLen(s, p) == Size(rs[..PrevStart(rs, k)])
  {
    hide Encode, Encode1, LastCluster, PrevStart;
    var s, p, b := Encode(rs), Size(rs[..k]), PrevStart(rs, k);
    EncodeSplit(rs, k);
    assert s[..p] == Encode(rs[..k]);
    RunesUnique(rs[..k]);
    RunesBefore(rs, k);
    PrevStartPrefix(rs, k);
    SizeBetween(rs, b, k);
  }

  lemma RunesBefore(rs: seq<Rune>, k: nat)
    requires 0 < k <= |rs|
    ensures Size(rs[..k]) > 0
  {
    hide Encode1;
    assert rs[..k][0] == rs[0];
  }

  lemma PrevStartPrefix(rs: seq<Rune>, k: nat)
    requires 0 < k <= |rs|
    ensures LastCluster(rs[..k]) == rs[PrevStart(rs, k)..k]
  {
    hide ScanPrev;
    ScanPrevPrefix(rs, k, k - 1);
  }

  /** On bytes: in such a text the step left from where the step right ended has the same length. */
  lemma PrevLenUndoesNextLen(rs: seq<Rune>, n: nat)
    requires NoFlags(rs) && JoinersApart(rs) && StepsTo(rs, n) < |rs|
    ensures var s, p := Encode(rs), Size(rs[..StepsTo(rs, n)]);
            && p < |s| && WF(s[p..])
            && var q := p + NextLen(s, p);
               q <= |s| && WF(s[..q]) && PrevLen(s, q) == NextLen(s, p)
  {
    hide Encode, Encode1, NextLen, PrevLen, NextEnd, PrevStart;
    var k := StepsTo(rs, n);
    LeftUndoesRightWhenJoinersApart(rs);
    WholeText(rs, k);
    NextLenAt(rs, k);
    PrevLenAt(rs, NextEnd(rs, k));
  }

  /** Why flags are left out: of three regional indicators the right step makes a pair and a single,
      the left step from the end makes a pair of the last two. */
  lemma ThreeFlagsDisagree(f: Rune)
    requires IsRegionalIndicator(f)
    ensures StepsTo([f, f, f], 1) == 2 && NextEnd([f, f, f], 2) == 3 && PrevStart([f, f, f], 3) == 1
  {
    var rs := [f, f, f];
    assert ScanNext(rs, 2, false) == 2;
    assert NextEnd(rs, 0) == 2;
    assert StepsTo(rs, 0) == 0;
  }
}
