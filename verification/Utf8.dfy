/** UTF-8 as the line editor reads it: byte classes, decoding forwards and backwards, and the
    encoding of section 3 of RFC 3629 that both directions invert.
    The C code tests bytes with masks; `c & 0xE0 == 0xC0` is the range 0xC0..0xDF, `c & 0x3F` is `c % 64`. */
module Utf8 {

  type Byte = b: int | 0 <= b < 256
  type Bytes = seq<Byte>

  // A Unicode code point. RFC 3629 encodes all of these but the surrogates 0xD800..0xDFFF; the code under
  // proof does not single those out, so what is shown here covers every text of RFC 3629 and a little more.
  type Rune = r: int | 0 <= r < 0x11_0000

  const LF: Byte := 10
  const CR: Byte := 13
  const ESC: Byte := 27
  const SPACE: Byte := 32
  const BRACKET: Byte := 0x5b

  // A continuation byte, 10xxxxxx.
  predicate IsCont(b: Byte) {
    0x80 <= b < 0xC0
  }

  /** The encoding of section 3 of RFC 3629. */
  function Encode1(r: Rune): (e: Bytes)
    ensures 1 <= |e| <= 4
    ensures !IsCont(e[0])
    ensures forall i :: 1 <= i < |e| ==> IsCont(e[i])
  {
    var r1 := r / 64;       // r >> 6
    var r2 := r1 / 64;      // r >> 12
    var r3 := r2 / 64;      // r >> 18
    if r < 0x80 then [r]
    else if r < 0x800 then [0xC0 + r1, 0x80 + r % 64]
    else if r < 0x1_0000 then [0xE0 + r2, 0x80 + r1 % 64, 0x80 + r % 64]
    else [0xF0 + r3, 0x80 + r2 % 64, 0x80 + r1 % 64, 0x80 + r % 64]
  }

  function Encode(rs: seq<Rune>): Bytes {
    if rs == [] then [] else Encode1(rs[0]) + Encode(rs[1..])
  }

  // The number of bytes that a text of runes takes.
  function Size(rs: seq<Rune>): nat {
    |Encode(rs)|
  }

  ghost predicate WF(s: Bytes) {
    exists rs :: Encode(rs) == s
  }

  ghost function Runes(s: Bytes): (rs: seq<Rune>)
    requires WF(s)
    ensures Encode(rs) == s
  {
    var rs :| Encode(rs) == s; rs
  }

  // p does not split a character: nothing follows, or what follows is not a continuation byte.
  predicate Bound(s: Bytes, p: nat) {
    p == |s| || (p < |s| && !IsCont(s[p]))
  }

  /** utf8ByteLen */
  function ByteLen(c: Byte): (n: nat) {
    if c < 0x80 then 1
    else if 0xC0 <= c < 0xE0 then 2
    else if 0xE0 <= c < 0xF0 then 3
    else if 0xF0 <= c < 0xF8 then 4
    else 1
  }

  // The payload of a continuation byte, `c & 0x3F`.
  function Low6(c: Byte): int {
    c % 64
  }

  /** utf8DecodeChar: the code point whose encoding starts at s[i], and its length. */
  function DecodeChar(s: Bytes, i: nat): (int, nat)
    requires i < |s| && i + ByteLen(s[i]) <= |s|
  {
    var c: int := s[i];
    if c < 0x80 then (c, 1)
    else if 0xC0 <= c < 0xE0 then (c % 32 * 64 + Low6(s[i+1]), 2)
    else if 0xE0 <= c < 0xF0 then (c % 16 * 4096 + Low6(s[i+1]) * 64 + Low6(s[i+2]), 3)
    else if 0xF0 <= c < 0xF8 then (c % 8 * 262144 + Low6(s[i+1]) * 4096 + Low6(s[i+2]) * 64 + Low6(s[i+3]), 4)
    else (c, 1)
  }

  // The base-64 digits of a code point give it back.
  lemma Digits(r: Rune)
    ensures var r1 := r / 64; var r2 := r1 / 64; var r3 := r2 / 64;
            && r == r1 * 64 + r % 64
            && r == r2 * 4096 + r1 % 64 * 64 + r % 64
            && r == r3 * 262144 + r2 % 64 * 4096 + r1 % 64 * 64 + r % 64
  {}

  lemma DecodeEncoded(r: Rune)
    ensures ByteLen(Encode1(r)[0]) == |Encode1(r)| && DecodeChar(Encode1(r), 0) == (r, |Encode1(r)|)
  {
    Digits(r);
    if r < 0x80 {
    } else if r < 0x800 {
      DecodeTwo(r / 64, r % 64);
    } else if r < 0x1_0000 {
      DecodeThree(r / 64 / 64, r / 64 % 64, r % 64);
    } else {
      DecodeFour(r / 64 / 64 / 64, r / 64 / 64 % 64, r / 64 % 64, r % 64);
    }
  }

  lemma DecodeTwo(a: int, b: int)
    requires 0 <= a < 32 && 0 <= b < 64
    ensures DecodeChar([0xC0 + a, 0x80 + b], 0) == (a * 64 + b, 2)
  {}

  lemma DecodeThree(a: int, b: int, c: int)
    requires 0 <= a < 16 && 0 <= b < 64 && 0 <= c < 64
    ensures DecodeChar([0xE0 + a, 0x80 + b, 0x80 + c], 0) == (a * 4096 + b * 64 + c, 3)
  {}

  lemma DecodeFour(a: int, b: int, c: int, d: int)
    requires 0 <= a < 8 && 0 <= b < 64 && 0 <= c < 64 && 0 <= d < 64
    ensures DecodeChar([0xF0 + a, 0x80 + b, 0x80 + c, 0x80 + d], 0) == (a * 262144 + b * 4096 + c * 64 + d, 4)
  {}

  /** Decoding inverts the encoding, whatever surrounds it. */
  lemma DecodeInvertsEncode(pre: Bytes, r: Rune, post: Bytes)
    ensures var s := pre + Encode1(r) + post;
            ByteLen(s[|pre|]) == |Encode1(r)| && DecodeChar(s, |pre|) == (r, |Encode1(r)|)
  {
    hide Encode1;
    DecodeEncoded(r);
    DecodeLocal(pre, Encode1(r), post);
  }

  // DecodeChar looks at the bytes of one character only.
  lemma DecodeLocal(pre: Bytes, e: Bytes, post: Bytes)
    requires e != [] && ByteLen(e[0]) <= |e|
    ensures DecodeChar(pre + e + post, |pre|) == DecodeChar(e, 0)
  {
    var s := pre + e + post;
    assert forall j :: 0 <= j < |e| ==> s[|pre| + j] == e[j];
    assert s[|pre| + 0] == e[0];
  }

  // ---------- texts of runes ----------

  lemma Assoc(a: Bytes, b: Bytes, c: Bytes)
    ensures (a + b) + c == a + (b + c)
  {}

  lemma {:induction false} EncodeConcat(a: seq<Rune>, b: seq<Rune>)
    ensures Encode(a + b) == Encode(a) + Encode(b)
  {
    hide Encode1;
    if a == [] {
      assert a + b == b;
    } else {
      EncodeConcat(a[1..], b);
      assert (a + b)[1..] == a[1..] + b;
      Assoc(Encode1(a[0]), Encode(a[1..]), Encode(b));
    }
  }

  lemma EncodeSingle(r: Rune)
    ensures Encode([r]) == Encode1(r)
  {
    hide Encode1;
    assert Encode([r][1..]) == [];
  }

  lemma EncodeFirst(rs: seq<Rune>)
    ensures rs == [] ==> Encode(rs) == []
    ensures rs != [] ==> Encode(rs) == Encode1(rs[0]) + Encode(rs[1..]) && rs == [rs[0]] + rs[1..]
  {
    hide Encode1;
  }

  lemma EncodeSplit(rs: seq<Rune>, k: nat)
    requires k <= |rs|
    ensures Encode(rs) == Encode(rs[..k]) + Encode(rs[k..])
  {
    assert rs == rs[..k] + rs[k..];
    EncodeConcat(rs[..k], rs[k..]);
  }

  // Cutting out rune k: what is before, the rune's own bytes, what is after.
  lemma EncodeAt(rs: seq<Rune>, k: nat)
    requires k < |rs|
    ensures Encode(rs) == Encode(rs[..k]) + Encode1(rs[k]) + Encode(rs[k+1..])
    ensures Encode(rs[..k+1]) == Encode(rs[..k]) + Encode1(rs[k])
    ensures Encode(rs[k..]) == Encode1(rs[k]) + Encode(rs[k+1..])
  {
    hide Encode1, Encode;
    EncodeNext(rs, k);
    EncodeUpTo(rs, k);
    EncodeSplit(rs, k);
    Assoc(Encode(rs[..k]), Encode1(rs[k]), Encode(rs[k+1..]));
  }

  lemma EncodeUpTo(rs: seq<Rune>, k: nat)
    requires k < |rs|
    ensures Encode(rs[..k+1]) == Encode(rs[..k]) + Encode1(rs[k])
  {
    hide Encode1, Encode;
    assert rs[..k+1] == rs[..k] + [rs[k]];
    EncodeSnoc(rs[..k], rs[k]);
  }

  lemma EncodeNext(rs: seq<Rune>, k: nat)
    requires k < |rs|
    ensures Encode(rs[k..]) == Encode1(rs[k]) + Encode(rs[k+1..])
  {
    hide Encode1;
    assert rs[k..][1..] == rs[k+1..];
  }

  lemma EncodeSnoc(rs: seq<Rune>, r: Rune)
    ensures Encode(rs + [r]) == Encode(rs) + Encode1(r)
  {
    hide Encode1, Encode;
    EncodeConcat(rs, [r]);
    EncodeSingle(r);
  }

  lemma EncodeStart(rs: seq<Rune>)
    requires rs != []
    ensures Encode(rs) != [] && !IsCont(Encode(rs)[0])
  {}

  /** The byte offsets that Bound accepts in a well-formed text are exactly those between its runes. */
  lemma {:induction false} BoundIsRuneIndex(rs: seq<Rune>, p: nat) returns (k: nat)
    requires Bound(Encode(rs), p)
    ensures k <= |rs| && p == Size(rs[..k])
  {
    hide Encode1;
    if p == 0 {
      k := 0;
    } else {
      var n := |Encode1(rs[0])|;
      assert forall i :: 0 <= i < n ==> Encode(rs)[i] == Encode1(rs[0])[i];
      var j := BoundIsRuneIndex(rs[1..], p - n);
      k := j + 1;
      assert rs[..k] == [rs[0]] + rs[1..][..j];
      assert rs[..k][1..] == rs[1..][..j];
    }
  }

  lemma RuneIndexIsBound(rs: seq<Rune>, k: nat)
    requires k <= |rs|
    ensures Bound(Encode(rs), Size(rs[..k]))
  {
    EncodeSplit(rs, k);
    if k < |rs| {
      EncodeStart(rs[k..]);
    } else {
      assert rs[..k] == rs;
    }
  }

  lemma {:induction false} EncodeInjective(a: seq<Rune>, b: seq<Rune>)
    requires Encode(a) == Encode(b)
    ensures a == b
  {
    hide Encode1;
    if a == [] || b == [] {
    } else {
      DecodeInvertsEncode([], a[0], Encode(a[1..]));
      DecodeInvertsEncode([], b[0], Encode(b[1..]));
      assert [] + Encode1(a[0]) + Encode(a[1..]) == Encode(a);
      assert [] + Encode1(b[0]) + Encode(b[1..]) == Encode(b);
      assert a[0] == b[0];
      assert Encode(a[1..]) == Encode(a)[|Encode1(a[0])|..];
      assert Encode(b[1..]) == Encode(b)[|Encode1(b[0])|..];
      EncodeInjective(a[1..], b[1..]);
    }
  }

  lemma RunesUnique(rs: seq<Rune>)
    ensures WF(Encode(rs)) && Runes(Encode(rs)) == rs
  {
    EncodeInjective(Runes(Encode(rs)), rs);
  }

  // ---------- well-formed byte texts ----------

  lemma WFEmpty()
    ensures WF([])
  {
    assert Encode([]) == [];
  }

  lemma WFConcat(a: Bytes, b: Bytes)
    requires WF(a) && WF(b)
    ensures WF(a + b) && Runes(a + b) == Runes(a) + Runes(b)
  {
    EncodeConcat(Runes(a), Runes(b));
    RunesUnique(Runes(a) + Runes(b));
  }

  lemma WFStart(s: Bytes)
    requires WF(s)
    ensures Bound(s, 0)
  {
    if s != [] { EncodeStart(Runes(s)); }
  }

  /** A well-formed text cut between two characters leaves two well-formed texts. */
  lemma WFCut(s: Bytes, p: nat)
    requires WF(s) && Bound(s, p)
    ensures WF(s[..p]) && WF(s[p..])
  {
    var rs := Runes(s);
    var k := BoundIsRuneIndex(rs, p);
    EncodeSplit(rs, k);
    assert s[..p] == Encode(rs[..k]) && s[p..] == Encode(rs[k..]);
  }

  lemma WFSlice(s: Bytes, p: nat, q: nat)
    requires WF(s) && Bound(s, p) && Bound(s, q) && p <= q
    ensures WF(s[p..q])
  {
    WFCut(s, p);
    WFCut(s[p..], q - p);
    assert s[p..][..q - p] == s[p..q];
  }

  // ---------- decoding in a text ----------

  /** Decoding forwards at a boundary p reads the next rune whole, stays inside the text, and stops at the
      next boundary q. Together with DecodePrev, whose result is the last rune before its position, the two
      directions agree at every boundary: a backward decode from q reads the same rune and returns to p. */
  lemma DecodeForward(s: Bytes, p: nat)
    requires WF(s) && Bound(s, p) && p < |s|
    ensures WF(s[..p]) && WF(s[p..]) && Runes(s[p..]) != []
    ensures var r := Runes(s[p..])[0];
            var q := p + |Encode1(r)|;
            && p + ByteLen(s[p]) == q <= |s| && Bound(s, q)
            && DecodeChar(s, p) == (r, |Encode1(r)|)
            && WF(s[..q]) && Runes(s[..q]) == Runes(s[..p]) + [r]
            && WF(s[q..]) && Runes(s[p..]) == [r] + Runes(s[q..])
  {
    hide Encode, Encode1, DecodeChar, ByteLen;
    WFCut(s, p);
    var rs := Runes(s[p..]);
    EncodeFirst(rs);
    var r := rs[0];
    var q := p + |Encode1(r)|;
    DecodeInvertsEncode(s[..p], r, Encode(rs[1..]));
    assert s == s[..p] + Encode1(r) + Encode(rs[1..]);
    assert s[q..] == Encode(rs[1..]);
    RunesUnique(rs[1..]);
    WFStart(s[q..]);
    EncodeSingle(r);
    assert s[..q] == s[..p] + Encode([r]);
    RunesUnique([r]);
    WFConcat(s[..p], Encode([r]));
  }

  /** utf8DecodePrev: the code point that ends just before pos, and its length. */
  method DecodePrev(s: Bytes, pos: nat) returns (cp: int, cplen: nat)
    requires pos <= |s| && WF(s[..pos])
    ensures pos == 0 ==> cp == 0 && cplen == 0
    ensures pos > 0 ==> var rs := Runes(s[..pos]);
                        rs != [] && cp == rs[|rs| - 1] && cplen == |Encode1(cp)|
  {
    hide Encode1;
    if pos == 0 {
      return 0, 0;
    }
    ghost var rs := Runes(s[..pos]);
    ghost var n := |rs| - 1;
    ghost var head, e := Encode(rs[..n]), Encode1(rs[n]);
    EncodeAt(rs, n);
    assert rs[n+1..] == [];
    assert s[..pos] == head + e;
    assert forall i :: |head| <= i < pos ==> s[i] == e[i - |head|];
    var i := pos - 1;
    while i > 0 && pos - i < 4 && IsCont(s[i])
      invariant |head| <= i < pos
      decreases i
    {
      assert s[|head|] == e[0];
      i := i - 1;
    }
    cplen := pos - i;
    DecodeInvertsEncode(head, rs[n], s[pos..]);
    assert s == head + e + s[pos..];
    cp := DecodeChar(s, i).0;
  }
}
