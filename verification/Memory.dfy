/** memmove and memcpy on a byte array, and what they make of a text kept at its start. */
module Memory {
  import opened Utf8

  // s with c written over it at p.
  function Over(s: Bytes, p: nat, c: Bytes): (t: Bytes)
    requires p + |c| <= |s|
    ensures |t| == |s|
  {
    s[..p] + c + s[p + |c|..]
  }

  // To be s with c written over it at p is to agree with them byte by byte.
  lemma IsOver(t: Bytes, s: Bytes, p: nat, c: Bytes)
    requires p + |c| <= |s| == |t|
    requires forall i :: 0 <= i < p ==> t[i] == s[i]
    requires forall i :: 0 <= i < |c| ==> t[p + i] == c[i]
    requires forall i :: p + |c| <= i < |s| ==> t[i] == s[i]
    ensures t == Over(s, p, c)
  {
    assert t[p..p + |c|] == c;
    InThree(t, p, p + |c|);
    assert t[..p] == s[..p];
    assert t[p + |c|..] == s[p + |c|..];
  }

  method MemMove(a: array<Byte>, dst: nat, src: nat, n: nat)
    requires src + n <= a.Length && dst + n <= a.Length
    modifies a
    ensures a[..] == Over(old(a[..]), dst, old(a[..])[src..src + n])
  {
    hide Over;
    ghost var s := a[..];
    forall i | 0 <= i < n { a[dst + i] := a[src + i]; }
    IsOver(a[..], s, dst, s[src..src + n]);
  }

  method MemCpy(a: array<Byte>, dst: nat, c: Bytes)
    requires dst + |c| <= a.Length
    modifies a
    ensures a[..] == Over(old(a[..]), dst, c)
  {
    hide Over;
    ghost var s := a[..];
    forall i | 0 <= i < |c| { a[dst + i] := c[i]; }
    IsOver(a[..], s, dst, c);
  }

  // The same copy, at the end of what has been written so far.
  method Append(a: array<Byte>, at: nat, c: Bytes)
    requires at + |c| <= a.Length
    modifies a
    ensures a[..][..at + |c|] == old(a[..][..at]) + c
  {
    hide Over;
    OverExtends(a[..], at, c);
    MemCpy(a, at, c);
  }

  lemma OverExtends(s: Bytes, at: nat, c: Bytes)
    requires at + |c| <= |s|
    ensures Over(s, at, c)[..at + |c|] == s[..at] + c
  {}

  lemma InThree(s: Bytes, p: nat, q: nat)
    requires p <= q <= |s|
    ensures s == s[..p] + s[p..q] + s[q..]
  {}

  // Moving the tail of the text up and writing c into the gap inserts c.
  lemma OverInserts(s: Bytes, len: nat, p: nat, c: Bytes)
    requires p <= len && len + |c| <= |s|
    ensures Over(Over(s, p + |c|, s[p..len]), p, c)[..len + |c|] == s[..len][..p] + c + s[..len][p..]
  {
    var t := Over(s, p + |c|, s[p..len]);
    assert t[..p] == s[..p];
    assert t[p + |c|..len + |c|] == s[p..len];
    var u := Over(t, p, c);
    assert u[p + |c|..len + |c|] == t[p + |c|..len + |c|];
    InThree(u[..len + |c|], p, p + |c|);
    assert s[..len][..p] == s[..p] && s[..len][p..] == s[p..len];
  }

  lemma OverAppends(s: Bytes, len: nat, c: Bytes)
    requires len + |c| <= |s|
    ensures Over(s, len, c)[..len + |c|] == s[..len][..len] + c + s[..len][len..]
  {}

  // Moving the tail from q down to p deletes what is between.
  lemma OverDeletes(s: Bytes, len: nat, p: nat, q: nat)
    requires p <= q <= len <= |s|
    ensures Over(s, p, s[q..len])[..len - (q - p)] == s[..len][..p] + s[..len][q..]
  {
    assert s[..len][..p] == s[..p] && s[..len][q..] == s[q..len];
  }

  // Two neighbouring pieces changed round through a copy of the second.
  lemma OverExchanges(s: Bytes, len: nat, p: nat, m: nat, q: nat)
    requires p <= m <= q <= len <= |s|
    ensures var b, t := s[m..q], s[..len];
            Over(Over(s, p + |b|, s[p..m]), p, b)[..len] == t[..p] + t[m..q] + t[p..m] + t[q..]
  {
    var a, b, t := s[p..m], s[m..q], s[..len];
    assert t[..p] == s[..p] && t[m..q] == b && t[p..m] == a && t[q..] == s[q..len];
    var u := Over(s, p + |b|, a);
    assert u[..p] == s[..p];
    assert u[p + |b|..] == a + s[q..];
    assert Over(u, p, b) == s[..p] + b + (a + s[q..]);
  }

  lemma OverTail(s: Bytes, len: nat, p: nat, m: nat, q: nat)
    requires p <= m <= q <= len < |s|
    ensures Over(Over(s, p + (q - m), s[p..m]), p, s[m..q])[len] == s[len]
  {}

  // A byte written at or after the end of the text does not show in it.
  lemma OverAfter(s: Bytes, len: nat, i: nat, b: Byte)
    requires len <= i < |s|
    ensures s[i := b][..len] == s[..len]
  {}
}
