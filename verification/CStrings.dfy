/** The other C string primitives of `CspArch`: `strncpy`, `strnlen`, `strncasecmp`, and the
    `strncmp` that `export_arch!` provides. */
module CStrings {
  import opened Bytes
  import opened Strtok

  /** The bytes of the C string `s`, at most `n` of them. */
  ghost function Prefix(s: seq<byte>, n: nat): (r: seq<byte>)
    ensures |r| <= n && 0 !in r
  {
    if n == 0 || s == [] || s[0] == 0 then [] else [s[0]] + Prefix(s[1..], n - 1)
  }

  /** The string may be read up to its NUL or up to `n` bytes, whichever comes first. */
  ghost predicate Bounded(s: seq<byte>, n: nat) {
    n <= |s| || Terminated(s, 0)
  }

  lemma BoundedIf(s: seq<byte>, n: nat, k: nat)
    ensures n <= |s| || (k < |s| && s[k] == 0) ==> Bounded(s, n)
  {
  }

  lemma {:induction false} PrefixIs(s: seq<byte>, n: nat, k: nat)
    requires k <= n && k <= |s|
    requires forall i :: 0 <= i < k ==> s[i] != 0
    requires k == n || (k < |s| && s[k] == 0)
    ensures Prefix(s, n) == s[..k]
  {
    if k > 0 {
      PrefixIs(s[1..], n - 1, k - 1);
      assert s[..k] == [s[0]] + s[1..][..k - 1];
    }
  }

  /** What `strncpy` leaves in the first `n` bytes of its destination. */
  ghost function Padded(s: seq<byte>, n: nat): (r: seq<byte>)
    ensures |r| == n
  {
    Prefix(s, n) + Zeros(n - |Prefix(s, n)|)
  }

  /** Byte by byte: the string as far as it goes, and then zeros. */
  lemma {:induction false} PaddedAt(s: seq<byte>, n: nat, k: nat)
    requires k < n
    ensures Padded(s, n)[k] == if k < |s| && 0 !in s[..k + 1] then s[k] else 0
  {
    if s != [] && s[0] != 0 {
      assert forall j :: 0 <= j < |s| ==> s[..j + 1] == [s[0]] + s[1..][..j];
      if k > 0 {
        PaddedAt(s[1..], n - 1, k - 1);
        assert Padded(s, n) == [s[0]] + Padded(s[1..], n - 1);
        assert k < |s| ==> s[..k + 1] == [s[0]] + s[1..][..k];
      }
    } else if s != [] {
      assert k < |s| ==> s[..k + 1][0] == 0;
    }
  }

  method Strncpy(dest: array<byte>, src: array<byte>, n: nat)
    requires dest != src && n <= dest.Length && Bounded(src[..], n)
    modifies dest
    ensures dest[..] == Padded(src[..], n) + old(dest[..])[n..]
  {
    var i := 0;
    while i < n && src[i] != 0
      invariant 0 <= i <= n && i <= src.Length
      invariant forall k :: 0 <= k < i ==> src[k] != 0 && dest[k] == src[k]
      invariant dest[n..] == old(dest[..])[n..]
    {
      dest[i] := src[i];
      i := i + 1;
    }
    ghost var len := i;
    PrefixIs(src[..], n, len);
    while i < n
      invariant len <= i <= n
      invariant dest[..i] == src[..len] + Zeros(i - len)
      invariant dest[n..] == old(dest[..])[n..]
    {
      dest[i] := 0;
      i := i + 1;
    }
    assert dest[..] == dest[..n] + dest[n..];
  }

  method Strnlen(s: array<byte>, maxlen: nat) returns (len: nat)
    requires Bounded(s[..], maxlen)
    ensures len == |Prefix(s[..], maxlen)|
    ensures len <= maxlen && len <= s.Length && 0 !in s[..len]
    ensures len == maxlen || (len < s.Length && s[len] == 0)
  {
    len := 0;
    while len < maxlen && s[len] != 0
      invariant len <= maxlen && len <= s.Length
      invariant forall k :: 0 <= k < len ==> s[k] != 0
    {
      len := len + 1;
    }
    PrefixIs(s[..], maxlen, len);
  }

  /** Copying neither loses nor invents a byte of the prefix, so the copy has the same `strnlen`. */
  lemma PaddedKeepsPrefix(s: seq<byte>, n: nat, tail: seq<byte>)
    ensures Prefix(Padded(s, n) + tail, n) == Prefix(s, n)
  {
    var p := Prefix(s, n);
    PrefixIs(Padded(s, n) + tail, n, |p|);
  }

  // ---------------------------------------------------------------- comparison

  /** `u8::to_ascii_lowercase` */
  function Lower(c: byte): byte {
    if 65 <= c <= 90 then c + 32 else c
  }

  /** Each of the letters `A` to `Z` becomes its small letter, and nothing else changes. */
  lemma LowerIs(c: byte, i: nat)
    ensures i < 26 ==> Lower(65 + i) == 97 + i
    ensures !(65 <= c <= 90) ==> Lower(c) == c
    ensures 'A' as int == 65 && 'Z' as int == 90 && 'a' as int == 97 && 'z' as int == 122
  {
  }

  ghost function LowerAll(s: seq<byte>): (r: seq<byte>)
    ensures |r| == |s| && forall i :: 0 <= i < |s| ==> r[i] == Lower(s[i])
  {
    seq(|s|, i requires 0 <= i < |s| => Lower(s[i]))
  }

  /** Difference of the first bytes that differ, the end of a string counting as NUL. */
  ghost function Diff(a: seq<byte>, b: seq<byte>): int {
    if a == [] && b == [] then 0
    else if a == [] then -b[0]
    else if b == [] then a[0]
    else if a[0] != b[0] then a[0] - b[0]
    else Diff(a[1..], b[1..])
  }

  /** `Diff` may be read off at the first place where the two strings part. */
  lemma {:induction false} DiffAt(a: seq<byte>, b: seq<byte>, k: nat)
    requires k <= |a| && k <= |b| && a[..k] == b[..k]
    ensures Diff(a, b) == Diff(a[k..], b[k..])
  {
    if k > 0 {
      assert a[0] == a[..k][0] == b[0];
      assert a[1..][..k - 1] == a[..k][1..] && b[1..][..k - 1] == b[..k][1..];
      DiffAt(a[1..], b[1..], k - 1);
      assert a[1..][k - 1..] == a[k..] && b[1..][k - 1..] == b[k..];
    }
  }

  /** Both strings may be read up to a place `k` where the comparison is over: `n` bytes in, or
      at a difference, or at a NUL. */
  ghost predicate OverAt(s1: seq<byte>, s2: seq<byte>, n: nat, fold: byte -> byte, k: nat) {
    && k <= n && k <= |s1| && k <= |s2|
    && (k < n ==> k < |s1| && k < |s2| && (fold(s1[k]) != fold(s2[k]) || s1[k] == 0))
  }

  ghost predicate Comparable(s1: seq<byte>, s2: seq<byte>, n: nat, fold: byte -> byte) {
    exists k: nat :: OverAt(s1, s2, n, fold, k)
  }

  /** The comparison stops at `k`: the first place of a difference or a NUL, or `n`. */
  ghost predicate FirstStop(s1: seq<byte>, s2: seq<byte>, n: nat, fold: byte -> byte, k: nat) {
    && OverAt(s1, s2, n, fold, k)
    && forall i :: 0 <= i < k ==> s1[i] != 0 && s2[i] != 0 && fold(s1[i]) == fold(s2[i])
  }

  ghost function Stopped(s1: seq<byte>, s2: seq<byte>, n: nat, fold: byte -> byte, k: nat): int
    requires OverAt(s1, s2, n, fold, k)
  {
    if k == n then 0 else fold(s1[k]) as int - fold(s2[k]) as int
  }

  /** What makes two buffers comparable: `n` bytes of each, or a difference, or a NUL in both of
      them or in the first. */
  lemma ComparableIf(s1: seq<byte>, s2: seq<byte>, n: nat, k: nat)
    requires k < |s1| && k < |s2| && k < n
    ensures s1[k] != s2[k] || s1[k] == 0 ==> Comparable(s1, s2, n, AsIs)
    ensures Lower(s1[k]) != Lower(s2[k]) || s1[k] == 0 ==> Comparable(s1, s2, n, Lower)
    ensures n <= |s1| && n <= |s2| ==> Comparable(s1, s2, n, AsIs) && Comparable(s1, s2, n, Lower)
  {
    assert n <= |s1| && n <= |s2| ==> OverAt(s1, s2, n, AsIs, n) && OverAt(s1, s2, n, Lower, n);
    assert s1[k] != s2[k] || s1[k] == 0 ==> OverAt(s1, s2, n, AsIs, k);
    assert Lower(s1[k]) != Lower(s2[k]) || s1[k] == 0 ==> OverAt(s1, s2, n, Lower, k);
  }

  method Strncasecmp(s1: array<byte>, s2: array<byte>, n: nat) returns (r: int)
    requires Comparable(s1[..], s2[..], n, Lower)
    ensures r == Diff(LowerAll(Prefix(s1[..], n)), LowerAll(Prefix(s2[..], n)))
    ensures exists k :: FirstStop(s1[..], s2[..], n, Lower, k) && r == Stopped(s1[..], s2[..], n, Lower, k)
  {
    ghost var over: nat :| OverAt(s1[..], s2[..], n, Lower, over);
    for i := 0 to n
      invariant i <= over
      invariant forall k :: 0 <= k < i ==> s1[k] != 0 && s2[k] != 0 && Lower(s1[k]) == Lower(s2[k])
    {
      var c1, c2 := Lower(s1[i]), Lower(s2[i]);
      if c1 != c2 || c1 == 0 {
        PartAt(s1[..], s2[..], n, i);
        assert FirstStop(s1[..], s2[..], n, Lower, i);
        return c1 as int - c2 as int;
      }
    }
    PartAt(s1[..], s2[..], n, n);
    assert FirstStop(s1[..], s2[..], n, Lower, n);
    return 0;
  }

  lemma PartAt(s1: seq<byte>, s2: seq<byte>, n: nat, k: nat)
    requires k <= n && k <= |s1| && k <= |s2| && (k < n ==> k < |s1| && k < |s2|)
    requires forall i :: 0 <= i < k ==> s1[i] != 0 && s2[i] != 0 && Lower(s1[i]) == Lower(s2[i])
    requires k < n ==> Lower(s1[k]) != Lower(s2[k]) || s1[k] == 0
    ensures Diff(LowerAll(Prefix(s1, n)), LowerAll(Prefix(s2, n)))
         == if k == n then 0 else Lower(s1[k]) - Lower(s2[k])
  {
    var a, b := LowerAll(Prefix(s1, n)), LowerAll(Prefix(s2, n));
    PrefixFrom(s1, n, k);
    PrefixFrom(s2, n, k);
    LowerSame(s1, Prefix(s1, n), s2, Prefix(s2, n), k);
    hide Prefix, Terminated, Diff, LowerAll;
    DiffAt(a, b, k);
    DiffHead(a[k..], b[k..]);
  }

  lemma LowerSame(s1: seq<byte>, p: seq<byte>, s2: seq<byte>, q: seq<byte>, k: nat)
    requires k <= |p| && k <= |q| && k <= |s1| && k <= |s2|
    requires p[..k] == s1[..k] && q[..k] == s2[..k] && 0 !in p && 0 !in q
    requires forall i :: 0 <= i < k ==> Lower(s1[i]) == Lower(s2[i])
    ensures LowerAll(p)[..k] == LowerAll(q)[..k] && 0 !in LowerAll(p) && 0 !in LowerAll(q)
  {
    assert forall i :: 0 <= i < k ==> p[i] == p[..k][i] == s1[i] && q[i] == q[..k][i] == s2[i];
  }

  function Head(s: seq<byte>): byte {
    if s == [] then 0 else s[0]
  }

  lemma DiffHead(a: seq<byte>, b: seq<byte>)
    requires 0 !in a && 0 !in b
    ensures Head(a) != Head(b) || Head(a) == 0 ==> Diff(a, b) == Head(a) as int - Head(b) as int
  {
  }

  /** A prefix with `k` bytes known to be nonzero. */
  lemma {:induction false} PrefixFrom(s: seq<byte>, n: nat, k: nat)
    requires k <= n && k <= |s| && (k < n ==> k < |s|)
    requires forall i :: 0 <= i < k ==> s[i] != 0
    ensures k <= |Prefix(s, n)| && Prefix(s, n)[..k] == s[..k]
    ensures |Prefix(s, n)| == k <==> k == n || s[k] == 0
    ensures |Prefix(s, n)| > k ==> Prefix(s, n)[k] == s[k]
  {
    if k > 0 {
      PrefixFrom(s[1..], n - 1, k - 1);
    }
  }

  function AsIs(c: byte): byte {
    c
  }

  lemma PartAtExact(s1: seq<byte>, s2: seq<byte>, n: nat, k: nat)
    requires FirstStop(s1, s2, n, AsIs, k)
    ensures Diff(Prefix(s1, n), Prefix(s2, n)) == Stopped(s1, s2, n, AsIs, k)
  {
    PrefixFrom(s1, n, k);
    PrefixFrom(s2, n, k);
    assert s1[..k] == s2[..k];
    hide Prefix, Diff;
    DiffAt(Prefix(s1, n), Prefix(s2, n), k);
    DiffHead(Prefix(s1, n)[k..], Prefix(s2, n)[k..]);
  }

  /** `strncmp` of `export_arch!`: the same comparison without folding case. */
  method Strncmp(s1: array<byte>, s2: array<byte>, n: nat) returns (r: int)
    requires Comparable(s1[..], s2[..], n, AsIs)
    ensures r == Diff(Prefix(s1[..], n), Prefix(s2[..], n))
    ensures exists k :: FirstStop(s1[..], s2[..], n, AsIs, k) && r == Stopped(s1[..], s2[..], n, AsIs, k)
  {
    hide Prefix, Diff;
    ghost var over: nat :| OverAt(s1[..], s2[..], n, AsIs, over);
    var i := 0;
    while i < n
      invariant 0 <= i <= over
      invariant forall k :: 0 <= k < i ==> s1[k] != 0 && s1[k] == s2[k]
    {
      var a, b := s1[i], s2[i];
      if a != b {
        PartAtExact(s1[..], s2[..], n, i);
        return a as int - b as int;
      }
      if a == 0 {
        PartAtExact(s1[..], s2[..], n, i);
        return 0;
      }
      i := i + 1;
    }
    PartAtExact(s1[..], s2[..], n, n);
    return 0;
  }

  // ---------------------------------------------------------------- the order it defines

  /** Lexicographic order, stated by the place where the strings part. */
  ghost predicate LexLess(a: seq<byte>, b: seq<byte>) {
    exists k: nat :: PartsBelow(a, b, k)
  }

  ghost predicate PartsBelow(a: seq<byte>, b: seq<byte>, k: nat) {
    && k <= |a| && k < |b| && (k == |a| || a[k] < b[k])
    && forall i :: 0 <= i < k ==> a[i] == b[i]
  }

  /** The sign of the result is the lexicographic order; zero means equal. */
  lemma {:induction false} DiffSign(a: seq<byte>, b: seq<byte>)
    requires 0 !in a && 0 !in b
    ensures Diff(a, b) < 0 <==> LexLess(a, b)
    ensures Diff(a, b) == 0 <==> a == b
    ensures Diff(b, a) == -Diff(a, b)
  {
    if a != [] && b != [] && a[0] == b[0] {
      DiffSign(a[1..], b[1..]);
      assert a == [a[0]] + a[1..] && b == [b[0]] + b[1..];
      if LexLess(a, b) {
        var k: nat :| PartsBelow(a, b, k);
        assert PartsBelow(a[1..], b[1..], k - 1);
      }
      if LexLess(a[1..], b[1..]) {
        var k: nat :| PartsBelow(a[1..], b[1..], k);
        assert PartsBelow(a, b, k + 1);
      }
    } else {
      if b != [] && (a == [] || a[0] < b[0]) {
        assert PartsBelow(a, b, 0);
      }
    }
  }

  lemma {:induction false} DiffTransitive(a: seq<byte>, b: seq<byte>, c: seq<byte>)
    requires 0 !in a && 0 !in b && 0 !in c
    requires Diff(a, b) <= 0 && Diff(b, c) <= 0
    ensures Diff(a, c) <= 0
  {
    if a != [] && b != [] && c != [] && a[0] == b[0] == c[0] {
      DiffTransitive(a[1..], b[1..], c[1..]);
    }
  }

  /** The value `strncasecmp` returns, as a function of the two strings. */
  ghost function CaseCmp(s: seq<byte>, t: seq<byte>, n: nat): int {
    Diff(LowerAll(Prefix(s, n)), LowerAll(Prefix(t, n)))
  }

  /** For a fixed `n`, `strncasecmp` is a total preorder: reflexive, sign-antisymmetric,
      transitive, and its sign is the lexicographic order of the lowercased prefixes. */
  lemma CaseCmpIsTotalPreorder(s: seq<byte>, t: seq<byte>, u: seq<byte>, n: nat)
    ensures CaseCmp(s, s, n) == 0
    ensures CaseCmp(t, s, n) == -CaseCmp(s, t, n)
    ensures CaseCmp(s, t, n) <= 0 && CaseCmp(t, u, n) <= 0 ==> CaseCmp(s, u, n) <= 0
    ensures CaseCmp(s, t, n) < 0 <==> LexLess(LowerAll(Prefix(s, n)), LowerAll(Prefix(t, n)))
    ensures CaseCmp(s, t, n) == 0 <==> LowerAll(Prefix(s, n)) == LowerAll(Prefix(t, n))
  {
    var a, b, c := LowerAll(Prefix(s, n)), LowerAll(Prefix(t, n)), LowerAll(Prefix(u, n));
    DiffSign(a, b);
    DiffSign(a, a);
    if Diff(a, b) <= 0 && Diff(b, c) <= 0 {
      DiffTransitive(a, b, c);
    }
  }
}
