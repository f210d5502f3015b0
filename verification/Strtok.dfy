/** `CspArch::strtok_r`: the resumable in-place tokenizer, against the declarative
    tokenization of the string into its maximal runs of non-delimiter bytes. */
module Strtok {
  import opened Bytes

  /** The caller's `*saveptr`. */
  class SavePtr {
    var p: Ptr
    constructor ()
      ensures p == Null
    {
      p := Null;
    }
  }

  // ---------------------------------------------------------------- C strings in memory

  ghost predicate Terminated(m: seq<byte>, p: nat) {
    exists k :: p <= k < |m| && m[k] == 0
  }

  /** `q` is the first position from `p` whose byte lies in `S`. */
  ghost predicate IsFirst(m: seq<byte>, p: nat, S: set<byte>, q: nat) {
    p <= q < |m| && m[q] in S && forall k :: p <= k < q ==> m[k] !in S
  }

  lemma {:induction false} FirstExists(m: seq<byte>, p: nat, S: set<byte>)
    requires Terminated(m, p) && 0 in S
    ensures exists q :: IsFirst(m, p, S, q)
    decreases |m| - p
  {
    if m[p] in S {
      assert IsFirst(m, p, S, p);
    } else {
      FirstExists(m, p + 1, S);
      var q :| IsFirst(m, p + 1, S, q);
      assert IsFirst(m, p, S, q);
    }
  }

  /** The first position from `p` whose byte lies in `S`. */
  ghost function First(m: seq<byte>, p: nat, S: set<byte>): (q: nat)
    requires Terminated(m, p) && 0 in S
    ensures IsFirst(m, p, S, q)
    ensures forall q' :: IsFirst(m, p, S, q') ==> q' == q
  {
    FirstExists(m, p, S);
    var q :| IsFirst(m, p, S, q);
    q
  }

  /** Position of the first NUL at or after `p`. */
  ghost function StrEnd(m: seq<byte>, p: nat): nat
    requires Terminated(m, p)
  {
    First(m, p, {0})
  }

  /** The bytes a reader of the C string at `p` sees. */
  ghost function CStr(m: seq<byte>, p: nat): seq<byte>
    requires Terminated(m, p)
  {
    m[p..StrEnd(m, p)]
  }

  /** The set of delimiter bytes a C string denotes. */
  ghost function Delims(d: seq<byte>): (r: set<byte>)
    requires Terminated(d, 0)
    ensures 0 !in r
  {
    set k | 0 <= k < StrEnd(d, 0) :: d[k]
  }

  /** `m` begins with the C string `s`: its bytes, none of them NUL, and a NUL. */
  ghost predicate HoldsString(m: seq<byte>, s: seq<byte>) {
    |s| < |m| && m[..|s|] == s && m[|s|] == 0 && 0 !in s
  }

  /** Whatever follows the NUL, readers see `s`, and as delimiters it denotes just its bytes. */
  lemma StringIs(m: seq<byte>, s: seq<byte>)
    requires HoldsString(m, s)
    ensures Terminated(m, 0) && StrEnd(m, 0) == |s| && CStr(m, 0) == s
    ensures Delims(m) == set c | c in s
  {
    assert forall k :: 0 <= k < |s| ==> m[k] == s[k];
    assert IsFirst(m, 0, {0}, |s|);
    forall c: byte
      ensures c in Delims(m) <==> c in s
    {
      if c in s {
        var k :| 0 <= k < |s| && s[k] == c;
        assert m[k] == c;
      }
    }
  }

  /** In particular for a buffer put together so. */
  lemma DelimsOf(t: seq<byte>, rest: seq<byte>)
    requires 0 !in t
    ensures Terminated(t + [0] + rest, 0) && Delims(t + [0] + rest) == set c | c in t
  {
    assert HoldsString(t + [0] + rest, t);
    StringIs(t + [0] + rest, t);
  }

  // ---------------------------------------------------------------- one call, as a function

  /** First position from `p` that is not a delimiter (possibly the NUL). */
  ghost function SkipDelims(m: seq<byte>, p: nat, D: set<byte>): nat
    requires Terminated(m, p) && 0 !in D
  {
    First(m, p, (set c: byte | c !in D))
  }

  /** First position from `p` that ends a token: a delimiter or the NUL. */
  ghost function TokenEnd(m: seq<byte>, p: nat, D: set<byte>): nat
    requires Terminated(m, p)
  {
    First(m, p, D + {0})
  }

  datatype Outcome = Outcome(mem: seq<byte>, token: Ptr, save: Ptr)

  ghost predicate Readable(m: seq<byte>, p: Ptr) {
    p.At? ==> Terminated(m, p.addr)
  }

  /** What one call does to the memory, the returned pointer and `*saveptr`. */
  ghost function NextToken(m: seq<byte>, p: Ptr, D: set<byte>): (o: Outcome)
    requires Readable(m, p) && 0 !in D
    ensures |o.mem| == |m| && Readable(o.mem, o.save)
  {
    if p.Null? then Outcome(m, Null, Null)
    else
      var b := SkipDelims(m, p.addr, D);
      if m[b] == 0 then Outcome(m, Null, Null)
      else
        var last := StrEnd(m, p.addr);
        assert m[last] == 0;
        var e := TokenEnd(m, b, D);
        if m[e] == 0 then Outcome(m, At(b), At(e))
        else
          assert m[e := 0][last] == 0;
          Outcome(m[e := 0], At(b), At(e + 1))
  }

  /** `b..e` is the next token from `p`: delimiters before it, none in it, one or the NUL behind. */
  ghost predicate NextRun(m: seq<byte>, p: nat, D: set<byte>, b: nat, e: nat) {
    && p <= b < e < |m|
    && (forall k :: p <= k < b ==> m[k] in D)
    && (forall k :: b <= k < e ==> m[k] !in D && m[k] != 0)
    && (m[e] in D || m[e] == 0)
  }

  /** One call in plain terms: null and nothing written if there is no token; otherwise its start,
      a NUL at its end, and the place behind that NUL, or the old NUL itself, for the next call. */
  lemma NextTokenPlainly(m: seq<byte>, p: nat, D: set<byte>)
    requires Terminated(m, p) && 0 !in D
    ensures var o := NextToken(m, At(p), D);
            match o.token
            case Null =>
              o.mem == m && o.save == Null && forall b: nat, e: nat :: !NextRun(m, p, D, b, e)
            case At(b) =>
              exists e: nat ::
                NextRun(m, p, D, b, e) && o.mem == m[e := 0] && o.save == At(if m[e] == 0 then e else e + 1)
  {
    var b := SkipDelims(m, p, D);
    if m[b] != 0 {
      assert m[StrEnd(m, p)] == 0;
      var e := TokenEnd(m, b, D);
      assert NextRun(m, p, D, b, e);
      assert m[e] == 0 ==> m[e := 0] == m;
    } else {
      assert forall k :: p <= k < b ==> m[k] in D;
      forall b': nat, e': nat
        ensures !NextRun(m, p, D, b', e')
      {
        if p <= b' < b { assert m[b'] in D; }
      }
    }
  }

  // ---------------------------------------------------------------- the code

  /** Is `c` a delimiter?  The scan the source writes out inside both loops of `strtok_r`. */
  method IsDelimiter(c: byte, delim: array<byte>) returns (isDelim: bool)
    requires Terminated(delim[..], 0)
    ensures isDelim <==> c in Delims(delim[..])
    ensures isDelim <==> exists k :: 0 <= k < delim.Length && delim[k] == c && 0 !in delim[..k + 1]
  {
    ghost var last := StrEnd(delim[..], 0);
    var d := 0;
    while delim[d] != 0
      invariant 0 <= d <= last
      invariant forall k :: 0 <= k < d ==> delim[k] != c
      decreases last - d
    {
      if c == delim[d] {
        assert c == delim[..][d];
        return true;
      }
      d := d + 1;
    }
    return false;
  }

  /** The first loop of `strtok_r`: skip leading delimiters. */
  method SkipLeading(buf: array<byte>, p: nat, delim: array<byte>) returns (str: nat)
    requires Terminated(buf[..], p) && Terminated(delim[..], 0)
    ensures str == SkipDelims(buf[..], p, Delims(delim[..]))
  {
    ghost var D := Delims(delim[..]);
    ghost var last := StrEnd(buf[..], p);
    str := p;
    while buf[str] != 0
      invariant p <= str <= last
      invariant forall k :: p <= k < str ==> buf[k] in D
      decreases last - str
    {
      var isDelim := IsDelimiter(buf[str], delim);
      if !isDelim {
        break;
      }
      str := str + 1;
    }
    assert IsFirst(buf[..], p, (set c: byte | c !in D), str);
  }

  /** The second loop of `strtok_r`: find the end of the token, overwrite the delimiter there
      with NUL, and return where the next call resumes. */
  method CutToken(buf: array<byte>, first: nat, delim: array<byte>) returns (str: nat)
    requires buf != delim
    requires Terminated(buf[..], first) && Terminated(delim[..], 0)
    modifies buf
    ensures var e := TokenEnd(old(buf[..]), first, old(Delims(delim[..])));
            if old(buf[..])[e] == 0 then buf[..] == old(buf[..]) && str == e
            else buf[..] == old(buf[..])[e := 0] && str == e + 1
  {
    ghost var D := Delims(delim[..]);
    ghost var last := StrEnd(buf[..], first);
    str := first;
    while buf[str] != 0
      invariant first <= str <= last
      invariant forall k :: first <= k < str ==> buf[k] !in D + {0}
      invariant buf[..] == old(buf[..])
      decreases last - str
    {
      var isDelim := IsDelimiter(buf[str], delim);
      if isDelim {
        assert IsFirst(buf[..], first, D + {0}, str);
        buf[str] := 0;
        str := str + 1;
        return;
      }
      str := str + 1;
    }
    assert IsFirst(buf[..], first, D + {0}, str);
  }

  method StrtokR(buf: array<byte>, s: Ptr, delim: array<byte>, saveptr: SavePtr) returns (token: Ptr)
    requires buf != delim
    requires Terminated(delim[..], 0)
    requires Readable(buf[..], if s.Null? then saveptr.p else s)
    modifies buf, saveptr
    ensures delim[..] == old(delim[..])
    ensures Outcome(buf[..], token, saveptr.p)
         == NextToken(old(buf[..]), if s.Null? then old(saveptr.p) else s, Delims(delim[..]))
  {
    var str := if s.Null? then saveptr.p else s;
    if str.Null? {
      return Null;
    }
    var first := SkipLeading(buf, str.addr, delim);
    if buf[first] == 0 {
      saveptr.p := Null;
      return Null;
    }
    assert buf[..][StrEnd(buf[..], str.addr)] == 0;
    token := At(first);
    var next := CutToken(buf, first, delim);
    saveptr.p := At(next);
  }
}
