/** What a whole sequence of `strtok_r` calls does: the tokens are the maximal runs of
    non-delimiter bytes of the original string, and they stay readable to the end. */
module Tokenization {
  import opened Bytes
  import opened Strtok

  /** The bytes `[start, end)` of the original string. */
  datatype Span = Span(start: nat, end: nat)

  // ---------------------------------------------------------------- runs with a delimiter set per call

  datatype RunResult = RunResult(tokens: seq<Ptr>, mem: seq<byte>, save: Ptr)

  ghost predicate DelimSets(Ds: seq<set<byte>>) {
    forall i :: 0 <= i < |Ds| ==> 0 !in Ds[i]
  }

  /** One call from `p` and then null calls, one for each of the remaining delimiter sets. */
  ghost function Run(m: seq<byte>, p: Ptr, Ds: seq<set<byte>>): (r: RunResult)
    requires Readable(m, p) && DelimSets(Ds)
    ensures |r.tokens| == |Ds| && |r.mem| == |m|
    decreases |Ds|
  {
    if Ds == [] then RunResult([], m, p)
    else
      var o := NextToken(m, p, Ds[0]);
      var r := Run(o.mem, o.save, Ds[1..]);
      RunResult([o.token] + r.tokens, r.mem, r.save)
  }

  /** The next token after `p`, as a span; empty when there is none. */
  ghost function NextSpan(m: seq<byte>, p: nat, D: set<byte>): (s: Span)
    requires Terminated(m, p) && 0 !in D
    ensures p <= s.start <= s.end <= StrEnd(m, p)
    ensures s.start < s.end ==> 0 != m[s.start] && m[s.start] !in D
  {
    var b := SkipDelims(m, p, D);
    var last := StrEnd(m, p);
    assert m[last] == 0;
    Span(b, TokenEnd(m, b, D))
  }

  /** Where the call after a token ending at `e` resumes. */
  ghost function After(m: seq<byte>, e: nat): nat
    requires e < |m|
  {
    if m[e] == 0 then e else e + 1
  }

  ghost predicate Within(m: seq<byte>, spans: seq<Span>) {
    forall i :: 0 <= i < |spans| ==> spans[i].start < spans[i].end < |m|
  }

  /** The tokens read off the original string, with nothing written to it. */
  ghost function Plan(m: seq<byte>, p: nat, Ds: seq<set<byte>>): (plan: seq<Span>)
    requires Terminated(m, p) && DelimSets(Ds)
    ensures |plan| <= |Ds| && Within(m, plan)
    decreases |Ds|
  {
    if Ds == [] then []
    else
      var s := NextSpan(m, p, Ds[0]);
      if s.start == s.end then []
      else
        assert m[StrEnd(m, p)] == 0;
        [s] + Plan(m, After(m, s.end), Ds[1..])
  }

  lemma NextTokenIsSpan(m: seq<byte>, p: nat, D: set<byte>)
    requires Terminated(m, p) && 0 !in D
    ensures var o, s := NextToken(m, At(p), D), NextSpan(m, p, D);
            if s.start == s.end then o == Outcome(m, Null, Null)
            else o == Outcome(m[s.end := 0], At(s.start), At(After(m, s.end)))
  {
    var s := NextSpan(m, p, D);
    assert m[s.end] == 0 ==> m[s.end := 0] == m;
  }

  ghost predicate EndsAt(spans: seq<Span>, k: nat) {
    exists i :: 0 <= i < |spans| && spans[i].end == k
  }

  /** The string with a NUL written at the end of every span. */
  ghost function Punch(m: seq<byte>, spans: seq<Span>): (r: seq<byte>)
    ensures |r| == |m|
    ensures forall k :: 0 <= k < |m| ==> r[k] == if EndsAt(spans, k) then 0 else m[k]
  {
    seq(|m|, k requires 0 <= k < |m| => if EndsAt(spans, k) then 0 else m[k])
  }

  ghost predicate AgreeFrom(m: seq<byte>, m': seq<byte>, p: nat) {
    |m| == |m'| && forall k :: p <= k < |m| ==> m[k] == m'[k]
  }

  /** A scan from `p` never looks before `p`. */
  lemma FirstFrame(m: seq<byte>, m': seq<byte>, p: nat, S: set<byte>)
    requires Terminated(m, p) && AgreeFrom(m, m', p) && 0 in S
    ensures Terminated(m', p) && First(m', p, S) == First(m, p, S)
  {
    assert m'[StrEnd(m, p)] == 0;
    assert IsFirst(m', p, S, First(m, p, S));
  }

  lemma NextSpanFrame(m: seq<byte>, m': seq<byte>, p: nat, D: set<byte>)
    requires Terminated(m, p) && AgreeFrom(m, m', p) && 0 !in D
    ensures Terminated(m', p) && NextSpan(m', p, D) == NextSpan(m, p, D)
  {
    FirstFrame(m, m', p, (set c: byte | c !in D));
    assert m[StrEnd(m, p)] == 0;
    FirstFrame(m, m', SkipDelims(m, p, D), D + {0});
  }

  lemma AfterFrame(m: seq<byte>, m': seq<byte>, p: nat, D: set<byte>)
    requires Terminated(m, p) && AgreeFrom(m, m', p) && 0 !in D
    ensures var q := NextSpan(m, p, D).end;
            && q < |m| && Terminated(m, After(m, q))
            && After(m', q) == After(m, q) && AgreeFrom(m, m', After(m, q))
  {
    assert m[StrEnd(m, p)] == 0;
  }

  lemma {:induction false} PlanFrame(m: seq<byte>, m': seq<byte>, p: nat, Ds: seq<set<byte>>)
    requires Terminated(m, p) && AgreeFrom(m, m', p) && DelimSets(Ds)
    ensures Terminated(m', p) && Plan(m', p, Ds) == Plan(m, p, Ds)
    decreases |Ds|
  {
    hide NextSpan, AgreeFrom, IsFirst;
    FirstFrame(m, m', p, {0});
    if Ds != [] {
      NextSpanFrame(m, m', p, Ds[0]);
      var s := NextSpan(m, p, Ds[0]);
      if s.start < s.end {
        AfterFrame(m, m', p, Ds[0]);
        PlanFrame(m, m', After(m, s.end), Ds[1..]);
      }
    }
  }

  lemma PunchCons(m: seq<byte>, s: Span, rest: seq<Span>)
    requires s.end < |m|
    ensures Punch(m, [s] + rest) == Punch(m[s.end := 0], rest)
  {
    var all := [s] + rest;
    forall k | 0 <= k < |m|
      ensures EndsAt(all, k) <==> k == s.end || EndsAt(rest, k)
    {
      if EndsAt(rest, k) {
        var i :| 0 <= i < |rest| && rest[i].end == k;
        assert all[i + 1].end == k;
      }
      if k == s.end { assert all[0].end == k; }
    }
  }

  /** Null is absorbing: the memory and `*saveptr` stay as they are and every call returns null. */
  lemma {:induction false} NullForever(m: seq<byte>, Ds: seq<set<byte>>)
    requires DelimSets(Ds)
    ensures Run(m, Null, Ds) == RunResult(seq(|Ds|, i => Null), m, Null)
    decreases |Ds|
  {
    if Ds != [] {
      NullForever(m, Ds[1..]);
    }
  }

  /** What `n` calls return when the tokens are `plan`: the tokens in order, then null. */
  ghost function Returned(plan: seq<Span>, n: nat): seq<Ptr> {
    seq(n, i requires 0 <= i => if i < |plan| then At(plan[i].start) else Null)
  }

  lemma ReturnedCons(s: Span, rest: seq<Span>, n: nat)
    requires n > 0
    ensures Returned([s] + rest, n) == [At(s.start)] + Returned(rest, n - 1)
  {
  }

  /** The calls return the planned tokens in order and then null for ever, and the only
      writes are the NULs that end the tokens. */
  lemma {:induction false} RunFollowsPlan(m: seq<byte>, p: nat, Ds: seq<set<byte>>)
    requires Terminated(m, p) && DelimSets(Ds)
    ensures Run(m, At(p), Ds).tokens == Returned(Plan(m, p, Ds), |Ds|)
    ensures Run(m, At(p), Ds).mem == Punch(m, Plan(m, p, Ds))
    decreases |Ds|, 1
  {
    if Ds != [] {
      var s := NextSpan(m, p, Ds[0]);
      NextTokenIsSpan(m, p, Ds[0]);
      if s.start == s.end {
        NullForever(m, Ds[1..]);
      } else {
        RunStep(m, p, Ds, s);
      }
    }
  }

  lemma {:induction false} RunStep(m: seq<byte>, p: nat, Ds: seq<set<byte>>, s: Span)
    requires Terminated(m, p) && DelimSets(Ds) && Ds != []
    requires s == NextSpan(m, p, Ds[0]) && s.start < s.end
    ensures Run(m, At(p), Ds).tokens == Returned(Plan(m, p, Ds), |Ds|)
    ensures Run(m, At(p), Ds).mem == Punch(m, Plan(m, p, Ds))
    decreases |Ds|, 0
  {
    var m', q, last := m[s.end := 0], After(m, s.end), StrEnd(m, p);
    NextTokenIsSpan(m, p, Ds[0]);
    assert m[last] == 0 && m'[last] == 0;
    var rest := Plan(m, q, Ds[1..]);
    assert Run(m', At(q), Ds[1..]).tokens == Returned(rest, |Ds| - 1)
        && Run(m', At(q), Ds[1..]).mem == Punch(m', rest) by {
      PlanFrame(m, m', q, Ds[1..]);
      RunFollowsPlan(m', q, Ds[1..]);
    }
    PunchCons(m, s, rest);
    ReturnedCons(s, rest, |Ds|);
  }

  /** Inside `[lo, last)`, nonempty, in order with a gap, each free of its own delimiters and
      ended by one of them or by the original terminator. */
  ghost predicate Shaped(m: seq<byte>, lo: nat, last: nat, Ds: seq<set<byte>>, plan: seq<Span>)
  {
    && last < |m| && |plan| <= |Ds|
    && (forall i :: 0 <= i < |plan| ==> SpanShaped(m, lo, last, Ds[i], plan[i]))
    && (forall i, j :: 0 <= i < j < |plan| ==> plan[i].end < plan[j].start)
  }

  ghost predicate SpanShaped(m: seq<byte>, lo: nat, last: nat, D: set<byte>, s: Span)
    requires last < |m|
  {
    && lo <= s.start < s.end <= last
    && (s.end == last || m[s.end] in D)
    && (forall k :: s.start <= k < s.end ==> m[k] !in D)
  }

  lemma ShapedCons(m: seq<byte>, lo: nat, last: nat, Ds: seq<set<byte>>, s: Span, rest: seq<Span>)
    requires Ds != [] && last < |m| && SpanShaped(m, lo, last, Ds[0], s)
    requires Shaped(m, s.end + 1, last, Ds[1..], rest)
    ensures Shaped(m, lo, last, Ds, [s] + rest)
  {
    var plan := [s] + rest;
    forall i | 0 <= i < |plan|
      ensures SpanShaped(m, lo, last, Ds[i], plan[i])
    {
      if i > 0 { assert plan[i] == rest[i - 1] && Ds[i] == Ds[1..][i - 1]; }
    }
  }

  lemma {:induction false} PlanShape(m: seq<byte>, p: nat, Ds: seq<set<byte>>)
    requires Terminated(m, p) && DelimSets(Ds)
    ensures Shaped(m, p, StrEnd(m, p), Ds, Plan(m, p, Ds))
    ensures 2 * |Plan(m, p, Ds)| <= StrEnd(m, p) - p + 1
    decreases |Ds|
  {
    if Ds != [] {
      var last, s := StrEnd(m, p), NextSpan(m, p, Ds[0]);
      if s.start < s.end {
        var q := After(m, s.end);
        assert m[last] == 0 && IsFirst(m, q, {0}, last);
        PlanShape(m, q, Ds[1..]);
        ShapedCons(m, p, last, Ds, s, Plan(m, q, Ds[1..]));
      }
    }
  }

  /** Punching at the ends of spans leaves every span whole, with a NUL after it. */
  lemma PunchKeepsSpans(m: seq<byte>, lo: nat, last: nat, Ds: seq<set<byte>>, plan: seq<Span>, i: nat)
    requires Shaped(m, lo, last, Ds, plan) && i < |plan|
    requires forall k :: lo <= k < last ==> m[k] != 0
    ensures IsFirst(Punch(m, plan), plan[i].start, {0}, plan[i].end)
    ensures Punch(m, plan)[plan[i].start..plan[i].end] == m[plan[i].start..plan[i].end]
  {
    assert EndsAt(plan, plan[i].end);
    assert forall k :: plan[i].start <= k < plan[i].end ==> !EndsAt(plan, k);
  }

  /** Every token, however early, still reads back whole after the last call. */
  lemma TokensStayReadable(m: seq<byte>, p: nat, Ds: seq<set<byte>>, i: nat)
    requires Terminated(m, p) && DelimSets(Ds) && i < |Plan(m, p, Ds)|
    ensures var r, s := Run(m, At(p), Ds), Plan(m, p, Ds)[i];
            && r.tokens[i] == At(s.start)
            && Terminated(r.mem, s.start) && CStr(r.mem, s.start) == m[s.start..s.end]
  {
    RunFollowsPlan(m, p, Ds);
    PlanShape(m, p, Ds);
    PunchKeepsSpans(m, p, StrEnd(m, p), Ds, Plan(m, p, Ds), i);
  }

  /** Frame: a byte that changed is now NUL, lies before the original terminator, and was the
      delimiter, in the set of its own call, that ended one of the returned tokens. */
  lemma WritesOnlyEndNuls(m: seq<byte>, p: nat, Ds: seq<set<byte>>, k: nat)
    requires Terminated(m, p) && DelimSets(Ds) && k < |m|
    requires Run(m, At(p), Ds).mem[k] != m[k]
    ensures Run(m, At(p), Ds).mem[k] == 0 && p < k < StrEnd(m, p)
    ensures exists i :: 0 <= i < |Plan(m, p, Ds)| && Plan(m, p, Ds)[i].end == k && m[k] in Ds[i]
  {
    RunFollowsPlan(m, p, Ds);
    PlanShape(m, p, Ds);
    var plan, last := Plan(m, p, Ds), StrEnd(m, p);
    assert m[last] == 0;
    var i :| 0 <= i < |plan| && plan[i].end == k;
  }

  /** Progress: `*saveptr` strictly advances and never passes the terminator. */
  lemma SaveAdvances(m: seq<byte>, p: nat, D: set<byte>)
    requires Terminated(m, p) && 0 !in D
    ensures var o := NextToken(m, At(p), D);
            o.token.At? ==> (
              && p <= o.token.addr < o.save.addr <= StrEnd(m, p)
              && Terminated(o.mem, o.save.addr)
              && StrEnd(o.mem, o.save.addr) == StrEnd(m, p))
    ensures NextToken(m, At(p), D).token.Null? ==> forall k :: p <= k < StrEnd(m, p) ==> m[k] in D
  {
    var o, last := NextToken(m, At(p), D), StrEnd(m, p);
    NextTokenIsSpan(m, p, D);
    assert m[last] == 0;
    if o.token.At? {
      assert IsFirst(o.mem, o.save.addr, {0}, last);
    }
  }

  // ---------------------------------------------------------------- one fixed delimiter set

  /** All tokens for a fixed set. */
  ghost function Tokenize(m: seq<byte>, p: nat, D: set<byte>): (spans: seq<Span>)
    requires Terminated(m, p) && 0 !in D
    ensures Within(m, spans)
    decreases |m| - p
  {
    var s := NextSpan(m, p, D);
    if s.start == s.end then []
    else
      assert m[StrEnd(m, p)] == 0;
      [s] + Tokenize(m, After(m, s.end), D)
  }

  ghost function Same(D: set<byte>, n: nat): seq<set<byte>> {
    seq(n, i => D)
  }

  /** `n` calls with one set return the first `n` of all tokens. */
  lemma {:induction false} FixedSetPlan(m: seq<byte>, p: nat, D: set<byte>, n: nat)
    requires Terminated(m, p) && 0 !in D
    ensures var all := Tokenize(m, p, D);
            Plan(m, p, Same(D, n)) == if n <= |all| then all[..n] else all
    decreases n
  {
    if n > 0 {
      var s := NextSpan(m, p, D);
      assert Same(D, n)[1..] == Same(D, n - 1);
      if s.start < s.end {
        assert m[StrEnd(m, p)] == 0;
        FixedSetPlan(m, After(m, s.end), D, n - 1);
      }
    }
  }

  /** `spans` lists, in order, exactly the maximal runs of non-delimiter bytes in `[lo, hi)`. */
  ghost predicate MaximalRuns(m: seq<byte>, lo: nat, hi: nat, D: set<byte>, spans: seq<Span>)
    requires lo <= hi <= |m|
  {
    && (forall i :: 0 <= i < |spans| ==> lo <= spans[i].start < spans[i].end <= hi)
    && (forall i, j :: 0 <= i < j < |spans| ==> spans[i].end < spans[j].start)
    && (forall i, k :: 0 <= i < |spans| && spans[i].start <= k < spans[i].end ==> m[k] !in D)
    && (forall i :: 0 <= i < |spans| ==> spans[i].start == lo || m[spans[i].start - 1] in D)
    && (forall i :: 0 <= i < |spans| ==> spans[i].end == hi || m[spans[i].end] in D)
    && (forall k :: lo <= k < hi && m[k] !in D ==> Covered(spans, k))
  }

  ghost predicate Covered(spans: seq<Span>, k: nat) {
    exists i :: 0 <= i < |spans| && spans[i].start <= k < spans[i].end
  }

  lemma CoveredCons(s: Span, rest: seq<Span>, k: nat)
    ensures Covered([s] + rest, k) <==> s.start <= k < s.end || Covered(rest, k)
  {
    var all := [s] + rest;
    if s.start <= k < s.end { assert all[0].start <= k; }
    if Covered(rest, k) {
      var i :| 0 <= i < |rest| && rest[i].start <= k < rest[i].end;
      assert all[i + 1].start <= k;
    }
  }

  lemma MaximalRunsCons(m: seq<byte>, lo: nat, q: nat, hi: nat, D: set<byte>, s: Span, rest: seq<Span>)
    requires lo <= s.start < s.end <= q <= hi <= |m|
    requires q == if s.end == hi then hi else s.end + 1
    requires s.end == hi || m[s.end] in D
    requires forall k :: lo <= k < s.start ==> m[k] in D
    requires forall k :: s.start <= k < s.end ==> m[k] !in D
    requires MaximalRuns(m, q, hi, D, rest)
    ensures MaximalRuns(m, lo, hi, D, [s] + rest)
  {
    hide Covered;
    forall k | lo <= k < hi && m[k] !in D
      ensures Covered([s] + rest, k)
    {
      CoveredCons(s, rest, k);
    }
  }

  /** The tokens are the maximal runs ... */
  lemma {:induction false} TokenizeFindsMaximalRuns(m: seq<byte>, p: nat, D: set<byte>)
    requires Terminated(m, p) && 0 !in D
    ensures MaximalRuns(m, p, StrEnd(m, p), D, Tokenize(m, p, D))
    decreases |m| - p
  {
    var s, last := NextSpan(m, p, D), StrEnd(m, p);
    assert m[last] == 0;
    if s.start < s.end {
      var q := After(m, s.end);
      assert IsFirst(m, q, {0}, last);
      TokenizeFindsMaximalRuns(m, q, D);
      MaximalRunsCons(m, p, q, last, D, s, Tokenize(m, q, D));
    }
  }

  lemma SomeRun(m: seq<byte>, lo: nat, hi: nat, D: set<byte>, a: seq<Span>, b: seq<Span>)
    requires lo <= hi <= |m|
    requires MaximalRuns(m, lo, hi, D, a) && MaximalRuns(m, lo, hi, D, b)
    ensures b != [] ==> a != []
  {
    assert b != [] ==> Covered(a, b[0].start);
  }

  /** Two such lists begin with the same run. */
  lemma FirstRunSame(m: seq<byte>, lo: nat, hi: nat, D: set<byte>, a: seq<Span>, b: seq<Span>)
    requires lo <= hi <= |m| && a != [] && b != []
    requires MaximalRuns(m, lo, hi, D, a) && MaximalRuns(m, lo, hi, D, b)
    ensures a[0] == b[0]
  {
    assert Covered(a, b[0].start) && Covered(b, a[0].start);
    assert a[0].start == b[0].start;
  }

  /** ... and nothing else is: a string has only one such list. */
  lemma {:induction false} MaximalRunsUnique(m: seq<byte>, lo: nat, hi: nat, D: set<byte>, a: seq<Span>, b: seq<Span>)
    requires lo <= hi <= |m|
    requires MaximalRuns(m, lo, hi, D, a) && MaximalRuns(m, lo, hi, D, b)
    ensures a == b
    decreases |a|
  {
    hide MaximalRuns;
    SomeRun(m, lo, hi, D, a, b);
    SomeRun(m, lo, hi, D, b, a);
    if a != [] {
      FirstRunSame(m, lo, hi, D, a, b);
      MaximalRunsTail(m, lo, hi, D, a);
      MaximalRunsTail(m, lo, hi, D, b);
      MaximalRunsUnique(m, a[0].end, hi, D, a[1..], b[1..]);
      assert a == [a[0]] + a[1..] && b == [b[0]] + b[1..];
    }
  }

  lemma MaximalRunsTail(m: seq<byte>, lo: nat, hi: nat, D: set<byte>, a: seq<Span>)
    requires lo <= hi <= |m| && MaximalRuns(m, lo, hi, D, a) && a != []
    ensures a[0].end <= hi && MaximalRuns(m, a[0].end, hi, D, a[1..])
  {
    assert a == [a[0]] + a[1..];
    forall k | a[0].end <= k < hi && m[k] !in D
      ensures Covered(a[1..], k)
    {
      CoveredCons(a[0], a[1..], k);
    }
  }

  ghost function Concat(m: seq<byte>, spans: seq<Span>): seq<byte>
    requires Within(m, spans)
  {
    if spans == [] then [] else m[spans[0].start..spans[0].end] + Concat(m, spans[1..])
  }

  /** `m[lo..hi]` with its delimiters deleted. */
  ghost function Deleted(m: seq<byte>, lo: nat, hi: nat, D: set<byte>): seq<byte>
    requires lo <= hi <= |m|
    decreases hi - lo
  {
    if lo == hi then []
    else if m[lo] in D then Deleted(m, lo + 1, hi, D)
    else [m[lo]] + Deleted(m, lo + 1, hi, D)
  }

  lemma {:induction false} DeletedSkip(m: seq<byte>, lo: nat, q: nat, hi: nat, D: set<byte>)
    requires lo <= q <= hi <= |m| && forall k :: lo <= k < q ==> m[k] in D
    ensures Deleted(m, lo, hi, D) == Deleted(m, q, hi, D)
    decreases q - lo
  {
    if lo < q {
      DeletedSkip(m, lo + 1, q, hi, D);
    }
  }

  lemma {:induction false} DeletedKeep(m: seq<byte>, lo: nat, q: nat, hi: nat, D: set<byte>)
    requires lo <= q <= hi <= |m| && forall k :: lo <= k < q ==> m[k] !in D
    ensures Deleted(m, lo, hi, D) == m[lo..q] + Deleted(m, q, hi, D)
    decreases q - lo
  {
    if lo < q {
      DeletedKeep(m, lo + 1, q, hi, D);
      assert m[lo..q] == [m[lo]] + m[lo + 1..q];
    }
  }

  /** Conservation: the tokens put end to end are the string with its delimiters deleted. */
  lemma {:induction false} TokensConserveBytes(m: seq<byte>, p: nat, D: set<byte>)
    requires Terminated(m, p) && 0 !in D
    ensures Concat(m, Tokenize(m, p, D)) == Deleted(m, p, StrEnd(m, p), D)
    decreases |m| - p
  {
    var s, last := NextSpan(m, p, D), StrEnd(m, p);
    assert m[last] == 0;
    DeletedSkip(m, p, s.start, last, D);
    if s.start < s.end {
      var q := After(m, s.end);
      assert IsFirst(m, q, {0}, last);
      TokensConserveBytes(m, q, D);
      DeletedKeep(m, s.start, s.end, last, D);
      DeletedSkip(m, s.end, q, last, D);
    }
  }

  // ---------------------------------------------------------------- the calling loop

  /** After `n` tokens the buffer is the original with `n` ends punched, untouched from `q` on. */
  ghost predicate Resumes(m: seq<byte>, D: set<byte>, mem: seq<byte>, q: nat, n: nat)
    requires Terminated(m, 0) && 0 !in D
  {
    var all := Tokenize(m, 0, D);
    && Terminated(m, q) && AgreeFrom(m, mem, q)
    && n <= |all| && all[n..] == Tokenize(m, q, D)
    && mem == Punch(m, all[..n])
  }

  lemma PunchSnoc(m: seq<byte>, spans: seq<Span>, s: Span)
    requires s.end < |m|
    ensures Punch(m, spans + [s]) == Punch(m, spans)[s.end := 0]
  {
    var all := spans + [s];
    forall k | 0 <= k < |m|
      ensures EndsAt(all, k) <==> k == s.end || EndsAt(spans, k)
    {
      if EndsAt(spans, k) {
        var i :| 0 <= i < |spans| && spans[i].end == k;
        assert all[i].end == k;
      }
      if k == s.end { assert all[|spans|].end == k; }
    }
  }

  lemma ResumeStep(m: seq<byte>, D: set<byte>, mem: seq<byte>, q: nat, n: nat)
    requires Terminated(m, 0) && 0 !in D && Resumes(m, D, mem, q, n)
    ensures Terminated(mem, q)
    ensures var all, o := Tokenize(m, 0, D), NextToken(mem, At(q), D);
            match o.token
            case Null => o == Outcome(mem, Null, Null) && n == |all|
            case At(b) =>
              && n < |all| && b == all[n].start && o.save.At?
              && Resumes(m, D, o.mem, o.save.addr, n + 1)
  {
    hide IsFirst, NextSpan, NextToken;
    NextSpanFrame(m, mem, q, D);
    NextTokenIsSpan(mem, q, D);
    var all, s := Tokenize(m, 0, D), NextSpan(m, q, D);
    AfterFrame(m, mem, q, D);
    if s.start < s.end {
      assert all[n] == all[n..][0] == s && all[n + 1..] == all[n..][1..];
      assert all[..n + 1] == all[..n] + [s];
      PunchSnoc(m, all[..n], s);
    }
  }

  /** What the calling loop knows after a call that returned `token`. */
  ghost predicate Collected(m: seq<byte>, D: set<byte>, mem: seq<byte>, tokens: seq<nat>, token: Ptr, save: Ptr)
    requires Terminated(m, 0) && 0 !in D
  {
    var all := Tokenize(m, 0, D);
    && |tokens| <= |all|
    && (forall i :: 0 <= i < |tokens| ==> tokens[i] == all[i].start)
    && match token
       case Null => save == Null && |tokens| == |all| && mem == Punch(m, all)
       case At(b) =>
         && |tokens| < |all| && b == all[|tokens|].start
         && save.At? && Resumes(m, D, mem, save.addr, |tokens| + 1)
  }

  lemma CollectStep(m: seq<byte>, D: set<byte>, mem: seq<byte>, tokens: seq<nat>, q: nat)
    requires Terminated(m, 0) && 0 !in D && Resumes(m, D, mem, q, |tokens|)
    requires forall i :: 0 <= i < |tokens| ==> tokens[i] == Tokenize(m, 0, D)[i].start
    ensures Terminated(mem, q)
    ensures var o := NextToken(mem, At(q), D); Collected(m, D, o.mem, tokens, o.token, o.save)
  {
    hide Tokenize, NextToken, StrEnd;
    ResumeStep(m, D, mem, q, |tokens|);
    var all := Tokenize(m, 0, D);
    assert all[..|all|] == all;
  }

  lemma CollectStart(m: seq<byte>, D: set<byte>)
    requires Terminated(m, 0) && 0 !in D
    ensures var o := NextToken(m, At(0), D); Collected(m, D, o.mem, [], o.token, o.save)
  {
    assert Punch(m, Tokenize(m, 0, D)[..0]) == m;
    CollectStep(m, D, m, [], 0);
  }

  lemma CollectNext(m: seq<byte>, D: set<byte>, mem: seq<byte>, tokens: seq<nat>, token: Ptr, save: Ptr)
    requires Terminated(m, 0) && 0 !in D && token.At?
    requires Collected(m, D, mem, tokens, token, save)
    ensures |tokens| < |Tokenize(m, 0, D)| && Readable(mem, save)
    ensures var o := NextToken(mem, save, D);
            Collected(m, D, o.mem, tokens + [token.addr], o.token, o.save)
  {
    CollectStep(m, D, mem, tokens + [token.addr], save.addr);
  }

  lemma RunStarts(m: seq<byte>, hi: nat, D: set<byte>, spans: seq<Span>, k: nat)
    requires k < hi <= |m| && MaximalRuns(m, 0, hi, D, spans)
    ensures (exists i :: 0 <= i < |spans| && spans[i].start == k) <==> m[k] !in D && (k == 0 || m[k - 1] in D)
  {
    if m[k] !in D && (k == 0 || m[k - 1] in D) {
      assert Covered(spans, k);
      var i :| 0 <= i < |spans| && spans[i].start <= k < spans[i].end;
      assert spans[i].start == k;
    }
  }

  lemma RunEnds(m: seq<byte>, hi: nat, D: set<byte>, spans: seq<Span>, k: nat)
    requires k < hi <= |m| && MaximalRuns(m, 0, hi, D, spans)
    ensures EndsAt(spans, k) <==> m[k] in D && k > 0 && m[k - 1] !in D
  {
    if m[k] in D && k > 0 && m[k - 1] !in D {
      assert Covered(spans, k - 1);
      var i :| 0 <= i < |spans| && spans[i].start <= k - 1 < spans[i].end;
      assert spans[i].end == k;
    }
  }

  /** The tokens of a string `s` in `m` with the delimiters `t`, in plain terms: the pointers are
      the places where a byte not in `t` begins `s` or follows one in `t`, in order; and each byte
      in `t` that follows one not in `t`, and nothing else, has become NUL. */
  ghost predicate SplitInPlace(m: seq<byte>, s: seq<byte>, t: seq<byte>, tokens: seq<nat>, mem: seq<byte>) {
    && |mem| == |m| && |s| <= |m|
    && (forall i, j :: 0 <= i < j < |tokens| ==> tokens[i] < tokens[j])
    && (forall i :: 0 <= i < |tokens| ==> tokens[i] < |s|)
    && (forall k :: 0 <= k < |s| ==> (k in tokens <==> s[k] !in t && (k == 0 || s[k - 1] in t)))
    && (forall k :: 0 <= k < |m| ==>
          mem[k] == if 0 < k < |s| && s[k] in t && s[k - 1] !in t then 0 else m[k])
  }

  lemma PunchPlainly(m: seq<byte>, s: seq<byte>, t: seq<byte>, D: set<byte>, all: seq<Span>, k: nat)
    requires HoldsString(m, s) && (forall c: byte :: c in D <==> c in t) && k < |m|
    requires MaximalRuns(m, 0, |s|, D, all)
    ensures Punch(m, all)[k] == if 0 < k < |s| && s[k] in t && s[k - 1] !in t then 0 else m[k]
  {
    if k < |s| {
      assert m[..|s|][k] == m[k];
      if k > 0 { assert m[..|s|][k - 1] == m[k - 1]; }
      RunEnds(m, |s|, D, all, k);
      hide MaximalRuns;
    }
  }

  lemma StartPlainly(m: seq<byte>, s: seq<byte>, t: seq<byte>, D: set<byte>, all: seq<Span>, tokens: seq<nat>, k: nat)
    requires HoldsString(m, s) && (forall c: byte :: c in D <==> c in t) && k < |s|
    requires MaximalRuns(m, 0, |s|, D, all)
    requires |tokens| == |all| && forall i :: 0 <= i < |tokens| ==> tokens[i] == all[i].start
    ensures k in tokens <==> s[k] !in t && (k == 0 || s[k - 1] in t)
  {
    hide MaximalRuns;
    assert m[..|s|][k] == m[k];
    if k > 0 { assert m[..|s|][k - 1] == m[k - 1]; }
    RunStarts(m, |s|, D, all, k);
    StartsAreTokens(all, tokens, k);
  }

  lemma StringRuns(m: seq<byte>, s: seq<byte>, D: set<byte>)
    requires HoldsString(m, s) && Terminated(m, 0) && 0 !in D
    ensures |s| <= |m| && MaximalRuns(m, 0, |s|, D, Tokenize(m, 0, D))
  {
    hide MaximalRuns;
    StringIs(m, s);
    TokenizeFindsMaximalRuns(m, 0, D);
  }

  lemma TokensOrdered(m: seq<byte>, hi: nat, D: set<byte>, all: seq<Span>, tokens: seq<nat>)
    requires hi <= |m| && MaximalRuns(m, 0, hi, D, all)
    requires |tokens| == |all| && forall i :: 0 <= i < |tokens| ==> tokens[i] == all[i].start
    ensures forall i, j :: 0 <= i < j < |tokens| ==> tokens[i] < tokens[j]
    ensures forall i :: 0 <= i < |tokens| ==> tokens[i] < hi
  {
  }

  lemma CollectedMeans(m: seq<byte>, D: set<byte>, tokens: seq<nat>, mem: seq<byte>, save: Ptr)
    requires Terminated(m, 0) && 0 !in D && Collected(m, D, mem, tokens, Null, save)
    ensures var all := Tokenize(m, 0, D);
            && save == Null && |mem| == |m| && mem == Punch(m, all) && |tokens| == |all|
            && forall i :: 0 <= i < |tokens| ==> tokens[i] == all[i].start
  {
  }

  lemma CollectedPlainly(m: seq<byte>, s: seq<byte>, d: seq<byte>, t: seq<byte>,
                         tokens: seq<nat>, mem: seq<byte>, save: Ptr)
    requires HoldsString(m, s) && HoldsString(d, t) && Terminated(m, 0) && Terminated(d, 0)
    requires Collected(m, Delims(d), mem, tokens, Null, save)
    ensures save == Null && SplitInPlace(m, s, t, tokens, mem)
  {
    CollectedMeans(m, Delims(d), tokens, mem, save);
    hide Tokenize, Terminated, HoldsString, Punch, Delims, MaximalRuns, EndsAt, Collected;
    var D, all := Delims(d), Tokenize(m, 0, Delims(d));
    StringIs(d, t);
    StringRuns(m, s, D);
    TokensOrdered(m, |s|, D, all, tokens);
    forall k | 0 <= k < |s|
      ensures k in tokens <==> s[k] !in t && (k == 0 || s[k - 1] in t)
    {
      StartPlainly(m, s, t, D, all, tokens, k);
    }
    forall k | 0 <= k < |m|
      ensures mem[k] == if 0 < k < |s| && s[k] in t && s[k - 1] !in t then 0 else m[k]
    {
      PunchPlainly(m, s, t, D, all, k);
    }
  }

  lemma StartsAreTokens(all: seq<Span>, tokens: seq<nat>, k: nat)
    requires |tokens| == |all| && forall i :: 0 <= i < |tokens| ==> tokens[i] == all[i].start
    ensures k in tokens <==> exists i :: 0 <= i < |all| && all[i].start == k
  {
    if i :| 0 <= i < |all| && all[i].start == k {
      assert tokens[i] == k;
    }
  }

  /** The way the code is used: one call with the buffer, then null calls until null comes back. */
  method TokenizeAll(buf: array<byte>, delim: array<byte>) returns (tokens: seq<nat>, saveptr: SavePtr)
    requires buf != delim
    requires Terminated(buf[..], 0) && Terminated(delim[..], 0)
    modifies buf
    ensures delim[..] == old(delim[..])
    ensures Collected(old(buf[..]), Delims(delim[..]), buf[..], tokens, Null, saveptr.p)
    ensures forall s, t :: HoldsString(old(buf[..]), s) && HoldsString(delim[..], t) ==>
              SplitInPlace(old(buf[..]), s, t, tokens, buf[..])
  {
    hide Collected, NextToken, Terminated, Tokenize, Delims, HoldsString, SplitInPlace;
    ghost var m, D := buf[..], Delims(delim[..]);
    saveptr := new SavePtr();
    tokens := [];
    CollectStart(m, D);
    var token := StrtokR(buf, At(0), delim, saveptr);
    while token.At?
      invariant delim[..] == old(delim[..])
      invariant Collected(m, D, buf[..], tokens, token, saveptr.p)
      decreases |Tokenize(m, 0, D)| - |tokens|
    {
      CollectNext(m, D, buf[..], tokens, token, saveptr.p);
      tokens := tokens + [token.addr];
      token := StrtokR(buf, Null, delim, saveptr);
    }
    forall s, t | HoldsString(m, s) && HoldsString(delim[..], t)
      ensures SplitInPlace(m, s, t, tokens, buf[..])
    {
      CollectedPlainly(m, s, delim[..], t, tokens, buf[..], saveptr.p);
    }
  }

  lemma {:induction false} TokenizeShape(m: seq<byte>, p: nat, D: set<byte>)
    requires Terminated(m, p) && 0 !in D
    ensures var all := Tokenize(m, p, D);
            Shaped(m, p, StrEnd(m, p), Same(D, |all|), all)
  {
    hide Tokenize, Plan, Shaped, StrEnd;
    var n := |Tokenize(m, p, D)|;
    FixedSetPlan(m, p, D, n);
    PlanShape(m, p, Same(D, n));
    assert Tokenize(m, p, D)[..n] == Tokenize(m, p, D);
  }

  /** What the loop above leaves behind: every token it returned still reads as its run. */
  lemma PunchedTokensReadBack(m: seq<byte>, D: set<byte>, i: nat)
    requires Terminated(m, 0) && 0 !in D && i < |Tokenize(m, 0, D)|
    ensures var all := Tokenize(m, 0, D);
            var mem := Punch(m, all);
            Terminated(mem, all[i].start) && CStr(mem, all[i].start) == m[all[i].start..all[i].end]
  {
    var all := Tokenize(m, 0, D);
    TokenizeShape(m, 0, D);
    PunchKeepsSpans(m, 0, StrEnd(m, 0), Same(D, |all|), all, i);
  }
}
