/** What the transition systems share: outcomes of runs, the lock word, the timeout that means
    for ever, and sums over threads with how one thread's step changes them. */
module Runs {

  /** Where a step or a list of steps leads, if each was enabled in its turn. */
  datatype Outcome<+S> = Stuck | Reached(s: S)

  function Exec<S, A>(s: S, steps: seq<A>, next: (S, A) -> Outcome<S>): Outcome<S> {
    if steps == [] then Reached(s)
    else
      var n := |steps| - 1;
      match Exec(s, steps[..n], next)
      case Stuck => Stuck
      case Reached(mid) => next(mid, steps[n])
  }

  lemma ExecStart<S, A>(s: S, a: A, next: (S, A) -> Outcome<S>)
    ensures Exec(s, [], next) == Reached(s)
    ensures Exec(s, [a], next) == next(s, a)
  {
    assert [a][..0] == [];
  }

  lemma ExecSnoc<S, A>(s: S, steps: seq<A>, a: A, next: (S, A) -> Outcome<S>)
    ensures Exec(s, steps + [a], next) ==
            match Exec(s, steps, next) case Stuck => Stuck case Reached(mid) => next(mid, a)
  {
    assert (steps + [a])[..|steps|] == steps;
  }

  lemma {:induction false} ExecConcat<S, A>(s: S, a: seq<A>, b: seq<A>, next: (S, A) -> Outcome<S>)
    ensures Exec(s, a + b, next) ==
            match Exec(s, a, next) case Stuck => Stuck case Reached(mid) => Exec(mid, b, next)
  {
    if b == [] {
      assert a + b == a;
    } else {
      var n := |b| - 1;
      assert (a + b)[..|a| + n] == a + b[..n];
      ExecConcat(s, a, b[..n], next);
    }
  }

  lemma ExecPrefix<S, A>(s: S, steps: seq<A>, n: nat, next: (S, A) -> Outcome<S>)
    requires n <= |steps| && Exec(s, steps, next).Reached?
    ensures Exec(s, steps[..n], next).Reached?
  {
    assert steps[..n] + steps[n..] == steps;
    ExecConcat(s, steps[..n], steps[n..], next);
  }

  /** What every step keeps holds after every run. */
  lemma {:induction false} ExecKeeps<S(!new), A(!new)>(s: S, steps: seq<A>, next: (S, A) -> Outcome<S>, inv: S -> bool)
    requires inv(s) && Exec(s, steps, next).Reached?
    requires forall s, a :: inv(s) && next(s, a).Reached? ==> inv(next(s, a).s)
    ensures inv(Exec(s, steps, next).s)
  {
    if steps != [] {
      ExecKeeps(s, steps[..|steps| - 1], next, inv);
    }
  }

  /** Where every step lowers a rank no run is longer than the rank it starts with. */
  lemma {:induction false} ExecRank<S(!new), A(!new)>(s: S, steps: seq<A>, next: (S, A) -> Outcome<S>, rank: S -> nat)
    requires Exec(s, steps, next).Reached?
    requires forall s, a :: next(s, a).Reached? ==> rank(next(s, a).s) < rank(s)
    ensures |steps| + rank(Exec(s, steps, next).s) <= rank(s)
  {
    if steps != [] {
      ExecRank(s, steps[..|steps| - 1], next, rank);
    }
  }

  /** No step leads on from `s`. */
  ghost predicate AtRest<S, A(!new)>(s: S, next: (S, A) -> Outcome<S>) {
    forall a :: next(s, a).Stuck?
  }

  lemma SliceSnoc<T>(start: seq<T>, now: seq<T>, e: T)
    requires start <= now
    ensures start <= now + [e] && (now + [e])[|start|..] == now[|start|..] + [e]
  {
  }

  datatype Lock = Free | HeldBy(t: nat)

  /** A timeout in milliseconds, a `u32`. */
  type Millis = n: nat | n <= 0xFFFF_FFFF

  const WAIT_FOREVER: Millis := 0xFFFF_FFFF

  function Sum<T>(s: seq<T>, w: T -> nat): nat {
    if s == [] then 0 else Sum(s[..|s| - 1], w) + w(s[|s| - 1])
  }

  lemma {:induction false} SumUpdate<T>(s: seq<T>, w: T -> nat, i: nat, x: T)
    requires i < |s|
    ensures Sum(s[i := x], w) + w(s[i]) == Sum(s, w) + w(x)
  {
    var n := |s| - 1;
    if i == n {
      assert s[i := x][..n] == s[..n];
    } else {
      assert s[i := x][..n] == s[..n][i := x];
      SumUpdate(s[..n], w, i, x);
    }
  }

  lemma {:induction false} SumAtLeast<T>(s: seq<T>, w: T -> nat, i: nat)
    requires i < |s|
    ensures Sum(s, w) >= w(s[i])
  {
    var n := |s| - 1;
    if i < n {
      SumAtLeast(s[..n], w, i);
    }
  }

  lemma {:induction false} SumAtLeastTwo<T>(s: seq<T>, w: T -> nat, i: nat, j: nat)
    requires i < j < |s|
    ensures Sum(s, w) >= w(s[i]) + w(s[j])
  {
    var n := |s| - 1;
    if j < n {
      SumAtLeastTwo(s[..n], w, i, j);
    } else {
      SumAtLeast(s[..n], w, i);
    }
  }

  lemma {:induction false} SumAtMost<T>(s: seq<T>, w: T -> nat, most: nat)
    requires forall i :: 0 <= i < |s| ==> w(s[i]) <= most
    ensures Sum(s, w) <= most * |s|
  {
    if s != [] {
      SumAtMost(s[..|s| - 1], w, most);
    }
  }

  lemma {:induction false} SumZero<T>(s: seq<T>, w: T -> nat)
    requires forall i :: 0 <= i < |s| ==> w(s[i]) == 0
    ensures Sum(s, w) == 0
  {
    if s != [] {
      SumZero(s[..|s| - 1], w);
    }
  }
}
