/** The xorshift32 generator of the stress programs, and the `rand`/`rand_r` of `export_arch!`
    built on the same step. */
module Xorshift {
  import opened Bytes
  import opened XorshiftStep

  // ---------------------------------------------------------------- the stream

  /** `Prng::new`: a zero seed would stick at zero. */
  function Seeded(seed: bv32): bv32 {
    if seed == 0 then 1 else seed
  }

  /** The state after `n` calls of `next`, which is also the `n`-th output. */
  function Nth(state: bv32, n: nat): bv32 {
    if n == 0 then state else Step(Nth(state, n - 1))
  }

  lemma {:induction false} NthSum(state: bv32, m: nat, n: nat)
    ensures Nth(Nth(state, m), n) == Nth(state, m + n)
  {
    if n > 0 {
      NthSum(state, m, n - 1);
    }
  }

  /** A generator made by `new` is never at zero, on any run; neither are its outputs. */
  lemma {:induction false} NeverZero(seed: bv32, n: nat)
    ensures Nth(Seeded(seed), n) != 0
  {
    hide Step;
    if n > 0 {
      NeverZero(seed, n - 1);
      StepNonzero(Nth(Seeded(seed), n - 1));
    }
  }

  /** Two seeds give the same `n`-th output only if they are equal, or are 0 and 1. */
  lemma {:induction false} OutputsCollide(s: bv32, t: bv32, n: nat)
    ensures Nth(Seeded(s), n) == Nth(Seeded(t), n) <==> s == t || (s == 0 && t == 1) || (s == 1 && t == 0)
  {
    hide Step;
    if n > 0 {
      OutputsCollide(s, t, n - 1);
      StepInjective(Nth(Seeded(s), n - 1), Nth(Seeded(t), n - 1));
    }
  }

  /** `u32::to_le_bytes` */
  function WordBytes(x: bv32): (r: seq<byte>)
    ensures |r| == 4
  {
    ToLe(x as nat, 4)
  }

  /** The bytes of the first `n` outputs after `state`. */
  function Words(state: bv32, n: nat): (r: seq<byte>)
    ensures |r| == 4 * n
  {
    if n == 0 then [] else Words(state, n - 1) + WordBytes(Nth(state, n))
  }

  function WordsNeeded(n: nat): nat {
    (n + 3) / 4
  }

  /** The fewest words that hold `n` bytes. */
  lemma WordsNeededLeast(n: nat)
    ensures n <= 4 * WordsNeeded(n) < n + 4
  {
  }

  /** The first `n` bytes of the stream that follows `state`. */
  function Stream(state: bv32, n: nat): (r: seq<byte>)
    ensures |r| == n
  {
    Words(state, WordsNeeded(n))[..n]
  }

  /** The bytes of a word, lowest first. */
  lemma WordBytesSpelled(x: bv32)
    ensures var n := x as nat;
            WordBytes(x) == [n % 0x100, n / 0x100 % 0x100, n / 0x1_0000 % 0x100, n / 0x100_0000]
  {
    hide ToLe;
    LeWord(x as nat);
  }

  /** Byte `k` of the stream is byte `k % 4` of output `k / 4 + 1`. */
  lemma {:induction false} WordsByte(state: bv32, n: nat, k: nat)
    requires k < 4 * n
    ensures Words(state, n)[k] == WordBytes(Nth(state, k / 4 + 1))[k % 4]
  {
    hide WordBytes;
    if k < 4 * (n - 1) {
      WordsByte(state, n - 1, k);
    }
  }

  lemma StreamByte(state: bv32, n: nat, k: nat)
    requires k < n
    ensures Stream(state, n)[k] == WordBytes(Nth(state, k / 4 + 1))[k % 4]
  {
    hide Words, WordBytes, Nth;
    WordsByte(state, WordsNeeded(n), k);
  }

  lemma FirstWordInNumbers()
    ensures WordBytes(0x8798_5AA5) == [0xA5, 0x5A, 0x98, 0x87]
  {
    hide ToLe;
    WordBytesSpelled(0x8798_5AA5);
  }

  lemma SecondWordInNumbers()
    ensures WordBytes(0x155B_24A3) == [0xA3, 0x24, 0x5B, 0x15]
  {
    hide ToLe;
    WordBytesSpelled(0x155B_24A3);
  }

  lemma NthInNumbers()
    ensures Nth(0x1234_5678, 1) == 0x8798_5AA5 && Nth(0x1234_5678, 2) == 0x155B_24A3
  {
    StepInNumbers();
    hide Step;
    assert Nth(0x1234_5678, 0) == 0x1234_5678;
  }

  /** The stream of the stress programs' seed. */
  lemma StreamInNumbers()
    ensures Stream(0x1234_5678, 6) == [0xA5, 0x5A, 0x98, 0x87, 0xA3, 0x24]
  {
    hide *;
    FirstWordInNumbers();
    SecondWordInNumbers();
    NthInNumbers();
    StreamByte(0x1234_5678, 6, 0);
    StreamByte(0x1234_5678, 6, 1);
    StreamByte(0x1234_5678, 6, 2);
    StreamByte(0x1234_5678, 6, 3);
    StreamByte(0x1234_5678, 6, 4);
    StreamByte(0x1234_5678, 6, 5);
  }

  lemma {:induction false} WordsPrefix(state: bv32, m: nat, n: nat)
    requires m <= n
    ensures Words(state, n)[..4 * m] == Words(state, m)
  {
    if m < n {
      WordsPrefix(state, m, n - 1);
      assert Words(state, n)[..4 * m] == Words(state, n - 1)[..4 * m];
    }
  }

  /** A shorter fill is a prefix of a longer one. */
  lemma StreamPrefix(state: bv32, m: nat, n: nat)
    requires m <= n
    ensures Stream(state, n)[..m] == Stream(state, m)
  {
    var k, l := WordsNeeded(m), WordsNeeded(n);
    WordsPrefix(state, k, l);
    assert Words(state, l)[..m] == Words(state, l)[..4 * k][..m];
  }

  lemma {:induction false} WordsConcat(state: bv32, m: nat, n: nat)
    ensures Words(state, m) + Words(Nth(state, m), n) == Words(state, m + n)
  {
    hide Step, WordBytes;
    if n == 0 {
      assert Words(state, m) + [] == Words(state, m);
    } else {
      WordsConcat(state, m, n - 1);
      NthSum(state, m, n);
      var w := WordBytes(Nth(state, m + n));
      assert Words(state, m) + (Words(Nth(state, m), n - 1) + w) == (Words(state, m) + Words(Nth(state, m), n - 1)) + w;
    }
  }

  lemma WordsNeededSum(k: nat, n: nat)
    ensures WordsNeeded(4 * k + n) == k + WordsNeeded(n)
    ensures n < 4 ==> WordsNeeded(n) == if n == 0 then 0 else 1
  {
  }

  /** Filling a buffer of whole words and then another is filling the two as one. */
  lemma StreamConcat(state: bv32, m: nat, n: nat)
    requires m % 4 == 0
    ensures Stream(state, m) + Stream(Nth(state, WordsNeeded(m)), n) == Stream(state, m + n)
  {
    hide Words, Nth;
    var k := m / 4;
    WordsNeededSum(k, 0);
    WordsNeededSum(k, n);
    var l := WordsNeeded(n);
    WordsConcat(state, k, l);
    assert (Words(state, k) + Words(Nth(state, k), l))[..m + n] == Words(state, k) + Words(Nth(state, k), l)[..n];
    assert Words(state, k)[..m] == Words(state, k);
  }

  // ---------------------------------------------------------------- the code

  /** `copy_from_slice` into part of a buffer. */
  method CopyInto(buf: array<byte>, at: nat, bytes: seq<byte>)
    requires at + |bytes| <= buf.Length
    modifies buf
    ensures buf[..at + |bytes|] == old(buf[..at]) + bytes
    ensures buf[at + |bytes|..] == old(buf[at + |bytes|..])
  {
    forall k | 0 <= k < |bytes| {
      buf[at + k] := bytes[k];
    }
  }

  class Prng {
    var state: bv32

    constructor (seed: bv32)
      ensures state == Seeded(seed) && state != 0
    {
      state := if seed == 0 then 1 else seed;
    }

    method Next() returns (r: bv32)
      modifies this
      ensures r == state == Step(old(state))
      ensures StepsTo(old(state), r)
      ensures old(state) == 0x1234_5678 ==> r == 0x8798_5AA5
      ensures old(state) != 0 ==> state != 0
    {
      StepInNumbers();
      hide Shl13, Shr17, Shl5, StepsTo;
      StepIsBitwise(state, Step(state));
      StepNonzero(state);
      var x := state;
      x := Shl13(x);
      x := Shr17(x);
      x := Shl5(x);
      state := x;
      r := x;
    }

    /** Fills the buffer from `from` on with the first bytes of the stream and advances one step
        for each word begun. */
    method Fill(buf: array<byte>, from: nat)
      requires from <= buf.Length
      modifies this, buf
      ensures buf[..] == old(buf[..from]) + Stream(old(state), buf.Length - from)
      ensures state == Nth(old(state), WordsNeeded(buf.Length - from))
      ensures old(state) != 0 ==> state != 0
    {
      hide Step, WordBytes, Words, Stream, Nth, WordsNeeded;
      ghost var pre, start := buf[..from], state;
      var len := buf.Length - from;
      var words, remaining := len / 4, len % 4;
      StreamStart(pre, start);
      StreamParts(pre, start, words, remaining);
      for i := 0 to words
        invariant state == Nth(start, i)
        invariant start != 0 ==> state != 0
        invariant buf[..from + 4 * i] == pre + Words(start, i)
      {
        StreamStep(pre, start, i);
        var val := Next();
        CopyInto(buf, from + 4 * i, WordBytes(val));
      }
      if remaining > 0 {
        StreamStep(pre, start, words);
        var val := Next();
        CopyInto(buf, buf.Length - remaining, WordBytes(val)[..remaining]);
      }
      assert buf[..buf.Length] == buf[..];
    }
  }

  lemma StreamStep(pre: seq<byte>, state: bv32, i: nat)
    ensures Nth(state, i + 1) == Step(Nth(state, i))
    ensures (pre + Words(state, i)) + WordBytes(Nth(state, i + 1)) == pre + Words(state, i + 1)
  {
  }

  /** The stream is the whole words and then the first bytes of one more. */
  lemma StreamParts(pre: seq<byte>, state: bv32, words: nat, remaining: nat)
    requires remaining < 4
    ensures WordsNeeded(4 * words + remaining) == if remaining == 0 then words else words + 1
    ensures pre + Stream(state, 4 * words + remaining) ==
              if remaining == 0 then pre + Words(state, words)
              else (pre + Words(state, words)) + WordBytes(Nth(state, words + 1))[..remaining]
  {
    WordsNeededSum(words, remaining);
    hide Nth, WordBytes, WordsNeeded;
    TakeAppend(pre, Words(state, words), WordBytes(Nth(state, words + 1)), remaining);
    if remaining > 0 {
      assert Words(state, words + 1) == Words(state, words) + WordBytes(Nth(state, words + 1));
    }
  }

  lemma StreamStart(pre: seq<byte>, state: bv32)
    ensures Nth(state, 0) == state && pre + Words(state, 0) == pre
  {
  }

  lemma TakeAppend(pre: seq<byte>, a: seq<byte>, w: seq<byte>, r: nat)
    requires r <= |w|
    ensures (a + w)[..|a| + r] == a + w[..r] && a[..|a|] == a
    ensures pre + (a + w[..r]) == (pre + a) + w[..r]
  {
  }

  /** `Prng::next_with_seed` is the first output of a generator with that seed. */
  method NextWithSeed(seed: bv32) returns (r: bv32)
    ensures r == Nth(Seeded(seed), 1) && r != 0
    ensures StepsTo(if seed == 0 then 1 else seed, r)
    ensures seed == 0x1234_5678 ==> r == 0x8798_5AA5
  {
    StepInNumbers();
    hide Shl13, Shr17, Shl5, StepsTo;
    StepIsBitwise(Seeded(seed), Step(Seeded(seed)));
    NeverZero(seed, 1);
    var x := if seed == 0 then 1 else seed;
    assert Nth(x, 0) == x;
    x := Shl13(x);
    x := Shr17(x);
    x := Shl5(x);
    r := x;
  }

  /** The word a caller of `rand_r` keeps its state in. */
  class Cell {
    var state: bv32
    constructor (seed: bv32)
      ensures state == seed
    {
      state := seed;
    }
  }

  function Low31(x: bv32): bv32 {
    x & 0x7FFF_FFFF
  }

  /** All of a word but its highest bit. */
  lemma Low31Drops(x: bv32)
    ensures Low31(x) < 0x8000_0000 && (Low31(x) == x || Low31(x) + 0x8000_0000 == x)
  {
  }

  /** `rand` on its state: the state steps, a zero state counting as one, and 31 bits come back. */
  method Rand(cell: Cell) returns (r: bv32)
    modifies cell
    ensures cell.state == Nth(Seeded(old(cell.state)), 1) && cell.state != 0
    ensures StepsTo(if old(cell.state) == 0 then 1 else old(cell.state), cell.state)
    ensures r == Low31(cell.state) && r < 0x8000_0000 && (r == cell.state || r + 0x8000_0000 == cell.state)
  {
    hide *;
    var next := NextWithSeed(cell.state);
    cell.state := next;
    Low31Drops(next);
    r := Low31(next);
  }

  /** `rand_r`: the same on the caller's word; a null seed is answered 0. */
  method RandR(seed: Cell?) returns (r: bv32)
    modifies seed
    ensures seed == null ==> r == 0
    ensures seed != null ==> seed.state == Nth(Seeded(old(seed.state)), 1) && seed.state != 0
    ensures seed != null ==> StepsTo(if old(seed.state) == 0 then 1 else old(seed.state), seed.state)
    ensures seed != null ==>
              r == Low31(seed.state) && r < 0x8000_0000 && (r == seed.state || r + 0x8000_0000 == seed.state)
  {
    hide *;
    if seed == null {
      return 0;
    }
    r := Rand(seed);
  }
}
