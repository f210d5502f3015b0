/** The stress programs' payload: what `stress_tx` builds, what `stress_rx` accepts. */
module StressPayload {
  import opened Bytes
  import opened XorshiftStep
  import opened Xorshift
  import SfpTransfer

  const PRNG_SEED: bv32 := 0x12345678
  const COUNTER: nat := 8          // bytes of the little-endian u64 counter
  const BLOB_SIZE: nat := 600
  const BLOB_MTU: nat := 180

  /** `count as u32` */
  function Low32(count: nat): bv32 {
    (count % TWO_TO_THE_32) as bv32
  }

  /** `PRNG_SEED ^ (count as u32)` */
  function Seed(count: nat): bv32 {
    PRNG_SEED ^ Low32(count)
  }

  /** Where the generator of a payload starts. */
  function Start(count: nat): bv32 {
    Seeded(Seed(count))
  }

  /** The payload of `n` bytes for a counter. */
  function Payload(count: nat, n: nat): (r: seq<byte>)
    requires n >= COUNTER
    ensures |r| == n
  {
    ToLe(count, COUNTER) + Stream(Start(count), n - COUNTER)
  }

  lemma CastBack(x: bv32)
    ensures (x as nat) as bv32 == x
  {
  }

  lemma LowPart(n: nat, k: nat)
    requires n < 0x1_0000_0000
    ensures (n + 0x1_0000_0000 * k) % TWO_TO_THE_32 == n
  {
  }

  lemma Low32Casts(n: nat, k: nat)
    requires n < 0x1_0000_0000
    ensures Low32(n + 0x1_0000_0000 * k) == n as bv32
  {
    LowPart(n, k);
  }

  /** The cast keeps the low 32 bits: a word and any multiple of 2^32 give the word. */
  lemma Low32Is(x: bv32, k: nat)
    ensures Low32(x as nat + 0x1_0000_0000 * k) == x
  {
    hide Low32;
    Low32Casts(x as nat, k);
    CastBack(x);
  }

  lemma SeedIs(count: nat)
    ensures Seed(count) == 0x1234_5678 ^ Low32(count)
  {
  }

  /** The figures of the stress programs. */
  lemma InNumbers()
    ensures COUNTER == 8 && BLOB_SIZE == 600 && BLOB_MTU == 180
    ensures Start(0) == 0x1234_5678 && Start(0x1234_5678) == 1 && Start(0x1_0000_0001) == 0x1234_5679
  {
    hide Low32;
    Low32Is(0, 0);
    Low32Is(0x1234_5678, 0);
    Low32Is(1, 1);
    SeedIs(0);
    SeedIs(0x1234_5678);
    SeedIs(0x1_0000_0001);
  }

  /** Every byte of a payload: eight of the counter, lowest first, then those of the outputs of its
      generator, each lowest first. */
  lemma PayloadByte(count: nat, n: nat, k: nat)
    requires 8 <= n && k < n
    ensures Payload(count, n)[k] ==
            if k < 8 then count / Range(k) % 0x100
            else WordBytes(Nth(Start(count), (k - 8) / 4 + 1))[(k - 8) % 4]
  {
    hide ToLe, Stream, Start, WordBytes, Nth;
    if k < 8 {
      LeByte(count, 8, k);
    } else {
      StreamByte(Start(count), n - 8, k - 8);
    }
  }

  /** A whole payload, the first one of fourteen bytes. */
  lemma PayloadInNumbers()
    ensures Payload(0, 14) == [0, 0, 0, 0, 0, 0, 0, 0, 0xA5, 0x5A, 0x98, 0x87, 0xA3, 0x24]
  {
    hide Stream, Start, ToLe;
    InNumbers();
    StreamInNumbers();
    forall k | 0 <= k < 8
      ensures ToLe(0, 8)[k] == 0
    {
      LeByte(0, 8, k);
      hide Range;
    }
  }

  /** The sender's construction. */
  method Build(count: nat, n: nat) returns (data: array<byte>)
    requires n >= COUNTER
    ensures fresh(data) && data[..] == Payload(count, n)
  {
    data := new byte[n](i => 0);
    CopyInto(data, 0, ToLe(count, COUNTER));
    assert data[..COUNTER] == ToLe(count, COUNTER);
    var prng := new Prng(Seed(count));
    prng.Fill(data, COUNTER);
  }

  /** What the receiver accepts: the payload for the counter in its own first bytes. */
  predicate Accepted(data: seq<byte>) {
    |data| >= COUNTER && data == Payload(FromLe(data[..COUNTER]), |data|)
  }

  /** The receiver's reconstruction, from the counter it reads in the first bytes. */
  method Rebuild(data: seq<byte>) returns (expected: array<byte>)
    requires |data| >= COUNTER
    ensures fresh(expected) && expected[..] == Payload(FromLe(data[..COUNTER]), |data|)
  {
    hide ToLe, FromLe, Stream, Seed, Seeded;
    var countBuf := data[..COUNTER];
    var pktCount := FromLe(countBuf);
    expected := new byte[|data|](i => 0);
    CopyInto(expected, 0, countBuf);
    LeRoundTripBytes(countBuf);
    assert expected[..COUNTER] == ToLe(pktCount, COUNTER);
    var prng := new Prng(Seed(pktCount));
    prng.Fill(expected, COUNTER);
  }

  class Receiver {
    var count: nat
    var errors: nat
    var bytesRecv: nat

    constructor ()
      ensures count == errors == bytesRecv == 0
    {
      count, errors, bytesRecv := 0, 0, 0;
    }

    /** One packet or blob: a short one is an error and not counted; a wrong one is both. */
    method Check(data: seq<byte>)
      modifies this
      ensures errors == old(errors) + if Accepted(data) then 0 else 1
      ensures |data| < 8 ==> count == old(count) && bytesRecv == old(bytesRecv)
      ensures |data| >= 8 ==> count == old(count) + 1 && bytesRecv == old(bytesRecv) + |data|
    {
      if |data| < COUNTER {
        errors := errors + 1;
        return;
      }
      hide Payload, FromLe;
      var expected := Rebuild(data);
      if data != expected[..] {
        errors := errors + 1;
      }
      bytesRecv := bytesRecv + |data|;
      count := count + 1;
    }
  }

  /** The receiver accepts a buffer if and only if the sender's construction gives it for some
      64-bit counter; in particular every payload the sender builds is accepted. */
  lemma AcceptedIffBuilt(data: seq<byte>)
    ensures Accepted(data) <==>
              |data| >= COUNTER && exists count: nat :: count < Range(COUNTER) && data == Payload(count, |data|)
  {
    if |data| >= COUNTER {
      hide ToLe, FromLe, Stream;
      LeRoundTripBytes(data[..COUNTER]);
      forall count: nat | count < Range(COUNTER) && data == Payload(count, |data|)
        ensures Accepted(data)
      {
        LeRoundTrip(count, COUNTER);
        assert data[..COUNTER] == ToLe(count, COUNTER);
      }
    }
  }

  /** Any change confined to the bytes after the counter is caught. */
  lemma TamperingRejected(data: seq<byte>, data': seq<byte>)
    requires Accepted(data) && |data'| == |data| && data' != data
    requires data'[..COUNTER] == data[..COUNTER]
    ensures !Accepted(data')
  {
  }

  /** Cutting is not: the receiver compares with the construction for the length it got, and a
      payload cut short behind its counter is the payload of that length. */
  lemma CutPayloadStillAccepted(count: nat, n: nat, m: nat)
    requires count < Range(COUNTER) && COUNTER <= m <= n
    ensures Payload(count, n)[..m] == Payload(count, m) && Accepted(Payload(count, n)[..m])
  {
    hide ToLe, Stream, Start, FromLe, Accepted;
    StreamPrefix(Start(count), m - COUNTER, n - COUNTER);
    assert Payload(count, n)[..m] == ToLe(count, COUNTER) + Stream(Start(count), n - COUNTER)[..m - COUNTER];
    AcceptedIffBuilt(Payload(count, m));
  }

  lemma WordBytesInjective(x: bv32, y: bv32)
    requires WordBytes(x) == WordBytes(y)
    ensures x == y
  {
    hide ToLe, FromLe;
    assert Range(4) == TWO_TO_THE_32;
    LeRoundTrip(x as nat, 4);
    LeRoundTrip(y as nat, 4);
    assert (x as nat) as bv32 == (y as nat) as bv32;
  }

  lemma BodyIsStream(c: nat, n: nat)
    requires n >= COUNTER
    ensures Payload(c, n)[..COUNTER] == ToLe(c, COUNTER)
    ensures Payload(c, n)[COUNTER..] == Stream(Start(c), n - COUNTER)
  {
    hide ToLe, Stream, Start;
  }

  /** From the first whole word on, equal bodies mean equal generators ... */
  lemma BodiesCollide(c: nat, d: nat, n: nat)
    requires n >= COUNTER + 4
    ensures Payload(c, n)[COUNTER..] == Payload(d, n)[COUNTER..] <==> Start(c) == Start(d)
  {
    hide *;
    BodyIsStream(c, n);
    BodyIsStream(d, n);
    var len := n - COUNTER;
    if Stream(Start(c), len) == Stream(Start(d), len) {
      FirstWord(Start(c), len);
      FirstWord(Start(d), len);
      WordBytesInjective(Step(Start(c)), Step(Start(d)));
      StepInjective(Start(c), Start(d));
    }
  }

  /** ... and those see the counter through its low 32 bits only, telling all of them apart but
      for the two whose seeds are 0 and 1. */
  lemma StartsCollide(c: nat, d: nat)
    ensures Start(c) == Start(d) <==>
              Seed(c) == Seed(d) || (Seed(c) == 0 && Seed(d) == 1) || (Seed(c) == 1 && Seed(d) == 0)
    ensures Seed(c) == Seed(d) <==> Low32(c) == Low32(d)
  {
    assert Seed(c) == Seed(d) <==> Low32(c) == Low32(d) by {
      hide Low32;
      XorCancels(PRNG_SEED, Low32(c), Low32(d));
    }
    hide Seed, Seeded, Low32;
    OutputsCollide(Seed(c), Seed(d), 0);
  }

  lemma FirstWord(state: bv32, n: nat)
    requires n >= 4
    ensures Stream(state, n)[..4] == WordBytes(Step(state))
  {
    hide Step, WordBytes;
    StreamPrefix(state, 4, n);
    assert Words(state, 1) == [] + WordBytes(Nth(state, 1));
    assert Nth(state, 0) == state;
  }

  lemma XorCancels(s: bv32, a: bv32, b: bv32)
    ensures s ^ a == s ^ b <==> a == b
  {
  }

  /** One blob from sender to receiver over SFP: it arrives, and is not flagged. */
  method BlobEndToEnd(count: nat, rx: Receiver, usizeMax: nat)
    requires count < 0x1_0000_0000_0000_0000 && 0xFFFF_FFFF <= usizeMax
    modifies rx
    ensures rx.errors == old(rx.errors) && rx.count == old(rx.count) + 1
    ensures rx.bytesRecv == old(rx.bytesRecv) + 600
  {
    RangeValues();
    var data := Build(count, BLOB_SIZE);
    var _, received := SfpTransfer.Transfer(data[..], BLOB_MTU, usizeMax, 0);
    AcceptedIffBuilt(Payload(count, BLOB_SIZE));
    rx.Check(received);
  }
}
