/** Bytes and the little-endian encoding used by `to_le_bytes`, `from_le_bytes` and by the
    size header of the heap shim. */
module Bytes {

  /** One octet, read as unsigned (the source casts `c_char` to `u8` before it computes). */
  type byte = x: int | 0 <= x < 0x100

  /** A C pointer. */
  datatype Ptr = Null | At(addr: nat)

  const U32_MAX: nat := 0xFFFF_FFFF
  const TWO_TO_THE_32: nat := 0x1_0000_0000

  /** `256^w`, the number of values a `w`-byte word can hold. */
  function Range(w: nat): (r: nat)
    ensures r >= 1
  {
    if w == 0 then 1 else 0x100 * Range(w - 1)
  }

  /** The `w` low-order bytes of `n`, least significant first. */
  function ToLe(n: nat, w: nat): (bs: seq<byte>)
    ensures |bs| == w
  {
    if w == 0 then [] else [n % 0x100] + ToLe(n / 0x100, w - 1)
  }

  /** The number whose little-endian representation is `bs`. */
  function FromLe(bs: seq<byte>): nat {
    if bs == [] then 0 else bs[0] + 0x100 * FromLe(bs[1..])
  }

  /** Decoding what was encoded returns the word. */
  lemma {:induction false} LeRoundTrip(n: nat, w: nat)
    requires n < Range(w)
    ensures FromLe(ToLe(n, w)) == n
  {
    if w > 0 {
      LeRoundTrip(n / 0x100, w - 1);
      assert ToLe(n, w)[1..] == ToLe(n / 0x100, w - 1);
    }
  }

  /** Encoding what was decoded returns the bytes, and the decoded word fits. */
  lemma {:induction false} LeRoundTripBytes(bs: seq<byte>)
    ensures FromLe(bs) < Range(|bs|)
    ensures ToLe(FromLe(bs), |bs|) == bs
  {
    if bs != [] {
      LeRoundTripBytes(bs[1..]);
      var rest := FromLe(bs[1..]);
      assert FromLe(bs) % 0x100 == bs[0] && FromLe(bs) / 0x100 == rest;
    }
  }

  /** The sizes of the words there are. */
  lemma RangeValues()
    ensures Range(1) == 0x100 && Range(2) == 0x1_0000
    ensures Range(4) == 0x1_0000_0000 && Range(8) == 0x1_0000_0000_0000_0000
  {
    assert Range(0) == 1 && Range(1) == 0x100 && Range(2) == 0x1_0000 && Range(3) == 0x100_0000;
    assert Range(4) == 0x1_0000_0000 && Range(5) == 0x100_0000_0000 && Range(6) == 0x1_0000_0000_0000;
    assert Range(7) == 0x100_0000_0000_0000;
  }

  /** Byte `k` is the digit of weight `256^k`: least significant first. */
  lemma {:induction false} LeByte(n: nat, w: nat, k: nat)
    requires k < w
    ensures ToLe(n, w)[k] == n / Range(k) % 0x100
  {
    if k > 0 {
      LeByte(n / 0x100, w - 1, k - 1);
      DivTwice(n, 0x100, Range(k - 1));
    }
  }

  lemma DivTwice(n: nat, a: nat, b: nat)
    requires a > 0 && b > 0
    ensures a * b > 0 && n / a / b == n / (a * b)
  {
    var m, s := n / a, n % a;
    var q, r := m / b, m % b;
    DivTwiceParts(a, b, q, r, s);
    DivIs(n, a * b, q, a * r + s);
  }

  lemma DivTwiceParts(a: nat, b: nat, q: nat, r: nat, s: nat)
    requires s < a && r < b
    ensures 0 <= a * r + s < a * b && a * (b * q + r) + s == a * b * q + (a * r + s)
  {
    MulGrows(a, r + 1, b);
    assert a * (b * q + r) == a * (b * q) + a * r;
    assert a * (b * q) == a * b * q;
  }

  lemma MulGrows(d: nat, x: nat, y: nat)
    requires x <= y
    ensures d * x <= d * y
  {
  }

  lemma DivIs(n: nat, d: nat, q: nat, r: nat)
    requires d > 0 && r < d && n == d * q + r
    ensures n / d == q
  {
    if n / d > q { MulGrows(d, q + 1, n / d); }
    if n / d < q { MulGrows(d, n / d + 1, q); }
  }

  /** A word spelled out. */
  lemma LeWord(n: nat)
    requires n < 0x1_0000_0000
    ensures ToLe(n, 4) == [n % 0x100, n / 0x100 % 0x100, n / 0x1_0000 % 0x100, n / 0x100_0000]
    ensures ToLe(0x12345678, 4) == [0x78, 0x56, 0x34, 0x12]
  {
    assert ToLe(n, 4) == [n % 0x100] + ToLe(n / 0x100, 3);
    assert ToLe(n / 0x100, 3) == [n / 0x100 % 0x100] + ToLe(n / 0x1_0000, 2);
    assert ToLe(n / 0x1_0000, 2) == [n / 0x1_0000 % 0x100] + ToLe(n / 0x100_0000, 1);
  }

  function Zeros(n: nat): (r: seq<byte>)
    ensures |r| == n && forall k :: 0 <= k < n ==> r[k] == 0
  {
    seq(n, i => 0)
  }
}
