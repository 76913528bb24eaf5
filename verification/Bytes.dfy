/** Fixed-width unsigned integers, their little-endian layout, and small facts about byte sequences. */
module Bytes {
  const TWO16: int := 0x1_0000
  const TWO32: int := 0x1_0000_0000
  const TWO64: int := 0x1_0000_0000_0000_0000

  datatype Option<+T> = None | Some(value: T)

  type byte = x: int | 0 <= x < 0x100
  type u16 = x: int | 0 <= x < 0x1_0000
  type u32 = x: int | 0 <= x < 0x1_0000_0000
  type u64 = x: int | 0 <= x < 0x1_0000_0000_0000_0000

  predicate Mult8(x: int) { x % 8 == 0 }

  function Wrap32(x: int): (r: u32) { x % TWO32 }

  lemma WrapSmall(x: int)
    requires 0 <= x < TWO32
    ensures Wrap32(x) == x
  {
  }

  function Min(a: int, b: int): int { if a < b then a else b }

  function Le16(s: seq<byte>, i: nat): (v: u16)
    requires i + 2 <= |s|
  {
    (s[i] as int) + 0x100 * (s[i + 1] as int)
  }

  function Le32(s: seq<byte>, i: nat): (v: u32)
    requires i + 4 <= |s|
  {
    (s[i] as int) + 0x100 * (s[i + 1] as int) + 0x1_0000 * (s[i + 2] as int) + 0x100_0000 * (s[i + 3] as int)
  }

  function Le64(s: seq<byte>, i: nat): (v: u64)
    requires i + 8 <= |s|
  {
    (Le32(s, i) as int) + 0x1_0000_0000 * (Le32(s, i + 4) as int)
  }

  lemma Digits32(v: u32)
    ensures v
         == v % 0x100 + 0x100 * (v / 0x100 % 0x100) + 0x1_0000 * (v / 0x1_0000 % 0x100) + 0x100_0000 * (v / 0x100_0000)
    ensures v / 0x100_0000 < 0x100
  {
    var a := v / 0x100;
    var b := a / 0x100;
    assert b == v / 0x1_0000;
    assert b / 0x100 == v / 0x100_0000;
  }

  /** Quotient and remainder are the ones that fit. */
  lemma DivMod(x: nat, d: nat, q: nat, r: nat)
    requires d > 0 && x == d * q + r && r < d
    ensures x / d == q && x % d == r
  {
    var p, s := x / d, x % d;
    assert d * p + s == x;
    if p < q { Multiples(d, p, q); }
    if q < p { Multiples(d, q, p); }
  }

  lemma Multiples(d: nat, p: nat, q: nat)
    requires p < q
    ensures d * p + d <= d * q
  {
    var k := q - p;
    Distribute(d, p, k);
    AtLeast(d, k);
    assert q == p + k;
  }

  lemma Distribute(d: nat, p: nat, k: nat)
    ensures d * (p + k) == d * p + d * k
  {
  }

  lemma AtLeast(d: nat, k: nat)
    requires k > 0
    ensures d * k >= d
  {
  }

  /** The two sequences hold the same bytes on [lo, hi). */
  ghost predicate Same(m: seq<byte>, n: seq<byte>, lo: int, hi: int)
  {
    |m| == |n| && forall k :: 0 <= k < |m| && lo <= k < hi ==> m[k] == n[k]
  }

  ghost predicate SameOutside(m: seq<byte>, n: seq<byte>, lo: int, hi: int)
  {
    |m| == |n| && forall k :: 0 <= k < |m| && !(lo <= k < hi) ==> m[k] == n[k]
  }

  lemma SliceOfSlice(m: seq<byte>, o: nat, size: nat, off: nat, n: nat)
    requires o + size <= |m| && off + n <= size
    ensures m[o..o + size][off..off + n] == m[o + off..o + off + n]
  {
    var s, a, b := m[o..o + size], m[o..o + size][off..off + n], m[o + off..o + off + n];
    forall k | 0 <= k < n ensures a[k] == b[k] { assert a[k] == s[off + k] == m[o + off + k]; }
  }

  lemma Assoc(a: seq<byte>, b: seq<byte>, c: seq<byte>)
    ensures a + b + c == a + (b + c)
  {
  }
}
