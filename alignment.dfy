/**
 * `Renderer::alignPow2` (renderer.cpp:64-66): `(value + alignment - 1) & ~(alignment - 1)`
 * on 64-bit unsigned integers. The wrap-around of uint64 addition and subtraction is
 * written out, and the bitwise AND is defined bit by bit on naturals.
 */
module Alignment {

  const Two64: int := 0x1_0000_0000_0000_0000

  type uint64 = x: int | 0 <= x < Two64

  /** D3D12_CONSTANT_BUFFER_DATA_PLACEMENT_ALIGNMENT */
  const ConstantBufferAlignment: uint64 := 256

  function Pow2(k: nat): (r: nat)
    ensures r >= 1
  {
    if k == 0 then 1 else 2 * Pow2(k - 1)
  }

  ghost predicate IsMultipleOf(m: int, p: nat) {
    p > 0 && m % p == 0
  }

  /** `x & y` on naturals, from the least significant bit up. */
  function BitAnd(x: nat, y: nat): (r: nat)
    ensures r <= x && r <= y
  {
    if x == 0 || y == 0 then 0
    else 2 * BitAnd(x / 2, y / 2) + (if x % 2 == 1 && y % 2 == 1 then 1 else 0)
  }

  /** `~x` on a uint64. */
  function Not64(x: uint64): uint64 {
    Two64 - 1 - x
  }

  /** `alignPow2(value, alignment)` exactly as written, uint64 wrap-around included:
      an alignment of 1 keeps the value, and an alignment of 0 masks everything away. */
  function AlignPow2(value: uint64, alignment: uint64): (r: uint64)
    ensures alignment == 1 ==> r == value
    ensures alignment == 0 ==> r == 0
  {
    AllOnes64(value);
    var mask := (alignment + Two64 - 1) % Two64;
    var sum := (value + mask) % Two64;
    BitAnd(sum, Not64(mask))
  }

  /** The width of a material's constant buffer (renderer.cpp:422), for a
      `PBRMetallicRoughness` struct of `structSize` bytes. */
  function MaterialBufferWidth(structSize: uint64): (width: uint64)
    requires structSize + ConstantBufferAlignment - 1 < Two64
    ensures IsMultipleOf(width, 256)
    ensures structSize <= width < structSize + 256
  {
    Pow2Eight();
    AlignPow2Smallest(structSize, 8);
    AlignPow2(structSize, ConstantBufferAlignment)
  }

  // ---------------------------------------------------------------------------
  // Arithmetic facts

  lemma Pow2Eight()
    ensures Pow2(8) == 256
  {
  }

  lemma {:induction false} Pow2SixtyFour()
    ensures Pow2(64) == Two64
  {
    Pow2Eight();
    Pow2Add(8, 8);
    assert Pow2(16) == 0x1_0000;
    Pow2Add(16, 16);
    assert Pow2(32) == 0x1_0000_0000;
    Pow2Add(32, 32);
  }

  lemma {:induction false} Pow2Add(a: nat, b: nat)
    ensures Pow2(a + b) == Pow2(a) * Pow2(b)
    decreases a
  {
    if a > 0 {
      Pow2Add(a - 1, b);
      assert Pow2(a + b) == 2 * Pow2(a - 1 + b);
    }
  }

  lemma {:induction false} Pow2Monotone(k: nat, n: nat)
    requires k <= n
    ensures Pow2(k) <= Pow2(n)
    decreases n
  {
    if k < n {
      Pow2Monotone(k, n - 1);
    }
  }

  lemma {:induction false} MulMonotone(d: nat, a: int, b: int)
    ensures a <= b ==> d * a <= d * b
    decreases if a <= b then b - a else 0
  {
    if a < b {
      MulMonotone(d, a + 1, b);
      assert d * (a + 1) == d * a + d;
    }
  }

  /** The quotient and remainder are determined by any decomposition `x == d * q + r` with `0 <= r < d`. */
  lemma DivModUnique(x: int, d: int, q: int, r: int)
    requires d > 0 && 0 <= r < d && x == d * q + r
    ensures x / d == q && x % d == r
  {
    var q' := x / d;
    assert x == d * q' + x % d;
    MulMonotone(d, q + 1, q');
    MulMonotone(d, q' + 1, q);
    assert d * (q + 1) == d * q + d;
    assert d * (q' + 1) == d * q' + d;
  }

  /** The value of the `k` low bits of `x`, collected with divisions by 2 only. */
  function LowBits(x: nat, k: nat): nat {
    if k == 0 then 0 else x % 2 + 2 * LowBits(x / 2, k - 1)
  }

  /** `x % (2 * lo)` splits into the lowest bit and `(x / 2) % lo`. */
  lemma ModSplitLowestBit(x: nat, lo: nat)
    requires lo > 0
    ensures x % (2 * lo) == x % 2 + 2 * ((x / 2) % lo)
  {
    var q, b := x / 2, x % 2;
    var a, c := q / lo, q % lo;
    assert q == lo * a + c;
    assert x == (2 * lo) * a + (2 * c + b);
    DivModUnique(x, 2 * lo, a, 2 * c + b);
  }

  /** The `k` low bits of `x` are `x % 2^k`. */
  lemma {:induction false} LowBitsIsMod(x: nat, k: nat)
    ensures LowBits(x, k) == x % Pow2(k)
    decreases k
  {
    if k > 0 {
      LowBitsIsMod(x / 2, k - 1);
      ModSplitLowestBit(x, Pow2(k - 1));
    }
  }

  /** AND with all `n` low bits set is the identity below `2^n`. */
  lemma {:induction false} BitAndAllOnes(x: nat, n: nat)
    requires x < Pow2(n)
    ensures BitAnd(x, Pow2(n) - 1) == x
    decreases n
  {
    if n > 0 && x > 0 {
      var y := Pow2(n) - 1;
      assert y % 2 == 1 && y / 2 == Pow2(n - 1) - 1;
      BitAndAllOnes(x / 2, n - 1);
    }
  }

  /** AND with `~0` is the identity on a uint64. */
  lemma AllOnes64(x: uint64)
    ensures BitAnd(x, Two64 - 1) == x
  {
    Pow2SixtyFour();
    BitAndAllOnes(x, 64);
  }

  /** AND with the bits `0 .. n-1` set keeps all of `x` below `2^n`. */
  lemma ClearNoLowBits(x: nat, n: nat)
    requires x < Pow2(n)
    ensures BitAnd(x, Pow2(n) - Pow2(0)) == x - LowBits(x, 0)
  {
    BitAndAllOnes(x, n);
  }

  /** AND with no bit set clears all of `x` below `2^n`. */
  lemma ClearAllLowBits(x: nat, n: nat)
    requires x < Pow2(n)
    ensures BitAnd(x, Pow2(n) - Pow2(n)) == x - LowBits(x, n)
  {
    LowBitsIsMod(x, n);
    DivModUnique(x, Pow2(n), 0, x);
  }

  /** One step of `BitAndClearsLowBits`: the mask `2^n - 2^k` is even, so it drops the
      lowest bit of `x` and ANDs the rest with `2^(n-1) - 2^(k-1)`. */
  lemma ClearLowBitsStep(x: nat, n: nat, k: nat)
    requires 0 < k < n
    requires Pow2(k - 1) < Pow2(n - 1)
    requires BitAnd(x / 2, Pow2(n - 1) - Pow2(k - 1)) == x / 2 - LowBits(x / 2, k - 1)
    ensures BitAnd(x, Pow2(n) - Pow2(k)) == x - LowBits(x, k)
  {
    var lo, hi := Pow2(k - 1), Pow2(n - 1);
    var y := 2 * hi - 2 * lo;
    assert Pow2(n) - Pow2(k) == y;
    assert y > 0 && y % 2 == 0 && y / 2 == hi - lo;
    if x > 0 {
      assert BitAnd(x, y) == 2 * BitAnd(x / 2, hi - lo);
    }
  }

  /** AND with the bits `k .. n-1` set clears the `k` low bits. */
  lemma {:induction false} BitAndClearsLowBits(x: nat, n: nat, k: nat)
    requires k <= n && x < Pow2(n)
    ensures Pow2(k) <= Pow2(n)
    ensures BitAnd(x, Pow2(n) - Pow2(k)) == x - LowBits(x, k)
    decreases k, 1
  {
    Pow2Monotone(k, n);
    if k == 0 {
      ClearNoLowBits(x, n);
    } else if k == n {
      ClearAllLowBits(x, n);
    } else {
      ClearSomeLowBits(x, n, k);
    }
  }

  /** The case `0 < k < n` of `BitAndClearsLowBits`, by induction on `k`. */
  lemma {:induction false} ClearSomeLowBits(x: nat, n: nat, k: nat)
    requires 0 < k < n && x < Pow2(n)
    ensures Pow2(k) <= Pow2(n)
    ensures BitAnd(x, Pow2(n) - Pow2(k)) == x - LowBits(x, k)
    decreases k, 0
  {
    Pow2Monotone(k, n);
    Pow2Monotone(k, n - 1);
    BitAndClearsLowBits(x / 2, n - 1, k - 1);
    ClearLowBitsStep(x, n, k);
  }

  /** `x` rounded down to a multiple of `p`. */
  function RoundDown(x: nat, p: nat): nat
    requires p > 0
  {
    x - x % p
  }

  /** Rounding `value + p - 1` down to a multiple of `p` gives the smallest
      multiple of `p` that is at least `value`. */
  lemma RoundUpIsSmallestMultiple(value: nat, p: nat)
    requires p > 0
    ensures IsMultipleOf(RoundDown(value + p - 1, p), p)
    ensures value <= RoundDown(value + p - 1, p) < value + p
    ensures forall m :: IsMultipleOf(m, p) && m >= value ==> RoundDown(value + p - 1, p) <= m
  {
    var sum := value + p - 1;
    var r := RoundDown(sum, p);
    assert r == p * (sum / p);
    DivModUnique(r, p, sum / p, 0);
    forall m | IsMultipleOf(m, p) && m >= value
      ensures r <= m
    {
      if m < r {
        MultiplesApart(r, m, p);
      }
    }
  }

  /** Two multiples of `p` less than `p` apart are equal. */
  lemma MultiplesApart(m: int, n: int, p: nat)
    requires IsMultipleOf(m, p) && IsMultipleOf(n, p)
    requires n <= m < n + p
    ensures m == n
  {
    var a, b := m / p, n / p;
    assert m == p * a && n == p * b;
    MulMonotone(p, b + 1, a);
    MulMonotone(p, a + 1, b);
    assert p * (b + 1) == p * b + p;
    assert p * (a + 1) == p * a + p;
  }

  /** `alignment - 1` does not wrap for a non-zero alignment. */
  lemma MaskOf(p: nat)
    requires 0 < p < Two64
    ensures (p + Two64 - 1) % Two64 == p - 1
  {
    DivModUnique(p + Two64 - 1, Two64, 1, p - 1);
  }
  /** `alignPow2` with a non-zero alignment, the wrap of `alignment - 1` removed. */
  lemma AlignPow2Unfold(value: uint64, p: nat)
    requires 0 < p < Two64
    ensures AlignPow2(value, p) == BitAnd((value + (p - 1)) % Two64, Not64(p - 1))
  {
    MaskOf(p);
  }

  /** `value + alignment - 1` does not wrap when it fits. */
  lemma SumOf(value: uint64, p: nat)
    requires 0 < p && value + p - 1 < Two64
    ensures (value + (p - 1)) % Two64 == value + p - 1
  {
    DivModUnique(value + p - 1, Two64, 0, value + p - 1);
  }
  lemma Pow2BelowTwo64(k: nat)
    requires k < 64
    ensures Pow2(k) < Two64
  {
    Pow2SixtyFour();
    Pow2Monotone(k + 1, 64);
  }

  /** `x & ~(2^k - 1)` on a uint64 clears the `k` low bits. */
  lemma ClearLowBits64(x: uint64, k: nat)
    requires k < 64
    ensures Pow2(k) < Two64
    ensures BitAnd(x, Not64(Pow2(k) - 1)) == x - LowBits(x, k)
  {
    Pow2SixtyFour();
    Pow2Monotone(k + 1, 64);
    BitAndClearsLowBits(x, 64, k);
  }

  /** `alignPow2` with a non-zero alignment when `value + alignment - 1` fits in 64 bits. */
  lemma AlignPow2NoWrap(value: uint64, p: nat)
    requires 0 < p < Two64 && value + p - 1 < Two64
    ensures AlignPow2(value, p) == BitAnd(value + p - 1, Not64(p - 1))
  {
    AlignPow2Unfold(value, p);
    SumOf(value, p);
  }

  /** Without overflow, `alignPow2(value, 2^k)` clears the `k` low bits of `value + 2^k - 1`. */
  lemma AlignPow2ClearsLowBits(value: uint64, k: nat)
    requires k < 64 && value + Pow2(k) - 1 < Two64
    ensures Pow2(k) < Two64
    ensures AlignPow2(value, Pow2(k)) == value + Pow2(k) - 1 - LowBits(value + Pow2(k) - 1, k)
  {
    var p := Pow2(k);
    var sum: uint64 := value + p - 1;
    ClearLowBits64(sum, k);
    AlignPow2NoWrap(value, p);
  }

  /** Without overflow, `alignPow2(value, 2^k)` rounds `value + 2^k - 1` down to a multiple of `2^k`. */
  lemma AlignPow2RoundsDown(value: uint64, k: nat)
    requires k < 64 && value + Pow2(k) - 1 < Two64
    ensures Pow2(k) < Two64
    ensures AlignPow2(value, Pow2(k)) == RoundDown(value + Pow2(k) - 1, Pow2(k))
  {
    AlignPow2ClearsLowBits(value, k);
    LowBitsIsMod(value + Pow2(k) - 1, k);
  }

  // ---------------------------------------------------------------------------
  // Properties of alignPow2

  /** With a power-of-two alignment and no overflow, `alignPow2` returns the
      smallest multiple of the alignment that is at least `value`. */
  lemma AlignPow2Smallest(value: uint64, k: nat)
    requires k < 64 && value + Pow2(k) - 1 < Two64
    ensures Pow2(k) < Two64
    ensures IsMultipleOf(AlignPow2(value, Pow2(k)), Pow2(k))
    ensures value <= AlignPow2(value, Pow2(k)) < value + Pow2(k)
    ensures forall m :: IsMultipleOf(m, Pow2(k)) && m >= value ==> AlignPow2(value, Pow2(k)) <= m
  {
    AlignPow2RoundsDown(value, k);
    RoundUpIsSmallestMultiple(value, Pow2(k));
  }

  /** When `value + alignment - 1` overflows 64 bits, `alignPow2` wraps round to 0. */
  lemma AlignPow2WrapsToZero(value: uint64, k: nat)
    requires k < 64 && value + Pow2(k) - 1 >= Two64
    ensures Pow2(k) < Two64
    ensures AlignPow2(value, Pow2(k)) == 0
  {
    var p := Pow2(k);
    Pow2BelowTwo64(k);
    var sum := value + p - 1 - Two64;
    ClearLowBits64(sum, k);
    AlignPow2Unfold(value, p);
    DivModUnique(value + (p - 1), Two64, 1, sum);
    LowBitsIsMod(sum, k);
    DivModUnique(sum, p, 0, sum);
  }
}
