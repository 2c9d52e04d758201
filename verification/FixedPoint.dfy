/** 26+6 fixed-point arithmetic: values are integers counted in 64ths. */
module FixedPoint {
  import opened Words

  const SCALE := 64

  predicate IsI32(x: int) {
    -0x8000_0000 <= x < 0x8000_0000
  }

  /** `x | 0`: the 32-bit integer that differs from `x` by a multiple of 2^32. */
  function ToI32(x: int): (r: int)
    ensures IsI32(r) && (r - x) % 0x1_0000_0000 == 0
    ensures IsI32(x) ==> r == x
  {
    (x + 0x8000_0000) % WORD - 0x8000_0000
  }

  function Add(a: int, b: int): int {
    ToI32(a + b)
  }

  function Subtract(a: int, b: int): int {
    ToI32(a - b)
  }

  /** `((a * b) >> 6) | 0`: an arithmetic shift rounds towards minus infinity. */
  function Multiply(a: int, b: int): int {
    ToI32(ToI32(a * b) / 64)
  }

  /** The exact dot product, in 64 * 64ths. */
  function Exact(a: seq<int>, b: seq<int>): int
    requires |a| == |b|
  {
    if a == [] then 0 else Exact(a[..|a| - 1], b[..|b| - 1]) + a[|a| - 1] * b[|b| - 1]
  }

  /** What the loop accumulates. */
  function Rounded(a: seq<int>, b: seq<int>): int
    requires |a| == |b|
  {
    if a == [] then 0 else Add(Rounded(a[..|a| - 1], b[..|b| - 1]), Multiply(a[|a| - 1], b[|b| - 1]))
  }

  /** No product and no partial sum leaves 32 bits. */
  predicate NoOverflow(a: seq<int>, b: seq<int>)
    requires |a| == |b|
  {
    a == [] ||
    (var n := |a| - 1;
     NoOverflow(a[..n], b[..n]) && IsI32(a[n] * b[n]) && IsI32(Rounded(a[..n], b[..n]) + a[n] * b[n] / SCALE))
  }

  method DotProduct(vecA: array<int>, vecB: array<int>, length: nat) returns (sum: int)
    requires length <= vecA.Length && length <= vecB.Length
    ensures sum == Rounded(vecA[..length], vecB[..length])
  {
    sum := 0;
    var i := 0;
    while i < length
      invariant 0 <= i <= length
      invariant sum == Rounded(vecA[..i], vecB[..i])
    {
      assert vecA[..i + 1][..i] == vecA[..i] && vecB[..i + 1][..i] == vecB[..i];
      sum := Add(sum, Multiply(vecA[i], vecB[i]));
      i := i + 1;
    }
  }

  lemma MultiplyBound(a: int, b: int)
    requires IsI32(a * b)
    ensures Multiply(a, b) == a * b / SCALE
    ensures SCALE * Multiply(a, b) <= a * b < SCALE * Multiply(a, b) + SCALE
  {
    var p := a * b;
    assert IsI32(p / SCALE);
  }

  /** When the product leaves 32 bits, what is left of it is shifted. */
  lemma MultiplyWraps(a: int, b: int)
    ensures 64 * Multiply(a, b) <= ToI32(a * b) < 64 * Multiply(a, b) + 64
  {
    hide ToI32;
    assert IsI32(ToI32(a * b) / 64);
  }

  /** The products, each rounded down to a 64th before they are added. */
  function Floors(a: seq<int>, b: seq<int>): int
    requires |a| == |b|
  {
    if a == [] then 0 else a[0] * b[0] / 64 + Floors(a[1..], b[1..])
  }

  lemma {:induction false} FloorsAppend(a: seq<int>, b: seq<int>, x: int, y: int)
    requires |a| == |b|
    ensures Floors(a + [x], b + [y]) == Floors(a, b) + x * y / 64
    decreases |a|
  {
    if a == [] {
      assert [x][1..] == [] && [y][1..] == [];
      assert a + [x] == [x] && b + [y] == [y];
    } else {
      assert (a + [x])[1..] == a[1..] + [x] && (b + [y])[1..] == b[1..] + [y];
      FloorsAppend(a[1..], b[1..], x, y);
    }
  }

  /** Without overflow the loop rounds each product, not the sum. */
  lemma {:induction false} DotProductIsSumOfFloors(a: seq<int>, b: seq<int>)
    requires |a| == |b| && NoOverflow(a, b)
    ensures Rounded(a, b) == Floors(a, b)
    decreases |a|
  {
    hide Multiply, ToI32, Floors;
    if a == [] {
      NoFloors(a, b);
    } else {
      var n := |a| - 1;
      DotProductIsSumOfFloors(a[..n], b[..n]);
      MultiplyBound(a[n], b[n]);
      FloorsAppend(a[..n], b[..n], a[n], b[n]);
      assert a == a[..n] + [a[n]] && b == b[..n] + [b[n]];
    }
  }

  lemma NoFloors(a: seq<int>, b: seq<int>)
    requires a == [] == b
    ensures Floors(a, b) == 0
  {
  }

  /** With products in range but sums that may not be, the result is that sum modulo 2^32. */
  lemma {:induction false} DotProductWraps(a: seq<int>, b: seq<int>)
    requires |a| == |b| && forall i :: 0 <= i < |a| ==> IsI32(a[i] * b[i])
    ensures Rounded(a, b) == ToI32(Floors(a, b))
    decreases |a|
  {
    hide Multiply, ToI32, Floors;
    if a == [] {
      NoFloors(a, b);
    } else {
      var n := |a| - 1;
      DotProductWraps(a[..n], b[..n]);
      MultiplyBound(a[n], b[n]);
      FloorsAppend(a[..n], b[..n], a[n], b[n]);
      assert a == a[..n] + [a[n]] && b == b[..n] + [b[n]];
      WrapTwice(Floors(a[..n], b[..n]), a[n] * b[n] / 64);
    }
  }

  lemma WrapTwice(x: int, y: int)
    ensures ToI32(ToI32(x) + y) == ToI32(x + y)
  {
  }

  /** The dot product never overestimates, and underestimates by less than one unit in the last place
      for each pair of components. */
  lemma {:induction false} DotProductError(a: seq<int>, b: seq<int>)
    requires |a| == |b| && NoOverflow(a, b)
    ensures SCALE * Rounded(a, b) <= Exact(a, b)
    ensures a != [] ==> Exact(a, b) < SCALE * Rounded(a, b) + SCALE * |a|
    decreases |a|
  {
    hide Multiply, ToI32;
    if a != [] {
      var n := |a| - 1;
      DotProductError(a[..n], b[..n]);
      MultiplyBound(a[n], b[n]);
    }
  }

  function Lerp(a: int, b: int, t: int): int {
    Add(a, Multiply(Subtract(b, a), t))
  }

  /** Interpolation is exact at both ends and stays between them, for either order of the ends. */
  lemma LerpIsBetween(a: int, b: int, t: int)
    requires IsI32(a) && IsI32(b) && IsI32(b - a) && IsI32((b - a) * t) && 0 <= t <= SCALE
    ensures t == 0 ==> Lerp(a, b, t) == a
    ensures t == SCALE ==> Lerp(a, b, t) == b
    ensures a <= b ==> a <= Lerp(a, b, t) <= b
    ensures b <= a ==> b <= Lerp(a, b, t) <= a
    ensures Lerp(a, b, t) == a + (b - a) * t / 64
    ensures 64 * (Lerp(a, b, t) - a) <= (b - a) * t < 64 * (Lerp(a, b, t) - a) + 64
  {
    var d := b - a;
    MultiplyBound(d, t);
    if d >= 0 {
      assert 0 <= d * t <= d * SCALE by { Between(d, t); }
    } else {
      assert d * SCALE <= d * t <= 0 by { Between(-d, t); assert -d * t == -(d * t); }
    }
  }

  lemma Between(d: nat, t: nat)
    requires t <= SCALE
    ensures 0 <= d * t <= d * SCALE
  {
  }
}
