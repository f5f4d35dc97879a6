/** Unsigned limb vectors, least significant limb first: values, and plain loops for the
    GMP kernels that runtime/Clib/cbignum.c builds on. */
module Limbs {
  import opened Common

  const BASE := WORD

  type limb = x: int | 0 <= x < 0x1_0000_0000_0000_0000

  function Pow(n: nat): (p: nat)
    ensures p >= 1
  {
    if n == 0 then 1 else BASE * Pow(n - 1)
  }

  function Val(s: seq<limb>): nat {
    if s == [] then 0 else Val(s[..|s| - 1]) + s[|s| - 1] * Pow(|s| - 1)
  }

  lemma ValSnoc(s: seq<limb>, a: limb)
    ensures Val(s + [a]) == Val(s) + a * Pow(|s|)
  {}

  lemma ValPrefix(s: seq<limb>, i: nat)
    requires i < |s|
    ensures Val(s[..i + 1]) == Val(s[..i]) + s[i] * Pow(i)
  {
    assert s[..i + 1][..i] == s[..i];
  }

  /** a * p + p <= b * p for a < b. */
  lemma MulStep(a: nat, b: nat, p: nat)
    requires a < b
    ensures a * p + p <= b * p
  {
    assert (a + 1) * p <= b * p;
  }

  lemma {:induction false} ValBound(s: seq<limb>)
    ensures Val(s) < Pow(|s|)
  {
    if s != [] {
      ValBound(s[..|s| - 1]);
      MulStep(s[|s| - 1], BASE, Pow(|s| - 1));
    }
  }

  /** A nonzero top limb means a value of full length, and a zero one a shorter value. */
  lemma TopLimb(s: seq<limb>)
    requires s != []
    ensures s[|s| - 1] != 0 <==> Val(s) >= Pow(|s| - 1)
  {
    ValBound(s[..|s| - 1]);
    if s[|s| - 1] != 0 { MulStep(0, s[|s| - 1], Pow(|s| - 1)); }
  }

  lemma {:induction false} ValZeroTail(s: seq<limb>, n: nat)
    requires n <= |s| && forall i | n <= i < |s| :: s[i] == 0
    ensures Val(s) == Val(s[..n])
  {
    if n == |s| {
      assert s[..n] == s;
    } else {
      ValZeroTail(s[..|s| - 1], n);
      assert s[..|s| - 1][..n] == s[..n];
    }
  }

  lemma {:induction false} PowAdd(m: nat, n: nat)
    ensures Pow(m + n) == Pow(m) * Pow(n)
  {
    if n > 0 {
      PowAdd(m, n - 1);
      assert Pow(m + n) == BASE * Pow(m + (n - 1));
      assert Pow(m) * (BASE * Pow(n - 1)) == BASE * (Pow(m) * Pow(n - 1));
    }
  }

  lemma PowMonotone(m: nat, n: nat)
    requires m <= n
    ensures Pow(m) <= Pow(n)
  {}

  lemma {:induction false} ValUpdate(s: seq<limb>, k: nat, v: limb)
    requires k < |s|
    ensures Val(s[k := v]) == Val(s) + (v - s[k]) * Pow(k)
    decreases |s|
  {
    var t := s[k := v];
    var n := |s| - 1;
    if k == n {
      assert t[..n] == s[..n];
      assert v * Pow(n) - s[n] * Pow(n) == (v - s[n]) * Pow(n);
    } else {
      ValUpdate(s[..n], k, v);
      assert t[..n] == s[..n][k := v];
    }
  }

  // ---------------------------------------------------------------------
  // Kernels
  // ---------------------------------------------------------------------

  /** The limb of `y` at `i`, or zero beyond its end. */
  function LimbAt(y: seq<limb>, i: nat): limb {
    if i < |y| then y[i] else 0
  }

  lemma {:induction false} ValPadded(y: seq<limb>, i: nat)
    ensures i >= |y| ==> Val(y[..Min(i, |y|)]) == Val(y)
    ensures Val(y[..Min(i + 1, |y|)]) == Val(y[..Min(i, |y|)]) + LimbAt(y, i) * Pow(i)
  {
    assert y[..|y|] == y;
    if i < |y| { ValPrefix(y, i); }
  }

  /** One limb of a sum. */
  lemma SumStep(low: seq<limb>, x: seq<limb>, y: seq<limb>, i: nat, c: limb, t: nat)
    requires |low| == i < |x| && t == x[i] + LimbAt(y, i) + c && t / BASE < BASE
    requires Val(low) + c * Pow(i) == Val(x[..i]) + Val(y[..Min(i, |y|)])
    ensures Val(low + [t % BASE]) + t / BASE * Pow(i + 1) == Val(x[..i + 1]) + Val(y[..Min(i + 1, |y|)])
  {
    ValPrefix(x, i);
    ValPadded(y, i);
    ValSnoc(low, t % BASE);
    assert Pow(i + 1) == BASE * Pow(i);
    hide Val, Pow;
    AddStep(x[i], LimbAt(y, i), c, t, Pow(i));
  }

  /** mpn_add. */
  method MpnAdd(z: array<limb>, x: seq<limb>, y: seq<limb>) returns (carry: limb)
    requires |y| <= |x| <= z.Length
    modifies z
    ensures carry <= 1
    ensures Val(z[..|x|]) + carry * Pow(|x|) == Val(x) + Val(y)
    ensures z[|x|..] == old(z[|x|..])
  {
    carry := 0;
    assert z[..0] == x[..0] == y[..0] == [];
    hide Val, Pow;
    for i := 0 to |x|
      invariant carry <= 1
      invariant Val(z[..i]) + carry * Pow(i) == Val(x[..i]) + Val(y[..Min(i, |y|)])
      invariant z[|x|..] == old(z[|x|..])
    {
      var t := x[i] + LimbAt(y, i) + carry;
      ghost var before := z[..i];
      SumStep(before, x, y, i, carry, t);
      z[i] := t % BASE;
      carry := t / BASE;
      assert z[..i + 1] == before + [z[i]];
    }
    assert x[..|x|] == x;
    ValPadded(y, |x|);
  }

  lemma AddStep(a: nat, b: nat, c: nat, t: nat, p: nat)
    requires t == a + b + c
    ensures t % BASE * p + t / BASE * (BASE * p) == a * p + b * p + c * p
  {}

  /** mpn_sub. */
  method MpnSub(z: array<limb>, x: seq<limb>, y: seq<limb>) returns (borrow: limb)
    requires |y| <= |x| <= z.Length
    modifies z
    ensures borrow <= 1
    ensures Val(z[..|x|]) + Val(y) == Val(x) + borrow * Pow(|x|)
    ensures z[|x|..] == old(z[|x|..])
  {
    borrow := 0;
    for i := 0 to |x|
      invariant borrow <= 1
      invariant Val(z[..i]) + Val(y[..Min(i, |y|)]) == Val(x[..i]) + borrow * Pow(i)
      invariant z[|x|..] == old(z[|x|..])
    {
      var t := x[i] - LimbAt(y, i) - borrow;
      ValPrefix(x, i);
      ValPadded(y, i);
      ghost var before, b0 := z[..i], borrow;
      z[i] := if t < 0 then t + BASE else t;
      borrow := if t < 0 then 1 else 0;
      SubStep(x[i], LimbAt(y, i), b0, z[i], borrow, Pow(i));
      assert z[..i + 1] == before + [z[i]];
      ValSnoc(before, z[i]);
    }
    assert x[..|x|] == x;
    ValPadded(y, |x|);
  }

  lemma SubStep(a: nat, b: nat, c: nat, d: nat, c': nat, p: nat)
    requires d + b + c == a + c' * BASE
    ensures d * p + b * p + c * p == a * p + c' * (BASE * p)
  {}

  /** mpn_cmp. */
  method MpnCmp(x: seq<limb>, y: seq<limb>) returns (r: int)
    requires |x| == |y|
    ensures r < 0 <==> Val(x) < Val(y)
    ensures r > 0 <==> Val(x) > Val(y)
  {
    var i := |x|;
    assert x[..i] == x && y[..i] == y;
    while i > 0
      invariant 0 <= i <= |x|
      invariant Val(x) - Val(y) == Val(x[..i]) - Val(y[..i])
    {
      ValPrefix(x, i - 1);
      ValPrefix(y, i - 1);
      i := i - 1;
      if x[i] != y[i] {
        ValBound(x[..i]);
        ValBound(y[..i]);
        if x[i] < y[i] {
          MulStep(x[i], y[i], Pow(i));
          return -1;
        } else {
          MulStep(y[i], x[i], Pow(i));
          return 1;
        }
      }
    }
    return 0;
  }

  lemma LimbProduct(a: limb, b: limb)
    ensures 0 <= a * b <= (BASE - 1) * (BASE - 1)
  {
    Monotone(b, BASE - 1, a);
  }

  lemma Monotone(a: nat, b: nat, c: nat)
    requires a <= b
    ensures 0 <= a * c <= b * c
  {}

  lemma Distribute(a: int, b: int, c: int)
    ensures (a + b) * c == a * c + b * c
  {}

  lemma Associate(a: int, b: int, c: int)
    ensures a * (b * c) == a * b * c
  {}

  /** One limb of the inner loop of a product: `s` at limb i + j takes in x[i] * b and the carry `c`. */
  lemma AddmulStep(s: seq<limb>, x: seq<limb>, b: limb, i: nat, j: nat, c: limb, t: nat, v0: int)
    requires i < |x| && i + j < |s| && t == s[i + j] + x[i] * b + c && t / BASE < BASE
    requires Val(s) + c * Pow(i + j) == v0 + Val(x[..i]) * b * Pow(j)
    ensures Val(s[i + j := t % BASE]) + t / BASE * Pow(i + j + 1) == v0 + Val(x[..i + 1]) * b * Pow(j)
  {
    ValUpdate(s, i + j, t % BASE);
    ValPrefix(x, i);
    MulRow(Val(x[..i]), x[i], Pow(i), b, Pow(j));
    PowAdd(i, j);
    assert Pow(i + j + 1) == BASE * Pow(i + j);
    hide Val, Pow;
    LimbProduct(x[i], b);
    MulStepLimb(s[i + j], x[i] * b, c, t, Pow(i + j));
  }

  /** The inner loop of mpn_mul: z += x * b at limb j, into zero limbs from j + |x| on. */
  method MpnAddmul(z: array<limb>, x: seq<limb>, b: limb, j: nat)
    requires j + |x| < z.Length
    requires z[j + |x|] == 0
    modifies z
    ensures Val(z[..]) == old(Val(z[..])) + Val(x) * b * Pow(j)
    ensures forall k | j + |x| < k < z.Length :: z[k] == old(z[k])
  {
    hide Val, Pow;
    var carry: limb := 0;
    ghost var v0 := Val(z[..]);
    EmptyRow(x, b, j);
    for i := 0 to |x|
      invariant Val(z[..]) + carry * Pow(i + j) == v0 + Val(x[..i]) * b * Pow(j)
      invariant forall k | j + |x| <= k < z.Length :: z[k] == old(z[k])
    {
      LimbProduct(x[i], b);
      var t := z[i + j] + x[i] * b + carry;
      ghost var s := z[..];
      assert t / BASE < BASE;
      AddmulStep(s, x, b, i, j, carry, t, v0);
      z[i + j] := t % BASE;
      carry := t / BASE;
      assert z[..] == s[i + j := z[i + j]];
    }
    ghost var s := z[..];
    z[j + |x|] := carry;
    assert z[..] == s[j + |x| := carry];
    ValUpdate(s, j + |x|, carry);
    assert x[..|x|] == x;
  }

  lemma EmptyRow(x: seq<limb>, b: limb, j: nat)
    ensures Val(x[..0]) * b * Pow(j) == 0
  {}

  lemma MulRow(v: nat, a: nat, p: nat, b: nat, q: nat)
    ensures (v + a * p) * b * q == v * b * q + a * b * (p * q)
  {}

  lemma MulStepLimb(s: nat, m: nat, c: nat, t: nat, p: nat)
    requires t == s + m + c
    ensures (t % BASE - s) * p + t / BASE * (BASE * p) == m * p + c * p
  {}

  /** One row of a product. */
  lemma MulRows(x: seq<limb>, y: seq<limb>, j: nat)
    requires j < |y|
    ensures Val(x) * Val(y[..j + 1]) == Val(x) * Val(y[..j]) + Val(x) * y[j] * Pow(j)
  {
    hide Val, Pow;
    ValPrefix(y, j);
    Distribute(Val(y[..j]), y[j] * Pow(j), Val(x));
    Associate(Val(x), y[j], Pow(j));
  }

  /** mpn_mul. */
  method MpnMul(z: array<limb>, x: seq<limb>, y: seq<limb>)
    requires z.Length == |x| + |y| && |x| > 0
    modifies z
    ensures Val(z[..]) == Val(x) * Val(y)
  {
    forall k | 0 <= k < z.Length { z[k] := 0; }
    ValZeroTail(z[..], 0);
    assert Val(z[..]) == 0 == Val(x) * Val(y[..0]);
    hide Val, Pow;
    for j := 0 to |y|
      invariant Val(z[..]) == Val(x) * Val(y[..j])
      invariant forall k | j + |x| <= k < z.Length :: z[k] == 0
    {
      MulRows(x, y, j);
      MpnAddmul(z, x, y[j], j);
    }
    assert y[..|y|] == y;
  }
}
