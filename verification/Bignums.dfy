/** Sign-magnitude integers (runtime/Clib/cbignum.c), in the build where a long fits one limb. */
module Bignums {
  import opened Common
  import opened Limbs

  /** Magnitudes as they are stored: no zero limb on top. */
  predicate Trimmed(s: seq<limb>) {
    s != [] ==> s[|s| - 1] != 0
  }

  /** The sign of `siz` is the sign of the number, its magnitude the number of limbs in use. */
  class Bignum {
    var limbs: array<limb>
    var alloc: nat
    var siz: int

    /** Normal form: the magnitude is trimmed, and so zero has size 0. */
    predicate Normal()
      reads this, limbs
    {
      Abs(siz) <= limbs.Length && Trimmed(limbs[..Abs(siz)])
    }

    function Magnitude(): seq<limb>
      requires Normal()
      reads this, limbs
    {
      limbs[..Abs(siz)]
    }

    function Value(): int
      requires Normal()
      reads this, limbs
    {
      if siz < 0 then 0 - Val(Magnitude()) else Val(Magnitude())
    }

    /** make_bignum. */
    constructor (sz: nat)
      ensures fresh(limbs) && limbs.Length == sz == alloc && siz == 0
    {
      limbs := new limb[sz];
      alloc := sz;
      siz := 0;
    }
  }

  lemma TrimmedPositive(s: seq<limb>)
    requires Trimmed(s)
    ensures Val(s) > 0 <==> s != []
    ensures s != [] ==> Val(s) >= Pow(|s| - 1)
  {}

  /** A trimmed magnitude of more limbs is larger. */
  lemma LongerIsLarger(x: seq<limb>, y: seq<limb>)
    requires Trimmed(x) && |x| > |y|
    ensures Val(x) > Val(y)
  {
    TrimmedPositive(x);
    ValBound(y);
    PowMonotone(|y|, |x| - 1);
  }

  /** bignum_set_size: drops the zero limbs on top. */
  method SetSize(x: Bignum, size: nat)
    requires 0 < size <= x.limbs.Length
    modifies x`siz
    ensures x.Normal() && 0 <= x.siz <= size
    ensures x.Value() == Val(x.limbs[..size])
  {
    var count := size - 1;
    while count > 0 && x.limbs[count] == 0
      invariant 0 <= count < size
      invariant forall k | count < k < size :: x.limbs[k] == 0
    {
      count := count - 1;
    }
    ghost var s := x.limbs[..size];
    if count == 0 && x.limbs[0] == 0 {
      x.siz := 0;
      ValZeroTail(s, 0);
      assert x.limbs[..0] == s[..0];
    } else {
      x.siz := count + 1;
      ValZeroTail(s, count + 1);
      assert x.limbs[..count + 1] == s[..count + 1];
    }
  }

  /** bgl_long_to_bignum; the magnitude of the least long wraps to itself. */
  method LongToBignum(n: int) returns (x: Bignum)
    requires -BASE / 2 <= n < BASE / 2
    ensures x.Normal() && x.Value() == n
  {
    hide Val;
    x := new Bignum(1);
    if n < 0 {
      WordMagnitude(n);
      x.limbs[0] := -n % BASE;
      x.siz := -1;
    } else {
      x.limbs[0] := n;
      x.siz := if n != 0 then 1 else 0;
    }
    assert x.limbs[..1] == [x.limbs[0]];
    OneLimb(x.limbs[0]);
  }

  lemma WordMagnitude(n: int)
    requires -BASE / 2 <= n < 0
    ensures -n % BASE == -n
  {}

  lemma OneLimb(a: limb)
    ensures Val([a]) == a && Val([]) == 0
  {}

  /** bignum_cmp_aux. */
  method CmpAux(x: seq<limb>, y: seq<limb>) returns (r: int)
    requires Trimmed(x) && Trimmed(y)
    ensures r < 0 <==> Val(x) < Val(y)
    ensures r > 0 <==> Val(x) > Val(y)
  {
    if |x| < |y| {
      LongerIsLarger(y, x);
      return -1;
    } else if |x| > |y| {
      LongerIsLarger(x, y);
      return 1;
    } else {
      r := MpnCmp(x, y);
    }
  }

  /** bgl_bignum_cmp. */
  method Cmp(x: Bignum, y: Bignum) returns (r: int)
    requires x.Normal() && y.Normal()
    ensures r < 0 <==> x.Value() < y.Value()
    ensures r > 0 <==> x.Value() > y.Value()
  {
    TrimmedPositive(x.Magnitude());
    TrimmedPositive(y.Magnitude());
    if x.siz > 0 {
      if y.siz > 0 {
        r := CmpAux(x.limbs[..x.siz], y.limbs[..y.siz]);
      } else {
        r := 1;
      }
    } else if x.siz < 0 {
      if y.siz < 0 {
        r := CmpAux(y.limbs[..-y.siz], x.limbs[..-x.siz]);
      } else {
        r := -1;
      }
    } else {
      r := if y.siz > 0 then -1 else if y.siz < 0 then 1 else 0;
    }
  }

  /** bgl_bignum_neg. */
  method Neg(x: Bignum) returns (y: Bignum)
    requires x.Normal()
    ensures y.Normal() && y.Value() == -x.Value()
  {
    if x.siz != 0 {
      var size := if x.siz > 0 then x.siz else -x.siz;
      y := new Bignum(size);
      forall k | 0 <= k < size { y.limbs[k] := x.limbs[k]; }
      y.siz := -x.siz;
      assert y.limbs[..size] == x.limbs[..size];
    } else {
      y := x;
    }
  }

  /** bignum_add_pos_pos_aux. */
  method AddPosPosAux(x: seq<limb>, y: seq<limb>) returns (z: Bignum)
    requires Trimmed(x) && x != [] && |y| <= |x|
    ensures fresh(z) && z.Normal() && z.siz > 0 && z.Value() == Val(x) + Val(y)
  {
    z := new Bignum(|x| + 1);
    var carry := MpnAdd(z.limbs, x, y);
    if carry != 0 {
      ghost var low := z.limbs[..|x|];
      z.limbs[|x|] := carry;
      assert z.limbs[..|x| + 1] == low + [carry];
      ValSnoc(low, carry);
      z.siz := |x| + 1;
      z.alloc := |x| + 1;
    } else {
      TopLimb(x);
      TopLimb(z.limbs[..|x|]);
      z.siz := |x|;
      z.alloc := |x|;
    }
  }

  /** bignum_add_pos_pos. */
  method AddPosPos(x: seq<limb>, y: seq<limb>) returns (z: Bignum)
    requires Trimmed(x) && x != [] && Trimmed(y) && y != []
    ensures fresh(z) && z.Normal() && z.siz > 0 && z.Value() == Val(x) + Val(y)
  {
    if |x| >= |y| {
      z := AddPosPosAux(x, y);
    } else {
      z := AddPosPosAux(y, x);
    }
  }

  lemma NoBorrow(borrow: nat, d: nat, x: nat, y: nat, p: nat)
    requires d < p && y <= x && d + y == x + borrow * p
    ensures borrow == 0
  {}

  /** The end of bignum_add_pos_neg_aux: the limbs that cancel are dropped. */
  method DropCancelled(z: Bignum, size: nat)
    requires 0 < size <= z.limbs.Length
    modifies z`siz, z`alloc
    ensures z.Normal() && 0 <= z.siz <= size
    ensures z.Value() == Val(z.limbs[..size])
  {
    hide Val, Pow;
    var count := size - 1;
    while count > 0 && z.limbs[count] == 0
      invariant 0 <= count < size
      invariant forall k | count < k < size :: z.limbs[k] == 0
    {
      count := count - 1;
    }
    count := count + 1;
    if count != size {
      z.alloc := count;
    }
    ghost var s := z.limbs[..size];
    if count == 1 && z.limbs[0] == 0 {
      ValZeroTail(s, 0);
      assert z.limbs[..0] == s[..0];
      z.siz := 0;
    } else {
      ValZeroTail(s, count);
      assert z.limbs[..count] == s[..count];
      z.siz := count;
    }
  }

  /** bignum_add_pos_neg_aux: the difference, without a borrow. */
  method AddPosNegAux(x: seq<limb>, y: seq<limb>) returns (z: Bignum)
    requires x != [] && |y| <= |x| && Val(x) >= Val(y)
    ensures fresh(z) && z.Normal() && z.siz >= 0 && z.Value() == Val(x) - Val(y)
  {
    hide Val, Pow, Bignum.Normal, Bignum.Value;
    z := new Bignum(|x|);
    var borrow := MpnSub(z.limbs, x, y);
    ValBound(z.limbs[..|x|]);
    NoBorrow(borrow, Val(z.limbs[..|x|]), Val(x), Val(y), Pow(|x|));
    assert borrow == 0;
    DropCancelled(z, |x|);
  }

  /** bignum_add_neg_pos_aux. */
  method AddNegPosAux(x: seq<limb>, y: seq<limb>) returns (z: Bignum)
    requires x != [] && |y| <= |x| && Val(x) >= Val(y)
    ensures fresh(z) && z.Normal() && z.siz <= 0 && z.Value() == Val(y) - Val(x)
  {
    z := AddPosNegAux(x, y);
    z.siz := -z.siz;
  }

  /** bignum_add_pos_neg. */
  method AddPosNeg(x: seq<limb>, y: seq<limb>) returns (z: Bignum)
    requires Trimmed(x) && x != [] && Trimmed(y) && y != []
    ensures z.Normal() && z.Value() == Val(x) - Val(y)
  {
    if |x| > |y| {
      LongerIsLarger(x, y);
      z := AddPosNegAux(x, y);
    } else if |x| < |y| {
      LongerIsLarger(y, x);
      z := AddNegPosAux(y, x);
    } else {
      var test := MpnCmp(x, y);
      if test > 0 {
        z := AddPosNegAux(x, y);
      } else if test < 0 {
        z := AddNegPosAux(y, x);
      } else {
        z := LongToBignum(0);
      }
    }
  }

  /** bignum_add_neg_neg. */
  method AddNegNeg(x: seq<limb>, y: seq<limb>) returns (z: Bignum)
    requires Trimmed(x) && x != [] && Trimmed(y) && y != []
    ensures z.Normal() && z.Value() == 0 - Val(x) - Val(y)
  {
    z := AddPosPos(x, y);
    z.siz := -z.siz;
  }

  /** bgl_bignum_add. */
  method Add(x: Bignum, y: Bignum) returns (z: Bignum)
    requires x.Normal() && y.Normal()
    ensures z.Normal() && z.Value() == x.Value() + y.Value()
  {
    TrimmedPositive(x.Magnitude());
    TrimmedPositive(y.Magnitude());
    if x.siz > 0 {
      if y.siz > 0 {
        z := AddPosPos(x.limbs[..x.siz], y.limbs[..y.siz]);
      } else if y.siz < 0 {
        z := AddPosNeg(x.limbs[..x.siz], y.limbs[..-y.siz]);
      } else {
        z := x;
      }
    } else if x.siz < 0 {
      if y.siz > 0 {
        z := AddPosNeg(y.limbs[..y.siz], x.limbs[..-x.siz]);
      } else if y.siz < 0 {
        z := AddNegNeg(x.limbs[..-x.siz], y.limbs[..-y.siz]);
      } else {
        z := x;
      }
    } else {
      z := y;
    }
  }

  /** bgl_bignum_sub. */
  method Sub(x: Bignum, y: Bignum) returns (z: Bignum)
    requires x.Normal() && y.Normal()
    ensures z.Normal() && z.Value() == x.Value() - y.Value()
  {
    TrimmedPositive(x.Magnitude());
    TrimmedPositive(y.Magnitude());
    if x.siz > 0 {
      if y.siz > 0 {
        z := AddPosNeg(x.limbs[..x.siz], y.limbs[..y.siz]);
      } else if y.siz < 0 {
        z := AddPosPos(x.limbs[..x.siz], y.limbs[..-y.siz]);
      } else {
        z := x;
      }
    } else if x.siz < 0 {
      if y.siz > 0 {
        z := AddNegNeg(x.limbs[..-x.siz], y.limbs[..y.siz]);
      } else if y.siz < 0 {
        z := AddPosNeg(y.limbs[..-y.siz], x.limbs[..-x.siz]);
      } else {
        z := x;
      }
    } else {
      z := Neg(y);
    }
  }

  /** The product of two trimmed magnitudes lacks at most its top limb. */
  lemma ProductSize(x: seq<limb>, y: seq<limb>, z: seq<limb>)
    requires Trimmed(x) && x != [] && Trimmed(y) && y != []
    requires |z| == |x| + |y| && Val(z) == Val(x) * Val(y)
    ensures z[|z| - 1] == 0 ==> z[|z| - 2] != 0 && Val(z[..|z| - 1]) == Val(z)
  {
    hide Val, Pow;
    ProductBound(x, y);
    if z[|z| - 1] == 0 {
      ValPrefix(z, |z| - 1);
      assert z[..|z|] == z;
      TopLimb(z[..|z| - 1]);
    }
  }

  lemma ProductBound(x: seq<limb>, y: seq<limb>)
    requires Trimmed(x) && x != [] && Trimmed(y) && y != []
    ensures Pow(|x| + |y| - 2) <= Val(x) * Val(y)
  {
    TrimmedPositive(x);
    TrimmedPositive(y);
    hide Val, Pow;
    PowAdd(|x| - 1, |y| - 1);
    Monotone(Pow(|x| - 1), Val(x), Pow(|y| - 1));
    Monotone(Pow(|y| - 1), Val(y), Val(x));
  }

  /** The product of the magnitudes in bgl_bignum_mul, before the sign is set. */
  method MulMagnitudes(x: seq<limb>, y: seq<limb>) returns (z: Bignum)
    requires Trimmed(x) && x != [] && Trimmed(y) && y != []
    ensures fresh(z) && z.Normal() && z.siz > 0 && z.Value() == Val(x) * Val(y)
  {
    hide Val;
    var sizeZ := |x| + |y|;
    z := new Bignum(sizeZ);
    if |x| >= |y| {
      MpnMul(z.limbs, x, y);
    } else {
      MpnMul(z.limbs, y, x);
    }
    ghost var s := z.limbs[..];
    ProductSize(x, y, s);
    assert z.limbs[..sizeZ] == s && z.limbs[..sizeZ - 1] == s[..sizeZ - 1];
    if z.limbs[sizeZ - 1] == 0 {
      z.siz := sizeZ - 1;
    } else {
      z.siz := sizeZ;
    }
  }

  /** bgl_bignum_mul. */
  method Mul(x: Bignum, y: Bignum) returns (z: Bignum)
    requires x.Normal() && y.Normal()
    ensures z.Normal() && z.Value() == x.Value() * y.Value()
  {
    hide Val;
    var sizeX, sizeY := Abs(x.siz), Abs(y.siz);
    TrimmedPositive(x.Magnitude());
    TrimmedPositive(y.Magnitude());
    if sizeY == 0 || sizeX == 0 {
      z := LongToBignum(0);
    } else {
      z := MulMagnitudes(x.limbs[..sizeX], y.limbs[..sizeY]);
      SignedProduct(Val(x.Magnitude()), Val(y.Magnitude()));
      if x.siz > 0 {
        if y.siz < 0 {
          z.siz := -z.siz;
        }
      } else if x.siz < 0 {
        if y.siz > 0 {
          z.siz := -z.siz;
        }
      }
    }
  }

  lemma SignedProduct(a: int, b: int)
    ensures (-a) * b == -(a * b) && a * (-b) == -(a * b) && (-a) * (-b) == a * b
  {}
}
