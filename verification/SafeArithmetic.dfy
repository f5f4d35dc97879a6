/** Machine arithmetic that promotes to bignums on overflow (bgl_safe_* in
    runtime/Clib/cbignum.c, the build without overflow builtins). elong and llong are both
    64-bit words here. */
module SafeArithmetic {
  import opened Common
  import opened Limbs
  import opened Bignums

  type word = x: int | LONG_MIN <= x <= LONG_MAX

  /** A machine word, a bignum, or the machine trap of dividing the least word by -1. */
  datatype Result = Word(w: word) | Big(b: Bignum) | Trap

  /** Two's complement wrap-around. */
  function Wrap(n: int): word {
    (n - LONG_MIN) % BASE + LONG_MIN
  }

  /** The sign bit. */
  predicate Sign(x: word) {
    x < 0
  }

  predicate Fits(n: int) {
    LONG_MIN <= n <= LONG_MAX
  }

  /** Signs tell whether a sum wrapped around. */
  lemma PlusOverflow(x: word, y: word)
    ensures (Sign(x) == Sign(y) && Sign(Wrap(x + y)) != Sign(x)) <==> !Fits(x + y)
  {}

  lemma MinusOverflow(x: word, y: word)
    ensures (Sign(x) != Sign(y) && Sign(Wrap(x - y)) != Sign(x)) <==> !Fits(x - y)
  {}

  lemma DivBounds(a: nat, b: nat)
    requires b > 0
    ensures a / b * b <= a < a / b * b + b
  {}

  lemma TruncDivClose(a: int, b: int)
    requires b != 0
    ensures Abs(a - TruncDiv(a, b) * b) < Abs(b)
  {}

  lemma TruncDivExact(x: int, y: int)
    requires y != 0
    ensures TruncDiv(x * y, y) == x
  {
    SignedProduct(Abs(x), Abs(y));
    assert Abs(x * y) == Abs(x) * Abs(y) by { ProductSign(x, y); }
    DivExact(Abs(x), Abs(y));
    ProductSign(x, y);
  }

  lemma DivExact(a: nat, b: nat)
    requires b > 0
    ensures a * b / b == a
  {
    DivBounds(a * b, b);
    var q := a * b / b;
    if q < a {
      Monotone(q + 1, a, b);
    } else if q > a {
      Monotone(a + 1, q, b);
    }
  }

  lemma ProductSign(x: int, y: int)
    ensures Abs(x * y) == Abs(x) * Abs(y)
    ensures (x > 0 && y > 0) || (x < 0 && y < 0) ==> x * y > 0
    ensures (x > 0 && y < 0) || (x < 0 && y > 0) ==> x * y < 0
  {}

  /** Dividing the wrapped product back finds out whether it wrapped. */
  lemma MulOverflow(x: word, y: word)
    requires y != 0
    ensures TruncDiv(Wrap(x * y), y) == x <==> Fits(x * y)
  {
    var z := Wrap(x * y);
    if Fits(x * y) {
      TruncDivExact(x, y);
    } else {
      var k := (x * y - LONG_MIN) / BASE;
      assert x * y - z == k * BASE;
      assert k != 0;
      TruncDivClose(z, y);
    }
  }

  /** bgl_safe_plus_elong and bgl_safe_plus_llong. */
  method SafePlus(x: word, y: word) returns (r: Result)
    ensures Fits(x + y) ==> r == Word(x + y)
    ensures !Fits(x + y) ==> r.Big? && r.b.Normal() && r.b.Value() == x + y
  {
    var z := Wrap(x + y);
    PlusOverflow(x, y);
    if Sign(x) == Sign(y) && Sign(z) != Sign(x) {
      var u := LongToBignum(x);
      var v := LongToBignum(y);
      var b := Add(u, v);
      return Big(b);
    } else {
      return Word(z);
    }
  }

  /** bgl_safe_minus_elong and bgl_safe_minus_llong. */
  method SafeMinus(x: word, y: word) returns (r: Result)
    ensures Fits(x - y) ==> r == Word(x - y)
    ensures !Fits(x - y) ==> r.Big? && r.b.Normal() && r.b.Value() == x - y
  {
    var z := Wrap(x - y);
    MinusOverflow(x, y);
    if Sign(x) != Sign(y) && Sign(z) != Sign(x) {
      var u := LongToBignum(x);
      var v := LongToBignum(y);
      var b := Sub(u, v);
      return Big(b);
    } else {
      return Word(z);
    }
  }

  /** bgl_safe_mul_elong and bgl_safe_mul_llong. The check divides the wrapped product, which
      traps for the least word times -1 and only then. */
  method SafeMul(x: word, y: word) returns (r: Result)
    ensures r == Trap <==> x == LONG_MIN && y == -1
    ensures r != Trap && Fits(x * y) ==> r == Word(x * y)
    ensures r != Trap && !Fits(x * y) ==> r.Big? && r.b.Normal() && r.b.Value() == x * y
  {
    if y == 0 {
      return Word(0);
    } else {
      var z := Wrap(x * y);
      MulOverflow(x, y);
      OnlyTrap(x, y);
      if z == LONG_MIN && y == -1 {
        return Trap;
      }
      if TruncDiv(z, y) == x {
        return Word(z);
      } else {
        var u := LongToBignum(x);
        var v := LongToBignum(y);
        var b := Mul(u, v);
        return Big(b);
      }
    }
  }

  lemma OnlyTrap(x: word, y: word)
    ensures Wrap(x * y) == LONG_MIN && y == -1 <==> x == LONG_MIN && y == -1
  {}
}
