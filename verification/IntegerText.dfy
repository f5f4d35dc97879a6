/** Printing machine integers (integer_to_string, unsigned_to_string in runtime/Clib/cstring.c)
    and reading integer tokens (rgc_buffer_integer in runtime/Clib/crgc.c). */
module IntegerText {
  import opened Common
  import opened Bytes

  const PLUS: byte := 43
  const MINUS: byte := 45
  const ZERO: byte := 48

  // ---------------------------------------------------------------------
  // Numerals
  // ---------------------------------------------------------------------

  /** letters[v]. */
  function DigitChar(v: nat): byte
    requires v < 36
  {
    if v < 10 then 48 + v else 97 + (v - 10)
  }

  /** The table of digits. */
  lemma LettersInOrder(v: nat)
    requires v < 36
    ensures DigitChar(v) == "0123456789abcdefghijklmnopqrstuvwxyz"[v] as int
  {}

  lemma DigitsInOrder(v: nat)
    requires v < 10
    ensures IsDigit("0123456789"[v] as int) && DigitOf("0123456789"[v] as int) == v
  {}

  /** The digits of n, none for 0. */
  function Digits(n: nat, radix: nat): (r: seq<byte>)
    requires 2 <= radix <= 36
    ensures n == 0 <==> r == []
  {
    if n == 0 then [] else Digits(n / radix, radix) + [DigitChar(n % radix)]
  }

  /** The canonical numeral of an integer: no leading zero, a sign only if negative. */
  function Numeral(x: int, radix: nat): seq<byte>
    requires 2 <= radix <= 36
  {
    if x == 0 then [ZERO] else if x < 0 then [MINUS] + Digits(-x, radix) else Digits(x, radix)
  }

  /** What a character of `letters` is worth. */
  function DigitWorth(c: byte): int {
    if c >= 97 then (c as int) - 97 + 10 else DigitOf(c)
  }

  /** The value of digits. */
  function Worth(s: seq<byte>, radix: nat): int {
    if s == [] then 0 else radix * Worth(s[..|s| - 1], radix) + DigitWorth(s[|s| - 1])
  }

  /** The value of a numeral with a sign, if it has one. */
  function NumeralWorth(s: seq<byte>, radix: nat): int {
    if s != [] && s[0] == MINUS then 0 - Worth(s[1..], radix) else Worth(s, radix)
  }

  /** The digits of a number are worth the number in their radix; none is out of range, and
      the first is not zero. */
  lemma {:induction false} DigitsWorth(n: nat, radix: nat)
    requires 2 <= radix <= 36
    ensures Worth(Digits(n, radix), radix) == n
    ensures forall c | c in Digits(n, radix) :: 0 <= DigitWorth(c) < radix && (IsDigit(c) || 97 <= c <= 122)
    ensures n > 0 ==> Digits(n, radix)[0] != ZERO
  {
    hide Digits, Worth;
    if n > 0 {
      DivSmaller(n, radix);
      DigitsStep(n, radix);
      DivMod(n, radix);
      DigitsWorth(n / radix, radix);
      var d, c := Digits(n / radix, radix), DigitChar(n % radix);
      WorthSnoc(d, c, radix);
      assert d != [] ==> (d + [c])[0] == d[0];
    } else {
      assert Digits(n, radix) == [] && Worth([], radix) == 0 by { WorthNothing(radix); }
    }
  }

  lemma WorthNothing(radix: nat)
    ensures Worth([], radix) == 0
  {}

  lemma WorthSnoc(s: seq<byte>, c: byte, radix: nat)
    ensures Worth(s + [c], radix) == radix * Worth(s, radix) + DigitWorth(c)
  {
    assert (s + [c])[..|s|] == s;
  }

  lemma DivMod(n: nat, radix: nat)
    requires radix > 0
    ensures n == radix * (n / radix) + n % radix && 0 <= n % radix < radix
    ensures n < radix ==> n / radix == 0
  {}

  /** The numeral of an integer is worth it in every radix, and has a leading zero or a sign
      only if it must: no two integers have one numeral, and "-0" is none. */
  lemma NumeralIsCanonical(x: int, radix: nat)
    requires 2 <= radix <= 36
    ensures NumeralWorth(Numeral(x, radix), radix) == x
    ensures Numeral(x, radix)[0] == ZERO <==> x == 0
    ensures Numeral(x, radix)[0] == MINUS <==> x < 0
    ensures x < 0 ==> |Numeral(x, radix)| > 1 && Numeral(x, radix)[1] != ZERO
    ensures x == 0 ==> Numeral(x, radix) == [ZERO]
  {
    hide Digits;
    var d := Digits(Abs(x), radix);
    DigitsWorth(Abs(x), radix);
    if x < 0 {
      assert Numeral(x, radix) == [MINUS] + d && ([MINUS] + d)[1..] == d;
    } else if x == 0 {
      assert Worth([ZERO], radix) == radix * Worth([ZERO][..0], radix);
    } else {
      assert d[0] in d;
    }
  }

  /** The value of decimal digits. */
  function Decimal(s: seq<byte>): int {
    if s == [] then 0 else 10 * Decimal(s[..|s| - 1]) + DigitOf(s[|s| - 1])
  }

  lemma {:induction false} DecimalIsWorth(s: seq<byte>)
    requires AllDecimal(s)
    ensures Decimal(s) == Worth(s, 10)
  {
    if s != [] { DecimalIsWorth(s[..|s| - 1]); }
  }

  predicate AllDecimal(s: seq<byte>) {
    forall i | 0 <= i < |s| :: IsDigit(s[i])
  }

  lemma DecimalOfDigits(n: nat)
    ensures AllDecimal(Digits(n, 10)) && Decimal(Digits(n, 10)) == n
  {
    hide Digits, Worth, Decimal;
    var d := Digits(n, 10);
    DigitsWorth(n, 10);
    assert forall i | 0 <= i < |d| :: d[i] in d;
    DecimalIsWorth(d);
  }

  lemma DecimalSnoc(s: seq<byte>, c: byte)
    ensures Decimal(s + [c]) == 10 * Decimal(s) + DigitOf(c)
  {}

  /** More digits make no smaller number, and a positive one larger. */
  lemma {:induction false} DecimalGrows(s: seq<byte>, t: seq<byte>)
    requires AllDecimal(s) && AllDecimal(t)
    ensures Decimal(s + t) >= Decimal(s) >= 0
    ensures Decimal(s) > 0 && t != [] ==> Decimal(s + t) > Decimal(s)
    decreases |t|, |s|
  {
    if t == [] {
      assert s + t == s;
      if s != [] { DecimalGrows(s[..|s| - 1], []); assert s[..|s| - 1] + [] == s[..|s| - 1]; }
    } else {
      var u := t[..|t| - 1];
      DecimalGrows(s, u);
      assert s + t == (s + u) + [t[|t| - 1]];
      DecimalSnoc(s + u, t[|t| - 1]);
    }
  }

  // ---------------------------------------------------------------------
  // Printing
  // ---------------------------------------------------------------------

  lemma TruncDivAbs(a: int, b: nat)
    requires b > 0
    ensures Abs(TruncDiv(a, b)) == Abs(a) / b && Abs(TruncRem(a, b)) == Abs(a) % b
  {
    DivNonnegative(Abs(a), b);
  }

  lemma DivNonnegative(n: nat, b: nat)
    requires b > 0
    ensures n / b >= 0 && n % b >= 0
  {}

  lemma DivSmaller(n: nat, b: nat)
    requires n > 0 && b >= 2
    ensures n / b < n
  {}

  /** The digit-counting loops. */
  method CountDigits(x: int, radix: nat, init: nat) returns (bits: nat)
    requires 2 <= radix <= 36
    ensures bits == init + |Digits(Abs(x), radix)|
  {
    bits := init;
    var ax := x;
    while ax != 0
      invariant bits + |Digits(Abs(ax), radix)| == init + |Digits(Abs(x), radix)|
      decreases Abs(ax)
    {
      TruncDivAbs(ax, radix);
      DivSmaller(Abs(ax), radix);
      bits := bits + 1;
      ax := TruncDiv(ax, radix);
    }
  }

  lemma DigitsStep(n: nat, radix: nat)
    requires 2 <= radix <= 36
    ensures n / radix >= 0 && DigitChar(0) == ZERO
    ensures n == 0 ==> n / radix == 0 && n % radix == 0
    ensures n > 0 ==> Digits(n, radix) == Digits(n / radix, radix) + [DigitChar(n % radix)]
  {}

  /** The filling loops: `bits` digits from the right. */
  method FillDigits(s: array<byte>, x: int, radix: nat, bits: nat)
    requires 2 <= radix <= 36 && bits <= s.Length && bits >= |Digits(Abs(x), radix)|
    modifies s
    ensures var d := Digits(Abs(x), radix);
            && s[bits - |d|..bits] == d
            && (forall i | 0 <= i < bits - |d| :: s[i] == ZERO)
            && s[bits..] == old(s[bits..])
  {
    hide TruncDiv, TruncRem, Digits;
    ghost var d := Digits(Abs(x), radix);
    var ax, b := x, bits;
    assert s[bits..bits] == [];
    while b > 0
      invariant 0 <= b <= bits
      invariant |Digits(Abs(ax), radix)| == if b >= bits - |d| then b - (bits - |d|) else 0
      invariant b >= bits - |d| ==> d == Digits(Abs(ax), radix) + s[b..bits]
      invariant b < bits - |d| ==> s[bits - |d|..bits] == d
      invariant forall i | b <= i < bits - |d| :: s[i] == ZERO
      invariant s[bits..] == old(s[bits..])
    {
      TruncDivAbs(ax, radix);
      DigitsStep(Abs(ax), radix);
      ghost var low := s[b..bits];
      s[b - 1] := DigitChar(Abs(TruncRem(ax, radix)));
      assert s[b - 1..bits] == [s[b - 1]] + low;
      ax := TruncDiv(ax, radix);
      b := b - 1;
    }
  }

  /** integer_to_string: the canonical numeral of every long, the least included. */
  method IntegerToString(x: int, radix: nat) returns (r: seq<byte>)
    requires LONG_MIN <= x <= LONG_MAX && 2 <= radix <= 36
    ensures r == Numeral(x, radix)
  {
    var bits := CountDigits(x, radix, if x <= 0 then 1 else 0);
    var s := new byte[bits + 1];
    s[bits] := 0;
    FillDigits(s, x, radix, bits);
    ghost var d := Digits(Abs(x), radix);
    if x < 0 {
      s[0] := MINUS;
      assert s[..bits] == [MINUS] + s[1..bits];
    } else if x == 0 {
      assert s[..bits] == [ZERO];
    } else {
      assert s[0..bits] == s[..bits];
    }
    r := s[..bits];
  }

  /** unsigned_to_string: the numeral of the long read as an unsigned word. */
  method UnsignedToString(x: int, radix: nat) returns (r: seq<byte>)
    requires LONG_MIN <= x <= LONG_MAX && 2 <= radix <= 36
    ensures r == Numeral(x % 0x1_0000_0000_0000_0000, radix)
  {
    var ux := x % 0x1_0000_0000_0000_0000;
    var bits := CountDigits(ux, radix, if x == 0 then 1 else 0);
    var s := new byte[bits + 1];
    s[bits] := 0;
    FillDigits(s, ux, radix, bits);
    assert s[0..bits] == s[..bits];
    if x == 0 { assert s[..bits] == [ZERO]; }
    r := s[..bits];
  }

  // ---------------------------------------------------------------------
  // Reading
  // ---------------------------------------------------------------------

  /** `Rejected`: the bignum reader does not accept the text it is given. */
  datatype Number = Fixnum(n: int) | Elong(n: int) | Llong(n: int) | Bignum(n: int) | Rejected

  /** The greatest fixnum, long and long long. */
  datatype Sizes = Sizes(maxFx: nat, maxElong: nat, maxLlong: nat)

  predicate SizesOk(z: Sizes) {
    100 <= z.maxFx <= z.maxElong <= z.maxLlong
  }

  predicate IsSign(c: byte) {
    c == PLUS || c == MINUS
  }

  /** The token without its sign. */
  function Unsigned(tok: seq<byte>): seq<byte>
    requires tok != []
  {
    if IsSign(tok[0]) then tok[1..] else tok
  }

  /** What the grammar of integers matches: an optional sign and digits. */
  predicate IntegerToken(tok: seq<byte>) {
    tok != [] && Unsigned(tok) != [] && AllDecimal(Unsigned(tok))
  }

  function TokenValue(tok: seq<byte>): int
    requires IntegerToken(tok)
  {
    if tok[0] == MINUS then 0 - Decimal(Unsigned(tok)) else Decimal(Unsigned(tok))
  }

  predicate IsSpace(c: byte) {
    c == 32 || 9 <= c <= 13
  }

  /** The text without its white space. */
  function Stripped(s: seq<byte>): seq<byte> {
    if s == [] then [] else if IsSpace(s[0]) then Stripped(s[1..]) else [s[0]] + Stripped(s[1..])
  }

  /** The GMP reader of decimal numbers (mpz_set_str): white space is ignored wherever it
      stands, a minus sign may come first, and anything but digits after that is an error. */
  function MpzSetStr(s: seq<byte>): Number {
    MpzDigits(Stripped(s))
  }

  /** The GMP reader, after white space is gone. */
  function MpzDigits(t: seq<byte>): Number {
    var negative := t != [] && t[0] == MINUS;
    var d := if negative then t[1..] else t;
    if d == [] || !AllDecimal(d) then Rejected
    else Bignum(if negative then 0 - Decimal(d) else Decimal(d))
  }

  /** The C string at `from`: up to the first NUL. */
  function CStringAt(buf: seq<byte>, from: nat): seq<byte>
    requires from <= |buf|
    decreases |buf| - from
  {
    if from == |buf| || buf[from] == 0 then [] else [buf[from]] + CStringAt(buf, from + 1)
  }

  /** rgc_buffer_bignum. If white space follows the token, the reader gets all of the buffer
      from the token on, and else a copy of the token. */
  function BufferBignum(buf: seq<byte>, start: nat, stop: nat, bufpos: nat): (r: Number)
    requires start <= stop <= bufpos < |buf|
    ensures r.Rejected? || r.Bignum?
  {
    if stop < bufpos && IsSpace(buf[stop]) then MpzSetStr(CStringAt(buf, start))
    else MpzSetStr(buf[start..stop])
  }

  /** A value that the loop over words up to `max` gives up on: one whose digits but the last
      exceed the threshold. */
  predicate TooLong(v: int, max: nat) {
    Abs(v) / 10 > max / 10 - 9
  }

  /** The first loops of rgc_buffer_integer: digits into a word as long as it stays below the threshold. */
  method Accumulate(buf: seq<byte>, ghost first: nat, from: nat, stop: nat, init: int, max: nat)
    returns (res: int, i: nat)
    requires first <= from <= stop <= |buf| && AllDecimal(buf[first..stop])
    requires 0 <= init == Decimal(buf[first..from]) <= max
    ensures from <= i <= stop && 0 <= res == Decimal(buf[first..i]) <= max
    ensures i < stop ==> res > max / 10 - 9
    ensures i > from ==> Decimal(buf[first..i - 1]) <= max / 10 - 9
  {
    hide Decimal;
    res := init;
    i := from;
    while i < stop
      invariant from <= i <= stop && 0 <= res == Decimal(buf[first..i]) <= max
      invariant i > from ==> Decimal(buf[first..i - 1]) <= max / 10 - 9
    {
      assert buf[i] == buf[first..stop][i - first];
      var current := DigitOf(buf[i]);
      if res > max / 10 - 9 {
        return;
      }
      assert buf[first..i + 1] == buf[first..i] + [buf[i]];
      DecimalSnoc(buf[first..i], buf[i]);
      BelowThreshold(res, current, max);
      res := res * 10 + current;
      i := i + 1;
    }
  }

  lemma BelowThreshold(res: nat, current: int, max: nat)
    requires res <= max / 10 - 9 && 0 <= current <= 9
    ensures 0 <= res * 10 + current <= max
  {}

  /** The digits but the last are worth a tenth. */
  lemma AllButLast(d: seq<byte>)
    requires d != [] && AllDecimal(d)
    ensures Decimal(d) >= 0 && Decimal(d[..|d| - 1]) == Decimal(d) / 10
  {}

  /** A prefix above the threshold makes the number too long. */
  lemma PrefixTooLong(d: seq<byte>, k: nat, max: nat)
    requires k < |d| && AllDecimal(d) && Decimal(d[..k]) > max / 10 - 9
    ensures TooLong(Decimal(d), max)
  {
    AllButLast(d);
    var t := d[k..|d| - 1];
    assert d[..|d| - 1] == d[..k] + t;
    DecimalGrows(d[..k], t);
  }

  lemma NoDigits()
    ensures Decimal([]) == 0
  {}

  /** The skipping of the sign and of leading zeros. */
  method SkipPadding(buf: seq<byte>, matchstart: nat, stop: nat) returns (first: nat, start: nat, sign: int)
    requires matchstart < stop <= |buf| && IntegerToken(buf[matchstart..stop])
    ensures matchstart <= first <= start <= stop && first < stop
    ensures buf[first..stop] == Unsigned(buf[matchstart..stop])
    ensures Decimal(buf[first..start]) == 0
    ensures sign == if buf[matchstart] == MINUS then -1 else 1
  {
    hide Decimal, AllDecimal;
    ghost var tok := buf[matchstart..stop];
    assert tok[0] == buf[matchstart] && tok[1..] == buf[matchstart + 1..stop];
    sign := 1;
    start := matchstart;
    if buf[start] == PLUS {
      start := start + 1;
    } else if buf[start] == MINUS {
      start := start + 1;
      sign := -1;
    }
    first := start;
    start := SkipZeros(buf, first, stop);
  }

  method SkipZeros(buf: seq<byte>, first: nat, stop: nat) returns (start: nat)
    requires first <= stop <= |buf|
    ensures first <= start <= stop && Decimal(buf[first..start]) == 0
  {
    hide Decimal;
    start := first;
    assert buf[first..start] == [];
    NoDigits();
    while start < stop && buf[start] == ZERO
      invariant first <= start <= stop && Decimal(buf[first..start]) == 0
    {
      assert buf[first..start + 1] == buf[first..start] + [buf[start]];
      DecimalSnoc(buf[first..start], buf[start]);
      start := start + 1;
    }
  }

  /** rgc_buffer_integer on a matched token: no accumulation overflows its word, and the
      result is the value of the token, unless the token is too long for the machine words. */
  method BufferInteger(buf: seq<byte>, matchstart: nat, matchstop: nat, bufpos: nat, z: Sizes) returns (r: Number)
    requires matchstart < matchstop <= bufpos < |buf| && SizesOk(z)
    requires IntegerToken(buf[matchstart..matchstop])
    ensures var v := TokenValue(buf[matchstart..matchstop]);
            r == if TooLong(v, z.maxLlong) then BufferBignum(buf, matchstart, matchstop, bufpos)
                 else if TooLong(v, z.maxElong) then Llong(v)
                 else if Abs(v) <= z.maxFx then Fixnum(v)
                 else Elong(v)
    ensures r.Elong? ==> Abs(r.n) <= z.maxElong
    ensures r.Llong? ==> Abs(r.n) <= z.maxLlong
  {
    hide Decimal, AllDecimal, IntegerToken, BufferBignum, TooLong;
    var first, start, sign := SkipPadding(buf, matchstart, matchstop);
    ghost var d := buf[first..matchstop];
    SignedToken(buf[matchstart..matchstop], sign);
    AllButLast(d);
    var res, i := Accumulate(buf, first, start, matchstop, 0, z.maxElong);
    if i == matchstop {
      WholeToken(buf, first, start, matchstop, z.maxElong);
      WiderWord(Decimal(d), z.maxElong, z.maxLlong);
      return if res <= z.maxFx then Fixnum(res * sign) else Elong(res * sign);
    }
    Subslice(buf, first, matchstop, 0, i - first);
    PrefixTooLong(d, i - first, z.maxElong);
    var lres, j := Accumulate(buf, first, i, matchstop, res, z.maxLlong);
    if j < matchstop {
      Subslice(buf, first, matchstop, 0, j - first);
      PrefixTooLong(d, j - first, z.maxLlong);
      return BufferBignum(buf, matchstart, matchstop, bufpos);
    }
    WholeToken(buf, first, i, matchstop, z.maxLlong);
    return Llong(lres * sign);
  }

  lemma SignedToken(tok: seq<byte>, sign: int)
    requires IntegerToken(tok) && sign == if tok[0] == MINUS then -1 else 1
    ensures AllDecimal(Unsigned(tok)) && Unsigned(tok) != []
    ensures TokenValue(tok) == Decimal(Unsigned(tok)) * sign
    ensures Abs(TokenValue(tok)) == Decimal(Unsigned(tok))
    ensures forall max :: TooLong(TokenValue(tok), max) <==> TooLong(Decimal(Unsigned(tok)), max)
  {
    AllButLast(Unsigned(tok));
  }

  lemma WiderWord(v: int, max: nat, wider: nat)
    requires !TooLong(v, max) && max <= wider
    ensures !TooLong(v, wider)
  {}

  /** A token whose digits but the last are below the threshold is not too long. */
  lemma WholeToken(buf: seq<byte>, first: nat, from: nat, stop: nat, max: nat)
    requires first <= from <= stop <= |buf| && first < stop && AllDecimal(buf[first..stop]) && max >= 100
    requires if stop > from then Decimal(buf[first..stop - 1]) <= max / 10 - 9 else Decimal(buf[first..stop]) == 0
    ensures !TooLong(Decimal(buf[first..stop]), max)
  {
    var d := buf[first..stop];
    AllButLast(d);
    assert d[..|d| - 1] == buf[first..stop - 1];
  }

  // ---------------------------------------------------------------------
  // When the bignum path is exact
  // ---------------------------------------------------------------------

  lemma {:induction false} StrippedConcat(s: seq<byte>, t: seq<byte>)
    ensures Stripped(s + t) == Stripped(s) + Stripped(t)
  {
    if s == [] {
      assert s + t == t;
    } else {
      assert (s + t)[1..] == s[1..] + t;
      StrippedConcat(s[1..], t);
    }
  }

  lemma {:induction false} StrippedPlain(s: seq<byte>)
    requires forall i | 0 <= i < |s| :: !IsSpace(s[i])
    ensures Stripped(s) == s
  {
    if s != [] {
      StrippedPlain(s[1..]);
      assert s == [s[0]] + s[1..];
    }
  }

  /** The C string at a token begins with it. */
  lemma {:induction false} CStringOfToken(buf: seq<byte>, start: nat, stop: nat)
    requires start <= stop <= |buf| && forall i | start <= i < stop :: buf[i] != 0
    ensures CStringAt(buf, start) == buf[start..stop] + CStringAt(buf, stop)
    decreases stop - start
  {
    if start < stop {
      CStringOfToken(buf, start + 1, stop);
      assert buf[start..stop] == [buf[start]] + buf[start + 1..stop];
    } else {
      assert buf[start..stop] == [];
    }
  }

  lemma TokenBytes(tok: seq<byte>)
    requires IntegerToken(tok)
    ensures forall i | 0 <= i < |tok| :: tok[i] != 0 && !IsSpace(tok[i])
  {}

  lemma MoreDigits(u: seq<byte>, r: seq<byte>)
    requires AllDecimal(u) && AllDecimal(u + r) && Decimal(u) > 0 && r != []
    ensures Decimal(u + r) > Decimal(u)
  {
    assert forall i | 0 <= i < |r| :: r[i] == (u + r)[|u| + i];
    DecimalGrows(u, r);
  }

  /** A token with more text directly after it. */
  lemma MpzExtended(tok: seq<byte>, r: seq<byte>)
    requires IntegerToken(tok) && TokenValue(tok) != 0
    ensures MpzDigits(tok + r) == Bignum(TokenValue(tok)) <==> tok[0] != PLUS && r == []
  {
    var t, u := tok + r, Unsigned(tok);
    DecimalGrows(u, []);
    assert u + [] == u;
    assert t[0] == tok[0];
    var d := if t[0] == MINUS then t[1..] else t;
    if tok[0] == PLUS {
      assert !IsDigit(d[0]);
    } else {
      assert d == u + r;
      if r == [] {
        assert d == u;
      } else if AllDecimal(d) {
        MoreDigits(u, r);
      }
    }
  }

  /** What the GMP reader makes of a token followed by `rest`. */
  lemma MpzOfToken(tok: seq<byte>, rest: seq<byte>)
    requires IntegerToken(tok) && TokenValue(tok) != 0
    ensures MpzSetStr(tok + rest) == Bignum(TokenValue(tok)) <==> tok[0] != PLUS && Stripped(rest) == []
  {
    TokenBytes(tok);
    hide Decimal, AllDecimal, IntegerToken, TokenValue, MpzDigits;
    StrippedConcat(tok, rest);
    StrippedPlain(tok);
    MpzExtended(tok, Stripped(rest));
  }

  /** For a token that is too long, rgc_buffer_bignum returns the value exactly when the token
      has no plus sign and either no white space follows it in the buffer, or nothing but white
      space follows up to the next NUL. */
  lemma BignumExact(buf: seq<byte>, start: nat, stop: nat, bufpos: nat, z: Sizes)
    requires start < stop <= bufpos < |buf| && SizesOk(z)
    requires IntegerToken(buf[start..stop]) && TooLong(TokenValue(buf[start..stop]), z.maxLlong)
    ensures BufferBignum(buf, start, stop, bufpos) == Bignum(TokenValue(buf[start..stop]))
            <==> buf[start] != PLUS
                 && (stop < bufpos && IsSpace(buf[stop]) ==> Stripped(CStringAt(buf, stop)) == [])
  {
    var tok := buf[start..stop];
    TokenBytes(tok);
    assert forall i | start <= i < stop :: buf[i] == tok[i - start];
    CStringOfToken(buf, start, stop);
    MpzOfToken(tok, CStringAt(buf, stop));
    MpzOfToken(tok, []);
    assert tok + [] == tok && tok[0] == buf[start];
  }

  /** A token that the bignum path gets wrong: 20 nines, with a space and another digit after
      them in the buffer. */
  lemma BignumWrong(z: Sizes)
    requires SizesOk(z) && z.maxLlong == LONG_MAX
    ensures var tok: seq<byte> := seq(20, _ => 57);
            var buf := tok + [32, 49, 0];
            && IntegerToken(tok) && TooLong(TokenValue(tok), z.maxLlong) && buf[0..20] == tok
            && BufferBignum(buf, 0, 20, 22) != Bignum(TokenValue(tok))
  {
    var tok: seq<byte> := seq(20, _ => 57);
    var buf := tok + [32, 49, 0];
    Nines(20);
    PowerSquare(5);
    PowerSquare(10);
    assert Power10(5) == 100000;
    assert buf[0..20] == tok;
    SpaceAndDigit(buf, 20);
    hide Decimal, Stripped, CStringAt;
    BignumExact(buf, 0, 20, 22, z);
  }

  lemma SpaceAndDigit(buf: seq<byte>, i: nat)
    requires i + 3 == |buf| && buf[i] == 32 && buf[i + 1] == 49 && buf[i + 2] == 0
    ensures Stripped(CStringAt(buf, i)) == [49]
  {
    assert CStringAt(buf, i + 2) == [];
    assert CStringAt(buf, i + 1) == [49] + CStringAt(buf, i + 2) == [49];
    assert CStringAt(buf, i) == [32] + CStringAt(buf, i + 1);
    StrippedConcat([32], [49]);
    assert Stripped([49]) == [49] + Stripped([]);
    assert Stripped([32]) == Stripped([]);
  }

  lemma {:induction false} PowerSum(a: nat, b: nat)
    ensures Power10(a + b) == Power10(a) * Power10(b)
  {
    if b > 0 { PowerSum(a, b - 1); }
  }

  lemma PowerSquare(n: nat)
    ensures Power10(2 * n) == Power10(n) * Power10(n)
  {
    PowerSum(n, n);
  }

  lemma {:induction false} Nines(n: nat)
    ensures Decimal(seq(n, _ => 57)) == Power10(n) - 1
  {
    var s: seq<byte> := seq(n, _ => 57);
    if n > 0 {
      Nines(n - 1);
      assert s[..n - 1] == seq(n - 1, _ => 57);
    }
  }

  function Power10(n: nat): (p: nat)
    ensures p >= 1
  {
    if n == 0 then 1 else 10 * Power10(n - 1)
  }

  /** Printing at radix 10 and reading back gives the number, whatever surrounds it in the buffer. */
  method RoundTrip(x: int, z: Sizes) returns (r: Number)
    requires LONG_MIN <= x <= LONG_MAX && SizesOk(z)
    ensures !r.Rejected? && r.n == x
  {
    var s := IntegerToString(x, 10);
    NumeralIsToken(x);
    var buf: seq<byte> := s + [0];
    assert buf[0..|s|] == s;
    r := BufferInteger(buf, 0, |s|, |s|, z);
    if TooLong(x, z.maxLlong) {
      BignumExact(buf, 0, |s|, |s|, z);
    }
  }

  lemma NumeralIsToken(x: int)
    ensures IntegerToken(Numeral(x, 10)) && TokenValue(Numeral(x, 10)) == x
    ensures Numeral(x, 10)[0] != PLUS
  {
    hide Digits, Decimal;
    var n := Numeral(x, 10);
    var d := Digits(Abs(x), 10);
    DecimalOfDigits(Abs(x));
    if x == 0 {
      DecimalSnoc([], ZERO);
      assert Decimal([]) == 0 by { DecimalOfDigits(0); }
      assert n == [] + [ZERO];
    } else if x < 0 {
      assert n == [MINUS] + d && n[1..] == d;
    } else {
      assert n == d && IsDigit(d[0]);
    }
  }
}
