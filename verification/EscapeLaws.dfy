/** What each escape stands for (bgl_escape_C_string in runtime/Clib/cstring.c), told by how the
    value is written, and how the escapes of a text follow one another. */
module EscapeLaws {
  import opened Bytes
  import opened Unicode
  import opened StringEscapes

  // ---------------------------------------------------------------------
  // Writing values
  // ---------------------------------------------------------------------

  /** The hexadecimal digit of a value. */
  function HexDigit(v: nat, upper: bool): byte
    requires v < 16
  {
    var small: seq<byte> := [48, 49, 50, 51, 52, 53, 54, 55, 56, 57, 97, 98, 99, 100, 101, 102];
    var large: seq<byte> := [48, 49, 50, 51, 52, 53, 54, 55, 56, 57, 65, 66, 67, 68, 69, 70];
    if upper then large[v] else small[v]
  }

  /** The last n hexadecimal digits of a value, each in the case that `upper` says. */
  function Hex(v: nat, n: nat, upper: nat -> bool): (r: seq<byte>)
    ensures |r| == n
  {
    if n == 0 then [] else Hex(v / 16, n - 1, upper) + [HexDigit(v % 16, upper(n))]
  }

  /** The last n octal digits of a value. */
  function Octal(v: nat, n: nat): (r: seq<byte>)
    ensures |r| == n
  {
    if n == 0 then [] else Octal(v / 8, n - 1) + [48 + v % 8]
  }

  /** `text` stands at `i`, with something after it. */
  predicate At(src: seq<byte>, i: nat, text: seq<byte>) {
    i + |text| < |src| && src[i..i + |text|] == text
  }

  lemma AtBytes(src: seq<byte>, i: nat, text: seq<byte>)
    requires At(src, i, text)
    ensures forall k | i <= k < i + |text| :: src[k] == text[k - i]
  {
    assert forall k | i <= k < i + |text| :: src[i..i + |text|][k - i] == src[k];
  }

  lemma AtParts(src: seq<byte>, i: nat, a: seq<byte>, b: seq<byte>)
    requires At(src, i, a + b)
    ensures i + |a| + |b| < |src|
    ensures forall k | 0 <= k < |a| :: src[i + k] == a[k]
    ensures forall k | 0 <= k < |b| :: src[i + |a| + k] == b[k]
  {
    AtBytes(src, i, a + b);
  }

  /** An escape that is all there is stands for the text of its step. */
  lemma OneStep(src: seq<byte>, i: nat, text: seq<byte>, p: Piece)
    requires At(src, i, text) && text != [] && Step(src, i) == p && p.used == |text|
    ensures Unescaped(src, i, i + |text|) == p.text
  {
    hide Step;
    UnescapeStep(src, i, i + |text|);
    UnescapeEnd(src, i + |text|, i + |text|);
    assert p.text + [] == p.text;
  }

  // ---------------------------------------------------------------------
  // Numeric escapes
  // ---------------------------------------------------------------------

  lemma HexDigitValue(v: nat, upper: bool)
    requires v < 16
    ensures IsXdigit(HexDigit(v, upper)) && XdigitValue(HexDigit(v, upper)) == v
  {}

  /** A backslash, x in either case, and the two hexadecimal digits of a byte stand for the byte. */
  lemma HexEscape(src: seq<byte>, i: nat, b: byte, x: byte, upper: nat -> bool)
    requires x == 120 || x == 88
    requires At(src, i, [BACKSLASH, x] + Hex(b, 2, upper))
    ensures Unescaped(src, i, i + 4) == [b]
  {
    var text := [BACKSLASH, x] + Hex(b, 2, upper);
    assert Hex(b, 2, upper) == [HexDigit(b / 16, upper(1)), HexDigit(b % 16, upper(2))];
    HexDigitValue(b / 16, upper(1));
    HexDigitValue(b % 16, upper(2));
    AtBytes(src, i, text);
    assert Xdigits(src, i + 3, 1) && Xdigits(src, i + 2, 2);
    OneStep(src, i, text, Piece([b], 4));
  }

  /** A backslash and the three octal digits of a value below 512 stand for the value, less
      256 if it is no byte. */
  lemma OctalEscape(src: seq<byte>, i: nat, v: nat)
    requires v < 512 && At(src, i, [BACKSLASH] + Octal(v, 3))
    ensures Unescaped(src, i, i + 4) == [if v < 256 then v else v - 256]
  {
    ThreeOctals(v);
    var d := Octal(v, 3);
    hide Octal, Step, IsDigit, DigitOf;
    assert [BACKSLASH] + d == [BACKSLASH, d[0], d[1], d[2]];
    AtBytes(src, i, [BACKSLASH, d[0], d[1], d[2]]);
    assert src[i] == BACKSLASH && src[i + 1] == d[0] && src[i + 2] == d[1] && src[i + 3] == d[2];
    DigitStep(src, i);
    Lessened(v);
    OneStep(src, i, [BACKSLASH] + d, Piece([if v < 256 then v else v - 256], 4));
  }

  /** Any three decimal digits are taken for octal ones. */
  lemma DigitEscape(src: seq<byte>, i: nat, a: nat, b: nat, c: nat)
    requires a < 10 && b < 10 && c < 10 && At(src, i, [BACKSLASH, 48 + a, 48 + b, 48 + c])
    ensures Unescaped(src, i, i + 4) == [(a * 64 + b * 8 + c) % 0x100]
  {
    var text: seq<byte> := [BACKSLASH, 48 + a, 48 + b, 48 + c];
    AtBytes(src, i, text);
    assert src[i] == BACKSLASH && src[i + 1] == 48 + a && src[i + 2] == 48 + b && src[i + 3] == 48 + c;
    DigitStep(src, i);
    hide Step;
    OneStep(src, i, text, Piece([(a * 64 + b * 8 + c) % 0x100], 4));
  }

  lemma Lessened(v: nat)
    requires v < 512
    ensures v % 0x100 == if v < 256 then v else v - 256
  {}

  lemma DigitStep(src: seq<byte>, i: nat)
    requires i + 4 < |src| && src[i] == BACKSLASH && IsDigit(src[i + 1]) && IsDigit(src[i + 2]) && IsDigit(src[i + 3])
    ensures Step(src, i) == Piece([(DigitOf(src[i + 1]) * 64 + DigitOf(src[i + 2]) * 8 + DigitOf(src[i + 3])) % 0x100], 4)
  {
    assert Digits(src, i + 3, 1) && Digits(src, i + 2, 2) && Digits(src, i + 1, 3);
  }

  lemma ThreeOctals(v: nat)
    requires v < 512
    ensures var d := Octal(v, 3); (forall k | 0 <= k < 3 :: IsDigit(d[k])) && DigitOf(d[0]) * 64 + DigitOf(d[1]) * 8 + DigitOf(d[2]) == v
  {
    SmallOctals(v);
    assert v == v / 64 * 64 + v / 8 % 8 * 8 + v % 8;
  }

  /** A backslash, u in either case, and the four hexadecimal digits of a UCS-2 character stand for
      its UTF-8 bytes, from which the character can be told. */
  lemma UnicodeEscape(src: seq<byte>, i: nat, u: nat, x: byte, upper: nat -> bool)
    requires u < 0x10000 && (x == 117 || x == 85)
    requires At(src, i, [BACKSLASH, x] + Hex(u, 4, upper))
    ensures var text := Unescaped(src, i, i + 6); OneCharacter(text) && Decode(text) == u
  {
    UnicodePiece(src, i, u, x, upper);
    Utf8Decodes(u);
    hide *;
    OneStep(src, i, [BACKSLASH, x] + Hex(u, 4, upper), Piece(Utf8(u), 6));
  }

  lemma UnicodePiece(src: seq<byte>, i: nat, u: nat, x: byte, upper: nat -> bool)
    requires u < 0x10000 && (x == 117 || x == 85)
    requires At(src, i, [BACKSLASH, x] + Hex(u, 4, upper))
    ensures i + 6 < |src| && Step(src, i) == Piece(Utf8(u), 6)
  {
    FourDigits(u, upper);
    var h := Hex(u, 4, upper);
    hide Hex, Utf8, Step, IsXdigit, XdigitValue, At;
    var a := [BACKSLASH, x];
    AtParts(src, i, a, h);
    assert src[i + 0] == a[0] && src[i + 1] == a[1];
    assert src[i + |a| + 0] == h[0] && src[i + |a| + 1] == h[1] && src[i + |a| + 2] == h[2] && src[i + |a| + 3] == h[3];
    UnicodeStep(src, i);
  }

  lemma UnicodeStep(src: seq<byte>, i: nat)
    requires i + 6 < |src| && src[i] == BACKSLASH && (src[i + 1] == 117 || src[i + 1] == 85)
    requires IsXdigit(src[i + 2]) && IsXdigit(src[i + 3]) && IsXdigit(src[i + 4]) && IsXdigit(src[i + 5])
    ensures Step(src, i) == Piece(Utf8(XdigitValue(src[i + 2]) * 0x1000 + XdigitValue(src[i + 3]) * 0x100
                                       + XdigitValue(src[i + 4]) * 0x10 + XdigitValue(src[i + 5])), 6)
  {
    hide Utf8;
    assert Xdigits(src, i + 5, 1) && Xdigits(src, i + 4, 2) && Xdigits(src, i + 3, 3) && Xdigits(src, i + 2, 4);
  }

  lemma Sixteens(u: nat)
    requires u < 0x10000
    ensures u / 16 / 16 == u / 0x100 && u / 16 / 16 / 16 == u / 0x1000 && u / 16 / 16 / 16 / 16 == 0 && u / 0x1000 < 16
    ensures u == u / 0x1000 * 0x1000 + u / 0x100 % 16 * 0x100 + u / 0x10 % 16 * 0x10 + u % 16
  {}

  lemma FourDigits(u: nat, upper: nat -> bool)
    requires u < 0x10000
    ensures var h := Hex(u, 4, upper);
            && (forall k | 0 <= k < 4 :: IsXdigit(h[k]))
            && XdigitValue(h[0]) * 0x1000 + XdigitValue(h[1]) * 0x100 + XdigitValue(h[2]) * 0x10 + XdigitValue(h[3]) == u
  {
    Sixteens(u);
    var d0, d1, d2, d3 := u / 0x1000, u / 0x100 % 16, u / 0x10 % 16, u % 16;
    assert Hex(d0, 1, upper) == [HexDigit(d0, upper(1))];
    assert Hex(u / 0x100, 2, upper) == [HexDigit(d0, upper(1)), HexDigit(d1, upper(2))];
    assert Hex(u / 0x10, 3, upper) == [HexDigit(d0, upper(1)), HexDigit(d1, upper(2)), HexDigit(d2, upper(3))];
    assert Hex(u, 4, upper) == [HexDigit(d0, upper(1)), HexDigit(d1, upper(2)), HexDigit(d2, upper(3)), HexDigit(d3, upper(4))];
    HexDigitValue(d0, upper(1));
    HexDigitValue(d1, upper(2));
    HexDigitValue(d2, upper(3));
    HexDigitValue(d3, upper(4));
  }

  // ---------------------------------------------------------------------
  // Letters
  // ---------------------------------------------------------------------

  /** The letters of the control bytes: n, t, b, r, f and v. */
  const CONTROLS: map<byte, byte> := map[110 := 10, 116 := 9, 98 := 8, 114 := 13, 102 := 12, 118 := 11]

  /** A backslash and the letter of a control byte stand for that byte. */
  lemma ControlEscape(src: seq<byte>, i: nat, l: byte)
    requires l in CONTROLS && At(src, i, [BACKSLASH, l])
    ensures Unescaped(src, i, i + 2) == [CONTROLS[l]]
  {
    AtBytes(src, i, [BACKSLASH, l]);
    OneStep(src, i, [BACKSLASH, l], Piece([CONTROLS[l]], 2));
  }

  /** A backslash and any other byte stand for the byte, also when it is an x, a u or a digit that
      the digits of an escape do not follow. */
  lemma OtherEscape(src: seq<byte>, i: nat, c: byte)
    requires c !in CONTROLS && c != 0 && At(src, i, [BACKSLASH, c])
    requires c == 120 || c == 88 ==> !(i + 3 < |src| && IsXdigit(src[i + 2]) && IsXdigit(src[i + 3]))
    requires c == 117 || c == 85 ==> !(i + 5 < |src| && forall k | i + 2 <= k < i + 6 :: IsXdigit(src[k]))
    requires IsDigit(c) ==> !(i + 3 < |src| && IsDigit(src[i + 2]) && IsDigit(src[i + 3]))
    ensures Unescaped(src, i, i + 2) == [c]
  {
    AtBytes(src, i, [BACKSLASH, c]);
    if c == 120 || c == 88 { TwoXdigits(src, i + 2); }
    if c == 117 || c == 85 { TwoXdigits(src, i + 2); TwoXdigits(src, i + 4); FourXdigits(src, i + 2); }
    ThreeDigits(src, i + 1);
    OneStep(src, i, [BACKSLASH, c], Piece([c], 2));
  }

  lemma TwoXdigits(src: seq<byte>, i: nat)
    ensures Xdigits(src, i, 2) <==> i + 1 < |src| && IsXdigit(src[i]) && IsXdigit(src[i + 1])
  {
    assert Xdigits(src, i + 1, 1) <==> i + 1 < |src| && IsXdigit(src[i + 1]);
  }

  lemma ThreeDigits(src: seq<byte>, i: nat)
    ensures Digits(src, i, 3) ==> i + 2 < |src| && IsDigit(src[i]) && IsDigit(src[i + 1]) && IsDigit(src[i + 2])
  {
    assert Digits(src, i + 2, 1) <==> i + 2 < |src| && IsDigit(src[i + 2]);
    assert Digits(src, i + 1, 2) <==> i + 1 < |src| && IsDigit(src[i + 1]) && Digits(src, i + 2, 1);
  }

  lemma FourXdigits(src: seq<byte>, i: nat)
    ensures Xdigits(src, i, 4) ==> Xdigits(src, i, 2) && Xdigits(src, i + 2, 2)
  {
    assert Xdigits(src, i, 4) ==> Xdigits(src, i + 1, 3) && Xdigits(src, i + 2, 2);
    TwoXdigits(src, i);
    TwoXdigits(src, i + 2);
  }

  /** A backslash before a NUL stands for itself. */
  lemma BackslashAtEnd(src: seq<byte>, i: nat)
    requires At(src, i, [BACKSLASH, 0])
    ensures Unescaped(src, i, i + 2) == [BACKSLASH]
  {
    AtBytes(src, i, [BACKSLASH, 0]);
    OneStep(src, i, [BACKSLASH, 0], Piece([BACKSLASH], 2));
  }

  // ---------------------------------------------------------------------
  // Whole texts
  // ---------------------------------------------------------------------

  /** A text without backslashes stands for itself. */
  lemma {:induction false} NoEscapes(src: seq<byte>, i: nat, stop: nat)
    requires i <= stop < |src| && BACKSLASH !in src[i..stop]
    ensures Unescaped(src, i, stop) == src[i..stop]
    decreases stop - i
  {
    if i < stop {
      assert src[i] == src[i..stop][0] && src[i + 1..stop] == src[i..stop][1..];
      NoEscapes(src, i + 1, stop);
      assert Step(src, i) == Piece([src[i]], 1);
      UnescapeStep(src, i, stop);
      assert src[i..stop] == [src[i]] + src[i + 1..stop];
    }
  }

  /** Two texts that follow one another, no escape crossing from one to the other, stand for what
      the two stand for. */
  lemma {:induction false} UnescapedConcat(src: seq<byte>, i: nat, j: nat, stop: nat)
    requires i <= j <= stop < |src| && NoneCrosses(src, i, j)
    ensures Unescaped(src, i, stop) == Unescaped(src, i, j) + Unescaped(src, j, stop)
  {
    ScanEndsClean(src, i, j);
    ConcatFrom(src, i, j, stop);
  }

  lemma {:induction false} ConcatFrom(src: seq<byte>, i: nat, j: nat, stop: nat)
    requires i <= j <= stop < |src| && ScanEnd(src, i, j) == j
    ensures Unescaped(src, i, stop) == Unescaped(src, i, j) + Unescaped(src, j, stop)
    decreases j - i
  {
    hide Step;
    if i < j {
      var k := i + Step(src, i).used;
      UnescapeStep(src, i, j);
      UnescapeStep(src, i, stop);
      ConcatFrom(src, k, j, stop);
      Joins(Step(src, i).text, Unescaped(src, k, j), Unescaped(src, j, stop));
    }
  }

  lemma Joins(a: seq<byte>, b: seq<byte>, c: seq<byte>)
    ensures a + (b + c) == (a + b) + c
  {}

  lemma SmallOctals(c: nat)
    requires c < 512
    ensures Octal(c, 3) == [48 + c / 64, 48 + c / 8 % 8, 48 + c % 8]
  {
    assert c / 8 / 8 == c / 64 && c / 64 < 8;
    assert Octal(c / 64, 1) == [48 + c / 64];
    assert Octal(c / 8, 2) == [48 + c / 64, 48 + c / 8 % 8];
  }

  // ---------------------------------------------------------------------
  // Printing
  // ---------------------------------------------------------------------

  /** How create_string_for_read writes the bytes it escapes: a control byte that has a letter by the
      letter, any other by its octal digits, a quote, a backslash and in symbols a bar by
      themselves. */
  lemma PrintedEscapes(c: byte, symbolp: bool)
    requires !Plain(c, symbolp)
    ensures forall l | l in CONTROLS && CONTROLS[l] == c :: Printed([c], symbolp) == [BACKSLASH, l]
    ensures c < 32 && (forall l | l in CONTROLS :: CONTROLS[l] != c) ==> Printed([c], symbolp) == [BACKSLASH] + Octal(c, 3)
    ensures c >= 32 ==> Printed([c], symbolp) == [BACKSLASH, c]
  {
    PrintedByte(c, symbolp);
    hide Printed;
    SmallOctals(c);
    hide Octal;
    assert 110 in CONTROLS && 116 in CONTROLS && 98 in CONTROLS && 114 in CONTROLS && 102 in CONTROLS && 118 in CONTROLS;
  }
}
