/** One UCS-2 character as UTF-8, and back (runtime/Clib/cunicode.c). */
module Unicode {
  import opened Bytes

  /** The UTF-8 form of a UCS-2 character; half surrogates have the encoding of
      ucs2_to_utf8_string in runtime/Clib/cunicode.c. */
  function Utf8(u: nat): (r: seq<byte>)
    requires u < 0x10000
    ensures 1 <= |r| <= 4
  {
    if u <= 0x7f then [u]
    else if u <= 0x7ff then [0xc0 + u / 0x40, 0x80 + u % 0x40]
    else if 0xd800 <= u <= 0xdbff then
      var uuuuu := u / 0x40 % 0x10 + 1;
      [0xf8, 0x80 + uuuuu % 4 * 0x10 + u / 4 % 0x10, 0x80 + u % 4 * 0x10, 0x80 + uuuuu / 4]
    else if 0xdc00 <= u <= 0xdfff then
      [0xfc, 0x80, 0x80 + u % 0x400 / 0x40, 0x80 + u % 0x40]
    else [0xe0 + u / 0x1000, 0x80 + u / 0x40 % 0x40, 0x80 + u % 0x40]
  }

  /** The bytes of a UTF-8 sequence: a lead byte, and following bytes of six bits each. */
  predicate Utf8Shape(s: seq<byte>) {
    && s != [] && !(0x80 <= s[0] < 0xc0)
    && (s[0] < 0x80 <==> |s| == 1)
    && forall i | 1 <= i < |s| :: 0x80 <= s[i] < 0xc0
  }

  /** A sequence of at most three bytes, or a half surrogate. */
  predicate OneCharacter(s: seq<byte>) {
    Utf8Shape(s) && (|s| <= 3 || (|s| == 4 && (s[0] == 0xf8 || s[0] == 0xfc)))
  }

  /** The value of a sequence of one to three bytes in UTF-8, and of the forms that stand for the half
      surrogates: 0xf8 before the high one, less its offset, and 0xfc before the low one. */
  function Decode(s: seq<byte>): int
    requires 1 <= |s| <= 4
  {
    if |s| == 1 then s[0]
    else if |s| == 2 then ((s[0] as int) - 0xc0) * 0x40 + Low(s[1])
    else if |s| == 3 then (((s[0] as int) - 0xe0) * 0x40 + Low(s[1])) * 0x40 + Low(s[2])
    else if s[0] == 0xf8 then 0xd800 + (Low(s[3]) * 4 + Low(s[1]) / 16 - 1) * 0x40 + Low(s[1]) % 16 * 4 + Low(s[2]) / 16
    else 0xdc00 + Low(s[2]) * 0x40 + Low(s[3])
  }

  /** The six bits of a following byte. */
  function Low(c: byte): int {
    (c as int) - 0x80
  }

  /** The bits of a word of sixteen, in sixes and in the groups of the surrogate forms. */
  lemma Bits(u: nat)
    requires u < 0x10000
    ensures u / 0x1000 == u / 0x40 / 0x40 && u / 0x1000 < 16
    ensures u == (u / 0x1000 * 0x40 + u / 0x40 % 0x40) * 0x40 + u % 0x40
    ensures u % 0x40 == u / 4 % 0x10 * 4 + u % 4
    ensures 0xd800 <= u <= 0xdbff ==> u / 0x40 == 0x360 + u / 0x40 % 0x10
    ensures 0xdc00 <= u <= 0xdfff ==> u - 0xdc00 == u % 0x400 && u % 0x400 / 0x40 < 16 && u % 0x400 == u % 0x400 / 0x40 * 0x40 + u % 0x40
  {}

  /** Every character is encoded in the least number of bytes, and its bytes tell which it is. */
  lemma Utf8Decodes(u: nat)
    requires u < 0x10000
    ensures Utf8Shape(Utf8(u)) && Decode(Utf8(u)) == u
    ensures |Utf8(u)| == 4 ==> Utf8(u)[0] == 0xf8 || Utf8(u)[0] == 0xfc
    ensures |Utf8(u)| == if u < 0x80 then 1 else if u < 0x800 then 2 else if 0xd800 <= u < 0xe000 then 4 else 3
  {
    Bits(u);
    if 0xd800 <= u <= 0xdbff {
      HighForm(u);
    }
  }

  /** The fields of the form of a high half surrogate. */
  lemma HighForm(u: nat)
    requires 0xd800 <= u <= 0xdbff
    ensures var s := Utf8(u); var uuuuu := u / 0x40 % 0x10 + 1;
            && |s| == 4 && s[0] == 0xf8 && Low(s[3]) == uuuuu / 4 && Low(s[2]) == u % 4 * 16
            && Low(s[1]) / 16 == uuuuu % 4 && Low(s[1]) % 16 == u / 4 % 0x10 && Low(s[1]) < 64
            && Low(s[3]) * 4 + Low(s[1]) / 16 == uuuuu
  {
    var uuuuu := u / 0x40 % 0x10 + 1;
    assert uuuuu == uuuuu / 4 * 4 + uuuuu % 4;
    Nibbles(uuuuu % 4, u / 4 % 0x10);
  }

  lemma Nibbles(a: nat, b: nat)
    requires b < 16
    ensures (a * 0x10 + b) / 16 == a && (a * 0x10 + b) % 16 == b
  {}

  /** What utf8_string_to_ucs2_string makes of the bytes of one character. Of the third byte after
      0xf8 it takes two bits. */
  function FromUtf8(s: seq<byte>): int
    requires OneCharacter(s)
  {
    if s[0] <= 0x7f then s[0]
    else if s[0] == 0xf8 && |s| == 4 then
      var low := (s[2] as int) / 16 % 4 + (s[1] as int) % 16 * 4;
      var vvvv := (s[3] as int) % 4 * 4 + (s[1] as int) / 16 % 4 - 1;
      // the sign of -1 shifted fills the word
      if vvvv < 0 then 0xffc0 + low else 0xd800 + vvvv * 0x40 + low
    else if s[0] == 0xfc && |s| == 4 then
      (s[3] as int) % 0x40 + (s[2] as int) % 16 * 0x40 + 0xdc00
    else Shifted(s) % Exp2(5 * (|s| - 1) + 6)
  }

  /** The accumulating loop: the lead byte, then six bits a byte. */
  function Shifted(s: seq<byte>): nat
    requires s != []
  {
    if |s| == 1 then s[0] else Shifted(s[..|s| - 1]) * 0x40 + (s[|s| - 1] as int) % 0x40
  }

  function Exp2(n: nat): (p: nat)
    ensures p > 0
  {
    if n == 0 then 1 else 2 * Exp2(n - 1)
  }

  /** Reading back gives the character, but for the sixty-four high half surrogates whose offset
      needs the bit that is not taken. */
  lemma ReadsBackUnless(u: nat)
    requires u < 0x10000
    ensures OneCharacter(Utf8(u)) && (FromUtf8(Utf8(u)) == u <==> !(0xdbc0 <= u <= 0xdbff))
  {
    Utf8Decodes(u);
    Bits(u);
    if 0xd800 <= u <= 0xdbff {
      HighBack(u);
    } else if 0x80 <= u && !(0xdc00 <= u <= 0xdfff) {
      ShortBack(u);
    }
  }

  lemma HighBack(u: nat)
    requires 0xd800 <= u <= 0xdbff
    ensures OneCharacter(Utf8(u)) && (FromUtf8(Utf8(u)) == u <==> u < 0xdbc0)
  {
    Utf8Decodes(u);
    HighForm(u);
    HighSum(u);
    hide Utf8;
    var s := Utf8(u);
    Quarter(Low(s[3]));
    Following(Low(s[1]));
    Following(Low(s[2]));
  }

  /** The sum of the parts, when two bits of uuuuu / 4 are taken. */
  lemma HighSum(u: nat)
    requires 0xd800 <= u <= 0xdbff
    ensures var uuuuu := u / 0x40 % 0x10 + 1;
            var vvvv := uuuuu / 4 % 4 * 4 + uuuuu % 4 - 1;
            var low := u % 4 + u / 4 % 0x10 * 4;
            (vvvv < 0 <==> u >= 0xdbc0) && low < 0x40 && (vvvv >= 0 ==> 0xd800 + vvvv * 0x40 + low == u)
            && (vvvv < 0 ==> 0xffc0 + low != u)
  {
    Bits(u);
    var uuuuu := u / 0x40 % 0x10 + 1;
    assert uuuuu == uuuuu / 4 * 4 + uuuuu % 4;
    assert uuuuu / 4 < 4 <==> uuuuu < 16;
  }

  lemma Quarter(n: nat)
    ensures (n + 0x80) % 4 == n % 4
  {}

  lemma Following(n: nat)
    requires n < 64
    ensures (n + 0x80) / 16 % 4 == n / 16 && (n + 0x80) % 16 == n % 16
  {}

  lemma ShortBack(u: nat)
    requires 0x80 <= u < 0xd800 || 0xe000 <= u < 0x10000
    ensures OneCharacter(Utf8(u)) && FromUtf8(Utf8(u)) == u
  {
    Utf8Decodes(u);
    var s := Utf8(u);
    if u < 0x800 {
      assert s == [0xc0 + u / 0x40, 0x80 + u % 0x40];
      Short2(u);
    } else {
      assert s == [0xe0 + u / 0x1000, 0x80 + u / 0x40 % 0x40, 0x80 + u % 0x40];
      Short3(u);
    }
    hide Utf8, Decode, Exp2, Shifted;
    Shifted23(s);
    Powers();
  }

  lemma Short2(u: nat)
    requires u < 0x800
    ensures ((0xc0 + u / 0x40) * 0x40 + (0x80 + u % 0x40) % 0x40) % 0x800 == u
  {
    assert (0x80 + u % 0x40) % 0x40 == u % 0x40;
  }

  lemma Short3(u: nat)
    requires u < 0x10000
    ensures (((0xe0 + u / 0x1000) * 0x40 + (0x80 + u / 0x40 % 0x40) % 0x40) * 0x40 + (0x80 + u % 0x40) % 0x40) % 0x10000 == u
  {
    Bits(u);
    LowBits(u % 0x40);
    LowBits(u / 0x40 % 0x40);
    LowWord(u);
  }

  lemma LowBits(x: nat)
    requires x < 0x40
    ensures (0x80 + x) % 0x40 == x
  {}

  lemma LowWord(u: nat)
    requires u < 0x10000
    ensures (0xe0 * 0x1000 + u) % 0x10000 == u
  {}

  lemma Shifted23(s: seq<byte>)
    requires 2 <= |s| <= 3
    ensures |s| == 2 ==> Shifted(s) == (s[0] as int) * 0x40 + (s[1] as int) % 0x40
    ensures |s| == 3 ==> Shifted(s) == ((s[0] as int) * 0x40 + (s[1] as int) % 0x40) * 0x40 + (s[2] as int) % 0x40
  {
    assert Shifted([s[0]]) == s[0];
    assert s[..1] == [s[0]];
    assert s[..2][..1] == [s[0]] && Shifted(s[..2]) == (s[0] as int) * 0x40 + (s[1] as int) % 0x40;
    assert |s| == 2 ==> s[..2] == s;
  }

  lemma Powers()
    ensures Exp2(11) == 0x800 && Exp2(16) == 0x10000
  {
    assert Exp2(8) == 0x100;
    assert Exp2(11) == 0x800;
  }

  /** One that does not come back. */
  lemma NotReadBack()
    ensures OneCharacter(Utf8(0xdbc0)) && FromUtf8(Utf8(0xdbc0)) == 0xffc0
  {}
}
