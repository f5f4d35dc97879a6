/** Printing strings and symbols for the reader, and reading them back
    (create_string_for_read and bgl_escape_C_string in runtime/Clib/cstring.c). */
module StringEscapes {
  import opened Bytes
  import opened Unicode

  const BACKSLASH: byte := 92
  const QUOTE: byte := 34
  const BAR: byte := 124

  predicate IsXdigit(c: byte) {
    IsDigit(c) || 65 <= c <= 70 || 97 <= c <= 102
  }

  /** XDIGIT_TO_BYTE. */
  function XdigitValue(c: byte): (v: nat)
    requires IsXdigit(c)
    ensures v < 16
  {
    if IsDigit(c) then c - 48 else 10 + (if c >= 97 then c - 97 else c - 65)
  }

  // ---------------------------------------------------------------------
  // Printing
  // ---------------------------------------------------------------------

  /** The letter that follows the backslash in the printed form of `c`, if it has one. */
  function Letter(c: byte, symbolp: bool): (l: byte)
    ensures l != 0 ==> c != 0
  {
    if c == 10 then 110        // \n
    else if c == 9 then 116    // \t
    else if c == 8 then 98     // \b
    else if c == 13 then 114   // \r
    else if c == 12 then 102   // \f
    else if c == 11 then 118   // \v
    else if c == 34 then 34    // \"
    else if c == BACKSLASH then BACKSLASH
    else if c == 124 && symbolp then 124  // \|
    else 0
  }

  predicate NeedsEscape(c: byte, symbolp: bool) {
    Letter(c, symbolp) != 0 || c < 32
  }

  /** The printed form of one byte. */
  function Printed1(c: byte, symbolp: bool): (r: seq<byte>)
    ensures 1 <= |r| <= 4 && forall i | 0 <= i < |r| :: r[i] != 0
    ensures !NeedsEscape(c, symbolp) ==> r == [c]
  {
    if Letter(c, symbolp) != 0 then [BACKSLASH, Letter(c, symbolp)]
    else if c >= 32 then [c]
    else [BACKSLASH, 48 + c / 64, 48 + c / 8 % 8, 48 + c % 8]
  }

  function Printed(s: seq<byte>, symbolp: bool): seq<byte> {
    if s == [] then [] else Printed1(s[0], symbolp) + Printed(s[1..], symbolp)
  }

  lemma {:induction false} PrintedSnoc(s: seq<byte>, c: byte, symbolp: bool)
    ensures Printed(s + [c], symbolp) == Printed(s, symbolp) + Printed1(c, symbolp)
  {
    if s == [] {
      assert [] + [c] == [c];
      assert Printed([c], symbolp) == Printed1(c, symbolp) + Printed([], symbolp);
    } else {
      assert (s + [c])[1..] == s[1..] + [c];
      PrintedSnoc(s[1..], c, symbolp);
    }
  }

  /** The printed form has no NUL, takes at most four bytes a byte, and is the text itself if
      nothing in it needs an escape. */
  lemma {:induction false} PrintedForm(s: seq<byte>, symbolp: bool)
    ensures |s| <= |Printed(s, symbolp)| <= 4 * |s|
    ensures 0 !in Printed(s, symbolp)
    ensures (forall c | c in s :: !NeedsEscape(c, symbolp)) ==> Printed(s, symbolp) == s
  {
    if s != [] {
      PrintedForm(s[1..], symbolp);
      if forall c | c in s :: !NeedsEscape(c, symbolp) {
        assert s[0] in s && forall c | c in s[1..] :: c in s;
        assert s == [s[0]] + s[1..];
      }
    }
  }

  /** How many backslashes stand directly before `p`, not counting any before `start`. */
  function Backslashes(src: seq<byte>, start: nat, p: nat): nat
    requires p <= |src|
  {
    if p > start && src[p - 1] == BACKSLASH then 1 + Backslashes(src, start, p - 1) else 0
  }

  /** A byte that is printed as itself: no control byte, quote or backslash, nor in a symbol a
      vertical bar. */
  predicate Plain(c: byte, symbolp: bool) {
    c >= 32 && c != QUOTE && c != BACKSLASH && !(symbolp && c == BAR)
  }

  /** A byte at which a reader would end the text. */
  predicate Ends(c: byte, symbolp: bool) {
    c == QUOTE || (symbolp && c == BAR)
  }

  /** The text has no control byte, and every byte that would end it is escaped; so would one be
      that is put after it be none. */
  predicate Delimited(r: seq<byte>, symbolp: bool) {
    && (forall c | c in r :: c >= 32)
    && (forall p | 0 <= p < |r| && Ends(r[p], symbolp) :: Backslashes(r, 0, p) % 2 == 1)
    && Backslashes(r, 0, |r|) % 2 == 0
  }

  lemma {:induction false} SameBackslashes(a: seq<byte>, b: seq<byte>, p: nat)
    requires p <= |a| <= |b| && b[..|a|] == a
    ensures Backslashes(b, 0, p) == Backslashes(a, 0, p)
  {
    if p > 0 {
      assert b[p - 1] == b[..|a|][p - 1];
      SameBackslashes(a, b, p - 1);
    }
  }

  lemma PieceShape(c: byte, symbolp: bool)
    ensures var p := Printed1(c, symbolp);
            && (forall k | 0 <= k < |p| :: p[k] >= 32)
            && (|p| == 1 || |p| == 2 || |p| == 4)
            && (|p| == 1 ==> p[0] != BACKSLASH && !Ends(p[0], symbolp))
            && (|p| > 1 ==> p[0] == BACKSLASH)
            && (|p| == 4 ==> forall k | 1 <= k < 4 :: p[k] != BACKSLASH && !Ends(p[k], symbolp))
  {}

  /** A printed byte after a delimited text. */
  lemma DelimitedSnoc(r: seq<byte>, c: byte, symbolp: bool)
    requires Delimited(r, symbolp)
    ensures Delimited(r + Printed1(c, symbolp), symbolp)
  {
    PieceShape(c, symbolp);
    var p := Printed1(c, symbolp);
    var t, n := r + p, |r|;
    BackslashesAcross(r, p);
    assert !Ends(BACKSLASH, symbolp);
    hide Printed1, Backslashes, Ends;
    assert forall k | n <= k < |t| :: t[k] == p[k - n];
    forall q | 0 <= q < |t| && Ends(t[q], symbolp) ensures Backslashes(t, 0, q) % 2 == 1 {
      assert q < n ==> t[q] == r[q];
      assert q >= n ==> q == n + 1 && |p| == 2;
    }
  }

  /** The backslashes before each place of a text and what comes after it. */
  lemma BackslashesAcross(r: seq<byte>, p: seq<byte>)
    requires p != []
    ensures forall q | 0 <= q <= |r| :: Backslashes(r + p, 0, q) == Backslashes(r, 0, q)
    ensures Backslashes(r + p, 0, |r| + 1) == if p[0] == BACKSLASH then 1 + Backslashes(r, 0, |r|) else 0
    ensures |p| > 1 ==> Backslashes(r + p, 0, |r| + 2) == if p[1] == BACKSLASH then 1 + Backslashes(r + p, 0, |r| + 1) else 0
    ensures p[|p| - 1] != BACKSLASH ==> Backslashes(r + p, 0, |r + p|) == 0
  {
    forall q | 0 <= q <= |r| ensures Backslashes(r + p, 0, q) == Backslashes(r, 0, q) {
      SameBackslashes(r, r + p, q);
    }
    var t := r + p;
    assert t[|r|] == p[0] && t[|t| - 1] == p[|p| - 1] && (|p| > 1 ==> t[|r| + 1] == p[1]);
  }

  /** The printed form is delimited. */
  lemma {:induction false} PrintedDelimited(s: seq<byte>, symbolp: bool)
    ensures Delimited(Printed(s, symbolp), symbolp)
  {
    if s != [] {
      var n := |s| - 1;
      PrintedDelimited(s[..n], symbolp);
      assert s == s[..n] + [s[n]];
      PrintedSnoc(s[..n], s[n], symbolp);
      DelimitedSnoc(Printed(s[..n], symbolp), s[n], symbolp);
    }
  }

  lemma {:induction false} PrintedConcat(a: seq<byte>, b: seq<byte>, symbolp: bool)
    ensures Printed(a + b, symbolp) == Printed(a, symbolp) + Printed(b, symbolp)
  {
    if a == [] {
      assert a + b == b;
    } else {
      assert (a + b)[1..] == a[1..] + b;
      PrintedConcat(a[1..], b, symbolp);
    }
  }

  lemma PrintedByte(c: byte, symbolp: bool)
    ensures Printed([c], symbolp) == Printed1(c, symbolp)
  {
    assert Printed([c], symbolp) == Printed1(c, symbolp) + Printed([], symbolp);
  }

  /** A plain byte is printed as itself, wherever it stands, and any other with a backslash. */
  lemma PlainIsItself(a: seq<byte>, c: byte, b: seq<byte>, symbolp: bool)
    ensures Plain(c, symbolp) ==> Printed(a + [c] + b, symbolp) == Printed(a, symbolp) + [c] + Printed(b, symbolp)
    ensures !Plain(c, symbolp) ==> Printed(a, symbolp) + [BACKSLASH] <= Printed(a + [c] + b, symbolp)
    ensures Plain(c, symbolp) <==> !NeedsEscape(c, symbolp)
  {
    PrintedConcat(a + [c], b, symbolp);
    PrintedConcat(a, [c], symbolp);
    PrintedByte(c, symbolp);
    hide Printed;
  }

  /** The C string in a buffer: the text before the first NUL (strlen, string_to_bstring). */
  method CString(a: array<byte>) returns (s: seq<byte>)
    requires exists i | 0 <= i < a.Length :: a[i] == 0
    ensures |s| < a.Length && s == a[..|s|] && a[|s|] == 0
    ensures forall i | 0 <= i < |s| :: a[i] != 0
  {
    var n := 0;
    while a[n] != 0
      invariant n < a.Length && (forall i | 0 <= i < n :: a[i] != 0)
      invariant exists i | n <= i < a.Length :: a[i] == 0
      decreases a.Length - n
    {
      n := n + 1;
    }
    return a[..n];
  }

  /** The switch of create_string_for_read, for one byte. */
  method PutPrinted(dst: array<byte>, w: nat, c: byte, symbolp: bool) returns (w': nat, esc: bool)
    requires w + 4 < dst.Length
    modifies dst
    ensures w' <= w + 4
    ensures w' == w + |Printed1(c, symbolp)| && dst[..w'] == old(dst[..w]) + Printed1(c, symbolp)
    ensures esc <==> NeedsEscape(c, symbolp)
  {
    var l := Letter(c, symbolp);
    if l != 0 {
      dst[w] := BACKSLASH;
      dst[w + 1] := l;
      w' := w + 2;
      esc := true;
    } else if c >= 32 {
      dst[w] := c;
      w' := w + 1;
      esc := false;
    } else {
      esc := true;
      // sprintf(&dst[w], "\\%03o", c), with its terminator
      dst[w], dst[w + 1], dst[w + 2], dst[w + 3] := BACKSLASH, 48 + c / 64, 48 + c / 8 % 8, 48 + c % 8;
      dst[w + 4] := 0;
      w' := w + 4;
    }
  }

  predicate AnyEscape(s: seq<byte>, symbolp: bool) {
    exists c | c in s :: NeedsEscape(c, symbolp)
  }

  lemma AnyEscapeSnoc(s: seq<byte>, c: byte, symbolp: bool)
    ensures AnyEscape(s + [c], symbolp) <==> AnyEscape(s, symbolp) || NeedsEscape(c, symbolp)
  {}

  /** create_string_for_read. The second result tells whether the text needs its escapes. */
  method ForRead(src: seq<byte>, symbolp: bool) returns (res: seq<byte>, esc: bool)
    ensures res == Printed(src, symbolp)
    ensures esc <==> AnyEscape(src, symbolp)
    ensures |res| <= 4 * |src| && 0 !in res && Delimited(res, symbolp)
    ensures esc <==> exists c | c in src :: !Plain(c, symbolp)
    ensures !esc ==> res == src
  {
    hide Printed, Printed1, NeedsEscape, AnyEscape, Plain, Delimited;
    var dst := new byte[|src| * 4 + 1];
    var w: nat := 0;
    esc := false;
    var r := 0;
    EmptyPrints(symbolp);
    while r < |src|
      invariant r <= |src| && w <= 4 * r
      invariant dst[..w] == Printed(src[..r], symbolp)
      invariant esc <==> AnyEscape(src[..r], symbolp)
    {
      assert src[..r + 1] == src[..r] + [src[r]];
      PrintedSnoc(src[..r], src[r], symbolp);
      AnyEscapeSnoc(src[..r], src[r], symbolp);
      var e;
      w, e := PutPrinted(dst, w, src[r], symbolp);
      esc := esc || e;
      r := r + 1;
    }
    assert src[..|src|] == src;
    dst[w] := 0;
    PrintedForm(src, symbolp);
    PrintedDelimited(src, symbolp);
    PlainWhenUnescaped(src, symbolp);
    AnyEscapePlain(src, symbolp);
    res := CString(dst);
    assert dst[..w] == Printed(src, symbolp);
    assert forall i | 0 <= i < w :: dst[i] == dst[..w][i] && dst[..w][i] in dst[..w];
    assert |res| == w;
  }

  lemma EmptyPrints(symbolp: bool)
    ensures Printed([], symbolp) == [] && !AnyEscape([], symbolp)
  {}

  lemma AnyEscapePlain(s: seq<byte>, symbolp: bool)
    ensures AnyEscape(s, symbolp) <==> exists c | c in s :: !Plain(c, symbolp)
  {}

  lemma PlainWhenUnescaped(s: seq<byte>, symbolp: bool)
    ensures !AnyEscape(s, symbolp) ==> Printed(s, symbolp) == s
  {}

  // ---------------------------------------------------------------------
  // Reading back
  // ---------------------------------------------------------------------

  /** What one step of bgl_escape_C_string produces, and how much of the source it uses. */
  datatype Piece = Piece(text: seq<byte>, used: nat)

  /** The byte that a letter after a backslash stands for, if it is one of those. */
  function Control(l: byte): Piece {
    if l == 110 then Piece([10], 2)
    else if l == 116 then Piece([9], 2)
    else if l == 98 then Piece([8], 2)
    else if l == 114 then Piece([13], 2)
    else if l == 102 then Piece([12], 2)
    else if l == 118 then Piece([11], 2)
    else Piece([l], 2)
  }

  /** The n bytes from `i`, inside the source, are hexadecimal digits. */
  predicate Xdigits(src: seq<byte>, i: nat, n: nat)
    decreases n
  {
    n == 0 || (i < |src| && IsXdigit(src[i]) && Xdigits(src, i + 1, n - 1))
  }

  predicate Digits(src: seq<byte>, i: nat, n: nat)
    decreases n
  {
    n == 0 || (i < |src| && IsDigit(src[i]) && Digits(src, i + 1, n - 1))
  }

  /** The step at source byte `i`. The source ends in a NUL, which no digit is, so the look
      ahead never passes the end. */
  function Step(src: seq<byte>, i: nat): (p: Piece)
    requires i < |src| - 1
    ensures p.used > 0 && |p.text| <= p.used && |p.text| <= 4
  {
    if src[i] != BACKSLASH then Piece([src[i]], 1)
    else
      var c := src[i + 1];
      if c == 0 then Piece([BACKSLASH], 2)
      else if c == 120 || c == 88 then
        if Xdigits(src, i + 2, 2) then Piece([XdigitValue(src[i + 2]) * 16 + XdigitValue(src[i + 3])], 4)
        else Piece([c], 2)
      else if c == 117 || c == 85 then
        if Xdigits(src, i + 2, 4) then
          assert Xdigits(src, i + 3, 3) && Xdigits(src, i + 4, 2) && Xdigits(src, i + 5, 1);
          Piece(Utf8(XdigitValue(src[i + 2]) * 0x1000 + XdigitValue(src[i + 3]) * 0x100
                     + XdigitValue(src[i + 4]) * 0x10 + XdigitValue(src[i + 5])), 6)
        else Piece([c], 2)
      else if Digits(src, i + 1, 3) then
        assert Digits(src, i + 2, 2) && Digits(src, i + 3, 1);
        Piece([(DigitOf(c) * 64 + DigitOf(src[i + 2]) * 8 + DigitOf(src[i + 3])) % 0x100], 4)
      else Control(c)
  }

  /** What the loop of bgl_escape_C_string produces from source byte `i` on. */
  function Unescaped(src: seq<byte>, i: nat, stop: nat): seq<byte>
    requires stop < |src|
    decreases |src| - i
  {
    if i >= stop then [] else Step(src, i).text + Unescaped(src, i + Step(src, i).used, stop)
  }

  /** Where the loop ends: `stop`, unless an escape reaches beyond it. */
  function ScanEnd(src: seq<byte>, i: nat, stop: nat): (e: nat)
    requires stop < |src|
    ensures i <= e && stop <= e
    decreases |src| - i
  {
    if i >= stop then i else ScanEnd(src, i + Step(src, i).used, stop)
  }

  /** A byte that ends every look ahead: a NUL or a quote, for instance. */
  predicate Fence(c: byte) {
    !IsXdigit(c) && c != 120 && c != 88 && c != 117 && c != 85
  }

  /** One turn of the loop. The string is followed by a byte that ends every look ahead. */
  method ReadPiece(src: seq<byte>, i: nat, len: int) returns (text: seq<byte>, i': nat, len': int)
    requires i < |src| - 1 && Fence(src[|src| - 1])
    ensures text == Step(src, i).text && i < i' == i + Step(src, i).used <= |src|
    ensures len' == len - Step(src, i).used + |text|
  {
    if src[i] != BACKSLASH {
      return [src[i]], i + 1, len;
    }
    len' := len - 1;
    i' := i + 1;
    var c := src[i'];
    if c == 0 {
      return [BACKSLASH], i' + 1, len';
    } else if c == 120 || c == 88 {
      if !IsXdigit(src[i' + 1]) || !IsXdigit(src[i' + 2]) {
        return [c], i' + 1, len';
      }
      return [XdigitValue(src[i' + 1]) * 16 + XdigitValue(src[i' + 2])], i' + 3, len' - 2;
    } else if c == 117 || c == 85 {
      if !IsXdigit(src[i' + 1]) || !IsXdigit(src[i' + 2]) || !IsXdigit(src[i' + 3]) || !IsXdigit(src[i' + 4]) {
        return [c], i' + 1, len';
      }
      text := Utf8(XdigitValue(src[i' + 1]) * 0x1000 + XdigitValue(src[i' + 2]) * 0x100
                   + XdigitValue(src[i' + 3]) * 0x10 + XdigitValue(src[i' + 4]));
      return text, i' + 5, len' - (5 - |text|);
    } else if IsDigit(c) {
      if !IsDigit(src[i' + 1]) || !IsDigit(src[i' + 2]) {
        return [c], i' + 1, len';
      }
      return [(DigitOf(c) * 64 + DigitOf(src[i' + 1]) * 8 + DigitOf(src[i' + 2])) % 0x100], i' + 3, len' - 2;
    } else {
      return Control(c).text, i' + 1, len';
    }
  }

  lemma UnescapeStep(src: seq<byte>, i: nat, stop: nat)
    requires i < stop < |src|
    ensures Unescaped(src, i, stop) == Step(src, i).text + Unescaped(src, i + Step(src, i).used, stop)
    ensures ScanEnd(src, i, stop) == ScanEnd(src, i + Step(src, i).used, stop)
    ensures |Step(src, i).text| <= Step(src, i).used && |Step(src, i).text| <= 4
  {}

  lemma UnescapeEnd(src: seq<byte>, i: nat, stop: nat)
    requires stop < |src| && stop <= i
    ensures Unescaped(src, i, stop) == [] && ScanEnd(src, i, stop) == i
  {}

  // ---------------------------------------------------------------------
  // Where the loop ends
  // ---------------------------------------------------------------------

  /** An escape begins at `p`: the backslash there is not itself escaped. */
  predicate EscapeAt(src: seq<byte>, start: nat, p: nat)
    requires p < |src|
  {
    src[p] == BACKSLASH && Backslashes(src, start, p) % 2 == 0
  }

  /** No escape that begins in [start, end) reaches beyond `end`. */
  predicate NoneCrosses(src: seq<byte>, start: nat, end: nat)
    requires end < |src|
  {
    forall p | start <= p < end && EscapeAt(src, start, p) :: p + Step(src, p).used <= end
  }

  /** The same, of the last five bytes: no escape is longer than six. */
  predicate CleanEnd(src: seq<byte>, start: nat, end: nat)
    requires end < |src|
  {
    forall p | start <= p < end && end - 5 <= p && EscapeAt(src, start, p) :: p + Step(src, p).used <= end
  }

  /** A step ends in a byte that is no backslash, or in an escaped one; there is no unescaped
      backslash within it. */
  lemma StepParity(src: seq<byte>, i: nat)
    requires i < |src| - 1
    ensures var u := Step(src, i).used;
            && i + u <= |src| && u <= 6
            && Backslashes(src, i, i + u) % 2 == 0
            && forall p | i < p < i + u :: !EscapeAt(src, i, p)
    ensures EscapeAt(src, i, i) <==> src[i] == BACKSLASH
    ensures src[i] != BACKSLASH ==> Step(src, i).used == 1
  {
    var u := Step(src, i).used;
    if u >= 4 {
      assert forall p | i + 2 <= p < i + u :: IsXdigit(src[p]);
    } else if u == 2 {
      assert Backslashes(src, i, i + 1) == 1;
    }
  }

  /** Counting from a later place changes no parity if the backslashes before it are even. */
  lemma {:induction false} SameParity(src: seq<byte>, i: nat, j: nat, p: nat)
    requires i <= j <= p <= |src| && Backslashes(src, i, j) % 2 == 0
    ensures Backslashes(src, i, p) % 2 == Backslashes(src, j, p) % 2
  {
    if p > j && src[p - 1] == BACKSLASH { SameParity(src, i, j, p - 1); }
  }

  /** The loop ends at the end exactly if no escape crosses it. */
  lemma {:induction false} ScanEndsClean(src: seq<byte>, i: nat, end: nat)
    requires i <= end < |src|
    ensures ScanEnd(src, i, end) == end <==> NoneCrosses(src, i, end)
    decreases end - i
  {
    hide Step, Backslashes;
    if i < end {
      StepParity(src, i);
      UnescapeStep(src, i, end);
      var j := i + Step(src, i).used;
      if j <= end {
        ScanEndsClean(src, j, end);
        forall p | j <= p < end ensures EscapeAt(src, i, p) <==> EscapeAt(src, j, p) {
          SameParity(src, i, j, p);
        }
        assert forall p | i < p < j :: !EscapeAt(src, i, p);
      } else {
        UnescapeEnd(src, j, end);
      }
    }
  }

  lemma LastFive(src: seq<byte>, start: nat, end: nat)
    requires start <= end < |src|
    ensures NoneCrosses(src, start, end) <==> CleanEnd(src, start, end)
  {
    hide Step, Backslashes;
    forall p | start <= p < end ensures Step(src, p).used <= 6 {
      StepParity(src, p);
    }
  }

  /** When the end is not followed by a hexadecimal digit, in particular when the text ends where
      its string or its quotation does, only a lone backslash can cross it. */
  lemma EvenBackslashes(src: seq<byte>, start: nat, end: nat)
    requires start <= end < |src| && !IsXdigit(src[end])
    ensures CleanEnd(src, start, end) <==> Backslashes(src, start, end) % 2 == 0
  {
    hide Step;
    forall p | start <= p < end - 1 && EscapeAt(src, start, p) ensures p + Step(src, p).used <= end {
      InsideDigits(src, p);
    }
    if end > start && src[end - 1] == BACKSLASH {
      InsideDigits(src, end - 1);
      assert Backslashes(src, start, end) == 1 + Backslashes(src, start, end - 1);
    }
  }

  lemma InsideDigits(src: seq<byte>, p: nat)
    requires p < |src| - 1 && src[p] == BACKSLASH
    ensures 2 <= Step(src, p).used && p + Step(src, p).used <= |src|
    ensures forall q | p + 2 <= q < p + Step(src, p).used :: IsXdigit(src[q])
  {
    StepParity(src, p);
  }

  /** bgl_escape_C_string on the bytes [start, end) of a string: the bytes written before the NUL,
      and the length that the result is given. The length is the number of bytes written
      exactly if no escape crosses the end, and up to three bytes more than the text has may
      be written if one does. */
  method EscapeCString(src: seq<byte>, start: nat, end: nat) returns (text: seq<byte>, len: int)
    requires start <= end < |src| && Fence(src[|src| - 1])
    ensures text == Unescaped(src, start, end)
    ensures len == |text| <==> CleanEnd(src, start, end)
    ensures !IsXdigit(src[end]) ==> (len == |text| <==> Backslashes(src, start, end) % 2 == 0)
    ensures CleanEnd(src, start, end) ==> |text| <= end - start
    ensures |text| <= end - start + 3
    ensures len == |text| + end - ScanEnd(src, start, end)
  {
    hide Step, Unescaped, ScanEnd, CleanEnd, NoneCrosses;
    var i, w: nat := start, 0;
    len := end - start;
    var dst := new byte[end - start + 4];
    assert dst[..0] == [] && [] + Unescaped(src, i, end) == Unescaped(src, i, end);
    while i < end
      invariant start <= i && w <= i - start && w <= end - start + 3 && dst.Length == end - start + 4
      invariant dst[..w] + Unescaped(src, i, end) == Unescaped(src, start, end)
      invariant ScanEnd(src, i, end) == ScanEnd(src, start, end)
      invariant len == w + end - i
      decreases |src| - i
    {
      UnescapeStep(src, i, end);
      var piece, i', len' := ReadPiece(src, i, len);
      Appended(dst[..w], piece, Unescaped(src, i', end));
      ghost var before := dst[..w];
      CopyIn(dst, w, piece);
      assert dst[..w + |piece|] == before + piece;
      w, i, len := w + |piece|, i', len';
    }
    UnescapeEnd(src, i, end);
    ScanEndsClean(src, start, end);
    LastFive(src, start, end);
    if !IsXdigit(src[end]) { EvenBackslashes(src, start, end); }
    dst[w] := 0;
    text := dst[..w];
  }

  lemma Appended(a: seq<byte>, b: seq<byte>, c: seq<byte>)
    ensures a + (b + c) == (a + b) + c
  {}

  /** A text that is one backslash: one byte is written, and the length is 0. */
  method LoneBackslash() returns (text: seq<byte>, len: int)
    ensures text == [BACKSLASH] && len == 0
  {
    text, len := EscapeCString([BACKSLASH, 0], 0, 1);
    UnescapeStep([BACKSLASH, 0], 0, 1);
    UnescapeEnd([BACKSLASH, 0], 2, 1);
  }

  /** A text that is the backslash of a \u escape: four bytes are written, and the length is -1. */
  method AcrossTheEnd() returns (text: seq<byte>, len: int)
    ensures |text| == 4 && len == -1
  {
    var src: seq<byte> := [BACKSLASH, 117, 100, 56, 48, 48, 0];
    text, len := EscapeCString(src, 0, 1);
    assert Xdigits(src, 5, 1) && Xdigits(src, 4, 2) && Xdigits(src, 3, 3) && Xdigits(src, 2, 4);
    UnescapeStep(src, 0, 1);
    UnescapeEnd(src, 6, 1);
  }

  // ---------------------------------------------------------------------
  // Round trip
  // ---------------------------------------------------------------------

  /** A printed byte is read back in one step. */
  lemma StepBack(src: seq<byte>, i: nat, c: byte, symbolp: bool)
    requires i + |Printed1(c, symbolp)| <= |src| - 1
    requires src[i..i + |Printed1(c, symbolp)|] == Printed1(c, symbolp)
    ensures Step(src, i) == Piece([c], |Printed1(c, symbolp)|)
  {
    var p := Printed1(c, symbolp);
    assert src[i] == src[i..i + |p|][0];
    assert |p| > 1 ==> src[i + 1] == src[i..i + |p|][1];
    if |p| == 4 {
      assert src[i + 2] == src[i..i + |p|][2] && src[i + 3] == src[i..i + |p|][3];
      assert src[i] == BACKSLASH && src[i + 1] == 48 + c / 64 && src[i + 2] == 48 + c / 8 % 8 && src[i + 3] == 48 + c % 8;
      assert Digits(src, i + 3, 1) && Digits(src, i + 2, 2) && Digits(src, i + 1, 3);
    } else if |p| == 2 {
      assert src[i] == BACKSLASH && src[i + 1] == Letter(c, symbolp);
      assert !Digits(src, i + 1, 3);
    } else {
      assert src[i] == c;
    }
  }

  /** Reading the printed form back gives the text, wherever it stands in the source and
      whatever follows it. */
  lemma {:induction false} ReadsBack(src: seq<byte>, i: nat, s: seq<byte>, symbolp: bool)
    requires i + |Printed(s, symbolp)| < |src|
    requires src[i..i + |Printed(s, symbolp)|] == Printed(s, symbolp)
    ensures Unescaped(src, i, i + |Printed(s, symbolp)|) == s
    ensures ScanEnd(src, i, i + |Printed(s, symbolp)|) == i + |Printed(s, symbolp)|
    decreases |s|
  {
    hide Step, Printed1;
    if s != [] {
      var p, rest := Printed1(s[0], symbolp), Printed(s[1..], symbolp);
      var n := |p| + |rest|;
      assert Printed(s, symbolp) == p + rest;
      Subslice(src, i, i + n, 0, |p|);
      Subslice(src, i, i + n, |p|, n);
      assert (p + rest)[0..|p|] == p && (p + rest)[|p|..n] == rest;
      StepBack(src, i, s[0], symbolp);
      ReadsBack(src, i + |p|, s[1..], symbolp);
      assert s == [s[0]] + s[1..];
    }
  }

  /** string_for_read or symbol_for_read, then bgl_escape_C_string. */
  method RoundTrip(s: seq<byte>, symbolp: bool) returns (dst: seq<byte>, len: int)
    ensures dst == s && len == |s|
  {
    var printed, esc := ForRead(s, symbolp);
    var src: seq<byte> := printed + [0];
    assert src[0..0 + |printed|] == printed;
    ReadsBack(src, 0, s, symbolp);
    dst, len := EscapeCString(src, 0, |printed|);
  }
}
