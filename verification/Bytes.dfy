/** Bytes, and memory moves between byte arrays. */
module Bytes {
  type byte = b: int | 0 <= b < 0x100

  const NEWLINE: byte := 10

  /** isdigit. */
  predicate IsDigit(c: byte) {
    48 <= c <= 57
  }

  function DigitOf(c: byte): int {
    (c as int) - 48
  }

  function Flatten(chunks: seq<seq<byte>>): seq<byte> {
    if chunks == [] then [] else chunks[0] + Flatten(chunks[1..])
  }

  /** `s1` is `s0` with `text` written over it at `o`. */
  predicate PutAt(s0: seq<byte>, s1: seq<byte>, o: nat, text: seq<byte>) {
    o + |text| <= |s0| && s1 == s0[..o] + text + s0[o + |text|..]
  }

  /** memmove between two places of one array: reads all, then writes all. */
  method MoveWithin(a: array<byte>, dst: nat, src: nat, n: nat)
    requires dst + n <= a.Length && src + n <= a.Length
    modifies a
    ensures a[..dst] == old(a[..dst])
    ensures a[dst + n..] == old(a[dst + n..])
    ensures a[dst..dst + n] == old(a[src..src + n])
  {
    forall i | 0 <= i < n { a[dst + i] := a[src + i]; }
  }

  /** memmove from the beginning of one array to the beginning of another. */
  method CopyFrom(a: array<byte>, b: array<byte>, n: nat)
    requires a != b && n <= a.Length && n <= b.Length
    modifies a
    ensures forall i | 0 <= i < n :: a[i] == b[i]
  {
    forall i | 0 <= i < n { a[i] := b[i]; }
  }

  /** memmove and memcpy from a byte string. */
  method CopyIn(a: array<byte>, dst: nat, s: seq<byte>)
    requires dst + |s| <= a.Length
    modifies a
    ensures PutAt(old(a[..]), a[..], dst, s)
  {
    forall i | 0 <= i < |s| { a[dst + i] := s[i]; }
  }

  /** A part that ends where new text was put, grown by that text. */
  lemma SliceAppend(b: seq<byte>, b': seq<byte>, from: nat, pos: nat, text: seq<byte>)
    requires from <= pos && PutAt(b, b', pos, text)
    ensures b'[..pos] == b[..pos]
    ensures b'[from..pos + |text|] == b[from..pos] + text
  {}

  lemma Subslice(s: seq<byte>, from: nat, to: nat, i: nat, j: nat)
    requires i <= j && from + j <= to <= |s|
    ensures s[from..to][i..j] == s[from + i..from + j]
  {
    var l, r := s[from..to][i..j], s[from + i..from + j];
    assert forall k | 0 <= k < |l| :: l[k] == r[k];
  }

  lemma PutNothing(s: seq<byte>, o: nat)
    requires o <= |s|
    ensures PutAt(s, s, o, [])
  {}

  /** Two texts written one after the other. */
  lemma PutTwice(s0: seq<byte>, s1: seq<byte>, s2: seq<byte>, o: nat, first: seq<byte>, more: seq<byte>)
    requires PutAt(s0, s1, o, first) && PutAt(s1, s2, o + |first|, more)
    ensures PutAt(s0, s2, o, first + more)
  {}

  lemma Grown(w: seq<byte>, p: seq<byte>, text: seq<byte>, more: seq<byte>, rest: seq<byte>)
    ensures w + text + more == w + (text + more) && p + text + more == p + (text + more)
    ensures text + (more + rest) == (text + more) + rest
  {}

  /** `token` has come off the front of `before`, which leaves `after`. */
  predicate Off(before: seq<byte>, token: seq<byte>, after: seq<byte>) {
    before == token + after
  }

  /** The first k bytes of a stream of which `w` is buffered. */
  lemma OffFirst(w: seq<byte>, k: nat, rest: seq<byte>)
    requires k <= |w|
    ensures Off(w, w[..k], w[k..]) && Off(w + rest, w[..k], w[k..] + rest)
  {}

  lemma OffLength(before: seq<byte>, token: seq<byte>, after: seq<byte>)
    requires Off(before, token, after)
    ensures |before| == |token| + |after|
  {}

  /** They stay the first when more is buffered. */
  lemma OffStill(w: seq<byte>, token: seq<byte>, p: seq<byte>, more: seq<byte>)
    requires Off(w, token, p)
    ensures Off(w + more, token, p + more)
    ensures (w + more)[..|token|] == token
  {}

  /** Taking r bytes of a string from `p` on, with more strings after it. */
  lemma CutString(s: seq<byte>, p: nat, r: nat, rest: seq<byte>)
    requires p + r <= |s|
    ensures s[p..] + rest == s[p..p + r] + (s[p + r..] + rest)
    ensures p + r == |s| ==> s[p + r..] == []
  {
    assert s[p..] == s[p..p + r] + s[p + r..];
  }

  lemma MovedOver(p: seq<byte>, text: seq<byte>, rest: seq<byte>)
    ensures (p + text) + rest == p + (text + rest)
  {}

  /** The text [from, to) of `b` has moved to the front; so has its tail from `mid` on. */
  lemma MovedToFront(b: seq<byte>, b': seq<byte>, from: nat, mid: nat, to: nat)
    requires from <= mid <= to < |b| && to - from < |b'|
    requires b'[0..0 + (to - from + 1)] == b[from..from + (to - from + 1)]
    ensures b'[0..to - from] == b[from..to]
    ensures b'[mid - from..to - from] == b[mid..to]
  {
    var n := to - from;
    Subslice(b, from, to + 1, 0, n);
    Subslice(b, from, to + 1, mid - from, n);
    Subslice(b', 0, n + 1, 0, n);
    Subslice(b', 0, n + 1, mid - from, n);
  }

  /** Text put directly before the text [at, to). */
  lemma PutBefore(b: seq<byte>, b': seq<byte>, at: nat, to: nat, text: seq<byte>, rest: seq<byte>)
    requires |text| <= at <= to <= |b| && PutAt(b, b', at - |text|, text)
    ensures b'[at - |text|..to] == text + b[at..to]
    ensures b'[at - |text|..to] + rest == text + (b[at..to] + rest)
  {}
}
