/** sort_vector: shell sort with a callback (runtime/Clib/cvector.c). */
module VectorSort {

  ghost predicate TotalPreorder<T(!new)>(le: (T, T) -> bool) {
    && (forall x, y :: le(x, y) || le(y, x))
    && (forall x, y, z :: le(x, y) && le(y, z) ==> le(x, z))
  }

  /** The callback is `le`, or its strict part, or anything in between. */
  ghost predicate Decides<T(!new)>(proc: (T, T) -> bool, le: (T, T) -> bool) {
    forall x, y :: if proc(x, y) then le(x, y) else le(y, x)
  }

  ghost predicate Sorts<T(!new)>(proc: (T, T) -> bool, le: (T, T) -> bool) {
    TotalPreorder(le) && Decides(proc, le)
  }

  /** Both readings of the callback that a caller may have in mind. */
  lemma OrderOrStrictOrder<T(!new)>(le: (T, T) -> bool)
    requires TotalPreorder(le)
    ensures Decides(le, le)
    ensures Decides((x, y) => le(x, y) && !le(y, x), le)
  {}

  ghost predicate Sorted<T(!new)>(s: seq<T>, le: (T, T) -> bool) {
    forall i, j | 0 <= i < j < |s| :: le(s[i], s[j])
  }

  /** Elements below `n` are in order with those `gap` before them. */
  ghost predicate GapSorted<T(!new)>(s: seq<T>, le: (T, T) -> bool, gap: nat, n: nat) {
    n <= |s| && forall k | gap <= k < n :: le(s[k - gap], s[k])
  }

  lemma {:induction false} GapOneIsSorted<T(!new)>(s: seq<T>, le: (T, T) -> bool, i: nat, j: nat)
    requires TotalPreorder(le) && GapSorted(s, le, 1, |s|) && i < j < |s|
    ensures le(s[i], s[j])
    decreases j - i
  {
    assert le(s[j - 1], s[j]);
    if i < j - 1 {
      GapOneIsSorted(s, le, i, j - 1);
      assert le(s[i], s[j - 1]);
    }
  }

  /** In order below and at `n`, but for the element at `m`, which may still be too small. */
  ghost predicate Sinking<T(!new)>(s: seq<T>, le: (T, T) -> bool, gap: nat, n: nat, m: int) {
    && 0 <= m <= n < |s|
    && (forall k | gap <= k <= n && k != m :: le(s[k - gap], s[k]))
    && (gap <= m && m + gap <= n ==> le(s[m - gap], s[m + gap]))
  }

  function Swap<T>(s: seq<T>, i: nat, j: nat): seq<T>
    requires i < |s| && j < |s|
  {
    s[i := s[j]][j := s[i]]
  }

  lemma SwapPermutes<T>(s: seq<T>, i: nat, j: nat)
    requires i < j < |s|
    ensures multiset(Swap(s, i, j)) == multiset(s)
  {}

  lemma SwapSinks<T(!new)>(s: seq<T>, le: (T, T) -> bool, gap: nat, n: nat, j: nat)
    requires gap > 0 && Sinking(s, le, gap, n, j + gap) && le(s[j + gap], s[j])
    ensures Sinking(Swap(s, j, j + gap), le, gap, n, j)
  {}

  lemma StartSinking<T(!new)>(s: seq<T>, le: (T, T) -> bool, gap: nat, n: nat)
    requires gap > 0 && GapSorted(s, le, gap, n) && n < |s|
    ensures Sinking(s, le, gap, n, n)
  {}

  lemma DoneSinking<T(!new)>(s: seq<T>, le: (T, T) -> bool, gap: nat, n: nat, m: nat)
    requires Sinking(s, le, gap, n, m)
    requires m < gap || le(s[m - gap], s[m])
    ensures GapSorted(s, le, gap, n + 1)
  {}

  lemma Decided<T(!new)>(proc: (T, T) -> bool, le: (T, T) -> bool, x: T, y: T)
    requires Sorts(proc, le)
    ensures if proc(x, y) then le(x, y) else le(y, x)
  {}

  /** The swap of the innermost loop. */
  method SwapElements<T>(a: array<T>, i: nat, j: nat)
    requires i < j < a.Length
    modifies a
    ensures a[..] == Swap(old(a[..]), i, j)
    ensures multiset(a[..]) == old(multiset(a[..]))
  {
    ghost var s := a[..];
    var tmp := a[j];
    a[j] := a[i];
    a[i] := tmp;
    assert a[..] == Swap(s, i, j);
    SwapPermutes(s, i, j);
  }

  /** The innermost loop: the element at `i` sinks to its place among those a multiple of the gap away. */
  method Sink<T(!new)>(a: array<T>, proc: (T, T) -> bool, gap: nat, i: nat, ghost le: (T, T) -> bool)
    requires 0 < gap <= i < a.Length
    modifies a
    ensures multiset(a[..]) == old(multiset(a[..]))
    ensures Sorts(proc, le) && old(GapSorted(a[..], le, gap, i)) ==> GapSorted(a[..], le, gap, i + 1)
  {
    hide Sorts, GapSorted, Sinking, Swap;
    ghost var good := Sorts(proc, le) && GapSorted(a[..], le, gap, i);
    if good { StartSinking(a[..], le, gap, i); }
    var j: int := i - gap;
    while j >= 0
      invariant 0 - gap <= j <= i - gap
      invariant multiset(a[..]) == old(multiset(a[..]))
      invariant good ==> Sinking(a[..], le, gap, i, j + gap)
    {
      ghost var s := a[..];
      if good { Decided(proc, le, a[j], a[j + gap]); }
      if proc(a[j], a[j + gap]) {
        break;
      } else {
        SwapElements(a, j, j + gap);
        if good { SwapSinks(s, le, gap, i, j); }
      }
      j := j - gap;
    }
    if good { DoneSinking(a[..], le, gap, i, j + gap); }
  }

  /** One pass: afterwards the vector is sorted with respect to the gap. */
  method Pass<T(!new)>(a: array<T>, proc: (T, T) -> bool, gap: nat, ghost le: (T, T) -> bool)
    requires 0 < gap <= a.Length
    modifies a
    ensures multiset(a[..]) == old(multiset(a[..]))
    ensures Sorts(proc, le) ==> GapSorted(a[..], le, gap, a.Length)
  {
    hide Sorts;
    for i := gap to a.Length
      invariant multiset(a[..]) == old(multiset(a[..]))
      invariant Sorts(proc, le) ==> GapSorted(a[..], le, gap, i)
    {
      Sink(a, proc, gap, i, le);
    }
  }

  /** sort_vector: a permutation whatever the callback, and sorted if it decides a total preorder. */
  method SortVector<T(!new)>(a: array<T>, proc: (T, T) -> bool, ghost le: (T, T) -> bool)
    modifies a
    ensures multiset(a[..]) == old(multiset(a[..]))
    ensures Sorts(proc, le) ==> Sorted(a[..], le)
  {
    var incr := a.Length / 2;
    ghost var last := a.Length;
    while incr != 0
      invariant 0 <= incr <= a.Length / 2
      invariant multiset(a[..]) == old(multiset(a[..]))
      invariant last / 2 == incr && (last == a.Length || (last > 0 && (Sorts(proc, le) ==> GapSorted(a[..], le, last, a.Length))))
    {
      Pass(a, proc, incr, le);
      last := incr;
      incr := incr / 2;
    }
    if Sorts(proc, le) && a.Length > 1 {
      forall i, j | 0 <= i < j < a.Length ensures le(a[..][i], a[..][j]) {
        GapOneIsSorted(a[..], le, i, j);
      }
    }
  }
}
