/** The geometry of the nursery: objects grow upwards from `heap`, remembered slots
    downwards from its last word (runtime/Clib/csaw.c, runtime/Include/bigloo_saw.h). */
module SawNursery {
  import opened SawMemory

  /** The nursery descriptor. `pool` is the memory of the remembered slots, by address,
      and `count` how many of them are in use. */
  datatype Nursery = Nursery(heap: nat, size: nat, alloc: nat, backptr: int, pool: map<int, Slot>, count: nat)

  predicate Within(n: Nursery, a: nat) {
    n.heap <= a < n.heap + n.size
  }

  function Backpool(n: Nursery): int {
    n.heap + n.size - OBJ_SIZE
  }

  /** The address of the k-th remembered slot. */
  function Entry(n: Nursery, k: nat): int {
    Backpool(n) - OBJ_SIZE * k
  }

  predicate SlotOk(n: Nursery, m: Memory, globals: seq<Value>, p: Slot) {
    match p
    case Field(a, i) => a in m && !Within(n, a) && i < |m[a].fields|
    case Global(g) => g < |globals|
  }

  /** The free space starts at `alloc` and ends where the last remembered slot begins. */
  ghost predicate Layout(n: Nursery, m: Memory, globals: seq<Value>) {
    && SizeOf(Epair) < n.size - OBJ_SIZE
    && n.heap <= n.alloc < n.backptr + OBJ_SIZE
    && n.backptr == Entry(n, n.count)
    && forall k | 0 <= k < n.count :: Entry(n, k) in n.pool && SlotOk(n, m, globals, n.pool[Entry(n, k)])
  }

  /** Live nursery objects lie below `alloc` and do not overlap. */
  ghost predicate Disjoint(n: Nursery, m: Memory) {
    && (forall a | a in m && n.heap <= a < n.alloc :: a + SizeOf(m[a].kind) <= n.alloc)
    && (forall a, b | a in m && b in m && n.heap <= a < b < n.alloc :: a + SizeOf(m[a].kind) <= b)
  }

  /** The remembered words. */
  ghost function Recorded(n: Nursery): set<Slot> {
    set k | 0 <= k < n.count && Entry(n, k) in n.pool :: n.pool[Entry(n, k)]
  }

  /** Every word outside the nursery and the frames that holds a young pointer is remembered. */
  ghost predicate Remembered(n: Nursery, m: Memory, globals: seq<Value>) {
    && (forall a, i | a in m && !Within(n, a) && 0 <= i < |m[a].fields| && m[a].fields[i].Young? ::
          Field(a, i) in Recorded(n))
    && (forall g | 0 <= g < |globals| && globals[g].Young? :: Global(g) in Recorded(n))
  }

  ghost predicate Consistent(n: Nursery, m: Memory, globals: seq<Value>) {
    Layout(n, m, globals) && Disjoint(n, m) && Remembered(n, m, globals)
  }

  ghost function SnapOf(n: Nursery, m: Memory, frames: seq<seq<Value>>, globals: seq<Value>): Snap {
    Snap(m, n.heap, n.heap + n.size,
         (set a | a in m && n.heap <= a < n.alloc),
         (set a | a in m && !Within(n, a)),
         frames, globals)
  }

  lemma RecordedRemembers(n: Nursery, m: Memory, frames: seq<seq<Value>>, globals: seq<Value>)
    requires Consistent(n, m, globals)
    ensures RememberedBy(SnapOf(n, m, frames, globals), Recorded(n))
    ensures forall k | 0 <= k < n.count :: Entry(n, k) in n.pool && SlotIn(SnapOf(n, m, frames, globals), n.pool[Entry(n, k)])
  {}

  function Reset(n: Nursery): Nursery {
    n.(alloc := n.heap, backptr := Backpool(n), count := 0)
  }

  /** After a collection nothing refers to the nursery, so it can be emptied. */
  lemma ResetConsistent(n: Nursery, m: Memory, frames: seq<seq<Value>>, globals: seq<Value>)
    requires SizeOf(Epair) < n.size - OBJ_SIZE
    requires SnapOk(SnapOf(Reset(n), m, frames, globals))
    ensures Consistent(Reset(n), m, globals)
  {
    var s := SnapOf(Reset(n), m, frames, globals);
    forall a, i | a in m && !Within(n, a) && 0 <= i < |m[a].fields| ensures !m[a].fields[i].Young? {
      assert a in s.tenured && SnapObject(s, m[a]);
    }
    forall g | 0 <= g < |globals| ensures !globals[g].Young? {
      assert globals[g] in s.globals;
    }
  }

  // ---------------------------------------------------------------------
  // Writes into the nursery
  // ---------------------------------------------------------------------

  /** What is left of the nursery objects when the bytes [lo, hi) are overwritten. */
  function SpareObjects(n: Nursery, m: Memory, lo: int, hi: int): Memory {
    map x | x in m && !(Within(n, x) && x < hi && lo < x + SizeOf(m[x].kind)) :: m[x]
  }

  /** What is left of the remembered slots when the bytes [lo, hi) are overwritten. */
  function SpareSlots(pool: map<int, Slot>, lo: int, hi: int): map<int, Slot> {
    map p | p in pool && (p + OBJ_SIZE <= lo || hi <= p) :: pool[p]
  }

  /** The slots in use all survive. */
  lemma SparedSlots(n: Nursery, m: Memory, globals: seq<Value>, lo: int, hi: int)
    requires Layout(n, m, globals) && hi <= n.backptr + OBJ_SIZE
    ensures var n' := n.(pool := SpareSlots(n.pool, lo, hi));
            && Recorded(n') == Recorded(n)
            && forall k | 0 <= k < n.count :: Entry(n', k) in n'.pool && n'.pool[Entry(n', k)] == n.pool[Entry(n, k)]
  {
    var n' := n.(pool := SpareSlots(n.pool, lo, hi));
    assert forall k: nat :: Entry(n', k) == Entry(n, k);
    assert forall k | 0 <= k < n.count :: Entry(n, k) >= n.backptr + OBJ_SIZE;
  }

  /** So do the live objects, and all outside the nursery. */
  lemma SparedObjects(n: Nursery, m: Memory, lo: int, hi: int)
    requires Disjoint(n, m) && n.alloc <= lo
    ensures var m' := SpareObjects(n, m, lo, hi);
            && Disjoint(n.(pool := SpareSlots(n.pool, lo, hi)), m')
            && forall x | x in m && (!Within(n, x) || x < n.alloc) :: x in m' && m'[x] == m[x]
  {}

  lemma SparedLayout(n: Nursery, m: Memory, globals: seq<Value>, lo: int, hi: int)
    requires Layout(n, m, globals) && hi <= n.backptr + OBJ_SIZE
    ensures Layout(n.(pool := SpareSlots(n.pool, lo, hi)), SpareObjects(n, m, lo, hi), globals)
  {
    SparedSlots(n, m, globals, lo, hi);
    hide SpareSlots;
  }

  lemma SparedRemembered(n: Nursery, m: Memory, globals: seq<Value>, lo: int, hi: int)
    requires Layout(n, m, globals) && Remembered(n, m, globals) && hi <= n.backptr + OBJ_SIZE
    ensures Remembered(n.(pool := SpareSlots(n.pool, lo, hi)), SpareObjects(n, m, lo, hi), globals)
  {
    SparedSlots(n, m, globals, lo, hi);
    hide SpareSlots, Recorded, Layout;
  }

  lemma SparedLive(n: Nursery, m: Memory, frames: seq<seq<Value>>, globals: seq<Value>, lo: int, hi: int)
    requires Disjoint(n, m) && n.alloc <= lo
    requires n.heap <= n.alloc <= n.heap + n.size
    ensures SameLive(SnapOf(n, m, frames, globals),
                     SnapOf(n.(pool := SpareSlots(n.pool, lo, hi)), SpareObjects(n, m, lo, hi), frames, globals))
  {
    SparedObjects(n, m, lo, hi);
    hide Disjoint, SpareSlots;
  }

  /** Overwriting free space destroys no live object and no remembered slot. */
  lemma FreeSpaceIsFree(n: Nursery, m: Memory, frames: seq<seq<Value>>, globals: seq<Value>, lo: int, hi: int)
    requires Consistent(n, m, globals)
    requires n.alloc <= lo < hi <= n.backptr + OBJ_SIZE
    ensures var m' := SpareObjects(n, m, lo, hi);
            var n' := n.(pool := SpareSlots(n.pool, lo, hi));
            && Consistent(n', m', globals)
            && SameLive(SnapOf(n, m, frames, globals), SnapOf(n', m', frames, globals))
            && Recorded(n') == Recorded(n)
  {
    SparedSlots(n, m, globals, lo, hi);
    SparedObjects(n, m, lo, hi);
    SparedLayout(n, m, globals, lo, hi);
    SparedRemembered(n, m, globals, lo, hi);
    SparedLive(n, m, frames, globals, lo, hi);
    hide Disjoint, Remembered, Recorded, SpareSlots, SpareObjects, SnapOf, SameLive;
  }

  /** Extending the used space over an object just written there. */
  lemma AllocConsistent(n: Nursery, m: Memory, globals: seq<Value>, o: Obj)
    requires Consistent(n, m, globals)
    requires n.alloc + SizeOf(o.kind) < n.backptr
    requires forall x | x in m && n.alloc <= x < n.alloc + SizeOf(o.kind) :: !Within(n, x)
    ensures Within(n, n.alloc) && n.alloc !in m && n.alloc + SizeOf(o.kind) <= n.heap + n.size
    ensures Consistent(n.(alloc := n.alloc + SizeOf(o.kind)), m[n.alloc := o], globals)
  {
    var n' := n.(alloc := n.alloc + SizeOf(o.kind));
    assert forall k: nat :: Entry(n', k) == Entry(n, k);
    assert Recorded(n') == Recorded(n);
  }

  lemma AllocSnap(n: Nursery, m: Memory, frames: seq<seq<Value>>, globals: seq<Value>, o: Obj)
    requires Within(n, n.alloc) && n.alloc + SizeOf(o.kind) <= n.heap + n.size
    requires forall x | x in m && n.alloc <= x < n.alloc + SizeOf(o.kind) :: !Within(n, x)
    ensures var s := SnapOf(n, m, frames, globals);
            SnapOf(n.(alloc := n.alloc + SizeOf(o.kind)), m[n.alloc := o], frames, globals)
            == s.(mem := m[n.alloc := o], young := s.young + {n.alloc})
  {}

  /** Remembering one more slot in the free word at `backptr`. */
  lemma RecordConsistent(n: Nursery, m: Memory, globals: seq<Value>, p: Slot)
    requires Consistent(n, m, globals) && SlotOk(n, m, globals, p)
    requires n.alloc < n.backptr
    ensures var n' := n.(pool := n.pool[n.backptr := p], backptr := n.backptr - OBJ_SIZE, count := n.count + 1);
            Consistent(n', m, globals) && Recorded(n') == Recorded(n) + {p}
  {
    var n' := n.(pool := n.pool[n.backptr := p], backptr := n.backptr - OBJ_SIZE, count := n.count + 1);
    assert forall k: nat :: Entry(n', k) == Entry(n, k);
    assert forall k | 0 <= k < n.count :: Entry(n, k) != n.backptr;
    assert n'.pool[Entry(n', n.count)] == p;
    forall q | q in Recorded(n) ensures q in Recorded(n') {
      var k :| 0 <= k < n.count && Entry(n, k) in n.pool && n.pool[Entry(n, k)] == q;
      assert n'.pool[Entry(n', k)] == q;
    }
    forall q | q in Recorded(n') ensures q in Recorded(n) + {p} {
      var k :| 0 <= k < n'.count && Entry(n', k) in n'.pool && n'.pool[Entry(n', k)] == q;
      if k < n.count { assert n.pool[Entry(n, k)] == q; }
    }
  }

  /** Assigning a word keeps the remembered set complete if a word that comes to hold a
      young pointer outside the nursery is remembered. */
  lemma AssignFieldConsistent(n: Nursery, m: Memory, globals: seq<Value>, a: nat, i: nat, v: Value)
    requires Consistent(n, m, globals)
    requires a in m && i < |m[a].fields|
    requires v.Young? && !Within(n, a) ==> Field(a, i) in Recorded(n)
    ensures Consistent(n, m[a := m[a].(fields := m[a].fields[i := v])], globals)
  {}

  lemma AssignGlobalConsistent(n: Nursery, m: Memory, globals: seq<Value>, g: nat, v: Value)
    requires Consistent(n, m, globals)
    requires g < |globals|
    requires v.Young? ==> Global(g) in Recorded(n)
    ensures Consistent(n, m, globals[g := v])
  {}
}
