/** The SAW nursery, its tracer and copiers, its write barrier and its allocators
    (runtime/Clib/csaw.c). */
module SawCollector {
  import opened SawMemory
  import opened SawNursery
  import opened SawStore

  lemma FreshAddress(used: set<nat>, from: nat)
    ensures exists x: nat :: x >= from && x !in used
    decreases used
  {
    if from in used {
      FreshAddress(used - {from}, from + 1);
      var x: nat :| x >= from + 1 && x !in used - {from};
      assert x >= from && x !in used;
    }
  }

  /** Zeroed memory of the size that `kind` asks for. */
  function Blank(kind: Kind): (o: Obj)
    ensures WellFormed(o) && !o.marked
  {
    Obj(kind, false, seq(Arity(kind), _ => Imm(0)))
  }

  class Saw {
    /** The nursery occupies the bytes [heap, heap + size). Objects are allocated
        upwards from `heap`; remembered slots are stored downwards from the last word. */
    const heap: nat
    const size: nat
    var alloc: nat
    var backptr: int
    var mem: Memory
    var pool: map<int, Slot>
    /** The values of the mutator's frames, innermost first, and of its global variables. */
    var frames: seq<seq<Value>>
    var globals: seq<Value>
    var nbAlloc: int
    var nbAssign: int
    var nbCopy: int

    /** The number of remembered slots; the copies made by the current collection,
        each with what it is a copy of; the collector-free store and the names in it. */
    ghost var count: nat
    ghost var origin: map<nat, nat>
    ghost var objs: seq<AObj>
    ghost var name: map<Value, nat>

    ghost function N(): Nursery
      reads this
    {
      Nursery(heap, size, alloc, backptr, pool, count)
    }

    ghost function Snapshot(): Snap
      reads this
    {
      SnapOf(N(), mem, frames, globals)
    }

    /** The invariant of the mutator. */
    ghost predicate Valid()
      reads this
    {
      && Consistent(N(), mem, globals)
      && SnapOk(Snapshot())
      && Represents(Snapshot(), name, objs)
    }

    /** What the mutator can tell: the store, and its roots in terms of it. */
    ghost function View(): Store
      reads this
    {
      Store(objs, FramesOf(name, frames), NamesOf(name, globals))
    }

    constructor (heap: nat, size: nat, globalCount: nat)
      requires SizeOf(Epair) < size - OBJ_SIZE
      ensures Valid()
      ensures View() == Store([], [], seq(globalCount, _ => AImm(0)))
    {
      this.heap, this.size := heap, size;
      alloc := heap;
      backptr := heap + size - OBJ_SIZE;
      mem, pool := map[], map[];
      frames, globals := [], seq(globalCount, _ => Imm(0));
      nbAlloc, nbAssign, nbCopy := 0, 0, 0;
      count, origin, objs, name := 0, map[], [], map[];
    }

    // -------------------------------------------------------------------
    // Tracing
    // -------------------------------------------------------------------

    /** GC_MALLOC: an object at some unused address outside the nursery. */
    method GcMalloc(kind: Kind) returns (x: nat)
      modifies `mem
      ensures x !in old(mem) && !(heap <= x < heap + size)
      ensures mem == old(mem)[x := Blank(kind)]
    {
      FreshAddress(mem.Keys, heap + size);
      x :| !(heap <= x < heap + size) && x !in mem;
      mem := mem[x := Blank(kind)];
    }

    /** trace_obj: the promoted form of `o`. Copies what `o` reaches and is not copied
        yet, and nothing else; every copy is counted. */
    method TraceObj(o: Value, ghost s: Snap, ghost grey: set<nat>, ghost reach: set<nat>) returns (r: Value)
      requires Tracing(s, mem, origin, grey) && s.lo == heap && s.hi == heap + size
      requires SnapValue(s, o)
      requires Closed(s, reach) && HoldsYoung({o}, reach)
      modifies `mem, `origin, `nbCopy
      ensures Tracing(s, mem, origin, grey)
      ensures Progress(s, old(mem), old(origin), mem, origin, {}, reach, nbCopy - old(nbCopy))
      ensures Forwarded(mem, o, r)
      decreases Unmarked(s, mem), 0
    {
      hide Tracing, Closed, Progress;
      if o.Young? {
        var oo := o.addr;
        YoungFacts(s, mem, origin, grey, oo);
        if !(heap <= oo <= heap + size - OBJ_SIZE) {
          assert false;  // "YOUNG not in heap"
        }
        if !mem[oo].marked {
          ghost var m0 := mem;
          mem := mem[oo := mem[oo].(marked := true)];
          if mem[oo].kind == Cell {
            r := CellCopy(oo, s, grey, reach, m0);
          } else {
            r := PairCopy(oo, s, grey, reach, m0);
          }
        } else {
          r := mem[oo].fields[0];
          ProgressRefl(s, mem, origin, {}, reach);
        }
      } else {
        r := o;
        ProgressRefl(s, mem, origin, {}, reach);
      }
    }

    /** One field of a copy being initialised: an_object->field = trace_obj(v). */
    method CopyField(x: nat, i: nat, v: Value, ghost s: Snap, ghost grey: set<nat>, ghost reach: set<nat>)
      returns (w: Value)
      requires Tracing(s, mem, origin, grey) && s.lo == heap && s.hi == heap + size
      requires x in grey && x in origin && x in mem && i < |mem[x].fields|
      requires SnapValue(s, v)
      requires Closed(s, reach) && HoldsYoung({v}, reach)
      modifies `mem, `origin, `nbCopy
      ensures Tracing(s, mem, origin, grey)
      ensures Forwarded(mem, v, w)
      ensures x in mem && mem[x] == old(mem)[x].(fields := old(mem)[x].fields[i := w])
      ensures x in origin && origin[x] == old(origin)[x]
      ensures Progress(s, old(mem), old(origin), mem, origin, {x}, reach, nbCopy - old(nbCopy))
      decreases Unmarked(s, mem), 1
    {
      hide Tracing, Closed, Progress;
      CopyFacts(s, mem, origin, grey, x);
      ghost var m0, o0, n0 := mem, origin, nbCopy;
      w := TraceObj(v, s, grey, reach);
      ghost var m1, n1 := mem, nbCopy;
      ProgressKeeps(s, m0, o0, mem, origin, {}, reach, nbCopy - n0, x);
      WriteGrey(s, mem, origin, grey, x, mem[x].(fields := mem[x].fields[i := w]));
      mem := mem[x := mem[x].(fields := mem[x].fields[i := w])];
      ProgressWeaken(s, m0, o0, m1, origin, {}, {x}, reach, reach, n1 - n0);
      ProgressWeaken(s, m1, origin, mem, origin, {x}, {x}, {}, reach, 0);
      ProgressTrans(s, m0, o0, m1, origin, mem, origin, {x}, reach, n1 - n0, 0);
      ProgressForwarded(s, m1, origin, mem, origin, {x}, reach, 0, v, w);
    }

    /** How each copier starts: the copy is allocated and its address left in the first
        field of the original, whose value is saved. */
    method Forward(y: nat, ghost s: Snap, ghost grey: set<nat>, ghost reach: set<nat>, ghost m0: Memory)
      returns (x: nat, save: Value)
      requires Tracing(s, m0, origin, grey) && s.lo == heap && s.hi == heap + size
      requires y in s.young && y in m0 && !m0[y].marked && y in reach
      requires mem == m0[y := m0[y].(marked := true)]
      modifies `mem, `origin, `nbCopy
      ensures Tracing(s, mem, origin, grey + {x})
      ensures x in origin && origin[x] == y && x !in m0
      ensures x in mem && mem[x] == Blank(s.mem[y].kind)
      ensures y in s.mem && SnapObject(s, s.mem[y]) && s.mem[y].kind == m0[y].kind && save == s.mem[y].fields[0]
      ensures Progress(s, m0, old(origin), mem, origin, {x}, reach, 1)
      ensures nbCopy == old(nbCopy) + 1
      ensures Unmarked(s, mem) == Unmarked(s, m0) - {y}
    {
      hide Tracing, Progress, Unmarked;
      YoungFacts(s, m0, origin, grey, y);
      x := GcMalloc(mem[y].kind);
      save := mem[y].fields[0];
      mem := mem[y := mem[y].(fields := mem[y].fields[0 := Old(x)])];
      nbCopy := nbCopy + 1;
      StartCopy(s, m0, origin, grey, y, x, Blank(s.mem[y].kind));
      FreshCopy(s, m0, origin, grey, y, x);
      StartProgress(s, m0, origin, y, x, Blank(s.mem[y].kind), reach);
      assert mem == m0[x := Blank(s.mem[y].kind)][y := Forwarder(s.mem[y], x)];
      origin := origin[x := y];
    }

    /** bgl_saw_pair_copy. */
    method PairCopy(pair: nat, ghost s: Snap, ghost grey: set<nat>, ghost reach: set<nat>, ghost m0: Memory)
      returns (r: Value)
      requires Tracing(s, m0, origin, grey) && s.lo == heap && s.hi == heap + size
      requires pair in s.young && pair in m0 && !m0[pair].marked && m0[pair].kind != Cell
      requires mem == m0[pair := m0[pair].(marked := true)]
      requires Closed(s, reach) && pair in reach
      modifies `mem, `origin, `nbCopy
      ensures Tracing(s, mem, origin, grey)
      ensures Progress(s, m0, old(origin), mem, origin, {}, reach, nbCopy - old(nbCopy))
      ensures Forwarded(mem, Young(pair), r)
      decreases Unmarked(s, m0) - {pair}, 3
    {
      hide Tracing, Closed, Progress, Unmarked;
      ghost var o0, n0 := origin, nbCopy;
      var x, save := Forward(pair, s, grey, reach, m0);
      ghost var m1, o1, n1 := mem, origin, nbCopy;
      var v0, v1 := CopyCarCdr(pair, x, save, s, grey + {x}, reach);
      ProgressTrans(s, m0, o0, m1, o1, mem, origin, {x}, reach, 1, nbCopy - n1);
      if mem[x].kind == Epair {
        ghost var m2, o2, n2 := mem, origin, nbCopy;
        YoungFacts(s, mem, origin, grey + {x}, pair);
        CopyFacts(s, mem, origin, grey + {x}, x);
        ClosedFields(s, reach, pair);
        ProgressShrinks(s, m1, o1, mem, origin, {x}, reach, n2 - n1);
        var v2 := CopyField(x, 2, mem[pair].fields[2], s, grey + {x}, reach);
        ProgressTrans(s, m0, o0, m2, o2, mem, origin, {x}, reach, n2 - n0, nbCopy - n2);
        ProgressForwarded(s, m2, o2, mem, origin, {x}, reach, nbCopy - n2, s.mem[pair].fields[0], v0);
        ProgressForwarded(s, m2, o2, mem, origin, {x}, reach, nbCopy - n2, s.mem[pair].fields[1], v1);
        assert mem[x].fields == [v0, v1, v2];
      } else {
        assert mem[x].fields == [v0, v1];
      }
      assert CopiedFields(mem, s.mem[pair].fields, mem[x].fields);
      FinishCopy(s, mem, origin, grey, x);
      CopyFacts(s, mem, origin, grey, x);
      ProgressFresh(s, m0, o0, mem, origin, x, reach, nbCopy - n0);
      r := Old(x);
    }

    /** The car and cdr of BGL_INIT_PAIR and BGL_INIT_EPAIR. */
    method CopyCarCdr(pair: nat, x: nat, save: Value, ghost s: Snap, ghost grey: set<nat>, ghost reach: set<nat>)
      returns (v0: Value, v1: Value)
      requires Tracing(s, mem, origin, grey) && s.lo == heap && s.hi == heap + size
      requires Closed(s, reach) && pair in reach
      requires x in grey && x in origin && x in mem && |mem[x].fields| >= 2
      requires origin[x] == pair && pair in s.young && pair in s.mem
      requires |s.mem[pair].fields| >= 2 && save == s.mem[pair].fields[0]
      modifies `mem, `origin, `nbCopy
      ensures Tracing(s, mem, origin, grey)
      ensures Progress(s, old(mem), old(origin), mem, origin, {x}, reach, nbCopy - old(nbCopy))
      ensures x in mem && mem[x] == old(mem)[x].(fields := old(mem)[x].fields[0 := v0][1 := v1])
      ensures x in origin && origin[x] == old(origin)[x]
      ensures Forwarded(mem, s.mem[pair].fields[0], v0) && Forwarded(mem, s.mem[pair].fields[1], v1)
      decreases Unmarked(s, mem), 2
    {
      hide Tracing, Closed, Progress;
      YoungFacts(s, mem, origin, grey, pair);
      ClosedFields(s, reach, pair);
      ghost var m0, o0, n0 := mem, origin, nbCopy;
      v0 := CopyField(x, 0, save, s, grey, reach);
      ghost var m1, o1, n1 := mem, origin, nbCopy;
      ProgressShrinks(s, m0, o0, mem, origin, {x}, reach, n1 - n0);
      CopyFacts(s, mem, origin, grey, x);
      YoungFacts(s, mem, origin, grey, pair);
      v1 := CopyField(x, 1, mem[pair].fields[1], s, grey, reach);
      ProgressTrans(s, m0, o0, m1, o1, mem, origin, {x}, reach, n1 - n0, nbCopy - n1);
      ProgressForwarded(s, m1, o1, mem, origin, {x}, reach, nbCopy - n1, save, v0);
    }

    /** bgl_saw_cell_copy. */
    method CellCopy(cell: nat, ghost s: Snap, ghost grey: set<nat>, ghost reach: set<nat>, ghost m0: Memory)
      returns (r: Value)
      requires Tracing(s, m0, origin, grey) && s.lo == heap && s.hi == heap + size
      requires cell in s.young && cell in m0 && !m0[cell].marked && m0[cell].kind == Cell
      requires mem == m0[cell := m0[cell].(marked := true)]
      requires Closed(s, reach) && cell in reach
      modifies `mem, `origin, `nbCopy
      ensures Tracing(s, mem, origin, grey)
      ensures Progress(s, m0, old(origin), mem, origin, {}, reach, nbCopy - old(nbCopy))
      ensures Forwarded(mem, Young(cell), r)
      decreases Unmarked(s, m0) - {cell}, 3
    {
      hide Tracing, Closed, Progress, Unmarked;
      ghost var o0, n0 := origin, nbCopy;
      var x, save := Forward(cell, s, grey, reach, m0);
      ghost var m1, o1, n1 := mem, origin, nbCopy;
      ClosedFields(s, reach, cell);
      var v0 := CopyField(x, 0, save, s, grey + {x}, reach);
      ProgressTrans(s, m0, o0, m1, o1, mem, origin, {x}, reach, 1, nbCopy - n1);
      assert mem[x].fields == [v0];
      FinishCopy(s, mem, origin, grey, x);
      CopyFacts(s, mem, origin, grey, x);
      ProgressFresh(s, m0, o0, mem, origin, x, reach, nbCopy - n0);
      r := Old(x);
    }

    // -------------------------------------------------------------------
    // A collection
    // -------------------------------------------------------------------

    ghost predicate InCollection(s: Snap, reach: set<nat>, copies: int, visited: set<Slot>, n: nat, k: nat)
      reads this
    {
      && s.lo == heap && s.hi == heap + size
      && Closed(s, reach) && HoldsYoung(Roots(s), reach)
      && Collecting(s, mem, origin, frames, globals, reach, copies, visited, n, k)
    }

    /** trace, on a slot of a frame. */
    method TraceLocal(f: nat, i: nat, ghost s: Snap, ghost reach: set<nat>, ghost n0: int)
      requires InCollection(s, reach, nbCopy - n0, {}, f, i)
      requires f < |frames| && i < |frames[f]|
      modifies `mem, `origin, `nbCopy, `frames
      ensures InCollection(s, reach, nbCopy - n0, {}, f, i + 1)
      ensures |frames| == |old(frames)| && |frames[f]| == |old(frames)[f]|
    {
      hide Tracing, Closed, Progress, TenuredState, GlobalsState, Reach;
      var o := frames[f][i];
      assert s.frames[f][i] == o;
      assert s.frames[f] in s.frames && o in s.frames[f];
      assert o in Roots(s);
      RootsAreValues(s);
      if o.Young? {
        ghost var m0, o0, c0 := mem, origin, nbCopy;
        var w := TraceObj(o, s, {}, reach);
        Advance(s, m0, o0, mem, origin, frames, globals, reach, c0 - n0, nbCopy - c0, {}, f, i);
        VisitLocal(s, mem, origin, frames, globals, reach, nbCopy - n0, f, i, w);
        frames := frames[f := frames[f][i := w]];
      } else {
        VisitLocal(s, mem, origin, frames, globals, reach, nbCopy - n0, f, i, o);
        assert frames[f][i := o] == frames[f];
        assert frames == frames[f := frames[f][i := o]];
      }
    }

    /** trace, on a remembered word. */
    method TraceWord(p: Slot, ghost s: Snap, ghost reach: set<nat>, ghost n0: int, ghost visited: set<Slot>)
      requires InCollection(s, reach, nbCopy - n0, visited, |frames|, 0)
      requires SlotIn(s, p)
      modifies `mem, `origin, `nbCopy, `globals
      ensures InCollection(s, reach, nbCopy - n0, visited + {p}, |frames|, 0)
    {
      hide Tracing, Closed, Progress, Reach, FramesState, TenuredState, GlobalsState, Roots;
      VisitOther(s, mem, origin, frames, globals, reach, nbCopy - n0, visited, |frames|, 0, p);
      var o := match p case Field(a, i) => mem[a].fields[i] case Global(g) => globals[g];
      if o.Young? {
        ghost var m0, o0, c0 := mem, origin, nbCopy;
        var w := TraceObj(o, s, {}, reach);
        Advance(s, m0, o0, mem, origin, frames, globals, reach, c0 - n0, nbCopy - c0, visited, |frames|, 0);
        VisitOther(s, mem, origin, frames, globals, reach, nbCopy - n0, visited, |frames|, 0, p);
        match p {
          case Field(a, i) =>
            VisitField(s, mem, origin, frames, globals, reach, nbCopy - n0, visited, |frames|, 0, a, i, w);
            mem := mem[a := mem[a].(fields := mem[a].fields[i := w])];
          case Global(g) =>
            VisitGlobal(s, mem, origin, frames, globals, reach, nbCopy - n0, visited, |frames|, 0, g, w);
            globals := globals[g := w];
        }
      }
    }

    /** trace_frames. */
    method TraceFrames(ghost s: Snap, ghost reach: set<nat>, ghost n0: int)
      requires InCollection(s, reach, nbCopy - n0, {}, 0, 0)
      modifies `mem, `origin, `nbCopy, `frames
      ensures InCollection(s, reach, nbCopy - n0, {}, |frames|, 0)
    {
      hide Closed, Roots, Collecting;
      var lpf := 0;
      while lpf < |frames|
        invariant lpf <= |frames|
        invariant InCollection(s, reach, nbCopy - n0, {}, lpf, 0)
      {
        ghost var c := |frames|;
        var n := |frames[lpf]|;
        for i := 0 to n
          invariant |frames| == c && |frames[lpf]| == n
          invariant InCollection(s, reach, nbCopy - n0, {}, lpf, i)
        {
          TraceLocal(lpf, i, s, reach, n0);
        }
        NextFrame(s, mem, origin, frames, globals, reach, nbCopy - n0, lpf);
        lpf := lpf + 1;
      }
    }

    /** The second loop of bgl_saw_gc. */
    method TraceRemembered(ghost s: Snap, ghost reach: set<nat>, ghost n0: int)
      requires InCollection(s, reach, nbCopy - n0, {}, |frames|, 0)
      requires backptr == Entry(N(), count)
      requires forall j | 0 <= j < count :: Entry(N(), j) in pool && SlotIn(s, pool[Entry(N(), j)])
      modifies `mem, `origin, `nbCopy, `globals
      ensures InCollection(s, reach, nbCopy - n0, Recorded(N()), |frames|, 0)
    {
      hide Collecting, Closed, Roots;
      var ptr := heap + size - OBJ_SIZE;
      ghost var visited: set<Slot> := {};
      ghost var k := 0;
      ghost var n := N();
      while ptr > backptr
        invariant 0 <= k <= count && ptr == Entry(n, k)
        invariant InCollection(s, reach, nbCopy - n0, visited, |frames|, 0)
        invariant forall j | 0 <= j < k :: pool[Entry(n, j)] in visited
        invariant visited <= Recorded(n)
      {
        assert Entry(n, k) in pool;
        TraceWord(pool[ptr], s, reach, n0, visited);
        visited := visited + {pool[ptr]};
        k := k + 1;
        ptr := ptr - OBJ_SIZE;
      }
      assert visited == Recorded(n);
    }

    /** The tracing in bgl_saw_gc: the frames, then the remembered words. */
    method TraceAll() returns (ghost s: Snap)
      requires Valid()
      modifies `mem, `origin, `nbCopy, `frames, `globals
      ensures s == old(Snapshot()) && SnapOk(s)
      ensures Promoted(s, mem, origin, frames, globals)
      ensures Marked(s, mem) == Reach(s, Roots(s))
      ensures nbCopy == old(nbCopy) + |Marked(s, mem)|
    {
      hide Represents, Disjoint, Collecting, Promoted, Marked, Reach, Closed, Roots, RememberedBy, SnapOk;
      s := Snapshot();
      ghost var reach := Reach(s, Roots(s));
      RootsAreValues(s);
      ReachIsClosed(s, Roots(s));
      StartCollecting(s, reach);
      RecordedRemembers(N(), mem, frames, globals);
      ghost var n0, visited := nbCopy, Recorded(N());
      origin := map[];
      TraceFrames(s, reach, n0);
      TraceRemembered(s, reach, n0);
      EndCollecting(s, mem, origin, frames, globals, reach, nbCopy - n0, visited);
    }

    /** bgl_saw_gc. Promotes exactly the reachable part of the nursery, empties the nursery and
        the remembered set, and reports nb_copy. The store is represented again once the
        names have moved with the objects (Settle). */
    method Gc() returns (copied: int, ghost s: Snap)
      requires Valid()
      modifies `mem, `origin, `nbCopy, `frames, `globals, `alloc, `backptr, `count, `nbAlloc, `nbAssign
      ensures s == old(Snapshot()) && SnapOk(s) && Represents(s, name, objs)
      ensures Promoted(s, mem, origin, frames, globals)
      ensures Marked(s, mem) == Reach(s, Roots(s))
      ensures copied == old(nbCopy) + |Marked(s, mem)|
      ensures N() == Reset(old(N())) && SizeOf(Epair) < size - OBJ_SIZE
      ensures nbAlloc == nbAssign == nbCopy == 0
    {
      hide Represents, Disjoint, Remembered, Promoted, Marked, Reach, SnapOk;
      s := TraceAll();
      backptr := heap + size - OBJ_SIZE;
      count := 0;
      alloc := heap;
      copied := nbCopy;
      nbAlloc, nbAssign, nbCopy := 0, 0, 0;
    }

    /** Names move with the objects: the store is represented as before the collection. */
    ghost method Settle(s: Snap)
      requires SnapOk(s) && Represents(s, name, objs) && s.lo == heap && s.hi == heap + size
      requires Promoted(s, mem, origin, frames, globals)
      requires SizeOf(Epair) < size - OBJ_SIZE && N() == Reset(N())
      modifies `name
      ensures name == Rename(s, old(name), mem, origin)
      ensures Valid()
      ensures Snapshot() == After(s, mem, frames, globals)
      ensures View() == Store(objs, FramesOf(old(name), s.frames), NamesOf(old(name), s.globals))
    {
      hide Represents, Promoted, SnapOk, Consistent, Rename;
      PromotionKeepsStore(s, name, objs, mem, origin, frames, globals);
      name := Rename(s, name, mem, origin);
      assert Snapshot() == After(s, mem, frames, globals);
      ResetConsistent(N(), mem, frames, globals);
    }

    // -------------------------------------------------------------------
    // Allocation
    // -------------------------------------------------------------------

    ghost predicate Live(v: Value)
      reads this
    {
      SnapValue(Snapshot(), v)
    }

    /** Writing the nursery bytes [lo, hi) destroys whatever else was stored there. */
    method Overwrite(lo: int, hi: int)
      requires Valid() && alloc <= lo < hi <= backptr + OBJ_SIZE
      modifies `mem, `pool
      ensures Valid() && SameLive(old(Snapshot()), Snapshot())
      ensures forall x | x in mem && lo <= x < hi :: !Within(N(), x)
      ensures Recorded(N()) == old(Recorded(N()))
    {
      hide Represents, SnapOk, Consistent;
      ghost var n, s := N(), Snapshot();
      FreeSpaceIsFree(n, mem, frames, globals, lo, hi);
      mem := map x | x in mem && !(heap <= x < heap + size && x < hi && lo < x + SizeOf(mem[x].kind)) :: mem[x];
      pool := map p | p in pool && (p + OBJ_SIZE <= lo || hi <= p) :: pool[p];
      assert mem == SpareObjects(n, old(mem), lo, hi);
      assert N() == n.(pool := SpareSlots(n.pool, lo, hi));
      SameLiveRepresents(s, Snapshot(), name, objs);
    }

    /** BGL_INIT_*: the nursery pointer moves, over space where nothing is stored any more, and
        the object is filled in. */
    method InitObject(o: Obj) returns (r: Value)
      requires Valid() && alloc + SizeOf(o.kind) < backptr
      requires forall x | x in mem && alloc <= x < alloc + SizeOf(o.kind) :: !Within(N(), x)
      requires WellFormed(o) && !o.marked && forall v | v in o.fields :: Live(v)
      modifies `mem, `alloc, `nbAlloc, `objs, `name
      ensures Valid() && r.Young? && Live(r)
      ensures NameOf(name, r) == ARef(|old(objs)|)
      ensures View() == Store(old(objs) + [AObj(o.kind, NamesOf(old(name), o.fields))], old(View()).frames, old(View()).globals)
      ensures nbAlloc == old(nbAlloc) + 1 && alloc == old(alloc) + SizeOf(o.kind) && r.addr == old(alloc)
    {
      hide Represents, SnapOk, Consistent;
      var res := alloc;
      ghost var n, s := N(), Snapshot();
      AllocConsistent(n, mem, globals, o);
      AllocSnap(n, mem, frames, globals, o);
      alloc := alloc + SizeOf(o.kind);
      nbAlloc := nbAlloc + 1;
      mem := mem[res := o];
      r := Young(res);
      ghost var s' := Snapshot();
      assert N() == n.(alloc := alloc);
      AllocSnapOk(s, s', res, o);
      AllocRepresents(s, name, objs, s', res, o);
      AllocRoots(s, name, objs, res);
      name := name[Young(res) := |objs|];
      objs := objs + [AObj(o.kind, NamesOf(old(name), o.fields))];
    }

    /** The end of every allocator. */
    method Install(nalloc: nat, o: Obj) returns (r: Value)
      requires Valid()
      requires nalloc == alloc + SizeOf(o.kind) < backptr
      requires WellFormed(o) && !o.marked && forall v | v in o.fields :: Live(v)
      modifies `mem, `pool, `alloc, `nbAlloc, `objs, `name
      ensures Valid() && r.Young? && Live(r)
      ensures NameOf(name, r) == ARef(|old(objs)|)
      ensures View() == Store(old(objs) + [AObj(o.kind, NamesOf(old(name), o.fields))], old(View()).frames, old(View()).globals)
      ensures nbAlloc == old(nbAlloc) + 1 && alloc == nalloc
    {
      hide Represents, SnapOk, Consistent;
      Overwrite(alloc, nalloc);
      r := InitObject(o);
    }

    /** trace_obj on an argument after a collection: it is promoted too, whether or not the
        collection reached it. */
    method TraceArgument(v: Value, ghost s: Snap) returns (w: Value)
      requires Promoted(s, mem, origin, frames, globals) && SnapValue(s, v)
      requires s.lo == heap && s.hi == heap + size
      modifies `mem, `origin, `nbCopy
      ensures Promoted(s, mem, origin, frames, globals)
      ensures Forwarded(mem, v, w)
      ensures Progress(s, old(mem), old(origin), mem, origin, {}, s.young, nbCopy - old(nbCopy))
    {
      hide Tracing, Progress, Closed;
      AllIsClosed(s, mem, origin, v);
      ghost var m0, o0, n0 := mem, origin, nbCopy;
      w := TraceObj(v, s, {}, s.young);
      PromotedProgress(s, m0, o0, mem, origin, s.young, nbCopy - n0, frames, globals);
    }

    /** The slow path of the allocators: a collection, after which the arguments are traced in order. */
    method CollectFor(args: seq<Value>) returns (args': seq<Value>)
      requires Valid() && forall v | v in args :: Live(v)
      modifies this
      ensures Valid() && |args'| == |args| && forall v | v in args' :: Live(v)
      ensures NamesOf(name, args') == NamesOf(old(name), args)
      ensures View() == old(View())
      ensures alloc == heap && backptr == heap + size - OBJ_SIZE && SizeOf(Epair) < size - OBJ_SIZE
    {
      hide Promoted, Represents, SnapOk, Consistent, Progress, Rename, Reach, Forwarded, FramesOf, NamesOf;
      var copied, s := Gc();
      args' := [];
      for i := 0 to |args|
        invariant |args'| == i
        invariant Promoted(s, mem, origin, frames, globals)
        invariant N() == Reset(old(N()))
        invariant CopiedFields(mem, args[..i], args')
        modifies `mem, `origin, `nbCopy
      {
        ghost var m1, o1, n1 := mem, origin, nbCopy;
        assert args[i] in args && forall v | v in args[..i] :: v in args;
        var w := TraceArgument(args[i], s);
        ForwardedFields(s, m1, o1, mem, origin, s.young, nbCopy - n1, args[..i], args');
        args' := args' + [w];
        assert args[..i + 1] == args[..i] + [args[i]];
      }
      assert args[..|args|] == args;
      Settle(s);
      ArgumentsSettle(s, old(name), objs, mem, origin, frames, globals, args, args');
    }

    /** bgl_saw_make_pair, bgl_saw_make_epair and bgl_saw_make_cell, over their arguments. */
    method Make(kind: Kind, args: seq<Value>) returns (r: Value)
      requires Valid() && |args| == Arity(kind) && forall v | v in args :: Live(v)
      modifies this
      ensures Valid() && r.Young? && Live(r)
      ensures NameOf(name, r) == ARef(|old(objs)|)
      ensures View() == old(View()).(objs := old(objs) + [AObj(kind, NamesOf(old(name), args))])
    {
      hide Represents, SnapOk, Consistent;
      var args' := args;
      var nalloc := alloc + MemRound(SizeOf(kind));
      if nalloc >= backptr {
        args' := CollectFor(args);
        nalloc := alloc + MemRound(SizeOf(kind));
        if nalloc >= backptr {
          assert false;  // "fatal error not enough space in nursery"
        }
      }
      r := Install(nalloc, Obj(kind, false, args'));
    }

    method MakePair(a: Value, d: Value) returns (r: Value)
      requires Valid() && Live(a) && Live(d)
      modifies this
      ensures Valid() && r.Young? && Live(r)
      ensures NameOf(name, r) == ARef(|old(objs)|)
      ensures View() == old(View()).(objs := old(objs) + [AObj(Pair, [NameOf(old(name), a), NameOf(old(name), d)])])
    {
      hide Saw.Valid, Saw.View, Saw.Live;
      r := Make(Pair, [a, d]);
      assert NamesOf(old(name), [a, d]) == [NameOf(old(name), a), NameOf(old(name), d)];
    }

    method MakeEpair(a: Value, d: Value, e: Value) returns (r: Value)
      requires Valid() && Live(a) && Live(d) && Live(e)
      modifies this
      ensures Valid() && r.Young? && Live(r)
      ensures NameOf(name, r) == ARef(|old(objs)|)
      ensures View() == old(View()).(objs := old(objs) +
                [AObj(Epair, [NameOf(old(name), a), NameOf(old(name), d), NameOf(old(name), e)])])
    {
      hide Saw.Valid, Saw.View, Saw.Live;
      r := Make(Epair, [a, d, e]);
      assert NamesOf(old(name), [a, d, e]) == [NameOf(old(name), a), NameOf(old(name), d), NameOf(old(name), e)];
    }

    method MakeCell(v: Value) returns (r: Value)
      requires Valid() && Live(v)
      modifies this
      ensures Valid() && r.Young? && Live(r)
      ensures NameOf(name, r) == ARef(|old(objs)|)
      ensures View() == old(View()).(objs := old(objs) + [AObj(Cell, [NameOf(old(name), v)])])
    {
      hide Saw.Valid, Saw.View, Saw.Live;
      r := Make(Cell, [v]);
      assert NamesOf(old(name), [v]) == [NameOf(old(name), v)];
    }

    // -------------------------------------------------------------------
    // Assignment
    // -------------------------------------------------------------------

    /** *field = value, for a field of a live object. */
    method PutField(r: Value, i: nat, v: Value)
      requires Valid() && IsRef(Snapshot(), r) && Live(v)
      requires r.addr in mem && i < |mem[r.addr].fields|
      requires r.Old? && v.Young? ==> Field(r.addr, i) in Recorded(N())
      modifies `mem, `objs
      ensures Valid() && r in name && HasField(old(View()), ARef(name[r]), i)
      ensures View() == SetField(old(View()), name[r], i, NameOf(name, v))
    {
      hide Represents, SnapOk, Consistent;
      ghost var s, n := Snapshot(), N();
      ghost var a := r.addr;
      ObjectFacts(s, name, objs, r);
      mem := mem[r.addr := mem[r.addr].(fields := mem[r.addr].fields[i := v])];
      AssignFieldConsistent(n, s.mem, globals, a, i, v);
      assert Snapshot() == s.(mem := mem);
      SetSnapOk(s, Snapshot(), a, i, v);
      SetRepresents(s, name, objs, Snapshot(), r, i, v);
      ghost var o := objs[name[r]];
      objs := objs[name[r] := o.(fields := o.fields[i := NameOf(name, v)])];
    }

    /** *field = value, for a global variable. */
    method PutGlobal(g: nat, v: Value)
      requires Valid() && g < |globals| && Live(v)
      requires v.Young? ==> Global(g) in Recorded(N())
      modifies `globals
      ensures Valid() && View() == old(View()).(globals := old(View()).globals[g := NameOf(name, v)])
    {
      hide Represents, SnapOk, Consistent;
      AssignGlobalConsistent(N(), mem, globals, g, v);
      SetGlobalRepresents(Snapshot(), name, objs, g, v);
      assert SnapOf(N(), mem, frames, globals[g := v]) == Snapshot().(globals := globals[g := v]);
      globals := globals[g := v];
    }

    method Put(p: Slot, v: Value)
      requires Valid() && SlotOk(N(), mem, globals, p) && Live(v)
      requires v.Young? ==> p in Recorded(N())
      modifies `mem, `objs, `globals
      ensures Valid() && View() == Written(old(View()), name, p, NameOf(name, v))
    {
      hide Represents, SnapOk, Consistent;
      match p {
        case Field(a, i) => PutField(Old(a), i, v);
        case Global(g) => PutGlobal(g, v);
      }
    }

    /** bps_dobackptr: assigns a young value to a word outside the nursery. */
    method DoBackptr(p: Slot, value: Value)
      requires Valid() && SlotOk(N(), mem, globals, p) && Live(value)
      modifies this
      ensures Valid() && View() == Written(old(View()), old(name), p, NameOf(old(name), value))
    {
      hide Represents, SnapOk, Consistent;
      if backptr <= alloc {
        var w := CollectForSlot(p, value);
        Put(p, w);
      } else {
        Record(p);
        Put(p, value);
      }
    }

    /** *backptr = field, on the fast path of the barrier. */
    method Record(p: Slot)
      requires Valid() && SlotOk(N(), mem, globals, p) && alloc < backptr
      modifies `mem, `pool, `backptr, `count, `nbAssign
      ensures Valid() && SameLive(old(Snapshot()), Snapshot()) && SlotOk(N(), mem, globals, p)
      ensures p in Recorded(N())
    {
      hide Represents, SnapOk, Consistent;
      nbAssign := nbAssign + 1;
      Overwrite(backptr, backptr + OBJ_SIZE);
      ghost var n, s := N(), Snapshot();
      RecordConsistent(n, mem, globals, p);
      pool := pool[backptr := p];
      backptr := backptr - OBJ_SIZE;
      count := count + 1;
      assert N() == n.(pool := n.pool[n.backptr := p], backptr := n.backptr - OBJ_SIZE, count := n.count + 1);
      assert Snapshot() == s;
    }

    /** The slow path of the barrier. */
    method CollectForSlot(p: Slot, value: Value) returns (w: Value)
      requires Valid() && SlotOk(N(), mem, globals, p) && Live(value)
      modifies this
      ensures Valid() && SlotOk(N(), mem, globals, p) && Live(w) && !w.Young?
      ensures NameOf(name, w) == NameOf(old(name), value)
      ensures p.Field? ==> Old(p.addr) in old(name) && Old(p.addr) in name && name[Old(p.addr)] == old(name)[Old(p.addr)]
      ensures View() == old(View())
    {
      hide Promoted, Represents, SnapOk, Consistent, Progress, Rename, Reach, FramesOf, NamesOf, Tracing;
      var copied, s := Gc();
      w := TraceArgument(value, s);
      Settle(s);
      ArgumentsSettle(s, old(name), objs, mem, origin, frames, globals, [value], [w]);
      OneName(name, w);
      OneName(old(name), value);
      SlotSettles(s, old(name), objs, mem, origin, frames, globals, p);
    }

    /** bps_bmassign. */
    method Bmassign(g: nat, value: Value)
      requires Valid() && g < |globals| && Live(value)
      modifies this
      ensures Valid() && View() == old(View()).(globals := old(View()).globals[g := NameOf(old(name), value)])
    {
      if value.Young? {
        DoBackptr(Global(g), value);
      } else {
        PutGlobal(g, value);
      }
    }

    /** bps_bassign. */
    method Bassign(obj: Value, i: nat, value: Value)
      requires Valid() && IsRef(Snapshot(), obj) && Live(value)
      requires obj.addr in mem && i < |mem[obj.addr].fields|
      modifies this
      ensures Valid() && obj in old(name) && HasField(old(View()), ARef(old(name)[obj]), i)
      ensures View() == SetField(old(View()), old(name)[obj], i, NameOf(old(name), value))
    {
      hide Represents, SnapOk, Consistent;
      ObjectFacts(Snapshot(), name, objs, obj);
      if obj.Old? && value.Young? {
        DoBackptr(Field(obj.addr, i), value);
      } else {
        PutField(obj, i, value);
      }
    }

    // -------------------------------------------------------------------
    // The mutator
    // -------------------------------------------------------------------

    /** Assigning a slot of the innermost frame. Frames need no barrier. */
    method SetLocal(dst: nat, v: Value)
      requires Valid() && Live(v) && frames != [] && dst < |frames[0]|
      modifies `frames
      ensures Valid() && View() == Assign(old(View()), dst, NameOf(name, v))
    {
      hide Represents, SnapOk, Consistent;
      ghost var s := Snapshot();
      ghost var f := frames[0][dst := v];
      FrameValues(s, 0);
      SetFrameRepresents(s, name, objs, f, frames[1..]);
      frames := frames[0 := frames[0][dst := v]];
      assert frames == [f] + s.frames[1..];
      assert Snapshot() == s.(frames := [f] + s.frames[1..]);
      assert NamesOf(name, f) == NamesOf(name, s.frames[0])[dst := NameOf(name, v)];
      assert FramesOf(name, frames) == FramesOf(name, s.frames)[0 := NamesOf(name, f)];
    }

    method EnterFrame(n: nat)
      requires Valid()
      modifies `frames
      ensures Valid() && View() == Step(old(View()), Enter(n))
    {
      hide Represents, SnapOk, Consistent;
      ghost var s := Snapshot();
      var f := seq(n, _ => Imm(0));
      SetFrameRepresents(s, name, objs, f, frames);
      frames := [f] + frames;
      assert Snapshot() == s.(frames := frames);
      assert NamesOf(name, f) == seq(n, _ => AImm(0));
      assert FramesOf(name, frames) == [NamesOf(name, f)] + FramesOf(name, s.frames);
    }

    method LeaveFrame()
      requires Valid() && frames != []
      modifies `frames
      ensures Valid() && View() == Step(old(View()), Leave)
    {
      hide Represents, SnapOk, Consistent;
      ghost var s := Snapshot();
      FrameValues(s, 0);
      SetFrameRepresents(s, name, objs, frames[0], frames[1..]);
      frames := frames[1..];
      assert Snapshot() == s.(frames := frames);
      assert FramesOf(name, frames) == FramesOf(name, s.frames)[1..];
    }

    /** The fields of the object that `v` points to, if it points to one. */
    function FieldsOf(v: Value): (fs: seq<Value>)
      reads this
    {
      if v.Imm? || v.addr !in mem then [] else mem[v.addr].fields
    }

    /** What the collected heap shows of an object is what the store has of it. */
    lemma FieldsAgree(v: Value)
      requires Valid() && Live(v)
      ensures v.Imm? ==> FieldsOf(v) == []
      ensures !v.Imm? ==> IsRef(Snapshot(), v) && v.addr in mem && v in name
                          && NameOf(name, v) == ARef(name[v]) && name[v] < |objs|
                          && objs[name[v]].fields == NamesOf(name, FieldsOf(v))
      ensures forall w | w in FieldsOf(v) :: Live(w)
    {}

    lemma LocalFacts(k: nat)
      requires Valid() && frames != [] && k < |frames[0]|
      ensures Live(frames[0][k])
      ensures Top(View()) == NamesOf(name, frames[0]) && Top(View())[k] == NameOf(name, frames[0][k])
    {
      FrameValues(Snapshot(), 0);
    }

    /** The allocating commands of the mutator. */
    method ExecuteAlloc(c: Cmd)
      requires Valid() && frames != [] && (c.Cons? || c.Econs? || c.Box?)
      modifies this
      ensures Valid() && View() == Step(old(View()), c)
    {
      hide Represents, SnapOk, Consistent, FramesOf, NamesOf, Live;
      ghost var st := View();
      FrameSize();
      match c {
        case Cons(dst, a, d) =>
          if dst < |frames[0]| && a < |frames[0]| && d < |frames[0]| {
            LocalFacts(a); LocalFacts(d);
            var r := MakePair(frames[0][a], frames[0][d]);
            SetLocal(dst, r);
          }
        case Econs(dst, a, d, e) =>
          if dst < |frames[0]| && a < |frames[0]| && d < |frames[0]| && e < |frames[0]| {
            LocalFacts(a); LocalFacts(d); LocalFacts(e);
            var r := MakeEpair(frames[0][a], frames[0][d], frames[0][e]);
            SetLocal(dst, r);
          }
        case Box(dst, v) =>
          if dst < |frames[0]| && v < |frames[0]| {
            LocalFacts(v);
            var r := MakeCell(frames[0][v]);
            SetLocal(dst, r);
          }
      }
    }

    /** One command of the mutator. Whatever collections it triggers, its effect is the one
        it has on the collector-free store. */
    method Execute(c: Cmd)
      requires Valid()
      modifies this
      ensures Valid() && View() == Step(old(View()), c)
    {
      hide Represents, SnapOk, Consistent, FramesOf, NamesOf, Live;
      if c.Enter? {
        EnterFrame(c.size);
      } else if frames == [] {
        assert Top(View()) == [];
      } else {
        ghost var st := View();
        FrameSize();
        match c {
          case Get(dst, src, idx) =>
            if dst < |frames[0]| && src < |frames[0]| {
              LocalFacts(src); FieldsAgree(frames[0][src]);
              if idx < |FieldsOf(frames[0][src])| {
                SetLocal(dst, FieldsOf(frames[0][src])[idx]);
              }
            }
          case Set(src, idx, val) =>
            if src < |frames[0]| && val < |frames[0]| {
              LocalFacts(src); LocalFacts(val); FieldsAgree(frames[0][src]);
              if idx < |FieldsOf(frames[0][src])| {
                Bassign(frames[0][src], idx, frames[0][val]);
              }
            }
          case GetGlobal(dst, g) =>
            if dst < |frames[0]| && g < |globals| {
              GlobalFacts(g);
              SetLocal(dst, globals[g]);
            }
          case SetGlobal(g, val) =>
            if val < |frames[0]| && g < |globals| {
              LocalFacts(val);
              Bmassign(g, frames[0][val]);
            }
          case Literal(dst, n) =>
            if dst < |frames[0]| {
              LiteralFacts(n);
              SetLocal(dst, Imm(n));
            }
          case Leave => LeaveFrame();
          case Cons(_, _, _) => ExecuteAlloc(c);
          case Econs(_, _, _, _) => ExecuteAlloc(c);
          case Box(_, _) => ExecuteAlloc(c);
        }
      }
    }

    lemma FrameSize()
      requires Valid() && frames != []
      ensures |Top(View())| == |frames[0]|
    {}

    lemma GlobalFacts(g: nat)
      requires Valid() && g < |globals|
      ensures Live(globals[g]) && View().globals[g] == NameOf(name, globals[g])
    {}

    lemma LiteralFacts(n: int)
      ensures Live(Imm(n))
    {}

    /** A whole program: the collector is invisible to it. */
    method RunProgram(cs: seq<Cmd>)
      requires Valid()
      modifies this
      ensures Valid() && View() == Run(old(View()), cs)
    {
      hide Represents, SnapOk, Consistent, Step;
      for i := 0 to |cs|
        invariant Valid() && View() == Run(old(View()), cs[..i])
      {
        Execute(cs[i]);
        assert cs[..i + 1][..i] == cs[..i];
      }
      assert cs[..|cs|] == cs;
    }
  }
}
