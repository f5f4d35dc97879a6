/** Objects, values and addresses of the SAW collector, and the invariant that
    the tracer keeps while a collection is under way (runtime/Clib/csaw.c). */
module SawMemory {

  /** A Scheme value. The tag that tells young pointers from old ones is the
      constructor; every value that is not a pair or a cell is an immediate. */
  datatype Value = Imm(n: int) | Young(addr: nat) | Old(addr: nat)

  /** Pairs and extended pairs share the type PAIR_TYPE and differ in header size. */
  datatype Kind = Pair | Epair | Cell

  /** `marked` is the low bit of the header. The word after the header is
      `fields[0]` for all three kinds; that is where a forwarding pointer goes. */
  datatype Obj = Obj(kind: Kind, marked: bool, fields: seq<Value>)

  /** The address of an assignable word: a field of an object or a global variable. */
  datatype Slot = Field(addr: nat, idx: nat) | Global(g: nat)

  type Memory = map<nat, Obj>

  const OBJ_SIZE := 8

  function Arity(k: Kind): nat {
    match k
    case Pair => 2
    case Epair => 3
    case Cell => 1
  }

  /** sizeof of the C struct: a header word and the fields. */
  function SizeOf(k: Kind): nat {
    OBJ_SIZE * (1 + Arity(k))
  }

  /** MEMROUND: the least multiple of the word size that is no smaller. */
  function MemRound(bytes: nat): (r: nat)
    ensures r % 8 == 0 && bytes <= r < bytes + 8
  {
    (bytes + 7) / 8 * 8
  }

  predicate WellFormed(o: Obj) {
    |o.fields| == Arity(o.kind)
  }

  // ---------------------------------------------------------------------
  // Snapshots
  // ---------------------------------------------------------------------

  /** The heap as it stands when a collection starts: the nursery addresses
      [lo, hi), the objects allocated in it, the objects outside it and the roots. */
  datatype Snap = Snap(mem: Memory, lo: nat, hi: nat, young: set<nat>, tenured: set<nat>,
                       frames: seq<seq<Value>>, globals: seq<Value>)

  predicate SnapValue(s: Snap, v: Value) {
    match v
    case Imm(_) => true
    case Young(a) => a in s.young
    case Old(a) => a in s.tenured
  }

  predicate SnapObject(s: Snap, o: Obj) {
    WellFormed(o) && !o.marked && forall i | 0 <= i < |o.fields| :: SnapValue(s, o.fields[i])
  }

  ghost predicate SnapOk(s: Snap) {
    && s.young + s.tenured <= s.mem.Keys
    && (forall a | a in s.young :: s.lo <= a && a + SizeOf(s.mem[a].kind) <= s.hi && SnapObject(s, s.mem[a]))
    && (forall a | a in s.mem :: a in s.tenured <==> !(s.lo <= a < s.hi))
    && (forall a | a in s.tenured :: SnapObject(s, s.mem[a]))
    && (forall f | f in s.frames :: forall v | v in f :: SnapValue(s, v))
    && (forall v | v in s.globals :: SnapValue(s, v))
  }

  /** Memory that no live value points to does not matter. */
  ghost predicate SameLive(s: Snap, s': Snap) {
    && s'.lo == s.lo && s'.hi == s.hi && s'.young == s.young && s'.tenured == s.tenured
    && s'.frames == s.frames && s'.globals == s.globals
    && s.young + s.tenured <= s'.mem.Keys
    && (forall a | a in s'.mem :: a in s'.tenured <==> !(s'.lo <= a < s'.hi))
    && (forall a | a in s.young + s.tenured :: a in s.mem && s'.mem[a] == s.mem[a])
  }

  // ---------------------------------------------------------------------
  // Forwarding
  // ---------------------------------------------------------------------

  /** `v` is what the value `v0` of the snapshot has become. */
  predicate Forwarded(m: Memory, v0: Value, v: Value) {
    match v0
    case Young(a) => a in m && m[a].marked && |m[a].fields| > 0 && m[a].fields[0] == v && v.Old?
    case _ => v == v0
  }

  /** A nursery object is untouched, or marked with its first word replaced by
      the address of its copy; `origin` maps the copy back. */
  predicate YoungOk(s: Snap, m: Memory, origin: map<nat, nat>, y: nat)
    requires y in s.young && y in s.mem && y in m
  {
    if !m[y].marked then m[y] == s.mem[y] else
    && m[y].kind == s.mem[y].kind
    && |m[y].fields| == |s.mem[y].fields| > 0
    && (forall i | 1 <= i < |m[y].fields| :: m[y].fields[i] == s.mem[y].fields[i])
    && m[y].fields[0].Old?
    && m[y].fields[0].addr in origin
    && origin[m[y].fields[0].addr] == y
  }

  predicate CopiedFields(m: Memory, from: seq<Value>, to: seq<Value>) {
    |from| == |to| && forall i | 0 <= i < |to| :: Forwarded(m, from[i], to[i])
  }

  /** A copy is fresh, outside the nursery and the forwarding address of its
      origin. Unless it is still being filled in, it is the origin forwarded. */
  predicate CopyOk(s: Snap, m: Memory, origin: map<nat, nat>, grey: set<nat>, x: nat)
    requires x in origin
  {
    var y := origin[x];
    && x in m && x !in s.mem && !(s.lo <= x < s.hi) && !m[x].marked
    && y in s.young && y in s.mem && y in m
    && m[y].marked && |m[y].fields| > 0 && m[y].fields[0] == Old(x)
    && (x !in grey ==> m[x].kind == s.mem[y].kind && CopiedFields(m, s.mem[y].fields, m[x].fields))
  }

  /** The tracing invariant. `grey` are the copies some pending copier call is filling in. */
  ghost predicate Tracing(s: Snap, m: Memory, origin: map<nat, nat>, grey: set<nat>) {
    && SnapOk(s)
    && m.Keys == s.mem.Keys + origin.Keys
    && grey <= origin.Keys
    && (forall y | y in s.young :: YoungOk(s, m, origin, y))
    && (forall x | x in origin :: CopyOk(s, m, origin, grey, x))
  }

  /** What tracing may do to the memory: mark nursery objects and add objects.
      Marked nursery objects stay, and so do objects outside the nursery unless excepted. */
  ghost predicate Extends(s: Snap, m: Memory, origin: map<nat, nat>, m': Memory, origin': map<nat, nat>, except: set<nat>) {
    && m.Keys <= m'.Keys
    && (forall x | x in origin :: x in origin' && origin'[x] == origin[x])
    && (forall y | y in s.young && y in m && m[y].marked :: m'[y] == m[y])
    && (forall x | x in m && x !in s.young && x !in except :: m'[x] == m[x])
  }

  ghost function Marked(s: Snap, m: Memory): set<nat> {
    set y | y in s.young && y in m && m[y].marked
  }

  ghost function Unmarked(s: Snap, m: Memory): set<nat> {
    set y | y in s.young && y in m && !m[y].marked
  }

  /** A stretch of tracing that copied `copies` objects, all of them in `reach`. */
  ghost predicate Progress(s: Snap, m: Memory, origin: map<nat, nat>, m': Memory, origin': map<nat, nat>,
                           except: set<nat>, reach: set<nat>, copies: int) {
    && Extends(s, m, origin, m', origin', except)
    && Unmarked(s, m') <= Unmarked(s, m)
    && Marked(s, m') <= Marked(s, m) + reach
    && |Unmarked(s, m)| == |Unmarked(s, m')| + copies
  }

  lemma ProgressRefl(s: Snap, m: Memory, origin: map<nat, nat>, except: set<nat>, reach: set<nat>)
    ensures Progress(s, m, origin, m, origin, except, reach, 0)
  {}

  lemma ProgressWeaken(s: Snap, m: Memory, origin: map<nat, nat>, m': Memory, origin': map<nat, nat>,
                       except: set<nat>, except': set<nat>, reach: set<nat>, reach': set<nat>, copies: int)
    requires Progress(s, m, origin, m', origin', except, reach, copies)
    requires except <= except' && reach <= reach'
    ensures Progress(s, m, origin, m', origin', except', reach', copies)
  {}

  lemma ProgressTrans(s: Snap, m: Memory, origin: map<nat, nat>, m1: Memory, origin1: map<nat, nat>,
                      m2: Memory, origin2: map<nat, nat>, except: set<nat>, reach: set<nat>, c1: int, c2: int)
    requires Progress(s, m, origin, m1, origin1, except, reach, c1)
    requires Progress(s, m1, origin1, m2, origin2, except, reach, c2)
    ensures Progress(s, m, origin, m2, origin2, except, reach, c1 + c2)
  {}

  lemma YoungFacts(s: Snap, m: Memory, origin: map<nat, nat>, grey: set<nat>, y: nat)
    requires Tracing(s, m, origin, grey) && y in s.young
    ensures y in s.mem && y in m && YoungOk(s, m, origin, y)
    ensures SnapObject(s, s.mem[y]) && s.lo <= y <= s.hi - OBJ_SIZE
  {}

  lemma CopyFacts(s: Snap, m: Memory, origin: map<nat, nat>, grey: set<nat>, x: nat)
    requires Tracing(s, m, origin, grey) && x in origin
    ensures CopyOk(s, m, origin, grey, x) && x !in s.young
  {}

  lemma ProgressKeeps(s: Snap, m: Memory, origin: map<nat, nat>, m': Memory, origin': map<nat, nat>,
                      except: set<nat>, reach: set<nat>, copies: int, x: nat)
    requires Progress(s, m, origin, m', origin', except, reach, copies)
    requires x in m && x !in s.young && x !in except
    ensures x in m' && m'[x] == m[x]
    ensures x in origin ==> x in origin' && origin'[x] == origin[x]
  {}

  lemma ProgressShrinks(s: Snap, m: Memory, origin: map<nat, nat>, m': Memory, origin': map<nat, nat>,
                        except: set<nat>, reach: set<nat>, copies: int)
    requires Progress(s, m, origin, m', origin', except, reach, copies)
    ensures Unmarked(s, m') <= Unmarked(s, m)
  {}

  lemma ProgressForwarded(s: Snap, m: Memory, origin: map<nat, nat>, m': Memory, origin': map<nat, nat>,
                          except: set<nat>, reach: set<nat>, copies: int, v0: Value, v: Value)
    requires Progress(s, m, origin, m', origin', except, reach, copies)
    requires SnapValue(s, v0) && Forwarded(m, v0, v)
    ensures Forwarded(m', v0, v)
  {}

  /** Objects that did not exist need no excepting. */
  lemma ProgressFresh(s: Snap, m: Memory, origin: map<nat, nat>, m': Memory, origin': map<nat, nat>,
                      x: nat, reach: set<nat>, copies: int)
    requires Progress(s, m, origin, m', origin', {x}, reach, copies) && x !in m
    ensures Progress(s, m, origin, m', origin', {}, reach, copies)
  {}

  // ---------------------------------------------------------------------
  // The three steps of a copier
  // ---------------------------------------------------------------------

  function Forwarder(o: Obj, x: nat): Obj
    requires |o.fields| > 0
  {
    Obj(o.kind, true, o.fields[0 := Old(x)])
  }

  /** Leaving a forwarding pointer to a fresh object keeps the invariant, with the
      fresh object grey. */
  lemma StartCopy(s: Snap, m: Memory, origin: map<nat, nat>, grey: set<nat>, y: nat, x: nat, blank: Obj)
    requires Tracing(s, m, origin, grey)
    requires y in s.young && !m[y].marked && |s.mem[y].fields| > 0
    requires x !in m && !(s.lo <= x < s.hi) && !blank.marked
    ensures Tracing(s, m[x := blank][y := Forwarder(s.mem[y], x)], origin[x := y], grey + {x})
  {
    var m' := m[x := blank][y := Forwarder(s.mem[y], x)];
    var origin' := origin[x := y];
    assert x != y;
    forall z | z in origin' ensures CopyOk(s, m', origin', grey + {x}, z) {
      if z != x {
        StartKeepsCopy(s, m, origin, grey, y, x, blank, z);
      }
    }
    StartKeepsYoung(s, m, origin, grey, y, x, blank);
  }

  lemma StartKeepsYoung(s: Snap, m: Memory, origin: map<nat, nat>, grey: set<nat>, y: nat, x: nat, blank: Obj)
    requires Tracing(s, m, origin, grey)
    requires y in s.young && !m[y].marked && |s.mem[y].fields| > 0 && x !in m
    ensures forall w | w in s.young :: w in s.mem && w in m && YoungOk(s, m[x := blank][y := Forwarder(s.mem[y], x)], origin[x := y], w)
  {
    forall w | w in s.young ensures YoungOk(s, m[x := blank][y := Forwarder(s.mem[y], x)], origin[x := y], w) {
      assert YoungOk(s, m, origin, w);
    }
  }

  lemma StartKeepsCopy(s: Snap, m: Memory, origin: map<nat, nat>, grey: set<nat>, y: nat, x: nat, blank: Obj, z: nat)
    requires Tracing(s, m, origin, grey) && z in origin
    requires y in s.young && !m[y].marked && |s.mem[y].fields| > 0
    requires x !in m && !(s.lo <= x < s.hi) && !blank.marked
    ensures CopyOk(s, m[x := blank][y := Forwarder(s.mem[y], x)], origin[x := y], grey + {x}, z)
  {}

  lemma FreshCopy(s: Snap, m: Memory, origin: map<nat, nat>, grey: set<nat>, y: nat, x: nat)
    requires Tracing(s, m, origin, grey)
    requires y in s.young && x !in m
    ensures x !in origin && x !in s.young && x != y
  {}

  lemma StartProgress(s: Snap, m: Memory, origin: map<nat, nat>, y: nat, x: nat, blank: Obj, reach: set<nat>)
    requires y in s.young && y in m && y in s.mem && !m[y].marked && |s.mem[y].fields| > 0
    requires x !in m && x !in origin && x !in s.young && y in reach
    ensures var m' := m[x := blank][y := Forwarder(s.mem[y], x)];
            && Progress(s, m, origin, m', origin[x := y], {x}, reach, 1)
            && Unmarked(s, m') == Unmarked(s, m) - {y}
  {
    var m' := m[x := blank][y := Forwarder(s.mem[y], x)];
    assert Unmarked(s, m') == Unmarked(s, m) - {y};
    assert Marked(s, m') == Marked(s, m) + {y};
  }

  /** A grey object may be written freely. */
  lemma WriteGrey(s: Snap, m: Memory, origin: map<nat, nat>, grey: set<nat>, x: nat, o: Obj)
    requires Tracing(s, m, origin, grey)
    requires x in grey && !o.marked
    ensures Tracing(s, m[x := o], origin, grey)
    ensures Progress(s, m, origin, m[x := o], origin, {x}, {}, 0)
  {
    var m' := m[x := o];
    assert CopyOk(s, m, origin, grey, x);
    assert Unmarked(s, m') == Unmarked(s, m) && Marked(s, m') == Marked(s, m);
    forall z | z in origin ensures CopyOk(s, m', origin, grey, z) {
      assert CopyOk(s, m, origin, grey, z);
      if z !in grey {
        var w := origin[z];
        assert SnapObject(s, s.mem[w]);
        forall i | 0 <= i < |m[z].fields|
          ensures Forwarded(m', s.mem[w].fields[i], m'[z].fields[i])
        {
          assert Forwarded(m, s.mem[w].fields[i], m[z].fields[i]);
        }
      }
    }
    forall w | w in s.young ensures YoungOk(s, m', origin, w) {
      assert YoungOk(s, m, origin, w);
    }
  }

  /** A grey object whose fields are all forwarded is finished. */
  lemma FinishCopy(s: Snap, m: Memory, origin: map<nat, nat>, grey: set<nat>, x: nat)
    requires Tracing(s, m, origin, grey + {x})
    requires x in origin && m[x].kind == s.mem[origin[x]].kind
    requires CopiedFields(m, s.mem[origin[x]].fields, m[x].fields)
    ensures Tracing(s, m, origin, grey)
  {}

  // ---------------------------------------------------------------------
  // Reachability
  // ---------------------------------------------------------------------

  /** A set of nursery addresses that contains the young fields of its members. */
  ghost predicate Closed(s: Snap, S: set<nat>) {
    forall y | y in S && y in s.young && y in s.mem ::
      forall i | 0 <= i < |s.mem[y].fields| ::
        s.mem[y].fields[i].Young? ==> s.mem[y].fields[i].addr in S
  }

  lemma ClosedFields(s: Snap, S: set<nat>, y: nat)
    requires Closed(s, S) && y in S && y in s.young && y in s.mem
    ensures forall i | 0 <= i < |s.mem[y].fields| :: HoldsYoung({s.mem[y].fields[i]}, S)
  {}

  ghost predicate HoldsYoung(vs: set<Value>, S: set<nat>) {
    forall v | v in vs :: v.Young? ==> v.addr in S
  }

  /** The nursery objects that can be reached from `roots`: those in every closed
      set that holds the roots. */
  ghost function Reach(s: Snap, roots: set<Value>): set<nat> {
    set y | y in s.young && forall S: set<nat> | Closed(s, S) && HoldsYoung(roots, S) :: y in S
  }

  lemma ReachIsClosed(s: Snap, roots: set<Value>)
    requires SnapOk(s)
    requires forall v | v in roots :: SnapValue(s, v)
    ensures Closed(s, Reach(s, roots)) && HoldsYoung(roots, Reach(s, roots))
  {}

  /** With nothing grey, the marked objects are closed: whatever a copied object
      points to has been copied. */
  lemma MarkedIsClosed(s: Snap, m: Memory, origin: map<nat, nat>)
    requires Tracing(s, m, origin, {})
    ensures Closed(s, Marked(s, m))
  {
    forall y, i | y in Marked(s, m) && 0 <= i < |s.mem[y].fields| && s.mem[y].fields[i].Young?
      ensures s.mem[y].fields[i].addr in Marked(s, m)
    {
      assert YoungOk(s, m, origin, y);
      var x := m[y].fields[0].addr;
      assert CopyOk(s, m, origin, {}, x);
      assert Forwarded(m, s.mem[y].fields[i], m[x].fields[i]);
      assert SnapValue(s, s.mem[y].fields[i]);
    }
  }

  // ---------------------------------------------------------------------
  // Roots and remembered words in the course of a collection
  // ---------------------------------------------------------------------

  /** A root word is forwarded, or else still holds its value of the snapshot and has not been visited. */
  predicate WordState(m: Memory, v0: Value, v: Value, visited: bool) {
    Forwarded(m, v0, v) || (v == v0 && !visited)
  }

  ghost predicate TenuredState(s: Snap, m: Memory, visited: set<Slot>) {
    forall a | a in s.tenured ::
      a in s.mem && a in m && m[a].kind == s.mem[a].kind && !m[a].marked && |m[a].fields| == |s.mem[a].fields|
      && forall i | 0 <= i < |m[a].fields| :: WordState(m, s.mem[a].fields[i], m[a].fields[i], Field(a, i) in visited)
  }

  ghost predicate GlobalsState(s: Snap, m: Memory, globals: seq<Value>, visited: set<Slot>) {
    |globals| == |s.globals|
    && forall g | 0 <= g < |globals| :: WordState(m, s.globals[g], globals[g], Global(g) in visited)
  }

  /** The frames before frame `n`, and the first `k` slots of frame `n`, are forwarded; the rest is untouched. */
  ghost predicate FramesState(s: Snap, m: Memory, frames: seq<seq<Value>>, n: nat, k: nat) {
    |frames| == |s.frames|
    && forall f | 0 <= f < |frames| :: |frames[f]| == |s.frames[f]|
         && forall i | 0 <= i < |frames[f]| ::
              if f < n || (f == n && i < k) then Forwarded(m, s.frames[f][i], frames[f][i])
              else frames[f][i] == s.frames[f][i]
  }

  lemma TenuredProgress(s: Snap, m: Memory, origin: map<nat, nat>, m': Memory, origin': map<nat, nat>,
                        reach: set<nat>, copies: int, visited: set<Slot>)
    requires SnapOk(s) && Progress(s, m, origin, m', origin', {}, reach, copies)
    requires TenuredState(s, m, visited)
    ensures TenuredState(s, m', visited)
  {}

  lemma GlobalsProgress(s: Snap, m: Memory, origin: map<nat, nat>, m': Memory, origin': map<nat, nat>,
                        except: set<nat>, reach: set<nat>, copies: int, globals: seq<Value>, visited: set<Slot>)
    requires SnapOk(s) && Progress(s, m, origin, m', origin', except, reach, copies)
    requires GlobalsState(s, m, globals, visited)
    ensures GlobalsState(s, m', globals, visited)
  {
    forall g | 0 <= g < |globals|
      ensures WordState(m', s.globals[g], globals[g], Global(g) in visited)
    {
      assert s.globals[g] in s.globals;
    }
  }

  lemma FramesProgress(s: Snap, m: Memory, origin: map<nat, nat>, m': Memory, origin': map<nat, nat>,
                       except: set<nat>, reach: set<nat>, copies: int, frames: seq<seq<Value>>, n: nat, k: nat)
    requires SnapOk(s) && Progress(s, m, origin, m', origin', except, reach, copies)
    requires FramesState(s, m, frames, n, k)
    ensures FramesState(s, m', frames, n, k)
  {
    forall f, i | 0 <= f < |frames| && 0 <= i < |frames[f]| && (f < n || (f == n && i < k))
      ensures Forwarded(m', s.frames[f][i], frames[f][i])
    {
      assert s.frames[f] in s.frames && s.frames[f][i] in s.frames[f];
    }
  }

  /** An object outside the nursery that is no copy may be written freely. */
  lemma WriteTenured(s: Snap, m: Memory, origin: map<nat, nat>, grey: set<nat>, a: nat, o: Obj)
    requires Tracing(s, m, origin, grey)
    requires a in s.tenured && !o.marked
    ensures Tracing(s, m[a := o], origin, grey)
    ensures Progress(s, m, origin, m[a := o], origin, {a}, {}, 0)
  {
    var m' := m[a := o];
    assert a !in origin;
    assert Unmarked(s, m') == Unmarked(s, m) && Marked(s, m') == Marked(s, m);
    forall z | z in origin ensures CopyOk(s, m', origin, grey, z) {
      assert CopyOk(s, m, origin, grey, z);
      if z !in grey {
        var w := origin[z];
        assert SnapObject(s, s.mem[w]);
        forall i | 0 <= i < |m[z].fields|
          ensures Forwarded(m', s.mem[w].fields[i], m'[z].fields[i])
        {
          assert Forwarded(m, s.mem[w].fields[i], m[z].fields[i]);
        }
      }
    }
    forall w | w in s.young ensures YoungOk(s, m', origin, w) {
      assert YoungOk(s, m, origin, w);
    }
  }

  /** A remembered field that holds no young pointer needs no visit. */
  lemma TenuredVisited(s: Snap, m: Memory, p: Slot, visited: set<Slot>)
    requires SnapOk(s) && TenuredState(s, m, visited)
    requires p.Field? && p.addr in s.tenured && p.idx < |m[p.addr].fields| && !m[p.addr].fields[p.idx].Young?
    ensures TenuredState(s, m, visited + {p})
  {}

  /** Visiting a remembered field. */
  lemma TenuredVisit(s: Snap, m: Memory, a: nat, i: nat, w: Value, visited: set<Slot>)
    requires SnapOk(s) && TenuredState(s, m, visited)
    requires a in s.tenured && i < |m[a].fields|
    requires Forwarded(m, s.mem[a].fields[i], w)
    ensures TenuredState(s, m[a := m[a].(fields := m[a].fields[i := w])], visited + {Field(a, i)})
  {}

  /** At the start of a collection nothing is marked. */
  lemma StartTracing(s: Snap)
    requires SnapOk(s)
    ensures Tracing(s, s.mem, map[], {})
    ensures Marked(s, s.mem) == {} && Unmarked(s, s.mem) == s.young
    ensures TenuredState(s, s.mem, {}) && GlobalsState(s, s.mem, s.globals, {}) && FramesState(s, s.mem, s.frames, 0, 0)
  {}

  /** A collection that has copied `copies` objects, all in `reach`, has forwarded the frames
      up to slot `k` of frame `n`, and has visited the words `visited`. */
  ghost predicate Collecting(s: Snap, m: Memory, origin: map<nat, nat>, frames: seq<seq<Value>>, globals: seq<Value>,
                             reach: set<nat>, copies: int, visited: set<Slot>, n: nat, k: nat) {
    && SnapOk(s)
    && Tracing(s, m, origin, {})
    && Progress(s, s.mem, map[], m, origin, s.tenured, reach, copies)
    && TenuredState(s, m, visited)
    && GlobalsState(s, m, globals, visited)
    && FramesState(s, m, frames, n, k)
  }

  lemma StartCollecting(s: Snap, reach: set<nat>)
    requires SnapOk(s)
    ensures Collecting(s, s.mem, map[], s.frames, s.globals, reach, 0, {}, 0, 0)
  {}

  lemma Advance(s: Snap, m0: Memory, o0: map<nat, nat>, m: Memory, origin: map<nat, nat>,
                frames: seq<seq<Value>>, globals: seq<Value>, reach: set<nat>, c0: int, c: int,
                visited: set<Slot>, n: nat, k: nat)
    requires Collecting(s, m0, o0, frames, globals, reach, c0, visited, n, k)
    requires Tracing(s, m, origin, {}) && Progress(s, m0, o0, m, origin, {}, reach, c)
    ensures Collecting(s, m, origin, frames, globals, reach, c0 + c, visited, n, k)
  {
    hide Progress, TenuredState, GlobalsState, FramesState;
    TenuredProgress(s, m0, o0, m, origin, reach, c, visited);
    GlobalsProgress(s, m0, o0, m, origin, {}, reach, c, globals, visited);
    FramesProgress(s, m0, o0, m, origin, {}, reach, c, frames, n, k);
    ProgressWeaken(s, m0, o0, m, origin, {}, s.tenured, reach, reach, c);
    ProgressTrans(s, s.mem, map[], m0, o0, m, origin, s.tenured, reach, c0, c);
  }

  lemma VisitLocal(s: Snap, m: Memory, origin: map<nat, nat>, frames: seq<seq<Value>>, globals: seq<Value>,
                   reach: set<nat>, copies: int, f: nat, i: nat, w: Value)
    requires Collecting(s, m, origin, frames, globals, reach, copies, {}, f, i)
    requires f < |frames| && i < |frames[f]| && Forwarded(m, s.frames[f][i], w)
    ensures Collecting(s, m, origin, frames[f := frames[f][i := w]], globals, reach, copies, {}, f, i + 1)
  {}

  lemma VisitField(s: Snap, m: Memory, origin: map<nat, nat>, frames: seq<seq<Value>>, globals: seq<Value>,
                   reach: set<nat>, copies: int, visited: set<Slot>, n: nat, k: nat, a: nat, i: nat, w: Value)
    requires Collecting(s, m, origin, frames, globals, reach, copies, visited, n, k)
    requires a in s.tenured && i < |m[a].fields| && Forwarded(m, s.mem[a].fields[i], w)
    ensures Collecting(s, m[a := m[a].(fields := m[a].fields[i := w])], origin, frames, globals, reach, copies,
                       visited + {Field(a, i)}, n, k)
  {
    hide Progress, Unmarked, FramesState, CopyOk, YoungOk;
    var m' := m[a := m[a].(fields := m[a].fields[i := w])];
    TenuredVisit(s, m, a, i, w, visited);
    WriteTenured(s, m, origin, {}, a, m'[a]);
    ProgressWeaken(s, m, origin, m', origin, {a}, s.tenured, {}, reach, 0);
    ProgressTrans(s, s.mem, map[], m, origin, m', origin, s.tenured, reach, copies, 0);
    FramesProgress(s, m, origin, m', origin, s.tenured, reach, 0, frames, n, k);
    GlobalsProgress(s, m, origin, m', origin, s.tenured, reach, 0, globals, visited);
  }

  lemma VisitGlobal(s: Snap, m: Memory, origin: map<nat, nat>, frames: seq<seq<Value>>, globals: seq<Value>,
                    reach: set<nat>, copies: int, visited: set<Slot>, n: nat, k: nat, g: nat, w: Value)
    requires Collecting(s, m, origin, frames, globals, reach, copies, visited, n, k)
    requires g < |globals| && Forwarded(m, s.globals[g], w)
    ensures Collecting(s, m, origin, frames, globals[g := w], reach, copies, visited + {Global(g)}, n, k)
  {
    hide Tracing, Progress, FramesState;
  }

  predicate SlotIn(s: Snap, p: Slot) {
    match p
    case Field(a, i) => a in s.tenured && a in s.mem && i < |s.mem[a].fields|
    case Global(g) => g < |s.globals|
  }

  function WordAt(m: Memory, globals: seq<Value>, p: Slot): Value {
    match p
    case Field(a, i) => if a in m && i < |m[a].fields| then m[a].fields[i] else Imm(0)
    case Global(g) => if g < |globals| then globals[g] else Imm(0)
  }

  /** A remembered word that holds no young pointer needs no visit; one that does still
      holds its value of the snapshot. */
  lemma VisitOther(s: Snap, m: Memory, origin: map<nat, nat>, frames: seq<seq<Value>>, globals: seq<Value>,
                   reach: set<nat>, copies: int, visited: set<Slot>, n: nat, k: nat, p: Slot)
    requires Collecting(s, m, origin, frames, globals, reach, copies, visited, n, k)
    requires SlotIn(s, p)
    ensures p.Field? ==> p.addr in m && p.idx < |m[p.addr].fields|
    ensures p.Global? ==> p.g < |globals|
    ensures var v := WordAt(m, globals, p);
            if v.Young? then v in Roots(s) && SnapValue(s, v) && v == WordAt(s.mem, s.globals, p)
            else Collecting(s, m, origin, frames, globals, reach, copies, visited + {p}, n, k)
  {
    hide Progress, FramesState, CopyOk, YoungOk;
    RootsAreValues(s);
    match p {
      case Field(a, i) =>
        assert WordState(m, s.mem[a].fields[i], m[a].fields[i], p in visited);
        assert s.mem[a].fields[i] in s.mem[a].fields;
        if !m[a].fields[i].Young? { TenuredVisited(s, m, p, visited); }
      case Global(g) =>
        assert WordState(m, s.globals[g], globals[g], p in visited);
        assert s.globals[g] in s.globals;
    }
  }

  // ---------------------------------------------------------------------
  // The end of a collection
  // ---------------------------------------------------------------------

  ghost predicate FramesForwarded(m: Memory, fs0: seq<seq<Value>>, fs: seq<seq<Value>>) {
    |fs| == |fs0| && forall i | 0 <= i < |fs| :: CopiedFields(m, fs0[i], fs[i])
  }

  ghost predicate TenuredForwarded(s: Snap, m: Memory) {
    forall a | a in s.tenured :: a in s.mem && a in m && m[a].kind == s.mem[a].kind && !m[a].marked
      && CopiedFields(m, s.mem[a].fields, m[a].fields)
  }

  /** All that `s` holds outside the nursery, and everything it could reach from there,
      is outside the nursery now. */
  ghost predicate Promoted(s: Snap, m: Memory, origin: map<nat, nat>, frames: seq<seq<Value>>, globals: seq<Value>) {
    && Tracing(s, m, origin, {})
    && TenuredForwarded(s, m)
    && FramesForwarded(m, s.frames, frames)
    && CopiedFields(m, s.globals, globals)
  }

  /** `recorded` has every word outside the nursery and the frames that holds a young pointer. */
  ghost predicate RememberedBy(s: Snap, recorded: set<Slot>) {
    && (forall a, i | a in s.tenured && a in s.mem && 0 <= i < |s.mem[a].fields| && s.mem[a].fields[i].Young? ::
          Field(a, i) in recorded)
    && (forall g | 0 <= g < |s.globals| && s.globals[g].Young? :: Global(g) in recorded)
  }

  /** Visiting the frames and the remembered words promotes everything. */
  lemma VisitedIsPromoted(s: Snap, m: Memory, origin: map<nat, nat>, frames: seq<seq<Value>>, globals: seq<Value>,
                          visited: set<Slot>)
    requires Tracing(s, m, origin, {}) && RememberedBy(s, visited)
    requires TenuredState(s, m, visited) && GlobalsState(s, m, globals, visited)
    requires FramesState(s, m, frames, |frames|, 0)
    ensures Promoted(s, m, origin, frames, globals)
  {}

  /** Every value held outside the nursery or in a frame. */
  ghost function Roots(s: Snap): set<Value> {
    (set f, v | f in s.frames && v in f :: v)
    + (set v | v in s.globals)
    + (set a, v | a in s.tenured && a in s.mem && v in s.mem[a].fields :: v)
  }

  lemma RootsAreValues(s: Snap)
    requires SnapOk(s)
    ensures forall v | v in Roots(s) :: SnapValue(s, v)
  {}

  /** Exactly what the roots reach has been copied when everything is promoted. */
  lemma PromotedIsReachable(s: Snap, m: Memory, origin: map<nat, nat>, frames: seq<seq<Value>>, globals: seq<Value>)
    requires Promoted(s, m, origin, frames, globals)
    ensures Reach(s, Roots(s)) <= Marked(s, m)
  {
    RootsAreValues(s);
    forall v | v in Roots(s) && v.Young? ensures v.addr in Marked(s, m) {
      if f :| f in s.frames && v in f {
        var j :| 0 <= j < |s.frames| && s.frames[j] == f;
        var i :| 0 <= i < |f| && f[i] == v;
        assert CopiedFields(m, s.frames[j], frames[j]);
        assert Forwarded(m, v, frames[j][i]);
      } else if v in s.globals {
        var g :| 0 <= g < |s.globals| && s.globals[g] == v;
        assert Forwarded(m, v, globals[g]);
      } else {
        var a :| a in s.tenured && a in s.mem && v in s.mem[a].fields;
        var i :| 0 <= i < |s.mem[a].fields| && s.mem[a].fields[i] == v;
        assert Forwarded(m, v, m[a].fields[i]);
      }
    }
    MarkedIsClosed(s, m, origin);
  }

  lemma NextFrame(s: Snap, m: Memory, origin: map<nat, nat>, frames: seq<seq<Value>>, globals: seq<Value>,
                  reach: set<nat>, copies: int, n: nat)
    requires n < |frames|
    requires Collecting(s, m, origin, frames, globals, reach, copies, {}, n, |frames[n]|)
    ensures Collecting(s, m, origin, frames, globals, reach, copies, {}, n + 1, 0)
  {}

  lemma EndCollecting(s: Snap, m: Memory, origin: map<nat, nat>, frames: seq<seq<Value>>, globals: seq<Value>,
                      reach: set<nat>, copies: int, visited: set<Slot>)
    requires Collecting(s, m, origin, frames, globals, reach, copies, visited, |frames|, 0)
    requires RememberedBy(s, visited) && reach == Reach(s, Roots(s))
    ensures Promoted(s, m, origin, frames, globals)
    ensures Marked(s, m) == reach && copies == |reach|
  {
    hide Tracing, TenuredState, GlobalsState, FramesState, Progress, Marked, Unmarked, Reach, Promoted, RememberedBy;
    VisitedIsPromoted(s, m, origin, frames, globals, visited);
    PromotedIsReachable(s, m, origin, frames, globals);
    StartTracing(s);
    MarkedOrNot(s, m, origin);
    ProgressCounts(s, s.mem, map[], m, origin, s.tenured, reach, copies);
  }

  lemma ProgressCounts(s: Snap, m: Memory, origin: map<nat, nat>, m': Memory, origin': map<nat, nat>,
                       except: set<nat>, reach: set<nat>, copies: int)
    requires Progress(s, m, origin, m', origin', except, reach, copies)
    ensures Marked(s, m') <= Marked(s, m) + reach
    ensures |Unmarked(s, m)| == |Unmarked(s, m')| + copies
  {}

  lemma MarkedOrNot(s: Snap, m: Memory, origin: map<nat, nat>)
    requires Tracing(s, m, origin, {})
    ensures |s.young| == |Marked(s, m)| + |Unmarked(s, m)|
  {
    assert s.young == Marked(s, m) + Unmarked(s, m);
  }
}
