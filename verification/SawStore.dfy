/** The mutator's view of memory with no collector: an ever-growing store of
    objects, and how a collected heap represents it. */
module SawStore {
  import opened SawMemory

  datatype AValue = AImm(n: int) | ARef(id: nat)
  datatype AObj = AObj(kind: Kind, fields: seq<AValue>)

  /** Objects are never moved and never disappear; `frames[0]` is the innermost frame. */
  datatype Store = Store(objs: seq<AObj>, frames: seq<seq<AValue>>, globals: seq<AValue>)

  // ---------------------------------------------------------------------
  // Mutator commands and their meaning on the store
  // ---------------------------------------------------------------------

  /** Operands are slots of the innermost frame. */
  datatype Cmd =
    | Cons(dst: nat, a: nat, d: nat)
    | Econs(dst: nat, a: nat, d: nat, e: nat)
    | Box(dst: nat, v: nat)
    | Get(dst: nat, src: nat, idx: nat)
    | Set(src: nat, idx: nat, val: nat)
    | GetGlobal(dst: nat, g: nat)
    | SetGlobal(g: nat, val: nat)
    | Literal(dst: nat, n: int)
    | Enter(size: nat)
    | Leave

  function Top(st: Store): seq<AValue> {
    if st.frames == [] then [] else st.frames[0]
  }

  function Assign(st: Store, dst: nat, v: AValue): Store
    requires dst < |Top(st)|
  {
    st.(frames := st.frames[0 := st.frames[0][dst := v]])
  }

  function Alloc(st: Store, dst: nat, kind: Kind, fields: seq<AValue>): Store
    requires dst < |Top(st)|
  {
    Assign(st.(objs := st.objs + [AObj(kind, fields)]), dst, ARef(|st.objs|))
  }

  predicate HasField(st: Store, v: AValue, idx: nat) {
    v.ARef? && v.id < |st.objs| && idx < |st.objs[v.id].fields|
  }

  /** A command whose operands are missing or of the wrong type does nothing. */
  function Step(st: Store, c: Cmd): Store {
    var f := Top(st);
    match c
    case Cons(dst, a, d) =>
      if dst < |f| && a < |f| && d < |f| then Alloc(st, dst, Pair, [f[a], f[d]]) else st
    case Econs(dst, a, d, e) =>
      if dst < |f| && a < |f| && d < |f| && e < |f| then Alloc(st, dst, Epair, [f[a], f[d], f[e]]) else st
    case Box(dst, v) =>
      if dst < |f| && v < |f| then Alloc(st, dst, Cell, [f[v]]) else st
    case Get(dst, src, idx) =>
      if dst < |f| && src < |f| && HasField(st, f[src], idx)
      then Assign(st, dst, st.objs[f[src].id].fields[idx]) else st
    case Set(src, idx, val) =>
      if src < |f| && val < |f| && HasField(st, f[src], idx)
      then SetField(st, f[src].id, idx, f[val]) else st
    case GetGlobal(dst, g) =>
      if dst < |f| && g < |st.globals| then Assign(st, dst, st.globals[g]) else st
    case SetGlobal(g, val) =>
      if val < |f| && g < |st.globals| then st.(globals := st.globals[g := f[val]]) else st
    case Literal(dst, n) =>
      if dst < |f| then Assign(st, dst, AImm(n)) else st
    case Enter(size) => st.(frames := [seq(size, _ => AImm(0))] + st.frames)
    case Leave => if st.frames == [] then st else st.(frames := st.frames[1..])
  }

  function SetField(st: Store, id: nat, idx: nat, v: AValue): Store
    requires id < |st.objs| && idx < |st.objs[id].fields|
  {
    var o := st.objs[id];
    st.(objs := st.objs[id := o.(fields := o.fields[idx := v])])
  }

  function Run(st: Store, cs: seq<Cmd>): Store {
    if cs == [] then st else Step(Run(st, cs[..|cs| - 1]), cs[|cs| - 1])
  }

  // ---------------------------------------------------------------------
  // Representation
  // ---------------------------------------------------------------------

  /** The store value that a heap value stands for. */
  function NameOf(name: map<Value, nat>, v: Value): AValue {
    if v.Imm? then AImm(v.n) else if v in name then ARef(name[v]) else AImm(0)
  }

  function NamesOf(name: map<Value, nat>, vs: seq<Value>): (r: seq<AValue>)
    ensures |r| == |vs| && forall i | 0 <= i < |r| :: r[i] == NameOf(name, vs[i])
  {
    seq(|vs|, i requires 0 <= i < |vs| => NameOf(name, vs[i]))
  }

  function FramesOf(name: map<Value, nat>, fs: seq<seq<Value>>): (r: seq<seq<AValue>>)
    ensures |r| == |fs| && forall i | 0 <= i < |r| :: r[i] == NamesOf(name, fs[i])
  {
    seq(|fs|, i requires 0 <= i < |fs| => NamesOf(name, fs[i]))
  }

  predicate IsRef(s: Snap, v: Value) {
    !v.Imm? && SnapValue(s, v)
  }

  /** Every object has one name, no two share one, and each object reads as the
      store object of its name. */
  ghost predicate Represents(s: Snap, name: map<Value, nat>, objs: seq<AObj>)
    requires SnapOk(s)
  {
    && (forall v | IsRef(s, v) :: v in name && name[v] < |objs|
         && objs[name[v]] == AObj(s.mem[v.addr].kind, NamesOf(name, s.mem[v.addr].fields)))
    && (forall v, w | IsRef(s, v) && IsRef(s, w) && name[v] == name[w] :: v == w)
  }

  // ---------------------------------------------------------------------
  // A collection keeps the representation
  // ---------------------------------------------------------------------

  ghost function After(s: Snap, m: Memory, frames: seq<seq<Value>>, globals: seq<Value>): Snap {
    Snap(m, s.lo, s.hi, {}, (set a | a in m && !(s.lo <= a < s.hi)), frames, globals)
  }

  /** A copy takes over the name of its origin. */
  ghost function Rename(s: Snap, name: map<Value, nat>, m: Memory, origin: map<nat, nat>): map<Value, nat> {
    map x | x in m && !(s.lo <= x < s.hi) ::
      Old(x) := if x in origin && Young(origin[x]) in name then name[Young(origin[x])]
                else if Old(x) in name then name[Old(x)] else 0
  }

  ghost predicate Settled(s: Snap, m: Memory, v: Value) {
    !v.Young? && (v.Old? ==> v.addr in m && !(s.lo <= v.addr < s.hi))
  }

  /** Forwarded values point out of the nursery. */
  lemma ForwardedSettles(s: Snap, m: Memory, origin: map<nat, nat>, vs0: seq<Value>, vs: seq<Value>)
    requires Tracing(s, m, origin, {})
    requires forall v | v in vs0 :: SnapValue(s, v)
    requires CopiedFields(m, vs0, vs)
    ensures forall v | v in vs :: Settled(s, m, v)
  {
    forall i | 0 <= i < |vs| ensures Settled(s, m, vs[i]) {
      assert vs0[i] in vs0;
      if vs0[i].Young? {
        assert YoungOk(s, m, origin, vs0[i].addr);
        assert CopyOk(s, m, origin, {}, vs[i].addr);
      }
    }
  }

  lemma ForwardedKeepsName(s: Snap, name: map<Value, nat>, objs: seq<AObj>, m: Memory, origin: map<nat, nat>,
                           v0: Value, v: Value)
    requires Tracing(s, m, origin, {}) && Represents(s, name, objs)
    requires SnapValue(s, v0) && Forwarded(m, v0, v)
    ensures NameOf(Rename(s, name, m, origin), v) == NameOf(name, v0)
  {}

  lemma ForwardedKeepNames(s: Snap, name: map<Value, nat>, objs: seq<AObj>, m: Memory, origin: map<nat, nat>,
                           vs0: seq<Value>, vs: seq<Value>)
    requires Tracing(s, m, origin, {}) && Represents(s, name, objs)
    requires forall v | v in vs0 :: SnapValue(s, v)
    requires CopiedFields(m, vs0, vs)
    ensures NamesOf(Rename(s, name, m, origin), vs) == NamesOf(name, vs0)
  {
    forall i | 0 <= i < |vs|
      ensures NameOf(Rename(s, name, m, origin), vs[i]) == NameOf(name, vs0[i])
    {
      assert vs0[i] in vs0;
      ForwardedKeepsName(s, name, objs, m, origin, vs0[i], vs[i]);
    }
  }

  /** The object that object `x` outside the nursery was before the collection. */
  ghost function Before(origin: map<nat, nat>, x: nat): Value {
    if x in origin then Young(origin[x]) else Old(x)
  }

  lemma BeforeIsRef(s: Snap, m: Memory, origin: map<nat, nat>, x: nat)
    requires Tracing(s, m, origin, {}) && TenuredForwarded(s, m)
    requires x in m && !(s.lo <= x < s.hi)
    ensures var v := Before(origin, x);
            && IsRef(s, v) && v.addr in s.mem
            && m[x].kind == s.mem[v.addr].kind && !m[x].marked
            && CopiedFields(m, s.mem[v.addr].fields, m[x].fields)
            && SnapObject(s, s.mem[v.addr])
  {}

  lemma PromotedObject(s: Snap, name: map<Value, nat>, objs: seq<AObj>, m: Memory, origin: map<nat, nat>, x: nat)
    requires Tracing(s, m, origin, {}) && TenuredForwarded(s, m)
    requires Represents(s, name, objs)
    requires x in m && !(s.lo <= x < s.hi)
    ensures var name' := Rename(s, name, m, origin);
            && Old(x) in name' && Before(origin, x) in name && name'[Old(x)] == name[Before(origin, x)] < |objs|
            && objs[name'[Old(x)]] == AObj(m[x].kind, NamesOf(name', m[x].fields))
  {
    BeforeIsRef(s, m, origin, x);
    var v := Before(origin, x);
    ForwardedKeepNames(s, name, objs, m, origin, s.mem[v.addr].fields, m[x].fields);
  }

  lemma PromotedNamesDiffer(s: Snap, name: map<Value, nat>, objs: seq<AObj>, m: Memory, origin: map<nat, nat>,
                            x: nat, z: nat)
    requires Tracing(s, m, origin, {}) && TenuredForwarded(s, m)
    requires Represents(s, name, objs)
    requires x in m && !(s.lo <= x < s.hi) && z in m && !(s.lo <= z < s.hi)
    ensures Rename(s, name, m, origin)[Old(x)] == Rename(s, name, m, origin)[Old(z)] ==> x == z
  {
    PromotedObject(s, name, objs, m, origin, x);
    PromotedObject(s, name, objs, m, origin, z);
    BeforeIsRef(s, m, origin, x);
    BeforeIsRef(s, m, origin, z);
    assert x in origin ==> CopyOk(s, m, origin, {}, x);
    assert z in origin ==> CopyOk(s, m, origin, {}, z);
  }

  lemma PromotedFrames(s: Snap, name: map<Value, nat>, objs: seq<AObj>, m: Memory, origin: map<nat, nat>,
                       frames: seq<seq<Value>>)
    requires Tracing(s, m, origin, {}) && Represents(s, name, objs)
    requires FramesForwarded(m, s.frames, frames)
    ensures FramesOf(Rename(s, name, m, origin), frames) == FramesOf(name, s.frames)
  {
    forall i | 0 <= i < |frames|
      ensures NamesOf(Rename(s, name, m, origin), frames[i]) == NamesOf(name, s.frames[i])
    {
      assert s.frames[i] in s.frames;
      ForwardedKeepNames(s, name, objs, m, origin, s.frames[i], frames[i]);
    }
  }

  /** Nothing that survives points into the nursery, so resetting it leaves nothing dangling. */
  lemma PromotedSettles(s: Snap, m: Memory, origin: map<nat, nat>, frames: seq<seq<Value>>, globals: seq<Value>)
    requires Promoted(s, m, origin, frames, globals)
    ensures SnapOk(After(s, m, frames, globals))
  {
    var s' := After(s, m, frames, globals);
    forall x | x in s'.tenured ensures SnapObject(s', m[x]) {
      BeforeIsRef(s, m, origin, x);
      ForwardedSettles(s, m, origin, s.mem[Before(origin, x).addr].fields, m[x].fields);
      assert forall i | 0 <= i < |m[x].fields| :: Settled(s, m, m[x].fields[i]);
    }
    forall i | 0 <= i < |frames| ensures forall v | v in frames[i] :: SnapValue(s', v) {
      assert s.frames[i] in s.frames;
      ForwardedSettles(s, m, origin, s.frames[i], frames[i]);
    }
    ForwardedSettles(s, m, origin, s.globals, globals);
  }

  lemma PromotedRepresents(s: Snap, name: map<Value, nat>, objs: seq<AObj>, m: Memory, origin: map<nat, nat>, s': Snap)
    requires Tracing(s, m, origin, {}) && TenuredForwarded(s, m)
    requires Represents(s, name, objs)
    requires SnapOk(s') && s'.mem == m && s'.lo == s.lo && s'.hi == s.hi && s'.young == {}
    ensures Represents(s', Rename(s, name, m, origin), objs)
  {
    var name' := Rename(s, name, m, origin);
    forall v | IsRef(s', v)
      ensures v in name' && name'[v] < |objs|
      ensures objs[name'[v]] == AObj(m[v.addr].kind, NamesOf(name', m[v.addr].fields))
    {
      PromotedObject(s, name, objs, m, origin, v.addr);
    }
    forall v, w | IsRef(s', v) && IsRef(s', w) && name'[v] == name'[w] ensures v == w {
      PromotedNamesDiffer(s, name, objs, m, origin, v.addr, w.addr);
    }
  }

  /** After a collection the same store is represented, roots included: the
      promoted graph is the old one up to renaming, shared and cyclic structure included. */
  lemma PromotionKeepsStore(s: Snap, name: map<Value, nat>, objs: seq<AObj>, m: Memory, origin: map<nat, nat>,
                            frames: seq<seq<Value>>, globals: seq<Value>)
    requires SnapOk(s) && Represents(s, name, objs)
    requires Promoted(s, m, origin, frames, globals)
    ensures SnapOk(After(s, m, frames, globals))
    ensures Represents(After(s, m, frames, globals), Rename(s, name, m, origin), objs)
    ensures FramesOf(Rename(s, name, m, origin), frames) == FramesOf(name, s.frames)
    ensures NamesOf(Rename(s, name, m, origin), globals) == NamesOf(name, s.globals)
  {
    PromotedSettles(s, m, origin, frames, globals);
    PromotedFrames(s, name, objs, m, origin, frames);
    ForwardedKeepNames(s, name, objs, m, origin, s.globals, globals);
    PromotedRepresents(s, name, objs, m, origin, After(s, m, frames, globals));
  }

  // ---------------------------------------------------------------------
  // Allocation and assignment keep the representation
  // ---------------------------------------------------------------------

  /** Adding young object `a` to a heap in which no live value points to `a`. */
  lemma AllocRepresents(s: Snap, name: map<Value, nat>, objs: seq<AObj>, s': Snap, a: nat, o: Obj)
    requires SnapOk(s) && Represents(s, name, objs)
    requires a !in s.young && s'.young == s.young + {a} && s'.tenured == s.tenured
    requires s'.mem.Keys >= s'.young + s'.tenured
    requires forall x | x in s.young + s.tenured :: s'.mem[x] == s.mem[x]
    requires s'.mem[a] == o && forall v | v in o.fields :: SnapValue(s, v)
    requires SnapOk(s')
    ensures Represents(s', name[Young(a) := |objs|], objs + [AObj(o.kind, NamesOf(name, o.fields))])
  {
    var name', objs' := name[Young(a) := |objs|], objs + [AObj(o.kind, NamesOf(name, o.fields))];
    assert !IsRef(s, Young(a));
    forall v | IsRef(s', v)
      ensures v in name' && name'[v] < |objs'| && objs'[name'[v]] == AObj(s'.mem[v.addr].kind, NamesOf(name', s'.mem[v.addr].fields))
      ensures v != Young(a) ==> name'[v] < |objs|
    {
      if v == Young(a) {
        SameNames(s, name, name', o.fields);
      } else {
        assert IsRef(s, v) && SnapObject(s, s.mem[v.addr]);
        SameNames(s, name, name', s.mem[v.addr].fields);
      }
    }
    forall v, w | IsRef(s', v) && IsRef(s', w) && name'[v] == name'[w] ensures v == w {
      assert v != Young(a) ==> IsRef(s, v);
      assert w != Young(a) ==> IsRef(s, w);
    }
  }

  lemma SameNames(s: Snap, name: map<Value, nat>, name': map<Value, nat>, vs: seq<Value>)
    requires forall v | v in vs :: SnapValue(s, v)
    requires forall v | IsRef(s, v) :: v in name && v in name' && name'[v] == name[v]
    ensures NamesOf(name', vs) == NamesOf(name, vs)
  {}

  /** Assigning one field of one object. */
  lemma SetRepresents(s: Snap, name: map<Value, nat>, objs: seq<AObj>, s': Snap, r: Value, idx: nat, v: Value)
    requires SnapOk(s) && Represents(s, name, objs)
    requires IsRef(s, r) && SnapValue(s, v) && idx < |s.mem[r.addr].fields|
    requires SnapOk(s') && s'.young == s.young && s'.tenured == s.tenured
    requires forall x | x in s.young + s.tenured ::
               s'.mem[x] == if x == r.addr then s.mem[x].(fields := s.mem[x].fields[idx := v]) else s.mem[x]
    ensures name[r] < |objs| && idx < |objs[name[r]].fields|
    ensures var o := objs[name[r]];
            Represents(s', name, objs[name[r] := o.(fields := o.fields[idx := NameOf(name, v)])])
  {
    var o := objs[name[r]];
    var objs' := objs[name[r] := o.(fields := o.fields[idx := NameOf(name, v)])];
    forall w | IsRef(s', w)
      ensures w in name && name[w] < |objs'| && objs'[name[w]] == AObj(s'.mem[w.addr].kind, NamesOf(name, s'.mem[w.addr].fields))
    {
      assert IsRef(s, w);
      if w == r {
        assert NamesOf(name, s'.mem[w.addr].fields) == NamesOf(name, s.mem[w.addr].fields)[idx := NameOf(name, v)];
      } else {
        assert name[w] != name[r] && w.addr != r.addr;
      }
    }
    assert forall w | IsRef(s', w) :: IsRef(s, w);
  }

  lemma SameLiveRepresents(s: Snap, s': Snap, name: map<Value, nat>, objs: seq<AObj>)
    requires SnapOk(s) && Represents(s, name, objs) && SameLive(s, s')
    ensures SnapOk(s') && Represents(s', name, objs)
  {
    forall a | a in s.young + s.tenured ensures SnapObject(s', s'.mem[a]) {
      assert SnapObject(s, s.mem[a]);
    }
    assert SnapOk(s');
    forall v | IsRef(s', v)
      ensures v in name && name[v] < |objs|
      ensures objs[name[v]] == AObj(s'.mem[v.addr].kind, NamesOf(name, s'.mem[v.addr].fields))
    {
      assert IsRef(s, v);
    }
    forall v, w | IsRef(s', v) && IsRef(s', w) && name[v] == name[w] ensures v == w {
      assert IsRef(s, v) && IsRef(s, w);
    }
  }

  lemma AllocSnapOk(s: Snap, s': Snap, a: nat, o: Obj)
    requires SnapOk(s) && s.lo <= a && a + SizeOf(o.kind) <= s.hi && a !in s.mem
    requires s'.lo == s.lo && s'.hi == s.hi && s'.young == s.young + {a} && s'.tenured == s.tenured
    requires s'.frames == s.frames && s'.globals == s.globals && s'.mem == s.mem[a := o]
    requires WellFormed(o) && !o.marked && forall v | v in o.fields :: SnapValue(s, v)
    ensures SnapOk(s')
  {
    forall x | x in s.young + s.tenured ensures SnapObject(s', s'.mem[x]) {
      assert SnapObject(s, s.mem[x]);
    }
    forall i | 0 <= i < |o.fields| ensures SnapValue(s', o.fields[i]) {
      assert SnapValue(s, o.fields[i]);
    }
  }

  lemma AllocRoots(s: Snap, names: map<Value, nat>, objs: seq<AObj>, res: nat)
    requires SnapOk(s) && Represents(s, names, objs) && res !in s.young
    ensures FramesOf(names[Young(res) := |objs|], s.frames) == FramesOf(names, s.frames)
    ensures NamesOf(names[Young(res) := |objs|], s.globals) == NamesOf(names, s.globals)
  {
    var names' := names[Young(res) := |objs|];
    forall i | 0 <= i < |s.frames| ensures NamesOf(names', s.frames[i]) == NamesOf(names, s.frames[i]) {
      assert s.frames[i] in s.frames;
      SameNames(s, names, names', s.frames[i]);
    }
    SameNames(s, names, names', s.globals);
  }

  // ---------------------------------------------------------------------
  // The slow paths
  // ---------------------------------------------------------------------

  lemma AllIsClosed(s: Snap, m: Memory, origin: map<nat, nat>, v: Value)
    requires Tracing(s, m, origin, {}) && SnapValue(s, v)
    ensures Closed(s, s.young) && HoldsYoung({v}, s.young)
  {}

  lemma ForwardedFields(s: Snap, m: Memory, origin: map<nat, nat>, m': Memory, origin': map<nat, nat>,
                        reach: set<nat>, copies: int, vs0: seq<Value>, vs: seq<Value>)
    requires Progress(s, m, origin, m', origin', {}, reach, copies)
    requires forall v | v in vs0 :: SnapValue(s, v)
    requires CopiedFields(m, vs0, vs)
    ensures CopiedFields(m', vs0, vs)
  {}

  /** Tracing more objects leaves what has been promoted promoted. */
  lemma PromotedProgress(s: Snap, m: Memory, origin: map<nat, nat>, m': Memory, origin': map<nat, nat>,
                         reach: set<nat>, copies: int, frames: seq<seq<Value>>, globals: seq<Value>)
    requires Promoted(s, m, origin, frames, globals)
    requires Tracing(s, m', origin', {}) && Progress(s, m, origin, m', origin', {}, reach, copies)
    ensures Promoted(s, m', origin', frames, globals)
  {
    hide Progress, Tracing, CopiedFields;
    SnapFacts(s, m, origin);
    forall a | a in s.tenured
      ensures a in s.mem && a in m' && m'[a].kind == s.mem[a].kind && !m'[a].marked
      ensures CopiedFields(m', s.mem[a].fields, m'[a].fields)
    {
      ProgressKeeps(s, m, origin, m', origin', {}, reach, copies, a);
      ForwardedFields(s, m, origin, m', origin', reach, copies, s.mem[a].fields, m[a].fields);
    }
    forall i | 0 <= i < |frames| ensures CopiedFields(m', s.frames[i], frames[i]) {
      assert s.frames[i] in s.frames;
      ForwardedFields(s, m, origin, m', origin', reach, copies, s.frames[i], frames[i]);
    }
    ForwardedFields(s, m, origin, m', origin', reach, copies, s.globals, globals);
  }

  lemma SnapFacts(s: Snap, m: Memory, origin: map<nat, nat>)
    requires Tracing(s, m, origin, {})
    ensures SnapOk(s) && s.tenured <= m.Keys && s.tenured !! s.young
    ensures forall a | a in s.tenured :: forall v | v in s.mem[a].fields :: SnapValue(s, v)
  {}

  /** Arguments traced after the collection are live values of the new heap, with their old names. */
  lemma ArgumentsSettle(s: Snap, name: map<Value, nat>, objs: seq<AObj>, m: Memory, origin: map<nat, nat>,
                        frames: seq<seq<Value>>, globals: seq<Value>, vs0: seq<Value>, vs: seq<Value>)
    requires SnapOk(s) && Represents(s, name, objs)
    requires Promoted(s, m, origin, frames, globals)
    requires (forall v | v in vs0 :: SnapValue(s, v)) && CopiedFields(m, vs0, vs)
    ensures forall v | v in vs :: SnapValue(After(s, m, frames, globals), v)
    ensures NamesOf(Rename(s, name, m, origin), vs) == NamesOf(name, vs0)
  {
    ForwardedKeepNames(s, name, objs, m, origin, vs0, vs);
    ForwardedSettles(s, m, origin, vs0, vs);
    assert forall i | 0 <= i < |vs| :: Settled(s, m, vs[i]);
  }

  lemma SetSnapOk(s: Snap, s': Snap, a: nat, idx: nat, v: Value)
    requires SnapOk(s) && a in s.young + s.tenured && idx < |s.mem[a].fields| && SnapValue(s, v)
    requires s' == s.(mem := s.mem[a := s.mem[a].(fields := s.mem[a].fields[idx := v])])
    ensures SnapOk(s')
  {
    forall x | x in s.young + s.tenured ensures SnapObject(s', s'.mem[x]) {
      assert SnapObject(s, s.mem[x]);
      assert forall i | 0 <= i < |s.mem[x].fields| :: SnapValue(s, s.mem[x].fields[i]);
    }
  }

  lemma SetGlobalRepresents(s: Snap, name: map<Value, nat>, objs: seq<AObj>, g: nat, v: Value)
    requires SnapOk(s) && Represents(s, name, objs) && g < |s.globals| && SnapValue(s, v)
    ensures SnapOk(s.(globals := s.globals[g := v]))
    ensures Represents(s.(globals := s.globals[g := v]), name, objs)
    ensures NamesOf(name, s.globals[g := v]) == NamesOf(name, s.globals)[g := NameOf(name, v)]
  {
    var s' := s.(globals := s.globals[g := v]);
    forall x | x in s.young + s.tenured ensures SnapObject(s', s'.mem[x]) {
      assert SnapObject(s, s.mem[x]);
      assert forall i | 0 <= i < |s.mem[x].fields| :: SnapValue(s, s.mem[x].fields[i]);
    }
    SameLiveObjects(s, s', name, objs);
  }

  /** Roots do not matter to the representation of objects. */
  lemma SameLiveObjects(s: Snap, s': Snap, name: map<Value, nat>, objs: seq<AObj>)
    requires SnapOk(s) && Represents(s, name, objs) && SnapOk(s')
    requires s'.mem == s.mem && s'.young == s.young && s'.tenured == s.tenured
    ensures Represents(s', name, objs)
  {}

  lemma SetFrameRepresents(s: Snap, name: map<Value, nat>, objs: seq<AObj>, f: seq<Value>, rest: seq<seq<Value>>)
    requires SnapOk(s) && Represents(s, name, objs)
    requires forall v | v in f :: SnapValue(s, v)
    requires forall g | g in rest :: g in s.frames
    ensures SnapOk(s.(frames := [f] + rest)) && Represents(s.(frames := [f] + rest), name, objs)
    ensures SnapOk(s.(frames := rest)) && Represents(s.(frames := rest), name, objs)
  {
    var s1, s2 := s.(frames := [f] + rest), s.(frames := rest);
    forall x | x in s.young + s.tenured ensures SnapObject(s1, s.mem[x]) && SnapObject(s2, s.mem[x]) {
      assert SnapObject(s, s.mem[x]);
      assert forall i | 0 <= i < |s.mem[x].fields| :: SnapValue(s, s.mem[x].fields[i]);
    }
    SameLiveObjects(s, s1, name, objs);
    SameLiveObjects(s, s2, name, objs);
  }

  lemma ObjectFacts(s: Snap, name: map<Value, nat>, objs: seq<AObj>, r: Value)
    requires SnapOk(s) && Represents(s, name, objs) && IsRef(s, r)
    ensures r.addr in s.mem && r in name && name[r] < |objs|
    ensures objs[name[r]] == AObj(s.mem[r.addr].kind, NamesOf(name, s.mem[r.addr].fields))
    ensures forall v | v in s.mem[r.addr].fields :: SnapValue(s, v)
    ensures r.Young? <==> s.lo <= r.addr < s.hi
  {}

  /** The store after the word `p` is assigned. */
  ghost function Written(st: Store, name: map<Value, nat>, p: Slot, v: AValue): Store {
    match p
    case Field(a, i) =>
      if Old(a) in name && HasField(st, ARef(name[Old(a)]), i) then SetField(st, name[Old(a)], i, v) else st
    case Global(g) =>
      if g < |st.globals| then st.(globals := st.globals[g := v]) else st
  }

  lemma OneName(name: map<Value, nat>, v: Value)
    ensures NamesOf(name, [v]) == [NameOf(name, v)]
  {}

  /** A word outside the nursery survives a collection, and so does the name of its object. */
  lemma SlotSettles(s: Snap, name: map<Value, nat>, objs: seq<AObj>, m: Memory, origin: map<nat, nat>,
                    frames: seq<seq<Value>>, globals: seq<Value>, p: Slot)
    requires SnapOk(s) && Represents(s, name, objs)
    requires Promoted(s, m, origin, frames, globals)
    requires SlotIn(s, p)
    ensures p.Field? ==> p.addr in m && p.idx < |m[p.addr].fields|
    ensures p.Global? ==> p.g < |globals|
    ensures p.Field? ==> Old(p.addr) in name && Old(p.addr) in Rename(s, name, m, origin)
                         && Rename(s, name, m, origin)[Old(p.addr)] == name[Old(p.addr)]
  {
    if p.Field? {
      assert IsRef(s, Old(p.addr));
      assert p.addr !in origin;
    }
  }

  lemma FrameValues(s: Snap, f: nat)
    requires SnapOk(s) && f < |s.frames|
    ensures forall v | v in s.frames[f] :: SnapValue(s, v)
    ensures forall i | 0 <= i < |s.frames[f]| :: SnapValue(s, s.frames[f][i])
  {
    assert s.frames[f] in s.frames;
  }
}
