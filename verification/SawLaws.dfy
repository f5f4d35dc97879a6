/** What the mutator's commands do, told by what can be read afterwards. */
module SawLaws {
  import opened SawMemory
  import opened SawStore

  // ---------------------------------------------------------------------
  // References
  // ---------------------------------------------------------------------

  predicate Known(st: Store, v: AValue) {
    v.ARef? ==> v.id < |st.objs|
  }

  /** Every reference that can be read is to an object of the store. */
  predicate NoneDangling(st: Store) {
    && (forall f | f in st.frames :: forall v | v in f :: Known(st, v))
    && (forall v | v in st.globals :: Known(st, v))
    && (forall o | o in st.objs :: forall v | v in o.fields :: Known(st, v))
  }

  // ---------------------------------------------------------------------
  // What stays
  // ---------------------------------------------------------------------

  /** The slot that a command assigns, if it assigns one. */
  function Locals(c: Cmd): set<nat> {
    if c.Set? || c.SetGlobal? || c.Enter? || c.Leave? then {} else {c.dst}
  }

  function Globals(c: Cmd): set<nat> {
    if c.SetGlobal? then {c.g} else {}
  }

  /** The field that a command assigns, if it assigns one: the object and the index. */
  function Fields(st: Store, c: Cmd): set<(nat, nat)> {
    if c.Set? && c.src < |Top(st)| && Top(st)[c.src].ARef? then {(Top(st)[c.src].id, c.idx)} else {}
  }

  /** `t` reads as `st` does, except possibly in these locals, globals and fields; it may have
      more objects. */
  predicate ReadsAs(st: Store, t: Store, locals: set<nat>, globals: set<nat>, fields: set<(nat, nat)>) {
    && |t.frames| == |st.frames| && |Top(t)| == |Top(st)| && |t.globals| == |st.globals|
    && (forall i | 1 <= i < |st.frames| :: t.frames[i] == st.frames[i])
    && (forall k | 0 <= k < |Top(st)| && k !in locals :: Top(t)[k] == Top(st)[k])
    && (forall k | 0 <= k < |st.globals| && k !in globals :: t.globals[k] == st.globals[k])
    && |st.objs| <= |t.objs|
    && (forall o | 0 <= o < |st.objs| :: t.objs[o].kind == st.objs[o].kind && |t.objs[o].fields| == |st.objs[o].fields|)
    && (forall o, i | 0 <= o < |st.objs| && 0 <= i < |st.objs[o].fields| && (o, i) !in fields ::
          t.objs[o].fields[i] == st.objs[o].fields[i])
  }

  lemma ReadsAsTrans(st: Store, t: Store, u: Store, l: set<nat>, l': set<nat>, g: set<nat>, g': set<nat>,
                     f: set<(nat, nat)>, f': set<(nat, nat)>)
    requires ReadsAs(st, t, l, g, f) && ReadsAs(t, u, l', g', f')
    ensures ReadsAs(st, u, l + l', g + g', f + f')
  {}

  /** A command other than Enter and Leave changes nothing but what it names. */
  lemma OnlyWhatItNames(st: Store, c: Cmd)
    requires !c.Enter? && !c.Leave?
    ensures ReadsAs(st, Step(st, c), Locals(c), Globals(c), Fields(st, c))
    ensures !c.Cons? && !c.Econs? && !c.Box? ==> |Step(st, c).objs| == |st.objs|
  {}

  /** Two commands. */
  lemma OnlyWhatTheyName(st: Store, c: Cmd, d: Cmd)
    requires !c.Enter? && !c.Leave? && !d.Enter? && !d.Leave?
    ensures ReadsAs(st, Step(Step(st, c), d), Locals(c) + Locals(d), Globals(c) + Globals(d), Fields(st, c) + Fields(Step(st, c), d))
    ensures !d.Cons? && !d.Econs? && !d.Box? ==> |Step(Step(st, c), d).objs| == |Step(st, c).objs|
    ensures !c.Cons? && !c.Econs? && !c.Box? ==> |Step(st, c).objs| == |st.objs|
  {
    OnlyWhatItNames(st, c);
    OnlyWhatItNames(Step(st, c), d);
    ReadsAsTrans(st, Step(st, c), Step(Step(st, c), d), Locals(c), Locals(d), Globals(c), Globals(d), Fields(st, c), Fields(Step(st, c), d));
  }

  // ---------------------------------------------------------------------
  // What is read
  // ---------------------------------------------------------------------

  /** A field reads as it was last assigned. */
  lemma SetThenGet(st: Store, src: nat, idx: nat, val: nat, dst: nat)
    requires src < |Top(st)| && val < |Top(st)| && dst < |Top(st)| && HasField(st, Top(st)[src], idx)
    ensures Top(Step(Step(st, Set(src, idx, val)), Get(dst, src, idx)))[dst] == Top(st)[val]
  {}

  /** Any other field reads as before. */
  lemma SetThenGetOther(st: Store, src: nat, idx: nat, val: nat, dst: nat, src': nat, idx': nat)
    requires src' < |Top(st)| && dst < |Top(st)|
    requires Top(st)[src'].ARef? ==> (Top(st)[src'].id, idx') !in Fields(st, Set(src, idx, val))
    ensures Top(Step(Step(st, Set(src, idx, val)), Get(dst, src', idx')))[dst] == Top(Step(st, Get(dst, src', idx')))[dst]
  {}

  /** A global reads as it was last assigned. */
  lemma SetGlobalThenGet(st: Store, g: nat, val: nat, dst: nat, g': nat)
    requires val < |Top(st)| && dst < |Top(st)| && g < |st.globals| && g' < |st.globals|
    ensures Top(Step(Step(st, SetGlobal(g, val)), GetGlobal(dst, g')))[dst]
            == if g' == g then Top(st)[val] else Top(Step(st, GetGlobal(dst, g')))[dst]
  {}

  /** The operands of an allocating command, in the order of the fields. */
  function Operands(c: Cmd): seq<nat> {
    match c
    case Cons(_, a, d) => [a, d]
    case Econs(_, a, d, e) => [a, d, e]
    case Box(_, v) => [v]
    case _ => []
  }

  /** The store after an allocating command whose operands are there. */
  predicate Allocates(st: Store, c: Cmd) {
    && (c.Cons? || c.Econs? || c.Box?) && c.dst < |Top(st)|
    && forall i | 0 <= i < |Operands(c)| :: Operands(c)[i] < |Top(st)|
  }

  lemma Allocated(st: Store, c: Cmd)
    requires Allocates(st, c)
    ensures |Step(st, c).objs| == |st.objs| + 1 && Top(Step(st, c))[c.dst] == ARef(|st.objs|)
    ensures var fields := Step(st, c).objs[|st.objs|].fields;
            |fields| == |Operands(c)| && forall i | 0 <= i < |fields| :: fields[i] == Top(st)[Operands(c)[i]]
  {
    var ops := Operands(c);
    assert |ops| > 0 && ops[0] < |Top(st)|;
    if c.Cons? || c.Econs? { assert ops[1] < |Top(st)|; }
    if c.Econs? { assert ops[2] < |Top(st)|; }
  }

  /** A new object reads as its operands, in order, and has no more fields than those. */
  lemma AllocThenGet(st: Store, c: Cmd, i: nat, to: nat)
    requires Allocates(st, c) && to < |Top(st)| && i < |Operands(c)|
    ensures Top(Step(Step(st, c), Get(to, c.dst, i)))[to] == Top(st)[Operands(c)[i]]
    ensures !HasField(Step(st, c), Top(Step(st, c))[c.dst], |Operands(c)|)
  {
    Allocated(st, c);
  }

  /** It is no object that could be read before. */
  lemma AllocIsNew(st: Store, c: Cmd, v: AValue)
    requires Allocates(st, c) && Known(st, v)
    ensures Top(Step(st, c))[c.dst].ARef? && Top(Step(st, c))[c.dst] != v
  {
    Allocated(st, c);
  }

  /** A frame is entered empty, and leaving it restores all there was. */
  lemma EnterThenLeave(st: Store, n: nat)
    ensures Step(Step(st, Enter(n)), Leave) == st
    ensures |Top(Step(st, Enter(n)))| == n && forall k | 0 <= k < n :: Top(Step(st, Enter(n)))[k] == AImm(0)
  {}

  /** A literal reads as it was assigned. */
  lemma LiteralThenRead(st: Store, dst: nat, n: int)
    requires dst < |Top(st)|
    ensures Top(Step(st, Literal(dst, n)))[dst] == AImm(n)
  {}

  lemma AssignCloses(st: Store, dst: nat, v: AValue)
    requires NoneDangling(st) && dst < |Top(st)| && Known(st, v)
    ensures NoneDangling(Assign(st, dst, v))
  {
    var t := Assign(st, dst, v);
    assert forall w :: Known(st, w) <==> Known(t, w);
    forall f, w | f in t.frames && w in f ensures Known(t, w) {
      assert Top(st) in st.frames;
      assert f in st.frames || f == Top(st)[dst := v];
    }
  }

  lemma AllocCloses(st: Store, dst: nat, kind: Kind, fields: seq<AValue>)
    requires NoneDangling(st) && dst < |Top(st)| && forall v | v in fields :: Known(st, v)
    ensures NoneDangling(Alloc(st, dst, kind, fields))
  {
    var t := st.(objs := st.objs + [AObj(kind, fields)]);
    assert forall v :: Known(st, v) ==> Known(t, v);
    AssignCloses(t, dst, ARef(|st.objs|));
  }

  lemma SetCloses(st: Store, id: nat, idx: nat, v: AValue)
    requires NoneDangling(st) && id < |st.objs| && idx < |st.objs[id].fields| && Known(st, v)
    ensures NoneDangling(SetField(st, id, idx, v))
  {
    var t := SetField(st, id, idx, v);
    assert forall w :: Known(st, w) <==> Known(t, w);
    forall o, w | o in t.objs && w in o.fields ensures Known(t, w) {
      assert st.objs[id] in st.objs;
      assert o in st.objs || o.fields == st.objs[id].fields[idx := v];
    }
  }

  lemma EnterCloses(st: Store, n: nat)
    requires NoneDangling(st)
    ensures NoneDangling(Step(st, Enter(n)))
  {
    var t := Step(st, Enter(n));
    assert forall w :: Known(st, w) <==> Known(t, w);
    forall f, w | f in t.frames && w in f ensures Known(t, w) {
      assert f in st.frames || f == seq(n, _ => AImm(0));
    }
  }

  /** No command makes a reference to nowhere. */
  lemma StepCloses(st: Store, c: Cmd)
    requires NoneDangling(st)
    ensures NoneDangling(Step(st, c))
  {
    hide Alloc, Assign;
    var f, t := Top(st), Step(st, c);
    assert forall k | 0 <= k < |f| :: f in st.frames && f[k] in f;
    assert forall v :: Known(st, v) ==> v.ARef? ==> v.id < |st.objs|;
    match c {
      case Cons(dst, a, d) => if t != st { AllocCloses(st, dst, Pair, [f[a], f[d]]); }
      case Econs(dst, a, d, e) => if t != st { AllocCloses(st, dst, Epair, [f[a], f[d], f[e]]); }
      case Box(dst, v) => if t != st { AllocCloses(st, dst, Cell, [f[v]]); }
      case Get(dst, src, idx) =>
        if t != st {
          var o := st.objs[f[src].id];
          assert o in st.objs && o.fields[idx] in o.fields;
          AssignCloses(st, dst, o.fields[idx]);
        }
      case GetGlobal(dst, g) => if t != st { AssignCloses(st, dst, st.globals[g]); }
      case Literal(dst, n) => if t != st { AssignCloses(st, dst, AImm(n)); }
      case Set(src, idx, val) => if t != st { SetCloses(st, f[src].id, idx, f[val]); }
      case SetGlobal(g, val) =>
        assert forall v :: Known(st, v) <==> Known(t, v);
        assert t.globals == st.globals || t.globals == st.globals[g := f[val]];
        assert forall v | v in t.globals :: v in st.globals || (val < |f| && v == f[val]);
      case Enter(size) => EnterCloses(st, size);
      case Leave =>
        assert forall v :: Known(st, v) <==> Known(t, v);
        assert forall g | g in t.frames :: g in st.frames;
    }
  }

  // ---------------------------------------------------------------------
  // Programs
  // ---------------------------------------------------------------------

  /** Two programs run one after the other. */
  lemma {:induction false} RunConcat(st: Store, a: seq<Cmd>, b: seq<Cmd>)
    ensures Run(st, a + b) == Run(Run(st, a), b)
    decreases |b|
  {
    if b == [] {
      assert a + b == a;
    } else {
      assert (a + b)[..|a + b| - 1] == a + b[..|b| - 1];
      RunConcat(st, a, b[..|b| - 1]);
    }
  }

  /** A program that ends in two commands. */
  lemma RunThenTwo(st: Store, cs: seq<Cmd>, c: Cmd, d: Cmd)
    ensures Run(st, cs + [c, d]) == Step(Step(Run(st, cs), c), d)
  {
    RunConcat(st, cs, [c, d]);
    var st' := Run(st, cs);
    assert [c][..0] == [] && Run(st', [c]) == Step(st', c);
    assert [c, d][..1] == [c] && Run(st', [c, d]) == Step(Run(st', [c]), d);
  }

  lemma {:induction false} RunCloses(st: Store, cs: seq<Cmd>)
    requires NoneDangling(st)
    ensures NoneDangling(Run(st, cs))
  {
    if cs != [] {
      RunCloses(st, cs[..|cs| - 1]);
      StepCloses(Run(st, cs[..|cs| - 1]), cs[|cs| - 1]);
    }
  }

  // ---------------------------------------------------------------------
  // Calls
  // ---------------------------------------------------------------------

  /** By how much a command changes the number of frames. */
  function Delta(c: Cmd): int {
    if c.Enter? then 1 else if c.Leave? then -1 else 0
  }

  /** How many more frames are entered than left. */
  function Depth(cs: seq<Cmd>): int {
    if cs == [] then 0 else Depth(cs[..|cs| - 1]) + Delta(cs[|cs| - 1])
  }

  /** A command keeps the frames under the innermost one. */
  lemma FramesKept(st: Store, c: Cmd, j: nat)
    requires 1 <= j <= |st.frames|
    ensures |Step(st, c).frames| == |st.frames| + Delta(c) && Step(st, c).frames[j + Delta(c)..] == st.frames[j..]
  {
    if !c.Enter? && !c.Leave? { OnlyWhatItNames(st, c); hide Step; }
  }

  /** A program that leaves all frames it enters, and no others. */
  predicate Balanced(cs: seq<Cmd>) {
    Depth(cs) == 0 && forall i | 0 <= i <= |cs| :: Depth(cs[..i]) >= 0
  }

  /** A program that leaves no more frames than it enters keeps all but the innermost frame. */
  lemma {:induction false} CallerKept(st: Store, cs: seq<Cmd>)
    requires st.frames != [] && forall i | 0 <= i <= |cs| :: Depth(cs[..i]) >= 0
    ensures |Run(st, cs).frames| == |st.frames| + Depth(cs)
    ensures Depth(cs) >= 0 && Run(st, cs).frames[Depth(cs) + 1..] == st.frames[1..]
  {
    hide Step, Delta;
    assert cs[..|cs|] == cs;
    if cs != [] {
      var n := |cs| - 1;
      assert forall i | 0 <= i <= n :: cs[..n][..i] == cs[..i];
      CallerKept(st, cs[..n]);
      FramesKept(Run(st, cs[..n]), cs[n], Depth(cs[..n]) + 1);
    }
  }

  /** A call: whatever the callee does, the caller has its frames back. */
  lemma CallRestores(st: Store, n: nat, cs: seq<Cmd>)
    requires Balanced(cs)
    ensures Run(st, [Enter(n)] + cs + [Leave]).frames == st.frames
  {
    var st' := Step(st, Enter(n));
    CallerKept(st', cs);
    assert cs[..|cs|] == cs && [Enter(n)][..0] == [] && [Leave][..0] == [];
    assert Run(st, [Enter(n)]) == st';
    RunConcat(st, [Enter(n)], cs);
    RunConcat(st, [Enter(n)] + cs, [Leave]);
    assert Run(Run(st', cs), [Leave]) == Step(Run(st', cs), Leave);
  }
}
