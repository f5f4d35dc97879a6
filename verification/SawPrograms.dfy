/** What programs read in the collected heap, whatever collections they trigger. */
module SawPrograms {
  import opened SawMemory
  import opened SawStore
  import opened SawCollector
  import opened SawLaws

  /** Live values of one name are one value. */
  lemma OneNameOneValue(saw: Saw, v: Value, w: Value)
    requires saw.Valid() && saw.Live(v) && saw.Live(w) && NameOf(saw.name, v) == NameOf(saw.name, w)
    ensures v == w
  {
    saw.FieldsAgree(v);
    saw.FieldsAgree(w);
  }

  /** Two locals that are one value in the store are one value in the heap. */
  lemma SameLocals(saw: Saw, j: nat, k: nat)
    requires saw.Valid() && j < |Top(saw.View())| && k < |Top(saw.View())|
    requires Top(saw.View())[j] == Top(saw.View())[k]
    ensures saw.frames != [] && j < |saw.frames[0]| && k < |saw.frames[0]| && saw.frames[0][j] == saw.frames[0][k]
  {
    assert |saw.View().frames| == |saw.frames|;
    saw.FrameSize();
    saw.LocalFacts(j);
    saw.LocalFacts(k);
    OneNameOneValue(saw, saw.frames[0][j], saw.frames[0][k]);
  }

  /** After any program, a field reads as it has just been assigned: the very value that was
      assigned, wherever collections have moved it, and all else reads as before. */
  method SetAndGet(saw: Saw, cs: seq<Cmd>, src: nat, idx: nat, val: nat, dst: nat)
    requires saw.Valid()
    modifies saw
    ensures saw.Valid()
    ensures var st := Run(old(saw.View()), cs);
            src < |Top(st)| && val < |Top(st)| && dst < |Top(st)| && HasField(st, Top(st)[src], idx) ==>
              && ReadsAs(st, saw.View(), {dst}, {}, {(Top(st)[src].id, idx)}) && |saw.View().objs| == |st.objs|
              && Top(saw.View())[dst] == Top(st)[val]
              && (dst != val ==> saw.frames != [] && dst < |saw.frames[0]| && val < |saw.frames[0]| && saw.frames[0][dst] == saw.frames[0][val])
  {
    hide Saw.Valid, Saw.View, Step, Run;
    ghost var v0 := saw.View();
    ghost var st := Run(v0, cs);
    var set', get := Set(src, idx, val), Get(dst, src, idx);
    RunThenTwo(v0, cs, set', get);
    saw.RunProgram(cs + [set', get]);
    if src < |Top(st)| && val < |Top(st)| && dst < |Top(st)| && HasField(st, Top(st)[src], idx) {
      SetThenGet(st, src, idx, val, dst);
      OnlyWhatTheyName(st, set', get);
      if dst != val { SameLocals(saw, dst, val); }
    }
  }

  /** After any program, a new object reads as the values it was made of, in order, and all
      else reads as before. */
  method AllocAndGet(saw: Saw, cs: seq<Cmd>, c: Cmd, i: nat, to: nat)
    requires saw.Valid() && (c.Cons? || c.Econs? || c.Box?)
    modifies saw
    ensures saw.Valid()
    ensures var st := Run(old(saw.View()), cs);
            Allocates(st, c) && to < |Top(st)| && i < |Operands(c)| ==>
              var op := Operands(c)[i];
              && ReadsAs(st, saw.View(), {c.dst, to}, {}, {}) && |saw.View().objs| == |st.objs| + 1
              && Top(saw.View())[to] == Top(st)[op]
              && (op != to && op != c.dst ==> saw.frames != [] && op < |saw.frames[0]| && to < |saw.frames[0]| && saw.frames[0][to] == saw.frames[0][op])
  {
    hide Saw.Valid, Saw.View, Step, Run;
    ghost var v0 := saw.View();
    ghost var st := Run(v0, cs);
    var get := Get(to, c.dst, i);
    RunThenTwo(v0, cs, c, get);
    saw.RunProgram(cs + [c, get]);
    if Allocates(st, c) && to < |Top(st)| && i < |Operands(c)| {
      var op := Operands(c)[i];
      Allocated(st, c);
      AllocThenGet(st, c, i, to);
      OnlyWhatTheyName(st, c, get);
      if op != to && op != c.dst { SameLocals(saw, to, op); }
    }
  }

  /** After any program, a global reads as it has just been assigned, and all else reads as before. */
  method SetAndGetGlobal(saw: Saw, cs: seq<Cmd>, g: nat, val: nat, dst: nat)
    requires saw.Valid()
    modifies saw
    ensures saw.Valid()
    ensures var st := Run(old(saw.View()), cs);
            val < |Top(st)| && dst < |Top(st)| && g < |st.globals| ==>
              && ReadsAs(st, saw.View(), {dst}, {g}, {}) && |saw.View().objs| == |st.objs|
              && Top(saw.View())[dst] == Top(st)[val]
              && (dst != val ==> saw.frames != [] && dst < |saw.frames[0]| && val < |saw.frames[0]| && saw.frames[0][dst] == saw.frames[0][val])
  {
    hide Saw.Valid, Saw.View, Step, Run;
    ghost var v0 := saw.View();
    ghost var st := Run(v0, cs);
    var set', get := SetGlobal(g, val), GetGlobal(dst, g);
    RunThenTwo(v0, cs, set', get);
    saw.RunProgram(cs + [set', get]);
    if val < |Top(st)| && dst < |Top(st)| && g < |st.globals| {
      SetGlobalThenGet(st, g, val, dst, g);
      OnlyWhatTheyName(st, set', get);
      if dst != val { SameLocals(saw, dst, val); }
    }
  }

  /** After any program, a call returns to the caller's frames, whatever the callee does. */
  method CallAndReturn(saw: Saw, cs: seq<Cmd>, n: nat, callee: seq<Cmd>)
    requires saw.Valid() && Balanced(callee)
    modifies saw
    ensures saw.Valid() && saw.View().frames == Run(old(saw.View()), cs).frames
    ensures callee == [] ==> saw.View() == Run(old(saw.View()), cs)
  {
    hide Saw.Valid, Saw.View, Step, Run;
    ghost var v0 := saw.View();
    var call := [Enter(n)] + callee + [Leave];
    RunConcat(v0, cs, call);
    CallRestores(Run(v0, cs), n, callee);
    if callee == [] {
      assert cs + call == cs + [Enter(n), Leave];
      RunThenTwo(v0, cs, Enter(n), Leave);
      EnterThenLeave(Run(v0, cs), n);
    }
    saw.RunProgram(cs + call);
  }

  /** From the start no program makes a reference to nowhere, and what it allocates next is
      none of the values that it can read. */
  method NewIsNew(heap: nat, size: nat, globalCount: nat, cs: seq<Cmd>, c: Cmd) returns (saw: Saw)
    requires SizeOf(Epair) < size - OBJ_SIZE
    ensures saw.Valid() && NoneDangling(saw.View())
    ensures var st := Run(Store([], [], seq(globalCount, _ => AImm(0))), cs);
            NoneDangling(st) && (Allocates(st, c) ==> c.dst < |Top(saw.View())| && !Known(st, Top(saw.View())[c.dst]))
  {
    hide Saw.Valid, Saw.View;
    saw := new Saw(heap, size, globalCount);
    ghost var v0 := saw.View();
    RunCloses(v0, cs);
    RunCloses(v0, cs + [c]);
    RunConcat(v0, cs, [c]);
    assert [c][..0] == [] && Run(Run(v0, cs), [c]) == Step(Run(v0, cs), c);
    saw.RunProgram(cs + [c]);
    if Allocates(Run(v0, cs), c) { Allocated(Run(v0, cs), c); }
  }
}
