/** The graph before and after a collection, path by path. */
module SawGraph {
  import opened SawMemory

  /** The value reached from `v` by taking fields; a path that leaves the graph ends in Imm(0). */
  function Follow(m: Memory, v: Value, path: seq<nat>): Value
    decreases |path|
  {
    if path == [] then v
    else if v.Imm? || v.addr !in m || path[0] >= |m[v.addr].fields| then Imm(0)
    else Follow(m, m[v.addr].fields[path[0]], path[1..])
  }

  /** One step takes a field; longer paths are taken one after the other. */
  lemma {:induction false} FollowConcat(m: Memory, v: Value, p: seq<nat>, q: seq<nat>)
    ensures Follow(m, v, []) == v && Follow(m, Imm(0), q) == Imm(0)
    ensures Follow(m, v, p + q) == Follow(m, Follow(m, v, p), q)
    ensures !v.Imm? && v.addr in m && |p| == 1 && p[0] < |m[v.addr].fields| ==> Follow(m, v, p) == m[v.addr].fields[p[0]]
    decreases |p|
  {
    if p == [] {
      assert p + q == q;
    } else {
      assert (p + q)[1..] == p[1..] + q && (p + q)[0] == p[0];
      if !v.Imm? && v.addr in m && p[0] < |m[v.addr].fields| {
        FollowConcat(m, m[v.addr].fields[p[0]], p[1..], q);
      }
    }
  }

  /** A promoted object has the kind of its original, and its fields forwarded. */
  lemma ForwardedObject(s: Snap, m: Memory, origin: map<nat, nat>, frames: seq<seq<Value>>, globals: seq<Value>,
                        v0: Value, v: Value)
    requires Promoted(s, m, origin, frames, globals)
    requires SnapValue(s, v0) && Forwarded(m, v0, v) && !v0.Imm?
    ensures v.Old? && v.addr in m && v0.addr in s.mem && v.addr !in s.young
    ensures m[v.addr].kind == s.mem[v0.addr].kind && CopiedFields(m, s.mem[v0.addr].fields, m[v.addr].fields)
    ensures SnapObject(s, s.mem[v0.addr])
  {}

  /** Every path leads to the promoted form of what it led to. */
  lemma {:induction false} PathsAreForwarded(s: Snap, m: Memory, origin: map<nat, nat>, frames: seq<seq<Value>>, globals: seq<Value>,
                                             v0: Value, v: Value, path: seq<nat>)
    requires Promoted(s, m, origin, frames, globals)
    requires SnapValue(s, v0) && Forwarded(m, v0, v)
    ensures SnapValue(s, Follow(s.mem, v0, path))
    ensures Forwarded(m, Follow(s.mem, v0, path), Follow(m, v, path))
    decreases |path|
  {
    if path != [] && !v0.Imm? {
      hide Promoted;
      ForwardedObject(s, m, origin, frames, globals, v0, v);
      if path[0] < |m[v.addr].fields| {
        PathsAreForwarded(s, m, origin, frames, globals,
                          s.mem[v0.addr].fields[path[0]], m[v.addr].fields[path[0]], path[1..]);
      }
    }
  }

  /** Forwarding is injective: distinct objects stay distinct. */
  lemma ForwardedInjective(s: Snap, m: Memory, origin: map<nat, nat>, v0: Value, w0: Value, v: Value)
    requires Tracing(s, m, origin, {})
    requires SnapValue(s, v0) && SnapValue(s, w0)
    requires Forwarded(m, v0, v) && Forwarded(m, w0, v)
    ensures v0 == w0
  {}

  /** The promoted graph is isomorphic to the one before: two paths meet afterwards exactly
      when they met before, whatever sharing and cycles they run through. */
  lemma GraphIsIsomorphic(s: Snap, m: Memory, origin: map<nat, nat>, frames: seq<seq<Value>>, globals: seq<Value>,
                          v0: Value, v: Value, p: seq<nat>, w0: Value, w: Value, q: seq<nat>)
    requires Promoted(s, m, origin, frames, globals)
    requires SnapValue(s, v0) && Forwarded(m, v0, v)
    requires SnapValue(s, w0) && Forwarded(m, w0, w)
    ensures Follow(s.mem, v0, p) == Follow(s.mem, w0, q) <==> Follow(m, v, p) == Follow(m, w, q)
    ensures !Follow(m, v, p).Young?
  {
    PathsAreForwarded(s, m, origin, frames, globals, v0, v, p);
    PathsAreForwarded(s, m, origin, frames, globals, w0, w, q);
    if Follow(m, v, p) == Follow(m, w, q) {
      ForwardedInjective(s, m, origin, Follow(s.mem, v0, p), Follow(s.mem, w0, q), Follow(m, v, p));
    }
  }
}
