/** The process table (runtime/Clib/cprocess.c, the Unix build); waitpid is an oracle. */
module ProcessTable {

  /** What waitpid says of a process without waiting. */
  datatype Wait = Running | Terminated(info: int) | WaitError

  class Process {
    /** The slot in the table, -1 when in none. */
    var index: int
    var pid: int
    var exited: bool
    var exitStatus: int

    constructor ()
      ensures pid == 0 && !exited && exitStatus == 0 && index == 0
    {
      index, pid, exited, exitStatus := 0, 0, false, 0;
    }
  }

  class Table {
    const max: nat
    const procArr: array<Process?>
    var firstFreeIndex: nat
    /** The processes ever made. */
    ghost var all: set<Process>

    /** `firstFreeIndex` is the least free slot, or the size of the table, and a process is in
        the table exactly at the slot that its index names. */
    ghost predicate Valid()
      reads this, procArr, all
    {
      && procArr.Length == max && firstFreeIndex <= max
      && (forall i | 0 <= i < firstFreeIndex :: procArr[i] != null)
      && (firstFreeIndex < max ==> procArr[firstFreeIndex] == null)
      && (forall i | 0 <= i < max && procArr[i] != null :: procArr[i] in all && procArr[i].index == i)
      && (forall p | p in all && p.index != -1 :: 0 <= p.index < max && procArr[p.index] == p)
    }

    /** bgl_init_process_table. */
    constructor (max: nat)
      ensures Valid() && this.max == max && all == {} && fresh(procArr)
      ensures forall i | 0 <= i < max :: procArr[i] == null
    {
      this.max := max;
      procArr := new Process?[max](_ => null);
      firstFreeIndex := 0;
      all := {};
    }

    /** c_unregister_process_with_lock. `wild` tells that the process was in no slot: the source
        then writes to the word before the table, and this model stops. */
    method Unregister(proc: Process) returns (wild: bool)
      requires Valid() && proc in all
      modifies this`firstFreeIndex, procArr, proc`index
      ensures Valid() && proc.index == -1
      ensures wild <==> forall i | 0 <= i < max :: old(procArr[i]) != proc
      ensures wild ==> procArr[..] == old(procArr[..]) && firstFreeIndex == old(firstFreeIndex)
      ensures !wild ==> procArr[..] == old(procArr[..])[old(proc.index) := null]
    {
      if proc.index == -1 {
        return true;
      }
      wild := false;
      ghost var i := proc.index;
      procArr[proc.index] := null;
      if proc.index < firstFreeIndex {
        firstFreeIndex := proc.index;
      }
      proc.index := -1;
      assert procArr[..] == old(procArr[..])[i := null];
    }

    /** The processes that c_process_alivep would find terminated. */
    predicate Dead(proc: Process, wait: Wait)
      reads proc
    {
      !proc.exited && proc.pid != 0 && wait.Terminated?
    }

    /** c_process_alivep_with_lock: a process found terminated leaves the table. */
    method AliveP(proc: Process, wait: Wait) returns (alive: bool)
      requires Valid() && proc in all
      modifies this`firstFreeIndex, procArr, proc
      ensures Valid()
      ensures alive <==> old(!proc.exited && proc.pid != 0) && wait.Running?
      ensures if old(Dead(proc, wait))
              then proc.exited && proc.exitStatus == wait.info && proc.index == -1
              else proc.exited == old(proc.exited) && proc.exitStatus == old(proc.exitStatus) && proc.index == old(proc.index)
      ensures proc.pid == old(proc.pid)
      ensures procArr[..] == if old(Dead(proc, wait) && proc.index != -1) then old(procArr[..])[old(proc.index) := null]
                             else old(procArr[..])
    {
      if proc.exited || proc.pid == 0 {
        return false;
      }
      match wait {
        case Running => return true;
        case WaitError => return false;
        case Terminated(info) =>
          proc.exited := true;
          if proc.index != -1 {
            var wild := Unregister(proc);
            assert !wild;
          }
          proc.exitStatus := info;
          return false;
      }
    }

    /** What a purge does to a process: one that is in the table and found terminated leaves it, its
        status recorded, and any other stays as it is. */
    twostate predicate Purged(proc: Process, waits: seq<Wait>)
      reads proc
    {
      && proc.pid == old(proc.pid)
      && if 0 <= old(proc.index) < |waits| && old(Dead(proc, waits[proc.index]))
         then proc.exited && proc.exitStatus == waits[old(proc.index)].info && proc.index == -1
         else proc.exited == old(proc.exited) && proc.exitStatus == old(proc.exitStatus) && proc.index == old(proc.index)
    }

    /** purge_process_table: the slots of terminated processes become free, and no others. */
    method Purge(waits: seq<Wait>)
      requires Valid() && |waits| == max
      modifies this`firstFreeIndex, procArr, all
      ensures Valid() && forall p | p in all :: Purged(p, waits)
      ensures forall i | 0 <= i < max ::
                procArr[i] == if old(procArr[i]) != null && old(Dead(procArr[i], waits[i])) then null else old(procArr[i])
    {
      for i := 0 to max
        invariant Valid()
        invariant forall j | i <= j < max :: procArr[j] == old(procArr[j])
        invariant forall p | p in all :: if 0 <= old(p.index) < i then Purged(p, waits)
                                         else p.exited == old(p.exited) && p.exitStatus == old(p.exitStatus)
                                              && p.pid == old(p.pid) && p.index == old(p.index)
        invariant forall j | 0 <= j < i ::
                    procArr[j] == if old(procArr[j]) != null && old(Dead(procArr[j], waits[j])) then null else old(procArr[j])
      {
        var proc := procArr[i];
        if proc != null {
          ghost var before := procArr[..];
          var alive := AliveP(proc, waits[i]);
          assert forall j | 0 <= j < max :: procArr[j] == procArr[..][j];
        }
      }
    }

    /** The registration in make_process, with the scan for the next free slot. */
    method Register(aProc: Process)
      requires Valid() && firstFreeIndex < max && aProc !in all
      modifies this, procArr, aProc`index
      ensures Valid() && all == old(all) + {aProc} && aProc.index == old(firstFreeIndex)
      ensures procArr[..] == old(procArr[..])[old(firstFreeIndex) := aProc]
    {
      aProc.index := firstFreeIndex;
      procArr[firstFreeIndex] := aProc;
      all := all + {aProc};
      while firstFreeIndex < max && procArr[firstFreeIndex] != null
        invariant firstFreeIndex <= max
        invariant forall i | 0 <= i < firstFreeIndex :: procArr[i] != null
        modifies this`firstFreeIndex
      {
        firstFreeIndex := firstFreeIndex + 1;
      }
    }

    /** make_process. It fails only when every slot is taken and the purge frees none; a new
        process gets the least slot that is free, and no process that is still in the table loses its own. */
    method MakeProcess(waits: seq<Wait>) returns (proc: Process?)
      requires Valid() && |waits| == max
      modifies this, procArr, all
      ensures Valid()
      ensures proc == null <==> forall i | 0 <= i < max :: old(procArr[i]) != null && !old(Dead(procArr[i], waits[i]))
      ensures proc == null ==> forall i | 0 <= i < max :: procArr[i] == old(procArr[i])
      ensures proc != null ==> fresh(proc) && all == old(all) + {proc} && 0 <= proc.index < max && procArr[proc.index] == proc
      ensures proc != null ==> forall i | 0 <= i < proc.index :: procArr[i] != null && procArr[i] == old(procArr[i])
      ensures proc != null ==>
                var purged := old(firstFreeIndex == max);
                forall i | 0 <= i < max && i != proc.index ::
                  procArr[i] == if purged && old(procArr[i]) != null && old(Dead(procArr[i], waits[i])) then null else old(procArr[i])
      ensures proc != null ==> proc.pid == 0 && !proc.exited && proc.exitStatus == 0
      ensures forall p | p in old(all) :: if old(firstFreeIndex == max) then Purged(p, waits)
                else p.exited == old(p.exited) && p.exitStatus == old(p.exitStatus) && p.pid == old(p.pid) && p.index == old(p.index)
      ensures proc != null ==> forall i | 0 <= i < max && i == proc.index ::
                                 old(procArr[i]) == null || old(Dead(procArr[i], waits[i]))
    {
      var aProc := new Process();
      if firstFreeIndex == max {
        Purge(waits);
      }
      if firstFreeIndex == max {
        return null;
      }
      Register(aProc);
      assert forall i | 0 <= i < max :: procArr[i] == procArr[..][i];
      return aProc;
    }
  }
}
