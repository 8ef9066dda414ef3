/**
  The least-loaded placement policy: a filter over the VM pool followed by an
  argmin on the host machines' active task counts, ties going to the lowest
  pool index.
 */
module Placement {
  import opened Wrappers
  import opened Types

  /** One pool entry as a placement decision sees it: the VM and its host machine. */
  datatype Candidate = Candidate(vm: VMInfo, host: MachineInfo)

  /** The host's active task count, the quantity least-loaded placement minimises. */
  function Load(c: Candidate): u32
  {
    c.host.activeTasks
  }

  /**
    The memory check as the source writes it: an unsigned 32-bit sum compared
    with the capacity, so a sum past UINT_MAX wraps around before the comparison.
   */
  function FitsAsWritten(used: u32, need: u32, size: u32): (ok: bool)
    ensures used + need <= UINT_MAX ==> (ok <==> used + need <= size)
  {
    !((used + need) % (UINT_MAX + 1) > size)
  }

  /**
    The intended memory check, written so that no intermediate value leaves the
    unsigned range: the demand must fit in what is left of the capacity.
   */
  function Fits(used: u32, need: u32, size: u32): (ok: bool)
    ensures ok <==> used + need <= size
  {
    used <= size && need <= size - used
  }

  /** The wrapped check admits a demand far beyond what the machine has left. */
  lemma FitsAsWrittenAdmitsOvercommit()
    ensures FitsAsWritten(8192, 0xFFFF_F000, 16384)
    ensures !Fits(8192, 0xFFFF_F000, 16384)
  {
  }

  /**
    A pool entry may take the task: its host is running, the VM's CPU and type
    are the ones the task requires, the host has a GPU if the task needs one,
    and the task's memory fits in what the host has left.
   */
  predicate Feasible(c: Candidate, t: TaskInfo)
    ensures Feasible(c, t) <==>
              && c.host.sState == S0 && c.vm.cpu == t.cpu && c.vm.vmType == t.vmType
              && (t.gpu ==> c.host.gpus)
              && c.host.memoryUsed + t.memory <= c.host.memorySize
  {
    && c.host.sState == S0
    && c.vm.cpu == t.cpu
    && c.vm.vmType == t.vmType
    && (t.gpu ==> c.host.gpus)
    && Fits(c.host.memoryUsed, t.memory, c.host.memorySize)
  }

  /**
    A feasible entry that the scan can pick: the running best starts at
    UINT_MAX and only a strictly smaller load replaces it.
   */
  predicate Selectable(c: Candidate, t: TaskInfo)
  {
    Feasible(c, t) && Load(c) < UINT_MAX
  }

  /** No entry among the first `n` can be picked. */
  predicate NoneSelectable(cs: seq<Candidate>, t: TaskInfo, n: nat)
    requires n <= |cs|
  {
    forall j :: 0 <= j < n ==> !Selectable(cs[j], t)
  }

  /**
    Among the first `n` entries, `k` is the pick: it is selectable, no feasible
    entry carries less load, and every feasible entry before it carries more.
   */
  predicate LeastLoadedAmong(cs: seq<Candidate>, t: TaskInfo, k: nat, n: nat)
    requires n <= |cs|
  {
    && k < n
    && Selectable(cs[k], t)
    && (forall j :: 0 <= j < n && Feasible(cs[j], t) ==> Load(cs[k]) <= Load(cs[j]))
    && (forall j :: 0 <= j < k && Feasible(cs[j], t) ==> Load(cs[k]) < Load(cs[j]))
  }

  /**
    The pick among the first `n` entries, one entry at a time in pool order: an
    entry replaces the current best only if it is selectable and strictly less loaded.
   */
  function LeastLoadedUpTo(cs: seq<Candidate>, t: TaskInfo, n: nat): (r: Option<nat>)
    requires n <= |cs|
    ensures r.None? <==> NoneSelectable(cs, t, n)
    ensures r.Some? ==> LeastLoadedAmong(cs, t, r.value, n)
    decreases n
  {
    if n == 0 then None
    else
      var prev := LeastLoadedUpTo(cs, t, n - 1);
      var c := cs[n - 1];
      if Selectable(c, t) && (prev.None? || Load(c) < Load(cs[prev.value])) then Some(n - 1)
      else prev
  }

  /** The least-loaded pick over the whole pool. */
  function LeastLoaded(cs: seq<Candidate>, t: TaskInfo): Option<nat>
  {
    LeastLoadedUpTo(cs, t, |cs|)
  }

  /** The pick is determined by the pool: at most one entry meets its description. */
  lemma LeastLoadedUnique(cs: seq<Candidate>, t: TaskInfo, a: nat, b: nat)
    requires LeastLoadedAmong(cs, t, a, |cs|)
    requires LeastLoadedAmong(cs, t, b, |cs|)
    ensures a == b
  {
  }

  /** The scan the source performs, with the source's sentinel index -1 for "none". */
  method SelectLeastLoaded(cs: seq<Candidate>, t: TaskInfo) returns (bestIdx: int)
    ensures -1 <= bestIdx < |cs|
    ensures bestIdx == -1 <==> NoneSelectable(cs, t, |cs|)
    ensures bestIdx >= 0 ==> LeastLoadedAmong(cs, t, bestIdx, |cs|)
    ensures bestIdx == -1 ==> LeastLoaded(cs, t) == None
    ensures bestIdx >= 0 ==> LeastLoaded(cs, t) == Some(bestIdx)
  {
    bestIdx := -1;
    var bestLoad: u32 := UINT_MAX;
    var i := 0;
    while i < |cs|
      invariant 0 <= i <= |cs|
      invariant -1 <= bestIdx < i
      invariant bestIdx == -1 ==> bestLoad == UINT_MAX && NoneSelectable(cs, t, i)
      invariant bestIdx >= 0 ==> bestLoad == Load(cs[bestIdx]) && LeastLoadedAmong(cs, t, bestIdx, i)
    {
      var c := cs[i];
      if Feasible(c, t) && Load(c) < bestLoad {
        bestLoad := Load(c);
        bestIdx := i;
      }
      i := i + 1;
    }
    if bestIdx >= 0 {
      LeastLoadedUnique(cs, t, bestIdx, LeastLoaded(cs, t).value);
    }
  }
}
