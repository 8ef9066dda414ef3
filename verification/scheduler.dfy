/**
  The scheduler's event handlers. Each handler reads the simulator through a
  `Host` snapshot and answers with the list of mutation requests it issues,
  in the order it issues them; handlers that keep state return the new state.
 */
module SchedulerCore {
  import opened Wrappers
  import opened Types
  import opened Lookups
  import opened Placement

  /**
    The scheduler's own data: the VM pool `vms` and the parallel list `machines`
    of the machine each pooled VM was attached to, plus the process-wide flag
    recording whether a migration is pending.
   */
  datatype Scheduler = Scheduler(vms: seq<VMId>, machines: seq<MachineId>, migrating: bool)

  /** The scheduler as constructed, before Init. */
  const Fresh: Scheduler := Scheduler([], [], false)

  datatype InitResult = InitResult(sched: Scheduler, actions: seq<Action>)

  /** The pool entry `i` as the placement loop reads it. */
  function CandidateAt(st: Scheduler, h: Host, i: nat): Candidate
    requires i < |st.vms|
  {
    var vi := h.vmInfo(st.vms[i]);
    Candidate(vi, h.machineInfo(vi.machineId))
  }

  function Candidates(st: Scheduler, h: Host): seq<Candidate>
  {
    seq(|st.vms|, i requires 0 <= i < |st.vms| => CandidateAt(st, h, i))
  }

  /**
    One pass of Init's loop, for machine `m`: a power-on request first exactly
    when the machine is not running, then the creation of a VM with the
    machine's CPU and that CPU's default type, then the attachment of the VM
    the simulator returned for that creation (the `m`-th) to machine `m`.
   */
  function InitBlock(h: Host, m: MachineId): (b: seq<Action>)
    ensures var mi := h.machineInfo(m);
            && |b| == (if mi.sState != S0 then 3 else 2)
            && (mi.sState != S0 ==> b[0] == SetMachineState(m, S0))
            && b[|b| - 2] == CreateVM(DefaultVMTypeForCPU(mi.cpu), mi.cpu)
            && b[|b| - 1] == AttachVM(h.createdVm(m), m)
  {
    var mi := h.machineInfo(m);
    (if mi.sState != S0 then [SetMachineState(m, S0)] else [])
      + [CreateVM(DefaultVMTypeForCPU(mi.cpu), mi.cpu), AttachVM(h.createdVm(m), m)]
  }

  /** Number of VM creation requests in a request list. */
  function CreateCount(acts: seq<Action>): nat
  {
    if acts == [] then 0
    else CreateCount(acts[..|acts| - 1]) + (if acts[|acts| - 1].CreateVM? then 1 else 0)
  }

  lemma {:induction false} CreateCountAppend(a: seq<Action>, b: seq<Action>)
    ensures CreateCount(a + b) == CreateCount(a) + CreateCount(b)
    decreases |b|
  {
    if b == [] {
      assert a + b == a;
    } else {
      assert (a + b)[..|a + b| - 1] == a + b[..|b| - 1];
      CreateCountAppend(a, b[..|b| - 1]);
    }
  }

  /** Each machine's block of Init requests holds exactly one VM creation. */
  lemma InitBlockCreatesOne(h: Host, m: MachineId)
    ensures CreateCount(InitBlock(h, m)) == 1
  {
    var mi := h.machineInfo(m);
    var power: seq<Action> := if mi.sState != S0 then [SetMachineState(m, S0)] else [];
    var create: seq<Action> := [CreateVM(DefaultVMTypeForCPU(mi.cpu), mi.cpu)];
    var attach: seq<Action> := [AttachVM(h.createdVm(m), m)];
    assert InitBlock(h, m) == power + create + attach;
    assert CreateCount(power) == 0 && CreateCount(create) == 1 && CreateCount(attach) == 0 by {
      assert power != [] ==> power[..|power| - 1] == [];
      assert create[..0] == [] && attach[..0] == [];
    }
    CreateCountAppend(power, create);
    CreateCountAppend(power + create, attach);
  }

  /**
    Init after its loop has handled machines `0..n-1`: one VM per machine,
    recorded in `vms[i]` beside its machine `machines[i] == i`, and the
    pending-migration flag left clear.
   */
  function InitUpTo(h: Host, n: nat): (r: InitResult)
    ensures |r.sched.vms| == n && |r.sched.machines| == n
    ensures forall i :: 0 <= i < n ==> r.sched.machines[i] == i && r.sched.vms[i] == h.createdVm(i)
    ensures !r.sched.migrating
    decreases n
  {
    if n == 0 then InitResult(Fresh, [])
    else
      var prev := InitUpTo(h, n - 1);
      InitResult(
        Scheduler(prev.sched.vms + [h.createdVm(n - 1)], prev.sched.machines + [n - 1], prev.sched.migrating),
        prev.actions + InitBlock(h, n - 1))
  }

  /** `acts` requests power-on exactly for the machines below `n` that are not running, and no other state. */
  ghost predicate PowersOnExactly(h: Host, n: nat, acts: seq<Action>)
  {
    && (forall m: MachineId :: SetMachineState(m, S0) in acts <==> m < n && h.machineInfo(m).sState != S0)
    && (forall k :: 0 <= k < |acts| && acts[k].SetMachineState? ==> acts[k].state == S0 && acts[k].machine < n)
  }

  /** Init requests power-on exactly for the machines that are not running, and no other state. */
  lemma {:induction false} InitPowersOn(h: Host, n: nat)
    ensures PowersOnExactly(h, n, InitUpTo(h, n).actions)
    decreases n
  {
    if n > 0 {
      InitPowersOn(h, n - 1);
      var prev := InitUpTo(h, n - 1).actions;
      var block := InitBlock(h, n - 1);
      var acts := InitUpTo(h, n).actions;
      assert acts == prev + block;
      forall m: MachineId
        ensures SetMachineState(m, S0) in acts <==> m < n && h.machineInfo(m).sState != S0
      {
        assert SetMachineState(m, S0) in acts <==> SetMachineState(m, S0) in prev || SetMachineState(m, S0) in block;
        assert SetMachineState(m, S0) in block <==> m == n - 1 && h.machineInfo(m).sState != S0;
      }
      forall k | 0 <= k < |acts| && acts[k].SetMachineState?
        ensures acts[k].state == S0 && acts[k].machine < n
      {
        if k >= |prev| {
          assert acts[k] == block[k - |prev|];
        } else {
          assert acts[k] == prev[k];
        }
      }
    }
  }

  /**
    `acts` attaches each of the first `n` pooled VMs to the machine recorded beside
    it, and attaches nothing but the VM returned for a machine below `n`.
   */
  ghost predicate AttachesPool(h: Host, n: nat, st: Scheduler, acts: seq<Action>)
    requires |st.vms| == n && |st.machines| == n
  {
    && (forall i :: 0 <= i < n ==> AttachVM(st.vms[i], st.machines[i]) in acts)
    && (forall k :: 0 <= k < |acts| && acts[k].AttachVM? ==>
          acts[k].machine < n && acts[k].vm == h.createdVm(acts[k].machine))
  }

  /** Init attaches every pooled VM to its recorded machine, and nothing else. */
  lemma {:induction false} InitAttaches(h: Host, n: nat)
    ensures AttachesPool(h, n, InitUpTo(h, n).sched, InitUpTo(h, n).actions)
    decreases n
  {
    if n > 0 {
      InitAttaches(h, n - 1);
      var prev := InitUpTo(h, n - 1);
      var block := InitBlock(h, n - 1);
      var r := InitUpTo(h, n);
      assert r.actions == prev.actions + block;
      assert AttachVM(h.createdVm(n - 1), n - 1) in block;
      forall i | 0 <= i < n
        ensures AttachVM(r.sched.vms[i], r.sched.machines[i]) in r.actions
      {
        if i < n - 1 {
          assert AttachVM(prev.sched.vms[i], prev.sched.machines[i]) in prev.actions;
          assert prev.sched.vms[i] == r.sched.vms[i] && prev.sched.machines[i] == r.sched.machines[i];
        }
      }
      forall k | 0 <= k < |r.actions| && r.actions[k].AttachVM?
        ensures r.actions[k].machine < n && r.actions[k].vm == h.createdVm(r.actions[k].machine)
      {
        if k >= |prev.actions| {
          assert r.actions[k] == block[k - |prev.actions|];
        } else {
          assert r.actions[k] == prev.actions[k];
        }
      }
    }
  }

  /** A creation request at position `p` adds one to the creations counted before and after it. */
  lemma CreateCountStep(a: seq<Action>, p: nat, q: nat)
    requires p < q <= |a| && a[p].CreateVM?
    ensures CreateCount(a[..q]) >= CreateCount(a[..p]) + 1
  {
    assert a[..q] == a[..p] + ([a[p]] + a[p + 1..q]);
    assert [a[p]][..0] == [];
    CreateCountAppend([a[p]], a[p + 1..q]);
    CreateCountAppend(a[..p], [a[p]] + a[p + 1..q]);
  }

  /**
    In `acts`, the creation request with `k` creations before it is for machine
    `k` (below `n`), with that machine's CPU and its default type, and is
    immediately followed by the attachment of the `k`-th returned VM to machine `k`.
   */
  ghost predicate CreatesInMachineOrder(h: Host, n: nat, acts: seq<Action>)
  {
    forall p :: 0 <= p < |acts| && acts[p].CreateVM? ==> CreationAt(h, n, acts, p)
  }

  /** In `acts`, a power-on request for machine `m` comes right before machine `m`'s creation. */
  ghost predicate PowerOnPrecedesCreation(acts: seq<Action>)
  {
    forall p :: 0 <= p < |acts| && acts[p].SetMachineState? ==>
      && acts[p].machine == CreateCount(acts[..p])
      && p + 1 < |acts| && acts[p + 1].CreateVM?
  }

  /** In `acts`, every attachment comes right after a creation. */
  ghost predicate AttachFollowsCreation(acts: seq<Action>)
  {
    forall p :: 0 <= p < |acts| && acts[p].AttachVM? ==> 0 < p && acts[p - 1].CreateVM?
  }

  /** `acts` walks machines `0..n-1` in index order, one block of requests per machine. */
  ghost predicate WalksMachinesInOrder(h: Host, n: nat, acts: seq<Action>)
  {
    && CreatesInMachineOrder(h, n, acts)
    && PowerOnPrecedesCreation(acts)
    && AttachFollowsCreation(acts)
  }

  /** Init creates exactly `n` VMs for `n` machines. */
  lemma {:induction false} InitCreateCount(h: Host, n: nat)
    ensures CreateCount(InitUpTo(h, n).actions) == n
    decreases n
  {
    if n > 0 {
      InitCreateCount(h, n - 1);
      var prev := InitUpTo(h, n - 1).actions;
      var block := InitBlock(h, n - 1);
      assert InitUpTo(h, n).actions == prev + block;
      InitBlockCreatesOne(h, n - 1);
      CreateCountAppend(prev, block);
    }
  }

  /** What one more pass of Init's loop adds: a block after the earlier requests, starting at creation count `n - 1`. */
  lemma InitStep(h: Host, n: nat)
    requires n > 0
    ensures var prev := InitUpTo(h, n - 1).actions;
            var block := InitBlock(h, n - 1);
            var acts := InitUpTo(h, n).actions;
            && acts == prev + block
            && acts[..|prev|] == prev
            && CreateCount(prev) == n - 1
            && CreateCount(acts[..|prev| + |block| - 2]) == n - 1
  {
    InitCreateCount(h, n - 1);
    var prev := InitUpTo(h, n - 1).actions;
    var block := InitBlock(h, n - 1);
    var acts := InitUpTo(h, n).actions;
    assert acts == prev + block;
    var lead := block[..|block| - 2];
    assert CreateCount(lead) == 0 by {
      if h.machineInfo(n - 1).sState != S0 {
        assert lead == [SetMachineState(n - 1, S0)];
        assert lead[..0] == [];
      } else {
        assert lead == [];
      }
    }
    CreateCountAppend(prev, lead);
    assert acts[..|prev| + |block| - 2] == prev + lead;
  }

  /** The creation clause of `CreatesInMachineOrder` at position `p`. */
  ghost predicate CreationAt(h: Host, n: nat, acts: seq<Action>, p: nat)
    requires p < |acts|
  {
    var k := CreateCount(acts[..p]);
    var cpu := h.machineInfo(k).cpu;
    && k < n
    && acts[p] == CreateVM(DefaultVMTypeForCPU(cpu), cpu)
    && p + 1 < |acts| && acts[p + 1] == AttachVM(h.createdVm(k), k)
  }

  /** An earlier creation keeps its clause when machine `m`'s block is appended. */
  lemma CreationAtPrefix(h: Host, m: MachineId, prev: seq<Action>, p: nat)
    requires p < |prev| && prev[p].CreateVM?
    requires CreationAt(h, m, prev, p)
    ensures CreationAt(h, m + 1, prev + InitBlock(h, m), p)
  {
    var acts := prev + InitBlock(h, m);
    assert acts[..p] == prev[..p];
    assert acts[p] == prev[p] && acts[p + 1] == prev[p + 1];
  }

  /** Machine `m`'s own creation, after `m` earlier creations, meets the clause. */
  lemma CreationAtBlock(h: Host, m: MachineId, prev: seq<Action>)
    requires CreateCount(prev) == m
    ensures var block := InitBlock(h, m);
            CreationAt(h, m + 1, prev + block, |prev| + |block| - 2)
  {
    var block := InitBlock(h, m);
    var acts := prev + block;
    var c := |block| - 2;
    var lead := block[..c];
    assert CreateCount(lead) == 0 by {
      if h.machineInfo(m).sState != S0 {
        assert lead == [SetMachineState(m, S0)];
        assert lead[..0] == [];
      } else {
        assert lead == [];
      }
    }
    CreateCountAppend(prev, lead);
    assert acts[..|prev| + c] == prev + lead;
    assert acts[|prev| + c] == block[c] && acts[|prev| + c + 1] == block[c + 1];
  }

  /** Appending machine `m`'s block keeps creations in machine order. */
  lemma CreatesInOrderAppend(h: Host, m: MachineId, prev: seq<Action>)
    requires CreatesInMachineOrder(h, m, prev)
    requires CreateCount(prev) == m
    ensures CreatesInMachineOrder(h, m + 1, prev + InitBlock(h, m))
  {
    var block := InitBlock(h, m);
    var acts := prev + block;
    forall p | 0 <= p < |acts| && acts[p].CreateVM?
      ensures CreationAt(h, m + 1, acts, p)
    {
      if p >= |prev| {
        assert acts[p] == block[p - |prev|];
        assert p - |prev| == |block| - 2;
        CreationAtBlock(h, m, prev);
      } else {
        assert acts[p] == prev[p];
        assert CreationAt(h, m, prev, p);
        CreationAtPrefix(h, m, prev, p);
      }
    }
  }

  /** Init creates machine `k`'s VM as its `k`-th creation, and attaches it right away. */
  lemma {:induction false} InitCreatesInOrder(h: Host, n: nat)
    ensures CreatesInMachineOrder(h, n, InitUpTo(h, n).actions)
    decreases n
  {
    if n > 0 {
      InitCreatesInOrder(h, n - 1);
      InitCreateCount(h, n - 1);
      CreatesInOrderAppend(h, n - 1, InitUpTo(h, n - 1).actions);
    }
  }

  /** Init's power-on request for a machine comes right before that machine's creation. */
  lemma {:induction false} InitPowerOnFirst(h: Host, n: nat)
    ensures PowerOnPrecedesCreation(InitUpTo(h, n).actions)
    decreases n
  {
    if n > 0 {
      InitPowerOnFirst(h, n - 1);
      InitStep(h, n);
      var prev := InitUpTo(h, n - 1).actions;
      var block := InitBlock(h, n - 1);
      var acts := InitUpTo(h, n).actions;
      forall p | 0 <= p < |acts| && acts[p].SetMachineState?
        ensures && acts[p].machine == CreateCount(acts[..p])
                && p + 1 < |acts| && acts[p + 1].CreateVM?
      {
        if p >= |prev| {
          assert acts[p] == block[p - |prev|];
          assert p == |prev|;
          assert acts[p + 1] == block[1];
        } else {
          assert acts[..p] == prev[..p];
          assert acts[p] == prev[p] && acts[p + 1] == prev[p + 1];
        }
      }
    }
  }

  /** Init attaches each VM right after creating it. */
  lemma {:induction false} InitAttachAfterCreate(h: Host, n: nat)
    ensures AttachFollowsCreation(InitUpTo(h, n).actions)
    decreases n
  {
    if n > 0 {
      InitAttachAfterCreate(h, n - 1);
      var prev := InitUpTo(h, n - 1).actions;
      var block := InitBlock(h, n - 1);
      var acts := InitUpTo(h, n).actions;
      assert acts == prev + block;
      forall p | 0 <= p < |acts| && acts[p].AttachVM?
        ensures 0 < p && acts[p - 1].CreateVM?
      {
        if p >= |prev| {
          assert acts[p] == block[p - |prev|];
          assert p - |prev| == |block| - 1;
          assert acts[p - 1] == block[|block| - 2];
        } else {
          assert acts[p] == prev[p] && acts[p - 1] == prev[p - 1];
        }
      }
    }
  }

  /** Init handles the machines one after another, in index order. */
  lemma InitWalksInOrder(h: Host, n: nat)
    ensures WalksMachinesInOrder(h, n, InitUpTo(h, n).actions)
  {
    InitCreatesInOrder(h, n);
    InitPowerOnFirst(h, n);
    InitAttachAfterCreate(h, n);
  }

  /** Every request in `acts` is a power-state change, a VM creation or an attachment. */
  ghost predicate OnlySetupRequests(acts: seq<Action>)
  {
    forall k :: 0 <= k < |acts| ==> acts[k].SetMachineState? || acts[k].CreateVM? || acts[k].AttachVM?
  }

  /** Init requests nothing but power-on, VM creation and attachment. */
  lemma {:induction false} InitRequestKinds(h: Host, n: nat)
    ensures OnlySetupRequests(InitUpTo(h, n).actions)
    decreases n
  {
    if n > 0 {
      InitRequestKinds(h, n - 1);
      var prev := InitUpTo(h, n - 1).actions;
      var block := InitBlock(h, n - 1);
      var acts := InitUpTo(h, n).actions;
      assert acts == prev + block;
      forall k | 0 <= k < |acts|
        ensures acts[k].SetMachineState? || acts[k].CreateVM? || acts[k].AttachVM?
      {
        if k >= |prev| {
          assert acts[k] == block[k - |prev|];
          assert k - |prev| == 0 || k - |prev| == |block| - 2 || k - |prev| == |block| - 1;
        } else {
          assert acts[k] == prev[k];
        }
      }
    }
  }

  /**
    Scheduler::Init: walk machines `0..total-1` in index order, powering on the
    ones not running and creating and attaching one VM of the CPU's default type
    on each; the pool and the machine list run in parallel.
   */
  function Init(h: Host): (r: InitResult)
    ensures |r.sched.vms| == h.machineCount && |r.sched.machines| == h.machineCount
    ensures forall i :: 0 <= i < h.machineCount ==> r.sched.machines[i] == i && r.sched.vms[i] == h.createdVm(i)
    ensures !r.sched.migrating
    ensures PowersOnExactly(h, h.machineCount, r.actions)
    ensures AttachesPool(h, h.machineCount, r.sched, r.actions)
    ensures WalksMachinesInOrder(h, h.machineCount, r.actions)
    ensures CreateCount(r.actions) == h.machineCount
    ensures OnlySetupRequests(r.actions)
  {
    InitPowersOn(h, h.machineCount);
    InitAttaches(h, h.machineCount);
    InitWalksInOrder(h, h.machineCount);
    InitCreateCount(h, h.machineCount);
    InitRequestKinds(h, h.machineCount);
    InitUpTo(h, h.machineCount)
  }

  /** The position in Init's requests where machine `m`'s VM is created. */
  lemma InitCreationFor(h: Host, m: MachineId) returns (p: nat)
    requires m < h.machineCount
    ensures var acts := Init(h).actions;
            var cpu := h.machineInfo(m).cpu;
            && p + 1 < |acts|
            && CreateCount(acts[..p]) == m
            && acts[p] == CreateVM(DefaultVMTypeForCPU(cpu), cpu)
            && acts[p + 1] == AttachVM(h.createdVm(m), m)
  {
    var r := Init(h);
    var acts := r.actions;
    assert AttachVM(r.sched.vms[m], r.sched.machines[m]) in acts;
    var q :| 0 <= q < |acts| && acts[q] == AttachVM(h.createdVm(m), m);
    assert acts[q].AttachVM?;
    p := q - 1;
    assert acts[p].CreateVM?;
  }

  /**
    Init creates a VM for every machine: each machine below the count has a
    creation request whose VM is then attached to it.
   */
  lemma InitCreatesForEveryMachine(h: Host)
    ensures var acts := Init(h).actions;
            forall m: MachineId :: m < h.machineCount ==>
              exists p :: 0 <= p < |acts| - 1 && acts[p].CreateVM? && acts[p + 1] == AttachVM(h.createdVm(m), m)
  {
    var acts := Init(h).actions;
    forall m: MachineId | m < h.machineCount
      ensures exists p :: 0 <= p < |acts| - 1 && acts[p].CreateVM? && acts[p + 1] == AttachVM(h.createdVm(m), m)
    {
      var p := InitCreationFor(h, m);
      assert acts[p].CreateVM?;
    }
  }

  /** Init creates no machine's VM twice: distinct creation requests are attached to distinct machines. */
  lemma InitCreatesOnePerMachine(h: Host)
    ensures var acts := Init(h).actions;
            forall p, q :: 0 <= p < q < |acts| - 1 && acts[p].CreateVM? && acts[q].CreateVM? ==>
              acts[p + 1].AttachVM? && acts[q + 1].AttachVM? && acts[p + 1].machine != acts[q + 1].machine
  {
    var acts := Init(h).actions;
    assert CreatesInMachineOrder(h, h.machineCount, acts);
    forall p, q | 0 <= p < q < |acts| - 1 && acts[p].CreateVM? && acts[q].CreateVM?
      ensures acts[p + 1].AttachVM? && acts[q + 1].AttachVM? && acts[p + 1].machine != acts[q + 1].machine
    {
      CreateCountStep(acts, p, q);
    }
  }

  /** The outcome of a task arrival: the chosen pool index, if any, and the requests issued. */
  datatype Placed = Placed(choice: Option<nat>, actions: seq<Action>)

  /**
    Scheduler::NewTask: one pass over the pool; the least-loaded feasible entry
    gets the task with its SLA-derived priority, and with no such entry nothing
    is requested. The pool is read, never changed, and no VM is created.
   */
  function NewTask(st: Scheduler, h: Host, task: TaskId): (r: Placed)
    ensures r.choice.None? <==> NoneSelectable(Candidates(st, h), h.taskInfo(task), |st.vms|)
    ensures r.choice.None? ==> r.actions == []
    ensures r.choice.Some? ==>
              && LeastLoadedAmong(Candidates(st, h), h.taskInfo(task), r.choice.value, |st.vms|)
              && r.actions == [AddTask(st.vms[r.choice.value], task, PriorityFromSLA(h.taskInfo(task).sla))]
  {
    var t := h.taskInfo(task);
    var choice := LeastLoaded(Candidates(st, h), t);
    match choice
    case None => Placed(None, [])
    case Some(i) => Placed(choice, [AddTask(st.vms[i], task, PriorityFromSLA(t.sla))])
  }

  /** The handler as the source writes it: the scan with its -1 sentinel, then at most one request. */
  method NewTaskScan(st: Scheduler, h: Host, task: TaskId) returns (acts: seq<Action>)
    ensures acts == NewTask(st, h, task).actions
  {
    var t := h.taskInfo(task);
    var priority := PriorityFromSLA(t.sla);
    var bestIdx := SelectLeastLoaded(Candidates(st, h), t);
    if bestIdx >= 0 {
      acts := [AddTask(st.vms[bestIdx], task, priority)];
    } else {
      acts := [];
    }
  }

  /**
    What a placement guarantees about the chosen host: it is running, it has the
    task's CPU and VM type, a GPU if one is needed, and room for the task's memory,
    and no feasible host anywhere in the pool is less loaded.
   */
  lemma NewTaskSound(st: Scheduler, h: Host, task: TaskId)
    requires NewTask(st, h, task).choice.Some?
    ensures var i := NewTask(st, h, task).choice.value;
            var t := h.taskInfo(task);
            var vi := h.vmInfo(st.vms[i]);
            var mi := h.machineInfo(vi.machineId);
            && i < |st.vms|
            && mi.sState == S0 && vi.cpu == t.cpu && vi.vmType == t.vmType
            && (t.gpu ==> mi.gpus)
            && mi.memoryUsed + t.memory <= mi.memorySize
            && forall j :: 0 <= j < |st.vms| && Feasible(CandidateAt(st, h, j), t) ==>
                 mi.activeTasks <= CandidateAt(st, h, j).host.activeTasks
  {
    var i := NewTask(st, h, task).choice.value;
    var cs := Candidates(st, h);
    assert cs[i] == CandidateAt(st, h, i);
    forall j | 0 <= j < |st.vms| && Feasible(CandidateAt(st, h, j), h.taskInfo(task))
      ensures Load(cs[i]) <= CandidateAt(st, h, j).host.activeTasks
    {
      assert cs[j] == CandidateAt(st, h, j);
    }
  }

  /** A task is left unallocated only when no pool entry could have taken it. */
  lemma NewTaskUnallocated(st: Scheduler, h: Host, task: TaskId, j: nat)
    requires j < |st.vms|
    requires Selectable(CandidateAt(st, h, j), h.taskInfo(task))
    ensures NewTask(st, h, task).choice.Some?
    ensures |NewTask(st, h, task).actions| == 1
  {
    assert Candidates(st, h)[j] == CandidateAt(st, h, j);
  }

  /**
    The simulator carried out the requests in `acts` as issued: the VM it returned
    for the `k`-th creation has the CPU and type that creation asked for, and an
    attached VM is recorded on the machine it was attached to.
   */
  ghost predicate HostRecords(h: Host, acts: seq<Action>)
  {
    && (forall p :: 0 <= p < |acts| && acts[p].CreateVM? ==>
          var v := h.vmInfo(h.createdVm(CreateCount(acts[..p])));
          v.cpu == acts[p].cpu && v.vmType == acts[p].vmType)
    && (forall q :: 0 <= q < |acts| && acts[q].AttachVM? ==> h.vmInfo(acts[q].vm).machineId == acts[q].machine)
  }

  /** The simulator carried out Init's requests as issued. */
  ghost predicate HostRecordsInit(h: Host)
  {
    HostRecords(h, Init(h).actions)
  }

  /** On a simulator that carried out Init's requests, pool entry `i` is a VM of machine `i`'s CPU and default type, on machine `i`. */
  lemma InitRecordedPool(h: Host, i: MachineId)
    requires HostRecordsInit(h)
    requires i < h.machineCount
    ensures var cpu := h.machineInfo(i).cpu;
            h.vmInfo(h.createdVm(i)) == VMInfo(i, cpu, DefaultVMTypeForCPU(cpu))
  {
    var acts := Init(h).actions;
    var p := InitCreationFor(h, i);
    assert acts[p].CreateVM? && acts[p + 1].AttachVM?;
    var v := h.vmInfo(h.createdVm(i));
    assert v.cpu == h.machineInfo(i).cpu && v.vmType == DefaultVMTypeForCPU(h.machineInfo(i).cpu);
    assert v.machineId == i;
  }

  /**
    With the pool Init builds, a task can only land on a machine of its own CPU,
    and only if it asks for that CPU's default VM type: a POWER task wanting
    LINUX, or any task wanting WIN or LINUX_RT, is always left unallocated.
   */
  lemma InitPoolServesDefaultTypesOnly(h: Host, task: TaskId)
    requires HostRecordsInit(h)
    ensures var p := NewTask(Init(h).sched, h, task);
            var t := h.taskInfo(task);
            p.choice.Some? ==>
              && p.choice.value < h.machineCount
              && h.machineInfo(p.choice.value).cpu == t.cpu
              && t.vmType == DefaultVMTypeForCPU(t.cpu)
  {
    var st := Init(h).sched;
    var p := NewTask(st, h, task);
    if p.choice.Some? {
      var i := p.choice.value;
      assert Candidates(st, h)[i] == CandidateAt(st, h, i);
      assert st.vms[i] == h.createdVm(i);
      InitRecordedPool(h, i);
    }
  }

  /**
    Conversely, with the pool Init builds, a task is placed whenever some machine
    is running with the task's CPU, offers that CPU's default type the task asks
    for, a GPU if needed, room for the memory, and a load below UINT_MAX.
   */
  lemma InitPoolPlacesWhenSomeMachineFits(h: Host, task: TaskId, m: MachineId)
    requires HostRecordsInit(h)
    requires m < h.machineCount
    requires var mi := h.machineInfo(m);
             var t := h.taskInfo(task);
             && mi.sState == S0 && mi.cpu == t.cpu && t.vmType == DefaultVMTypeForCPU(t.cpu)
             && (t.gpu ==> mi.gpus) && mi.memoryUsed + t.memory <= mi.memorySize
             && mi.activeTasks < UINT_MAX
    ensures NewTask(Init(h).sched, h, task).choice.Some?
  {
    var st := Init(h).sched;
    assert st.vms[m] == h.createdVm(m);
    InitRecordedPool(h, m);
    NewTaskUnallocated(st, h, task, m);
  }

  /** Scheduler::Shutdown: a shutdown request for every pooled VM, in pool order. */
  function Shutdown(st: Scheduler): (r: seq<Action>)
    ensures |r| == |st.vms|
    ensures forall i :: 0 <= i < |r| ==> r[i] == ShutdownVM(st.vms[i])
    decreases |st.vms|
  {
    if st.vms == [] then []
    else Shutdown(st.(vms := st.vms[..|st.vms| - 1])) + [ShutdownVM(st.vms[|st.vms| - 1])]
  }

  /** Shutdown asks for exactly the pooled VMs, whatever the pool holds. */
  lemma ShutdownCoversPool(st: Scheduler)
    ensures forall v :: ShutdownVM(v) in Shutdown(st) <==> v in st.vms
  {
    var r := Shutdown(st);
    forall v | ShutdownVM(v) in r
      ensures v in st.vms
    {
      var k :| 0 <= k < |r| && r[k] == ShutdownVM(v);
      assert st.vms[k] == v;
    }
    forall v | v in st.vms
      ensures ShutdownVM(v) in r
    {
      var k :| 0 <= k < |st.vms| && st.vms[k] == v;
      assert r[k] == ShutdownVM(v);
    }
  }

  /** A pool without repeated VMs gets no repeated shutdown request. */
  lemma ShutdownExactlyOnce(st: Scheduler)
    requires forall i, j :: 0 <= i < j < |st.vms| ==> st.vms[i] != st.vms[j]
    ensures var r := Shutdown(st);
            forall i, j :: 0 <= i < j < |r| ==> r[i] != r[j]
  {
  }

  /** After Init, Shutdown asks exactly for the VMs Init created, in creation order, and nothing else. */
  lemma InitThenShutdown(h: Host)
    ensures var r := Shutdown(Init(h).sched);
            && |r| == h.machineCount
            && (forall i :: 0 <= i < |r| ==> r[i] == ShutdownVM(h.createdVm(i)))
            && (forall v :: ShutdownVM(v) in r <==> exists i :: 0 <= i < h.machineCount && v == h.createdVm(i))
  {
    var st := Init(h).sched;
    var r := Shutdown(st);
    ShutdownCoversPool(st);
    forall v
      ensures ShutdownVM(v) in r <==> exists i :: 0 <= i < h.machineCount && v == h.createdVm(i)
    {
      if v in st.vms {
        var i :| 0 <= i < |st.vms| && st.vms[i] == v;
        assert v == h.createdVm(i);
      }
      if exists i :: 0 <= i < h.machineCount && v == h.createdVm(i) {
        var i :| 0 <= i < h.machineCount && v == h.createdVm(i);
        assert st.vms[i] == v;
      }
    }
  }

  /** When the simulator handed out distinct identities, Shutdown after Init names each created VM once. */
  lemma InitThenShutdownOnce(h: Host)
    requires forall i, j :: 0 <= i < j < h.machineCount ==> h.createdVm(i) != h.createdVm(j)
    ensures var r := Shutdown(Init(h).sched);
            forall i, j :: 0 <= i < j < |r| ==> r[i] != r[j]
  {
    var st := Init(h).sched;
    assert forall i :: 0 <= i < |st.vms| ==> st.vms[i] == h.createdVm(i);
    ShutdownExactlyOnce(st);
  }

  /** Scheduler::MigrationComplete: the pending-migration flag is cleared, nothing else changes. */
  function MigrationComplete(st: Scheduler, vm: VMId): (r: Scheduler)
    ensures !r.migrating
    ensures r.vms == st.vms && r.machines == st.machines
  {
    st.(migrating := false)
  }

  /** MigrationDone: forwards to MigrationComplete, then clears the flag itself. */
  function MigrationDone(st: Scheduler, vm: VMId): (r: Scheduler)
    ensures r == MigrationComplete(st, vm)
  {
    MigrationComplete(st, vm).(migrating := false)
  }

  /**
    Completion notifications are idempotent and need not name a known VM: a
    repeated, spurious or stale one leaves the state exactly as a single one does.
   */
  lemma MigrationCompleteIdempotent(st: Scheduler, v: VMId, w: VMId)
    ensures MigrationComplete(MigrationComplete(st, v), w) == MigrationComplete(st, v)
    ensures MigrationDone(MigrationDone(st, v), w) == MigrationDone(st, v)
  {
  }

  /**
    SLAWarning: one request raising the late task to the most urgent priority,
    never below what its SLA class gave it at arrival; the task is not moved.
   */
  function SLAWarning(task: TaskId): (r: seq<Action>)
    ensures |r| == 1 && r[0].SetTaskPriority? && r[0].task == task
    ensures forall p: Priority :: Urgency(p) <= Urgency(r[0].priority)
    ensures forall s: SLAType :: Urgency(PriorityFromSLA(s)) <= Urgency(r[0].priority)
  {
    [SetTaskPriority(task, HIGH_PRIORITY)]
  }
}
