# Least-loaded VM scheduler for the CloudSim cluster simulator

This project models the scheduler of a simulated compute cluster. The scheduler
gets events from the simulator. At start-up (`Scheduler::Init`) it walks every
machine in index order. It asks for any machine that is not running (state
`S0`) to be powered on. It creates one VM on each machine, with the machine's
CPU and that CPU's default operating system (AIX on POWER, LINUX elsewhere), and
attaches the VM to the machine. It keeps the VM pool `vms` and the parallel
machine list `machines`.

On each task arrival (`Scheduler::NewTask`) it makes one pass over the pool. A
pool entry is *feasible* when:

- its host machine is running;
- the VM's CPU and VM type are the ones the task requires;
- the host has a GPU if the task needs one;
- the task's memory fits beside the host's used memory.

Among the feasible entries it picks the one whose host has the fewest active
tasks. The running best starts at `UINT_MAX` and is replaced only by a strictly
smaller load. So ties go to the lowest pool index, and a host already carrying
`UINT_MAX` tasks is never picked. The chosen VM gets the task, with the priority
that the task's SLA class maps to (SLA0 gives high, SLA1 gives mid, the rest
give low). If nothing is feasible, the task is left unallocated. At the end
(`Scheduler::Shutdown`) every pooled VM is shut down, in pool order. A finished
migration clears the pending-migration flag. A late-task warning raises the
task to high priority.

The model is pure. Everything the scheduler reads from the simulator is one
`Host` snapshot of total functions:

- the machine count;
- machine, VM and task information;
- `createdVm(k)`, the identity the simulator returns for the k-th VM creation.

Everything the scheduler asks the simulator to do is returned as a list of
`Action` values, in issue order. The modules follow the source's parts:

- `Types`: enumerations, snapshot records, requests.
- `Lookups`: the two lookup tables.
- `Placement`: the feasibility filter and the least-loaded argmin, both as a
  recursive function and as the source's loop.
- `SchedulerCore`: the event handlers.

The simulator's interface header, which defines the enumerations and the
snapshot records, is not part of this model. The enumerations list the
simulator's usual values. Only the values the scheduler names matter here.
The machine fields `memory_used`, `memory_size` and `active_tasks` are
assumed to be 32-bit `unsigned`, like the task memory `need_mem`. The
`UINT_MAX` cut-off and the memory finding below rest on that width.

## Model

| member | source | states |
|---|---|---|
| Lookups.PriorityFromSLA | Scheduler.cpp:15-21 | Gives high priority exactly for SLA0, mid exactly for SLA1, and low exactly for every other class. |
| Lookups.PriorityFromSLAMonotone | Scheduler.cpp:15-21 | A stricter SLA class never gets a less urgent priority. |
| Lookups.DefaultVMTypeForCPU | Scheduler.cpp:24-28 | Gives AIX exactly when the CPU is POWER, and LINUX exactly when it is not. |
| Placement.FitsAsWritten | Scheduler.cpp:129 | The source's memory check, done in wrapping 32-bit arithmetic. It agrees with "used + need <= size" whenever the sum does not wrap. |
| Placement.FitsAsWrittenAdmitsOvercommit | Scheduler.cpp:129 | A concrete machine and demand for which the wrapped check admits a task that does not fit. |
| Placement.Fits | Scheduler.cpp:129 | The overflow-free memory check holds exactly when used memory plus demand is at most the capacity. |
| Placement.Feasible | Scheduler.cpp:112-130 | A pool entry passes the filter exactly when its host is in S0, the VM's CPU and type are the task's, the host has a GPU if the task needs one, and used memory plus the task's memory is at most the capacity. |
| Placement.LeastLoadedUpTo | Scheduler.cpp:103-137 | Scanning the first n entries yields nothing exactly when none of them is feasible with load below UINT_MAX. Otherwise it yields such an entry: no feasible entry has less load, and every feasible entry before it has strictly more. |
| Placement.LeastLoadedUnique | Scheduler.cpp:133-136 | At most one pool index is least loaded with lowest-index tie-break, so the placement is determined by the snapshot. |
| Placement.SelectLeastLoaded | Scheduler.cpp:103-137 | The source's loop, with the -1 sentinel and the running best load. It returns -1 exactly when nothing is selectable, and otherwise the unique least-loaded feasible index. Its answer equals the recursive pick. |
| SchedulerCore.InitBlock | Scheduler.cpp:56-66 | One pass of Init's loop for machine m. It starts with a power-on request exactly when m is not in S0. Then comes the creation of a VM with m's CPU and that CPU's default type. Last comes the attachment of the VM returned for that creation to m. |
| SchedulerCore.InitUpTo | Scheduler.cpp:52-67 | After the loop has handled machines 0..n-1, the pool and the machine list each have n entries. Entry i is the VM created for machine i, recorded beside machine id i. The migration flag is clear. |
| SchedulerCore.InitPowersOn | Scheduler.cpp:56-59 | A power-on request goes out exactly for the machines that are not in S0. No other state change is requested. |
| SchedulerCore.InitAttaches | Scheduler.cpp:62-66 | Every pooled VM is attached to the machine recorded beside it. Nothing is attached except the VM returned for that machine's creation. |
| SchedulerCore.InitCreatesInOrder | Scheduler.cpp:52-66 | The creation request with k creations before it is for machine k. It asks for machine k's CPU and that CPU's default type. The very next request attaches the k-th returned VM to machine k. |
| SchedulerCore.InitPowerOnFirst | Scheduler.cpp:52-62 | A power-on request for machine m comes right before machine m's creation, after the creations of machines 0..m-1. |
| SchedulerCore.InitAttachAfterCreate | Scheduler.cpp:61-66 | Every attachment comes right after a creation. |
| SchedulerCore.InitWalksInOrder | Scheduler.cpp:52-66 | All three ordering facts together: Init handles machines 0..n-1 one after another, in index order. |
| SchedulerCore.InitCreateCount | Scheduler.cpp:52-67 | Init issues exactly n creation requests for n machines. |
| SchedulerCore.InitRequestKinds | Scheduler.cpp:52-67 | Init requests only power-state changes, VM creations and attachments. |
| SchedulerCore.Init | Scheduler.cpp:39-67 | All of the above, for machines 0..total-1 of the snapshot, with the migration flag clear. |
| SchedulerCore.InitCreatesForEveryMachine | Scheduler.cpp:52-66 | Every machine below the count has a creation request whose VM is then attached to it. |
| SchedulerCore.InitCreatesOnePerMachine | Scheduler.cpp:52-66 | No two creation requests are followed by attachments to the same machine, so no machine gets two VMs. |
| SchedulerCore.InitRecordedPool | Scheduler.cpp:61-66 | Suppose the simulator carried out Init's requests as issued. Then pool entry i is a VM of machine i's CPU and default type, recorded on machine i. |
| SchedulerCore.NewTask | Scheduler.cpp:97-151 | It makes no request exactly when no pool entry is feasible with load below UINT_MAX. Otherwise it makes exactly one request: the least-loaded feasible entry (lowest index on ties) gets the task, with the priority of the task's SLA class. The pool is only read and no VM is created. |
| SchedulerCore.NewTaskScan | Scheduler.cpp:97-151 | The handler written as the source's scan followed by the conditional request. It issues the same requests as NewTask. |
| SchedulerCore.NewTaskSound | Scheduler.cpp:112-136 | The chosen host is running. It has the task's CPU and VM type, a GPU when the task needs one, and room for the task's memory. No feasible host in the pool carries fewer active tasks. |
| SchedulerCore.NewTaskUnallocated | Scheduler.cpp:133-145 | If any pool entry is feasible with load below UINT_MAX, the task is placed with exactly one request. |
| SchedulerCore.InitPoolServesDefaultTypesOnly | Scheduler.cpp:61-62 | Suppose the simulator carried out Init's requests as issued. Then a task lands only on a machine of its own CPU, and only if it asks for that CPU's default VM type. |
| SchedulerCore.InitPoolPlacesWhenSomeMachineFits | Scheduler.cpp:112-140 | Suppose the simulator carried out Init's requests as issued. Then a task is placed whenever some machine is running with the task's CPU and offers the default VM type the task asks for. The machine must also have a GPU if needed, room for the memory, and a load below UINT_MAX. |
| SchedulerCore.Shutdown | Scheduler.cpp:169-171 | One shutdown request per pooled VM, in pool order, and nothing else. An empty pool gives no requests. |
| SchedulerCore.ShutdownCoversPool | Scheduler.cpp:169-171 | The shutdown requests name exactly the pooled VMs. |
| SchedulerCore.ShutdownExactlyOnce | Scheduler.cpp:169-171 | When the pool holds no VM twice, no VM is named twice. |
| SchedulerCore.InitThenShutdown | Scheduler.cpp:169-171 | After Init, Shutdown names exactly the VMs Init created, in creation order, and nothing else. |
| SchedulerCore.InitThenShutdownOnce | Scheduler.cpp:169-171 | When the simulator handed out distinct identities, Shutdown after Init names each created VM once. |
| SchedulerCore.MigrationComplete | Scheduler.cpp:79-84 | Clears the pending-migration flag and leaves the pool and the machine list unchanged, whatever VM it names. |
| SchedulerCore.MigrationDone | Scheduler.cpp:213-219 | Ends in the same state as MigrationComplete alone. |
| SchedulerCore.MigrationCompleteIdempotent | Scheduler.cpp:79-84 | A repeated or spurious completion notice leaves the state as a single one does. |
| SchedulerCore.SLAWarning | Scheduler.cpp:242-246 | Exactly one request: it sets the late task's priority to the most urgent level, never below what any SLA class gives at arrival. It does not move the task. |

## Left out

- Logging (`SimOutput`) and the end-of-run report in `SimulationComplete`. The report prints SLA percentages, cluster energy and the run time as a floating-point number of seconds. These are output only.
- The simulator's own functions, such as VM creation, attachment, power-state changes, task assignment and the getters. Their behaviour is not visible. They appear only as the `Host` snapshot and as returned requests.
- The handlers `MemoryWarning`, `StateChangeComplete`, `PeriodicCheck` and `TaskComplete`. They only log or do nothing, and change no state.
- The simulated time argument of every handler. Only logging uses it.
- The static scheduler singleton and the public forwarding functions. `Init` starts from the freshly constructed scheduler (`Fresh`), as the singleton's single call does.
- The `active_machines` global. `Init` overwrites it with the machine count before using it.
- A migration flag per VM. The source keeps one file-wide `migrating` flag, held here in the `Scheduler` record. No handler ever sets it to true, and nothing reads it.
- Placement policies other than least-loaded, and on-demand VM creation. They are not in this scheduler.
- Placement.SelectLeastLoaded: the source stores the winning index with `static_cast<int>` of an `unsigned` counter. A winning index above INT_MAX would turn negative, and the source would leave the task unallocated. The model keeps the index. Only a pool of more than 2^31 VMs can reach this.
- SchedulerCore.NewTask: places the task even when the winning index is above INT_MAX, where the source's `int` cast would leave it unallocated. Pools of more than 2^31 VMs are not modelled.
- SchedulerCore.NewTaskUnallocated: promises a placement for any selectable entry, without the source's exception for a winning index above INT_MAX.
- SchedulerCore.InitPoolPlacesWhenSomeMachineFits: promises a placement without the source's exception for a winning index above INT_MAX, which needs more than 2^31 machines.
- Placement.Feasible: the model checks memory with the overflow-free `Fits`, not with the source's wrapping sum. The source's behaviour is kept in `FitsAsWritten` and recorded under Findings.

## Findings

| source | as written | input that shows it | evidently intended | confidence | as-written member | corrected member |
|---|---|---|---|---|---|---|
| Scheduler.cpp:129 | `mi.memory_used + need_mem > mi.memory_size`, computed in 32-bit unsigned arithmetic | memory_used 8192, memory_size 16384, need_mem 0xFFFFF000: the sum wraps to 4096, so the task is admitted | admit only when used memory plus demand is at most the capacity as integers | not executed | Placement.FitsAsWrittenAdmitsOvercommit | Placement.Fits |
