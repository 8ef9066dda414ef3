/**
  The vocabulary the scheduler shares with the cluster simulator: enumerations,
  identifiers, the snapshot records its queries return, and the mutation
  requests it can issue. Unsigned C++ fields are `u32`.
 */
module Types {

  const UINT_MAX: int := 0xFFFF_FFFF

  /** The range of a 32-bit C++ `unsigned`. */
  type u32 = x: int | 0 <= x <= UINT_MAX

  type MachineId = nat
  type VMId = nat
  type TaskId = nat

  datatype CPUType = ARM | POWER | RISCV | X86
  datatype VMType = LINUX | LINUX_RT | WIN | AIX
  datatype SLAType = SLA0 | SLA1 | SLA2 | SLA3
  datatype Priority = HIGH_PRIORITY | MID_PRIORITY | LOW_PRIORITY

  /** Machine sleep states; `S0` is the running state. */
  datatype MachineState = S0 | S0i1 | S1 | S2 | S3 | S4 | S5

  /** The part of a machine snapshot the scheduler reads. */
  datatype MachineInfo = MachineInfo(
    cpu: CPUType,
    memorySize: u32,
    memoryUsed: u32,
    gpus: bool,
    sState: MachineState,
    activeTasks: u32)

  /** The part of a VM snapshot the scheduler reads. */
  datatype VMInfo = VMInfo(machineId: MachineId, cpu: CPUType, vmType: VMType)

  /** A task's requirements, as read once at arrival. */
  datatype TaskInfo = TaskInfo(
    cpu: CPUType,
    vmType: VMType,
    gpu: bool,
    memory: u32,
    sla: SLAType)

  /**
    The simulator as the scheduler sees it: a read-only snapshot of every query,
    and `createdVm(k)`, the identity the simulator hands back for the k-th VM
    creation request.
   */
  datatype Host = Host(
    machineCount: nat,
    machineInfo: MachineId -> MachineInfo,
    vmInfo: VMId -> VMInfo,
    taskInfo: TaskId -> TaskInfo,
    createdVm: nat -> VMId)

  /** A mutation request sent to the simulator. */
  datatype Action =
    | SetMachineState(machine: MachineId, state: MachineState)
    | CreateVM(vmType: VMType, cpu: CPUType)
    | AttachVM(vm: VMId, machine: MachineId)
    | AddTask(vm: VMId, task: TaskId, priority: Priority)
    | ShutdownVM(vm: VMId)
    | SetTaskPriority(task: TaskId, priority: Priority)
}
