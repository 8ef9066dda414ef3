/** The two pure lookup tables of the scheduler. */
module Lookups {
  import opened Types

  /** Scheduling priority of an SLA class: SLA0 is served first, SLA1 next, the rest last. */
  function PriorityFromSLA(s: SLAType): (p: Priority)
    ensures p == HIGH_PRIORITY <==> s == SLA0
    ensures p == MID_PRIORITY <==> s == SLA1
    ensures p == LOW_PRIORITY <==> s != SLA0 && s != SLA1
  {
    match s
    case SLA0 => HIGH_PRIORITY
    case SLA1 => MID_PRIORITY
    case _ => LOW_PRIORITY
  }

  /** The operating system given to a VM created for a CPU: AIX on POWER, LINUX elsewhere. */
  function DefaultVMTypeForCPU(cpu: CPUType): (t: VMType)
    ensures t == AIX <==> cpu == POWER
    ensures t == LINUX <==> cpu != POWER
  {
    if cpu == POWER then AIX else LINUX
  }

  /** Urgency of a priority: larger is served first. */
  function Urgency(p: Priority): nat
  {
    match p
    case HIGH_PRIORITY => 2
    case MID_PRIORITY => 1
    case LOW_PRIORITY => 0
  }

  /** Rank of an SLA class: smaller is the stricter contract. */
  function Strictness(s: SLAType): nat
  {
    match s
    case SLA0 => 0
    case SLA1 => 1
    case SLA2 => 2
    case SLA3 => 3
  }

  /** A stricter SLA class never receives a less urgent priority. */
  lemma PriorityFromSLAMonotone(a: SLAType, b: SLAType)
    requires Strictness(a) <= Strictness(b)
    ensures Urgency(PriorityFromSLA(a)) >= Urgency(PriorityFromSLA(b))
  {
  }
}
