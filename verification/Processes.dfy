/** The process table entries of the kernel (grass/process.h, library/syscall/syscall.h). */
module Processes {
  import opened Memory

  const MAX_NPROCESS := 16
  const GPID_ALL := -1
  const GPID_SHELL := 4
  const GPID_USER_START := 5
  const SYS_RECV := 1
  const SYS_SEND := 2
  const ULL_LIMIT := 0x1_0000_0000_0000_0000

  datatype Status = Unused | Loading | Ready | Running | Runnable | PendingSyscall

  datatype CallStatus = Pending | Done

  type Message = seq<byte>

  datatype Syscall = Syscall(kind: int, sender: int, receiver: int, content: Message, status: CallStatus)

  /** Scheduling and lifetime statistics.  All times are 64-bit unsigned numbers of microseconds. */
  datatype Account = Account(
    level: int, remaining: int, levelRuntime: int, totalRuntime: int, cpuRuntime: int,
    created: int, firstScheduled: int, lastScheduled: int, interrupts: int)

  datatype Process = Process(pid: int, syscall: Syscall, status: Status, account: Account)
}
