/** The process table as the kernel updates it: two arrays, counters and task pointers. */
module ProcessTable {
  import opened Options
  import opened ProcessSpec
  import opened ProcessRuns

  lemma Wraps(i: nat, n: nat)
    requires 1 <= i <= n
    ensures i % n == 0 <==> i == n
  {
    if i < n { assert i % n == i; }
  }

  class Table {
    const readyQueue: array<Task>
    const zombieQueue: array<Task>
    var processCount: nat
    var upid: nat
    var blocks: seq<Task>         // task blocks handed out by kmalloc
    var currUpcb: Ref
    var globalChild: Option<nat>  // index of a block

    ghost function View(): Procs
      reads this, readyQueue, zombieQueue
    {
      Procs(readyQueue[..], zombieQueue[..], processCount, upid, blocks, currUpcb, globalChild)
    }

    ghost predicate Valid()
      reads this, readyQueue, zombieQueue
    {
      readyQueue != zombieQueue && Shaped(View())
    }

    function CurrentTask(): Task
      requires Valid()
      reads this, readyQueue, zombieQueue
    {
      match currUpcb
      case Slot(i) => readyQueue[i]
      case Block(b) => blocks[b]
    }

    /** init_queues, then init_usr_pcb for the first process */
    constructor ()
      ensures Valid() && fresh(readyQueue) && fresh(zombieQueue) && View() == Boot()
    {
      readyQueue := new Task[NUM_PROCS](_ => NO_TASK);
      zombieQueue := new Task[NUM_PROCS](_ => NO_TASK);
      var pcb := Task(1, 0, READY);
      upid := 1;
      processCount := 1;
      blocks := [pcb];
      globalChild := None;
      currUpcb := Slot(0);
      new;
      readyQueue[0] := pcb;
      assert View() == Boot();
    }

    /** fork_process, as far as the table */
    method ForkProcess() returns (childPid: nat)
      requires Valid()
      modifies this
      ensures Valid() && View() == Fork(old(View())) && childPid == upid == old(upid) + 1
      ensures globalChild.Some? && blocks[globalChild.value] == Task(childPid, old(CurrentTask()).pid, READY)
    {
      var parent := CurrentTask();
      upid := upid + 1;
      var child := Task(upid, parent.pid, READY);
      globalChild := Some(|blocks|);
      blocks := blocks + [child];
      childPid := child.pid;
    }

    method AddToReadyListUser(pcb: nat)
      requires Valid() && pcb < |blocks| && 1 <= processCount
      modifies this`currUpcb, readyQueue
      ensures Valid() && readyQueue[..] == old(readyQueue[..])[processCount - 1 := blocks[pcb]]
      ensures currUpcb == if processCount == 1 then Slot(0) else old(currUpcb)
    {
      readyQueue[processCount - 1] := blocks[pcb];
      if processCount == 1 {
        currUpcb := Slot(0);
      }
    }

    /** exec, as far as the queue */
    method Exec()
      requires Valid() && globalChild.Some? && processCount + 1 < NUM_PROCS
      modifies this, readyQueue
      ensures Valid() && View() == ProcessSpec.Exec(old(View()))
      ensures CurrentTask() == old(blocks[globalChild.value]) == readyQueue[processCount - 1]
    {
      var pcb := globalChild.value;
      processCount := processCount + 1;
      AddToReadyListUser(pcb);
      currUpcb := Block(pcb);
    }

    /** exit_process(0), up to the jump into the kernel */
    method ExitProcess()
      requires Valid() && 0 < processCount && CurrentTask().pid < NUM_PROCS
      modifies this, readyQueue, zombieQueue
      ensures Valid() && View() == Exit(old(View()))
    {
      LeaveQueue();
      AdoptParent();
    }

    method LeaveQueue()
      requires Valid() && 0 < processCount && CurrentTask().pid < NUM_PROCS
      modifies this, readyQueue, zombieQueue
      ensures Valid() && View() == Leave(old(View()))
    {
      SetState(ZOMBIE);
      var task := CurrentTask();
      zombieQueue[task.pid] := task;
      var i := FindBehindShell(task.pid);
      if i < processCount {
        ShiftDown(i);
      }
      processCount := processCount - 1;
    }

    method SetState(st: State)
      requires Valid()
      modifies this, readyQueue
      ensures Valid() && View() == SetCurrent(old(View()), old(CurrentTask()).(state := st))
    {
      match currUpcb
      case Slot(i) => readyQueue[i] := readyQueue[i].(state := st);
      case Block(b) => blocks := blocks[b := blocks[b].(state := st)];
    }

    method FindBehindShell(pid: nat) returns (i: nat)
      requires Valid() && 0 < processCount
      ensures i == Find(readyQueue[..], 1, processCount + 1, pid)
    {
      i := 1;
      while i <= processCount
        invariant 1 <= i <= processCount + 1
        invariant Find(readyQueue[..], i, processCount + 1, pid) == Find(readyQueue[..], 1, processCount + 1, pid)
      {
        if readyQueue[i].pid == pid {
          break;
        }
        i := i + 1;
      }
    }

    method ShiftDown(first: nat)
      requires Valid() && first < processCount
      modifies readyQueue
      ensures readyQueue[..] == Remove(old(readyQueue[..]), first, processCount)
    {
      var i := first;
      while i + 1 <= processCount
        invariant first <= i <= processCount
        invariant forall k | 0 <= k < NUM_PROCS ::
                    readyQueue[k] == if first <= k < i then old(readyQueue[k + 1]) else old(readyQueue[k])
      {
        readyQueue[i] := readyQueue[i + 1];
        i := i + 1;
      }
    }

    method AdoptParent()
      requires Valid()
      modifies this`currUpcb
      ensures Valid() && View() == Adopt(old(View()))
    {
      var j := 0;
      ghost var ppid := CurrentTask().ppid;
      while j < processCount
        invariant 0 <= j <= processCount && currUpcb == old(currUpcb)
        invariant Find(readyQueue[..], j, processCount, ppid) == Find(readyQueue[..], 0, processCount, ppid)
      {
        if readyQueue[j].pid == CurrentTask().ppid {
          currUpcb := Slot(j);
          break;
        }
        j := j + 1;
      }
    }

    /** The scan reads slots n-1, 0, 1, .., n-2 and stops at the first that holds `ppid`; `i` is one more than the
        slot. */
    method ScanForParent(ppid: nat) returns (i: nat)
      requires Valid() && Dense(View()) && 1 < processCount
      ensures 1 <= i <= processCount
      ensures readyQueue[i - 1].pid == ppid ==> i - 1 == Find(readyQueue[..], 0, processCount, ppid)
      ensures readyQueue[i - 1].pid != ppid ==>
                i == processCount - 1 && Find(readyQueue[..], 0, processCount, ppid) == processCount
    {
      var n := processCount;
      assert forall k | 0 < k < n :: View().ready[0].pid < View().ready[k].pid;
      i := n;
      while ppid != readyQueue[i - 1].pid && readyQueue[i - 1].pid != 0
        invariant 1 <= i <= n
        invariant i < n ==> readyQueue[n - 1].pid != ppid && forall k | 0 <= k < i - 1 :: readyQueue[k].pid != ppid
        decreases if i == n then n else n - 1 - i
      {
        if i == n - 1 {
          break;
        }
        Wraps(i, n);
        if i % n == 0 {
          i := 1;
        } else {
          i := i + 1;
        }
      }
      if readyQueue[i - 1].pid == ppid {
        SamePid(View(), i - 1, Find(readyQueue[..], 0, n, ppid));
      }
    }

    method ScanForChild(pid: nat) returns (j: nat)
      requires Valid() && Dense(View())
      ensures j == FindChild(readyQueue[..], 0, processCount, pid)
    {
      assert forall k | 0 < k < processCount :: View().ready[0].pid < View().ready[k].pid;
      j := 0;
      while pid != readyQueue[j].ppid && readyQueue[j].pid != 0
        invariant 0 <= j <= processCount
        invariant FindChild(readyQueue[..], j, processCount, pid) == FindChild(readyQueue[..], 0, processCount, pid)
        decreases processCount - j
      {
        j := j + 1;
      }
    }

    /** usr_schedule, as the timer calls it: the circular scan for the parent, then the scan for a child,
        which the zeroed slot behind the last task stops. */
    method UsrSchedule()
      requires Valid() && Dense(View()) && readyQueue[0].ppid == 0 && 1 < processCount
      modifies this`currUpcb
      ensures Valid() && View() == Tick(old(View()))
    {
      var task := CurrentTask();
      var i := ScanForParent(task.ppid);
      var j := 0;
      if i == processCount - 1 {
        j := ScanForChild(task.pid);
      }
      i := i - 1;
      if task.ppid == readyQueue[i].pid {
        currUpcb := Slot(i);
      } else if task.pid == readyQueue[j].ppid {
        currUpcb := Slot(j);
      }
    }
  }
}
