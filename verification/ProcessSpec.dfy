/** The process table as a state machine over values: what fork, exec, exit(0) and a timer tick do,
    and what every run keeps. */
module ProcessSpec {
  import opened Options

  const NUM_PROCS: nat := 64

  datatype State = WAIT | SLEEPING | READY | RUNNING | DEAD | ZOMBIE

  /** The fields of a task block that the table operations use. */
  datatype Task = Task(pid: nat, ppid: nat, state: State)

  /** A slot of zeroed memory. */
  const NO_TASK: Task := Task(0, 0, WAIT)

  /** A task pointer points into the ready queue or to a task block of its own. */
  datatype Ref = Slot(i: nat) | Block(b: nat)

  datatype Procs = Procs(
    ready: seq<Task>, zombie: seq<Task>, count: nat, upid: nat,
    blocks: seq<Task>, curr: Ref, child: Option<nat>)

  /** The arrays have their size and the pointers point somewhere. */
  predicate Shaped(s: Procs) {
    && |s.ready| == |s.zombie| == NUM_PROCS && s.count < NUM_PROCS
    && (match s.curr case Slot(i) => i < NUM_PROCS case Block(b) => b < |s.blocks|)
    && (s.child.Some? ==> s.child.value < |s.blocks|)
  }

  function Current(s: Procs): Task
    requires Shaped(s)
  {
    match s.curr
    case Slot(i) => s.ready[i]
    case Block(b) => s.blocks[b]
  }

  function SetCurrent(s: Procs, t: Task): (s': Procs)
    requires Shaped(s)
    ensures Shaped(s') && Current(s') == t
  {
    match s.curr
    case Slot(i) => s.(ready := s.ready[i := t])
    case Block(b) => s.(blocks := s.blocks[b := t])
  }

  /** The first index from `i` on, below `end`, that holds `pid`; `end` if there is none. */
  function Find(q: seq<Task>, i: nat, end: nat, pid: nat): (r: nat)
    requires i <= end <= |q|
    ensures i <= r <= end && (r < end ==> q[r].pid == pid) && forall k | i <= k < r :: q[k].pid != pid
    decreases end - i
  {
    if i == end || q[i].pid == pid then i else Find(q, i + 1, end, pid)
  }

  /** The queue with slot `i` overwritten by its successors, up to and including slot `count`. */
  function Remove(q: seq<Task>, i: nat, count: nat): (r: seq<Task>)
    requires i < count < |q|
    ensures |r| == |q|
    ensures forall k | 0 <= k < |q| :: r[k] == if i <= k < count then q[k + 1] else q[k]
  {
    q[..i] + q[i + 1..count + 1] + q[count..]
  }

  // ---- The operations

  /** init_usr_pcb for the first process */
  function Boot(): (s: Procs)
    ensures Shaped(s)
  {
    var t := Task(1, 0, READY);
    Procs([t] + seq(NUM_PROCS - 1, _ => NO_TASK), seq(NUM_PROCS, _ => NO_TASK), 1, 1, [t], Slot(0), None)
  }

  /** fork_process: a new block, not yet in the queue */
  function Fork(s: Procs): (s': Procs)
    requires Shaped(s)
    ensures Shaped(s')
  {
    s.(upid := s.upid + 1,
       blocks := s.blocks + [Task(s.upid + 1, Current(s).pid, READY)],
       child := Some(|s.blocks|))
  }

  /** exec, as far as the queue: the child's block is copied behind the last task, and becomes current */
  function Exec(s: Procs): (s': Procs)
    requires Shaped(s) && s.child.Some? && s.count + 1 < NUM_PROCS
    ensures Shaped(s')
  {
    s.(count := s.count + 1, ready := s.ready[s.count := s.blocks[s.child.value]], curr := Block(s.child.value))
  }

  /** The first part of exit_process(0): the current task is copied to its zombie slot and taken out of the queue. The
      search starts at slot 1 and reads slot `count` as well. */
  function Leave(s: Procs): (s': Procs)
    requires Shaped(s) && 0 < s.count && Current(s).pid < NUM_PROCS
    ensures Shaped(s')
  {
    var c := Current(s).(state := ZOMBIE);
    var s1 := SetCurrent(s, c);
    var i := Find(s1.ready, 1, s1.count + 1, c.pid);
    var q := if i < s1.count then Remove(s1.ready, i, s1.count) else s1.ready;
    s1.(ready := q, zombie := s1.zombie[c.pid := c], count := s1.count - 1)
  }

  /** exit_process(0) up to the jump into the kernel */
  function Exit(s: Procs): (s': Procs)
    requires Shaped(s) && 0 < s.count && Current(s).pid < NUM_PROCS
    ensures Shaped(s')
  {
    Adopt(Leave(s))
  }

  /** The end of exit_process: the parent of what `curr_upcb` now points to becomes current, if it is in the queue. */
  function Adopt(s: Procs): (s': Procs)
    requires Shaped(s)
    ensures Shaped(s')
  {
    var j := Find(s.ready, 0, s.count, Current(s).ppid);
    if j < s.count then s.(curr := Slot(j)) else s
  }

  /** usr_schedule: the parent of the current task, else its first child, else nobody */
  function Choice(s: Procs): (r: Option<nat>)
    requires Shaped(s)
    ensures r.Some? ==> r.value < s.count
  {
    var p := Find(s.ready, 0, s.count, Current(s).ppid);
    if p < s.count then Some(p)
    else
      var c := FindChild(s.ready, 0, s.count, Current(s).pid);
      if c < s.count then Some(c) else None
  }

  function FindChild(q: seq<Task>, j: nat, end: nat, pid: nat): (r: nat)
    requires j <= end <= |q|
    ensures j <= r <= end && (r < end ==> q[r].ppid == pid) && forall k | j <= k < r :: q[k].ppid != pid
    decreases end - j
  {
    if j == end || q[j].ppid == pid then j else FindChild(q, j + 1, end, pid)
  }

  function Tick(s: Procs): (s': Procs)
    requires Shaped(s)
    ensures Shaped(s')
  {
    match Choice(s)
    case Some(i) => s.(curr := Slot(i))
    case None => s
  }
}
