/** What every run of the process table keeps, and exactly when single operations keep it. */
module ProcessRuns {
  import opened ProcessSpec

  // ---- Invariants

  /** The queue is a dense prefix of tasks with growing pids, the shell first, and then zeroed slots. */
  ghost predicate Dense(s: Procs) {
    && |s.ready| == NUM_PROCS && 1 <= s.count < NUM_PROCS
    && s.ready[0].pid == 1
    && (forall i, j | 0 <= i < j < s.count :: s.ready[i].pid < s.ready[j].pid)
    && (forall i | s.count <= i < NUM_PROCS :: s.ready[i] == NO_TASK)
  }

  ghost predicate Live(s: Procs, p: nat)
    requires |s.ready| == NUM_PROCS && s.count < NUM_PROCS
  {
    exists i | 0 <= i < s.count :: s.ready[i].pid == p
  }

  ghost predicate Dead(s: Procs, p: nat)
    requires |s.zombie| == NUM_PROCS
  {
    0 < p < NUM_PROCS && s.zombie[p].pid == p
  }

  /** Every pid ever queued is in exactly one place: the queue, or its own zombie slot. */
  ghost predicate Accounted(s: Procs, queued: set<nat>)
    requires |s.ready| == |s.zombie| == NUM_PROCS && s.count < NUM_PROCS
  {
    && (forall p: nat :: p in queued <==> Live(s, p) || Dead(s, p))
    && (forall p: nat :: !(Live(s, p) && Dead(s, p)))
    && (forall p: nat | p in queued :: p <= s.upid)
    && (forall p: nat | p < NUM_PROCS ::
          s.zombie[p] == NO_TASK || (s.zombie[p].pid == p && s.zombie[p].state == ZOMBIE))
  }

  /** Parents are older than their children, in the queue, among the zombies and in every block. */
  ghost predicate ParentsOlder(s: Procs)
    requires |s.ready| == |s.zombie| == NUM_PROCS && s.count < NUM_PROCS
  {
    && (forall i | 0 <= i < s.count :: s.ready[i].ppid < s.ready[i].pid)
    && (forall p: nat | Dead(s, p) :: s.zombie[p].ppid < p)
    && (forall b | 0 <= b < |s.blocks| :: s.blocks[b].ppid < s.blocks[b].pid <= s.upid)
  }

  ghost predicate Inv(s: Procs, queued: set<nat>) {
    && Shaped(s) && Dense(s) && Accounted(s, queued) && ParentsOlder(s)
    && s.upid < NUM_PROCS
    && (s.child.Some? ==> s.blocks[s.child.value].pid == s.upid)
  }

  // ---- Events

  datatype Event = EFork | EExec | EExit | ETick

  /** The current task sits in the queue behind the shell. */
  ghost predicate CanExit(s: Procs)
    requires Shaped(s)
  {
    exists i | 1 <= i < s.count :: s.ready[i].pid == Current(s).pid
  }

  /** The forked child has never been queued. */
  ghost predicate FreshChild(s: Procs, queued: set<nat>)
    requires Shaped(s)
  {
    s.child.Some? && s.blocks[s.child.value].pid !in queued
  }

  ghost predicate Enabled(s: Procs, queued: set<nat>, e: Event)
    requires Shaped(s)
  {
    match e
    case EFork => s.upid + 1 < NUM_PROCS
    case EExec => FreshChild(s, queued) && s.count + 1 < NUM_PROCS
    case EExit => CanExit(s)
    case ETick => s.count > 1
  }

  ghost function Apply(s: Procs, e: Event): Procs
    requires Shaped(s) && (e.EExec? ==> s.child.Some? && s.count + 1 < NUM_PROCS)
    requires e.EExit? ==> 0 < s.count && Current(s).pid < NUM_PROCS
  {
    match e
    case EFork => Fork(s)
    case EExec => Exec(s)
    case EExit => Exit(s)
    case ETick => Tick(s)
  }

  ghost function Queued(s: Procs, queued: set<nat>, e: Event): set<nat>
    requires Shaped(s) && (e.EExec? ==> s.child.Some?)
  {
    if e.EExec? then queued + {s.blocks[s.child.value].pid} else queued
  }

  // ---- Preservation

  lemma BootInv()
    ensures Inv(Boot(), {1})
  {
    assert Boot().ready[0].pid == 1;
    assert Live(Boot(), 1);
  }

  lemma ForkInv(s: Procs, queued: set<nat>)
    requires Inv(s, queued) && s.upid + 1 < NUM_PROCS
    ensures Inv(Fork(s), queued)
  {
    var s' := Fork(s);
    CurrentPid(s, queued);
    forall p: nat ensures Live(s', p) == Live(s, p) && Dead(s', p) == Dead(s, p) {}
  }

  /** The current pid never exceeds the last one given. */
  lemma CurrentPid(s: Procs, queued: set<nat>)
    requires Inv(s, queued)
    ensures Current(s).pid <= s.upid && (Current(s).pid > 0 ==> Current(s).ppid < Current(s).pid)
  {
    match s.curr
    case Slot(i) =>
      if i < s.count { assert Live(s, s.ready[i].pid); }
    case Block(b) =>
  }

  lemma ExecInv(s: Procs, queued: set<nat>)
    requires Inv(s, queued) && FreshChild(s, queued) && s.count + 1 < NUM_PROCS
    ensures Inv(Exec(s), queued + {s.blocks[s.child.value].pid})
  {
    var s', c := Exec(s), s.blocks[s.child.value];
    forall p: nat ensures Live(s', p) <==> Live(s, p) || p == c.pid {
      if Live(s, p) {
        var i :| 0 <= i < s.count && s.ready[i].pid == p;
        assert s'.ready[i].pid == p;
      }
      assert s'.ready[s.count].pid == c.pid;
    }
    forall p: nat ensures Dead(s', p) == Dead(s, p) {}
    forall i | 0 <= i < s.count ensures s.ready[i].pid < c.pid {
      assert Live(s, s.ready[i].pid);
    }
  }

  lemma TickInv(s: Procs, queued: set<nat>)
    requires Inv(s, queued)
    ensures Inv(Tick(s), queued)
  {
    forall p: nat ensures Live(Tick(s), p) == Live(s, p) && Dead(Tick(s), p) == Dead(s, p) {}
  }

  /** The slot that the current task's pid occupies behind the shell. */
  ghost function OwnSlot(s: Procs): (i: nat)
    requires Shaped(s) && CanExit(s)
    ensures 1 <= i < s.count && s.ready[i].pid == Current(s).pid
  {
    var i :| 1 <= i < s.count && s.ready[i].pid == Current(s).pid;
    i
  }

  /** From `s` to `s'`, slot `i` has left the queue, the rest keeps its order, and `c` lies in its zombie slot. */
  ghost predicate Removed(s: Procs, s': Procs, i: nat, c: Task) {
    && |s.ready| == |s'.ready| == NUM_PROCS == |s.zombie| && c.pid < NUM_PROCS
    && 1 <= i < s.count < NUM_PROCS && s'.count == s.count - 1
    && s'.ready == Remove(s.ready, i, s.count)
    && s'.zombie == s.zombie[c.pid := c.(state := ZOMBIE)]
    && s'.upid == s.upid && s'.child == s.child && |s'.blocks| == |s.blocks|
    && forall b | 0 <= b < |s.blocks| :: s'.blocks[b].pid == s.blocks[b].pid && s'.blocks[b].ppid == s.blocks[b].ppid
  }

  lemma RemovedSlot(q: seq<Task>, i: nat, count: nat, t: Task)
    requires i < count < |q|
    ensures Remove(q[i := t], i, count) == Remove(q, i, count)
  {
  }

  /** exit(0) takes exactly the current pid out of the queue, keeps the order of the rest,
      and leaves that task in its zombie slot. */
  lemma ExitRemoves(s: Procs)
    requires Shaped(s) && Dense(s) && CanExit(s) && Current(s).pid < NUM_PROCS
    ensures Removed(s, Exit(s), OwnSlot(s), Current(s))
  {
    if s.curr.Slot? { SlotLeaves(s, OwnSlot(s)); } else { BlockLeaves(s, OwnSlot(s)); }
  }

  lemma SlotLeaves(s: Procs, i: nat)
    requires Shaped(s) && Dense(s) && s.curr.Slot? && 1 <= i < s.count && s.ready[i].pid == Current(s).pid < NUM_PROCS
    ensures Removed(s, Leave(s), i, Current(s))
  {
    var x, c := s.curr.i, Current(s).(state := ZOMBIE);
    SamePid(s, x, i);
    FindOwn(s, s.ready[x := c], i);
    RemovedSlot(s.ready, i, s.count, c);
  }

  lemma BlockLeaves(s: Procs, i: nat)
    requires Shaped(s) && Dense(s) && s.curr.Block? && 1 <= i < s.count && s.ready[i].pid == Current(s).pid < NUM_PROCS
    ensures Removed(s, Leave(s), i, Current(s))
  {
    FindOwn(s, s.ready, i);
  }

  /** Of the blocks it changes the exiting task's own, if that runs from one, to a zombie. */
  lemma ExitBlocks(s: Procs)
    requires Shaped(s) && 0 < s.count && Current(s).pid < NUM_PROCS
    ensures Exit(s).blocks
         == match s.curr case Slot(_) => s.blocks case Block(b) => s.blocks[b := Current(s).(state := ZOMBIE)]
  {
  }

  /** A nonzero pid has one slot. */
  lemma SamePid(s: Procs, x: nat, i: nat)
    requires Dense(s) && x < NUM_PROCS && i < s.count && s.ready[x].pid == s.ready[i].pid
    ensures x == i
  {
    assert i > 0 ==> s.ready[0].pid < s.ready[i].pid;
    assert x < s.count;
  }

  /** The search of exit_process finds the slot, whatever the states in the queue. */
  lemma FindOwn(s: Procs, q: seq<Task>, i: nat)
    requires Dense(s) && 1 <= i < s.count && |q| == NUM_PROCS
    requires forall k | 0 <= k < NUM_PROCS :: q[k].pid == s.ready[k].pid
    ensures Find(q, 1, s.count + 1, s.ready[i].pid) == i
  {
    var r := Find(q, 1, s.count + 1, s.ready[i].pid);
    assert q[i].pid == s.ready[i].pid;
    SamePid(s, r, i);
  }

  /** The removed pid, and no other, is no longer live. */
  lemma LiveAfter(s: Procs, s': Procs, i: nat, c: Task, p: nat)
    requires Dense(s) && Removed(s, s', i, c) && c.pid == s.ready[i].pid
    ensures Live(s', p) <==> Live(s, p) && p != c.pid
  {
    if Live(s', p) {
      var k :| 0 <= k < s'.count && s'.ready[k].pid == p;
      assert s.ready[if k < i then k else k + 1].pid == p;
    }
    if Live(s, p) && p != c.pid {
      var k :| 0 <= k < s.count && s.ready[k].pid == p;
      assert s'.ready[if k < i then k else k - 1].pid == p;
    }
  }

  lemma ExitInv(s: Procs, queued: set<nat>)
    requires Inv(s, queued) && CanExit(s)
    ensures Current(s).pid < NUM_PROCS && Inv(Exit(s), queued)
  {
    CurrentPid(s, queued);
    assert s.ready[0].pid < s.ready[OwnSlot(s)].pid;
    ExitRemoves(s);
    RemovedInv(s, Exit(s), OwnSlot(s), Current(s), queued);
  }

  lemma RemovedInv(s: Procs, s': Procs, i: nat, c: Task, queued: set<nat>)
    requires Inv(s, queued) && Removed(s, s', i, c) && c.pid == s.ready[i].pid && c.ppid < c.pid && Shaped(s')
    ensures Inv(s', queued)
  {
    forall p: nat
      ensures Live(s', p) <==> Live(s, p) && p != c.pid
      ensures Dead(s', p) <==> Dead(s, p) || p == c.pid
    {
      LiveAfter(s, s', i, c, p);
    }
    assert Live(s, c.pid);
  }

  // ---- Runs

  /** A run of enabled events from boot: the states it passes, and the pids queued so far. */
  ghost predicate IsRun(es: seq<Event>, ss: seq<Procs>, qs: seq<set<nat>>) {
    && |ss| == |qs| == |es| + 1 && ss[0] == Boot() && qs[0] == {1}
    && forall k | 0 <= k < |es| :: Follows(ss[k], qs[k], es[k], ss[k + 1], qs[k + 1])
  }

  ghost predicate Follows(s: Procs, q: set<nat>, e: Event, s': Procs, q': set<nat>) {
    && Shaped(s) && Enabled(s, q, e)
    && (e.EExit? ==> 0 < s.count && Current(s).pid < NUM_PROCS)
    && s' == Apply(s, e) && q' == Queued(s, q, e)
  }

  /** Every state of every run satisfies the invariant. */
  lemma {:induction false} RunInv(es: seq<Event>, ss: seq<Procs>, qs: seq<set<nat>>, k: nat)
    requires IsRun(es, ss, qs) && k < |ss|
    ensures Inv(ss[k], qs[k])
  {
    if k == 0 {
      BootInv();
    } else {
      RunInv(es, ss, qs, k - 1);
      var s, q, e := ss[k - 1], qs[k - 1], es[k - 1];
      assert Follows(s, q, e, ss[k], qs[k]);
      match e
      case EFork => ForkInv(s, q);
      case EExec => ExecInv(s, q);
      case EExit => ExitInv(s, q);
      case ETick => TickInv(s, q);
    }
  }

  // ---- Exact conditions

  /** exit(0) keeps the queue dense exactly when the current task is queued behind the shell. */
  lemma ExitExact(s: Procs, queued: set<nat>)
    requires Inv(s, queued)
    ensures Current(s).pid < NUM_PROCS && (Dense(Exit(s)) <==> CanExit(s))
  {
    CurrentPid(s, queued);
    if CanExit(s) {
      ExitInv(s, queued);
    } else {
      var last := s.count - 1;
      assert Exit(s).ready[last].pid == s.ready[last].pid;
      assert last > 0 ==> s.ready[0].pid < s.ready[last].pid;
    }
  }

  /** exec keeps every pid in one place exactly when the forked child was never queued before. */
  lemma ExecExact(s: Procs, queued: set<nat>)
    requires Inv(s, queued) && s.child.Some? && s.count + 1 < NUM_PROCS
    ensures Inv(Exec(s), queued + {s.blocks[s.child.value].pid}) <==> FreshChild(s, queued)
  {
    var s', p := Exec(s), s.blocks[s.child.value].pid;
    if FreshChild(s, queued) {
      ExecInv(s, queued);
    } else {
      assert s'.ready[s.count].pid == p && Live(s', p);
      if Live(s, p) {
        var i :| 0 <= i < s.count && s.ready[i].pid == p;
        assert s'.ready[i].pid == s'.ready[s.count].pid;
      } else {
        assert Dead(s, p) && Dead(s', p);
      }
    }
  }

  /** A task that runs from its own block hands over to its parent, if the parent is in the queue. */
  lemma ExitFromBlock(s: Procs, queued: set<nat>)
    requires Inv(s, queued) && CanExit(s) && s.curr.Block?
    ensures Current(s).pid < NUM_PROCS
    ensures Live(Exit(s), Current(s).ppid) ==> Exit(s).curr.Slot? && Current(Exit(s)).pid == Current(s).ppid
    ensures !Live(Exit(s), Current(s).ppid) ==> Exit(s).curr == s.curr
  {
    ExitInv(s, queued);
    ExitRemoves(s);
  }

  /** A task that runs from its queue slot, as after a timer tick or another exit, is overwritten by its successor
      before its parent is looked up: the live parent becomes current exactly when the successor has the same parent. */
  lemma ExitFromSlot(s: Procs, queued: set<nat>)
    requires Inv(s, queued) && CanExit(s) && s.curr.Slot? && Live(s, Current(s).ppid)
    ensures s.curr.i < s.count && Current(s).pid < NUM_PROCS
    ensures var i := s.curr.i;
            Current(Exit(s)).pid == Current(s).ppid <==> i + 1 < s.count && s.ready[i + 1].ppid == s.ready[i].ppid
  {
    var i, ppid := s.curr.i, Current(s).ppid;
    SamePid(s, i, OwnSlot(s));
    ExitInv(s, queued);
    ExitRemoves(s);
    var s' := Exit(s);
    LiveAfter(s, s', i, Current(s), ppid);
    assert ppid > 0 by {
      var k :| 0 <= k < s.count && s.ready[k].pid == ppid;
      assert k > 0 ==> s.ready[0].pid < s.ready[k].pid;
    }
    if i + 1 < s.count {
      assert ppid < s.ready[i].pid < s.ready[i + 1].pid;
    } else {
      assert forall k | 0 < k < s'.count :: s'.ready[0].pid < s'.ready[k].pid;
    }
  }

  // ---- Fork, exec and exit together

  /** exec makes the forked child current, and its pid is the one that becomes live. */
  lemma ExecRuns(s: Procs, queued: set<nat>, p: nat)
    requires Inv(s, queued) && FreshChild(s, queued) && s.count + 1 < NUM_PROCS
    ensures var t := Exec(s);
            && Current(t) == s.blocks[s.child.value] && Current(t).pid == s.upid
            && (Live(t, p) && !Live(s, p) <==> p == Current(t).pid) && (Live(s, p) ==> Live(t, p)) && CanExit(t)
  {
    var t, c := Exec(s), s.blocks[s.child.value];
    assert t.ready[s.count] == c;
    if Live(s, p) {
      var i :| 0 <= i < s.count && s.ready[i].pid == p;
      assert t.ready[i].pid == p;
    }
    assert Live(s, c.pid) ==> c.pid in queued;
  }

  /** The forked child's parent is the forker. */
  lemma ForkChild(s: Procs, queued: set<nat>)
    requires Inv(s, queued) && s.upid + 1 < NUM_PROCS
    ensures var t := Fork(s);
            && Inv(t, queued) && FreshChild(t, queued) && Current(t) == Current(s)
            && t.blocks[t.child.value] == Task(t.upid, Current(s).pid, READY)
            && t.ready == s.ready && t.count == s.count
  {
    ForkInv(s, queued);
  }

  /** If the child exits right after exec, the queue is what it was before, and its parent is current if it is there. */
  lemma ExecExit(s: Procs, queued: set<nat>)
    requires Inv(s, queued) && FreshChild(s, queued) && s.count + 1 < NUM_PROCS
    ensures var t, c := Exec(s), s.blocks[s.child.value];
            && CanExit(t) && Current(t).pid < NUM_PROCS
            && Exit(t).ready == s.ready && Exit(t).count == s.count && Dead(Exit(t), c.pid)
            && (Live(s, c.ppid) ==> Exit(t).curr.Slot? && Current(Exit(t)).pid == c.ppid)
  {
    var t, c := Exec(s), s.blocks[s.child.value];
    ExecRuns(s, queued, c.pid);
    ExecInv(s, queued);
    SamePid(t, s.count, OwnSlot(t));
    ExitFromBlock(t, queued + {c.pid});
    ExitRemoves(t);
    Undone(s.ready, s.count, c);
    assert Live(Exit(t), c.ppid) == Live(s, c.ppid);
  }

  /** Taking out what was stored behind the last task. */
  lemma Undone(q: seq<Task>, count: nat, c: Task)
    requires count + 1 < |q| && q[count] == q[count + 1]
    ensures Remove(q[count := c], count, count + 1) == q
  {
  }

  /** fork and exec run a child of the forker, under the next pid. If the child exits, the queue is what it was before
      the fork, and the forker is current again if it is in the queue. */
  lemma ForkExecExit(s: Procs, queued: set<nat>)
    requires Inv(s, queued) && s.upid + 1 < NUM_PROCS && s.count + 1 < NUM_PROCS
    ensures var t := Exec(Fork(s));
            && Current(t) == Task(s.upid + 1, Current(s).pid, READY) && CanExit(t)
            && Exit(t).ready == s.ready && Exit(t).count == s.count && Dead(Exit(t), s.upid + 1)
            && (Live(s, Current(s).pid) ==> Exit(t).curr.Slot? && Current(Exit(t)).pid == Current(s).pid)
  {
    ForkChild(s, queued);
    ExecRuns(Fork(s), queued, s.upid + 1);
    ExecExit(Fork(s), queued);
    assert Live(Fork(s), Current(s).pid) == Live(s, Current(s).pid);
  }

  /** The current task runs one command: fork, exec, and the child's exit(0). */
  ghost predicate Command(s: Procs, s': Procs) {
    && Shaped(s) && s.count + 1 < NUM_PROCS && s.upid + 1 < NUM_PROCS
    && Current(Exec(Fork(s))).pid < NUM_PROCS && s' == Exit(Exec(Fork(s)))
  }

  /** From `s` to `s'`, `n` commands have come and gone: the same queue, the same task current, `n` more zombies. */
  ghost predicate Ran(s: Procs, s': Procs, n: nat) {
    && Shaped(s) && Shaped(s') && s'.ready == s.ready && s'.count == s.count && s'.upid == s.upid + n
    && Current(s').pid == Current(s).pid
    && forall k: nat | Dead(s, k) || s.upid < k <= s.upid + n :: Dead(s', k)
  }

  lemma RanOn(s: Procs, s1: Procs, s2: Procs, n: nat)
    requires Ran(s, s1, n) && Ran(s1, s2, 1)
    ensures Ran(s, s2, n + 1)
  {
  }

  lemma CommandInv(s: Procs, s': Procs, queued: set<nat>)
    requires Inv(s, queued) && Command(s, s')
    ensures Inv(s', queued + {s.upid + 1})
  {
    ForkChild(s, queued);
    ExecInv(Fork(s), queued);
    ForkExecExit(s, queued);
    ExitInv(Exec(Fork(s)), queued + {s.upid + 1});
  }

  lemma CommandRan(s: Procs, s': Procs, queued: set<nat>)
    requires Inv(s, queued) && Command(s, s') && Live(s, Current(s).pid)
    ensures Ran(s, s', 1)
  {
    ForkExecExit(s, queued);
    ForkChild(s, queued);
    ExecInv(Fork(s), queued);
    ExitRemoves(Exec(Fork(s)));
  }

  /** What a run of commands keeps. */
  ghost predicate BetweenCommands(s: Procs, s': Procs, n: nat, queued: set<nat>) {
    Inv(s', queued) && Ran(s, s', n) && Live(s, Current(s).pid)
  }

  lemma CommandOn(s: Procs, s1: Procs, s2: Procs, n: nat, queued: set<nat>)
    requires BetweenCommands(s, s1, n, queued) && Command(s1, s2)
    ensures BetweenCommands(s, s2, n + 1, queued + {s1.upid + 1})
  {
    CommandInv(s1, s2, queued);
    assert Live(s1, Current(s1).pid);
    CommandRan(s1, s2, queued);
    RanOn(s, s1, s2, n);
  }

  /** A task in the queue that runs commands, one after the other, is current again after each of them, with the queue
      as it was. */
  lemma {:induction false} Commands(ss: seq<Procs>, queued: set<nat>, n: nat) returns (q: set<nat>)
    requires n < |ss| && Inv(ss[0], queued) && Live(ss[0], Current(ss[0]).pid)
    requires forall k | 0 <= k < n :: Command(ss[k], ss[k + 1])
    ensures Inv(ss[n], q) && Ran(ss[0], ss[n], n)
  {
    q := queued;
    if n > 0 {
      q := Commands(ss, queued, n - 1);
      CommandOn(ss[0], ss[n - 1], ss[n], n - 1, q);
      q := q + {ss[n - 1].upid + 1};
    }
  }

  /** A task that runs from the last slot of the queue does not hand over to its live parent. */
  lemma ExitFromLast(s: Procs, queued: set<nat>, i: nat)
    requires Inv(s, queued) && s.curr.Slot? && 1 <= i == s.count - 1 && Current(s).pid == s.ready[i].pid
    requires Live(s, Current(s).ppid)
    ensures Current(s).pid < NUM_PROCS && Current(Exit(s)).pid != Current(s).ppid
  {
    SamePid(s, s.curr.i, i);
    ExitFromSlot(s, queued);
  }

  /** So a command that has run a command itself does not return to its parent. */
  lemma NestedCommand(s: Procs, u: Procs, queued: set<nat>)
    requires Inv(s, queued) && Live(s, Current(s).pid) && s.upid + 1 < NUM_PROCS && s.count + 1 < NUM_PROCS
    requires Command(Exec(Fork(s)), u)
    ensures 0 < u.count && Current(u).pid == s.upid + 1 && Current(u).ppid == Current(s).pid
    ensures Current(Exit(u)).pid != Current(s).pid
  {
    var t, q := Exec(Fork(s)), queued + {s.upid + 1};
    StartedCommand(s, queued);
    CommandInv(t, u, q);
    ForkExecExit(t, q);
    SamePid(u, u.curr.i, s.count);
    assert Live(u, Current(s).pid) == Live(t, Current(s).pid);
    ExitFromLast(u, q + {t.upid + 1}, s.count);
  }

  /** What the queue holds while a command runs. */
  lemma StartedCommand(s: Procs, queued: set<nat>)
    requires Inv(s, queued) && Live(s, Current(s).pid) && s.upid + 1 < NUM_PROCS && s.count + 1 < NUM_PROCS
    ensures var t := Exec(Fork(s));
            && Inv(t, queued + {s.upid + 1}) && t.count == s.count + 1 && Live(t, Current(s).pid)
            && t.ready[s.count] == Current(t) == Task(s.upid + 1, Current(s).pid, READY) && Live(t, Current(t).pid)
  {
    ForkChild(s, queued);
    ExecInv(Fork(s), queued);
    var t := Exec(Fork(s));
    var i :| 0 <= i < s.count && s.ready[i].pid == Current(s).pid;
    assert t.ready[i].pid == Current(s).pid && t.ready[s.count].pid == Current(t).pid;
  }

  // ---- Scheduling

  ghost predicate HasChild(s: Procs, pid: nat)
    requires |s.ready| == NUM_PROCS && s.count < NUM_PROCS
  {
    exists i | 0 <= i < s.count :: s.ready[i].ppid == pid
  }

  /** A tick goes to the live parent if there is one, else to the lowest live child, else nowhere. */
  lemma TickChoice(s: Procs, queued: set<nat>)
    requires Inv(s, queued)
    ensures var s', c := Tick(s), Current(s);
            && s'.(curr := s.curr) == s
            && (Live(s, c.ppid) ==> s'.curr.Slot? && s'.curr.i < s.count && Current(s').pid == c.ppid)
            && (!Live(s, c.ppid) && HasChild(s, c.pid) ==>
                  && s'.curr.Slot? && s'.curr.i < s.count && Current(s').ppid == c.pid
                  && forall k | 0 <= k < s.count && s.ready[k].ppid == c.pid :: s'.curr.i <= k)
            && (!Live(s, c.ppid) && !HasChild(s, c.pid) ==> s' == s)
  {
  }

  ghost function Iterate<T>(f: T -> T, x: T, n: nat): T {
    if n == 0 then x else f(Iterate(f, x, n - 1))
  }

  lemma {:induction false} PeriodTwo<T>(f: T -> T, x: T, n: nat)
    requires f(f(x)) == x
    ensures Iterate(f, x, n) == if n % 2 == 0 then x else f(x)
  {
    if n > 0 { PeriodTwo(f, x, n - 1); }
  }

  ghost function TimerTick(s: Procs): Procs { if Shaped(s) then Tick(s) else s }

  /** Timer ticks alone starve all but two tasks: from a queued task without a live parent they alternate between
      that task and its first child for ever. */
  lemma TicksAlternate(s: Procs, queued: set<nat>, n: nat)
    requires Inv(s, queued) && s.curr.Slot? && s.curr.i < s.count && !Live(s, Current(s).ppid)
    ensures Iterate(TimerTick, s, n) == if n % 2 == 0 then s else Tick(s)
  {
    TickBack(s, queued);
    PeriodTwo(TimerTick, s, n);
  }

  lemma TickBack(s: Procs, queued: set<nat>)
    requires Inv(s, queued) && s.curr.Slot? && s.curr.i < s.count && !Live(s, Current(s).ppid)
    ensures Tick(Tick(s)) == s
  {
    TickChoice(s, queued);
    TickInv(s, queued);
    var s' := Tick(s);
    if HasChild(s, Current(s).pid) {
      TickChoice(s', queued);
      assert Live(s', Current(s).pid);
      SamePid(s, Tick(s').curr.i, s.curr.i);
    }
  }
}
