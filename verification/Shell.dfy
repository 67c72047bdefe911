/**
 * The fork, SIGCHLD and job-table protocol of `shlab/tsh.c`: the shell's own steps, the steps of the
 * SIGCHLD handler, and state changes of children, interleaved in any order.
 */
module Shell {
  import opened Jobs

  /** What the kernel knows of a child that has not been reaped. `Stopping`: stopped, not yet reported. */
  datatype Child = Running | Stopping | Stopped | Zombie

  /** Where the shell stands in `eval`; `Exited` is the end of the shell. */
  datatype Pc = Ready | Masked(bg: bool) | Forked(pid: nat, bg: bool) | Added(pid: nat, bg: bool) | Waiting(pid: nat) | Exited

  datatype System = System(pc: Pc, inHandler: bool, pending: bool, children: map<nat, Child>, table: Table)

  datatype Step =
    | Mask(bg: bool)                  // sigprocmask(SIG_BLOCK)
    | Fork(pid: nat)                  // fork returns pid
    | ForkFails
    | AddTheJob(cmdline: string)      // addjob, FG or BG
    | Unmask                          // sigprocmask(SIG_UNBLOCK)
    | CheckFg                         // the test of the loop in waitfg
    | EnterHandler
    | Reap(pid: nat)                  // waitpid reports pid, then deletejob
    | LeaveHandler(echild: bool)      // waitpid reports nothing more
    | ChildExits(pid: nat)
    | ChildStops(pid: nat)
    | ChildContinues(pid: nat)

  function Initial(): System {
    System(Ready, false, false, map[], Table(seq(MAXJOBS, _ => CLEAR), 1))
  }

  predicate Blocked(pc: Pc) {
    pc.Masked? || pc.Forked? || pc.Added?
  }

  predicate Reportable(c: Child) {
    c.Stopping? || c.Zombie?
  }

  /** `masking` says whether `eval` blocks SIGCHLD around fork and addjob, as the source does. */
  ghost predicate Enabled(masking: bool, s: System, step: Step) {
    !s.pc.Exited? &&
    match step
    case Mask(_) => !s.inHandler && s.pc.Ready?
    case Fork(pid) => !s.inHandler && s.pc.Masked? && pid > 0 && pid !in s.children
    case ForkFails => !s.inHandler && s.pc.Masked?
    case AddTheJob(_) => !s.inHandler && s.pc.Forked?
    case Unmask => !s.inHandler && s.pc.Added?
    case CheckFg => !s.inHandler && s.pc.Waiting?
    case EnterHandler => !s.inHandler && s.pending && !(masking && Blocked(s.pc))
    case Reap(pid) => s.inHandler && pid in s.children && Reportable(s.children[pid])
    case LeaveHandler(echild) => s.inHandler && (forall p | p in s.children :: !Reportable(s.children[p])) && (s.children == map[] ==> echild)
    case ChildExits(pid) => pid in s.children && !s.children[pid].Zombie?
    case ChildStops(pid) => pid in s.children && s.children[pid].Running?
    case ChildContinues(pid) => pid in s.children && (s.children[pid].Stopping? || s.children[pid].Stopped?)
  }

  function Apply(s: System, step: Step): System {
    match step
    case Mask(bg) => s.(pc := Masked(bg))
    case Fork(pid) => if s.pc.Masked? then s.(pc := Forked(pid, s.pc.bg), children := s.children[pid := Running]) else s
    case ForkFails => s.(pc := Exited)
    case AddTheJob(cmdline) =>
      if s.pc.Forked? then
        s.(pc := Added(s.pc.pid, s.pc.bg), table := Add(s.table, s.pc.pid, if s.pc.bg then BG else FG, cmdline).0)
      else s
    case Unmask => if s.pc.Added? then s.(pc := if s.pc.bg then Ready else Waiting(s.pc.pid)) else s
    case CheckFg => if s.pc.Waiting? && FgPid(s.table) != s.pc.pid then s.(pc := Ready) else s
    case EnterHandler => s.(inHandler := true, pending := false)
    case Reap(pid) =>
      if pid in s.children then
        s.(children := if s.children[pid].Zombie? then s.children - {pid} else s.children[pid := Stopped],
           table := Delete(s.table, pid).0)
      else s
    case LeaveHandler(echild) => if echild then s.(inHandler := false) else s.(pc := Exited)
    case ChildExits(pid) => s.(children := s.children[pid := Zombie], pending := true)
    case ChildStops(pid) => s.(children := s.children[pid := Stopping], pending := true)
    case ChildContinues(pid) => s.(children := s.children[pid := Running], pending := true)
  }

  function Run(steps: seq<Step>): System {
    if steps == [] then Initial() else Apply(Run(steps[..|steps| - 1]), steps[|steps| - 1])
  }

  /** Every step was possible when it was taken. */
  ghost predicate Possible(masking: bool, steps: seq<Step>) {
    steps == []
    || (Possible(masking, steps[..|steps| - 1]) && Enabled(masking, Run(steps[..|steps| - 1]), steps[|steps| - 1]))
  }

  // ---- Safety ----

  /**
   * Every listed pid is a child not yet reaped, no pid is listed twice, at most one job is in the
   * foreground, and between two commands none is.
   */
  ghost predicate Safe(s: System) {
    && Proper(s.table)
    && Pids(s.table) <= s.children.Keys
    && (forall p, q | p in FgPids(s.table) && q in FgPids(s.table) :: p == q)
    && (s.pc.Ready? ==> FgPids(s.table) == {})
  }

  /** What makes `Safe` survive every step when SIGCHLD is blocked. */
  ghost predicate Inv(s: System) {
    && Proper(s.table)
    && Pids(s.table) <= s.children.Keys
    && (s.inHandler ==> !Blocked(s.pc))
    && (s.pc.Added? || s.pc.Waiting? ==> s.pc.pid > 0)
    && (s.pc.Forked? ==> s.pc.pid > 0 && s.pc.pid in s.children && s.pc.pid !in Pids(s.table))
    && (!s.pc.Exited? ==> FgPids(s.table) <= if s.pc.Waiting? || (s.pc.Added? && !s.pc.bg) then {s.pc.pid} else {})
    && (forall p, q | p in FgPids(s.table) && q in FgPids(s.table) :: p == q)
  }

  lemma StepInv(s: System, step: Step)
    requires Inv(s) && Enabled(true, s, step)
    ensures Inv(Apply(s, step))
  {
    match step
    case AddTheJob(cmdline) =>
      AddKeeps(s.table, s.pc.pid, if s.pc.bg then BG else FG, cmdline);
    case CheckFg =>
      FgPidIs(s.table);
    case Reap(pid) =>
      DeleteKeeps(s.table, pid);
    case _ =>
  }

  /** A job leaves the table only when the handler is told that its child exited or stopped. */
  lemma JobsLeaveWhenReported(s: System, step: Step, pid: nat)
    requires Inv(s) && Enabled(true, s, step) && pid in Pids(s.table)
    ensures pid !in Pids(Apply(s, step).table) <==> step == Reap(pid)
  {
    match step
    case AddTheJob(cmdline) =>
      AddKeeps(s.table, s.pc.pid, if s.pc.bg then BG else FG, cmdline);
    case Reap(p) =>
      DeleteKeeps(s.table, p);
    case _ =>
  }

  lemma {:induction false} RunInv(steps: seq<Step>)
    requires Possible(true, steps)
    ensures Inv(Run(steps))
    decreases steps
  {
    if steps != [] {
      var pre := steps[..|steps| - 1];
      RunInv(pre);
      StepInv(Run(pre), steps[|steps| - 1]);
    }
  }

  lemma OneMore(masking: bool, steps: seq<Step>, step: Step)
    requires Possible(masking, steps) && Enabled(masking, Run(steps), step)
    ensures Possible(masking, steps + [step]) && Run(steps + [step]) == Apply(Run(steps), step)
  {
    assert (steps + [step])[..|steps|] == steps;
  }

  lemma {:induction false} PossiblePrefix(masking: bool, steps: seq<Step>, n: nat)
    requires Possible(masking, steps) && n <= |steps|
    ensures Possible(masking, steps[..n])
    decreases |steps|
  {
    if n < |steps| {
      var pre := steps[..|steps| - 1];
      PossiblePrefix(masking, pre, n);
      assert pre[..n] == steps[..n];
    } else {
      assert steps[..n] == steps;
    }
  }

  /** The child exits right after the fork, and its SIGCHLD arrives. */
  lemma RaceBegins() returns (steps: seq<Step>)
    ensures Possible(false, steps)
    ensures Run(steps) == System(Forked(1, true), true, false, map[1 := Zombie], Initial().table)
  {
    var t := Initial().table;
    steps := [];
    assert Run(steps) == System(Ready, false, false, map[], t);
    OneMore(false, steps, Mask(true));
    steps := steps + [Mask(true)];
    assert Run(steps) == System(Masked(true), false, false, map[], t);
    OneMore(false, steps, Fork(1));
    steps := steps + [Fork(1)];
    assert Run(steps) == System(Forked(1, true), false, false, map[1 := Running], t);
    OneMore(false, steps, ChildExits(1));
    steps := steps + [ChildExits(1)];
    assert Run(steps) == System(Forked(1, true), false, true, map[1 := Zombie], t);
    OneMore(false, steps, EnterHandler);
    steps := steps + [EnterHandler];
  }

  /** The handler reaps the child before its job is added: the job added afterwards has no child. */
  lemma RaceWithoutMasking() returns (steps: seq<Step>)
    ensures Possible(false, steps) && !Safe(Run(steps))
  {
    var t := Initial().table;
    steps := RaceBegins();
    OneMore(false, steps, Reap(1));
    steps := steps + [Reap(1)];
    assert FirstWith(t.jobs, 1, 0) == MAXJOBS;
    assert Run(steps) == System(Forked(1, true), true, false, map[], t);
    OneMore(false, steps, LeaveHandler(true));
    steps := steps + [LeaveHandler(true)];
    assert Run(steps) == System(Forked(1, true), false, false, map[], t);
    OneMore(false, steps, AddTheJob(""));
    steps := steps + [AddTheJob("")];
    var jobs := Run(steps).table.jobs;
    assert t.jobs[0].pid == 0 && FirstWith(t.jobs, 0, 0) == 0;
    assert jobs[0].pid == 1 && jobs[0] in jobs;
    assert 1 in Pids(Run(steps).table);
  }

  /** The protocol is safe on every interleaving exactly because SIGCHLD is blocked. */
  lemma SafeIffMasking(masking: bool)
    ensures (forall steps :: Possible(masking, steps) ==> Safe(Run(steps))) <==> masking
  {
    if masking {
      forall steps | Possible(masking, steps)
        ensures Safe(Run(steps))
      {
        RunInv(steps);
      }
    } else {
      var steps := RaceWithoutMasking();
    }
  }

  // ---- Foreground and background ----

  /** The shell has added foreground job `pid` and goes on to wait for it, or waits already. */
  predicate AwaitsJob(pc: Pc, pid: nat) {
    pc == Added(pid, false) || pc == Waiting(pid)
  }

  /** Job `pid` is in the foreground and the shell awaits it, unless it has exited. */
  ghost predicate InForeground(s: System, pid: nat) {
    FgPids(s.table) == {pid} && (s.pc.Exited? || AwaitsJob(s.pc, pid))
  }

  /** A foreground job is in the foreground once it is added, if the table has a free entry. */
  lemma AddedInForeground(s: System, cmdline: string)
    requires Inv(s) && !s.pc.Exited? && s.pc.Forked? && !s.pc.bg && HasFree(s.table)
    ensures InForeground(Apply(s, AddTheJob(cmdline)), s.pc.pid)
  {
    AddKeeps(s.table, s.pc.pid, FG, cmdline);
  }

  lemma InForegroundStep(s: System, step: Step, pid: nat)
    requires Inv(s) && Enabled(true, s, step) && InForeground(s, pid) && step != Reap(pid)
    ensures InForeground(Apply(s, step), pid)
  {
    assert pid in FgPids(s.table);
    match step
    case CheckFg =>
      FgPidIs(s.table);
    case Reap(p) =>
      DeleteKeeps(s.table, p);
    case _ =>
  }

  /** The system after the first `n` steps. */
  function At(steps: seq<Step>, n: nat): System
    requires n <= |steps|
  {
    Run(steps[..n])
  }

  lemma InvAt(steps: seq<Step>, n: nat)
    requires Possible(true, steps) && n <= |steps|
    ensures Inv(At(steps, n))
  {
    PossiblePrefix(true, steps, n);
    RunInv(steps[..n]);
  }

  lemma NextAt(steps: seq<Step>, n: nat)
    requires Possible(true, steps) && n < |steps|
    ensures At(steps, n + 1) == Apply(At(steps, n), steps[n]) && Enabled(true, At(steps, n), steps[n])
  {
    PossiblePrefix(true, steps, n + 1);
    assert steps[..n + 1][..n] == steps[..n];
  }

  /** Step `n` adds foreground job `pid`. */
  ghost predicate AddsForeground(steps: seq<Step>, n: nat, pid: nat) {
    n < |steps| && steps[n].AddTheJob? && At(steps, n).pc == Forked(pid, false)
  }

  /** The table has a free entry before step `n`. */
  ghost predicate RoomAt(steps: seq<Step>, n: nat) {
    n <= |steps| && HasFree(At(steps, n).table)
  }

  lemma ForegroundBegins(steps: seq<Step>, n: nat, pid: nat)
    requires Possible(true, steps) && AddsForeground(steps, n, pid) && RoomAt(steps, n)
    ensures InForeground(At(steps, n + 1), pid)
  {
    InvAt(steps, n);
    NextAt(steps, n);
    AddedInForeground(At(steps, n), steps[n].cmdline);
  }

  lemma ForegroundNext(steps: seq<Step>, n: nat, pid: nat)
    requires Possible(true, steps) && n < |steps| && InForeground(At(steps, n), pid) && steps[n] != Reap(pid)
    ensures InForeground(At(steps, n + 1), pid)
  {
    InvAt(steps, n);
    NextAt(steps, n);
    InForegroundStep(At(steps, n), steps[n], pid);
  }

  /** After step `n` and before step `m` the handler is told of child `pid`. */
  ghost predicate ReapedIn(steps: seq<Step>, n: nat, m: nat, pid: nat) {
    exists k :: n < k < m <= |steps| && steps[k] == Reap(pid)
  }

  lemma NotReapedBefore(steps: seq<Step>, n: nat, m: nat, pid: nat)
    requires n + 1 < m <= |steps| && !ReapedIn(steps, n, m, pid)
    ensures !ReapedIn(steps, n, m - 1, pid) && steps[m - 1] != Reap(pid)
  {
  }

  /** Whatever happens, the shell awaits a foreground job, alone in the foreground, until the handler is told of its child. */
  lemma {:induction false} ForegroundWaits(steps: seq<Step>, n: nat, m: nat, pid: nat)
    requires Possible(true, steps) && AddsForeground(steps, n, pid) && RoomAt(steps, n)
    requires n < m <= |steps| && !ReapedIn(steps, n, m, pid)
    ensures InForeground(At(steps, m), pid)
    decreases m
  {
    if m == n + 1 {
      ForegroundBegins(steps, n, pid);
    } else {
      NotReapedBefore(steps, n, m, pid);
      ForegroundWaits(steps, n, m - 1, pid);
      ForegroundNext(steps, m - 1, pid);
    }
  }

  /** The shell comes to await a job only by adding it. */
  lemma AwaitsOnce(steps: seq<Step>, n: nat, pid: nat)
    requires Possible(true, steps) && n < |steps| && AwaitsJob(At(steps, n + 1).pc, pid)
    ensures AwaitsJob(At(steps, n).pc, pid) || AddsForeground(steps, n, pid)
  {
    NextAt(steps, n);
  }

  /** From step `n` to step `m` the shell awaits job `pid`. */
  ghost predicate AwaitsFrom(steps: seq<Step>, n: nat, m: nat, pid: nat) {
    forall k | n < k <= m <= |steps| :: AwaitsJob(At(steps, k).pc, pid)
  }

  /** A shell that awaits a job has added it, and has awaited it ever since. */
  lemma {:induction false} WaitsSince(steps: seq<Step>, m: nat, pid: nat) returns (n: nat)
    requires Possible(true, steps) && m <= |steps| && AwaitsJob(At(steps, m).pc, pid)
    ensures n < m && AddsForeground(steps, n, pid) && AwaitsFrom(steps, n, m, pid)
    decreases m
  {
    assert m > 0 by {
      assert steps[..0] == [];
    }
    n := m - 1;
    AwaitsOnce(steps, m - 1, pid);
    if !AddsForeground(steps, m - 1, pid) {
      n := WaitsSince(steps, m - 1, pid);
    }
  }

  /** While the job is in the foreground, looking does not end the wait. */
  lemma NotYet(steps: seq<Step>, m: nat, pid: nat)
    requires Possible(true, steps) && m < |steps| && At(steps, m).pc == Waiting(pid) && InForeground(At(steps, m), pid)
    ensures At(steps, m + 1).pc != Ready
  {
    InvAt(steps, m);
    NextAt(steps, m);
    FgPidIs(At(steps, m).table);
  }

  /**
   * The shell stops waiting for a foreground job only after the handler was told of its child, or when the
   * table had no free entry for the job.
   */
  lemma StopsWaiting(steps: seq<Step>, m: nat, pid: nat) returns (n: nat)
    requires Possible(true, steps) && m < |steps| && At(steps, m).pc == Waiting(pid) && At(steps, m + 1).pc == Ready
    ensures n < m && AddsForeground(steps, n, pid) && (RoomAt(steps, n) ==> ReapedIn(steps, n, m, pid))
  {
    n := WaitsSince(steps, m, pid);
    if RoomAt(steps, n) && !ReapedIn(steps, n, m, pid) {
      ForegroundWaits(steps, n, m, pid);
      NotYet(steps, m, pid);
      assert false;
    }
  }

  /** A waiting shell that looks goes on exactly when its job is not in the foreground any more. */
  lemma GoesOnIff(s: System, pid: nat)
    requires Inv(s) && s.pc == Waiting(pid)
    ensures Apply(s, CheckFg) == s.(pc := if pid in FgPids(s.table) then s.pc else Ready)
  {
    FgPidIs(s.table);
  }

  /** `pid` is not in the foreground, and the shell is not about to put it there. */
  ghost predicate InBackground(s: System, pid: nat) {
    pid !in FgPids(s.table) && s.pc != Forked(pid, false) && !AwaitsJob(s.pc, pid)
  }

  lemma InBackgroundStep(s: System, step: Step, pid: nat)
    requires Inv(s) && Enabled(true, s, step) && InBackground(s, pid) && step != Fork(pid)
    ensures InBackground(Apply(s, step), pid)
  {
    match step
    case AddTheJob(cmdline) =>
      AddKeeps(s.table, s.pc.pid, if s.pc.bg then BG else FG, cmdline);
    case Reap(p) =>
      DeleteKeeps(s.table, p);
    case _ =>
  }

  lemma BackgroundNext(steps: seq<Step>, n: nat, pid: nat)
    requires Possible(true, steps) && n < |steps| && InBackground(At(steps, n), pid) && steps[n] != Fork(pid)
    ensures InBackground(At(steps, n + 1), pid)
  {
    InvAt(steps, n);
    NextAt(steps, n);
    InBackgroundStep(At(steps, n), steps[n], pid);
  }

  /** A background job is never in the foreground, as long as its pid is not given to another child. */
  lemma {:induction false} BackgroundStays(steps: seq<Step>, n: nat, m: nat, pid: nat)
    requires Possible(true, steps) && n <= m <= |steps| && At(steps, n).pc == Forked(pid, true)
    requires forall k | n <= k < m :: steps[k] != Fork(pid)
    ensures InBackground(At(steps, m), pid)
    decreases m
  {
    if m > n {
      BackgroundStays(steps, n, m - 1, pid);
      BackgroundNext(steps, m - 1, pid);
    } else {
      InvAt(steps, n);
    }
  }

  /** Once a background job is added, the shell's own next step returns from the command. */
  lemma BackgroundReturns(s: System, pid: nat, step: Step)
    requires Inv(s) && Enabled(true, s, step) && s.pc == Added(pid, true)
    ensures if step == Unmask then Apply(s, step) == s.(pc := Ready) else Apply(s, step).pc == s.pc
  {
  }

  /** The table changes only where a job is added or its child reported. */
  lemma TableChanges(s: System, step: Step)
    requires Apply(s, step).table != s.table
    ensures (step.AddTheJob? && s.pc.Forked? && Apply(s, step).table == Add(s.table, s.pc.pid, if s.pc.bg then BG else FG, step.cmdline).0)
            || (step.Reap? && Apply(s, step).table == Delete(s.table, step.pid).0)
  {
  }
}
