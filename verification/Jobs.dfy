/** The job table of `shlab/tsh.c`. */
module Jobs {

  const MAXJOBS: nat := 16

  datatype State = UNDEF | FG | BG | ST

  datatype Job = Job(pid: nat, jid: nat, state: State, cmdline: string)

  const CLEAR := Job(0, 0, UNDEF, "")

  datatype Table = Table(jobs: seq<Job>, nextjid: nat)

  function FirstWith(jobs: seq<Job>, pid: nat, i: nat): (k: nat)
    requires i <= |jobs|
    ensures i <= k <= |jobs|
    ensures k < |jobs| ==> jobs[k].pid == pid
    ensures forall j | i <= j < k :: jobs[j].pid != pid
    decreases |jobs| - i
  {
    if i == |jobs| || jobs[i].pid == pid then i else FirstWith(jobs, pid, i + 1)
  }

  function FirstFg(jobs: seq<Job>, i: nat): (k: nat)
    requires i <= |jobs|
    ensures i <= k <= |jobs|
    ensures k < |jobs| ==> jobs[k].state == FG
    ensures forall j | i <= j < k :: jobs[j].state != FG
    decreases |jobs| - i
  {
    if i == |jobs| || jobs[i].state == FG then i else FirstFg(jobs, i + 1)
  }

  function MaxJid(jobs: seq<Job>): (m: nat)
    ensures forall j | j in jobs :: j.jid <= m
    ensures m > 0 ==> exists j :: j in jobs && j.jid == m
  {
    if jobs == [] then 0
    else
      var m, last := MaxJid(jobs[..|jobs| - 1]), jobs[|jobs| - 1];
      assert forall j | j in jobs :: j in jobs[..|jobs| - 1] || j == last;
      if last.jid > m then last.jid else m
  }

  // ---- The operations on a table ----

  function Add(t: Table, pid: nat, state: State, cmdline: string): (Table, bool) {
    var k := FirstWith(t.jobs, 0, 0);
    if pid < 1 || k == |t.jobs| then (t, false)
    else
      var next := if t.nextjid + 1 > MAXJOBS then 1 else t.nextjid + 1;
      (Table(t.jobs[k := Job(pid, t.nextjid, state, cmdline)], next), true)
  }

  function Delete(t: Table, pid: nat): (Table, bool) {
    var k := FirstWith(t.jobs, pid, 0);
    if pid < 1 || k == |t.jobs| then (t, false)
    else
      var jobs := t.jobs[k := CLEAR];
      (Table(jobs, MaxJid(jobs) + 1), true)
  }

  function FgPid(t: Table): nat {
    var k := FirstFg(t.jobs, 0);
    if k < |t.jobs| then t.jobs[k].pid else 0
  }

  // ---- What they keep ----

  /** No pid is listed twice, and free entries are clear. */
  ghost predicate Proper(t: Table) {
    && (forall i, j | 0 <= i < j < |t.jobs| && t.jobs[i].pid != 0 :: t.jobs[i].pid != t.jobs[j].pid)
    && (forall j | j in t.jobs && j.pid == 0 :: j.state == UNDEF)
  }

  ghost function Pids(t: Table): set<nat> {
    set j | j in t.jobs && j.pid != 0 :: j.pid
  }

  ghost function FgPids(t: Table): set<nat> {
    set j | j in t.jobs && j.state == FG :: j.pid
  }

  ghost predicate HasFree(t: Table) {
    exists j :: j in t.jobs && j.pid == 0
  }

  /** A job is added exactly when an entry is free, and then no other pid comes or goes. */
  lemma AddKeeps(t: Table, pid: nat, state: State, cmdline: string)
    requires Proper(t) && pid > 0 && pid !in Pids(t)
    ensures var (r, ok) := Add(t, pid, state, cmdline);
            && Proper(r) && (ok <==> HasFree(t))
            && Pids(r) == (if ok then Pids(t) + {pid} else Pids(t))
            && FgPids(r) == if ok && state == FG then FgPids(t) + {pid} else FgPids(t)
  {
    var k := FirstWith(t.jobs, 0, 0);
    if k < |t.jobs| {
      var job := Job(pid, t.nextjid, state, cmdline);
      UpdateMembers(t.jobs, k, job);
      assert t.jobs[k] in t.jobs;
      assert forall j | j in t.jobs && j.pid != 0 :: j.pid in Pids(t);
    }
  }

  /** The new entry is the first free one, with the next job id; job ids count from 1 to 16 and start again. */
  lemma AddEntry(t: Table, pid: nat, state: State, cmdline: string)
    ensures var (r, ok) := Add(t, pid, state, cmdline);
            && (ok <==> pid > 0 && HasFree(t)) && |r.jobs| == |t.jobs|
            && (!ok ==> r == t)
            && (ok ==> exists k :: ChangedAt(t, r, k, Job(pid, t.nextjid, state, cmdline)) && t.jobs[k].pid == 0
                                   && (forall j | 0 <= j < k :: t.jobs[j].pid != 0)
                                   && r.nextjid == if t.nextjid < MAXJOBS then t.nextjid + 1 else 1)
  {
    var k := FirstWith(t.jobs, 0, 0);
    if k < |t.jobs| {
      assert t.jobs[k] in t.jobs;
      if pid > 0 {
        assert ChangedAt(t, Add(t, pid, state, cmdline).0, k, Job(pid, t.nextjid, state, cmdline));
      }
    }
  }

  /** Entry `k` has become `job`, and no other entry has changed. */
  ghost predicate ChangedAt(t: Table, r: Table, k: int, job: Job) {
    && 0 <= k < |t.jobs| == |r.jobs| && r.jobs[k] == job
    && forall j | 0 <= j < |t.jobs| && j != k :: r.jobs[j] == t.jobs[j]
  }

  /** The entry of the pid is cleared, and the next job id is one above the largest that is left. */
  lemma DeleteEntry(t: Table, pid: nat)
    requires Proper(t)
    ensures var (r, ok) := Delete(t, pid);
            && (!ok ==> r == t)
            && (ok ==> (exists k :: ChangedAt(t, r, k, CLEAR) && t.jobs[k].pid == pid)
                       && (forall j | j in r.jobs :: j.jid < r.nextjid)
                       && (r.nextjid == 1 || exists j :: j in r.jobs && j.jid + 1 == r.nextjid))
  {
    var k := FirstWith(t.jobs, pid, 0);
    if pid > 0 && k < |t.jobs| {
      assert ChangedAt(t, Delete(t, pid).0, k, CLEAR);
    }
  }

  lemma DeleteKeeps(t: Table, pid: nat)
    requires Proper(t)
    ensures var (r, ok) := Delete(t, pid);
            && Proper(r) && (ok <==> pid in Pids(t))
            && Pids(r) == Pids(t) - {pid}
            && FgPids(r) == FgPids(t) - {pid}
  {
    var k := FirstWith(t.jobs, pid, 0);
    assert forall j | j in t.jobs && j.pid == 0 :: j.state != FG;
    if pid > 0 && k < |t.jobs| {
      UpdateMembers(t.jobs, k, CLEAR);
      assert t.jobs[k] in t.jobs;
    }
  }

  /** Members of a list with one entry replaced. */
  lemma UpdateMembers(jobs: seq<Job>, k: nat, job: Job)
    requires k < |jobs|
    ensures job in jobs[k := job]
    ensures forall j | j in jobs[k := job] :: j == job || j in jobs
    ensures forall j | j in jobs && j != jobs[k] :: j in jobs[k := job]
    ensures forall i | 0 <= i < |jobs| && i != k :: jobs[i] in jobs[k := job]
  {
    var r := jobs[k := job];
    assert r[k] == job;
    forall i | 0 <= i < |jobs| && i != k
      ensures jobs[i] in r
    {
      assert r[i] == jobs[i];
    }
  }

  lemma FgPidIs(t: Table)
    requires Proper(t)
    ensures FgPid(t) == 0 <==> FgPids(t) == {}
    ensures FgPid(t) != 0 ==> FgPid(t) in FgPids(t)
  {
    var k := FirstFg(t.jobs, 0);
    if k < |t.jobs| {
      assert t.jobs[k] in t.jobs && t.jobs[k].pid in FgPids(t);
    } else {
      assert forall j | j in t.jobs :: j.state != FG;
    }
  }

  // ---- The table in memory ----

  class JobTable {
    const jobs: array<Job>
    var nextjid: nat

    ghost function Contents(): Table
      reads this, jobs
    {
      Table(jobs[..], nextjid)
    }

    /** `initjobs`. */
    constructor ()
      ensures fresh(jobs) && jobs.Length == MAXJOBS && Contents() == Table(seq(MAXJOBS, _ => CLEAR), 1)
      ensures Proper(Contents()) && Pids(Contents()) == {}
    {
      jobs := new Job[MAXJOBS](_ => CLEAR);
      nextjid := 1;
    }

    /** `maxjid`. */
    method MaxJobId() returns (max: nat)
      ensures max == MaxJid(jobs[..])
    {
      max := 0;
      for i := 0 to jobs.Length
        invariant max == MaxJid(jobs[..i])
      {
        assert jobs[..i + 1][..i] == jobs[..i];
        if jobs[i].jid > max {
          max := jobs[i].jid;
        }
      }
      assert jobs[..jobs.Length] == jobs[..];
    }

    /** `addjob`. */
    method AddJob(pid: nat, state: State, cmdline: string) returns (ok: bool)
      modifies this, jobs
      ensures (Contents(), ok) == Add(old(Contents()), pid, state, cmdline)
    {
      if pid < 1 {
        return false;
      }
      ghost var t := Contents();
      for i := 0 to jobs.Length
        invariant Contents() == t
        invariant forall j | 0 <= j < i :: jobs[j].pid != 0
      {
        if jobs[i].pid == 0 {
          assert FirstWith(t.jobs, 0, 0) == i;
          jobs[i] := Job(pid, nextjid, state, cmdline);
          nextjid := nextjid + 1;
          if nextjid > MAXJOBS {
            nextjid := 1;
          }
          return true;
        }
      }
      return false;
    }

    /** `deletejob`. */
    method DeleteJob(pid: nat) returns (ok: bool)
      modifies this, jobs
      ensures (Contents(), ok) == Delete(old(Contents()), pid)
    {
      if pid < 1 {
        return false;
      }
      ghost var t := Contents();
      for i := 0 to jobs.Length
        invariant Contents() == t
        invariant forall j | 0 <= j < i :: jobs[j].pid != pid
      {
        if jobs[i].pid == pid {
          assert FirstWith(t.jobs, pid, 0) == i;
          jobs[i] := CLEAR;
          var max := MaxJobId();
          nextjid := max + 1;
          return true;
        }
      }
      return false;
    }

    /** `fgpid`. */
    method Foreground() returns (pid: nat)
      ensures pid == FgPid(Contents())
    {
      for i := 0 to jobs.Length
        invariant forall j | 0 <= j < i :: jobs[j].state != FG
      {
        if jobs[i].state == FG {
          assert FirstFg(jobs[..], 0) == i;
          return jobs[i].pid;
        }
      }
      return 0;
    }
  }
}
