/** Process groups and sessions: the `setpgid`, `setsid`, `fork` and `exit` system calls and the operations on
    groups and sessions below them.  Every operation runs with the locks it takes in the kernel, so each system call
    is one atomic step.  Memory allocation does not fail. */
module Sessions {
  import opened Common
  import opened Queue

  class Proc {
    const pid: int
    var parent: Proc?
    var pgroup: PGroup?
    var session: Session?
    var execed: bool

    constructor (pid: int, parent: Proc?)
      ensures this.pid == pid && this.parent == parent && pgroup == null && session == null && !execed
    {
      this.pid := pid;
      this.parent := parent;
      pgroup, session, execed := null, null, false;
    }
  }

  class PGroup {
    const pg_id: int
    const pg_leader: Proc
    var pg_procs: seq<Proc>
    var pg_session: Session?

    constructor (leader: Proc)
      ensures pg_id == leader.pid && pg_leader == leader && pg_procs == [] && pg_session == null
    {
      pg_id, pg_leader, pg_procs, pg_session := leader.pid, leader, [], null;
    }
  }

  class Session {
    const ss_sid: int
    const ss_leader: Proc
    var ss_pgroups: seq<PGroup>

    constructor (leader: Proc)
      ensures ss_sid == leader.pid && ss_leader == leader && ss_pgroups == []
    {
      ss_sid, ss_leader, ss_pgroups := leader.pid, leader, [];
    }
  }

  class Kernel {
    /** All live processes, all sessions, and the last process id given out. */
    var processes: seq<Proc>
    var sessions: seq<Session>
    var pids: nat
    const initproc: Proc
    /** The groups that some session lists. */
    ghost var groups: set<PGroup>

    /** A process points at a group exactly when that group lists it, and then it is in the session of that group. */
    ghost predicate ProcLinks()
      reads this`processes, this`groups, processes`pgroup, processes`session, groups
    {
      && NoDup(processes)
      && forall p | p in processes ::
           && (p.pgroup == null <==> p.session == null)
           && (p.pgroup != null ==>
                 p.pgroup in groups && p in p.pgroup.pg_procs && p.session == p.pgroup.pg_session)
    }

    /** A group lists live processes that point at it, once each, and its session lists it; only the group `drained`
        may list none. */
    ghost predicate GroupLinks(drained: PGroup?)
      reads this`processes, this`groups, this`sessions, processes`pgroup, groups, sessions
    {
      forall g | g in groups ::
        && (g.pg_procs != [] || g == drained) && NoDup(g.pg_procs)
        && (forall p | p in g.pg_procs :: p in processes && p.pgroup == g)
        && g.pg_session != null && g.pg_session in sessions && g in g.pg_session.ss_pgroups
    }

    /** A session lists groups that point at it, once each; only the session `hole` may list none. */
    ghost predicate SessionLinks(hole: Session?)
      reads this`groups, this`sessions, groups, sessions
    {
      && NoDup(sessions)
      && forall s | s in sessions ::
           && (s.ss_pgroups != [] || s == hole) && NoDup(s.ss_pgroups)
           && forall g | g in s.ss_pgroups :: g in groups && g.pg_session == s
    }

    /** Process ids and group ids are unique, and no id was given out twice. */
    ghost predicate Ids()
      reads this`processes, this`groups, this`pids
    {
      && (forall p | p in processes :: 0 < p.pid <= pids)
      && (forall p, q | p in processes && q in processes && p.pid == q.pid :: p == q)
      && (forall g | g in groups :: 0 < g.pg_id <= pids)
      && (forall g, h | g in groups && h in groups && g.pg_id == h.pg_id :: g == h)
    }

    /** A live process whose id names a group is in the session of that group; the process `moved`, if any, counts as
        being in the session `hole`. */
    ghost predicate Namesakes(hole: Session?, moved: Proc?)
      reads this`processes, this`groups, processes`session, groups`pg_session
    {
      forall p, g | p in processes && g in groups && g.pg_id == p.pid ::
        (if p == moved then hole else p.session) == g.pg_session
    }

    /** The state while `moved` is between groups of the session `hole`; between system calls, nothing is. */
    ghost predicate InTransit(hole: Session?, moved: Proc?)
      reads this, processes`pgroup, processes`session, groups, sessions
    {
      ProcLinks() && GroupLinks(null) && SessionLinks(hole) && Ids() && Namesakes(hole, moved)
    }

    ghost predicate Inv()
      reads this, processes`pgroup, processes`session, groups, sessions
    {
      InTransit(null, null)
    }

    /** After `proc_init`: one process, in no group and no session. */
    constructor ()
      ensures Inv() && processes == [initproc] && sessions == [] && fresh(initproc)
    {
      var p := new Proc(1, null);
      initproc := p;
      processes, sessions, pids, groups := [p], [], 1, {};
    }

    // ---------- groups ----------

    method PgroupAdd(g: PGroup, p: Proc) returns (err: int)
      modifies g`pg_procs, p`pgroup
      ensures err == if p in old(g.pg_procs) then -EEXIST else 0
      ensures err != 0 ==> g.pg_procs == old(g.pg_procs) && p.pgroup == old(p.pgroup)
      ensures err == 0 ==> g.pg_procs == old(g.pg_procs) + [p] && p.pgroup == g
    {
      if p in g.pg_procs {
        return -EEXIST;
      }
      g.pg_procs := g.pg_procs + [p];
      p.pgroup := g;
      return 0;
    }

    method PgroupRemove(g: PGroup, p: Proc) returns (err: int)
      modifies g`pg_procs, p`pgroup
      ensures err == if p in old(g.pg_procs) then 0 else -ENOENT
      ensures err != 0 ==> g.pg_procs == old(g.pg_procs) && p.pgroup == old(p.pgroup)
      ensures err == 0 ==> g.pg_procs == Remove(old(g.pg_procs), p) && p.pgroup == null
    {
      if p !in g.pg_procs {
        return -ENOENT;
      }
      g.pg_procs := Remove(g.pg_procs, p);
      p.pgroup := null;
      return 0;
    }

    // ---------- sessions ----------

    method SessionAdd(s: Session, g: PGroup) returns (err: int)
      modifies s`ss_pgroups, g`pg_session
      ensures err == if g in old(s.ss_pgroups) then -EEXIST else 0
      ensures err != 0 ==> s.ss_pgroups == old(s.ss_pgroups) && g.pg_session == old(g.pg_session)
      ensures err == 0 ==> s.ss_pgroups == old(s.ss_pgroups) + [g] && g.pg_session == s
    {
      if g in s.ss_pgroups {
        return -EEXIST;
      }
      s.ss_pgroups := s.ss_pgroups + [g];
      g.pg_session := s;
      return 0;
    }

    method SessionRemove(s: Session, g: PGroup) returns (err: int)
      modifies s`ss_pgroups, g`pg_session
      ensures err == if g in old(s.ss_pgroups) then 0 else -ENOENT
      ensures err != 0 ==> s.ss_pgroups == old(s.ss_pgroups) && g.pg_session == old(g.pg_session)
      ensures err == 0 ==> s.ss_pgroups == Remove(old(s.ss_pgroups), g) && g.pg_session == null
    {
      if g !in s.ss_pgroups {
        return -ENOENT;
      }
      s.ss_pgroups := Remove(s.ss_pgroups, g);
      g.pg_session := null;
      return 0;
    }

    /** `session_leave`: take `p` out of its group; a group left empty is taken out of the session and freed. */
    method SessionLeave(s: Session, p: Proc) returns (err: int)
      requires Inv() && p in processes && s in sessions && p.session == s
      modifies p`pgroup, p`session, p.pgroup, s`ss_pgroups, this`groups
      ensures err == 0 && InTransit(s, p)
      ensures p.pgroup == null && p.session == null
      ensures groups == old(groups) - (if old(p.pgroup.pg_procs) == [p] then {old(p.pgroup)} else {})
      ensures old(p.pgroup) in groups ==> old(p.pgroup).pg_session == s
    {
      var g: PGroup := p.pgroup;
      if g !in s.ss_pgroups {
        return -ENOENT;
      }
      err := DetachFrom(g, s, p);
      if err != 0 {
        return;
      }
      if |g.pg_procs| == 0 {
        err := DropGroup(s, g, p);
      }
    }

    method DetachFrom(g: PGroup, ghost s: Session, p: Proc) returns (err: int)
      requires Inv() && p in processes && s in sessions && p.session == s && p.pgroup == g
      modifies p`pgroup, p`session, g`pg_procs
      ensures err == 0 && p.pgroup == null && p.session == null && g.pg_procs == Remove(old(g.pg_procs), p)
      ensures ProcLinks() && GroupLinks(g) && SessionLinks(null) && Ids() && Namesakes(s, p)
    {
      RemoveKeepsNoDup(g.pg_procs, p);
      err := PgroupRemove(g, p);
      p.session := null;
    }

    method DropGroup(s: Session, g: PGroup, ghost p: Proc) returns (err: int)
      requires ProcLinks() && GroupLinks(g) && SessionLinks(null) && Ids() && Namesakes(s, p)
      requires g in groups && g.pg_session == s && g.pg_procs == []
      modifies g`pg_session, s`ss_pgroups, this`groups
      ensures err == 0 && InTransit(s, p) && groups == old(groups) - {g}
    {
      err := UnlinkGroup(s, g);
    }

    method UnlinkGroup(s: Session, g: PGroup) returns (err: int)
      requires ProcLinks() && GroupLinks(g) && SessionLinks(null)
      requires g in groups && g.pg_session == s && g.pg_procs == []
      modifies g`pg_session, s`ss_pgroups, this`groups
      ensures err == 0 && groups == old(groups) - {g}
      ensures ProcLinks() && GroupLinks(null) && SessionLinks(s)
    {
      RemoveKeepsNoDup(s.ss_pgroups, g);
      err := SessionRemove(s, g);
      groups := groups - {g};
    }

    /** `session_exit`; with `free`, a session left without groups is taken off the list of sessions. */
    method SessionExit(s: Session, p: Proc, free: bool) returns (err: int)
      requires Inv() && p in processes && s in sessions
      modifies p`pgroup, p`session, p.pgroup, s`ss_pgroups, this`groups, this`sessions
      ensures err == if old(p.session) == s then 0 else -EINVAL
      ensures err != 0 ==> unchanged(p) && unchanged(s) && groups == old(groups) && sessions == old(sessions)
      ensures err != 0 && p.pgroup != null ==> unchanged(p.pgroup)
      ensures err == 0 ==>
                && InTransit(s, p) && p.pgroup == null && p.session == null
                && groups == old(groups) - (if old(p.pgroup.pg_procs) == [p] then {old(p.pgroup)} else {})
                && (old(p.pgroup) in groups ==> old(p.pgroup).pg_session == s)
                && (!free ==> sessions == old(sessions))
                && (free ==> SessionLinks(null) && forall t :: t in sessions ==> t in old(sessions))
    {
      if s != p.session {
        return -EINVAL;
      }
      err := SessionLeave(s, p);
      if err != 0 {
        return;
      }
      if |s.ss_pgroups| == 0 && free {
        SessionFree(s, p);
      }
    }

    method SessionFree(s: Session, ghost p: Proc)
      requires InTransit(s, p) && s.ss_pgroups == []
      modifies this`sessions
      ensures InTransit(s, p) && SessionLinks(null)
      ensures forall t :: t in sessions ==> t in old(sessions)
    {
      RemoveKeepsNoDup(sessions, s);
      sessions := Remove(sessions, s);
    }

    method SessionLookup(s: Session, pgid: int) returns (g: PGroup?)
      ensures g != null ==> g in s.ss_pgroups && g.pg_id == pgid
      ensures g == null ==> forall h | h in s.ss_pgroups :: h.pg_id != pgid
    {
      for i := 0 to |s.ss_pgroups|
        invariant forall h | h in s.ss_pgroups[..i] :: h.pg_id != pgid
      {
        if s.ss_pgroups[i].pg_id == pgid {
          return s.ss_pgroups[i];
        }
      }
      return null;
    }

    /** The end of `session_pgroup_join`: a process in transit enters a group of its session. */
    method Attach(s: Session, g: PGroup, p: Proc) returns (err: int)
      requires InTransit(s, p) && p in processes && p.pgroup == null && p.session == null
      requires g in groups && g.pg_session == s
      modifies p`pgroup, p`session, g`pg_procs
      ensures err == 0 && Inv() && p.pgroup == g && p.session == s
    {
      err := LinkTo(s, g, p);
    }

    method LinkTo(s: Session, g: PGroup, p: Proc) returns (err: int)
      requires ProcLinks() && GroupLinks(null) && SessionLinks(s)
      requires p in processes && p.pgroup == null && p.session == null && g in groups && g.pg_session == s
      modifies p`pgroup, p`session, g`pg_procs
      ensures err == 0 && p.pgroup == g && p.session == s
      ensures ProcLinks() && GroupLinks(null) && SessionLinks(null)
    {
      AppendKeepsNoDup(g.pg_procs, p);
      err := PgroupAdd(g, p);
      if err != 0 {
        return;
      }
      p.session := s;
    }

    /** `session_pgroup_join`, for a process of the session. */
    method SessionPgroupJoin(s: Session, pgid: int, p: Proc) returns (err: int)
      requires Inv() && p in processes && s in sessions && p.session == s
      modifies p`pgroup, p`session, s`ss_pgroups, s.ss_pgroups, this`groups, this`sessions
      ensures err == if pgid < 0 then -EINVAL
                     else if exists g :: g in old(s.ss_pgroups) && g.pg_id == pgid then 0 else -ENOENT
      ensures Inv() && sessions == old(sessions) && p.session == s
      ensures err == 0 ==> p.pgroup.pg_id == pgid && groups <= old(groups)
      ensures err != 0 ==> unchanged(p) && unchanged(s) && unchanged(old(s.ss_pgroups)) && groups == old(groups)
    {
      if pgid < 0 {
        return -EINVAL;
      }
      var g := SessionLookup(s, pgid);
      if g == null {
        return -ENOENT;
      }
      if p.pgroup == g {
        return 0;
      }
      err := SessionExit(s, p, false);
      if err != 0 {
        return;
      }
      err := Attach(s, g, p);
    }

    /** `session_create_pgroup`: a new group named after its only member. */
    method CreateGroup(s: Session, p: Proc) returns (g: PGroup)
      modifies p`pgroup, p`session, s`ss_pgroups
      ensures fresh(g) && g.pg_id == p.pid && g.pg_leader == p && g.pg_procs == [p] && g.pg_session == s
      ensures p.pgroup == g && p.session == s && s.ss_pgroups == old(s.ss_pgroups) + [g]
    {
      g := new PGroup(p);
      var err := PgroupAdd(g, p);
      err := SessionAdd(s, g);
      p.session := s;
    }

    /** ... in the session the process is in transit in. */
    method SessionCreatePgroup(s: Session, p: Proc) returns (g: PGroup)
      requires InTransit(s, p) && p in processes && p.pgroup == null && p.session == null && s in sessions
      requires forall h | h in groups :: h.pg_id != p.pid
      modifies p`pgroup, p`session, s`ss_pgroups, this`groups
      ensures Inv() && fresh(g) && g.pg_id == p.pid && p.pgroup == g && p.session == s && groups == old(groups) + {g}
      ensures g.pg_procs == [p] && g.pg_leader == p && OthersStay(p)
    {
      g := LinkNewGroup(s, p);
    }

    method LinkNewGroup(s: Session, p: Proc) returns (g: PGroup)
      requires p in processes && p.pgroup == null && p.session == null && s in sessions
      requires ProcLinks() && GroupLinks(null) && SessionLinks(s)
      modifies p`pgroup, p`session, s`ss_pgroups, this`groups
      ensures fresh(g) && g.pg_id == p.pid && p.pgroup == g && p.session == g.pg_session == s
      ensures groups == old(groups) + {g} && g.pg_procs == [p] && g.pg_leader == p
      ensures ProcLinks() && GroupLinks(null) && SessionLinks(null)
    {
      g := CreateGroup(s, p);
      groups := groups + {g};
    }

    /** `session_create`: a new session, with one group, both named after the process. */
    method SessionCreate(p: Proc) returns (s: Session)
      requires Inv() && p in processes && p.pgroup == null && p.session == null
      requires forall h | h in groups :: h.pg_id != p.pid
      modifies p`pgroup, p`session, this`groups, this`sessions
      ensures Inv() && fresh(s) && s.ss_sid == p.pid && p.session == s && sessions == old(sessions) + [s]
      ensures p.pgroup != null && fresh(p.pgroup) && p.pgroup.pg_id == p.pid && groups == old(groups) + {p.pgroup}
      ensures p.pgroup.pg_procs == [p] && s.ss_leader == p && p.pgroup.pg_leader == p && OthersStay(p)
    {
      s := new Session(p);
      sessions := sessions + [s];
      var g := SessionCreatePgroup(s, p);
    }

    /** `sessions_find_pgroup`: is there a group with this id, in any session? */
    method SessionsFindPgroup(pgid: int) returns (found: bool)
      requires Inv()
      ensures found <==> exists g :: g in groups && g.pg_id == pgid
    {
      for i := 0 to |sessions|
        invariant forall s | s in sessions[..i] :: forall g | g in s.ss_pgroups :: g.pg_id != pgid
      {
        var g := SessionLookup(sessions[i], pgid);
        if g != null {
          return true;
        }
      }
      assert forall g | g in groups :: g.pg_session in sessions[..|sessions|];
      return false;
    }

    method ProcGet(pid: int) returns (p: Proc?)
      ensures p != null ==> p in processes && p.pid == pid && 0 < pid
      ensures p == null ==> pid <= 0 || forall q | q in processes :: q.pid != pid
    {
      if pid <= 0 {
        return null;
      }
      for i := 0 to |processes|
        invariant forall q | q in processes[..i] :: q.pid != pid
      {
        if processes[i].pid == pid {
          return processes[i];
        }
      }
      return null;
    }

    // ---------- system calls ----------

    /** Is there a group `id` in session `s`? */
    ghost predicate Offers(s: Session?, id: int)
      reads s
    {
      s != null && exists g :: g in s.ss_pgroups && g.pg_id == id
    }

    /** Nothing that groups and sessions consist of has changed. */
    twostate predicate Untouched()
      reads this, processes, groups, sessions
    {
      && processes == old(processes) && groups == old(groups) && sessions == old(sessions) && pids == old(pids)
      && unchanged(processes) && unchanged(groups) && unchanged(sessions)
    }

    twostate predicate OthersStay(p: Proc)
      reads this`processes, processes`pgroup, processes`session
    {
      forall q | q in processes && q in old(processes) && q != p ::
        q.pgroup == old(q.pgroup) && q.session == old(q.session)
    }

    /** The part of `setpgid` that both branches for processes with a session share. */
    method MoveTo(s: Session, p: Proc, pgid: int) returns (err: int)
      requires Inv() && p in processes && s in sessions && p.session == s && 0 <= pgid
      modifies p`pgroup, p`session, s`ss_pgroups, s.ss_pgroups, this`groups, this`sessions
      ensures Inv() && sessions == old(sessions) && p.session == s
      ensures forall g | g in groups :: g in old(groups) || fresh(g)
      ensures err == if pgid == p.pid || old(Offers(s, pgid)) then 0 else -EPERM
      ensures err == 0 ==> p.pgroup.pg_id == pgid
      ensures err != 0 ==> Untouched()
      ensures OthersStay(p)
    {
      err := SessionPgroupJoin(s, pgid, p);
      if err == -ENOENT {
        if p.pid != pgid {
          return -EPERM;
        }
        err := SessionExit(s, p, false);
        if err != 0 {
          return;
        }
        var g := SessionCreatePgroup(s, p);
      }
    }

    /** `setsid`. */
    method SetSid(proc: Proc) returns (ret: int)
      requires Inv() && proc in processes
      modifies this`groups, this`sessions, proc`pgroup, proc`session, proc.pgroup, sessions
      ensures Inv()
      ensures forall g | g in groups :: g in old(groups) || fresh(g)
      ensures forall s | s in sessions :: s in old(sessions) || fresh(s)
      ensures (exists g :: g in old(groups) && g.pg_id == proc.pid) ==> ret == -EPERM && Untouched()
      ensures !(exists g :: g in old(groups) && g.pg_id == proc.pid) ==>
                && ret == proc.pid
                && proc.session != null && fresh(proc.session) && proc.session.ss_sid == proc.pid
                && proc.pgroup != null && fresh(proc.pgroup) && proc.pgroup.pg_id == proc.pid
                && proc.pgroup.pg_procs == [proc]
                && proc.session.ss_leader == proc && proc.pgroup.pg_leader == proc
      ensures OthersStay(proc)
    {
      var taken := SessionsFindPgroup(proc.pid);
      if taken {
        return -EPERM;
      }
      LeaveOld(proc);
      var s := SessionCreate(proc);
      return proc.pid;
    }

    /** The process leaves its session, if it has one. */
    method LeaveOld(proc: Proc)
      requires Inv() && proc in processes && forall g | g in groups :: g.pg_id != proc.pid
      modifies this`groups, this`sessions, proc`pgroup, proc`session, proc.pgroup, sessions
      ensures Inv() && proc.pgroup == null && proc.session == null && OthersStay(proc)
      ensures forall g | g in groups :: g in old(groups)
      ensures forall s | s in sessions :: s in old(sessions)
    {
      if proc.session != null {
        var err := SessionExit(proc.session, proc, true);
      }
    }

    /** `fork`: `proc_alloc` gives the child the next id, `proc_copy` puts it into the parent's group and session. */
    method Fork(proc: Proc) returns (child: Proc)
      requires Inv() && proc in processes
      modifies this`processes, this`pids, proc.pgroup
      ensures Inv() && fresh(child) && processes == old(processes) + [child]
      ensures child.pid == pids == old(pids) + 1 && child.parent == proc
      ensures child.pgroup == proc.pgroup && child.session == proc.session
    {
      child := ProcAlloc(proc);
      if proc.pgroup != null {
        var err := Attach(proc.session, proc.pgroup, child);
      }
    }

    /** `proc_alloc`, as far as ids and the list of processes are concerned; `fork` sets the parent. */
    method ProcAlloc(parent: Proc) returns (p: Proc)
      requires Inv()
      modifies this`processes, this`pids
      ensures Inv() && fresh(p) && processes == old(processes) + [p] && p.pid == pids == old(pids) + 1
      ensures p.parent == parent && p.pgroup == null && p.session == null
      ensures forall g | g in groups :: g.pg_id != p.pid
    {
      p := new Proc(pids + 1, parent);
      Register(p);
    }

    method Register(p: Proc)
      requires Inv() && p !in processes && p.pid == pids + 1 && p.pgroup == null && p.session == null
      modifies this`processes, this`pids
      ensures Inv() && processes == old(processes) + [p] && pids == old(pids) + 1
      ensures forall g | g in groups :: g.pg_id != p.pid
    {
      ListProc(p);
      pids := pids + 1;
    }

    method ListProc(p: Proc)
      requires ProcLinks() && GroupLinks(null) && p !in processes && p.pgroup == null && p.session == null
      modifies this`processes
      ensures ProcLinks() && GroupLinks(null) && processes == old(processes) + [p]
    {
      AppendKeepsNoDup(processes, p);
      processes := processes + [p];
    }

    /** The error, or 0, that `setpgid` owes the caller for a process `p` it has found. */
    ghost function MoveError(proc: Proc, p: Proc, pgid: int): int
      reads this, proc, p, p.session
    {
      var id := if pgid == 0 then p.pid else pgid;
      var movable := if id == p.pid || Offers(p.session, id) then 0 else -EPERM;
      if p.parent == proc then
        if p.session == null || p.session != proc.session then -EPERM
        else if p.execed then -EACCES
        else if p.session.ss_leader == p then -EPERM
        else movable
      else if p == proc then movable
      else -EPERM
    }

    /** `setpgid` for the process `p`. */
    method SetPgidOf(proc: Proc, p: Proc, pgid: int) returns (err: int)
      requires Inv() && proc in processes && p in processes && 0 <= pgid
      requires p.parent == proc ==> proc.session != null
      modifies this`groups, this`sessions, p`pgroup, p`session, groups, sessions
      ensures Inv() && err == old(MoveError(proc, p, pgid))
      ensures forall g | g in groups :: g in old(groups) || fresh(g)
      ensures forall s | s in sessions :: s in old(sessions) || fresh(s)
      ensures err != 0 ==> Untouched()
      ensures OthersStay(p)
      ensures err == 0 ==> p.pgroup != null && p.pgroup.pg_id == if pgid == 0 then p.pid else pgid
      ensures err == 0 && old(p.session) != null ==> p.session == old(p.session) && sessions == old(sessions)
      ensures err == 0 && old(p.session) == null ==> p.session != null && fresh(p.session) && p.session.ss_sid == p.pid
    {
      var id := if pgid == 0 then p.pid else pgid;
      if p.parent == proc {
        if p.session == null || proc.session == null || p.session != proc.session {
          return -EPERM;
        }
        if p.execed {
          return -EACCES;
        }
        if proc.session.ss_leader == p {
          return -EPERM;
        }
        err := MoveTo(proc.session, p, id);
      } else if p == proc {
        if proc.session != null {
          err := MoveTo(proc.session, proc, id);
        } else if id == proc.pid {
          var s := SessionCreate(proc);
          return 0;
        } else {
          return -EPERM;
        }
      } else {
        return -EPERM;
      }
    }

    /** `setpgid`; `p` is the process meant, if there is one.  A parent without a session cannot ask for a child:
        `session_lock` panics on a null pointer. */
    method SetPgid(proc: Proc, pid: int, pgid: int) returns (r: Outcome, ghost p: Proc?)
      requires Inv() && proc in processes
      modifies this`groups, this`sessions, processes`pgroup, processes`session, groups, sessions
      ensures Inv()
      ensures forall g | g in groups :: g in old(groups) || fresh(g)
      ensures forall s | s in sessions :: s in old(sessions) || fresh(s)
      ensures pid < 0 || pgid < 0 ==> r == Returned(-EINVAL)
      ensures pid >= 0 && pgid >= 0 ==>
                && (p != null ==> p in processes && (if pid == 0 then p == proc else p.pid == pid))
                && (p == null ==> pid != 0 && forall q | q in processes :: q.pid != pid)
                && r == (if p == null then Returned(-ESRCH)
                         else if p.parent == proc && old(proc.session) == null then Panicked
                         else Returned(old(MoveError(proc, p, pgid))))
      ensures r == Returned(0) ==>
                && p != null && p.pgroup != null && p.pgroup.pg_id == (if pgid == 0 then p.pid else pgid)
                && OthersStay(p)
      ensures r != Returned(0) ==> Untouched()
    {
      p := null;
      if pid < 0 || pgid < 0 {
        return Returned(-EINVAL), p;
      }
      var target := Target(proc, pid);
      p := target;
      if target == null {
        return Returned(-ESRCH), p;
      }
      r := SetPgidFound(proc, target, pgid);
    }

    /** `setpgid` once the process is found. */
    method SetPgidFound(proc: Proc, p: Proc, pgid: int) returns (r: Outcome)
      requires Inv() && proc in processes && p in processes && 0 <= pgid
      modifies this`groups, this`sessions, p`pgroup, p`session, groups, sessions
      ensures Inv()
      ensures forall g | g in groups :: g in old(groups) || fresh(g)
      ensures forall s | s in sessions :: s in old(sessions) || fresh(s)
      ensures r == if p.parent == proc && old(proc.session) == null then Panicked
                   else Returned(old(MoveError(proc, p, pgid)))
      ensures r == Returned(0) ==> p.pgroup != null && p.pgroup.pg_id == if pgid == 0 then p.pid else pgid
      ensures OthersStay(p)
      ensures r != Returned(0) ==> Untouched()
    {
      if p.parent == proc && proc.session == null {
        return Panicked;
      }
      var err := SetPgidOf(proc, p, pgid);
      return Returned(err);
    }

    method Target(proc: Proc, pid: int) returns (p: Proc?)
      requires proc in processes && 0 <= pid
      ensures p != null ==> p in processes && (if pid == 0 then p == proc else p.pid == pid)
      ensures p == null ==> pid != 0 && forall q | q in processes :: q.pid != pid
    {
      if pid == 0 {
        return proc;
      }
      p := ProcGet(pid);
    }

    /** `exit`, as far as processes, groups and sessions are concerned; `init` panics instead. */
    method Exit(proc: Proc)
      requires Inv() && proc in processes && proc != initproc
      modifies this`processes, this`groups, this`sessions, proc`pgroup, proc`session, proc.pgroup, sessions
      modifies processes`parent
      ensures Inv() && processes == Remove(old(processes), proc)
      ensures forall g | g in groups :: g in old(groups)
      ensures forall s | s in sessions :: s in old(sessions)
      ensures OthersStay(proc)
      ensures forall q | q in processes :: q.parent == if old(q.parent) == proc then initproc else old(q.parent)
    {
      Leave(proc);
      Unlist(proc);
      assert forall i :: 0 <= i < |processes| ==> processes[i] in old(processes);
      Adopt(proc);
    }

    /** The process leaves its session, if it has one, for good. */
    method Leave(proc: Proc)
      requires Inv() && proc in processes
      modifies this`groups, this`sessions, proc`pgroup, proc`session, proc.pgroup, sessions
      ensures InTransitSomewhere(proc) && proc.pgroup == null && OthersStay(proc)
      ensures forall g | g in groups :: g in old(groups)
      ensures forall s | s in sessions :: s in old(sessions)
    {
      if proc.session != null {
        var err := SessionExit(proc.session, proc, true);
      }
    }

    /** The children of a process become those of `init`. */
    method Adopt(proc: Proc)
      modifies processes`parent
      ensures forall q | q in processes :: q.parent == if old(q.parent) == proc then initproc else old(q.parent)
    {
      forall q | q in processes && q.parent == proc {
        q.parent := initproc;
      }
    }

    method Unlist(p: Proc)
      requires InTransitSomewhere(p) && p in processes && p.pgroup == null
      modifies this`processes
      ensures Inv() && processes == Remove(old(processes), p)
    {
      RemoveKeepsNoDup(processes, p);
      processes := Remove(processes, p);
    }

    ghost predicate InTransitSomewhere(p: Proc)
      reads this, processes`pgroup, processes`session, groups, sessions
    {
      && ProcLinks() && GroupLinks(null) && SessionLinks(null) && Ids()
      && forall q, g | q in processes && g in groups && g.pg_id == q.pid && q != p :: q.session == g.pg_session
    }

    /** `exec` marks the process. */
    method Exec(proc: Proc)
      requires Inv() && proc in processes
      modifies proc`execed
      ensures Inv() && proc.execed
    {
      proc.execed := true;
    }
  }

  /** Group ids are unique across all sessions: two places that list groups with the same id are the same place. */
  lemma PgidsUnique(k: Kernel, s: Session, i: nat, t: Session, j: nat)
    requires k.Inv() && s in k.sessions && t in k.sessions && i < |s.ss_pgroups| && j < |t.ss_pgroups|
    requires s.ss_pgroups[i].pg_id == t.ss_pgroups[j].pg_id
    ensures s == t && i == j
  {
    var g, h := s.ss_pgroups[i], t.ss_pgroups[j];
    assert g in s.ss_pgroups && h in t.ss_pgroups;
    assert g == h;
  }

  /** A live process points at a group exactly when the group lists it, once; likewise for groups and sessions; and
      none of them is empty. */
  lemma LinksAgree(k: Kernel, p: Proc, s: Session, g: PGroup)
    requires k.Inv() && p in k.processes && s in k.sessions && g in k.groups
    ensures p.pgroup == g <==> multiset(g.pg_procs)[p] == 1
    ensures p.pgroup != g <==> multiset(g.pg_procs)[p] == 0
    ensures g.pg_session == s <==> multiset(s.ss_pgroups)[g] == 1
    ensures g.pg_session != s <==> multiset(s.ss_pgroups)[g] == 0
    ensures p.pgroup == g ==> p.session == g.pg_session
    ensures g.pg_procs != [] && s.ss_pgroups != []
  {
    Multiplicity(g.pg_procs, p);
    Multiplicity(s.ss_pgroups, g);
  }

  lemma {:induction false} Multiplicity<T>(q: seq<T>, x: T)
    requires NoDup(q)
    ensures multiset(q)[x] == if x in q then 1 else 0
  {
    if q == [] {
    } else {
      assert q == [q[0]] + q[1..] && NoDup(q[1..]) && q[0] !in q[1..];
      Multiplicity(q[1..], x);
    }
  }

  datatype Outcome = Returned(value: int) | Panicked

  datatype Call =
    | CallSetPgid(pid: int, pgid: int)
    | CallSetSid
    | CallFork
    | CallExec
    | CallExit

  /** The first process has no session: naming a child of its own in `setpgid`, it panics. */
  method SetPgidPanics(pgid: nat) returns (r: Outcome)
    ensures r == Panicked
  {
    var k := new Kernel();
    var child := k.Fork(k.initproc);
    ghost var p;
    r, p := k.SetPgid(k.initproc, child.pid, pgid);
  }

  /** One system call of the process `proc`. */
  method Step(k: Kernel, proc: Proc, call: Call)
    requires k.Inv() && proc in k.processes
    modifies k, k.processes, k.groups, k.sessions
    ensures k.Inv()
    ensures forall p | p in k.processes :: p in old(k.processes) || fresh(p)
    ensures forall g | g in k.groups :: g in old(k.groups) || fresh(g)
    ensures forall s | s in k.sessions :: s in old(k.sessions) || fresh(s)
  {
    match call
    case CallSetPgid(pid, pgid) => var r, _ := k.SetPgid(proc, pid, pgid);
    case CallSetSid => var r := k.SetSid(proc);
    case CallFork => var child := k.Fork(proc);
    case CallExec => k.Exec(proc);
    case CallExit =>
      if proc != k.initproc {
        k.Exit(proc);
      }
  }

  /** Any run of the kernel: processes, named by id, make system calls in any order. */
  method Run(calls: seq<(int, Call)>) returns (k: Kernel)
    ensures fresh(k) && k.Inv()
  {
    k := new Kernel();
    for i := 0 to |calls|
      invariant k.Inv() && fresh(k)
      invariant forall p | p in k.processes :: fresh(p)
      invariant forall g | g in k.groups :: fresh(g)
      invariant forall s | s in k.sessions :: fresh(s)
    {
      var proc := k.ProcGet(calls[i].0);
      if proc != null {
        assert forall j :: 0 <= j < |k.processes| ==> k.processes[j] in k.processes;
        assert forall j :: 0 <= j < |k.sessions| ==> k.sessions[j] in k.sessions;
        Step(k, proc, calls[i].1);
      }
    }
  }
}
