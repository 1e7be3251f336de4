/**
 * The boot-mode process runner of kernel/src/bootstrap.rs.
 *
 * A parent that waits runs its forked child inline, on top of its own system call.
 * The entry and return paths are those of kernel/src/arch/x86_64/usermode.rs, the
 * system calls those of kernel/src/syscall and kernel/src/process. What happens to
 * processes and page table roots is what BootTable says; here it is shown that the
 * machine does just that and finds its way back from every tree of programs.
 */
module BootRunner {
  import opened Text
  import opened BootTable

  const CANARY_MAGIC: nat := 0xDEAD_BEEF_CAFE_BABE

  datatype Ctx = Ctx(bootRsp: nat, bootCr3: nat, canary: nat, kernelRsp: nat, curPid: nat, curTid: nat)

  class Machine {
    const perCpu: nat

    // boot return context and per-CPU data
    var bootRsp: nat
    var bootCr3: nat
    var canary: nat
    var kernelRsp: nat
    var userRsp: nat
    // current boot process
    var curPid: nat
    var curTid: nat
    // processor registers
    var gs: nat
    var kernelGs: nat
    var fsBase: nat
    var cr3: nat
    // process table and page table roots
    var procs: Procs
    var nextPid: nat
    var live: set<nat>
    ghost var given: set<nat>
    ghost var released: set<nat>
    ghost var log: seq<RootEvent>

    ghost function TheTable(): Table
      reads this
    {
      Table(procs, nextPid, live, given, released, log)
    }

    ghost predicate InUser()
      reads this
    {
      gs == 0 && kernelGs == perCpu
    }

    ghost predicate InSyscall()
      reads this
    {
      gs == perCpu && kernelGs == 0
    }

    /** What a parent must find again when control comes back from its child. */
    ghost function Context(): Ctx
      reads this
    {
      Ctx(bootRsp, bootCr3, canary, kernelRsp, curPid, curTid)
    }

    ghost predicate Running(pid: nat)
      reads this
    {
      curPid == pid && bootRsp != 0 && canary == CANARY_MAGIC
    }

    method Swapgs()
      modifies this`gs, this`kernelGs
      ensures gs == old(kernelGs) && kernelGs == old(gs)
    {
      gs, kernelGs := kernelGs, gs;
    }

    /** free_user_page_table_frames */
    method FreeRoot(r: nat)
      modifies this`live, this`log
      ensures TheTable() == Free(old(TheTable()), r)
    {
      live := live - {r};
      log := log + [Freed(r)];
    }

    method TakeRoot(r: nat)
      modifies this`live, this`log
      ensures TheTable() == Take(old(TheTable()), r)
    {
      live := live + {r};
      log := log + [Took(r)];
    }

    /** syscall_entry */
    method SyscallEntry(userSp: nat)
      requires InUser()
      modifies this`gs, this`kernelGs, this`userRsp
      ensures InSyscall() && userRsp == userSp
    {
      Swapgs();
      userRsp := userSp;
    }

    /** exec: a fresh root replaces the current one, which nothing frees here. */
    method DoExec(pid: nat, a: Action, ghost first: nat)
      requires a.Exec? && InSyscall()
      modifies this`procs, this`live, this`log, this`given, this`gs, this`kernelGs, this`cr3, this`fsBase
      ensures InUser() && TheTable() == Act(old(TheTable()), pid, first, a)
      ensures pid in old(procs) && a.root != 0 && a.root !in old(live) ==>
                && procs == old(procs)[pid := old(procs)[pid].(root := a.root)] && live == old(live) + {a.root}
                && (a.loads ==> cr3 == a.root && fsBase == a.tlsBase)
      ensures !(pid in old(procs) && a.root != 0 && a.root !in old(live)) ==> procs == old(procs) && live == old(live)
      ensures !(pid in old(procs) && a.root != 0 && a.root !in old(live) && a.loads) ==>
                cr3 == old(cr3) && fsBase == old(fsBase)
    {
      if pid in procs && a.root != 0 && a.root !in live {
        ghost var was := procs[pid].root;
        TakeRoot(a.root);
        procs := procs[pid := procs[pid].(root := a.root)];
        if was != first && was != 0 {
          given := given + {was};
        }
        if a.loads {
          cr3 := a.root;
          fsBase := a.tlsBase;
        }
      }
      Swapgs();
      gs := 0;
    }

    method DoFork(pid: nat, tid: nat, root: nat)
      modifies this`procs, this`live, this`log, this`nextPid
      ensures TheTable() == Forked(old(TheTable()), pid, tid, root)
      ensures procs == if root != 0 && root !in old(live)
                       then old(procs)[old(nextPid) := Proc(pid, Ready, Some(tid), root)] else old(procs)
    {
      if root != 0 && root !in live {
        TakeRoot(root);
        procs := procs[nextPid := Proc(pid, Ready, Some(tid), root)];
        nextPid := nextPid + 1;
      }
    }

    method DoReap(pid: nat, child: nat)
      modifies this`procs, this`given
      ensures TheTable() == Reaped(old(TheTable()), pid, child)
      ensures procs == if child in old(procs) && old(procs)[child].parent == pid && old(procs)[child].state == Zombie
                       then old(procs) - {child} else old(procs)
    {
      if child in procs && procs[child].parent == pid && procs[child].state == Zombie {
        if procs[child].root != 0 {
          given := given + {procs[child].root};
        }
        procs := procs - {child};
      }
    }

    method DoKill(pid: nat)
      modifies this`procs
      ensures TheTable() == Killed(old(TheTable()), pid)
      ensures pid in old(procs) && old(procs)[pid].state == Ready ==> HasEnded(old(procs), procs, pid, true)
      ensures !(pid in old(procs) && old(procs)[pid].state == Ready) ==> procs == old(procs)
    {
      EndedMeans(procs, pid, true);
      if pid in procs && procs[pid].state == Ready {
        procs := Ended(procs, pid, true);
      }
    }

    /** A waiting parent runs its ready child inline. */
    method DispatchChild(pid: nat, a: Action)
      requires a.Dispatch? && InSyscall() && Running(pid)
      modifies this
      ensures InSyscall() && Running(pid) && Context() == old(Context()) && userRsp == old(userRsp)
      ensures TheTable() == Act(old(TheTable()), pid, 0, a)
      decreases a.program, 5
    {
      hide Run;
      if a.child in procs && procs[a.child].parent == pid && procs[a.child].state == Ready {
        var ran := BootRunForkedChild(a.child, pid, curTid, a.program, a.frame);
      }
    }

    /**
     * One system call of process pid, from user mode back to user mode. The result is
     * the user stack pointer sysretq takes, which an exec replaces.
     */
    method RunAction(pid: nat, a: Action, ghost first: nat) returns (sp: nat)
      requires InUser() && Running(pid)
      modifies this
      ensures InUser() && Running(pid) && Context() == old(Context())
      ensures !a.Exec? ==> sp == a.userSp
      ensures a.Reap? ==>
                procs == if a.child in old(procs) && old(procs)[a.child].parent == pid
                            && old(procs)[a.child].state == Zombie
                         then old(procs) - {a.child} else old(procs)
      ensures a.SetFs? ==> fsBase == a.base && procs == old(procs)
      ensures TheTable() == Act(old(TheTable()), pid, first, a)
      decreases a
    {
      hide Run, Forked, Reaped, Killed;
      SyscallEntry(a.userSp);
      match a {
        case Plain(_) =>
        case SetFs(_, base) =>
          fsBase := base;
        case Fork(_, tid, root) =>
          DoFork(pid, tid, root);
        case Exec(_, _, _, _) =>
          DoExec(pid, a, first);
          return userRsp;
        case Dispatch(_, _, _, _) =>
          DispatchChild(pid, a);
        case Reap(_, child) =>
          DoReap(pid, child);
        case Kill(_, target) =>
          DoKill(target);
      }
      sp := userRsp;
      Swapgs();
    }

    /** The system calls of process pid up to its end. */
    method RunActions(pid: nat, program: Program, ghost first: nat)
      requires InUser() && Running(pid)
      modifies this
      ensures InUser() && Running(pid) && Context() == old(Context())
      ensures TheTable() == Acts(old(TheTable()), pid, first, program, |program.actions|)
      decreases program, 0
    {
      hide Act;
      var i := 0;
      while i < |program.actions|
        invariant 0 <= i <= |program.actions|
        invariant InUser() && Running(pid) && Context() == old(Context())
        invariant TheTable() == Acts(old(TheTable()), pid, first, program, i)
      {
        var sp := RunAction(pid, program.actions[i], first);
        i := i + 1;
      }
    }

    /** The entry half of enter_forked_child_returnable and enter_usermode_returnable. */
    method Enter(root: nat, frame: Address)
      modifies this`canary, this`bootCr3, this`bootRsp, this`kernelRsp, this`cr3, this`fsBase, this`gs
      ensures canary == CANARY_MAGIC && bootCr3 == old(cr3) && bootRsp == kernelRsp == frame
      ensures cr3 == root && fsBase == 0 && gs == 0
    {
      canary := CANARY_MAGIC;
      bootCr3 := cr3;
      bootRsp := frame;
      kernelRsp := frame;
      cr3 := root;
      fsBase, gs := 0, 0;
    }

    /** The end of the current process: sys_exit, or the page fault handler. */
    method EndProcess(program: Program)
      requires InUser()
      modifies this`procs, this`gs, this`kernelGs, this`userRsp
      ensures InSyscall() && procs == Ended(old(procs), curPid, !program.faults)
      ensures HasEnded(old(procs), procs, curPid, !program.faults)
    {
      EndedMeans(procs, curPid, !program.faults);
      if program.faults {
        Swapgs();
      } else {
        SyscallEntry(program.exitSp);
      }
      procs := Ended(procs, curPid, !program.faults);
    }

    /** boot_return_to_kernel: back to the saved stack pointer; a wrong canary would panic. */
    method BootReturn() returns (rsp: nat)
      requires canary == CANARY_MAGIC && InSyscall()
      modifies this`canary, this`bootCr3, this`bootRsp, this`cr3, this`fsBase, this`gs, this`kernelGs
      ensures rsp == old(bootRsp) && cr3 == old(bootCr3)
      ensures bootRsp == 0 && bootCr3 == 0 && canary == 0
      ensures InUser() && fsBase == 0
    {
      rsp := bootRsp;
      var back := bootCr3;
      bootRsp, bootCr3, canary := 0, 0, 0;
      cr3 := back;
      Swapgs();
      fsBase, gs := 0, 0;
    }

    /**
     * Enter the current process, let it run to its end and come back. The result is
     * the stack pointer control returns to: the one saved by this very entry, whatever
     * other processes were entered in between.
     */
    method EnterAndReturn(pid: nat, root: nat, frame: Address, program: Program) returns (rsp: nat)
      requires InUser() && curPid == pid && root == Root(procs, pid)
      modifies this
      ensures rsp == frame
      ensures InUser() && bootRsp == 0 && bootCr3 == 0 && canary == 0
      ensures cr3 == old(cr3) && fsBase == 0
      ensures TheTable() == Finished(old(TheTable()), pid, program)
      decreases program, 1
    {
      hide Acts, Ended;
      Enter(root, frame);
      RunActions(pid, program, root);
      EndProcess(program);
      rsp := BootReturn();
    }

    /** Free the roots a finished process leaves: the one it has now and the first one. */
    method FreeRoots(pid: nat, first: nat)
      modifies this`procs, this`live, this`released, this`log
      ensures TheTable() == Released(old(TheTable()), pid, first)
    {
      var current := Root(procs, pid);
      if current != 0 && current != first {
        FreeRoot(current);
      }
      if first != 0 {
        FreeRoot(first);
      }
      if pid in procs {
        procs := procs[pid := procs[pid].(root := 0)];
        released := released + {pid};
      }
    }

    /** The middle of boot_run_forked_child: run the child, then free the roots it started and ended with. */
    method RunAndFree(child: nat, root: nat, frame: Address, program: Program)
      requires InUser() && curPid == child && root == Root(procs, child)
      modifies this
      ensures InSyscall() && cr3 == old(cr3) && fsBase == 0
      ensures TheTable() == Run(old(TheTable()), child, program)
      decreases program, 2
    {
      hide Finished, Released;
      var rsp := EnterAndReturn(child, root, frame, program);
      Swapgs();
      FreeRoots(child, root);
    }

    /** The body of boot_run_forked_child once a child with a thread and a root is there. */
    method RunChild(child: nat, parentPid: nat, parentTid: nat, program: Program, frame: Address)
      requires InSyscall() && child in procs && procs[child].tid.Some?
      modifies this
      ensures Context() == old(Context()).(curPid := parentPid, curTid := parentTid)
      ensures userRsp == old(userRsp) && InSyscall() && cr3 == old(cr3) && fsBase == 0
      ensures TheTable() == Run(old(TheTable()), child, program)
      decreases program, 3
    {
      hide Run;
      var savedRsp, savedCr3, savedCanary := bootRsp, bootCr3, canary;
      var savedKernelRsp, savedUserRsp := kernelRsp, userRsp;
      var root := procs[child].root;
      curPid, curTid := child, procs[child].tid.value;
      Swapgs();
      RunAndFree(child, root, frame, program);
      kernelRsp, userRsp := savedKernelRsp, savedUserRsp;
      curPid, curTid := parentPid, parentTid;
      bootRsp, bootCr3, canary := savedRsp, savedCr3, savedCanary;
    }

    ghost predicate CanRun(child: nat)
      reads this
    {
      bootRsp != 0 && child in procs && procs[child].tid.Some? && procs[child].root != 0
    }

    /**
     * boot_run_forked_child. When it returns true the parent finds the boot return
     * context, the per-CPU stack pointers, the current process, the GS pair and CR3
     * as they were, whatever tree of programs ran in between; the FS base, which
     * the entry and return paths clear and nothing restores, is zero. When it
     * returns false nothing has changed.
     */
    method BootRunForkedChild(child: nat, parentPid: nat, parentTid: nat, program: Program, frame: Address)
        returns (ran: bool)
      requires InSyscall()
      modifies this
      ensures ran == old(CanRun(child))
      ensures !ran ==> unchanged(this)
      ensures ran ==> Context() == old(Context()).(curPid := parentPid, curTid := parentTid)
      ensures ran ==> userRsp == old(userRsp) && InSyscall() && cr3 == old(cr3) && fsBase == 0
      ensures ran ==> TheTable() == Run(old(TheTable()), child, program)
      decreases program, 4
    {
      hide Run;
      if bootRsp == 0 || child !in procs || procs[child].tid.None? {
        return false;
      }
      if procs[child].root == 0 {
        return false;
      }
      RunChild(child, parentPid, parentTid, program, frame);
      ran := true;
    }

    // -------------------------------------------------------------- the boot loop

    /** Nothing runs: the state between two boot programs. */
    ghost predicate Idle()
      reads this
    {
      InUser() && curPid == 0 && curTid == 0 && bootRsp == 0
    }

    constructor (perCpu: nat, bootRoot: nat)
      ensures Idle() && cr3 == bootRoot && TheTable() == BLANK
    {
      this.perCpu := perCpu;
      bootRsp, bootCr3, canary, kernelRsp, userRsp := 0, 0, 0, 0, 0;
      curPid, curTid, gs, kernelGs, fsBase, cr3 := 0, 0, 0, perCpu, 0, bootRoot;
      procs, nextPid, live, given, released, log := map[], 1, {}, {}, {}, [];
    }

    /** load_user_program */
    method Load(tid: Option<nat>, root: nat) returns (pid: nat)
      modifies this`procs, this`live, this`log, this`nextPid
      ensures TheTable() == Loaded(old(TheTable()), tid, root)
      ensures pid == if root != 0 && root !in old(live) then old(nextPid) else 0
      ensures procs == if root != 0 && root !in old(live) then old(procs)[old(nextPid) := Proc(0, Ready, tid, root)]
                       else old(procs)
    {
      if root == 0 || root in live {
        return 0;
      }
      TakeRoot(root);
      pid := nextPid;
      procs := procs[pid := Proc(0, Ready, tid, root)];
      nextPid := nextPid + 1;
    }

    /** run_user_process between setting and clearing the current boot process. */
    method RunUser(pid: nat, root: nat, program: Program, frame: Address, mapped: bool)
      requires Idle() && root == Root(procs, pid)
      modifies this
      ensures Idle() && cr3 == old(cr3)
      ensures TheTable() == if Enterable(old(TheTable()), pid) && mapped then Finished(old(TheTable()), pid, program)
                            else old(TheTable())
    {
      hide Finished;
      if pid in procs && procs[pid].tid.Some? {
        curPid, curTid := pid, procs[pid].tid.value;
        if root != 0 && mapped {
          var rsp := EnterAndReturn(pid, root, frame, program);
        }
        curPid, curTid := 0, 0;
      }
    }

    /**
     * run_user_process_scheduled. mapped says whether the entry point and the stack
     * are mapped, without which the process is not entered.
     */
    method RunScheduled(pid: nat, program: Program, frame: Address, mapped: bool)
      requires Idle()
      modifies this
      ensures Idle() && cr3 == old(cr3)
      ensures TheTable() == Scheduled(old(TheTable()), pid, program, mapped)
    {
      hide Finished, Released;
      var saved := Root(procs, pid);
      RunUser(pid, saved, program, frame, mapped);
      NoRoot(TheTable(), pid);
      FreeRoots(pid, saved);
      if pid in procs && (procs[pid].state == Zombie || procs[pid].state == Dead) {
        procs := procs - {pid};
      }
    }

    /** boot_reap_orphan_zombies: collect the orphans in table order, then free and remove each. */
    method Sweep()
      requires Idle()
      modifies this`procs, this`live, this`released, this`log
      ensures Idle()
      ensures TheTable() == Swept(old(TheTable()), Orphans(old(procs), nextPid))
    {
      hide Released;
      var zombies := [];
      var p := 0;
      while p < nextPid
        invariant 0 <= p <= nextPid && zombies == Orphans(procs, p)
        modifies {}
      {
        if IsOrphan(procs, p) {
          zombies := zombies + [p];
        }
        p := p + 1;
      }
      var i := 0;
      assert zombies[..0] == [];
      while i < |zombies|
        invariant 0 <= i <= |zombies| && Idle()
        invariant TheTable() == Swept(old(TheTable()), zombies[..i])
        modifies this`procs, this`live, this`released, this`log
      {
        assert zombies[..i + 1][..i] == zombies[..i];
        var pid := zombies[i];
        FreeRoots(pid, Root(procs, pid));
        procs := procs - {pid};
        i := i + 1;
      }
      assert zombies[..i] == zombies;
    }
  }

  /** Nothing is there to be freed for a process that is not listed. */
  lemma NoRoot(t: Table, pid: nat)
    ensures pid !in t.procs ==> Released(t, pid, 0) == t
  {
  }

  // ---------------------------------------------------------------- whole runs

  /**
   * Any boot sequence: processes and roots are what the sequence says, every root is
   * taken and freed in turn, the allocated roots are those of processes and those
   * lost, and the machine is idle again between programs.
   */
  method Execute(perCpu: nat, bootRoot: nat, ops: seq<BootOp>) returns (m: Machine)
    ensures fresh(m) && m.Idle() && m.cr3 == bootRoot
    ensures m.TheTable() == Boot(ops)
    ensures forall r :: Alternates(OfRoot(m.log, r))
    ensures forall r :: r in m.live <==> r in LostBy(ops) || IsRoot(m.procs, r)
  {
    hide LostBy, Loaded, Scheduled, Swept, IsRoot, Alternates, OfRoot;
    m := new Machine(perCpu, bootRoot);
    var i := 0;
    while i < |ops|
      invariant 0 <= i <= |ops|
      invariant fresh(m) && m.Idle() && m.cr3 == bootRoot
      invariant m.TheTable() == Boot(ops[..i])
    {
      assert ops[..i + 1][..i] == ops[..i];
      match ops[i] {
        case LoadOp(tid, root) => var pid := m.Load(tid, root);
        case RunOp(pid, program, frame, mapped) => m.RunScheduled(pid, program, frame, mapped);
        case SweepOp => m.Sweep();
      }
      i := i + 1;
    }
    assert ops[..i] == ops;
    forall r
      ensures Alternates(OfRoot(m.log, r)) && (r in m.live <==> r in LostBy(ops) || IsRoot(m.procs, r))
    {
      RootsAlternate(ops, r);
      LeaksAccounted(ops, r);
    }
  }
}
