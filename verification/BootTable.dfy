/**
 * What boot programs do to the process table and to page table roots, told by the
 * programs alone. Before there is a scheduler a process runs to its end inside the
 * call that entered it, and a waiting parent runs its forked child inline, so a
 * program is a tree and its effect is a recursive function of the table.
 */
module BootTable {
  import opened Text

  datatype State = Ready | Zombie | Dead

  /** parent 0 stands for none; root is the page table root, 0 when there is none. */
  datatype Proc = Proc(parent: nat, state: State, tid: Option<nat>, root: nat)

  type Procs = map<nat, Proc>

  /** A stack pointer; never zero. */
  type Address = a: nat | a != 0 witness 1

  /** What a user program does, system call by system call, and how it ends. */
  datatype Program = Program(actions: seq<Action>, faults: bool, exitSp: nat)

  datatype Action =
    | Plain(userSp: nat)
    | SetFs(userSp: nat, base: nat)
    | Fork(userSp: nat, tid: nat, root: nat)
    | Exec(userSp: nat, root: nat, loads: bool, tlsBase: nat)
    | Dispatch(userSp: nat, child: nat, program: Program, frame: Address)
    | Reap(userSp: nat, child: nat)
    | Kill(userSp: nat, pid: nat)

  /** A page table hierarchy is taken from the frame allocator or given back to it. */
  datatype RootEvent = Took(root: nat) | Freed(root: nat)

  /**
   * given holds the roots no later step frees, released the processes whose roots have
   * been given back; log is all that happened to roots.
   */
  datatype Table = Table(procs: Procs, next: nat, live: set<nat>, given: set<nat>, released: set<nat>,
                         log: seq<RootEvent>)

  function Root(procs: Procs, p: nat): nat {
    if p in procs then procs[p].root else 0
  }

  // ---------------------------------------------------------------- single steps

  /** The frame allocator never hands out a root that is still allocated. */
  predicate CanTake(t: Table, r: nat) {
    r != 0 && r !in t.live
  }

  function Take(t: Table, r: nat): Table {
    t.(live := t.live + {r}, log := t.log + [Took(r)])
  }

  /** free_user_page_table_frames; nothing checks that the root is allocated. */
  function Free(t: Table, r: nat): Table {
    t.(live := t.live - {r}, log := t.log + [Freed(r)])
  }

  /** cleanup_process: the children of p go to init, if there is one. */
  function Reparented(procs: Procs, p: nat): (r: Procs)
    ensures r.Keys == procs.Keys
    ensures forall q :: q in procs ==> r[q] == procs[q].(parent := r[q].parent)
    ensures forall q :: q in procs ==> r[q].parent == procs[q].parent || (r[q].parent == 1 && procs[q].parent == p)
  {
    if 1 in procs && p in procs && procs[p].state != Zombie then
      map q | q in procs :: if procs[q].parent == p then procs[q].(parent := 1) else procs[q]
    else procs
  }

  /** sys_exit and the fault handler: the process becomes a zombie and keeps its root. */
  function Ended(procs: Procs, p: nat, cleanup: bool): (r: Procs)
    ensures r.Keys == procs.Keys
    ensures forall q :: q in procs ==> r[q].root == procs[q].root && r[q].tid == procs[q].tid
    ensures p in procs ==> r[p].state == Zombie
  {
    var m := if cleanup then Reparented(procs, p) else procs;
    if p in m then m[p := m[p].(state := Zombie)] else m
  }

  /** What the end of a process changes: it is a zombie, and its children may go to process 1, if there is one. */
  ghost predicate HasEnded(procs: Procs, after: Procs, p: nat, cleanup: bool) {
    && after.Keys == procs.Keys
    && forall q :: q in procs ==>
         && after[q].root == procs[q].root && after[q].tid == procs[q].tid
         && after[q].state == (if q == p then Zombie else procs[q].state)
         && after[q].parent
            == (if cleanup && procs[q].parent == p && p in procs && procs[p].state != Zombie && 1 in procs then 1
                else procs[q].parent)
  }

  lemma EndedMeans(procs: Procs, p: nat, cleanup: bool)
    ensures HasEnded(procs, Ended(procs, p, cleanup), p, cleanup)
  {
  }

  /** fork: a new ready child with a fresh root; nothing happens if none can be had. */
  function Forked(t: Table, pid: nat, tid: nat, root: nat): Table {
    if CanTake(t, root)
    then Take(t, root).(procs := t.procs[t.next := Proc(pid, Ready, Some(tid), root)], next := t.next + 1)
    else t
  }

  predicate ExecTakes(t: Table, pid: nat, a: Action) {
    a.Exec? && pid in t.procs && CanTake(t, a.root)
  }

  /** exec: a fresh root replaces the current one, which only the caller of this run may still free. */
  function Execed(t: Table, pid: nat, first: nat, root: nat): Table
    requires pid in t.procs
  {
    var was := t.procs[pid].root;
    Take(t, root).(procs := t.procs[pid := t.procs[pid].(root := root)],
                   given := if was == first || was == 0 then t.given else t.given + {was})
  }

  /** wait finds a zombie child and removes it; a root it still has is given up. */
  function Reaped(t: Table, pid: nat, child: nat): Table {
    if child in t.procs && t.procs[child].parent == pid && t.procs[child].state == Zombie
    then t.(procs := t.procs - {child},
            given := if t.procs[child].root == 0 then t.given else t.given + {t.procs[child].root})
    else t
  }

  /** kill with a fatal signal: the process is a zombie from now on. */
  function Killed(t: Table, pid: nat): Table {
    if pid in t.procs && t.procs[pid].state == Ready then t.(procs := Ended(t.procs, pid, true)) else t
  }

  /** A waiting parent can run this child inline. */
  predicate Dispatches(t: Table, pid: nat, child: nat) {
    && child in t.procs && t.procs[child].parent == pid && t.procs[child].state == Ready
    && t.procs[child].tid.Some? && t.procs[child].root != 0
  }

  function Rootless(procs: Procs, pid: nat): Procs {
    if pid in procs then procs[pid := procs[pid].(root := 0)] else procs
  }

  /** What is freed after a run: the root the process has now, and the one it started with. */
  function Released(t: Table, pid: nat, first: nat): Table {
    var current := Root(t.procs, pid);
    var t1 := if current != 0 && current != first then Free(t, current) else t;
    var t2 := if first != 0 then Free(t1, first) else t1;
    t2.(procs := Rootless(t.procs, pid), released := if pid in t.procs then t.released + {pid} else t.released)
  }

  // ---------------------------------------------------------------- runs of programs

  /** One system call of process pid, which started this run with root first. */
  function Act(t: Table, pid: nat, first: nat, a: Action): Table
    decreases a, 0
  {
    match a
    case Fork(_, tid, root) => Forked(t, pid, tid, root)
    case Exec(_, root, _, _) => if ExecTakes(t, pid, a) then Execed(t, pid, first, root) else t
    case Dispatch(_, child, program, _) => if Dispatches(t, pid, child) then Run(t, child, program) else t
    case Reap(_, child) => Reaped(t, pid, child)
    case Kill(_, target) => Killed(t, target)
    case _ => t
  }

  /** The first n system calls of a program. */
  function Acts(t: Table, pid: nat, first: nat, program: Program, n: nat): Table
    requires n <= |program.actions|
    decreases program, 0, n
  {
    if n == 0 then t else Act(Acts(t, pid, first, program, n - 1), pid, first, program.actions[n - 1])
  }

  /** The program up to and with its end. */
  function Finished(t: Table, pid: nat, program: Program): Table
    decreases program, 1
  {
    var u := Acts(t, pid, Root(t.procs, pid), program, |program.actions|);
    u.(procs := Ended(u.procs, pid, !program.faults))
  }

  /** Enter a process, run it to its end and free its roots. */
  function Run(t: Table, pid: nat, program: Program): Table
    decreases program, 2
  {
    Released(Finished(t, pid, program), pid, Root(t.procs, pid))
  }

  /** The roots the process got from its execs among the first n system calls. */
  function Execs(t: Table, pid: nat, program: Program, n: nat): seq<nat>
    requires n <= |program.actions|
  {
    if n == 0 then []
    else
      var a := program.actions[n - 1];
      var before := Execs(t, pid, program, n - 1);
      if ExecTakes(Acts(t, pid, Root(t.procs, pid), program, n - 1), pid, a) then before + [a.root] else before
  }

  // ---------------------------------------------------------------- the log

  /** What happened to one root, in order. */
  function OfRoot(log: seq<RootEvent>, r: nat): seq<RootEvent> {
    if log == [] then []
    else
      var n := |log| - 1;
      OfRoot(log[..n], r) + (if log[n].root == r then [log[n]] else [])
  }

  /** Taken first, then freed and taken in turn: never freed twice, never handed out twice. */
  predicate Alternates(events: seq<RootEvent>) {
    forall i :: 0 <= i < |events| ==> (events[i].Took? <==> i % 2 == 0)
  }

  ghost predicate LogOk(log: seq<RootEvent>, live: set<nat>) {
    forall r :: Alternates(OfRoot(log, r)) && (r in live <==> |OfRoot(log, r)| % 2 == 1)
  }

  lemma LogTakes(log: seq<RootEvent>, live: set<nat>, r: nat)
    requires LogOk(log, live) && r !in live
    ensures LogOk(log + [Took(r)], live + {r})
  {
    forall x
      ensures OfRoot(log + [Took(r)], x) == if x == r then OfRoot(log, x) + [Took(r)] else OfRoot(log, x)
    {
      assert (log + [Took(r)])[..|log|] == log;
    }
  }

  lemma LogFrees(log: seq<RootEvent>, live: set<nat>, r: nat)
    requires LogOk(log, live) && r in live
    ensures LogOk(log + [Freed(r)], live - {r})
  {
    forall x
      ensures OfRoot(log + [Freed(r)], x) == if x == r then OfRoot(log, x) + [Freed(r)] else OfRoot(log, x)
    {
      assert (log + [Freed(r)])[..|log|] == log;
    }
  }

  // ---------------------------------------------------------------- the invariant

  predicate Owns(procs: Procs, p: nat, r: nat) {
    p in procs && procs[p].root == r != 0
  }

  ghost predicate IsRoot(procs: Procs, r: nat) {
    exists p :: Owns(procs, p, r)
  }

  /**
   * Every pid is below next and has an older parent; a process has no root exactly when
   * it was released; no two processes share a root;
   * and the allocated roots are exactly those of processes, those given up, and
   * those the runs in progress started with.
   */
  ghost predicate Ok(t: Table, held: set<nat>) {
    && t.next >= 1 && 0 !in t.given && 0 !in held
    && (forall p :: p in t.procs ==> 1 <= p < t.next && t.procs[p].parent < p)
    && (forall p :: p in t.released ==> p < t.next)
    && (forall p :: p in t.procs ==> (t.procs[p].root == 0 <==> p in t.released))
    && (forall p, q, r :: Owns(t.procs, p, r) && Owns(t.procs, q, r) ==> p == q)
    && (forall p, r :: Owns(t.procs, p, r) ==> r !in t.given)
    && held !! t.given
    && (forall r :: r in t.live <==> r in t.given || r in held || IsRoot(t.procs, r))
    && LogOk(t.log, t.live)
  }

  /** No process from pid c on has a root in held. */
  ghost predicate Apart(procs: Procs, c: nat, held: set<nat>) {
    forall q: nat, r :: Owns(procs, q, r) && q >= c ==> r !in held
  }

  /** What a process keeps while it runs. */
  ghost predicate Mine(t: Table, pid: nat, first: nat, held: set<nat>) {
    && Ok(t, held + {first}) && Apart(t.procs, pid + 1, held + {first})
    && pid in t.procs && t.procs[pid].root != 0 && t.procs[pid].root !in held
    && first != 0 && first !in held
  }

  /** Older processes keep root and thread, new ones are young, and what is given up stays so. */
  ghost predicate Later(t: Table, t': Table, c: nat) {
    && (forall q :: q in t.procs && q < c ==>
          q in t'.procs && t'.procs[q].root == t.procs[q].root && t'.procs[q].tid == t.procs[q].tid)
    && (forall q :: q in t'.procs ==> q in t.procs || q >= t.next)
    && t.next <= t'.next && t.given <= t'.given
  }

  lemma LaterTrans(a: Table, b: Table, c: Table, pid: nat)
    requires Later(a, b, pid) && Later(b, c, pid)
    ensures Later(a, c, pid)
  {
  }

  // ---------------------------------------------------------------- single steps keep it

  /** The same processes with the same roots. */
  lemma SameRootsOk(t: Table, procs: Procs, held: set<nat>, c: nat, x: set<nat>)
    requires Ok(t, held) && Apart(t.procs, c, x) && procs.Keys == t.procs.Keys
    requires forall q :: q in procs ==> procs[q].root == t.procs[q].root && procs[q].parent < q
    ensures Ok(t.(procs := procs), held) && Apart(procs, c, x)
  {
    hide LogOk;
    forall r
      ensures IsRoot(procs, r) <==> IsRoot(t.procs, r)
    {
      forall p
        ensures Owns(procs, p, r) <==> Owns(t.procs, p, r)
      {
      }
    }
    assert forall p, r :: Owns(procs, p, r) <==> Owns(t.procs, p, r);
  }

  lemma EndedOk(t: Table, p: nat, cleanup: bool, held: set<nat>, c: nat, x: set<nat>)
    requires Ok(t, held) && Apart(t.procs, c, x)
    ensures var procs := Ended(t.procs, p, cleanup);
            && Ok(t.(procs := procs), held) && Apart(procs, c, x)
            && forall d :: Later(t, t.(procs := procs), d)
  {
    hide LogOk;
    var procs := Ended(t.procs, p, cleanup);
    forall q | q in procs
      ensures procs[q].parent < q
    {
    }
    hide Ended;
    SameRootsOk(t, procs, held, c, x);
  }

  /** A new process, or a process with a new root in place of was. */
  lemma NewRootOk(t: Table, pid: nat, proc: Proc, next: nat, held: set<nat>, given: set<nat>)
    requires Ok(t, held) && CanTake(t, proc.root) && t.next <= next && 1 <= pid < next && proc.parent < pid
    requires pid !in t.released && t.given <= given && 0 !in given && held !! given
    requires forall r :: r in given ==> r in t.given || Owns(t.procs, pid, r)
    requires forall r :: Owns(t.procs, pid, r) ==> r in given || r in held
    ensures Ok(Take(t, proc.root).(procs := t.procs[pid := proc], next := next, given := given), held)
  {
    hide LogOk;
    LogTakes(t.log, t.live, proc.root);
    var procs := t.procs[pid := proc];
    assert forall p, r :: p != pid ==> (Owns(procs, p, r) <==> Owns(t.procs, p, r));
    assert Owns(procs, pid, proc.root);
    assert forall p, r :: Owns(t.procs, p, r) ==> r in t.live by {
      assert forall p, r :: Owns(t.procs, p, r) ==> IsRoot(t.procs, r);
    }
    forall r
      ensures r in t.live + {proc.root} <==> r in given || r in held || IsRoot(procs, r)
    {
      if IsRoot(t.procs, r) {
        var p :| Owns(t.procs, p, r);
        assert p != pid ==> Owns(procs, p, r);
      }
    }
  }

  /** Removing a process that has no root, or whose root is given up with it. */
  lemma RemovedOk(t: Table, pid: nat, held: set<nat>)
    requires Ok(t, held) && (pid in t.procs ==> t.procs[pid].root !in held)
    ensures var r := Root(t.procs, pid);
            Ok(t.(procs := t.procs - {pid}, given := if r == 0 then t.given else t.given + {r}), held)
  {
    hide LogOk;
    var procs := t.procs - {pid};
    var root := Root(t.procs, pid);
    assert forall p, r :: Owns(procs, p, r) <==> p != pid && Owns(t.procs, p, r);
    assert root != 0 ==> Owns(t.procs, pid, root) && IsRoot(t.procs, root);
    forall r
      ensures IsRoot(t.procs, r) <==> IsRoot(procs, r) || (r == root != 0)
    {
      if IsRoot(t.procs, r) {
        var p :| Owns(t.procs, p, r);
        assert p != pid ==> Owns(procs, p, r);
      }
    }
  }

  /** A process without its root, which is freed. */
  lemma FreedOk(t: Table, pid: nat, held: set<nat>)
    requires Ok(t, held) && pid in t.procs && t.procs[pid].root != 0 && t.procs[pid].root !in held
    ensures Ok(Free(t, t.procs[pid].root).(procs := Rootless(t.procs, pid), released := t.released + {pid}), held)
  {
    hide LogOk;
    var procs, root := Rootless(t.procs, pid), t.procs[pid].root;
    assert Owns(t.procs, pid, root) && IsRoot(t.procs, root);
    LogFrees(t.log, t.live, root);
    assert forall p, r :: Owns(procs, p, r) <==> p != pid && Owns(t.procs, p, r);
    forall r
      ensures IsRoot(t.procs, r) <==> IsRoot(procs, r) || r == root
      ensures IsRoot(procs, root) ==> false
    {
      if IsRoot(t.procs, r) {
        var p :| Owns(t.procs, p, r);
        assert p != pid ==> Owns(procs, p, r);
      }
    }
  }

  /** A root held by a finished run and by no process is freed. */
  lemma HeldFreedOk(t: Table, first: nat, held: set<nat>)
    requires Ok(t, held + {first}) && first !in held && !IsRoot(t.procs, first)
    ensures Ok(Free(t, first), held)
  {
    hide LogOk;
    LogFrees(t.log, t.live, first);
    assert first in held + {first};
  }

  /** A root held by a run whose process still has it. */
  lemma NotHeldOk(t: Table, first: nat, held: set<nat>)
    requires Ok(t, held + {first}) && IsRoot(t.procs, first)
    ensures Ok(t, held)
  {
    hide LogOk;
    assert forall r :: r in held + {first} <==> r in held || r == first;
  }

  lemma OwnedHeldOk(t: Table, pid: nat, held: set<nat>)
    requires Ok(t, held) && pid in t.procs && t.procs[pid].root != 0
    ensures Ok(t, held + {t.procs[pid].root})
  {
    hide LogOk;
    assert Owns(t.procs, pid, t.procs[pid].root) && IsRoot(t.procs, t.procs[pid].root);
  }

  // ---------------------------------------------------------------- system calls keep it

  lemma ForkMine(t: Table, pid: nat, first: nat, held: set<nat>, tid: nat, root: nat)
    requires Mine(t, pid, first, held)
    ensures var t' := Forked(t, pid, tid, root);
            Mine(t', pid, first, held) && Later(t, t', pid + 1)
  {
    hide LogOk;
    if CanTake(t, root) {
      var proc := Proc(pid, Ready, Some(tid), root);
      NewRootOk(t, t.next, proc, t.next + 1, held + {first}, t.given);
      var procs := t.procs[t.next := proc];
      assert forall p, r :: p != t.next ==> (Owns(procs, p, r) <==> Owns(t.procs, p, r));
    }
  }

  lemma ExecMine(t: Table, pid: nat, first: nat, held: set<nat>, root: nat)
    requires Mine(t, pid, first, held) && CanTake(t, root)
    ensures var t' := Execed(t, pid, first, root);
            Mine(t', pid, first, held) && Later(t, t', pid) && Root(t'.procs, pid) == root
  {
    hide LogOk;
    var was := t.procs[pid].root;
    var proc := t.procs[pid].(root := root);
    var given := if was == first then t.given else t.given + {was};
    NewRootOk(t, pid, proc, t.next, held + {first}, given);
    var procs := t.procs[pid := proc];
    assert forall p, r :: p != pid ==> (Owns(procs, p, r) <==> Owns(t.procs, p, r));
    assert forall r :: r in held ==> r in held + {first};
  }

  lemma ReapMine(t: Table, pid: nat, first: nat, held: set<nat>, child: nat)
    requires Mine(t, pid, first, held)
    ensures var t' := Reaped(t, pid, child);
            Mine(t', pid, first, held) && Later(t, t', pid + 1)
  {
    hide LogOk;
    if child in t.procs && t.procs[child].parent == pid && t.procs[child].state == Zombie {
      assert t.procs[child].root != 0 ==> Owns(t.procs, child, t.procs[child].root);
      assert 0 !in held + {first};
      RemovedOk(t, child, held + {first});
      assert forall p, r :: Owns(t.procs - {child}, p, r) ==> Owns(t.procs, p, r);
    }
  }

  lemma KillMine(t: Table, pid: nat, first: nat, held: set<nat>, target: nat)
    requires Mine(t, pid, first, held)
    ensures var t' := Killed(t, target);
            Mine(t', pid, first, held) && Later(t, t', pid + 1)
  {
    hide LogOk, Ended;
    EndedOk(t, target, true, held + {first}, pid + 1, held + {first});
  }

  /** Running a ready child inline. */
  lemma DispatchMine(t: Table, pid: nat, first: nat, held: set<nat>, child: nat, program: Program)
    requires Mine(t, pid, first, held) && Dispatches(t, pid, child)
    ensures var t' := Run(t, child, program);
            && Mine(t', pid, first, held) && Later(t, t', pid)
            && t'.procs[pid].root == t.procs[pid].root
    decreases program, 6
  {
    hide LogOk, Run;
    assert child > pid;
    RunOk(t, child, program, held + {first});
    var t' := Run(t, child, program);
    assert forall q: nat, r :: Owns(t'.procs, q, r) && pid < q < child ==> Owns(t.procs, q, r);
  }

  lemma MineListed(t: Table, pid: nat, first: nat, held: set<nat>)
    requires Mine(t, pid, first, held)
    ensures pid in t.procs
  {
  }

  lemma {:induction false} ActMine(t: Table, pid: nat, first: nat, held: set<nat>, a: Action)
    requires Mine(t, pid, first, held)
    ensures var t' := Act(t, pid, first, a);
            && Mine(t', pid, first, held) && Later(t, t', pid)
            && t'.procs[pid].root == (if ExecTakes(t, pid, a) then a.root else t.procs[pid].root)
    decreases a, 1
  {
    hide Mine, Run, Forked, Reaped, Killed, Execed;
    MineListed(t, pid, first, held);
    match a {
      case Fork(_, tid, root) => ForkMine(t, pid, first, held, tid, root);
      case Exec(_, root, _, _) =>
        if ExecTakes(t, pid, a) {
          ExecMine(t, pid, first, held, root);
        }
      case Dispatch(_, child, program, _) =>
        if Dispatches(t, pid, child) {
          DispatchMine(t, pid, first, held, child, program);
        }
      case Reap(_, child) => ReapMine(t, pid, first, held, child);
      case Kill(_, target) => KillMine(t, pid, first, held, target);
      case _ =>
    }
  }

  // ---------------------------------------------------------------- whole programs keep it

  /**
   * After n system calls the process has the root of its last exec, or the first one,
   * and the roots of the execs in between are given up.
   */
  ghost predicate ExecsOk(t: Table, pid: nat, first: nat, execs: seq<nat>) {
    && Root(t.procs, pid) == (if execs == [] then first else execs[|execs| - 1])
    && first !in execs
    && forall i :: 0 <= i < |execs| - 1 ==> execs[i] in t.given
  }

  lemma {:induction false} ActsMine(t: Table, pid: nat, held: set<nat>, program: Program, n: nat)
    requires n <= |program.actions| && Mine(t, pid, Root(t.procs, pid), held)
    ensures var first := Root(t.procs, pid);
            var t' := Acts(t, pid, first, program, n);
            && Mine(t', pid, first, held) && Later(t, t', pid)
            && ExecsOk(t', pid, first, Execs(t, pid, program, n))
    decreases program, 4, n
  {
    hide Ok, Apart, Act, Run;
    var first := Root(t.procs, pid);
    if n != 0 {
      ActsMine(t, pid, held, program, n - 1);
      var mid, a := Acts(t, pid, first, program, n - 1), program.actions[n - 1];
      var t' := Act(mid, pid, first, a);
      ActMine(mid, pid, first, held, a);
      LaterTrans(t, mid, t', pid);
      if ExecTakes(mid, pid, a) {
        ExecGives(mid, pid, first, held, a, Execs(t, pid, program, n - 1));
      }
    }
  }

  /** One more exec gives up the root before, unless that is the one the run started with. */
  lemma ExecGives(t: Table, pid: nat, first: nat, held: set<nat>, a: Action, execs: seq<nat>)
    requires Mine(t, pid, first, held) && ExecTakes(t, pid, a) && ExecsOk(t, pid, first, execs)
    ensures ExecsOk(Act(t, pid, first, a), pid, first, execs + [a.root])
  {
    hide LogOk;
    assert first in held + {first};
    var t' := Act(t, pid, first, a);
    assert t' == Execed(t, pid, first, a.root);
    forall i | 0 <= i < |execs|
      ensures execs[i] in t'.given
    {
      if i == |execs| - 1 {
        assert execs[i] == t.procs[pid].root;
      }
    }
  }

  /** A finished process gives back the root it has and the one it started with. */
  lemma ReleaseOk(t: Table, pid: nat, first: nat, held: set<nat>)
    requires Mine(t, pid, first, held)
    requires forall q :: q in t.procs && q < pid ==> t.procs[q].root != first
    ensures var t' := Released(t, pid, first);
            && Ok(t', held) && Apart(t'.procs, pid, held) && Later(t, t', pid)
            && t'.live == t.live - {t.procs[pid].root, first} && t'.given == t.given
            && t'.procs == Rootless(t.procs, pid)
  {
    hide LogOk;
    var current := t.procs[pid].root;
    assert Owns(t.procs, pid, current);
    var procs := Rootless(t.procs, pid);
    assert forall p, r :: Owns(procs, p, r) <==> p != pid && Owns(t.procs, p, r);
    assert forall r :: r in held + {first} <==> r in held || r == first;
    if current == first {
      assert IsRoot(t.procs, first);
      NotHeldOk(t, first, held);
      FreedOk(t, pid, held);
    } else {
      FreedOk(t, pid, held + {first});
      var t1 := Free(t, current).(procs := procs, released := t.released + {pid});
      assert forall p :: !Owns(procs, p, first);
      HeldFreedOk(t1, first, held);
      assert t1.live - {first} == t.live - {current, first};
    }
  }

  /** A run by whoever may run it: what it leaves, and what becomes of every root it had. */
  lemma {:induction false} RunOk(t: Table, pid: nat, program: Program, held: set<nat>)
    requires Ok(t, held) && Apart(t.procs, pid, held) && pid in t.procs && t.procs[pid].root != 0
    ensures var t' := Run(t, pid, program);
            && Ok(t', held) && Apart(t'.procs, pid, held) && Later(t, t', pid)
            && pid in t'.procs && t'.procs[pid].root == 0 && t'.procs[pid].state == Zombie
            && Disposed(t', t.procs[pid].root, Execs(t, pid, program, |program.actions|))
    decreases program, 5
  {
    hide Ok, Apart, Later, Ended, Acts, Released;
    var first := t.procs[pid].root;
    EntryMine(t, pid, held);
    ActsMine(t, pid, held, program, |program.actions|);
    var mid := Acts(t, pid, first, program, |program.actions|);
    EndedOk(mid, pid, !program.faults, held + {first}, pid + 1, held + {first});
    var u := Finished(t, pid, program);
    LaterTrans(t, mid, u, pid);
    OlderRoots(t, u, pid, held);
    ReleaseOk(u, pid, first, held);
    LaterTrans(t, u, Run(t, pid, program), pid);
    RunDisposes(u, pid, first, Execs(t, pid, program, |program.actions|), held);
  }

  /** On entry a process's only root is its own and becomes the one the run holds. */
  lemma EntryMine(t: Table, pid: nat, held: set<nat>)
    requires Ok(t, held) && Apart(t.procs, pid, held) && pid in t.procs && t.procs[pid].root != 0
    ensures Mine(t, pid, t.procs[pid].root, held)
  {
    hide LogOk;
    assert Owns(t.procs, pid, t.procs[pid].root);
    OwnedHeldOk(t, pid, held);
  }

  lemma OlderRoots(t: Table, u: Table, pid: nat, held: set<nat>)
    requires Ok(t, held) && pid in t.procs && t.procs[pid].root != 0 && Later(t, u, pid)
    ensures forall q :: q in u.procs && q < pid ==> u.procs[q].root != t.procs[pid].root
  {
    hide LogOk;
    assert Owns(t.procs, pid, t.procs[pid].root);
    forall q | q in u.procs && q < pid
      ensures u.procs[q].root != t.procs[pid].root
    {
      assert t.procs[q].root != 0 ==> Owns(t.procs, q, t.procs[q].root);
    }
  }

  lemma RunDisposes(u: Table, pid: nat, first: nat, execs: seq<nat>, held: set<nat>)
    requires Mine(u, pid, first, held) && ExecsOk(u, pid, first, execs)
    requires forall q :: q in u.procs && q < pid ==> u.procs[q].root != first
    ensures Disposed(Released(u, pid, first), first, execs)
  {
    hide LogOk, Released;
    ReleaseOk(u, pid, first, held);
    var t' := Released(u, pid, first);
    forall i | 0 <= i < |execs| - 1
      ensures execs[i] in t'.live
    {
      assert execs[i] in t'.given;
    }
  }

  /** The first and the last root are free; those of the execs in between stay allocated. */
  ghost predicate Disposed(t: Table, first: nat, execs: seq<nat>) {
    && first !in t.live
    && (execs != [] ==> execs[|execs| - 1] !in t.live)
    && (forall i :: 0 <= i < |execs| - 1 ==> execs[i] in t.live && execs[i] in t.given)
  }

  /** All roots a run ever had are freed exactly when at most one of its execs got one. */
  lemma FreedUpToOneExec(t: Table, pid: nat, program: Program, held: set<nat>)
    requires Ok(t, held) && Apart(t.procs, pid, held) && pid in t.procs && t.procs[pid].root != 0
    ensures var t' := Run(t, pid, program);
            var execs := Execs(t, pid, program, |program.actions|);
            (t.procs[pid].root !in t'.live && forall r :: r in execs ==> r !in t'.live) <==> |execs| <= 1
  {
    hide Ok, Apart, Run, Execs;
    RunOk(t, pid, program, held);
    var execs := Execs(t, pid, program, |program.actions|);
    if |execs| > 1 {
      assert execs[0] in execs;
    }
  }

  // ---------------------------------------------------------------- fork, run, wait

  /** No process of the tree kills anybody. */
  predicate KillFree(program: Program)
    decreases program
  {
    forall i :: 0 <= i < |program.actions| ==> Peaceful(program.actions[i])
  }

  predicate Peaceful(a: Action)
    decreases a
  {
    !a.Kill? && (a.Dispatch? ==> KillFree(a.program))
  }

  /** Older processes, and this one but for its root, are as they were. */
  ghost predicate Untouched(t: Table, t': Table, pid: nat) {
    && (forall q :: q in t.procs && q < pid ==> q in t'.procs && t'.procs[q] == t.procs[q])
    && (pid in t.procs ==> pid in t'.procs && t'.procs[pid] == t.procs[pid].(root := t'.procs[pid].root))
  }

  lemma {:induction false} PeacefulAct(t: Table, pid: nat, first: nat, held: set<nat>, a: Action)
    requires Mine(t, pid, first, held) && Peaceful(a)
    ensures Untouched(t, Act(t, pid, first, a), pid)
    decreases a, 1
  {
    hide LogOk, Run, Ended;
    if a.Dispatch? && Dispatches(t, pid, a.child) {
      PeacefulRun(t, a.child, a.program, held + {first});
    }
  }

  lemma {:induction false} PeacefulActs(t: Table, pid: nat, held: set<nat>, program: Program, n: nat)
    requires n <= |program.actions| && Mine(t, pid, Root(t.procs, pid), held) && KillFree(program)
    ensures Untouched(t, Acts(t, pid, Root(t.procs, pid), program, n), pid)
    decreases program, 2, n
  {
    hide Mine, Act, Later, ExecsOk, Peaceful;
    var first := Root(t.procs, pid);
    if n != 0 {
      PeacefulActs(t, pid, held, program, n - 1);
      ActsMine(t, pid, held, program, n - 1);
      PeacefulAct(Acts(t, pid, first, program, n - 1), pid, first, held, program.actions[n - 1]);
    }
  }

  /** A run without kills leaves all older processes alone and its own process a zombie of the same parent. */
  lemma {:induction false} PeacefulRun(t: Table, pid: nat, program: Program, held: set<nat>)
    requires Ok(t, held) && Apart(t.procs, pid, held) && pid in t.procs && t.procs[pid].root != 0 && KillFree(program)
    ensures var t' := Run(t, pid, program);
            && (forall q :: q in t.procs && q < pid ==> q in t'.procs && t'.procs[q] == t.procs[q])
            && pid in t'.procs && t'.procs[pid] == t.procs[pid].(state := Zombie, root := 0)
    decreases program, 3
  {
    hide LogOk, Ended, Acts;
    var first := t.procs[pid].root;
    EntryMine(t, pid, held);
    PeacefulActs(t, pid, held, program, |program.actions|);
    ActsMine(t, pid, held, program, |program.actions|);
    var mid := Acts(t, pid, first, program, |program.actions|);
    EndedMeans(mid.procs, pid, !program.faults);
    var u := Finished(t, pid, program);
    assert forall q :: q in mid.procs && q <= pid ==> mid.procs[q].parent != pid;
    assert u.procs[pid] == mid.procs[pid].(state := Zombie);
  }

  /** Fork a child, run it inline, wait for it: it is gone and everybody who was there is as before. */
  lemma ForkRunWait(t: Table, pid: nat, first: nat, held: set<nat>, fork: Action, run: Action, wait: Action)
    requires Mine(t, pid, first, held)
    requires fork.Fork? && CanTake(t, fork.root)
    requires run.Dispatch? && run.child == t.next && KillFree(run.program)
    requires wait.Reap? && wait.child == t.next
    ensures var t' := Act(Act(Act(t, pid, first, fork), pid, first, run), pid, first, wait);
            && t.next !in t'.procs
            && forall q :: q in t.procs ==> q in t'.procs && t'.procs[q] == t.procs[q]
  {
    hide LogOk, Run;
    var child := t.next;
    var t1 := Act(t, pid, first, fork);
    ForkMine(t, pid, first, held, fork.tid, fork.root);
    assert t1.procs[child] == Proc(pid, Ready, Some(fork.tid), fork.root);
    assert Dispatches(t1, pid, child);
    assert Ok(t1, held + {first}) && Apart(t1.procs, child, held + {first});
    PeacefulRun(t1, child, run.program, held + {first});
    var t2 := Act(t1, pid, first, run);
    assert t2.procs[child] == Proc(pid, Zombie, Some(fork.tid), 0);
    assert forall q :: q in t.procs ==> q < child;
  }

  // ---------------------------------------------------------------- what leaks

  /** Allocated, but no process has it and no run in progress holds it. */
  ghost predicate Stray(t: Table, held: set<nat>, r: nat) {
    r in t.live && !IsRoot(t.procs, r) && r !in held
  }

  lemma StrayIsGiven(t: Table, held: set<nat>)
    requires Ok(t, held)
    ensures forall r :: Stray(t, held, r) <==> r in t.given
  {
    hide LogOk;
    assert forall r :: r in t.given ==> !IsRoot(t.procs, r);
  }

  predicate IsZombieChild(t: Table, pid: nat, child: nat) {
    child in t.procs && t.procs[child].parent == pid && t.procs[child].state == Zombie
  }

  /** A wait for a zombie child that was never released, or an exec of a process that has execed in this run. */
  predicate Leaks(t: Table, pid: nat, first: nat, a: Action) {
    match a
    case Reap(_, child) => IsZombieChild(t, pid, child) && child !in t.released
    case Exec(_, _, _, _) => ExecTakes(t, pid, a) && Root(t.procs, pid) != first
    case _ => false
  }

  ghost predicate LeavesStray(t: Table, t': Table, held: set<nat>) {
    exists r :: Stray(t', held, r) && !Stray(t, held, r)
  }

  /** Exactly these system calls leave a root allocated that belongs to nobody. */
  lemma LeaksExactly(t: Table, pid: nat, first: nat, held: set<nat>, a: Action)
    requires Mine(t, pid, first, held) && !a.Dispatch?
    ensures LeavesStray(t, Act(t, pid, first, a), held + {first}) <==> Leaks(t, pid, first, a)
    ensures forall r :: Stray(t, held + {first}, r) ==> Stray(Act(t, pid, first, a), held + {first}, r)
  {
    hide LogOk, Stray, Ended;
    var t' := Act(t, pid, first, a);
    ActMine(t, pid, first, held, a);
    StrayIsGiven(t, held + {first});
    StrayIsGiven(t', held + {first});
    if Leaks(t, pid, first, a) {
      var r := if a.Reap? then t.procs[a.child].root else t.procs[pid].root;
      var p := if a.Reap? then a.child else pid;
      assert Owns(t.procs, p, r);
      assert r in t'.given && r !in t.given;
    } else {
      assert t'.given == t.given;
    }
  }

  /** All roots of execs but the last one. */
  function NonLast(execs: seq<nat>): set<nat> {
    set i | 0 <= i < |execs| - 1 :: execs[i]
  }

  /** What a system call loses by waiting, in the process or in a child it runs. */
  function LostByCall(t: Table, pid: nat, a: Action): set<nat>
    decreases a, 0
  {
    match a
    case Reap(_, child) =>
      if IsZombieChild(t, pid, child) && child !in t.released then {t.procs[child].root} else {}
    case Dispatch(_, child, program, _) =>
      if Dispatches(t, pid, child) then LostByRun(t, child, program) else {}
    case _ => {}
  }

  function LostByCalls(t: Table, pid: nat, program: Program, n: nat): set<nat>
    requires n <= |program.actions|
    decreases program, 0, n
  {
    if n == 0 then {}
    else
      LostByCalls(t, pid, program, n - 1)
      + LostByCall(Acts(t, pid, Root(t.procs, pid), program, n - 1), pid, program.actions[n - 1])
  }

  /** The roots a run loses: those of its execs but the last, and those of children never released. */
  function LostByRun(t: Table, pid: nat, program: Program): set<nat>
    decreases program, 1
  {
    var n := |program.actions|;
    LostByCalls(t, pid, program, n) + NonLast(Execs(t, pid, program, n))
  }

  lemma NonLastOfNone()
    ensures NonLast([]) == {}
  {
  }

  lemma NonLastAppend(execs: seq<nat>, r: nat)
    ensures NonLast(execs + [r]) == NonLast(execs) + (if execs == [] then {} else {execs[|execs| - 1]})
  {
    forall x
      ensures x in NonLast(execs + [r]) <==> x in execs
    {
      if x in execs {
        var i :| 0 <= i < |execs| && execs[i] == x;
        assert (execs + [r])[i] == x;
      }
    }
    forall x
      ensures x in execs <==> x in NonLast(execs) || (execs != [] && x == execs[|execs| - 1])
    {
    }
  }

  lemma {:induction false} CallLoses(t: Table, pid: nat, first: nat, held: set<nat>, a: Action)
    requires Mine(t, pid, first, held) && !ExecTakes(t, pid, a)
    ensures Act(t, pid, first, a).given == t.given + LostByCall(t, pid, a)
    decreases a, 1
  {
    hide LogOk, Ended, Run, LostByRun;
    if a.Dispatch? && Dispatches(t, pid, a.child) {
      RunLoses(t, a.child, a.program, held + {first});
    }
  }

  lemma {:induction false} CallsLose(t: Table, pid: nat, held: set<nat>, program: Program, n: nat)
    requires n <= |program.actions| && Mine(t, pid, Root(t.procs, pid), held)
    ensures Acts(t, pid, Root(t.procs, pid), program, n).given
            == t.given + LostByCalls(t, pid, program, n) + NonLast(Execs(t, pid, program, n))
    decreases program, 2, n
  {
    hide Mine, Act, LostByCall, NonLast, Later;
    var first := Root(t.procs, pid);
    if n == 0 {
      NonLastOfNone();
    } else {
      CallsLose(t, pid, held, program, n - 1);
      ActsMine(t, pid, held, program, n - 1);
      var mid, a := Acts(t, pid, first, program, n - 1), program.actions[n - 1];
      var execs := Execs(t, pid, program, n - 1);
      if ExecTakes(mid, pid, a) {
        NonLastAppend(execs, a.root);
        ExecLoses(mid, pid, first, held, a, execs);
      } else {
        CallLoses(mid, pid, first, held, a);
      }
    }
  }

  lemma ExecLoses(t: Table, pid: nat, first: nat, held: set<nat>, a: Action, execs: seq<nat>)
    requires Mine(t, pid, first, held) && ExecTakes(t, pid, a) && ExecsOk(t, pid, first, execs)
    ensures Act(t, pid, first, a).given == t.given + (if execs == [] then {} else {execs[|execs| - 1]})
    ensures LostByCall(t, pid, a) == {}
  {
    hide LogOk;
    assert Act(t, pid, first, a) == Execed(t, pid, first, a.root);
  }

  lemma {:induction false} RunLoses(t: Table, pid: nat, program: Program, held: set<nat>)
    requires Ok(t, held) && Apart(t.procs, pid, held) && pid in t.procs && t.procs[pid].root != 0
    ensures Run(t, pid, program).given == t.given + LostByRun(t, pid, program)
    decreases program, 3
  {
    hide Ok, Apart, Acts, LostByCalls, Execs, Ended, NonLast;
    EntryMine(t, pid, held);
    CallsLose(t, pid, held, program, |program.actions|);
  }

  // ---------------------------------------------------------------- the boot sequence

  datatype BootOp =
    | LoadOp(tid: Option<nat>, root: nat)
    | RunOp(pid: nat, program: Program, frame: Address, mapped: bool)
    | SweepOp

  /** load_user_program: a new process without a parent, if a root can be had. */
  function Loaded(t: Table, tid: Option<nat>, root: nat): Table {
    if CanTake(t, root)
    then Take(t, root).(procs := t.procs[t.next := Proc(0, Ready, tid, root)], next := t.next + 1)
    else t
  }

  predicate Enterable(t: Table, pid: nat) {
    pid in t.procs && t.procs[pid].tid.Some? && t.procs[pid].root != 0
  }

  function Unlisted(t: Table, pid: nat): Table {
    if pid in t.procs && t.procs[pid].state != Ready then t.(procs := t.procs - {pid}) else t
  }

  /** run_user_process_scheduled: a process that cannot be entered loses its root all the same. */
  function Scheduled(t: Table, pid: nat, program: Program, mapped: bool): Table {
    if pid !in t.procs then t
    else if Enterable(t, pid) && mapped then Unlisted(Run(t, pid, program), pid)
    else Unlisted(Released(t, pid, Root(t.procs, pid)), pid)
  }

  /** A zombie with no parent to wait for it. */
  predicate IsOrphan(procs: Procs, pid: nat) {
    pid in procs && procs[pid].state == Zombie && (procs[pid].parent <= 1 || procs[pid].parent !in procs)
  }

  /** The orphans with a pid below n, in table order. */
  function Orphans(procs: Procs, n: nat): seq<nat> {
    if n == 0 then []
    else Orphans(procs, n - 1) + (if IsOrphan(procs, n - 1) then [n - 1] else [])
  }

  /** The body of the sweep: free the root, then remove the process. */
  function Reclaimed(t: Table, pid: nat): Table {
    var u := Released(t, pid, Root(t.procs, pid));
    u.(procs := u.procs - {pid})
  }

  function Swept(t: Table, zombies: seq<nat>): Table {
    if zombies == [] then t
    else Reclaimed(Swept(t, zombies[..|zombies| - 1]), zombies[|zombies| - 1])
  }

  function BootStep(t: Table, op: BootOp): Table {
    match op
    case LoadOp(tid, root) => Loaded(t, tid, root)
    case RunOp(pid, program, _, mapped) => Scheduled(t, pid, program, mapped)
    case SweepOp => Swept(t, Orphans(t.procs, t.next))
  }

  const BLANK := Table(map[], 1, {}, {}, {}, [])

  function Boot(ops: seq<BootOp>): Table {
    if ops == [] then BLANK else BootStep(Boot(ops[..|ops| - 1]), ops[|ops| - 1])
  }

  lemma NothingApart(procs: Procs, c: nat)
    ensures Apart(procs, c, {})
  {
  }

  lemma UnrunOk(t: Table, pid: nat)
    requires Ok(t, {})
    ensures var t' := Released(t, pid, Root(t.procs, pid));
            Ok(t', {}) && t'.given == t.given && Root(t'.procs, pid) == 0
    ensures t.procs.Keys == Released(t, pid, Root(t.procs, pid)).procs.Keys
  {
    hide LogOk;
    if Root(t.procs, pid) != 0 {
      FreedOk(t, pid, {});
    } else if pid in t.procs {
      assert Rootless(t.procs, pid) == t.procs && t.released + {pid} == t.released;
    }
  }

  lemma UnlistOk(t: Table, pid: nat)
    requires Ok(t, {}) && Root(t.procs, pid) == 0
    ensures Ok(t.(procs := t.procs - {pid}), {})
  {
    hide LogOk;
    RemovedOk(t, pid, {});
  }

  lemma {:induction false} SweptOk(t: Table, zombies: seq<nat>)
    requires Ok(t, {})
    ensures Ok(Swept(t, zombies), {}) && Swept(t, zombies).given == t.given
  {
    hide Ok, Released;
    if zombies != [] {
      var n := |zombies| - 1;
      SweptOk(t, zombies[..n]);
      var mid := Swept(t, zombies[..n]);
      UnrunOk(mid, zombies[n]);
      UnlistOk(Released(mid, zombies[n], Root(mid.procs, zombies[n])), zombies[n]);
    }
  }

  lemma LoadedOk(t: Table, tid: Option<nat>, root: nat)
    requires Ok(t, {})
    ensures Ok(Loaded(t, tid, root), {})
  {
    hide LogOk;
    if CanTake(t, root) {
      NewRootOk(t, t.next, Proc(0, Ready, tid, root), t.next + 1, {}, t.given);
    }
  }

  lemma BootStepOk(t: Table, op: BootOp)
    requires Ok(t, {})
    ensures Ok(BootStep(t, op), {}) && t.given <= BootStep(t, op).given
  {
    hide Ok, Run, Released, Swept;
    match op {
      case LoadOp(tid, root) => LoadedOk(t, tid, root);
      case SweepOp => SweptOk(t, Orphans(t.procs, t.next));
      case RunOp(pid, program, _, mapped) =>
        NothingApart(t.procs, pid);
        if Enterable(t, pid) && mapped {
          RunOk(t, pid, program, {});
          UnlistOk(Run(t, pid, program), pid);
        } else {
          UnrunOk(t, pid);
          UnlistOk(Released(t, pid, Root(t.procs, pid)), pid);
        }
    }
  }

  lemma {:induction false} BootOk(ops: seq<BootOp>)
    ensures Ok(Boot(ops), {})
  {
    if ops == [] {
      assert forall r :: OfRoot([], r) == [];
      assert forall r :: !IsRoot(map[], r);
    } else {
      hide Ok, BootStep;
      BootOk(ops[..|ops| - 1]);
      BootStepOk(Boot(ops[..|ops| - 1]), ops[|ops| - 1]);
    }
  }

  /**
   * Every boot sequence, whatever trees of programs it runs: each root is taken and
   * freed in turn, so none is freed twice or handed out while in use.
   */
  lemma RootsAlternate(ops: seq<BootOp>, r: nat)
    ensures Alternates(OfRoot(Boot(ops).log, r))
    ensures r in Boot(ops).live <==> |OfRoot(Boot(ops).log, r)| % 2 == 1
  {
    BootOk(ops);
  }

  /** The roots a boot sequence loses, told without the table's own record. */
  function LostBy(ops: seq<BootOp>): set<nat> {
    if ops == [] then {}
    else
      var n := |ops| - 1;
      var t, op := Boot(ops[..n]), ops[n];
      LostBy(ops[..n])
      + (if op.RunOp? && Enterable(t, op.pid) && op.mapped then LostByRun(t, op.pid, op.program) else {})
  }

  lemma StepLoses(t: Table, op: BootOp)
    requires Ok(t, {})
    ensures BootStep(t, op).given
            == t.given
               + (if op.RunOp? && Enterable(t, op.pid) && op.mapped then LostByRun(t, op.pid, op.program) else {})
  {
    hide Ok, Run, LostByRun, Swept;
    match op {
      case LoadOp(_, _) =>
      case SweepOp => SweptOk(t, Orphans(t.procs, t.next));
      case RunOp(pid, program, _, mapped) =>
        if Enterable(t, pid) && mapped {
          NothingApart(t.procs, pid);
          RunLoses(t, pid, program, {});
        }
    }
  }

  lemma {:induction false} GivenIsLost(ops: seq<BootOp>)
    ensures Boot(ops).given == LostBy(ops)
  {
    hide BootStep, LostByRun, Ok;
    if ops != [] {
      var n := |ops| - 1;
      GivenIsLost(ops[..n]);
      BootOk(ops[..n]);
      StepLoses(Boot(ops[..n]), ops[n]);
    }
  }

  /**
   * Between two boot programs the allocated roots are those of processes and those
   * lost: to an exec that was not the last of its run, or to a wait for a child that
   * was never released. No root is both.
   */
  lemma LeaksAccounted(ops: seq<BootOp>, r: nat)
    ensures r in Boot(ops).live <==> r in LostBy(ops) || IsRoot(Boot(ops).procs, r)
    ensures !(r in LostBy(ops) && IsRoot(Boot(ops).procs, r))
    ensures Stray(Boot(ops), {}, r) <==> r in LostBy(ops)
  {
    hide LostBy, Boot;
    BootOk(ops);
    GivenIsLost(ops);
    StrayIsGiven(Boot(ops), {});
  }

  /** What is lost stays so: no continuation of the boot sequence frees it. */
  lemma {:induction false} LeakedForever(ops: seq<BootOp>, more: seq<BootOp>, r: nat)
    requires r in LostBy(ops)
    ensures r in LostBy(ops + more) && r in Boot(ops + more).live
  {
    hide Boot, LostByRun;
    if more == [] {
      assert ops + more == ops;
    } else {
      var n := |more| - 1;
      assert (ops + more)[..|ops| + n] == ops + more[..n];
      LeakedForever(ops, more[..n], r);
    }
    LeaksAccounted(ops + more, r);
  }

  lemma {:induction false} OrphansMembers(procs: Procs, n: nat)
    ensures forall p: nat :: p in Orphans(procs, n) <==> p < n && IsOrphan(procs, p)
    ensures forall i, j :: 0 <= i < j < |Orphans(procs, n)| ==> Orphans(procs, n)[i] < Orphans(procs, n)[j]
  {
    if n != 0 {
      OrphansMembers(procs, n - 1);
      var before := Orphans(procs, n - 1);
      forall i | 0 <= i < |before|
        ensures before[i] < n - 1
      {
        assert before[i] in before;
      }
    }
  }

  lemma {:induction false} SweptProcs(t: Table, zombies: seq<nat>)
    ensures forall p :: p in Swept(t, zombies).procs <==> p in t.procs && p !in zombies
    ensures forall p :: p in Swept(t, zombies).procs ==> Swept(t, zombies).procs[p] == t.procs[p]
  {
    if zombies != [] {
      var n := |zombies| - 1;
      SweptProcs(t, zombies[..n]);
      assert zombies == zombies[..n] + [zombies[n]];
    }
  }

  /** A zombie whose parent is none, process 1, or gone. */
  predicate Abandoned(procs: Procs, p: nat) {
    p in procs && procs[p].state.Zombie? && (procs[p].parent in {0, 1} || procs[p].parent !in procs)
  }

  /** A sweep removes exactly the abandoned zombies and frees exactly their roots. */
  lemma SweepExact(t: Table, r: nat)
    requires Ok(t, {})
    ensures var t' := BootStep(t, SweepOp);
            && (forall p :: p in t'.procs <==> p in t.procs && !Abandoned(t.procs, p))
            && (forall p :: p in t'.procs ==> t'.procs[p] == t.procs[p])
            && (r in t'.live <==> r in t.live && forall p :: Abandoned(t.procs, p) ==> !Owns(t.procs, p, r))
  {
    hide LogOk, Swept;
    assert forall p: nat :: Abandoned(t.procs, p) <==> IsOrphan(t.procs, p);
    var zombies := Orphans(t.procs, t.next);
    OrphansMembers(t.procs, t.next);
    SweptProcs(t, zombies);
    SweptOk(t, zombies);
    var t' := Swept(t, zombies);
    assert forall p :: Owns(t'.procs, p, r) <==> Owns(t.procs, p, r) && !IsOrphan(t.procs, p);
    if IsRoot(t.procs, r) {
      var p :| Owns(t.procs, p, r);
      assert IsRoot(t'.procs, r) <==> Owns(t'.procs, p, r);
    }
  }

  /** A scheduled process is gone afterwards, with the first and the last of its roots. */
  lemma ScheduledExact(t: Table, pid: nat, program: Program)
    requires Ok(t, {}) && Enterable(t, pid)
    ensures var t' := Scheduled(t, pid, program, true);
            pid !in t'.procs && Disposed(t', t.procs[pid].root, Execs(t, pid, program, |program.actions|))
  {
    hide Ok, Run, Execs;
    NothingApart(t.procs, pid);
    RunOk(t, pid, program, {});
  }

  /** A process that is not entered gives its root back all the same, and stays if it is ready. */
  lemma ScheduledUnentered(t: Table, pid: nat, program: Program, mapped: bool)
    requires Ok(t, {}) && pid in t.procs && !(Enterable(t, pid) && mapped)
    ensures var t' := Scheduled(t, pid, program, mapped);
            && t'.live == t.live - {t.procs[pid].root}
            && t'.procs == if t.procs[pid].state.Ready? then t.procs[pid := t.procs[pid].(root := 0)]
                           else t.procs - {pid}
  {
    hide LogOk, Run;
    assert 0 !in t.live;
  }

  /** One process, pid 1 with root 10, as the first load leaves it. */
  const ONE_LOADED := Table(map[1 := Proc(0, Ready, Some(1), 10)], 2, {10}, {}, {}, [Took(10)])

  const LOAD_ONE := LoadOp(Some(1), 10)

  lemma AfterOneLoad(op: BootOp)
    ensures Boot([LOAD_ONE, op]) == BootStep(ONE_LOADED, op) && Ok(ONE_LOADED, {})
  {
    hide BootStep, Ok, Loaded;
    assert Boot([LOAD_ONE]) == ONE_LOADED by {
      assert [LOAD_ONE][..0] == [];
      assert Boot([LOAD_ONE]) == BootStep(BLANK, LOAD_ONE);
      FirstLoad();
    }
    assert [LOAD_ONE, op][..1] == [LOAD_ONE];
    BootOk([LOAD_ONE]);
  }

  lemma FirstLoad()
    ensures BootStep(BLANK, LOAD_ONE) == ONE_LOADED
  {
  }

  lemma LostIsStray(ops: seq<BootOp>, r: nat)
    requires r in Boot(ops).given
    ensures Stray(Boot(ops), {}, r)
  {
    BootOk(ops);
    StrayIsGiven(Boot(ops), {});
  }

  const TWO_EXECS := Program([Exec(0, 11, true, 0), Exec(0, 12, true, 0)], false, 0)

  lemma TwoExecsTaken()
    ensures Execs(ONE_LOADED, 1, TWO_EXECS, 2) == [11, 12]
  {
    var t := ONE_LOADED;
    assert Acts(t, 1, 10, TWO_EXECS, 1) == Execed(t, 1, 10, 11) by {
      assert Acts(t, 1, 10, TWO_EXECS, 0) == t;
    }
    assert Execs(t, 1, TWO_EXECS, 1) == [11];
  }

  /** An instance: a program that calls exec twice leaves the root of the first allocated for good. */
  lemma TwoExecsLeak()
    ensures Stray(Boot([LOAD_ONE, RunOp(1, TWO_EXECS, 1, true)]), {}, 11)
  {
    hide Ok, Run, Execs;
    AfterOneLoad(RunOp(1, TWO_EXECS, 1, true));
    NothingApart(ONE_LOADED.procs, 1);
    TwoExecsTaken();
    RunOk(ONE_LOADED, 1, TWO_EXECS, {});
    assert |TWO_EXECS.actions| == 2;
    var execs := Execs(ONE_LOADED, 1, TWO_EXECS, 2);
    assert execs[0] == 11;
    LostIsStray([LOAD_ONE, RunOp(1, TWO_EXECS, 1, true)], 11);
  }

  const KILLED_CHILD := Program([Fork(0, 1, 11), Kill(0, 2), Reap(0, 2)], false, 0)

  lemma KilledChildGivenUp()
    ensures 11 in Run(ONE_LOADED, 1, KILLED_CHILD).given
  {
    var t := ONE_LOADED;
    var t1 := Acts(t, 1, 10, KILLED_CHILD, 1);
    assert t1 == Forked(t, 1, 1, 11) by {
      assert Acts(t, 1, 10, KILLED_CHILD, 0) == t;
    }
    assert t1.procs[2] == Proc(1, Ready, Some(1), 11);
    hide Forked;
    var t2 := Acts(t, 1, 10, KILLED_CHILD, 2);
    assert t2 == Killed(t1, 2);
    assert t2.procs[2] == Proc(1, Zombie, Some(1), 11);
    hide Killed;
    assert Acts(t, 1, 10, KILLED_CHILD, 3) == Reaped(t2, 1, 2);
  }

  /** An instance: a child killed before it ever ran leaks its root when its parent waits for it. */
  lemma ReapedUnrunLeaks()
    ensures Stray(Boot([LOAD_ONE, RunOp(1, KILLED_CHILD, 1, true)]), {}, 11)
  {
    var op := RunOp(1, KILLED_CHILD, 1, true);
    hide Run, Boot;
    AfterOneLoad(op);
    KilledChildGivenUp();
    LostIsStray([LOAD_ONE, op], 11);
  }
}
