/**
 The process table and the scheduler (proc.c) on one CPU. Every method is one
 step between two points at which the table's lock is released, so any order of
 calls is an interleaving of the processes.
 */
module Processes {
  const NPROC: nat := 64

  datatype State = Unused | Embryo | Sleeping | Runnable | Running | Zombie

  /** What a process sleeps on: nothing, a process (in wait), or some other address. */
  datatype Chan = NoChan | OfProc(i: nat) | Address(a: nat)

  /** `struct proc`; `parent` is an index into the table or -1. */
  datatype Proc = Proc(state: State, pid: nat, parent: int, chan: Chan, killed: bool)

  type Table = seq<Proc>

  predicate Alive(p: Proc) {
    p.state.Sleeping? || p.state.Runnable? || p.state.Running?
  }

  predicate SleepsOn(p: Proc, chan: Chan) {
    p.state.Sleeping? && p.chan == chan
  }

  // -------------------------------------------------------------- the invariant

  /** The running process is the current one, and there is no other. */
  ghost predicate OneRunning(t: Table, cur: int) {
    && |t| == NPROC && -1 <= cur < NPROC
    && forall i | 0 <= i < NPROC :: t[i].state.Running? <==> i == cur
  }

  /**
   Every process but init has a parent, and a parent is alive: neither unused, nor under
   construction, nor a zombie.
   */
  ghost predicate Family(t: Table, init: nat) {
    && |t| == NPROC && init < NPROC && Alive(t[init]) && t[init].parent == -1
    && (forall i {:trigger t[i].parent} | 0 <= i < NPROC && t[i].parent != -1 ::
          0 <= t[i].parent < NPROC && t[i].parent != i && Alive(t[t[i].parent]))
    && (forall i | 0 <= i < NPROC && i != init && (Alive(t[i]) || t[i].state.Zombie?) :: t[i].parent != -1)
    && (forall i | 0 <= i < NPROC && t[i].state.Unused? :: t[i].parent == -1)
  }

  /** Nobody sleeps in wait while a child of his is a zombie. */
  ghost predicate NoMissedExit(t: Table) {
    forall z {:trigger t[z].parent} | 0 <= z < |t| && t[z].state.Zombie? && 0 <= t[z].parent < |t| ::
      !SleepsOn(t[t[z].parent], OfProc(t[z].parent))
  }

  /** Process ids are never given out twice. */
  ghost predicate Pids(t: Table, nextpid: nat) {
    && (forall i | 0 <= i < |t| :: t[i].pid < nextpid && (Alive(t[i]) ==> t[i].pid > 0))
    && (forall i, j | 0 <= i < j < |t| && t[i].pid != 0 :: t[i].pid != t[j].pid)
  }

  /** Slots that the scheduler looks at before slot `r` when it resumes its scan at `next`. */
  function Ahead(next: nat, r: nat): nat
    requires next <= NPROC && r < NPROC
  {
    if r >= next then r - next else r + NPROC - next
  }

  /**
   `waits[r]` counts the dispatches of others since `r` became runnable; those and the slots ahead
   of it are fewer than NPROC.
   */
  ghost predicate Fair(t: Table, next: nat, waits: seq<nat>) {
    && |t| == |waits| == NPROC && next <= NPROC
    && forall r | 0 <= r < NPROC ::
         if t[r].state.Runnable? then waits[r] + Ahead(next, r) < NPROC else waits[r] == 0
  }

  ghost predicate Good(t: Table, cur: int, init: nat, nextpid: nat, next: nat, waits: seq<nat>) {
    OneRunning(t, cur) && Family(t, init) && NoMissedExit(t) && Pids(t, nextpid) && Fair(t, next, waits)
  }

  // ------------------------------------------------------ what the steps do

  /** The process after wakeup1(chan). */
  function Wake(p: Proc, chan: Chan): Proc {
    if SleepsOn(p, chan) then p.(state := Runnable) else p
  }

  function Woken(t: Table, chan: Chan): (r: Table)
    ensures |r| == |t| && forall i | 0 <= i < |t| ::
      r[i] == if t[i].state == Sleeping && t[i].chan == chan then t[i].(state := Runnable) else t[i]
  {
    seq(|t|, i requires 0 <= i < |t| => Wake(t[i], chan))
  }

  /** The table after exit has passed the children among the first `k` slots to init. */
  function Adopted(t: Table, k: nat, cur: nat, init: nat): (r: Table)
    requires k <= |t|
    ensures |r| == |t|
    ensures forall i | 0 <= i < |t| :: r[i] == if i < k && t[i].parent == cur then t[i].(parent := init) else t[i]
  {
    seq(|t|, i requires 0 <= i < |t| => if i < k && t[i].parent == cur then t[i].(parent := init) else t[i])
  }

  ghost predicate Bereaved(t: Table, k: nat, cur: nat)
    requires k <= |t|
  {
    exists i :: 0 <= i < k && t[i].parent == cur && t[i].state.Zombie?
  }

  /**
   What exit makes of the table: parent woken, children handed to init (woken if there is a zombie
   among them), itself a zombie.
   */
  ghost function Exited(t: Table, cur: nat, init: nat): Table
    requires cur < |t| && t[cur].parent >= 0
  {
    var t1 := Woken(t, OfProc(t[cur].parent));
    var t3 := Passed(t1, |t1|, cur, init);
    t3[cur := t3[cur].(state := Zombie)]
  }

  /** The table after the first `k` rounds of exit's loop. */
  ghost function Passed(t: Table, k: nat, cur: nat, init: nat): (r: Table)
    requires k <= |t|
    ensures |r| == |t|
  {
    var t2 := Adopted(t, k, cur, init);
    if Bereaved(t, k, cur) then Woken(t2, OfProc(init)) else t2
  }

  lemma PassedNone(t: Table, cur: nat, init: nat)
    ensures Passed(t, 0, cur, init) == t
  {
  }

  lemma PassedStep(t: Table, k: nat, cur: nat, init: nat)
    requires k < |t| && cur != init
    ensures var r := Passed(t, k, cur, init); var r1 := Passed(t, k + 1, cur, init);
      if r[k].parent == cur then
        var r2 := r[k := r[k].(parent := init)];
        r1 == if r2[k].state.Zombie? then Woken(r2, OfProc(init)) else r2
      else r1 == r
  {
    var r, r1 := Passed(t, k, cur, init), Passed(t, k + 1, cur, init);
    assert r[k].parent == t[k].parent && (r[k].state.Zombie? <==> t[k].state.Zombie?);
    assert Bereaved(t, k + 1, cur) <==> Bereaved(t, k, cur) || (t[k].parent == cur && t[k].state.Zombie?);
  }

  // ----------------------------------------------- what the steps keep, on values

  /** Tables with the same parents, in which every state is kept, or goes from sleeping to runnable. */
  ghost predicate OnlyWakes(t: Table, t1: Table) {
    && |t1| == |t|
    && forall i | 0 <= i < |t| :: t1[i] == t[i] || (t[i].state.Sleeping? && t1[i] == t[i].(state := Runnable))
  }

  lemma WakesFamily(t: Table, t1: Table, init: nat)
    requires OnlyWakes(t, t1) && Family(t, init)
    ensures Family(t1, init)
  {
    forall i | 0 <= i < NPROC && t1[i].parent != -1 ensures 0 <= t1[i].parent < NPROC && t1[i].parent != i
      && Alive(t1[t1[i].parent]) {
      assert t1[i].parent == t[i].parent;
    }
  }

  lemma WakesRest(t: Table, t1: Table, cur: int, nextpid: nat, next: nat, waits: seq<nat>)
    requires OnlyWakes(t, t1)
    ensures OneRunning(t, cur) ==> OneRunning(t1, cur)
    ensures Pids(t, nextpid) ==> Pids(t1, nextpid)
    ensures Fair(t, next, waits) ==> Fair(t1, next, waits)
  {
  }

  lemma WakesMissed(t: Table, t1: Table)
    requires OnlyWakes(t, t1) && NoMissedExit(t)
    ensures NoMissedExit(t1)
  {
    forall z | 0 <= z < |t1| && t1[z].state.Zombie? && 0 <= t1[z].parent < |t1|
      ensures !SleepsOn(t1[t1[z].parent], OfProc(t1[z].parent))
    {
      assert t1[z].parent == t[z].parent;
    }
  }

  lemma WakesGood(t: Table, t1: Table, cur: int, init: nat, nextpid: nat, next: nat, waits: seq<nat>)
    requires OnlyWakes(t, t1) && Good(t, cur, init, nextpid, next, waits)
    ensures Good(t1, cur, init, nextpid, next, waits)
  {
    hide OnlyWakes, Family, NoMissedExit, Pids, Fair, OneRunning;
    WakesFamily(t, t1, init);
    WakesRest(t, t1, cur, nextpid, next, waits);
    WakesMissed(t, t1);
  }

  /** What exit's last step keeps: no process is left with a dead parent or an unseen zombie. */
  lemma ExitedGood(t: Table, cur: nat, init: nat, nextpid: nat, next: nat, waits: seq<nat>)
    requires Good(t, cur, init, nextpid, next, waits) && cur < |t| && cur != init
    ensures t[cur].parent >= 0 && Good(Exited(t, cur, init), -1, init, nextpid, next, waits)
  {
    hide NoMissedExit, Pids, Fair, Family, OneRunning, ExitSteps, OnlyWakes, Exited;
    ParentFacts(t, cur, init);
    var t1 := Woken(t, OfProc(t[cur].parent));
    WokenWakes(t, OfProc(t[cur].parent));
    WakesGood(t, t1, cur, init, nextpid, next, waits);
    var t2, t3, t4 := ExitedSteps(t, cur, init);
    ExitedFamily(t1, t2, t3, t4, cur, init);
    ExitedRest(t1, t2, t3, t4, cur, init, nextpid, next, waits);
    ExitedMissed(t1, t2, t3, t4, cur, init);
  }

  lemma WokenWakes(t: Table, chan: Chan)
    ensures OnlyWakes(t, Woken(t, chan)) && forall i | 0 <= i < |t| :: !SleepsOn(Woken(t, chan)[i], chan)
  {
  }

  lemma ExitedSteps(t: Table, cur: nat, init: nat) returns (t2: Table, t3: Table, t4: Table)
    requires |t| == NPROC && cur < NPROC && init < NPROC && cur != init && t[cur].state.Running? && 0 <= t[cur].parent
    ensures t4 == Exited(t, cur, init) && ExitSteps(Woken(t, OfProc(t[cur].parent)), t2, t3, t4, cur, init)
  {
    hide Bereaved;
    var t1 := Woken(t, OfProc(t[cur].parent));
    t2 := Adopted(t1, |t1|, cur, init);
    t3 := if Bereaved(t1, |t1|, cur) then Woken(t2, OfProc(init)) else t2;
    t4 := Exited(t, cur, init);
  }

  lemma ParentFacts(t: Table, cur: nat, init: nat)
    requires Family(t, init) && OneRunning(t, cur) && cur < |t| && cur != init
    ensures |t| == NPROC && init < NPROC && t[cur].state.Running? && 0 <= t[cur].parent < NPROC && t[cur].parent != cur
  {
  }

  /** The way from a table in which the parent has been woken to the end of exit. */
  ghost predicate ExitSteps(t1: Table, t2: Table, t3: Table, t4: Table, cur: nat, init: nat) {
    && |t1| == |t2| == |t3| == |t4| == NPROC && cur < NPROC && init < NPROC && cur != init && t1[cur].state.Running?
    && (forall i | 0 <= i < NPROC :: t2[i] == if t1[i].parent == cur then t1[i].(parent := init) else t1[i])
    && (forall i | 0 <= i < NPROC :: t3[i] == t2[i] || (t2[i].state.Sleeping? && t3[i] == t2[i].(state := Runnable)))
    && t4 == t3[cur := t3[cur].(state := Zombie)]
    && (Bereaved(t1, NPROC, cur) ==> !SleepsOn(t3[init], OfProc(init)))
  }

  lemma ExitedFamily(t1: Table, t2: Table, t3: Table, t4: Table, cur: nat, init: nat)
    requires ExitSteps(t1, t2, t3, t4, cur, init) && Family(t1, init)
    ensures Family(t4, init)
  {
    forall i | 0 <= i < NPROC && t4[i].parent != -1 ensures 0 <= t4[i].parent < NPROC && t4[i].parent != i
      && Alive(t4[t4[i].parent]) {
      assert t4[i].parent == t2[i].parent && t1[i].parent != -1;
    }
  }

  lemma ExitedRest(t1: Table, t2: Table, t3: Table, t4: Table, cur: nat, init: nat, nextpid: nat, next: nat,
                   waits: seq<nat>)
    requires ExitSteps(t1, t2, t3, t4, cur, init)
    ensures OneRunning(t1, cur) ==> OneRunning(t4, -1)
    ensures Pids(t1, nextpid) ==> Pids(t4, nextpid)
    ensures Fair(t1, next, waits) ==> Fair(t4, next, waits)
  {
    hide Bereaved;
  }

  lemma ExitedMissed(t1: Table, t2: Table, t3: Table, t4: Table, cur: nat, init: nat)
    requires ExitSteps(t1, t2, t3, t4, cur, init) && NoMissedExit(t1) && t1[cur].parent < NPROC
    requires t1[cur].parent >= 0 && t1[cur].parent != cur && !SleepsOn(t1[t1[cur].parent], OfProc(t1[cur].parent))
    ensures NoMissedExit(t4)
  {
    forall z | 0 <= z < NPROC && t4[z].state.Zombie? && 0 <= t4[z].parent < NPROC
      ensures !SleepsOn(t4[t4[z].parent], OfProc(t4[z].parent))
    {
      if z != cur && t1[z].parent == cur {
        assert Bereaved(t1, NPROC, cur);
      }
    }
  }

  predicate Idle(p: Proc) {
    p.state.Unused? || p.state.Embryo?
  }

  /** The tables differ in slot `i` only, which holds no process in either. */
  ghost predicate IdleChange(t: Table, t1: Table, i: nat) {
    && |t| == |t1| == NPROC && i < NPROC && Idle(t[i]) && Idle(t1[i])
    && t1[i].parent == t[i].parent && (t1[i].state.Unused? ==> t1[i].parent == -1)
    && forall j | 0 <= j < NPROC && j != i :: t1[j] == t[j]
  }

  lemma IdleFamily(t: Table, t1: Table, i: nat, init: nat)
    requires IdleChange(t, t1, i) && Family(t, init)
    ensures Family(t1, init)
  {
    forall j | 0 <= j < NPROC && t1[j].parent != -1 ensures 0 <= t1[j].parent < NPROC && t1[j].parent != j
      && Alive(t1[t1[j].parent]) {
      assert t1[j].parent == t[j].parent;
    }
  }

  lemma IdleRest(t: Table, t1: Table, i: nat, cur: int, next: nat, waits: seq<nat>)
    requires IdleChange(t, t1, i)
    ensures OneRunning(t, cur) ==> OneRunning(t1, cur)
    ensures Fair(t, next, waits) ==> Fair(t1, next, waits)
  {
  }

  lemma IdleMissed(t: Table, t1: Table, i: nat)
    requires IdleChange(t, t1, i) && NoMissedExit(t)
    ensures NoMissedExit(t1)
  {
    forall z | 0 <= z < NPROC && t1[z].state.Zombie? && 0 <= t1[z].parent < NPROC
      ensures !SleepsOn(t1[t1[z].parent], OfProc(t1[z].parent))
    {
      assert t1[z].parent == t[z].parent;
    }
  }

  lemma IdleGood(t: Table, t1: Table, i: nat, cur: int, init: nat, nextpid: nat, nextpid1: nat, next: nat,
                 waits: seq<nat>)
    requires IdleChange(t, t1, i) && Good(t, cur, init, nextpid, next, waits)
    requires nextpid <= nextpid1 && (t1[i].pid == t[i].pid || (t1[i].pid == nextpid > 0 && nextpid < nextpid1))
    ensures Good(t1, cur, init, nextpid1, next, waits)
  {
    hide Family, NoMissedExit, Fair, OneRunning;
    IdleFamily(t, t1, i, init);
    IdleRest(t, t1, i, cur, next, waits);
    IdleMissed(t, t1, i);
  }

  /** A slot is taken for a new process, and given back. */
  lemma EmbryoGood(t: Table, p: nat, cur: int, init: nat, nextpid: nat, next: nat, waits: seq<nat>)
    requires Good(t, cur, init, nextpid, next, waits) && p < |t| == NPROC && t[p].state.Unused? && t[p].parent == -1
      && nextpid > 0
    ensures var t1 := t[p := t[p].(state := Embryo, pid := nextpid)];
      Good(t1, cur, init, nextpid + 1, next, waits)
        && Good(t1[p := t1[p].(state := Unused)], cur, init, nextpid + 1, next, waits)
  {
    hide Good;
    var t1, t2 := t[p := t[p].(state := Embryo, pid := nextpid)], t[p := t[p].(pid := nextpid)];
    IdleGood(t, t1, p, cur, init, nextpid, nextpid + 1, next, waits);
    IdleGood(t, t2, p, cur, init, nextpid, nextpid + 1, next, waits);
    assert t1[p := t1[p].(state := Unused)] == t2;
  }

  // ------------------------------------------------- changes to one live slot

  /** Reaping a zombie frees its slot. */
  lemma ReapGood(t: Table, z: nat, cur: int, init: nat, nextpid: nat, next: nat, waits: seq<nat>)
    requires Good(t, cur, init, nextpid, next, waits) && z < NPROC && t[z].state.Zombie?
    ensures Good(t[z := Proc(Unused, 0, -1, t[z].chan, false)], cur, init, nextpid, next, waits)
  {
    hide Family, NoMissedExit;
    var t1 := t[z := Proc(Unused, 0, -1, t[z].chan, false)];
    ReapFamily(t, z, init);
    ReapMissed(t, z);
  }

  lemma ReapFamily(t: Table, z: nat, init: nat)
    requires Family(t, init) && z < NPROC && t[z].state.Zombie?
    ensures Family(t[z := Proc(Unused, 0, -1, t[z].chan, false)], init)
  {
    var t1 := t[z := Proc(Unused, 0, -1, t[z].chan, false)];
    forall i | 0 <= i < NPROC && t1[i].parent != -1 ensures 0 <= t1[i].parent < NPROC && t1[i].parent != i
      && Alive(t1[t1[i].parent]) {
      assert t1[i].parent == t[i].parent;
    }
  }

  lemma ReapMissed(t: Table, z: nat)
    requires NoMissedExit(t) && z < |t| == NPROC && t[z].state.Zombie?
    ensures NoMissedExit(t[z := Proc(Unused, 0, -1, t[z].chan, false)])
  {
    var t1 := t[z := Proc(Unused, 0, -1, t[z].chan, false)];
    forall i | 0 <= i < NPROC && t1[i].state.Zombie?
      && 0 <= t1[i].parent < NPROC ensures !SleepsOn(t1[t1[i].parent], OfProc(t1[i].parent)) {
      assert t1[i].parent == t[i].parent;
    }
  }

  /** A live process stays alive: same parent, same pid. */
  ghost predicate StaysAlive(t: Table, t1: Table, i: nat) {
    && |t| == |t1| == NPROC && i < NPROC && t1[i].parent == t[i].parent && t1[i].pid == t[i].pid
    && (Alive(t[i]) <==> Alive(t1[i])) && (!Alive(t[i]) ==> t1[i].state == t[i].state)
    && (forall j | 0 <= j < NPROC && j != i :: t1[j] == t[j])
  }

  lemma AliveFamily(t: Table, t1: Table, i: nat, init: nat)
    requires StaysAlive(t, t1, i) && Family(t, init)
    ensures Family(t1, init)
  {
    forall j | 0 <= j < NPROC && t1[j].parent != -1 ensures 0 <= t1[j].parent < NPROC && t1[j].parent != j
      && Alive(t1[t1[j].parent]) {
      assert t1[j].parent == t[j].parent;
    }
  }

  lemma AliveMissed(t: Table, t1: Table, i: nat)
    requires StaysAlive(t, t1, i) && NoMissedExit(t)
    requires SleepsOn(t1[i], OfProc(i)) ==>
      SleepsOn(t[i], OfProc(i)) || forall z | 0 <= z < NPROC :: !(t[z].parent == i && t[z].state.Zombie?)
    ensures NoMissedExit(t1)
  {
    forall z | 0 <= z < NPROC && t1[z].state.Zombie?
      && 0 <= t1[z].parent < NPROC ensures !SleepsOn(t1[t1[z].parent], OfProc(t1[z].parent)) {
      assert t1[z].parent == t[z].parent;
    }
  }

  /** The running process stops running: it sleeps or is runnable again. */
  lemma StopGood(t: Table, p: Proc, cur: nat, init: nat, nextpid: nat, next: nat, waits: seq<nat>)
    requires Good(t, cur, init, nextpid, next, waits) && cur < NPROC
    requires p.parent == t[cur].parent && p.pid == t[cur].pid && (p.state.Sleeping? || p.state.Runnable?)
    requires SleepsOn(p, OfProc(cur)) ==> forall z | 0 <= z < NPROC :: !(t[z].parent == cur && t[z].state.Zombie?)
    ensures Good(t[cur := p], -1, init, nextpid, next, waits)
  {
    hide Family, NoMissedExit;
    var t1 := t[cur := p];
    assert StaysAlive(t, t1, cur);
    AliveMissed(t, t1, cur);
    AliveFamily(t, t1, cur, init);
    StopRest(t, t1, cur, nextpid, next, waits);
    hide StaysAlive, Pids, Fair, OneRunning;
  }

  lemma StopRest(t: Table, t1: Table, cur: nat, nextpid: nat, next: nat, waits: seq<nat>)
    requires StaysAlive(t, t1, cur) && !t1[cur].state.Running? && !t[cur].state.Runnable?
    ensures OneRunning(t, cur) ==> OneRunning(t1, -1)
    ensures Pids(t, nextpid) ==> Pids(t1, nextpid)
    ensures Fair(t, next, waits) ==> Fair(t1, next, waits)
  {
  }

  /** A slot changes in fields that do not matter, or is woken. */
  lemma TouchGood(t: Table, p: Proc, i: nat, cur: int, init: nat, nextpid: nat, next: nat, waits: seq<nat>)
    requires Good(t, cur, init, nextpid, next, waits) && i < NPROC
    requires p.parent == t[i].parent && p.pid == t[i].pid
      && (p.state == t[i].state || (t[i].state.Sleeping? && p.state.Runnable?))
    requires p.state.Sleeping? ==> p.chan == t[i].chan
    ensures Good(t[i := p], cur, init, nextpid, next, waits)
  {
    hide Family, NoMissedExit;
    var t1 := t[i := p];
    assert StaysAlive(t, t1, i);
    AliveMissed(t, t1, i);
    AliveFamily(t, t1, i, init);
    TouchRest(t, t1, i, cur, nextpid, next, waits);
    hide StaysAlive, Pids, Fair, OneRunning;
  }

  lemma TouchRest(t: Table, t1: Table, i: nat, cur: int, nextpid: nat, next: nat, waits: seq<nat>)
    requires StaysAlive(t, t1, i) && (t1[i].state == t[i].state || (t[i].state.Sleeping? && t1[i].state.Runnable?))
    ensures OneRunning(t, cur) ==> OneRunning(t1, cur)
    ensures Pids(t, nextpid) ==> Pids(t1, nextpid)
    ensures Fair(t, next, waits) ==> Fair(t1, next, waits)
  {
  }

  /** The counters after process `p` has been dispatched. */
  ghost function Waited1(t: Table, p: nat, waits: seq<nat>): (r: seq<nat>)
    requires |t| == |waits|
    ensures |r| == |waits| && forall i | 0 <= i < |r| ::
      r[i] == if i != p && t[i].state.Runnable? then waits[i] + 1 else 0
  {
    seq<nat>(|waits|, i requires 0 <= i < |waits| => if i != p && t[i].state.Runnable? then waits[i] + 1 else 0)
  }

  lemma RunGood(t: Table, p: nat, init: nat, nextpid: nat, next: nat, waits: seq<nat>)
    requires Good(t, -1, init, nextpid, next, waits) && next <= p < NPROC && t[p].state.Runnable?
    requires forall i | next <= i < p :: !t[i].state.Runnable?
    ensures |waits| == |t| && Good(t[p := t[p].(state := Running)], p, init, nextpid, p + 1, Waited1(t, p, waits))
  {
    var t1 := t[p := t[p].(state := Running)];
    assert StaysAlive(t, t1, p);
    AliveMissed(t, t1, p);
    AliveFamily(t, t1, p, init);
    hide Family, NoMissedExit, StaysAlive;
  }

  /** What wait's scan comes to. */
  datatype Waited = Reaped(pid: nat) | Hopeless | Slept

  ghost predicate NoChildren(t: Table, cur: int) {
    forall z | 0 <= z < |t| :: t[z].parent != cur
  }

  ghost predicate HasZombie(t: Table, cur: int) {
    exists z :: 0 <= z < |t| && t[z].parent == cur && t[z].state.Zombie?
  }

  ghost predicate FirstZombie(t: Table, z: int, cur: int) {
    0 <= z < |t| && t[z].parent == cur && t[z].state.Zombie? && forall i | 0 <= i < z ::
      !(t[i].parent == cur && t[i].state.Zombie?)
  }

  /** Process `i` is marked as killed and no longer asleep; nothing else has changed. */
  ghost predicate KilledAt(t: Table, t1: Table, i: nat) {
    && |t1| == |t| && i < |t| && (forall j | 0 <= j < |t| && j != i :: t1[j] == t[j])
    && t1[i].killed && t1[i].pid == t[i].pid && t1[i].parent == t[i].parent && t1[i].chan == t[i].chan
    && t1[i].state == if t[i].state == Sleeping then Runnable else t[i].state
  }

  class Kernel {
    var proc: Table
    var cur: int           // index of curr_proc, or -1
    var initproc: nat
    var nextpid: nat
    var next: nat          // where the scheduler's scan of the table resumes
    ghost var waits: seq<nat>

    ghost predicate Valid()
      reads this
    {
      nextpid > 0 && Good(proc, cur, initproc, nextpid, next, waits)
    }

    /** pinit and userinit: one runnable process, init. */
    constructor ()
      ensures Valid() && cur == -1 && initproc == 0 && proc[0].state.Runnable? && forall i | 0 < i < NPROC ::
        proc[i].state.Unused?
    {
      proc := seq(NPROC, i => Proc(if i == 0 then Runnable else Unused, if i == 0 then 1 else 0, -1, NoChan, false));
      cur, initproc, nextpid, next := -1, 0, 2, 0;
      waits := seq(NPROC, i => 0);
    }

    /**
     allocproc: the first unused slot becomes an embryo with a new pid; without room for a stack it
     is unused again.
     */
    method Allocproc(stack: bool) returns (np: int)
      requires Valid()
      modifies this`proc, this`nextpid
      ensures Valid()
      ensures np == -1 <==> !stack || forall i | 0 <= i < NPROC :: !old(proc)[i].state.Unused?
      ensures np != -1 ==>
        0 <= np < NPROC && old(proc)[np].state.Unused? && (forall i | 0 <= i < np :: !old(proc)[i].state.Unused?)
      ensures np != -1 ==>
        proc == old(proc)[np := old(proc)[np].(state := Embryo, pid := old(nextpid))] && nextpid == old(nextpid) + 1
      ensures np == -1 ==> |proc| == |old(proc)| == NPROC && forall i | 0 <= i < NPROC ::
        proc[i] == old(proc)[i].(pid := proc[i].pid)
    {
      hide Good;
      UnusedFacts();
      var p := 0;
      while p < NPROC && !proc[p].state.Unused?
        invariant p <= NPROC && forall i | 0 <= i < p :: !proc[i].state.Unused?
      {
        p := p + 1;
      }
      if p == NPROC {
        return -1;
      }
      EmbryoGood(proc, p, cur, initproc, nextpid, next, waits);
      proc := proc[p := proc[p].(state := Embryo, pid := nextpid)];
      nextpid := nextpid + 1;
      if !stack {
        proc := proc[p := proc[p].(state := Unused)];
        return -1;
      }
      np := p;
    }

    /** fork when copyuvm fails: the embryo is given up. */
    method Abandon(np: nat)
      requires Valid() && np < NPROC && proc[np].state.Embryo? && proc[np].parent == -1
      modifies this`proc
      ensures Valid() && proc == old(proc)[np := old(proc)[np].(state := Unused)]
    {
      hide Family, NoMissedExit, Fair;
      IdleGood(proc, proc[np := proc[np].(state := Unused)], np, cur, initproc, nextpid, nextpid, next, waits);
      proc := proc[np := proc[np].(state := Unused)];
    }

    /** `np->parent = curr_proc` */
    method Adopt(np: nat)
      requires Valid() && cur != -1 && np < NPROC && proc[np].state.Embryo? && proc[np].parent == -1
      modifies this`proc
      ensures Valid() && proc == old(proc)[np := old(proc)[np].(parent := cur)]
    {
      proc := proc[np := proc[np].(parent := cur)];
    }

    /** `np->state = RUNNABLE` */
    method Start(np: nat)
      requires Valid() && np < NPROC && proc[np].state.Embryo? && proc[np].parent != -1 && proc[np].pid > 0
      modifies this`proc
      ensures Valid() && proc == old(proc)[np := old(proc)[np].(state := Runnable)]
    {
      proc := proc[np := proc[np].(state := Runnable)];
    }

    /** fork without interruption; `space` says whether copyuvm finds the memory. */
    method Fork(stack: bool, space: bool) returns (pid: int)
      requires Valid() && cur != -1
      modifies this`proc, this`nextpid
      ensures Valid()
      ensures pid == -1 <==> !stack || !space || forall i | 0 <= i < NPROC :: !old(proc)[i].state.Unused?
      ensures pid == -1 ==> |proc| == |old(proc)| && forall i | 0 <= i < |proc| ::
        proc[i] == old(proc)[i].(pid := proc[i].pid)
      ensures pid != -1 ==> pid == old(nextpid) && exists np :: (0 <= np < NPROC && old(proc)[np].state.Unused?
        && proc == old(proc)[np := old(proc)[np].(state := Runnable, pid := pid, parent := cur)])
    {
      hide Good;
      UnusedFacts();
      var np := Allocproc(stack);
      if np == -1 {
        return -1;
      }
      if !space {
        Abandon(np);
        return -1;
      }
      Adopt(np);
      pid := proc[np].pid;
      Start(np);
      assert proc == old(proc)[np := old(proc)[np].(state := Runnable, pid := pid, parent := cur)];
    }

    lemma TableFacts()
      requires Valid()
      ensures |proc| == NPROC && -1 <= cur < NPROC && initproc < NPROC && (cur >= 0 ==> proc[cur].state.Running?)
      ensures forall i | 0 <= i < NPROC && proc[i].state.Unused? :: proc[i].parent == -1
    {
    }

    lemma UnusedFacts()
      requires Valid()
      ensures |proc| == NPROC && nextpid > 0
      ensures forall i | 0 <= i < NPROC && proc[i].state.Unused? :: proc[i].parent == -1
    {
    }

    /** wakeup1 */
    method Wakeup(chan: Chan)
      requires Valid()
      modifies this`proc
      ensures Valid() && proc == Woken(old(proc), chan)
    {
      WakesGood(proc, Woken(proc, chan), cur, initproc, nextpid, next, waits);
      Wakeup1(chan);
    }

    /** The loop of wakeup1. */
    method Wakeup1(chan: Chan)
      modifies this`proc
      ensures proc == Woken(old(proc), chan)
    {
      var p := 0;
      while p < |proc|
        invariant p <= |proc| == |old(proc)|
        invariant forall i | 0 <= i < |proc| :: proc[i] == if i < p then Wake(old(proc)[i], chan) else old(proc)[i]
      {
        if proc[p].state.Sleeping? && proc[p].chan == chan {
          proc := proc[p := proc[p].(state := Runnable)];
        }
        p := p + 1;
      }
    }

    /** The loop of exit. */
    method PassChildren()
      requires |proc| == NPROC && 0 <= cur < NPROC && cur != initproc
      modifies this`proc
      ensures proc == Passed(old(proc), NPROC, cur, initproc)
    {
      hide Passed;
      ghost var t1 := proc;
      PassedNone(t1, cur, initproc);
      var p := 0;
      while p < NPROC
        invariant p <= NPROC == |proc| && proc == Passed(t1, p, cur, initproc)
      {
        PassedStep(t1, p, cur, initproc);
        if proc[p].parent == cur {
          proc := proc[p := proc[p].(parent := initproc)];
          if proc[p].state.Zombie? {
            Wakeup1(OfProc(initproc));
          }
        }
        p := p + 1;
      }
    }

    /** The last step of exit, under the table's lock. */
    method Exit()
      requires Valid() && cur != -1 && cur != initproc
      modifies this`proc, this`cur
      ensures Valid() && cur == -1 && old(proc[cur].parent) >= 0 && proc == Exited(old(proc), old(cur), initproc)
    {
      ExitedGood(proc, cur, initproc, nextpid, next, waits);
      ghost var t0 := proc;
      Wakeup1(OfProc(proc[cur].parent));
      ghost var t1 := proc;
      PassChildren();
      proc := proc[cur := proc[cur].(state := Zombie)];
      cur := -1;
    }

    /**
     One scan of wait by the current process: it reaps its first zombie child, or
     finds that waiting is pointless, or goes to sleep on itself.
     */
    method Wait() returns (r: Waited)
      requires Valid() && cur != -1
      modifies this`proc, this`cur
      ensures Valid()
      ensures |old(proc)| == NPROC && (r.Reaped? <==> HasZombie(old(proc), old(cur)))
      ensures r.Reaped? ==> cur == old(cur) && exists z ::
        (FirstZombie(old(proc), z, cur) && r.pid == old(proc)[z].pid
            && proc == old(proc)[z := Proc(Unused, 0, -1, old(proc)[z].chan, false)])
      ensures !r.Reaped? ==>
        (r.Hopeless? <==> old(proc)[old(cur)].killed || forall z | 0 <= z < NPROC :: old(proc)[z].parent != old(cur))
      ensures r.Hopeless? ==> proc == old(proc) && cur == old(cur)
      ensures r.Slept? ==>
        && 0 <= old(cur) < NPROC && cur == -1
        && proc == old(proc)[old(cur) := old(proc)[old(cur)].(state := Sleeping, chan := OfProc(old(cur)))]
    {
      hide Family, NoMissedExit, Fair, Pids;
      var havekids := false;
      var p := 0;
      while p < NPROC
        invariant p <= NPROC
        invariant havekids <==> exists z :: 0 <= z < p && proc[z].parent == cur
        invariant forall z | 0 <= z < p :: !(proc[z].parent == cur && proc[z].state.Zombie?)
      {
        if proc[p].parent == cur {
          havekids := true;
          if proc[p].state.Zombie? {
            ReapGood(proc, p, cur, initproc, nextpid, next, waits);
            r := Reaped(proc[p].pid);
            proc := proc[p := Proc(Unused, 0, -1, proc[p].chan, false)];
            return;
          }
        }
        p := p + 1;
      }
      if !havekids || proc[cur].killed {
        return Hopeless;
      }
      StopGood(proc, proc[cur].(state := Sleeping, chan := OfProc(cur)), cur, initproc, nextpid, next, waits);
      proc := proc[cur := proc[cur].(state := Sleeping, chan := OfProc(cur))];
      cur := -1;
      return Slept;
    }

    /** sleep, up to the switch to the scheduler; wait alone sleeps on a process. */
    method Sleep(chan: Chan)
      requires Valid() && cur != -1 && !chan.OfProc?
      modifies this`proc, this`cur
      ensures Valid() && cur == -1 && 0 <= old(cur) < NPROC
      ensures proc == old(proc)[old(cur) := old(proc)[old(cur)].(state := Sleeping, chan := chan)]
    {
      hide Family, NoMissedExit, Fair, Pids;
      StopGood(proc, proc[cur].(state := Sleeping, chan := chan), cur, initproc, nextpid, next, waits);
      proc := proc[cur := proc[cur].(state := Sleeping, chan := chan)];
      cur := -1;
    }

    /** The rest of sleep, once the process runs again. */
    method Resume()
      requires Valid() && cur != -1
      modifies this`proc
      ensures Valid() && 0 <= cur < NPROC && proc == old(proc)[cur := old(proc)[cur].(chan := NoChan)]
    {
      hide Family, NoMissedExit, Fair, Pids;
      TouchGood(proc, proc[cur].(chan := NoChan), cur, cur, initproc, nextpid, next, waits);
      proc := proc[cur := proc[cur].(chan := NoChan)];
    }

    /** yield */
    method Yield()
      requires Valid() && cur != -1
      modifies this`proc, this`cur
      ensures Valid() && cur == -1 && 0 <= old(cur) < NPROC
      ensures proc == old(proc)[old(cur) := old(proc)[old(cur)].(state := Runnable)]
    {
      hide Family, NoMissedExit, Fair, Pids;
      StopGood(proc, proc[cur].(state := Runnable), cur, initproc, nextpid, next, waits);
      proc := proc[cur := proc[cur].(state := Runnable)];
      cur := -1;
    }

    /** kill: the first slot with that pid is marked, and woken if it sleeps. */
    method Kill(pid: nat) returns (r: int)
      requires Valid()
      modifies this`proc
      ensures Valid()
      ensures r == -1 <==> forall i | 0 <= i < NPROC :: old(proc)[i].pid != pid
      ensures r == -1 ==> proc == old(proc)
      ensures r != -1 ==> r == 0 && exists i :: (0 <= i < NPROC && old(proc)[i].pid == pid
        && (forall j | 0 <= j < i :: old(proc)[j].pid != pid) && KilledAt(old(proc), proc, i))
    {
      hide Family, NoMissedExit, Fair, Pids;
      var p := 0;
      while p < NPROC
        invariant p <= NPROC && forall j | 0 <= j < p :: proc[j].pid != pid
      {
        if proc[p].pid == pid {
          ghost var t0, q := proc, proc[p].(killed := true);
          TouchGood(proc, if q.state.Sleeping? then q.(state := Runnable) else q,
                    p, cur, initproc, nextpid, next, waits);
          proc := proc[p := proc[p].(killed := true)];
          if proc[p].state.Sleeping? {
            proc := proc[p := proc[p].(state := Runnable)];
          }
          assert proc == t0[p := if q.state.Sleeping? then q.(state := Runnable) else q];
          return 0;
        }
        p := p + 1;
      }
      return -1;
    }

    /**
     The rest of a pass of the scheduler over the table, up to the next switch: it
     runs the first runnable process from where it resumes, or finds none and will
     start over.
     */
    method Dispatch() returns (found: bool)
      requires Valid() && cur == -1
      modifies this`proc, this`cur, this`next, this`waits
      ensures Valid()
      ensures !found ==>
        cur == -1 && next == 0 && proc == old(proc) && forall i | old(next) <= i < NPROC :: !proc[i].state.Runnable?
      ensures found ==>
        && 0 <= old(next) <= cur < NPROC && old(proc)[cur].state.Runnable? && next == cur + 1
        && (forall i | old(next) <= i < cur :: !old(proc)[i].state.Runnable?)
        && proc == old(proc)[cur := old(proc)[cur].(state := Running)]
      ensures forall i | 0 <= i < NPROC && proc[i].state.Runnable? ::
        |waits| == |old(waits)| == NPROC && waits[i] == old(waits)[i] + if found then 1 else 0
    {
      hide Family, NoMissedExit, Pids;
      assert next <= NPROC;
      var p := next;
      while p < NPROC && !proc[p].state.Runnable?
        invariant next <= p <= NPROC && forall i | next <= i < p :: !proc[i].state.Runnable?
      {
        p := p + 1;
      }
      if p == NPROC {
        next := 0;
        return false;
      }
      RunGood(proc, p, initproc, nextpid, next, waits);
      waits := Waited1(proc, p, waits);
      proc := proc[p := proc[p].(state := Running)];
      cur, next := p, p + 1;
      return true;
    }

    /**
     However the steps are interleaved, a process that stays runnable waits for at most NPROC - 1
     other dispatches.
     */
    lemma BoundedWaiting(r: nat)
      requires Valid() && r < NPROC && proc[r].state.Runnable?
      ensures |waits| == NPROC && waits[r] <= NPROC - 1
    {
    }
  }

  /** What exit does to the process table, slot by slot. */
  lemma ExitedAt(t: Table, cur: nat, init: nat)
    requires cur < |t| && t[cur].parent >= 0 && t[cur].state.Running?
    ensures var r := Exited(t, cur, init);
      && |r| == |t| && r[cur].state == Zombie
      && (forall i | 0 <= i < |t| :: r[i].pid == t[i].pid && r[i].chan == t[i].chan && r[i].killed == t[i].killed)
      && (forall i | 0 <= i < |t| :: r[i].parent == if t[i].parent == cur then init else t[i].parent)
      && (forall i | 0 <= i < |t| && i != cur ::
         r[i].state == if ExitWakes(t, cur, init, i) then Runnable else t[i].state)
  {
    var t1 := Woken(t, OfProc(t[cur].parent));
    assert Bereaved(t1, |t1|, cur) <==> exists z :: 0 <= z < |t| && t[z].parent == cur && t[z].state == Zombie by {
      forall z | 0 <= z < |t| ensures t1[z].parent == t[z].parent && (t1[z].state == Zombie <==> t[z].state == Zombie) {
      }
    }
  }

  /** Asleep in wait, as the parent, or as init if a child that it inherits is a zombie. */
  ghost predicate ExitWakes(t: Table, cur: nat, init: nat, i: nat)
    requires cur < |t| && i < |t| && t[cur].parent >= 0
  {
    && t[i].state == Sleeping
    && (t[i].chan == OfProc(t[cur].parent)
        || (t[i].chan == OfProc(init) && exists z :: 0 <= z < |t| && t[z].parent == cur && t[z].state == Zombie))
  }

  /**
   A process that sleeps in wait without a zombie child, and is killed, gives up
   waiting as soon as it runs again.
   */
  method KilledWaiter(k: Kernel, i: nat) returns (r: Waited)
    requires k.Valid() && k.cur == -1 && i < |k.proc| && SleepsOn(k.proc[i], OfProc(i)) && k.next <= i
    requires forall j | 0 <= j < |k.proc| && k.proc[j].pid == k.proc[i].pid :: j == i
    requires forall j | k.next <= j < i :: !k.proc[j].state.Runnable?
    requires !HasZombie(k.proc, i)
    modifies k
    ensures k.Valid() && r == Hopeless && k.cur == i && k.proc[i].state == Running && k.proc[i].killed
  {
    hide Good;
    k.TableFacts();
    ghost var t0 := k.proc;
    var e := k.Kill(k.proc[i].pid);
    var found := k.Dispatch();
    k.Resume();
    k.TableFacts();
    assert forall j | 0 <= j < |t0| ::
      k.proc[j].parent == t0[j].parent && (k.proc[j].state == Zombie ==> t0[j].state == Zombie);
    r := k.Wait();
  }
}
