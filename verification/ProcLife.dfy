/** Runs of the process table: fork, exit, wait, sleep, wakeup, kill and scheduling by any
    number of processes, and what holds whenever ptable.lock is free. */
module ProcLife {
  import opened Params
  import opened ProcTable

  /** forking[p] is the entry that p's fork in progress has allocated; reaped lists the pids
      wait has returned; aborted collects the pids of forks that ran out of memory. */
  datatype Sys = Sys(init: nat, procs: seq<Proc>, nextpid: nat, forking: seq<Option<nat>>,
                     reaped: seq<nat>, aborted: set<nat>)

  datatype Step =
    | Alloc(p: nat, c: nat)       // allocproc picks entry c
    | AllocFails(p: nat)          // kalloc or copyuvm fails
    | SetParent(p: nat)
    | ForkDone(p: nat)
    | Exit(p: nat)
    | WaitReap(p: nat, c: nat)
    | WaitSleep(p: nat)
    | Schedule(p: nat)
    | Yield(p: nat)
    | Sleep(p: nat, c: nat)
    | Wakeup(p: nat, c: nat)
    | Kill(p: nat)

  predicate Enabled(s: Sys, step: Step) {
    && |s.forking| == |s.procs| && step.p < |s.procs|
    && var me := s.procs[step.p];
    match step
    case Alloc(p, c) => me.state.Running? && s.forking[p].None? && c < |s.procs| && s.procs[c].state.Unused?
    case AllocFails(p) => me.state.Running? && s.forking[p].Some? && s.forking[p].value < |s.procs|
                          && s.procs[s.forking[p].value].parent.None?
    case SetParent(p) => me.state.Running? && s.forking[p].Some? && s.forking[p].value < |s.procs|
    case ForkDone(p) => me.state.Running? && s.forking[p].Some? && s.forking[p].value < |s.procs|
                        && s.procs[s.forking[p].value].parent == Some(p)
    case Exit(p) => me.state.Running? && s.forking[p].None? && p != s.init
    case WaitReap(p, c) => me.state.Running? && s.forking[p].None? && ZombieChild(s.procs, p, c)
    case WaitSleep(p) => me.state.Running? && s.forking[p].None? && !HasZombie(s.procs, p)
    case Schedule(p) => me.state.Runnable?
    case Yield(p) => me.state.Running?
    case Sleep(p, c) => me.state.Running?
    case Wakeup(p, c) => true   // also from an interrupt, with no process running
    case Kill(p) => true
  }

  function Next(s: Sys, step: Step): Sys
    requires Enabled(s, step)
  {
    var p, me := step.p, s.procs[step.p];
    match step
    case Alloc(_, c) =>
      s.(procs := s.procs[c := s.procs[c].(state := Embryo, pid := s.nextpid)],
         nextpid := s.nextpid + 1, forking := s.forking[p := Some(c)])
    case AllocFails(_) =>
      var c := s.forking[p].value;
      s.(procs := s.procs[c := s.procs[c].(state := Unused)],
         forking := s.forking[p := None], aborted := s.aborted + {s.procs[c].pid})
    case SetParent(_) =>
      var c := s.forking[p].value;
      s.(procs := s.procs[c := s.procs[c].(parent := Some(p))])
    case ForkDone(_) =>
      var c := s.forking[p].value;
      s.(procs := s.procs[c := s.procs[c].(state := Runnable)], forking := s.forking[p := None])
    case Exit(_) => s.(procs := Exited(s.procs, p, s.init))
    case WaitReap(_, c) => s.(procs := s.procs[c := Cleared(s.procs[c])], reaped := s.reaped + [s.procs[c].pid])
    case WaitSleep(_) => s.(procs := s.procs[p := me.(chan := Entry(p), state := Sleeping)])
    case Schedule(_) => s.(procs := s.procs[p := me.(state := Running, chan := Nothing)])
    case Yield(_) => s.(procs := s.procs[p := me.(state := Runnable)])
    case Sleep(_, c) => s.(procs := s.procs[p := me.(chan := Other(c), state := Sleeping)])
    case Wakeup(_, c) => s.(procs := Wake(s.procs, Other(c)))
    case Kill(_) => s.(procs := s.procs[p := Killed(me)])
  }

  ghost predicate Run(s: Sys, steps: seq<Step>, t: Sys)
    decreases |steps|
  {
    if steps == [] then t == s
    else Enabled(s, steps[0]) && Run(Next(s, steps[0]), steps[1..], t)
  }

  /** After userinit: init is runnable with pid 1 and every other entry is unused. */
  ghost predicate Booted(s: Sys) {
    && s.init < |s.procs| == |s.forking| && s.nextpid == 2 && s.reaped == [] && s.aborted == {}
    && (forall i :: 0 <= i < |s.procs| ==> s.forking[i].None? && s.procs[i].parent.None?)
    && (forall i :: 0 <= i < |s.procs| ==>
      if i == s.init then s.procs[i].state.Runnable? && s.procs[i].pid == 1 else s.procs[i].state.Unused?)
  }

  // The invariant

  /** A process other than init has a parent that has neither exited nor gone. */
  ghost predicate TreeAt(s: Sys, i: nat)
    requires i < |s.procs|
  {
    var p := s.procs[i];
    && (i != s.init && (Alive(p) || p.state.Zombie?) ==>
          p.parent.Some? && p.parent.value < |s.procs| && p.parent.value != i && Alive(s.procs[p.parent.value]))
    && (p.state.Unused? ==> p.parent.None?)
  }

  ghost predicate Tree(s: Sys) {
    && s.init < |s.procs| == |s.forking| && Alive(s.procs[s.init]) && s.procs[s.init].parent.None?
    && (forall i: nat :: i < |s.procs| ==> TreeAt(s, i))
  }

  ghost predicate ForkAt(s: Sys, q: nat)
    requires q < |s.procs| == |s.forking|
  {
    && (s.forking[q].Some? ==>
          s.forking[q].value < |s.procs| && s.procs[s.forking[q].value].state.Embryo? && Alive(s.procs[q]))
    && (s.procs[q].state.Embryo? && s.procs[q].parent.Some? ==>
          s.procs[q].parent.value < |s.procs| && s.forking[s.procs[q].parent.value] == Some(q))
  }

  /** Each entry under construction belongs to the one fork that allocated it. */
  ghost predicate Forks(s: Sys) {
    && |s.procs| == |s.forking|
    && (forall q: nat :: q < |s.procs| ==> ForkAt(s, q))
    && (forall q, r :: 0 <= q < r < |s.procs| && s.forking[q].Some? ==> s.forking[q] != s.forking[r])
  }

  ghost predicate SleepAt(s: Sys, i: nat)
    requires i < |s.procs|
  {
    s.procs[i].state.Sleeping? && s.procs[i].chan.Entry? ==>
      s.procs[i].chan.i == i && forall j: nat :: j < |s.procs| ==> !ZombieChild(s.procs, i, j)
  }

  /** A process asleep in wait sleeps on itself and has no zombie child. */
  ghost predicate Sleepers(s: Sys) {
    forall i: nat :: i < |s.procs| ==> SleepAt(s, i)
  }

  /** Entry i is in use and holds pid x. */
  ghost predicate Holds(procs: seq<Proc>, i: nat, x: nat) {
    i < |procs| && !procs[i].state.Unused? && procs[i].pid == x
  }

  ghost predicate Held(procs: seq<Proc>, x: nat) {
    exists i: nat :: Holds(procs, i, x)
  }

  /** Pid x, if handed out, is held by one entry, or was reaped once, or was aborted. */
  ghost predicate PidAt(s: Sys, x: nat) {
    && (1 <= x < s.nextpid <==> x in s.aborted || x in s.reaped || Held(s.procs, x))
    && (x in s.aborted ==> x !in s.reaped && !Held(s.procs, x))
    && (x in s.reaped ==> !Held(s.procs, x))
    && (forall i: nat, j: nat :: Holds(s.procs, i, x) && Holds(s.procs, j, x) ==> i == j)
  }

  ghost predicate Pids(s: Sys) {
    && s.nextpid >= 1
    && (forall x: nat :: PidAt(s, x))
    && (forall k, l :: 0 <= k < l < |s.reaped| ==> s.reaped[k] != s.reaped[l])
  }

  ghost predicate Inv(s: Sys) {
    Tree(s) && Forks(s) && Sleepers(s) && Pids(s)
  }

  lemma BootInv(s: Sys)
    requires Booted(s)
    ensures Inv(s)
  {
    forall x: nat ensures PidAt(s, x) {
      assert Holds(s.procs, s.init, 1);
    }
  }

  // Steps that only move living processes between running, runnable and sleeping

  ghost predicate SameEntry(a: Proc, b: Proc) {
    && b.pid == a.pid && b.parent == a.parent && (Alive(b) <==> Alive(a)) && (!Alive(a) ==> b.state == a.state)
  }

  ghost predicate Shuffled(s: Sys, t: Sys) {
    && t == s.(procs := t.procs) && |t.procs| == |s.procs|
    && (forall i: nat :: i < |s.procs| ==> SameEntry(s.procs[i], t.procs[i]))
  }

  lemma ShuffledTree(s: Sys, t: Sys)
    requires Tree(s) && Shuffled(s, t)
    ensures Tree(t)
  {
    forall i: nat | i < |t.procs| ensures TreeAt(t, i) {
      assert TreeAt(s, i) && SameEntry(s.procs[i], t.procs[i]);
      if s.procs[i].parent.Some? && s.procs[i].parent.value < |s.procs| {
        assert SameEntry(s.procs[s.procs[i].parent.value], t.procs[s.procs[i].parent.value]);
      }
    }
    assert SameEntry(s.procs[s.init], t.procs[s.init]);
  }

  lemma ShuffledForks(s: Sys, t: Sys)
    requires Forks(s) && Shuffled(s, t)
    ensures Forks(t)
  {
    forall q: nat | q < |t.procs| ensures ForkAt(t, q) {
      assert ForkAt(s, q) && SameEntry(s.procs[q], t.procs[q]);
      if s.forking[q].Some? {
        assert SameEntry(s.procs[s.forking[q].value], t.procs[s.forking[q].value]);
      }
    }
  }

  /** The pids only depend on which entries are in use and what pid they hold. */
  lemma PidsSame(s: Sys, t: Sys)
    requires Pids(s) && t.nextpid == s.nextpid && t.reaped == s.reaped && t.aborted == s.aborted
    requires forall i: nat, x: nat :: Holds(t.procs, i, x) <==> Holds(s.procs, i, x)
    ensures Pids(t)
  {
    forall x: nat ensures PidAt(t, x) {
      assert PidAt(s, x);
      assert Held(t.procs, x) <==> Held(s.procs, x);
    }
  }

  lemma ShuffledPids(s: Sys, t: Sys)
    requires Pids(s) && Shuffled(s, t)
    ensures Pids(t)
  {
    forall i: nat, x: nat ensures Holds(t.procs, i, x) <==> Holds(s.procs, i, x) {
      if i < |s.procs| { assert SameEntry(s.procs[i], t.procs[i]); }
    }
    PidsSame(s, t);
  }

  lemma ShuffledZombies(s: Sys, t: Sys, p: nat, j: nat)
    requires Shuffled(s, t) && j < |s.procs|
    ensures ZombieChild(t.procs, p, j) <==> ZombieChild(s.procs, p, j)
  {
    assert SameEntry(s.procs[j], t.procs[j]);
  }

  /** A shuffle keeps the invariant if every process it leaves in wait was already there
      or has no zombie child. */
  lemma ShuffledInv(s: Sys, t: Sys)
    requires Inv(s) && Shuffled(s, t)
    requires forall i: nat :: i < |t.procs| && t.procs[i].state.Sleeping? && t.procs[i].chan.Entry? ==>
      t.procs[i] == s.procs[i] || (t.procs[i].chan.i == i && !HasZombie(s.procs, i))
    ensures Inv(t)
  {
    ShuffledTree(s, t);
    ShuffledForks(s, t);
    ShuffledPids(s, t);
    forall i: nat | i < |t.procs| ensures SleepAt(t, i) {
      assert SleepAt(s, i);
      forall j: nat | j < |t.procs| ensures ZombieChild(t.procs, i, j) <==> ZombieChild(s.procs, i, j) {
        ShuffledZombies(s, t, i, j);
      }
    }
  }

  lemma MoveInv(s: Sys, step: Step)
    requires Inv(s) && Enabled(s, step)
    requires step.WaitSleep? || step.Schedule? || step.Yield? || step.Sleep? || step.Wakeup? || step.Kill?
    ensures Inv(Next(s, step))
  {
    var t := Next(s, step);
    forall i: nat | i < |s.procs| ensures SameEntry(s.procs[i], t.procs[i]) {
    }
    ShuffledInv(s, t);
  }

  // Exit

  /** What exit does to one entry. */
  lemma ExitedAt(procs: seq<Proc>, p: nat, init: nat, i: nat)
    requires p < |procs| && i < |procs|
    ensures |Exited(procs, p, init)| == |procs|
    ensures var a, b := procs[i], Exited(procs, p, init)[i];
      && b.pid == a.pid && b.chan == a.chan
      && b.parent == (if a.parent == Some(p) then Some(init) else a.parent)
      && (i == p ==> b.state.Zombie?)
      && (i != p ==> b.state == a.state || (a.state.Sleeping? && b.state.Runnable?))
      && (i != p && b.state.Sleeping? ==>
        a.chan != ChanOf(procs[p].parent) && (HasZombie(procs, p) ==> a.chan != Entry(init)))
  {
  }

  lemma ExitTree(s: Sys, p: nat)
    requires Tree(s) && Enabled(s, Exit(p))
    ensures Tree(Next(s, Exit(p)))
  {
    hide Exited;
    var t := Next(s, Exit(p));
    ExitedAt(s.procs, p, s.init, s.init);
    forall i: nat | i < |t.procs| ensures TreeAt(t, i) {
      ExitedAt(s.procs, p, s.init, i);
      assert TreeAt(s, i);
      if s.procs[i].parent.Some? && s.procs[i].parent.value < |s.procs| {
        ExitedAt(s.procs, p, s.init, s.procs[i].parent.value);
      }
    }
  }

  lemma ExitForks(s: Sys, p: nat)
    requires Forks(s) && Enabled(s, Exit(p))
    ensures Forks(Next(s, Exit(p)))
  {
    hide Exited;
    var t := Next(s, Exit(p));
    ExitedAt(s.procs, p, s.init, p);
    forall q: nat | q < |t.procs| ensures ForkAt(t, q) {
      ExitedAt(s.procs, p, s.init, q);
      assert ForkAt(s, q);
      if s.forking[q].Some? { ExitedAt(s.procs, p, s.init, s.forking[q].value); }
    }
  }

  lemma ExitSleepers(s: Sys, p: nat)
    requires Tree(s) && Sleepers(s) && Enabled(s, Exit(p))
    ensures Sleepers(Next(s, Exit(p)))
  {
    hide Exited;
    var t := Next(s, Exit(p));
    ExitedAt(s.procs, p, s.init, p);
    assert TreeAt(s, p);
    forall i: nat | i < |t.procs| ensures SleepAt(t, i) {
      ExitedAt(s.procs, p, s.init, i);
      assert SleepAt(s, i);
      if t.procs[i].state.Sleeping? && t.procs[i].chan.Entry? {
        forall j: nat | j < |t.procs| ensures !ZombieChild(t.procs, i, j) {
          ExitedAt(s.procs, p, s.init, j);
          assert !ZombieChild(s.procs, i, j);
          assert ZombieChild(s.procs, p, j) ==> HasZombie(s.procs, p);
        }
      }
    }
  }

  lemma ExitInv(s: Sys, p: nat)
    requires Inv(s) && Enabled(s, Exit(p))
    ensures Inv(Next(s, Exit(p)))
  {
    hide Exited;
    var t := Next(s, Exit(p));
    ExitTree(s, p);
    ExitForks(s, p);
    ExitSleepers(s, p);
    ExitedAt(s.procs, p, s.init, p);
    forall i: nat, x: nat ensures Holds(t.procs, i, x) <==> Holds(s.procs, i, x) {
      if i < |s.procs| { ExitedAt(s.procs, p, s.init, i); }
    }
    PidsSame(s, t);
  }

  // Fork and wait: one entry changes

  /** Only entry c changes, and it is no one's parent before or after. */
  ghost predicate OneEntry(s: Sys, t: Sys, c: nat) {
    c < |s.procs| && |t.procs| == |s.procs| && t.init == s.init && t.procs == s.procs[c := t.procs[c]]
  }

  lemma OneEntryTree(s: Sys, t: Sys, c: nat)
    requires Tree(s) && OneEntry(s, t, c) && |t.forking| == |s.forking| && !Alive(s.procs[c])
    requires TreeAt(t, c)
    ensures Tree(t)
  {
    forall i: nat | i < |t.procs| ensures TreeAt(t, i) {
      assert TreeAt(s, i);
    }
    assert c != s.init;
  }

  lemma OneEntrySleepers(s: Sys, t: Sys, c: nat)
    requires Sleepers(s) && OneEntry(s, t, c) && !t.procs[c].state.Sleeping? && !t.procs[c].state.Zombie?
    ensures Sleepers(t)
  {
    forall i: nat | i < |t.procs| ensures SleepAt(t, i) {
      assert SleepAt(s, i);
      forall j: nat | j < |t.procs| && ZombieChild(t.procs, i, j) ensures ZombieChild(s.procs, i, j) {
      }
    }
  }

  lemma AllocInv(s: Sys, p: nat, c: nat)
    requires Inv(s) && Enabled(s, Alloc(p, c))
    ensures Inv(Next(s, Alloc(p, c)))
  {
    var t := Next(s, Alloc(p, c));
    assert TreeAt(s, c);
    OneEntryTree(s, t, c);
    OneEntrySleepers(s, t, c);
    forall q: nat | q < |t.procs| ensures ForkAt(t, q) {
      assert ForkAt(s, q);
    }
    forall q, r | 0 <= q < r < |t.procs| && t.forking[q].Some? ensures t.forking[q] != t.forking[r] {
      assert ForkAt(s, q) && ForkAt(s, r);
    }
    assert Holds(t.procs, c, s.nextpid);
    forall x: nat ensures PidAt(t, x) {
      assert PidAt(s, x) && PidAt(s, s.nextpid);
      forall i: nat ensures Holds(t.procs, i, x) <==> Holds(s.procs, i, x) || (i == c && x == s.nextpid) {
      }
    }
  }

  lemma AllocFailsInv(s: Sys, p: nat)
    requires Inv(s) && Enabled(s, AllocFails(p))
    ensures Inv(Next(s, AllocFails(p)))
  {
    var t := Next(s, AllocFails(p));
    var c := s.forking[p].value;
    assert ForkAt(s, p) && TreeAt(s, c);
    OneEntryTree(s, t, c);
    OneEntrySleepers(s, t, c);
    forall q: nat | q < |t.procs| ensures ForkAt(t, q) {
      assert ForkAt(s, q);
      assert s.forking[q] == Some(c) ==> q == p;
    }
    ReleasePid(s, t, c);
  }

  /** Entry c gives up its pid, which joins the reaped or the aborted ones. */
  lemma ReleasePid(s: Sys, t: Sys, c: nat)
    requires Pids(s) && OneEntry(s, t, c) && !s.procs[c].state.Unused? && t.procs[c].state.Unused?
    requires t.nextpid == s.nextpid
    requires (t.reaped == s.reaped && t.aborted == s.aborted + {s.procs[c].pid})
          || (t.reaped == s.reaped + [s.procs[c].pid] && t.aborted == s.aborted)
    ensures Pids(t)
  {
    var y := s.procs[c].pid;
    assert Holds(s.procs, c, y) && PidAt(s, y);
    forall x: nat ensures PidAt(t, x) {
      assert PidAt(s, x);
      forall i: nat ensures Holds(t.procs, i, x) <==> Holds(s.procs, i, x) && i != c {
      }
      if x != y && Held(s.procs, x) {
        var i: nat :| Holds(s.procs, i, x);
        assert Holds(t.procs, i, x);
      }
    }
    forall k, l | 0 <= k < l < |t.reaped| ensures t.reaped[k] != t.reaped[l] {
      if l == |s.reaped| { assert t.reaped[k] in s.reaped; }
    }
  }

  lemma WaitReapInv(s: Sys, p: nat, c: nat)
    requires Inv(s) && Enabled(s, WaitReap(p, c))
    ensures Inv(Next(s, WaitReap(p, c)))
  {
    var t := Next(s, WaitReap(p, c));
    OneEntryTree(s, t, c);
    OneEntrySleepers(s, t, c);
    forall q: nat | q < |t.procs| ensures ForkAt(t, q) {
      assert ForkAt(s, q);
    }
    ReleasePid(s, t, c);
  }

  lemma SetParentInv(s: Sys, p: nat)
    requires Inv(s) && Enabled(s, SetParent(p))
    ensures Inv(Next(s, SetParent(p)))
  {
    var t := Next(s, SetParent(p));
    var c := s.forking[p].value;
    assert ForkAt(s, p) && TreeAt(s, c);
    OneEntryTree(s, t, c);
    OneEntrySleepers(s, t, c);
    forall q: nat | q < |t.procs| ensures ForkAt(t, q) {
      assert ForkAt(s, q);
    }
    forall i: nat, x: nat ensures Holds(t.procs, i, x) <==> Holds(s.procs, i, x) {
    }
    PidsSame(s, t);
  }

  lemma ForkDoneInv(s: Sys, p: nat)
    requires Inv(s) && Enabled(s, ForkDone(p))
    ensures Inv(Next(s, ForkDone(p)))
  {
    var t := Next(s, ForkDone(p));
    var c := s.forking[p].value;
    assert ForkAt(s, p) && TreeAt(s, c);
    OneEntryTree(s, t, c);
    OneEntrySleepers(s, t, c);
    forall q: nat | q < |t.procs| ensures ForkAt(t, q) {
      assert ForkAt(s, q);
      assert s.forking[q] == Some(c) ==> q == p;
    }
    forall i: nat, x: nat ensures Holds(t.procs, i, x) <==> Holds(s.procs, i, x) {
    }
    PidsSame(s, t);
  }

  /** Every step of every process keeps the invariant. */
  lemma NextInv(s: Sys, step: Step)
    requires Inv(s) && Enabled(s, step)
    ensures Inv(Next(s, step))
  {
    hide Inv, Next;
    match step {
      case Alloc(p, c) => AllocInv(s, p, c);
      case AllocFails(p) => AllocFailsInv(s, p);
      case SetParent(p) => SetParentInv(s, p);
      case ForkDone(p) => ForkDoneInv(s, p);
      case Exit(p) => ExitInv(s, p);
      case WaitReap(p, c) => WaitReapInv(s, p, c);
      case _ => MoveInv(s, step);
    }
  }

  lemma {:induction false} RunInv(s: Sys, steps: seq<Step>, t: Sys)
    requires Inv(s) && Run(s, steps, t)
    ensures Inv(t)
    decreases |steps|
  {
    hide Inv, Next;
    if steps != [] {
      NextInv(s, steps[0]);
      RunInv(Next(s, steps[0]), steps[1..], t);
    }
  }

  /** Exit and wait, over every run since boot: no process is orphaned to a dead or unused
      entry, no parent sleeps in wait while a child waits to be reaped, and no pid is
      returned by wait twice. */
  lemma ExitWaitSafety(s: Sys, steps: seq<Step>, t: Sys)
    requires Booted(s) && Run(s, steps, t)
    ensures forall i: nat :: i < |t.procs| && i != t.init && (Alive(t.procs[i]) || t.procs[i].state.Zombie?) ==>
      t.procs[i].parent.Some? && t.procs[i].parent.value < |t.procs| && Alive(t.procs[t.procs[i].parent.value])
    ensures forall i: nat :: i < |t.procs| && t.procs[i].state.Sleeping? && t.procs[i].chan == Entry(i) ==>
      !HasZombie(t.procs, i)
    ensures forall k, l :: 0 <= k < l < |t.reaped| ==> t.reaped[k] != t.reaped[l]
    ensures forall x: nat :: 1 <= x < t.nextpid <==> x in t.aborted || x in t.reaped || Held(t.procs, x)
    ensures forall x: nat :: x in t.reaped ==> x !in t.aborted && !Held(t.procs, x)
  {
    BootInv(s);
    RunInv(s, steps, t);
    forall i: nat | i < |t.procs| && i != t.init && (Alive(t.procs[i]) || t.procs[i].state.Zombie?)
      ensures t.procs[i].parent.Some? && t.procs[i].parent.value < |t.procs| && Alive(t.procs[t.procs[i].parent.value])
    {
      assert TreeAt(t, i);
    }
    forall i: nat | i < |t.procs| && t.procs[i].state.Sleeping? && t.procs[i].chan == Entry(i)
      ensures !HasZombie(t.procs, i)
    {
      assert SleepAt(t, i);
    }
    forall x: nat
      ensures 1 <= x < t.nextpid <==> x in t.aborted || x in t.reaped || Held(t.procs, x)
      ensures x in t.reaped ==> x !in t.aborted && !Held(t.procs, x)
    {
      assert PidAt(t, x);
    }
  }

  // Kill

  /** Entry i still holds the killed process x, or that process is gone. */
  ghost predicate Doomed(s: Sys, i: nat, x: nat) {
    || (i < |s.procs| && s.procs[i].pid == x && s.procs[i].killed && !s.procs[i].state.Unused?)
    || x in s.reaped || x in s.aborted
  }

  /** A process once killed stays marked until wait has returned it, or its fork has failed. */
  lemma {:induction false} KilledStays(s: Sys, steps: seq<Step>, t: Sys, i: nat, x: nat)
    requires Run(s, steps, t) && Doomed(s, i, x)
    ensures Doomed(t, i, x)
    decreases |steps|
  {
    if steps != [] {
      DoomedNext(s, steps[0], i, x);
      KilledStays(Next(s, steps[0]), steps[1..], t, i, x);
    }
  }

  lemma DoomedNext(s: Sys, step: Step, i: nat, x: nat)
    requires Enabled(s, step) && Doomed(s, i, x)
    ensures Doomed(Next(s, step), i, x)
  {
    if step.Exit? {
      ExitedAll(s.procs, step.p, s.init);
      assert i < |s.procs| ==> ExitedOne(s.procs, step.p, s.init, i, Exited(s.procs, step.p, s.init)[i]);
    }
  }

  /** kill marks the process it names and lets it run. */
  lemma KillDooms(s: Sys, p: nat)
    requires Enabled(s, Kill(p)) && !s.procs[p].state.Unused?
    ensures Doomed(Next(s, Kill(p)), p, s.procs[p].pid) && !Next(s, Kill(p)).procs[p].state.Sleeping?
  {
  }
}
