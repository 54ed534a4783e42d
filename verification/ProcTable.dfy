/** The process table of proc.c.  Each step is one critical section of ptable.lock, or one
    unlocked write that fork makes to a table entry it owns, so a run of steps is any
    interleaving of any number of processes. */
module ProcTable {
  import opened Params

  datatype PState = Unused | Embryo | Sleeping | Runnable | Running | Zombie

  /** What a process sleeps on: a table entry, as in wait, or anything else. */
  datatype Chan = Nothing | Entry(i: nat) | Other(c: nat)

  datatype Proc = Proc(state: PState, pid: nat, parent: Option<nat>, chan: Chan, killed: bool)

  predicate Alive(p: Proc) {
    p.state.Sleeping? || p.state.Runnable? || p.state.Running?
  }

  // The table scans

  function WakeOne(p: Proc, chan: Chan): Proc {
    if p.state.Sleeping? && p.chan == chan then p.(state := Runnable) else p
  }

  /** wakeup1 */
  function Wake(procs: seq<Proc>, chan: Chan): seq<Proc> {
    seq(|procs|, i requires 0 <= i < |procs| => WakeOne(procs[i], chan))
  }

  function ChanOf(parent: Option<nat>): Chan {
    match parent case None => Nothing case Some(q) => Entry(q)
  }

  predicate ZombieChild(procs: seq<Proc>, p: nat, i: nat) {
    i < |procs| && procs[i].parent == Some(p) && procs[i].state.Zombie?
  }

  predicate HasZombie(procs: seq<Proc>, p: nat) {
    exists i: nat :: i < |procs| && ZombieChild(procs, p, i)
  }

  predicate HasKids(procs: seq<Proc>, p: nat) {
    exists i :: 0 <= i < |procs| && procs[i].parent == Some(p)
  }

  /** The children of p go to init. */
  function Reparent(procs: seq<Proc>, p: nat, init: nat): seq<Proc> {
    seq(|procs|, i requires 0 <= i < |procs| =>
      if procs[i].parent == Some(p) then procs[i].(parent := Some(init)) else procs[i])
  }

  /** The locked part of exit. */
  function Exited(procs: seq<Proc>, p: nat, init: nat): seq<Proc>
    requires p < |procs|
  {
    var woken := Wake(procs, ChanOf(procs[p].parent));
    var moved := Reparent(woken, p, init);
    var told := if HasZombie(procs, p) then Wake(moved, Entry(init)) else moved;
    told[p := told[p].(state := Zombie)]
  }

  /** What wait leaves behind in the entry of a reaped child. */
  function Cleared(p: Proc): Proc {
    p.(state := Unused, pid := 0, parent := None, killed := false)
  }

  datatype WaitResult = Reaped(i: nat) | NoKids | Asleep

  class Ptable {
    var procs: seq<Proc>
    var nextpid: nat
    const init: nat

    /** The loop of allocproc: the first unused entry. */
    method Allocproc() returns (r: Option<nat>)
      modifies this
      ensures |procs| == |old(procs)|
      ensures r.None? ==> procs == old(procs) && nextpid == old(nextpid)
      ensures r.None? ==> forall i :: 0 <= i < |procs| ==> !procs[i].state.Unused?
      ensures r.Some? ==>
        && r.value < |old(procs)| && old(procs)[r.value].state.Unused?
        && (forall i :: 0 <= i < r.value ==> !old(procs)[i].state.Unused?)
        && procs == old(procs)[r.value := old(procs)[r.value].(state := Embryo, pid := old(nextpid))]
        && nextpid == old(nextpid) + 1
    {
      var i := 0;
      while i < |procs|
        invariant 0 <= i <= |procs| && procs == old(procs) && nextpid == old(nextpid)
        invariant forall j :: 0 <= j < i ==> !procs[j].state.Unused?
      {
        if procs[i].state.Unused? {
          procs := procs[i := procs[i].(state := Embryo, pid := nextpid)];
          nextpid := nextpid + 1;
          return Some(i);
        }
        i := i + 1;
      }
      return None;
    }

    method Wakeup1(chan: Chan)
      modifies this`procs
      ensures procs == Wake(old(procs), chan)
      ensures |procs| == |old(procs)|
      ensures forall i :: 0 <= i < |procs| ==> !(procs[i].state.Sleeping? && procs[i].chan == chan)
      ensures forall i :: 0 <= i < |procs| ==>
        var p := old(procs)[i];
        procs[i] == if p.state.Sleeping? && p.chan == chan then p.(state := Runnable) else p
    {
      var i := 0;
      while i < |procs|
        invariant 0 <= i <= |procs| == |old(procs)|
        invariant forall j :: 0 <= j < |procs| ==>
          procs[j] == if j < i then WakeOne(old(procs)[j], chan) else old(procs)[j]
      {
        if procs[i].state.Sleeping? && procs[i].chan == chan {
          procs := procs[i := procs[i].(state := Runnable)];
        }
        i := i + 1;
      }
    }

    /** exit under the lock: wake the parent, hand the children to init and wake it if one
        of them has already exited, become a zombie.  false is the panic of init exiting. */
    method Exit(p: nat) returns (ok: bool)
      requires p < |procs|
      modifies this`procs
      ensures ok == (p != init)
      ensures procs == if ok then Exited(old(procs), p, init) else old(procs)
      ensures ok ==> |procs| == |old(procs)| && procs[p].state.Zombie?
      ensures ok ==> forall i :: 0 <= i < |procs| ==> ExitedOne(old(procs), p, init, i, procs[i])
    {
      if p == init {
        return false;
      }
      Wakeup1(ChanOf(procs[p].parent));
      ghost var woken := procs;
      var i := 0;
      assert SomeZombie(old(procs), p, 0) == false;
      while i < |procs|
        invariant 0 <= i <= |procs| == |woken|
        invariant procs == Halfway(woken, p, init, i, SomeZombie(old(procs), p, i))
      {
        ghost var before := procs;
        if procs[i].parent == Some(p) {
          procs := procs[i := procs[i].(parent := Some(init))];
          if procs[i].state.Zombie? {
            Wakeup1(Entry(init));
          }
        }
        HalfwayStep(old(procs), woken, p, init, i, before, procs);
        i := i + 1;
      }
      HalfwayDone(old(procs), woken, p, init);
      ExitedAll(old(procs), p, init);
      procs := procs[p := procs[p].(state := Zombie)];
      return true;
    }

    /** One scan of wait, up to a sleep or a return. */
    method Wait(p: nat) returns (r: WaitResult)
      requires p < |procs|
      modifies this`procs
      ensures r.Reaped? ==>
        && r.i < |old(procs)| && ZombieChild(old(procs), p, r.i)
        && (forall j: nat :: j < r.i ==> !ZombieChild(old(procs), p, j))
        && procs == old(procs)[r.i := Cleared(old(procs)[r.i])]
        && procs[r.i].state.Unused? && procs[r.i].pid == 0 && procs[r.i].parent.None? && !procs[r.i].killed
      ensures !r.Reaped? ==> !HasZombie(old(procs), p)
      ensures r.NoKids? <==> !HasZombie(old(procs), p) && (!HasKids(old(procs), p) || old(procs)[p].killed)
      ensures r.NoKids? ==> procs == old(procs)
      ensures r.Asleep? ==> procs == old(procs)[p := old(procs)[p].(state := Sleeping, chan := Entry(p))]
    {
      var havekids := false;
      var i := 0;
      while i < |procs|
        invariant 0 <= i <= |procs| && procs == old(procs)
        invariant havekids <==> exists j :: 0 <= j < i && procs[j].parent == Some(p)
        invariant forall j: nat :: j < i ==> !ZombieChild(procs, p, j)
      {
        if procs[i].parent == Some(p) {
          havekids := true;
          if procs[i].state.Zombie? {
            procs := procs[i := Cleared(procs[i])];
            assert ZombieChild(old(procs), p, i);
            return Reaped(i);
          }
        }
        i := i + 1;
      }
      if !havekids || procs[p].killed {
        return NoKids;
      }
      procs := procs[p := procs[p].(chan := Entry(p), state := Sleeping)];
      return Asleep;
    }

    /** The first entry with this pid is marked, and woken if it sleeps. */
    method Kill(pid: nat) returns (r: Option<nat>)
      modifies this`procs
      ensures r.None? ==> procs == old(procs) && forall i :: 0 <= i < |procs| ==> procs[i].pid != pid
      ensures r.Some? ==>
        && r.value < |old(procs)| && old(procs)[r.value].pid == pid
        && (forall i :: 0 <= i < r.value ==> old(procs)[i].pid != pid)
        && procs == old(procs)[r.value := Killed(old(procs)[r.value])]
        && var p, q := old(procs)[r.value], procs[r.value];
        && q.killed && !q.state.Sleeping? && (!p.state.Sleeping? ==> q.state == p.state)
        && q.pid == p.pid && q.parent == p.parent && q.chan == p.chan
    {
      var i := 0;
      while i < |procs|
        invariant 0 <= i <= |procs| && procs == old(procs)
        invariant forall j :: 0 <= j < i ==> procs[j].pid != pid
      {
        if procs[i].pid == pid {
          procs := procs[i := procs[i].(killed := true)];
          if procs[i].state.Sleeping? {
            procs := procs[i := procs[i].(state := Runnable)];
          }
          return Some(i);
        }
        i := i + 1;
      }
      return None;
    }
  }

  function Killed(p: Proc): Proc {
    if p.state.Sleeping? then p.(killed := true, state := Runnable) else p.(killed := true)
  }

  /** What the exit of p makes of entry i: a child of p is init's child now, and it is woken if
      it is p's parent in wait, or init in wait for a zombie that it inherits. */
  ghost predicate ExitedOne(procs: seq<Proc>, p: nat, init: nat, i: nat, q: Proc)
    requires p < |procs| && i < |procs|
  {
    var o := procs[i];
    && q.pid == o.pid && q.chan == o.chan && q.killed == o.killed
    && q.parent == (if o.parent == Some(p) then Some(init) else o.parent)
    && (i != p ==>
      if o.state.Sleeping? &&
        (o.chan == ChanOf(procs[p].parent) || (o.chan == Entry(init) && exists j :: ZombieChild(procs, p, j)))
      then q.state.Runnable?
      else q.state == o.state)
  }

  lemma ExitedAll(procs: seq<Proc>, p: nat, init: nat)
    requires p < |procs|
    ensures var after := Exited(procs, p, init);
      |after| == |procs| && forall i :: 0 <= i < |procs| ==> ExitedOne(procs, p, init, i, after[i])
  {
    assert HasZombie(procs, p) <==> exists j :: ZombieChild(procs, p, j);
  }

  /** Has one of the first i entries turned out to be a zombie child of p? */
  ghost predicate SomeZombie(procs: seq<Proc>, p: nat, i: nat) {
    exists j: nat :: j < i && ZombieChild(procs, p, j)
  }

  /** The table in the middle of the exit loop. */
  ghost function Halfway(woken: seq<Proc>, p: nat, init: nat, i: nat, told: bool): seq<Proc> {
    var moved := seq(|woken|, j requires 0 <= j < |woken| =>
      if j < i && woken[j].parent == Some(p) then woken[j].(parent := Some(init)) else woken[j]);
    if told then Wake(moved, Entry(init)) else moved
  }

  lemma HalfwayStep(procs: seq<Proc>, woken: seq<Proc>, p: nat, init: nat, i: nat, before: seq<Proc>, after: seq<Proc>)
    requires p < |procs| && i < |procs| && woken == Wake(procs, ChanOf(procs[p].parent))
    requires before == Halfway(woken, p, init, i, SomeZombie(procs, p, i))
    requires var mid := before[i := before[i].(parent := Some(init))];
      after ==
        if before[i].parent != Some(p) then before
        else if before[i].state.Zombie? then Wake(mid, Entry(init))
        else mid
    ensures after == Halfway(woken, p, init, i + 1, SomeZombie(procs, p, i + 1))
  {
    assert SomeZombie(procs, p, i + 1) <==> SomeZombie(procs, p, i) || ZombieChild(procs, p, i);
    var want := Halfway(woken, p, init, i + 1, SomeZombie(procs, p, i + 1));
    assert |after| == |want|;
    forall j | 0 <= j < |after| ensures after[j] == want[j] {
      assert woken[j].parent == procs[j].parent && (woken[j].state.Zombie? <==> procs[j].state.Zombie?);
    }
  }

  lemma HalfwayDone(procs: seq<Proc>, woken: seq<Proc>, p: nat, init: nat)
    requires p < |procs| && woken == Wake(procs, ChanOf(procs[p].parent))
    ensures var told := Halfway(woken, p, init, |woken|, SomeZombie(procs, p, |woken|));
            told[p := told[p].(state := Zombie)] == Exited(procs, p, init)
  {
    assert SomeZombie(procs, p, |woken|) <==> HasZombie(procs, p);
    var moved := Reparent(woken, p, init);
    var told := Halfway(woken, p, init, |woken|, SomeZombie(procs, p, |woken|));
    assert told == if HasZombie(procs, p) then Wake(moved, Entry(init)) else moved;
  }
}
