/** acquiresleep and releasesleep over sleep, wakeup and two spinlocks, one instruction
    between lock operations per step, by any number of processes. */
module SleepLock {
  import opened Params

  /** Where a process stands.  A: in acquiresleep, R: in releasesleep. */
  datatype Pc =
    | Idle
    | AWant      // about to acquire lk->lk
    | ATest      // holds lk->lk, about to test locked
    | ASleep     // in sleep, holds lk->lk, about to acquire ptable.lock
    | ADrop      // holds both, about to release lk->lk
    | AMark      // holds ptable.lock, about to set SLEEPING and enter the scheduler
    | Asleep     // SLEEPING on the lock
    | Woken      // RUNNABLE
    | AResume    // running again, holds ptable.lock
    | ATaken     // has set locked, holds lk->lk
    | Holding
    | RWant      // about to acquire lk->lk
    | RClear     // holds lk->lk, about to clear locked
    | RWake      // in wakeup, holds lk->lk, about to acquire ptable.lock
    | RScan      // holds both, about to wake the sleepers
    | RDone      // holds both, about to release ptable.lock
    | RExit      // holds lk->lk, about to release it

  datatype Table = Free | By(p: nat) | Scheduler

  /** inner is the holder of lk->lk, table of ptable.lock; owner is lk->pid when locked. */
  datatype State = State(inner: Option<nat>, table: Table, owner: Option<nat>, pcs: seq<Pc>)

  datatype Step =
    | Go(p: nat)            // process p takes its next step
    | Dispatch(p: nat)      // the scheduler resumes p
    | SchedAcquire(p: nat)
    | SchedRelease(p: nat)
    | Kill(p: nat)

  function Initial(procs: nat): State {
    State(None, Free, None, seq(procs, _ => Idle))
  }

  /** wakeup1 */
  function Wake(pcs: seq<Pc>): seq<Pc> {
    seq(|pcs|, i requires 0 <= i < |pcs| => if pcs[i].Asleep? then Woken else pcs[i])
  }

  /** Can process p take its next step?  It waits for spinlocks and while it is not running. */
  predicate Ready(s: State, p: nat)
    requires p < |s.pcs|
  {
    match s.pcs[p]
    case AWant => s.inner.None?
    case RWant => s.inner.None?
    case ASleep => s.table.Free?
    case RWake => s.table.Free?
    case Asleep => false
    case Woken => false
    case _ => true
  }

  predicate Enabled(s: State, step: Step) {
    && step.p < |s.pcs|
    && match step
       case Go(p) => Ready(s, p)
       case Dispatch(p) => s.table.Scheduler? && s.pcs[p].Woken?
       case SchedAcquire(_) => s.table.Free?
       case SchedRelease(_) => s.table.Scheduler?
       case Kill(_) => s.table.Free?
  }

  function At(s: State, p: nat, pc: Pc): seq<Pc>
    requires p < |s.pcs|
  {
    s.pcs[p := pc]
  }

  function Advance(s: State, p: nat): State
    requires p < |s.pcs| && Ready(s, p)
  {
    match s.pcs[p]
    case Idle => s.(pcs := At(s, p, AWant))
    case AWant => s.(inner := Some(p), pcs := At(s, p, ATest))
    case ATest =>
      if s.owner.Some? then s.(pcs := At(s, p, ASleep))
      else s.(owner := Some(p), pcs := At(s, p, ATaken))
    case ASleep => s.(table := By(p), pcs := At(s, p, ADrop))
    case ADrop => s.(inner := None, pcs := At(s, p, AMark))
    case AMark => s.(table := Scheduler, pcs := At(s, p, Asleep))
    case AResume => s.(table := Free, pcs := At(s, p, AWant))
    case ATaken => s.(inner := None, pcs := At(s, p, Holding))
    case Holding => s.(pcs := At(s, p, RWant))
    case RWant => s.(inner := Some(p), pcs := At(s, p, RClear))
    case RClear => s.(owner := None, pcs := At(s, p, RWake))
    case RWake => s.(table := By(p), pcs := At(s, p, RScan))
    case RScan => s.(pcs := Wake(s.pcs)[p := RDone])
    case RDone => s.(table := Free, pcs := At(s, p, RExit))
    case RExit => s.(inner := None, pcs := At(s, p, Idle))
    case _ => s
  }

  function Next(s: State, step: Step): State
    requires Enabled(s, step)
  {
    match step
    case Go(p) => Advance(s, p)
    case Dispatch(p) => s.(table := By(p), pcs := At(s, p, AResume))
    case SchedAcquire(_) => s.(table := Scheduler)
    case SchedRelease(_) => s.(table := Free)
    case Kill(p) => if s.pcs[p].Asleep? then s.(pcs := At(s, p, Woken)) else s
  }

  ghost predicate Run(s: State, steps: seq<Step>, t: State)
    decreases |steps|
  {
    if steps == [] then t == s
    else Enabled(s, steps[0]) && Run(Next(s, steps[0]), steps[1..], t)
  }

  // The invariant

  predicate HasInner(pc: Pc) {
    pc.ATest? || pc.ASleep? || pc.ADrop? || pc.ATaken? || pc.RClear? || pc.RWake? || pc.RScan? || pc.RDone? || pc.RExit?
  }

  predicate HasTable(pc: Pc) {
    pc.ADrop? || pc.AMark? || pc.AResume? || pc.RScan? || pc.RDone?
  }

  predicate HasLock(pc: Pc) {
    pc.ATaken? || pc.Holding? || pc.RWant? || pc.RClear?
  }

  /** A releaser that has cleared locked and still has its wakeup ahead. */
  predicate WakeupPending(s: State) {
    s.inner.Some? && s.inner.value < |s.pcs| && (s.pcs[s.inner.value].RWake? || s.pcs[s.inner.value].RScan?)
  }

  ghost predicate ProcOk(s: State, p: nat)
    requires p < |s.pcs|
  {
    var pc := s.pcs[p];
    && (HasInner(pc) <==> s.inner == Some(p))
    && (HasTable(pc) <==> s.table == By(p))
    && (HasLock(pc) <==> s.owner == Some(p))
    && (pc.ASleep? || pc.ADrop? ==> s.owner.Some?)
    && (pc.AMark? || pc.Asleep? ==> s.owner.Some? || WakeupPending(s))
  }

  ghost predicate Inv(s: State) {
    && (s.inner.Some? ==> s.inner.value < |s.pcs|)
    && (s.table.By? ==> s.table.p < |s.pcs|)
    && (s.owner.Some? ==> s.owner.value < |s.pcs|)
    && (forall p: nat :: p < |s.pcs| ==> ProcOk(s, p))
  }

  lemma GoInv(s: State, p: nat)
    requires Inv(s) && p < |s.pcs| && Ready(s, p)
    ensures Inv(Advance(s, p))
  {
    var t := Advance(s, p);
    assert ProcOk(s, p);
    forall q: nat | q < |t.pcs| ensures ProcOk(t, q) {
      assert ProcOk(s, q);
    }
  }

  lemma NextInv(s: State, step: Step)
    requires Inv(s) && Enabled(s, step)
    ensures Inv(Next(s, step))
  {
    if step.Go? {
      GoInv(s, step.p);
    } else {
      var t := Next(s, step);
      assert ProcOk(s, step.p);
      forall q: nat | q < |t.pcs| ensures ProcOk(t, q) {
        assert ProcOk(s, q);
      }
    }
  }

  lemma {:induction false} RunInv(s: State, steps: seq<Step>, t: State)
    requires Inv(s) && Run(s, steps, t)
    ensures Inv(t)
    decreases |steps|
  {
    if steps != [] {
      NextInv(s, steps[0]);
      RunInv(Next(s, steps[0]), steps[1..], t);
    }
  }

  /** In every run of any number of processes: one holder at most, and with lk->lk free a
      process sleeps on the lock, or is about to, only while someone holds it. */
  lemma SleepLockSafety(procs: nat, steps: seq<Step>, t: State)
    requires Run(Initial(procs), steps, t)
    ensures forall p: nat, q: nat :: p < |t.pcs| && q < |t.pcs| && HasLock(t.pcs[p]) && HasLock(t.pcs[q]) ==> p == q
    ensures forall p: nat, q: nat :: p < |t.pcs| && q < |t.pcs| && HasInner(t.pcs[p]) && HasInner(t.pcs[q]) ==> p == q
    ensures t.inner.None? && t.owner.None? ==> forall p: nat :: p < |t.pcs| ==> !t.pcs[p].Asleep? && !t.pcs[p].AMark?
    ensures t.owner.Some? ==> t.owner.value < |t.pcs| && HasLock(t.pcs[t.owner.value])
  {
    RunInv(Initial(procs), steps, t);
    forall p: nat | p < |t.pcs| ensures HasLock(t.pcs[p]) <==> t.owner == Some(p) { assert ProcOk(t, p); }
    forall p: nat | p < |t.pcs| ensures HasInner(t.pcs[p]) <==> t.inner == Some(p) { assert ProcOk(t, p); }
    forall p: nat | p < |t.pcs| && t.inner.None? && t.owner.None? ensures !t.pcs[p].Asleep? && !t.pcs[p].AMark? {
      assert ProcOk(t, p);
    }
  }

  // Calls

  predicate Acquiring(pc: Pc) {
    || pc.AWant? || pc.ATest? || pc.ASleep? || pc.ADrop? || pc.AMark? || pc.Asleep? || pc.Woken? || pc.AResume?
    || pc.ATaken?
  }

  predicate Releasing(pc: Pc) {
    pc.RWant? || pc.RClear? || pc.RWake? || pc.RScan? || pc.RDone? || pc.RExit?
  }

  lemma PhaseStep(s: State, step: Step, p: nat)
    requires Enabled(s, step) && p < |s.pcs|
    ensures var t := Next(s, step);
      && |t.pcs| == |s.pcs|
      && (s.pcs[p].Idle? ==> t.pcs[p].Idle? || Acquiring(t.pcs[p]))
      && (Acquiring(s.pcs[p]) ==> Acquiring(t.pcs[p]) || t.pcs[p].Holding?)
      && (s.pcs[p].Holding? ==> t.pcs[p].Holding? || t.pcs[p].RWant?)
      && (Releasing(s.pcs[p]) ==> Releasing(t.pcs[p]) || t.pcs[p].Idle?)
  {
  }

  lemma LockOwner(s: State, p: nat)
    requires Inv(s) && p < |s.pcs|
    ensures HasLock(s.pcs[p]) <==> s.owner == Some(p)
  {
    assert ProcOk(s, p);
  }

  /** In every run a process leaves acquiresleep only as the holder of the lock, keeps it until
      it calls releasesleep, and leaves that without it. */
  lemma CallsReturn(procs: nat, steps: seq<Step>, s: State, step: Step, p: nat)
    requires Run(Initial(procs), steps, s) && Enabled(s, step) && p < |s.pcs|
    ensures var t := Next(s, step);
      && |t.pcs| == |s.pcs|
      && (s.pcs[p].Idle? ==> t.pcs[p].Idle? || Acquiring(t.pcs[p]))
      && (Acquiring(s.pcs[p]) ==> Acquiring(t.pcs[p]) || (t.pcs[p].Holding? && t.owner == Some(p)))
      && (s.pcs[p].Holding? ==> s.owner == Some(p) == t.owner && (t.pcs[p].Holding? || Releasing(t.pcs[p])))
      && (Releasing(s.pcs[p]) ==> Releasing(t.pcs[p]) || (t.pcs[p].Idle? && t.owner != Some(p)))
  {
    RunInv(Initial(procs), steps, s);
    hide Inv, Next, Acquiring;
    NextInv(s, step);
    PhaseStep(s, step, p);
    LockOwner(s, p);
    LockOwner(Next(s, step), p);
  }

  /** Steps of its own that a process still has to take in its call. */
  function Ahead(pc: Pc): nat {
    match pc
    case ASleep => 8 case ADrop => 7 case AMark => 6 case Asleep => 5 case Woken => 5 case AResume => 4
    case AWant => 3 case ATest => 2 case ATaken => 1
    case RWant => 6 case RClear => 5 case RWake => 4 case RScan => 3 case RDone => 2 case RExit => 1
    case Idle => 0 case Holding => 0
  }

  /** Each of its steps takes a process closer to the end of its call, unless it finds the lock
      held. */
  lemma CallsProgress(s: State, p: nat)
    requires p < |s.pcs| && Ready(s, p) && !s.pcs[p].Idle? && !s.pcs[p].Holding?
    ensures Ahead(Advance(s, p).pcs[p]) < Ahead(s.pcs[p]) || (s.pcs[p].ATest? && s.owner.Some?)
  {
  }

  /** The two spinlocks cannot deadlock: unless the scheduler is at work, whenever a process
      waits for one of them some process inside the lock code can take its next step. */
  lemma NoDeadlock(procs: nat, steps: seq<Step>, t: State, p: nat)
    requires Run(Initial(procs), steps, t) && p < |t.pcs| && !t.table.Scheduler?
    requires t.pcs[p].AWant? || t.pcs[p].RWant? || t.pcs[p].ASleep? || t.pcs[p].RWake?
    ensures exists q: nat :: q < |t.pcs| && Ready(t, q) && !t.pcs[q].Idle? && !t.pcs[q].Holding?
  {
    RunInv(Initial(procs), steps, t);
    assert ProcOk(t, p);
    if !Ready(t, p) {
      var q := if t.table.By? then t.table.p else t.inner.value;
      assert ProcOk(t, q);
      assert Ready(t, q);
    }
  }
}
