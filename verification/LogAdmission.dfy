/** begin_op, log_write and end_op of log.c as atomic steps of any number of processes.
    A step is one critical section of log.lock; log_write checks its guard before it
    takes the lock, so the guard is a step of its own. */
module LogAdmission {
  import opened Params

  /** Where a process stands: outside, about to test in begin_op, asleep in begin_op,
      inside an operation that has added `spent` blocks, past the guard of log_write,
      committing, or past the commit but not yet announced. */
  datatype Pc =
    | Out
    | Trying
    | Asleep
    | Op(spent: nat)
    | Logging(spent: nat, b: nat)
    | Committing
    | Erased

  datatype State = State(size: nat, blocks: seq<nat>, outstanding: nat, committing: bool, pcs: seq<Pc>)

  datatype Step =
    | Call(p: nat)
    | Begin(p: nat)
    | Guard(p: nat, b: nat)
    | Append(p: nat)
    | End(p: nat)
    | Erase(p: nat)
    | Announce(p: nat)
    | Kill(p: nat)

  function Initial(size: nat, procs: nat): State {
    State(size, [], 0, false, seq(procs, _ => Out))
  }

  /** wakeup(&log) */
  function Woken(pcs: seq<Pc>): seq<Pc> {
    seq(|pcs|, i requires 0 <= i < |pcs| => if pcs[i].Asleep? then Trying else pcs[i])
  }

  predicate Room(s: State) {
    |s.blocks| + (s.outstanding + 1) * MAXOPBLOCKS <= LOGSIZE
  }

  /** log_write passes its guard; otherwise the kernel panics. */
  predicate GuardPasses(s: State) {
    |s.blocks| < LOGSIZE && |s.blocks| < s.size - 1 && s.outstanding >= 1
  }

  function Absorb(blocks: seq<nat>, b: nat): seq<nat> {
    if b in blocks then blocks else blocks + [b]
  }

  /** Which steps a process may take.  An operation adds at most MAXOPBLOCKS blocks. */
  predicate Enabled(s: State, step: Step) {
    && step.p < |s.pcs|
    && var pc := s.pcs[step.p];
    match step
    case Call(_) => pc.Out?
    case Begin(_) => pc.Trying?
    case Guard(_, b) => pc.Op? && (pc.spent < MAXOPBLOCKS || b in s.blocks) && GuardPasses(s)
    case Append(_) => pc.Logging?
    case End(_) => pc.Op?
    case Erase(_) => pc.Committing?
    case Announce(_) => pc.Erased?
    case Kill(_) => true
  }

  function Next(s: State, step: Step): State
    requires Enabled(s, step)
  {
    var p, pc := step.p, s.pcs[step.p];
    match step
    case Call(_) => s.(pcs := s.pcs[p := Trying])
    case Begin(_) =>
      if s.committing || !Room(s) then s.(pcs := s.pcs[p := Asleep])
      else s.(outstanding := s.outstanding + 1, pcs := s.pcs[p := Op(0)])
    case Guard(_, b) => s.(pcs := s.pcs[p := Logging(pc.spent, b)])
    case Append(_) =>
      s.(blocks := Absorb(s.blocks, pc.b),
         pcs := s.pcs[p := Op(if pc.b in s.blocks then pc.spent else pc.spent + 1)])
    case End(_) =>
      var left := if s.outstanding > 0 then s.outstanding - 1 else 0;
      if left == 0 then s.(outstanding := 0, committing := true, pcs := s.pcs[p := Committing])
      else s.(outstanding := left, pcs := Woken(s.pcs[p := Out]))
    case Erase(_) => s.(blocks := [], pcs := s.pcs[p := Erased])
    case Announce(_) => s.(committing := false, pcs := Woken(s.pcs[p := Out]))
    case Kill(_) => if pc.Asleep? then s.(pcs := s.pcs[p := Trying]) else s
  }

  /** The state after a run from s, if every step is enabled in turn. */
  ghost predicate Run(s: State, steps: seq<Step>, t: State)
    decreases |steps|
  {
    if steps == [] then t == s
    else Enabled(s, steps[0]) && Run(Next(s, steps[0]), steps[1..], t)
  }

  ghost predicate Reachable(size: nat, procs: nat, t: State) {
    exists steps :: Run(Initial(size, procs), steps, t)
  }

  // Sums over all processes

  function InOp(pc: Pc): nat { if pc.Op? || pc.Logging? then 1 else 0 }

  function InCommit(pc: Pc): nat { if pc.Committing? || pc.Erased? then 1 else 0 }

  /** What an operation may still add to the log. */
  function Unspent(pc: Pc): nat {
    if (pc.Op? || pc.Logging?) && pc.spent <= MAXOPBLOCKS then MAXOPBLOCKS - pc.spent else 0
  }

  function Total(w: Pc -> nat, pcs: seq<Pc>): nat {
    if pcs == [] then 0 else Total(w, pcs[..|pcs| - 1]) + w(pcs[|pcs| - 1])
  }

  lemma {:induction false} TotalUpdate(w: Pc -> nat, pcs: seq<Pc>, p: nat, pc: Pc)
    requires p < |pcs|
    ensures Total(w, pcs[p := pc]) + w(pcs[p]) == Total(w, pcs) + w(pc)
  {
    var last := |pcs| - 1;
    if p < last {
      TotalUpdate(w, pcs[..last], p, pc);
      assert pcs[p := pc][..last] == pcs[..last][p := pc];
    } else {
      assert pcs[p := pc][..last] == pcs[..last];
    }
  }

  lemma {:induction false} TotalWoken(w: Pc -> nat, pcs: seq<Pc>)
    requires w(Asleep) == w(Trying)
    ensures Total(w, Woken(pcs)) == Total(w, pcs)
  {
    if pcs != [] {
      TotalWoken(w, pcs[..|pcs| - 1]);
      assert Woken(pcs)[..|pcs| - 1] == Woken(pcs[..|pcs| - 1]);
    }
  }

  lemma {:induction false} TotalZero(w: Pc -> nat, pcs: seq<Pc>, p: nat)
    requires p < |pcs|
    ensures w(pcs[p]) <= Total(w, pcs)
  {
    if p < |pcs| - 1 {
      TotalZero(w, pcs[..|pcs| - 1], p);
    }
  }

  lemma {:induction false} UnspentBound(pcs: seq<Pc>)
    ensures Total(Unspent, pcs) <= MAXOPBLOCKS * Total(InOp, pcs)
  {
    if pcs != [] {
      UnspentBound(pcs[..|pcs| - 1]);
    }
  }

  lemma {:induction false} TotalOut(w: Pc -> nat, n: nat)
    requires w(Out) == 0
    ensures Total(w, seq(n, _ => Out)) == 0
  {
    if n > 0 {
      TotalOut(w, n - 1);
      assert seq(n, _ => Out)[..n - 1] == seq(n - 1, _ => Out);
    }
  }

  // The invariant

  ghost predicate PcOk(s: State, pc: Pc) {
    && (pc.Op? ==> pc.spent <= MAXOPBLOCKS)
    && (pc.Logging? ==> pc.spent < MAXOPBLOCKS || (pc.spent == MAXOPBLOCKS && pc.b in s.blocks))
    && (pc.Asleep? ==> s.committing || (s.outstanding > 0 && !Room(s)))
    && (pc.Erased? ==> s.blocks == [])
  }

  ghost predicate Inv(s: State) {
    && s.outstanding == Total(InOp, s.pcs)
    && Total(InCommit, s.pcs) == (if s.committing then 1 else 0)
    && (s.committing ==> s.outstanding == 0)
    && (s.outstanding == 0 && !s.committing ==> s.blocks == [])
    && |s.blocks| + Total(Unspent, s.pcs) <= LOGSIZE
    && (forall i, j :: 0 <= i < j < |s.blocks| ==> s.blocks[i] != s.blocks[j])
    && (forall p :: 0 <= p < |s.pcs| ==> PcOk(s, s.pcs[p]))
  }

  lemma InitialInv(size: nat, procs: nat)
    ensures Inv(Initial(size, procs))
  {
    TotalOut(InOp, procs);
    TotalOut(InCommit, procs);
    TotalOut(Unspent, procs);
  }

  /** How one process's change moves the three sums. */
  lemma Sums(pcs: seq<Pc>, p: nat, pc: Pc)
    requires p < |pcs|
    ensures Total(InOp, pcs[p := pc]) + InOp(pcs[p]) == Total(InOp, pcs) + InOp(pc)
    ensures Total(InCommit, pcs[p := pc]) + InCommit(pcs[p]) == Total(InCommit, pcs) + InCommit(pc)
    ensures Total(Unspent, pcs[p := pc]) + Unspent(pcs[p]) == Total(Unspent, pcs) + Unspent(pc)
    ensures InOp(pcs[p]) <= Total(InOp, pcs)
    ensures InCommit(pcs[p]) <= Total(InCommit, pcs)
    ensures Unspent(pcs[p]) <= Total(Unspent, pcs)
  {
    TotalUpdate(InOp, pcs, p, pc);
    TotalUpdate(InCommit, pcs, p, pc);
    TotalUpdate(Unspent, pcs, p, pc);
    TotalZero(InOp, pcs, p);
    TotalZero(InCommit, pcs, p);
    TotalZero(Unspent, pcs, p);
  }

  lemma WokenSums(pcs: seq<Pc>)
    ensures Total(InOp, Woken(pcs)) == Total(InOp, pcs)
    ensures Total(InCommit, Woken(pcs)) == Total(InCommit, pcs)
    ensures Total(Unspent, Woken(pcs)) == Total(Unspent, pcs)
  {
    TotalWoken(InOp, pcs);
    TotalWoken(InCommit, pcs);
    TotalWoken(Unspent, pcs);
  }

  lemma BeginInv(s: State, p: nat)
    requires Inv(s) && Enabled(s, Begin(p))
    ensures Inv(Next(s, Begin(p)))
  {
    var t := Next(s, Begin(p));
    Sums(s.pcs, p, t.pcs[p]);
    UnspentBound(s.pcs);
    forall q | 0 <= q < |t.pcs| ensures PcOk(t, t.pcs[q]) { assert PcOk(s, s.pcs[q]); }
  }

  lemma AppendInv(s: State, p: nat)
    requires Inv(s) && Enabled(s, Append(p))
    ensures Inv(Next(s, Append(p)))
  {
    var t := Next(s, Append(p));
    Sums(s.pcs, p, t.pcs[p]);
    assert PcOk(s, s.pcs[p]);
    NoneInCommit(s.pcs);
    forall q | 0 <= q < |t.pcs| ensures PcOk(t, t.pcs[q]) { assert PcOk(s, s.pcs[q]); }
  }

  lemma EndInv(s: State, p: nat)
    requires Inv(s) && Enabled(s, End(p))
    ensures Inv(Next(s, End(p)))
  {
    var t := Next(s, End(p));
    var pc := if s.outstanding <= 1 then Committing else Out;
    Sums(s.pcs, p, pc);
    WokenSums(s.pcs[p := Out]);
    forall q | 0 <= q < |t.pcs| ensures PcOk(t, t.pcs[q]) { assert PcOk(s, s.pcs[q]); }
  }

  lemma EraseInv(s: State, p: nat)
    requires Inv(s) && Enabled(s, Erase(p))
    ensures Inv(Next(s, Erase(p)))
  {
    var t := Next(s, Erase(p));
    Sums(s.pcs, p, Erased);
    NoneInOp(s.pcs);
    forall q | 0 <= q < |t.pcs| ensures PcOk(t, t.pcs[q]) { assert PcOk(s, s.pcs[q]); }
  }

  lemma AnnounceInv(s: State, p: nat)
    requires Inv(s) && Enabled(s, Announce(p))
    ensures Inv(Next(s, Announce(p)))
  {
    var t := Next(s, Announce(p));
    Sums(s.pcs, p, Out);
    WokenSums(s.pcs[p := Out]);
    assert PcOk(s, s.pcs[p]);
    forall q | 0 <= q < |t.pcs| ensures PcOk(t, t.pcs[q]) { assert PcOk(s, s.pcs[q]); }
  }

  /** Entering begin_op, passing the guard of log_write and being killed. */
  lemma OtherInv(s: State, step: Step)
    requires Inv(s) && Enabled(s, step) && (step.Call? || step.Guard? || step.Kill?)
    ensures Inv(Next(s, step))
  {
    var p, t := step.p, Next(s, step);
    Sums(s.pcs, p, t.pcs[p]);
    forall q | 0 <= q < |t.pcs| ensures PcOk(t, t.pcs[q]) { assert PcOk(s, s.pcs[q]); }
  }

  /** Every step of every process keeps the invariant. */
  lemma NextInv(s: State, step: Step)
    requires Inv(s) && Enabled(s, step)
    ensures Inv(Next(s, step))
  {
    hide Inv, Next;
    match step {
      case Begin(p) => BeginInv(s, p);
      case Append(p) => AppendInv(s, p);
      case End(p) => EndInv(s, p);
      case Erase(p) => EraseInv(s, p);
      case Announce(p) => AnnounceInv(s, p);
      case _ => OtherInv(s, step);
    }
  }

  lemma NoneInCommit(pcs: seq<Pc>)
    ensures Total(InCommit, pcs) == 0 ==> forall p :: 0 <= p < |pcs| ==> !pcs[p].Committing? && !pcs[p].Erased?
  {
    forall p | 0 <= p < |pcs| && Total(InCommit, pcs) == 0 ensures !pcs[p].Committing? && !pcs[p].Erased? {
      TotalZero(InCommit, pcs, p);
    }
  }

  /** With no operation counted, no process is inside one. */
  lemma NoneInOp(pcs: seq<Pc>)
    ensures Total(InOp, pcs) == 0 ==> forall p :: 0 <= p < |pcs| ==> !pcs[p].Op? && !pcs[p].Logging?
  {
    forall p | 0 <= p < |pcs| && Total(InOp, pcs) == 0 ensures !pcs[p].Op? && !pcs[p].Logging? {
      TotalZero(InOp, pcs, p);
    }
  }

  lemma {:induction false} RunInv(s: State, steps: seq<Step>, t: State)
    requires Inv(s) && Run(s, steps, t)
    ensures Inv(t) && t.size == s.size
    decreases |steps|
  {
    if steps != [] {
      NextInv(s, steps[0]);
      RunInv(Next(s, steps[0]), steps[1..], t);
    }
  }

  // What holds in every reachable state

  /** Admission safety: a commit runs alone, what is logged plus all that running
      operations may still log fits, and a process sleeps only while a commit runs or while
      there is no room for one more operation, with someone left to wake it. */
  lemma AdmissionSafety(size: nat, procs: nat, t: State)
    requires Reachable(size, procs, t)
    ensures t.committing ==> t.outstanding == 0
    ensures t.outstanding == Total(InOp, t.pcs)
    ensures |t.blocks| + Total(Unspent, t.pcs) <= LOGSIZE
    ensures (exists p :: 0 <= p < |t.pcs| && t.pcs[p].Asleep?) ==>
      t.committing || (t.outstanding > 0 && |t.blocks| + (t.outstanding + 1) * MAXOPBLOCKS > LOGSIZE)
    ensures forall p :: 0 <= p < |t.pcs| && t.pcs[p].Logging? ==> |Absorb(t.blocks, t.pcs[p].b)| <= LOGSIZE
  {
    var steps :| Run(Initial(size, procs), steps, t);
    InitialInv(size, procs);
    RunInv(Initial(size, procs), steps, t);
    forall p | 0 <= p < |t.pcs| && t.pcs[p].Logging? ensures |Absorb(t.blocks, t.pcs[p].b)| <= LOGSIZE {
      assert PcOk(t, t.pcs[p]);
      TotalZero(Unspent, t.pcs, p);
    }
    forall p | 0 <= p < |t.pcs| && t.pcs[p].Asleep? ensures t.outstanding > 0 || t.committing {
      assert PcOk(t, t.pcs[p]);
    }
  }

  /** end_op never finds log.committing set, and begin_op always gets through in the end:
      with nothing outstanding and no commit running there is room for an operation. */
  lemma NoPanicNoBlock(size: nat, procs: nat, t: State)
    requires Reachable(size, procs, t)
    ensures forall p :: 0 <= p < |t.pcs| && t.pcs[p].Op? ==> !t.committing && t.outstanding >= 1
    ensures !t.committing && t.outstanding == 0 ==> Room(t)
  {
    var steps :| Run(Initial(size, procs), steps, t);
    InitialInv(size, procs);
    RunInv(Initial(size, procs), steps, t);
    forall p | 0 <= p < |t.pcs| && t.pcs[p].Op? ensures !t.committing && t.outstanding >= 1 {
      TotalZero(InOp, t.pcs, p);
    }
  }

  // The guard of log_write

  /** Some operation that may still add a block would panic in log_write. */
  ghost predicate Stuck(t: State) {
    exists p :: 0 <= p < |t.pcs| && t.pcs[p].Op? && t.pcs[p].spent < MAXOPBLOCKS && !GuardPasses(t)
  }

  lemma GuardSafe(size: nat, procs: nat, t: State)
    requires Reachable(size, procs, t) && size >= LOGSIZE + 1
    ensures !Stuck(t)
  {
    var steps :| Run(Initial(size, procs), steps, t);
    InitialInv(size, procs);
    RunInv(Initial(size, procs), steps, t);
    forall p | 0 <= p < |t.pcs| && t.pcs[p].Op? && t.pcs[p].spent < MAXOPBLOCKS ensures GuardPasses(t) {
      TotalZero(Unspent, t.pcs, p);
      TotalZero(InOp, t.pcs, p);
    }
  }

  lemma {:induction false} RunThen(s: State, steps: seq<Step>, t: State, step: Step)
    requires Run(s, steps, t) && Enabled(t, step)
    ensures Run(s, steps + [step], Next(t, step))
    decreases |steps|
  {
    if steps == [] {
      assert [step][1..] == [];
    } else {
      RunThen(Next(s, steps[0]), steps[1..], t, step);
      assert (steps + [step])[1..] == steps[1..] + [step];
    }
  }

  lemma ReachNext(size: nat, procs: nat, t: State, step: Step)
    requires Reachable(size, procs, t) && Enabled(t, step)
    ensures Reachable(size, procs, Next(t, step))
  {
    var steps :| Run(Initial(size, procs), steps, t);
    RunThen(Initial(size, procs), steps, t, step);
  }

  /** Three operations have together logged blocks 0 to k - 1, taking turns. */
  function Filled(size: nat, k: nat): State {
    State(size, seq(k, i => i), 3, false, [Op(Share(k, 0)), Op(Share(k, 1)), Op(Share(k, 2))])
  }

  /** What process p has logged once k blocks are. */
  function Share(k: nat, p: nat): nat
    requires p < 3
  {
    (k + 2 - p) / 3
  }

  lemma ShareNext(k: nat, p: nat)
    requires p < 3
    ensures Share(k + 1, p) == if p == k % 3 then Share(k, p) + 1 else Share(k, p)
    ensures k < LOGSIZE && p == k % 3 ==> Share(k, p) < MAXOPBLOCKS
  {
    var q, r := k / 3, k % 3;
    assert k == 3 * q + r;
    assert Share(k, p) == if p < r then q + 1 else q;
  }

  lemma ThreeBegin(size: nat)
    ensures Reachable(size, 3, Filled(size, 0))
  {
    var s0 := Initial(size, 3);
    assert Run(s0, [], s0);
    var s1 := Next(s0, Call(0));
    ReachNext(size, 3, s0, Call(0));
    var s2 := Next(s1, Begin(0));
    ReachNext(size, 3, s1, Begin(0));
    var s3 := Next(s2, Call(1));
    ReachNext(size, 3, s2, Call(1));
    var s4 := Next(s3, Begin(1));
    ReachNext(size, 3, s3, Begin(1));
    var s5 := Next(s4, Call(2));
    ReachNext(size, 3, s4, Call(2));
    ReachNext(size, 3, s5, Begin(2));
    assert Next(s5, Begin(2)).pcs == [Op(0), Op(0), Op(0)];
    assert Next(s5, Begin(2)) == Filled(size, 0);
  }

  /** How many turns after the one at k process p has its own. */
  function Ahead(k: nat, p: nat): nat
    requires p < 3
  {
    (p + 3 - k % 3) % 3
  }

  lemma AheadNext(k: nat, p: nat)
    requires p < 3
    ensures Ahead(k, p) < 3 && (Ahead(k, p) == 0 <==> p == k % 3)
    ensures Ahead(k + 1, p) == if p == k % 3 then 2 else Ahead(k, p) - 1
  {
    var q, r := k / 3, k % 3;
    assert k == 3 * q + r && (k + 1) % 3 == if r == 2 then 0 else r + 1;
  }

  lemma AheadIs(k: nat, m: nat, p: nat)
    requires p < 3 && m < 3
    ensures Ahead(k, p) == m <==> p == (k + m) % 3
  {
    var q, r := k / 3, k % 3;
    assert k == 3 * q + r && (k + m) % 3 == if r + m >= 3 then r + m - 3 else r + m;
  }

  /** As Filled, with the next m processes past their guards, about to log k to k + m - 1. */
  function Raced(size: nat, k: nat, m: nat): State {
    var s := Filled(size, k);
    s.(pcs := seq(3, p requires 0 <= p < 3 =>
      if Ahead(k, p) < m then Logging(s.pcs[p].spent, k + Ahead(k, p)) else s.pcs[p]))
  }

  lemma RacedNone(size: nat, k: nat)
    ensures Raced(size, k, 0) == Filled(size, k)
  {
    assert Raced(size, k, 0).pcs == Filled(size, k).pcs;
  }

  lemma RaceGuard(size: nat, k: nat, m: nat)
    requires m < 3 && k + m < LOGSIZE && k + 1 < size
    ensures Enabled(Raced(size, k, m), Guard((k + m) % 3, k + m))
    ensures Next(Raced(size, k, m), Guard((k + m) % 3, k + m)) == Raced(size, k, m + 1)
  {
    hide Share, Ahead;
    var q := (k + m) % 3;
    forall p: nat | p < 3 ensures Ahead(k, p) == m <==> p == q { AheadIs(k, m, p); }
    RaceShare(k, m);
    var t, u := Next(Raced(size, k, m), Guard(q, k + m)), Raced(size, k, m + 1);
    forall p: nat | p < 3 ensures t.pcs[p] == u.pcs[p] {
    }
    assert t.pcs == u.pcs;
  }

  /** The process whose turn is m turns away has some budget left. */
  lemma RaceShare(k: nat, m: nat)
    requires m < 3 && k + m < LOGSIZE
    ensures Share(k, (k + m) % 3) < MAXOPBLOCKS
  {
    var p := (k + m) % 3;
    ShareNext(k + m, p);
    ShareGrows(k, k + m, p);
  }

  lemma ShareGrows(k: nat, k': nat, p: nat)
    requires p < 3 && k <= k'
    ensures Share(k, p) <= Share(k', p)
  {
  }

  lemma RaceAppend(size: nat, k: nat, m: nat)
    requires 1 <= m <= 3 && k + m <= LOGSIZE
    ensures Enabled(Raced(size, k, m), Append(k % 3))
    ensures Next(Raced(size, k, m), Append(k % 3)) == Raced(size, k + 1, m - 1)
  {
    hide Share, Ahead;
    forall p: nat | p < 3
      ensures Share(k + 1, p) == (if p == k % 3 then Share(k, p) + 1 else Share(k, p))
      ensures (Ahead(k, p) == 0 <==> p == k % 3) && Ahead(k + 1, p) == if p == k % 3 then 2 else Ahead(k, p) - 1
    {
      ShareNext(k, p);
      AheadNext(k, p);
    }
    var t, u := Next(Raced(size, k, m), Append(k % 3)), Raced(size, k + 1, m - 1);
    assert t.blocks == u.blocks;
    forall p: nat | p < 3 ensures t.pcs[p] == u.pcs[p] {
    }
    assert t.pcs == u.pcs;
  }

  /** m processes pass the guard before any of them appends. */
  lemma {:induction false} RaceReachable(size: nat, k: nat, m: nat)
    requires m <= 3 && k + m <= LOGSIZE && (m == 0 || k + 1 < size) && Reachable(size, 3, Filled(size, k))
    ensures Reachable(size, 3, Raced(size, k, m))
  {
    hide Raced, Filled, Enabled, Next, Reachable;
    RacedNone(size, k);
    if m > 0 {
      RaceReachable(size, k, m - 1);
      RaceGuard(size, k, m - 1);
      ReachNext(size, 3, Raced(size, k, m - 1), Guard((k + m - 1) % 3, k + m - 1));
    }
  }

  /** Then each of them appends its block. */
  lemma {:induction false} RaceEnds(size: nat, k: nat, m: nat)
    requires m <= 3 && k + m <= LOGSIZE && Reachable(size, 3, Raced(size, k, m))
    ensures Reachable(size, 3, Filled(size, k + m))
    decreases m
  {
    hide Raced, Filled, Enabled, Next, Reachable;
    RacedNone(size, k);
    if m > 0 {
      RaceAppend(size, k, m);
      ReachNext(size, 3, Raced(size, k, m), Append(k % 3));
      RaceEnds(size, k + 1, m - 1);
    }
  }

  lemma {:induction false} FilledReachable(size: nat, k: nat)
    requires k <= LOGSIZE && (k == 0 || k < size)
    ensures Reachable(size, 3, Filled(size, k))
  {
    if k == 0 {
      ThreeBegin(size);
    } else {
      FilledReachable(size, k - 1);
      RaceReachable(size, k - 1, 1);
      RaceEnds(size, k - 1, 1);
    }
  }

  /** A race of m processes for what looks like one place. */
  lemma Overfilled(size: nat, k: nat, m: nat)
    requires m <= 3 && k + m <= LOGSIZE && k + 1 < size
    ensures Reachable(size, 3, Filled(size, k + m))
  {
    FilledReachable(size, k);
    RaceReachable(size, k, m);
    RaceEnds(size, k, m);
  }

  /** An operation inside its budget is safe from the panic in log_write exactly when the
      log area has a header and LOGSIZE data blocks.  mkfs.c reserves one block less. */
  lemma GuardSafeIff(size: nat)
    ensures (forall procs: nat, t :: Reachable(size, procs, t) ==> !Stuck(t)) <==> size >= LOGSIZE + 1
  {
    if size >= LOGSIZE + 1 {
      forall procs: nat, t | Reachable(size, procs, t) ensures !Stuck(t) {
        GuardSafe(size, procs, t);
      }
    } else {
      var k := if size == 0 then 0 else size - 1;
      FilledReachable(size, k);
      var t := Filled(size, k);
      assert t.pcs[2].Op? && t.pcs[2].spent < MAXOPBLOCKS && !GuardPasses(t);
      assert Stuck(t);
    }
  }

  /** Even in a large enough log, an operation that has spent its budget panics on a block
      that is already logged, which needs no space: the guard runs before absorption. */
  lemma AbsorbedWriteCanPanic(size: nat)
    requires size >= LOGSIZE + 1
    ensures exists t, p, b ::
      Reachable(size, 3, t) && 0 <= p < |t.pcs| && t.pcs[p] == Op(MAXOPBLOCKS) && b in t.blocks && !GuardPasses(t)
  {
    FilledReachable(size, LOGSIZE);
    var t := Filled(size, LOGSIZE);
    assert t.blocks[0] == 0;
    assert Reachable(size, 3, t) && t.pcs[0] == Op(MAXOPBLOCKS) && 0 in t.blocks && !GuardPasses(t);
  }

  /** In such a log, an operation that has added c blocks can always write once more, be the
      block logged already or not, exactly when c is still below its budget. */
  lemma BudgetGuardIff(size: nat, c: nat)
    requires size >= LOGSIZE + 1 && c <= MAXOPBLOCKS
    ensures c < MAXOPBLOCKS <==>
      forall procs: nat, t, p :: Reachable(size, procs, t) && 0 <= p < |t.pcs| && t.pcs[p] == Op(c) ==> GuardPasses(t)
  {
    forall procs: nat, t, p | Reachable(size, procs, t) && 0 <= p < |t.pcs| && t.pcs[p] == Op(c) && c < MAXOPBLOCKS
      ensures GuardPasses(t)
    {
      GuardSafe(size, procs, t);
    }
    FilledReachable(size, LOGSIZE);
    var t := Filled(size, LOGSIZE);
    assert t.pcs[0] == Op(MAXOPBLOCKS) && !GuardPasses(t);
  }

  // What the unlocked guard lets through

  function Racing(pc: Pc): nat { if pc.Logging? then 1 else 0 }

  /** At most three operations are open, so at most two more blocks get in after a process
      has found the last free place. */
  ghost predicate Tight(s: State) {
    && s.outstanding <= 3
    && |s.blocks| + Total(Racing, s.pcs) <= (if s.size < 2 then 0 else s.size + 1)
  }

  lemma {:induction false} RacingBound(pcs: seq<Pc>)
    ensures Total(Racing, pcs) <= Total(InOp, pcs)
  {
    if pcs != [] {
      RacingBound(pcs[..|pcs| - 1]);
    }
  }

  lemma TightNext(s: State, step: Step)
    requires Inv(s) && Tight(s) && Enabled(s, step)
    ensures Tight(Next(s, step))
  {
    var p, t := step.p, Next(s, step);
    NextInv(s, step);
    RacingBound(t.pcs);
    TotalZero(Racing, s.pcs, p);
    if step.End? || step.Announce? {
      var pc := if step.End? && s.outstanding <= 1 then Committing else Out;
      TotalUpdate(Racing, s.pcs, p, pc);
      TotalWoken(Racing, s.pcs[p := pc]);
    } else {
      TotalUpdate(Racing, s.pcs, p, t.pcs[p]);
      assert t.pcs == s.pcs[p := t.pcs[p]];
    }
  }

  lemma {:induction false} TightRun(s: State, steps: seq<Step>, t: State)
    requires Inv(s) && Tight(s) && Run(s, steps, t)
    ensures Inv(t) && Tight(t) && t.size == s.size
    decreases |steps|
  {
    if steps != [] {
      NextInv(s, steps[0]);
      TightNext(s, steps[0]);
      TightRun(Next(s, steps[0]), steps[1..], t);
    }
  }

  lemma TightReachable(size: nat, procs: nat, t: State)
    requires Reachable(size, procs, t)
    ensures Inv(t) && Tight(t) && t.size == size
  {
    var steps :| Run(Initial(size, procs), steps, t);
    InitialInv(size, procs);
    TotalOut(Racing, procs);
    TightRun(Initial(size, procs), steps, t);
  }

  /** The block list never outgrows the log area exactly when nothing can be logged at all or
      the area holds all that can be admitted: the guard is tested outside the lock, so in
      between two processes can both take the last place. */
  lemma LogAreaIff(size: nat)
    ensures (forall procs: nat, t :: Reachable(size, procs, t) ==> t.blocks == [] || |t.blocks| < size)
      <==> size < 2 || size >= LOGSIZE + 1
  {
    forall procs: nat, t | Reachable(size, procs, t) && (size < 2 || size >= LOGSIZE + 1)
      ensures t.blocks == [] || |t.blocks| < size
    {
      TightReachable(size, procs, t);
    }
    if 2 <= size <= LOGSIZE {
      Overfilled(size, size - 2, 2);
      assert |Filled(size, size).blocks| == size;
    }
  }

  /** A commit about to run with every buffer of the cache pinned. */
  ghost predicate Exhausts(t: State) {
    exists p :: 0 <= p < |t.pcs| && t.pcs[p].Committing? && |t.blocks| >= NBUF
  }

  /** The last of three operations ends with LOGSIZE blocks logged. */
  lemma FullCommit(size: nat)
    requires size >= LOGSIZE - 1
    ensures exists t :: Reachable(size, 3, t) && Exhausts(t)
  {
    Overfilled(size, LOGSIZE - 3, 3);
    var t0 := Filled(size, LOGSIZE);
    var t1 := Next(t0, End(0));
    ReachNext(size, 3, t0, End(0));
    var t2 := Next(t1, End(1));
    ReachNext(size, 3, t1, End(1));
    var t3 := Next(t2, End(2));
    ReachNext(size, 3, t2, End(2));
    assert t3.pcs[2].Committing? && |t3.blocks| == LOGSIZE;
    assert Exhausts(t3);
  }

  /** No commit finds the whole cache pinned exactly when the log area has at most NBUF - 2
      blocks: with more, three operations that race past the guard can log NBUF blocks. */
  lemma CacheSafeIff(size: nat)
    ensures (forall procs: nat, t :: Reachable(size, procs, t) ==> !Exhausts(t)) <==> size <= NBUF - 2
  {
    forall procs: nat, t | Reachable(size, procs, t) && size <= NBUF - 2 ensures !Exhausts(t) {
      TightReachable(size, procs, t);
    }
    if size > NBUF - 2 {
      FullCommit(size);
    }
  }

  /** LOGSIZE equals NBUF, so no size of the log area avoids both panics, the one in log_write
      and the one in bget. */
  lemma NoSafeSize(size: nat)
    ensures exists procs: nat, t :: Reachable(size, procs, t) && (Stuck(t) || Exhausts(t))
  {
    GuardSafeIff(size);
    CacheSafeIff(size);
    if size <= LOGSIZE {
      var procs: nat, t :| Reachable(size, procs, t) && Stuck(t);
    } else {
      var procs: nat, t :| Reachable(size, procs, t) && Exhausts(t);
    }
  }
}
