/** The interrupt-driven disk driver ide.c against the synchronous one of memide.c. */
module DiskQueue {
  import opened Blocks
  import opened Params

  const FSSIZE := 1000

  datatype Buf = Buf(block: nat, valid: bool, dirty: bool, data: Block)

  /** What idestart has told the device to do. */
  datatype Command = ReadCmd(block: nat) | WriteCmd(block: nat, data: Block)

  function CommandOf(b: Buf): Command {
    if b.dirty then WriteCmd(b.block, b.data) else ReadCmd(b.block)
  }

  predicate NothingToDo(b: Buf) {
    b.valid && !b.dirty
  }

  // The synchronous driver

  /** memide.c: the buffer after iderw, and the disk after it. */
  function MemBuf(b: Buf, disk: map<nat, Block>): Buf
    requires b.block in disk
  {
    if b.dirty then b.(dirty := false, valid := true) else b.(data := disk[b.block], valid := true)
  }

  function MemDisk(b: Buf, disk: map<nat, Block>): map<nat, Block> {
    if b.dirty then disk[b.block := b.data] else disk
  }

  /** Buffers and disk together, after a synchronous iderw of buffer i. */
  datatype Store = Store(bufs: seq<Buf>, disk: map<nat, Block>)

  ghost predicate StoreOk(s: Store) {
    forall i :: 0 <= i < |s.bufs| ==> s.bufs[i].block in s.disk && s.bufs[i].block < FSSIZE
  }

  function MemIderw(s: Store, i: nat): Store
    requires i < |s.bufs| && s.bufs[i].block in s.disk
  {
    Store(s.bufs[i := MemBuf(s.bufs[i], s.disk)], MemDisk(s.bufs[i], s.disk))
  }

  // The queue

  /** idequeue and the qnext links run through the buffers of order and end. */
  ghost predicate Chained(head: Option<nat>, qnext: seq<Option<nat>>, order: seq<nat>) {
    && (forall i :: 0 <= i < |order| ==> order[i] < |qnext|)
    && (forall i, j :: 0 <= i < j < |order| ==> order[i] != order[j])
    && head == Link(order, 0)
    && (forall i: nat :: i < |order| ==> qnext[order[i]] == Link(order, i + 1))
  }

  ghost function Link(order: seq<nat>, i: nat): Option<nat> {
    if i < |order| then Some(order[i]) else None
  }

  lemma ChainHead(head: Option<nat>, qnext: seq<Option<nat>>, order: seq<nat>)
    requires Chained(head, qnext, order)
    ensures head == (if order == [] then None else Some(order[0]))
  {
  }

  lemma ChainAt(head: Option<nat>, qnext: seq<Option<nat>>, order: seq<nat>, i: nat, b: nat)
    requires Chained(head, qnext, order) && i < |order| && b !in order
    ensures order[i] < |qnext| && order[i] != b
    ensures qnext[order[i]] == (if i + 1 < |order| then Some(order[i + 1]) else None)
  {
  }

  /** Linking b behind the last buffer. */
  lemma ChainAppend(head: Option<nat>, qnext: seq<Option<nat>>, order: seq<nat>, b: nat)
    requires Chained(head, qnext, order) && b < |qnext| && b !in order
    ensures order == [] ==> Chained(Some(b), qnext[b := None], order + [b])
    ensures order != [] ==> order[|order| - 1] < |qnext|
    ensures order != [] ==> Chained(head, qnext[b := None][order[|order| - 1] := Some(b)], order + [b])
  {
    var order' := order + [b];
    if order != [] {
      var last := order[|order| - 1];
      var q := qnext[b := None][last := Some(b)];
      forall i: nat | i < |order'| ensures q[order'[i]] == Link(order', i + 1) {
        if i < |order| - 1 {
          assert order'[i] == order[i] != last && order[i] != b;
          assert qnext[order[i]] == Link(order, i + 1) == Link(order', i + 1);
        }
      }
    }
  }

  lemma ChainPop(head: Option<nat>, qnext: seq<Option<nat>>, order: seq<nat>)
    requires Chained(head, qnext, order) && order != []
    ensures order[0] < |qnext| && Chained(qnext[order[0]], qnext, order[1..])
    ensures order[0] !in order[1..]
  {
    var rest := order[1..];
    forall i: nat | i < |rest| ensures qnext[rest[i]] == Link(rest, i + 1) {
      assert qnext[order[i + 1]] == Link(order, i + 2);
    }
    assert qnext[order[0]] == Link(order, 1);
  }

  class Ide {
    var bufs: seq<Buf>
    var qnext: seq<Option<nat>>
    var idequeue: Option<nat>
    var disk: map<nat, Block>
    var device: Option<Command>
    ghost var order: seq<nat>

    ghost function Abs(): Store
      reads this
    {
      Store(bufs, disk)
    }

    /** The device works on the first queued buffer, and on its present contents. */
    ghost predicate Valid()
      reads this
    {
      && |qnext| == |bufs| && StoreOk(Abs())
      && Chained(idequeue, qnext, order)
      && (forall i :: 0 <= i < |order| ==> order[i] < |bufs| && !NothingToDo(bufs[order[i]]))
      && device == (if order == [] then None else Some(CommandOf(bufs[order[0]])))
    }

    /** iderw up to its first sleep: the request joins the end of the queue and starts the
        device if it is the only one.  false is a panic. */
    method Submit(b: nat) returns (ok: bool)
      requires Valid() && b < |bufs| && b !in order
      modifies this`qnext, this`idequeue, this`device, this`order
      ensures Valid()
      ensures ok == !NothingToDo(bufs[b])
      ensures order == if ok then old(order) + [b] else old(order)
    {
      hide Chained, StoreOk, Link;
      if NothingToDo(bufs[b]) {
        return false;
      }
      ghost var q0 := qnext;
      ChainHead(idequeue, qnext, order);
      ChainAppend(idequeue, qnext, order, b);
      qnext := qnext[b := None];
      if idequeue.None? {
        idequeue := Some(b);
      } else {
        var pp := idequeue.value;
        ghost var i := 0;
        ChainAt(idequeue, q0, order, 0, b);
        while qnext[pp].Some?
          invariant 0 <= i < |order| && pp == order[i] && pp < |qnext|
          invariant qnext == q0[b := None] && order == old(order) && idequeue == old(idequeue) && device == old(device)
          decreases |order| - i
        {
          ChainAt(idequeue, q0, order, i, b);
          i := i + 1;
          pp := qnext[pp].value;
          ChainAt(idequeue, q0, order, i, b);
        }
        ChainAt(idequeue, q0, order, i, b);
        qnext := qnext[pp := Some(b)];
      }
      order := order + [b];
      if idequeue == Some(b) {
        device := Some(CommandOf(bufs[b]));
      }
      return true;
    }

    /** The device finishes its command and interrupts; ideintr completes the first request
        exactly as the synchronous driver would and starts the next one. */
    method Interrupt() returns (woken: Option<nat>)
      requires Valid()
      modifies this
      ensures Valid()
      ensures woken == (if old(order) == [] then None else Some(old(order)[0]))
      ensures old(order) == [] ==> Abs() == old(Abs()) && order == old(order)
      ensures old(order) != [] ==> Abs() == MemIderw(old(Abs()), old(order)[0]) && order == old(order)[1..]
      ensures woken.Some? ==>
        && woken.value < |old(bufs)| == |bufs| && NothingToDo(bufs[woken.value])
        && var b := old(bufs)[woken.value];
        && bufs == old(bufs)[woken.value := bufs[woken.value]] && bufs[woken.value].block == b.block
        && (if b.dirty then bufs[woken.value].data == b.data && disk == old(disk)[b.block := b.data]
            else bufs[woken.value].data == old(disk)[b.block] && disk == old(disk))
    {
      hide Chained;
      ChainHead(idequeue, qnext, order);
      if idequeue.None? {
        return None;
      }
      ChainPop(idequeue, qnext, order);
      ChainHead(qnext[order[0]], qnext, order[1..]);
      var b := idequeue.value;
      idequeue := qnext[b];
      match device.value {
        case WriteCmd(block, data) =>
          disk := disk[block := data];
        case ReadCmd(block) =>
      }
      if !bufs[b].dirty {
        bufs := bufs[b := bufs[b].(data := disk[device.value.block])];
      }
      bufs := bufs[b := bufs[b].(valid := true, dirty := false)];
      order := order[1..];
      if idequeue.Some? {
        device := Some(CommandOf(bufs[idequeue.value]));
      } else {
        device := None;
      }
      return Some(b);
    }

    /** Whoever holds a buffer that is not queued changes it in any way: new data, a dirty
        mark, or, when bget recycles it, another block and no flags. */
    method Touch(b: nat, x: Buf)
      requires Valid() && b < |bufs| && b !in order && x.block in disk && x.block < FSSIZE
      modifies this`bufs
      ensures Valid() && bufs == old(bufs)[b := x]
    {
      bufs := bufs[b := x];
    }
  }

  // Runs

  /** The driver as values: buffers and disk, the queue, and all requests made and served. */
  datatype State = State(store: Store, queue: seq<nat>, made: seq<nat>, served: seq<nat>)

  datatype Step =
    | Request(b: nat)
    | Complete
    | Change(b: nat, x: Buf)

  ghost predicate Enabled(s: State, step: Step) {
    match step
    case Request(b) => b < |s.store.bufs| && b !in s.queue && !NothingToDo(s.store.bufs[b])
    case Complete => s.queue != [] && s.queue[0] < |s.store.bufs| && s.store.bufs[s.queue[0]].block in s.store.disk
    case Change(b, x) => b < |s.store.bufs| && b !in s.queue && x.block in s.store.disk
  }

  /** Request, Complete and Change are what Submit, Interrupt and Touch ensure. */
  ghost function Next(s: State, step: Step): State
    requires Enabled(s, step)
  {
    match step
    case Request(b) => s.(queue := s.queue + [b], made := s.made + [b])
    case Complete =>
      s.(store := MemIderw(s.store, s.queue[0]), queue := s.queue[1..], served := s.served + [s.queue[0]])
    case Change(b, x) => s.(store := s.store.(bufs := s.store.bufs[b := x]))
  }

  ghost predicate Run(s: State, steps: seq<Step>, t: State)
    decreases |steps|
  {
    if steps == [] then t == s
    else Enabled(s, steps[0]) && Run(Next(s, steps[0]), steps[1..], t)
  }

  ghost predicate QueueOk(s: State) {
    && s.made == s.served + s.queue
    && (forall i, j :: 0 <= i < j < |s.queue| ==> s.queue[i] != s.queue[j])
  }

  lemma {:induction false} RunQueue(s: State, steps: seq<Step>, t: State)
    requires QueueOk(s) && Run(s, steps, t)
    ensures QueueOk(t)
    decreases |steps|
  {
    if steps != [] {
      var m := Next(s, steps[0]);
      if steps[0].Complete? { assert s.served + s.queue == m.served + m.queue; }
      RunQueue(m, steps[1..], t);
    }
  }

  /** Requests are served in the order they were made, none twice in the queue at once. */
  lemma FirstComeFirstServed(store: Store, steps: seq<Step>, t: State)
    requires Run(State(store, [], [], []), steps, t)
    ensures t.made == t.served + t.queue && t.served <= t.made
    ensures forall i, j :: 0 <= i < j < |t.queue| ==> t.queue[i] != t.queue[j]
  {
    RunQueue(State(store, [], [], []), steps, t);
  }

  /** A synchronous run: the same changes, with iderw done on the spot. */
  datatype SyncStep = Sync(b: nat) | Edit(b: nat, x: Buf)

  ghost predicate SyncRun(s: Store, steps: seq<SyncStep>, t: Store)
    decreases |steps|
  {
    if steps == [] then t == s
    else
      match steps[0]
      case Sync(b) =>
        && b < |s.bufs| && s.bufs[b].block in s.disk && !NothingToDo(s.bufs[b])
        && SyncRun(MemIderw(s, b), steps[1..], t)
      case Edit(b, x) => b < |s.bufs| && x.block in s.disk && SyncRun(s.(bufs := s.bufs[b := x]), steps[1..], t)
  }

  /** Each request moved to the moment it completes. */
  ghost function Linear(s: State, steps: seq<Step>, t: State): seq<SyncStep>
    requires Run(s, steps, t)
    decreases |steps|
  {
    if steps == [] then []
    else
      var rest := Linear(Next(s, steps[0]), steps[1..], t);
      match steps[0]
      case Request(_) => rest
      case Complete => [Sync(s.queue[0])] + rest
      case Change(b, x) => [Edit(b, x)] + rest
  }

  ghost predicate Pending(s: State) {
    forall i :: 0 <= i < |s.queue| ==> s.queue[i] < |s.store.bufs| && !NothingToDo(s.store.bufs[s.queue[i]])
  }

  /** Refinement: whatever the interleaving of callers and interrupts, buffers and disk end
      up as if every served request had been one synchronous iderw at its completion. */
  lemma {:induction false} RefinesSync(s: State, steps: seq<Step>, t: State)
    requires QueueOk(s) && Pending(s) && Run(s, steps, t)
    ensures SyncRun(s.store, Linear(s, steps, t), t.store)
    decreases |steps|
  {
    if steps != [] {
      var m := Next(s, steps[0]);
      if steps[0].Complete? {
        assert s.served + s.queue == m.served + m.queue;
        forall i | 0 <= i < |m.queue| ensures m.queue[i] < |m.store.bufs| && !NothingToDo(m.store.bufs[m.queue[i]]) {
          assert m.queue[i] == s.queue[i + 1];
        }
      }
      RefinesSync(m, steps[1..], t);
      var rest := Linear(m, steps[1..], t);
      if !steps[0].Request? {
        assert Linear(s, steps, t)[1..] == rest;
      }
    }
  }

  // What reads return

  /** The buffers whose requests were served, as they were at that moment. */
  ghost function Served(s: State, steps: seq<Step>, t: State): seq<Buf>
    requires Run(s, steps, t)
    decreases |steps|
  {
    if steps == [] then []
    else
      var rest := Served(Next(s, steps[0]), steps[1..], t);
      if steps[0].Complete? then [s.store.bufs[s.queue[0]]] + rest else rest
  }

  /** What the last of these requests to write the block wrote, or what was there before. */
  ghost function Current(reqs: seq<Buf>, block: nat, before: Block): Block
    decreases |reqs|
  {
    if reqs == [] then before
    else Current(reqs[1..], block, if reqs[0].dirty && reqs[0].block == block then reqs[0].data else before)
  }

  /** At any time the disk holds the last write served to each block. */
  lemma {:induction false} DiskIsCurrent(s: State, steps: seq<Step>, t: State, block: nat)
    requires Run(s, steps, t) && block in s.store.disk
    ensures block in t.store.disk
    ensures t.store.disk[block] == Current(Served(s, steps, t), block, s.store.disk[block])
    decreases |steps|
  {
    if steps != [] {
      var m := Next(s, steps[0]);
      DiskIsCurrent(m, steps[1..], t, block);
      var rest := Served(m, steps[1..], t);
      if steps[0].Complete? {
        assert ([s.store.bufs[s.queue[0]]] + rest)[1..] == rest;
      }
    }
  }

  /** A read returns the last write served to its block before it, and a write keeps its data. */
  lemma ReadsLastWrite(s: State, steps: seq<Step>, t: State)
    requires Run(s, steps, t) && Enabled(t, Complete) && t.store.bufs[t.queue[0]].block in s.store.disk
    ensures var b, b' := t.store.bufs[t.queue[0]], Next(t, Complete).store.bufs[t.queue[0]];
      && b'.block == b.block && b'.valid && !b'.dirty
      && b'.data == if b.dirty then b.data else Current(Served(s, steps, t), b.block, s.store.disk[b.block])
  {
    DiskIsCurrent(s, steps, t, t.store.bufs[t.queue[0]].block);
  }

  /** Buffer b is in the queue in every state of the run. */
  ghost predicate Queued(s: State, steps: seq<Step>, t: State, b: nat)
    requires Run(s, steps, t)
    decreases |steps|
  {
    b in s.queue && (steps != [] ==> Queued(Next(s, steps[0]), steps[1..], t, b))
  }

  /** Nobody changes a buffer between its request and its completion, so the synchronous
      iderw at completion acts on the buffer as it was requested. */
  lemma {:induction false} BufferUntouched(s: State, steps: seq<Step>, t: State, b: nat)
    requires QueueOk(s) && Run(s, steps, t) && Queued(s, steps, t, b) && b < |s.store.bufs|
    ensures b < |t.store.bufs| && t.store.bufs[b] == s.store.bufs[b]
    decreases |steps|
  {
    if steps != [] {
      var m := Next(s, steps[0]);
      assert b in m.queue;
      if steps[0].Complete? {
        assert s.served + s.queue == m.served + m.queue;
        assert s.queue[0] !in m.queue;
      }
      BufferUntouched(m, steps[1..], t, b);
    }
  }
}
